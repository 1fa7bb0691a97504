# Cash-flow feature engineering, modelled in Dafny

The investment-decision predictor turns a user's cash-flow list into three
features before it asks its classifier for a decision. `parse_cash_flows`
takes text such as `"[50000, 60000, 70000]"` and processes it in four steps:

1. It removes the runs of `[` and `]` at both ends (`str.strip('[]')`).
2. It cuts the rest at every comma (`str.split(',')`).
3. It trims whitespace from each piece (`str.strip()`).
4. It reads each piece with `float()`.

If `float()` refuses any piece, the whole call answers `None`. Otherwise
the series is summarised as three features:

- `Total_Cash_Inflows`: the sum of the series.
- `Avg_Cash_Flow`: the mean.
- `CF_Volatility`: the population standard deviation, as computed by `np.std`.

The project models this function with pure functions over strings and
exact reals. It is split into five modules:

- `Wrappers` (wrappers.dfy): the `Option` type that stands for a value or `None`.
- `Text` (text.dfy): Python's `strip(chars)`, `strip()` and `split(sep)`.
  - `Strip` is characterised by `StripPadded`: surround text that neither starts nor ends with a selected character by runs of selected characters, strip it, and you get that text back.
  - `Split` and `Join` are inverses (`JoinSplit`, `SplitJoin`).
- `FloatLiteral` (float_literal.dfy): the decimal literals `float()` accepts.
  - A literal has an optional sign, digit parts with single underscores, an optional point, and an optional exponent.
  - `ParseLiteral` and `Render` are inverses (`RoundTrip`, and `ParseLiteral`'s own contract).
- `Stats` (stats.dfy): `sum`, `np.mean`, and the population variance under `np.std`.
- `CashFlows` (cash_flows.dfy): `parse_cash_flows` itself, and the properties of the whole pipeline:
  - all or nothing;
  - one value per comma-separated field;
  - bracket runs ignored;
  - stray characters refused;
  - any well-formatted list parses to its values in order.

## Model

| member | source | states |
|---|---|---|
| Text.Strip | app.py:24 | `strip(chars)` never lengthens the text, and the result neither starts nor ends with a selected character |
| Text.StripPadded | app.py:24 | runs of selected characters, in any number and combination, around text that neither starts nor ends with one are exactly what `strip` removes |
| Text.StripIdempotent | app.py:24 | stripping twice is stripping once |
| Text.StripDecompose | app.py:24 | the input is the stripped text with a run of selected characters before it and one after it |
| Text.StripIgnoresPadding | app.py:24 | adding more selected characters around any text does not change what `strip` returns |
| Text.StripKeeps | app.py:24 | `strip` keeps every character it does not select |
| Text.StripKeepsInside | app.py:24 | a character with an unselected character at or before it and one at or after it survives stripping; only the outer runs are removed |
| Text.IsSpace | app.py:24 | the characters `str.strip()` with no argument removes: exactly the 29 code points Python's `str.isspace` accepts |
| Text.Split | app.py:24 | `split(',')` gives one piece more than there are commas, and no piece holds a comma |
| Text.JoinSplit | app.py:24 | joining the pieces of a split with the separator gives the text back |
| Text.SplitJoin | app.py:24 | splitting undoes a join of separator-free pieces |
| Text.JoinMember | app.py:24 | every non-separator character of a joined text belongs to one of the pieces |
| FloatLiteral.SplitSign | app.py:24 | the leading sign taken off a token, put back, gives the token |
| FloatLiteral.SplitMantissa | app.py:24 | the whole part, the point and the fraction put back together give the mantissa; no point means no fraction |
| FloatLiteral.SplitExponent | app.py:24 | the mantissa followed by the rendered exponent gives the text back |
| FloatLiteral.WellFormed | app.py:24 | `float()`'s decimal grammar. The mantissa is either `[digitpart] "." digitpart` or `digitpart ["."]`, then an optional exponent whose digits form a digit part. A digit part (`IsDigitPart`) is ASCII digits with single underscores only between two digits |
| FloatLiteral.ParseLiteral | app.py:24 | every token `float()` accepts is a well-formed literal, and renders back exactly to the token |
| FloatLiteral.ParseFloat | app.py:24 | Python's `float()` of a trimmed field; its contract is carried by `ParseFloatSound` (every accepted token is a well-formed literal and yields its value) and `ParseFloatRender` (every well-formed literal is accepted and yields its value) |
| FloatLiteral.Value | app.py:24 | the number `float()` returns, as an exact real; it is negative only for a leading `-` |
| FloatLiteral.PlainValue | app.py:24 | a plain run of digits, such as `50000`, denotes the integer those digits spell |
| FloatLiteral.FiftyThousand | app.py:24 | the literal `50000`, the first value of `"[50000, 60000, 70000]"`, denotes 50000.0 |
| FloatLiteral.RoundTrip | app.py:24 | every well-formed literal is read back as itself |
| FloatLiteral.ParseFloatSound | app.py:24 | every number `float()` returns is the value of a well-formed literal written as the token |
| FloatLiteral.ParseFloatRender | app.py:24 | `float()` of a rendered literal is that literal's value |
| FloatLiteral.AcceptedChars | app.py:24 | a token `float()` accepts uses only digits, `_`, `.`, `e`, `E`, `+` and `-`, so any other character makes it fail |
| Stats.Mean | app.py:29 | `np.mean` times N is the total |
| Stats.Sum | app.py:28 | Python's `sum`; its contract is carried by `SumLeftToRight` (it is the left-to-right running total) and `SumAppend` (it is additive over concatenation) |
| Stats.SquaredDeviations | app.py:30 | the sum of squared deviations from a centre is non-negative, and zero exactly when every value equals the centre |
| Stats.Variance | app.py:30 | the population variance is non-negative, and zero exactly when the series is constant |
| Stats.IsStdDev | app.py:30 | `np.std` as the non-negative root of the population variance; its contract is carried by `StdDevUnique` (the root is unique) and `StdDevZeroIffConstant` (it is zero exactly for a constant series) |
| Stats.StdDevUnique | app.py:30 | there is only one non-negative root of the variance, so `np.std` is determined |
| Stats.StdDevZeroIffConstant | app.py:30 | the standard deviation is zero exactly when every value is the same |
| Stats.MeanOfConstant | app.py:29 | the mean of a constant series is that constant |
| Stats.SumLeftToRight | app.py:28 | adding the values from the left, as `sum` does, gives the recursive total |
| Stats.SumAppend | app.py:28 | the total of two runs one after the other is the sum of their totals |
| Stats.MeanBounds | app.py:29 | the mean lies between any lower and upper bound of the values |
| CashFlows.Unbracket | app.py:24 | the text after `strip('[]')` is no longer than the input, and neither starts nor ends with a bracket |
| CashFlows.Fields | app.py:24 | there is one field per comma-separated piece (commas + 1), each the piece with its whitespace trimmed |
| CashFlows.ParseEach | app.py:24 | a completed comprehension has one value per field, each the parser's reading of that field, in order |
| CashFlows.ParseEachValues | app.py:24 | when every field reads as the matching value, the comprehension yields exactly those values |
| CashFlows.ParseEachRefuses | app.py:24-33 | one refused field anywhere makes the result `None`, never a partial list |
| CashFlows.ParseCashFlows | app.py:24 | on success the list has as many values as commas + 1 after bracket stripping, and value i is `float()` of field i |
| CashFlows.ParseCashFlowsAllOrNothing | app.py:24-35 | the list parses if and only if `float()` accepts every trimmed field |
| CashFlows.Summarize | app.py:27-31 | the total is the sum, the average times N is the total, and the variance is the population variance, non-negative and zero exactly for a constant series |
| CashFlows.IsVolatility | app.py:30 | `CF_Volatility` as the non-negative root of the recorded variance; its contract is carried by `VolatilityZeroIffConstant` and `Stats.StdDevUnique` |
| CashFlows.ParseCashFlowFeatures | app.py:20-35 | features come back exactly when the list parses, and then they summarise the parsed values |
| CashFlows.VolatilityZeroIffConstant | app.py:30 | the volatility of a parsed list is zero exactly when all its cash flows are equal |
| CashFlows.AverageWithinRange | app.py:29 | the average cash flow lies between any bounds of the cash flows |
| CashFlows.EmptyListRejected | app.py:24-33 | text made only of brackets, `""` and `"[]"` included, leaves one empty field and yields `None` |
| CashFlows.OuterBracketsIgnored | app.py:24 | extra runs of brackets on either side of the text change nothing, so `"[[1,2]]"` reads like `"1,2"` |
| CashFlows.StrayCharRejected | app.py:24-33 | a character left after bracket stripping that is not a comma, whitespace or a literal character makes the call yield `None` |
| CashFlows.StrayInsideRejected | app.py:24-33 | a stray character with a non-bracket at or before it and one at or after it yields `None`; this covers an inner bracket (`"1,[2"`) and a bracket behind leading whitespace (`" [1, 2]"`) |
| CashFlows.NonLiteralRefused | app.py:24 | `float()` refuses a token holding a character no literal is written with |
| CashFlows.PaddedFieldTrims | app.py:24 | a literal padded with whitespace trims back to the literal and holds no comma |
| CashFlows.FormattedListUnbracketed | app.py:24 | stripping the brackets of a formatted list leaves the comma-joined fields |
| CashFlows.FormattedListFields | app.py:24 | the trimmed fields of a formatted list are the rendered literals, one per literal |
| CashFlows.FormattedListParses | app.py:24 | any list of well-formed literals parses to exactly their values, in order. It may have any whitespace around each literal and any bracket runs outside. So `"1 , 2"` and `"1,2"` read the same |
| CashFlows.RenderedValues | app.py:24 | fields that are rendered literals are read as those literals' values |

Some lemmas are proof helpers: they state facts about reals rather than about the source, so they have no row.
- `Stats.SqSign`: a square is non-negative, and zero only for zero.
- `Stats.SquareMonotonic`: squaring is strictly increasing on the non-negative reals.
- `Stats.ProductPositive` and `FloatLiteral.NonNegativeProduct`: sign facts about products.

## Left out

- `load_model` (app.py:7-17) loads a file with joblib and shows errors through Streamlit. This is I/O and a foreign library.
- `main` (app.py:38 onwards) and ui.py cover:
  - Streamlit widgets and page styling;
  - building the DataFrame;
  - the black-box `predict` / `predict_proba` classifier.
  These are UI and calls into code that is not part of this model.
- The net-present-value, IRR, profitability-index and payback metrics are not computed by `parse_cash_flows` and are not modelled.
- `str(cf_str)` is taken to be a string already. The `str()` of other Python objects is not modelled.
- `float()` also accepts `inf`, `nan`, `infinity` (any case) and non-ASCII decimal digits. These are not modelled: such a token is treated as refused.
- `CashFlows.StrayCharRejected`, `CashFlows.StrayInsideRejected`: these treat the letters of `inf`, `nan` and `infinity`, and non-ASCII digits, as stray characters. So for `"nan"` or `"1,inf"` the program returns a feature dict, but the model returns `None`.
- `FloatLiteral.ParseFloat`: its result is an exact real. IEEE-754 rounding is not modelled, and neither is overflow to infinity (`float("1e400")`).
- `Stats.Sum`, `Stats.Mean`, `Stats.Variance`: exact real arithmetic. Floating-point rounding in `sum`, `np.mean` and `np.std` is not modelled, and neither are the `inf` / `nan` results they can produce.
- `Stats.SquaredDeviations`, `Stats.Variance`, `Stats.StdDevZeroIffConstant`, `CashFlows.VolatilityZeroIffConstant`, `Stats.MeanOfConstant`, `Stats.MeanBounds`, `CashFlows.AverageWithinRange`: these hold for exact reals only. Under IEEE doubles:
  - Both halves of "zero volatility exactly for a constant series" can fail.
    - `np.mean([0.1, 0.1, 0.1])` rounds to 0.10000000000000002, so `np.std` of that constant series is about 1.4e-17, not 0.
    - For `"1e-200, 2e-200"` the deviations are about 5e-201, their squares underflow to 0.0, and `np.std` is 0.0 although the flows differ.
  - The same rounded mean lies above 0.1, although every value lies within lo = hi = 0.1. So the mean bounds and "the mean of a constant series is that constant" fail in doubles too.
- `CashFlows.Summarize` keeps the variance in `cfVariance`, not `np.std`'s square root, because exact reals have no computable square root. The volatility itself is specified by `IsVolatility` as the non-negative root of that variance, and `Stats.StdDevUnique` shows that root is unique.
- `CashFlows.ParseCashFlowFeatures` returns `None` for both `except` branches (app.py:32-35). Which exception kind was raised is not modelled.
- The returned Python dict is modelled as the `Features` record.
