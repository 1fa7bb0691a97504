/**
 * `parse_cash_flows`: the feature-engineering step of the investment
 * predictor. A text such as "[50000, 60000, 70000]" loses its outer
 * brackets, is cut at every comma, each piece is trimmed of whitespace and
 * read with `float()`; the series is then summarised as its total, its mean
 * and its volatility. Any piece `float()` refuses makes the whole call
 * answer None.
 */
module CashFlows {
  import opened Wrappers
  import opened Text
  import opened FloatLiteral
  import opened Stats

  /** `str(cf_str).strip('[]')`: the text without its runs of outer brackets. */
  function Unbracket(text: string): (r: string)
    ensures |r| <= |text|
    ensures r == [] || (!IsBracket(r[0]) && !IsBracket(r[|r| - 1]))
  {
    Strip(text, IsBracket)
  }

  /** `[x.strip() for x in ....split(',')]`: one trimmed field per comma-separated piece. */
  function Fields(text: string): (r: seq<string>)
    ensures |r| == Occurrences(Unbracket(text), ',') + 1
    ensures forall i :: 0 <= i < |r| ==> r[i] == Strip(Split(Unbracket(text), ',')[i], IsSpace)
  {
    var pieces := Split(Unbracket(text), ',');
    seq(|pieces|, i requires 0 <= i < |pieces| => Strip(pieces[i], IsSpace))
  }

  /**
   * A parser applied to every field in turn, as the list comprehension does
   * with `float()`: the values, one per field, or None as soon as one field
   * is refused.
   */
  function ParseEach(fields: seq<string>, parse: string -> Option<real>): (r: Option<seq<real>>)
    ensures r.Some? ==> |r.value| == |fields|
    ensures r.Some? ==> forall i :: 0 <= i < |fields| ==> parse(fields[i]) == Some(r.value[i])
  {
    if fields == [] then Some([])
    else
      var head := parse(fields[0]);
      var tail := ParseEach(fields[1..], parse);
      assert forall i :: 1 <= i < |fields| ==> fields[i] == fields[1..][i - 1];
      if head.None? || tail.None? then None else Some([head.value] + tail.value)
  }

  /** When every field is read as the matching value, the comprehension yields those values. */
  lemma {:induction false} ParseEachValues(fields: seq<string>, parse: string -> Option<real>, values: seq<real>)
    requires |fields| == |values|
    requires forall i :: 0 <= i < |fields| ==> parse(fields[i]) == Some(values[i])
    ensures ParseEach(fields, parse) == Some(values)
  {
    if fields != [] {
      assert forall i :: 1 <= i < |fields| ==> fields[1..][i - 1] == fields[i] && values[1..][i - 1] == values[i];
      ParseEachValues(fields[1..], parse, values[1..]);
      assert values == [values[0]] + values[1..];
    }
  }

  /** When every field is accepted, the comprehension completes. */
  lemma ParseEachAccepts(fields: seq<string>, parse: string -> Option<real>)
    requires forall i :: 0 <= i < |fields| ==> parse(fields[i]).Some?
    ensures ParseEach(fields, parse).Some?
  {
    var values := seq(|fields|, i requires 0 <= i < |fields| => parse(fields[i]).value);
    ParseEachValues(fields, parse, values);
  }

  /** One refused field, wherever it stands, sinks the whole list. */
  lemma {:induction false} ParseEachRefuses(fields: seq<string>, parse: string -> Option<real>, i: nat)
    requires i < |fields| && parse(fields[i]).None?
    ensures ParseEach(fields, parse) == None
  {
    if i > 0 {
      assert fields[1..][i - 1] == fields[i];
      ParseEachRefuses(fields[1..], parse, i - 1);
    }
  }

  /**
   * The list comprehension of `parse_cash_flows`: a value for every
   * comma-separated field, one more than there are commas, or None.
   */
  function ParseCashFlows(text: string): (r: Option<seq<real>>)
    ensures r.Some? ==> |r.value| == Occurrences(Unbracket(text), ',') + 1
    ensures r.Some? ==> forall i :: 0 <= i < |r.value| ==> ParseFloat(Fields(text)[i]) == Some(r.value[i])
  {
    ParseEach(Fields(text), ParseFloat)
  }

  /** The list parses exactly when `float()` accepts every field. */
  lemma ParseCashFlowsAllOrNothing(text: string)
    ensures ParseCashFlows(text).Some? <==> forall i :: 0 <= i < |Fields(text)| ==> ParseFloat(Fields(text)[i]).Some?
  {
    var fields := Fields(text);
    if forall i :: 0 <= i < |fields| ==> ParseFloat(fields[i]).Some? {
      ParseEachAccepts(fields, ParseFloat);
    } else {
      var i :| 0 <= i < |fields| && ParseFloat(fields[i]).None?;
      ParseEachRefuses(fields, ParseFloat, i);
    }
  }

  /**
   * The three engineered features. `np.std` is a square root, which exact
   * reals cannot compute, so the record keeps the variance under it;
   * `IsVolatility` names the root.
   */
  datatype Features = Features(totalCashInflows: real, avgCashFlow: real, cfVariance: real)

  /** The feature record of a parsed series (never empty: a split has at least one piece). */
  function Summarize(flows: seq<real>): (f: Features)
    requires |flows| > 0
    ensures f.totalCashInflows == Sum(flows)
    ensures f.avgCashFlow * |flows| as real == f.totalCashInflows
    ensures f.cfVariance == Variance(flows)
    ensures f.cfVariance >= 0.0
    ensures f.cfVariance == 0.0 <==> Constant(flows)
  {
    Features(Sum(flows), Mean(flows), Variance(flows))
  }

  /** `CF_Volatility`: `v` is `np.std` of the series, the root of the recorded variance. */
  ghost predicate IsVolatility(f: Features, v: real) {
    IsRoot(f.cfVariance, v)
  }

  /** `parse_cash_flows(cf_str)`: the features, or None when any field is not a number. */
  function ParseCashFlowFeatures(text: string): (r: Option<Features>)
    ensures r.Some? <==> ParseCashFlows(text).Some?
    ensures r.Some? ==> r.value == Summarize(ParseCashFlows(text).value)
  {
    match ParseCashFlows(text)
    case None => None
    case Some(flows) =>
      assert |flows| > 0;
      Some(Summarize(flows))
  }

  /** The volatility of a parsed series is zero exactly when every cash flow is the same. */
  lemma VolatilityZeroIffConstant(text: string, v: real)
    requires ParseCashFlowFeatures(text).Some?
    requires IsVolatility(ParseCashFlowFeatures(text).value, v)
    ensures v == 0.0 <==> Constant(ParseCashFlows(text).value)
  {
    var flows := ParseCashFlows(text).value;
    StdDevZeroIffConstant(flows, v);
  }

  /** The average cash flow lies between the smallest and the largest cash flow. */
  lemma AverageWithinRange(text: string, lo: real, hi: real)
    requires ParseCashFlowFeatures(text).Some?
    requires forall i :: 0 <= i < |ParseCashFlows(text).value| ==> lo <= ParseCashFlows(text).value[i] <= hi
    ensures lo <= ParseCashFlowFeatures(text).value.avgCashFlow <= hi
  {
    MeanBounds(ParseCashFlows(text).value, lo, hi);
  }

  /** Brackets only — including "" and "[]" — leave one empty field, which `float()` refuses. */
  lemma EmptyListRejected(text: string)
    requires AllDropped(text, IsBracket)
    ensures ParseCashFlowFeatures(text) == None
  {
    var none := "";
    StripPadded(text, none, none, IsBracket);
    assert text + none + none == text;
    assert Split(none, ',') == [none];
    assert Fields(text)[0] == Strip(none, IsSpace) == none;
    assert ParseLiteral(none) == None;
    ParseEachRefuses(Fields(text), ParseFloat, 0);
  }

  /** Any number of extra brackets around the list, on either side, changes nothing. */
  lemma OuterBracketsIgnored(pre: string, text: string, post: string)
    requires AllDropped(pre, IsBracket) && AllDropped(post, IsBracket)
    ensures ParseCashFlowFeatures(pre + text + post) == ParseCashFlowFeatures(text)
  {
    StripIgnoresPadding(pre, text, post, IsBracket);
  }

  /**
   * A character left after bracket stripping that is neither a comma,
   * whitespace, nor a character of a numeric literal (a letter, a currency
   * sign, an inner bracket) makes the whole call answer None.
   */
  lemma StrayCharRejected(text: string, i: nat)
    requires i < |Unbracket(text)| && IsStray(Unbracket(text)[i])
    ensures ParseCashFlowFeatures(text) == None
  {
    var u := Unbracket(text);
    var k := PieceHolding(u, i);
    var piece := Split(u, ',')[k];
    var j :| 0 <= j < |piece| && piece[j] == u[i];
    StripKeeps(piece, j, IsSpace);
    NonLiteralRefused(Fields(text)[k], u[i]);
    ParseEachRefuses(Fields(text), ParseFloat, k);
  }

  /** Every character of a text other than a comma lands in one of its comma-separated pieces. */
  lemma PieceHolding(u: string, i: nat) returns (k: nat)
    requires i < |u| && u[i] != ','
    ensures k < |Split(u, ',')| && u[i] in Split(u, ',')[k]
  {
    JoinSplit(u, ',');
    k := JoinMember(Split(u, ','), ',', i);
  }

  /** `float()` refuses a token holding a character no literal is written with. */
  lemma NonLiteralRefused(field: string, c: char)
    requires c in field && !IsLiteralChar(c)
    ensures ParseFloat(field) == None
  {
    if ParseFloat(field).Some? {
      AcceptedChars(field);
    }
  }

  /** A character that is neither a comma, whitespace, nor one a literal is written with. */
  predicate IsStray(c: char) {
    c != ',' && !IsSpace(c) && !IsLiteralChar(c)
  }

  /**
   * Bracket stripping only eats the outer runs: a stray character with a
   * non-bracket character at or before it and at or after it survives, so
   * "abc, 1", "1,[2" and " [1, 2]" are all refused.
   */
  lemma StrayInsideRejected(text: string, lo: nat, i: nat, hi: nat)
    requires lo <= i <= hi < |text|
    requires !IsBracket(text[lo]) && !IsBracket(text[hi]) && IsStray(text[i])
    ensures ParseCashFlowFeatures(text) == None
  {
    var k := StripKeepsInside(text, lo, i, hi, IsBracket);
    StrayCharRejected(text, k);
  }

  /** A literal written with optional whitespace on each side, as one field of a list. */
  function PaddedField(before: string, lit: Literal, after: string): string {
    before + Render(lit) + after
  }

  /** A list of padded literals, separated by commas, inside runs of brackets. */
  function FormatList(open: string, fields: seq<string>, close: string): string
    requires |fields| > 0
  {
    open + Join(fields, ',') + close
  }

  /** A literal's characters are none of brackets, commas or whitespace. */
  lemma LiteralCharIsPlain(c: char)
    requires IsLiteralChar(c)
    ensures !IsBracket(c) && c != ',' && !IsSpace(c)
  {
  }

  /** A rendered literal is non-empty and made of literal characters. */
  lemma RenderPlain(lit: Literal)
    requires WellFormed(lit)
    ensures Render(lit) != []
    ensures forall k :: 0 <= k < |Render(lit)| ==> IsLiteralChar(Render(lit)[k])
  {
    RenderChars(lit);
    MantissaShape(lit);
  }

  /** Trimming a padded field gives back the rendered literal, and it holds no comma. */
  lemma PaddedFieldTrims(before: string, lit: Literal, after: string)
    requires WellFormed(lit) && AllDropped(before, IsSpace) && AllDropped(after, IsSpace)
    ensures Strip(PaddedField(before, lit, after), IsSpace) == Render(lit)
    ensures ',' !in PaddedField(before, lit, after)
  {
    RenderPlain(lit);
    PaddedCoreTrims(before, Render(lit), after);
    PaddedCoreCommaFree(before, Render(lit), after);
  }

  /** A non-empty run of literal characters, padded with whitespace, trims back to itself. */
  lemma PaddedCoreTrims(before: string, core: string, after: string)
    requires core != [] && AllLiteralChars(core)
    requires AllDropped(before, IsSpace) && AllDropped(after, IsSpace)
    ensures Strip(before + core + after, IsSpace) == core
  {
    LiteralCharIsPlain(core[0]);
    LiteralCharIsPlain(core[|core| - 1]);
    StripPadded(before, core, after, IsSpace);
  }

  /** Whitespace and literal characters are not commas, so a padded core holds none. */
  lemma PaddedCoreCommaFree(before: string, core: string, after: string)
    requires AllLiteralChars(core)
    requires AllDropped(before, IsSpace) && AllDropped(after, IsSpace)
    ensures ',' !in before + core + after
  {
    var s := before + core + after;
    forall k | 0 <= k < |s| ensures s[k] != ',' {
      if k < |before| {
        assert s[k] == before[k];
      } else if k < |before| + |core| {
        assert s[k] == core[k - |before|];
        LiteralCharIsPlain(core[k - |before|]);
      } else {
        assert s[k] == after[k - |before| - |core|];
      }
    }
  }

  /** A padded field neither starts nor ends with a bracket. */
  lemma PaddedFieldUnbracketed(before: string, lit: Literal, after: string)
    requires WellFormed(lit) && AllDropped(before, IsSpace) && AllDropped(after, IsSpace)
    ensures var s := PaddedField(before, lit, after);
      s != [] && !IsBracket(s[0]) && !IsBracket(s[|s| - 1])
  {
    RenderPlain(lit);
    PaddedCoreUnbracketed(before, Render(lit), after);
  }

  /** Whitespace and literal characters are not brackets, so neither end of a padded core is one. */
  lemma PaddedCoreUnbracketed(before: string, core: string, after: string)
    requires core != [] && AllLiteralChars(core)
    requires AllDropped(before, IsSpace) && AllDropped(after, IsSpace)
    ensures var s := before + core + after;
      s != [] && !IsBracket(s[0]) && !IsBracket(s[|s| - 1])
  {
    var s := before + core + after;
    if before == [] {
      assert s[0] == core[0];
      LiteralCharIsPlain(core[0]);
    } else {
      assert s[0] == before[0];
    }
    if after == [] {
      assert s[|s| - 1] == core[|core| - 1];
      LiteralCharIsPlain(core[|core| - 1]);
    } else {
      assert s[|s| - 1] == after[|after| - 1];
    }
  }

  /** A comma-joined list of fields that neither start nor end with a bracket does not either. */
  lemma {:induction false} JoinUnbracketed(fields: seq<string>)
    requires |fields| > 0
    requires forall i :: 0 <= i < |fields| ==> fields[i] != [] && !IsBracket(fields[i][0]) && !IsBracket(fields[i][|fields[i]| - 1])
    ensures var j := Join(fields, ',');
      j != [] && !IsBracket(j[0]) && !IsBracket(j[|j| - 1])
  {
    if |fields| > 1 {
      var first, rest := fields[0], fields[1..];
      JoinUnbracketed(rest);
      var tail := Join(rest, ',');
      var j := Join(fields, ',');
      assert j == first + [','] + tail;
      assert j[0] == first[0];
      assert j[|j| - 1] == tail[|tail| - 1];
    }
  }

  /** The fields of a list, literal by literal. */
  function PaddedFields(befores: seq<string>, lits: seq<Literal>, afters: seq<string>): (r: seq<string>)
    requires |befores| == |lits| == |afters|
    ensures |r| == |lits|
    ensures forall i :: 0 <= i < |r| ==> r[i] == PaddedField(befores[i], lits[i], afters[i])
  {
    seq(|lits|, i requires 0 <= i < |lits| => PaddedField(befores[i], lits[i], afters[i]))
  }

  /** Stripping the brackets of a formatted list leaves the comma-joined fields. */
  lemma FormattedListUnbracketed(open: string, befores: seq<string>, lits: seq<Literal>, afters: seq<string>, close: string)
    requires |lits| > 0 && |befores| == |lits| == |afters|
    requires forall i :: 0 <= i < |lits| ==> WellFormed(lits[i])
    requires forall i :: 0 <= i < |lits| ==> AllDropped(befores[i], IsSpace) && AllDropped(afters[i], IsSpace)
    requires AllDropped(open, IsBracket) && AllDropped(close, IsBracket)
    ensures Unbracket(FormatList(open, PaddedFields(befores, lits, afters), close)) == Join(PaddedFields(befores, lits, afters), ',')
  {
    var fields := PaddedFields(befores, lits, afters);
    forall i | 0 <= i < |fields|
      ensures fields[i] != [] && !IsBracket(fields[i][0]) && !IsBracket(fields[i][|fields[i]| - 1])
    {
      PaddedFieldUnbracketed(befores[i], lits[i], afters[i]);
    }
    JoinUnbracketed(fields);
    StripPadded(open, Join(fields, ','), close, IsBracket);
  }

  /** The trimmed fields of a formatted list are the rendered literals. */
  lemma FormattedListFields(open: string, befores: seq<string>, lits: seq<Literal>, afters: seq<string>, close: string)
    requires |lits| > 0 && |befores| == |lits| == |afters|
    requires forall i :: 0 <= i < |lits| ==> WellFormed(lits[i])
    requires forall i :: 0 <= i < |lits| ==> AllDropped(befores[i], IsSpace) && AllDropped(afters[i], IsSpace)
    requires AllDropped(open, IsBracket) && AllDropped(close, IsBracket)
    ensures var fields := Fields(FormatList(open, PaddedFields(befores, lits, afters), close));
      |fields| == |lits| && forall i :: 0 <= i < |lits| ==> fields[i] == Render(lits[i])
  {
    var padded := PaddedFields(befores, lits, afters);
    var text := FormatList(open, padded, close);
    FormattedListUnbracketed(open, befores, lits, afters, close);
    forall i | 0 <= i < |padded| ensures ',' !in padded[i] {
      PaddedFieldTrims(befores[i], lits[i], afters[i]);
    }
    SplitJoin(padded, ',');
    assert Split(Unbracket(text), ',') == padded;
    forall i | 0 <= i < |lits| ensures Fields(text)[i] == Render(lits[i]) {
      PaddedFieldTrims(befores[i], lits[i], afters[i]);
    }
  }

  /**
   * Any list of well-formed literals, each padded with whitespace, separated
   * by commas and wrapped in any runs of brackets, parses to exactly the
   * values of those literals, in order.
   */
  lemma FormattedListParses(open: string, befores: seq<string>, lits: seq<Literal>, afters: seq<string>, close: string)
    requires |lits| > 0 && |befores| == |lits| == |afters|
    requires forall i :: 0 <= i < |lits| ==> WellFormed(lits[i])
    requires forall i :: 0 <= i < |lits| ==> AllDropped(befores[i], IsSpace) && AllDropped(afters[i], IsSpace)
    requires AllDropped(open, IsBracket) && AllDropped(close, IsBracket)
    ensures var text := FormatList(open, PaddedFields(befores, lits, afters), close);
      ParseCashFlows(text) == Some(seq(|lits|, i requires 0 <= i < |lits| => Value(lits[i])))
  {
    var text := FormatList(open, PaddedFields(befores, lits, afters), close);
    FormattedListFields(open, befores, lits, afters, close);
    RenderedValues(Fields(text), lits);
  }

  /** Fields that are rendered well-formed literals are read as the values of those literals. */
  lemma RenderedValues(fields: seq<string>, lits: seq<Literal>)
    requires |fields| == |lits|
    requires forall i :: 0 <= i < |lits| ==> WellFormed(lits[i]) && fields[i] == Render(lits[i])
    ensures ParseEach(fields, ParseFloat) == Some(seq(|lits|, i requires 0 <= i < |lits| => Value(lits[i])))
  {
    var values := seq(|lits|, i requires 0 <= i < |lits| => Value(lits[i]));
    forall i | 0 <= i < |lits| ensures ParseFloat(fields[i]) == Some(values[i]) {
      ParseFloatRender(lits[i]);
    }
    ParseEachValues(fields, ParseFloat, values);
  }
}
