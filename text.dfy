/**
 * The three Python string operations that parse_cash_flows relies on:
 * `str.strip(chars)`, `str.strip()` (whitespace) and `str.split(sep)`.
 * Strings are sequences of Unicode scalar values.
 */
module Text {

  /** The characters removed by `strip('[]')`. */
  predicate IsBracket(c: char) {
    c == '[' || c == ']'
  }

  /**
   * The characters Python's `str.isspace` accepts, which are the ones
   * `str.strip()` with no argument removes.
   */
  predicate IsSpace(c: char) {
    ('\t' <= c <= '\r') || ('\U{1C}' <= c <= '\U{1F}') || c == ' '
    || c == '\U{85}' || c == '\U{A0}' || c == '\U{1680}'
    || ('\U{2000}' <= c <= '\U{200A}') || c == '\U{2028}' || c == '\U{2029}'
    || c == '\U{202F}' || c == '\U{205F}' || c == '\U{3000}'
  }

  /** Every character of `s` is one that `drop` selects. */
  predicate AllDropped(s: string, drop: char -> bool) {
    forall i :: 0 <= i < |s| ==> drop(s[i])
  }

  /** Removes the longest prefix of characters that `drop` selects. */
  function TrimStart(s: string, drop: char -> bool): (r: string)
    ensures |r| <= |s| && r == s[|s| - |r|..]
    ensures AllDropped(s[..|s| - |r|], drop)
    ensures r == [] || !drop(r[0])
  {
    if s != [] && drop(s[0]) then TrimStart(s[1..], drop) else s
  }

  /** Removes the longest suffix of characters that `drop` selects. */
  function TrimEnd(s: string, drop: char -> bool): (r: string)
    ensures |r| <= |s| && r == s[..|r|]
    ensures AllDropped(s[|r|..], drop)
    ensures r == [] || !drop(r[|r| - 1])
  {
    if s != [] && drop(s[|s| - 1]) then TrimEnd(s[..|s| - 1], drop) else s
  }

  /**
   * Python's `s.strip(chars)`: scan forward over selected characters, then
   * backward over selected characters without crossing the forward mark.
   * Only characters that `drop` selects are removed, and none inside.
   */
  function Strip(s: string, drop: char -> bool): (r: string)
    ensures |r| <= |s|
    ensures r == [] || (!drop(r[0]) && !drop(r[|r| - 1]))
  {
    var t := TrimStart(s, drop);
    var r := TrimEnd(t, drop);
    assert r == [] || !drop(r[0]) by {
      if r != [] {
        assert r[0] == t[0];
      }
    }
    r
  }

  /** Dropped characters in front change nothing: `TrimStart(pre + s) == TrimStart(s)`. */
  lemma {:induction false} TrimStartSkips(pre: string, s: string, drop: char -> bool)
    requires AllDropped(pre, drop)
    ensures TrimStart(pre + s, drop) == TrimStart(s, drop)
  {
    if pre != [] {
      assert (pre + s)[0] == pre[0];
      assert (pre + s)[1..] == pre[1..] + s;
      TrimStartSkips(pre[1..], s, drop);
    } else {
      assert pre + s == s;
    }
  }

  /** Dropped characters behind change nothing: `TrimEnd(s + post) == TrimEnd(s)`. */
  lemma {:induction false} TrimEndSkips(s: string, post: string, drop: char -> bool)
    requires AllDropped(post, drop)
    ensures TrimEnd(s + post, drop) == TrimEnd(s, drop)
  {
    if post != [] {
      var post' := post[..|post| - 1];
      assert (s + post)[|s + post| - 1] == post[|post| - 1];
      assert (s + post)[..|s + post| - 1] == s + post';
      TrimEndSkips(s, post', drop);
    } else {
      assert s + post == s;
    }
  }

  /** A string that neither starts nor ends with a selected character is left alone. */
  lemma StripClean(core: string, drop: char -> bool)
    requires core == [] || (!drop(core[0]) && !drop(core[|core| - 1]))
    ensures Strip(core, drop) == core
  {
    assert TrimStart(core, drop) == core;
  }

  /**
   * Strip characterised: surrounding a string that neither starts nor ends
   * with a selected character by runs of selected characters, in any number
   * and combination, and stripping, gives the string back.
   */
  lemma StripPadded(pre: string, core: string, post: string, drop: char -> bool)
    requires AllDropped(pre, drop) && AllDropped(post, drop)
    requires core == [] || (!drop(core[0]) && !drop(core[|core| - 1]))
    ensures Strip(pre + core + post, drop) == core
  {
    var tail := core + post;
    assert pre + core + post == pre + tail;
    TrimStartSkips(pre, tail, drop);
    if core == [] {
      assert tail == post;
      assert TrimStart(post, drop) == [];
    } else {
      assert tail[0] == core[0];
      assert TrimStart(tail, drop) == tail;
      TrimEndSkips(core, post, drop);
      StripClean(core, drop);
    }
  }

  /** Stripping twice is stripping once. */
  lemma StripIdempotent(s: string, drop: char -> bool)
    ensures Strip(Strip(s, drop), drop) == Strip(s, drop)
  {
    StripClean(Strip(s, drop), drop);
  }

  /** Splits `s` around its stripped part: `s == pre + Strip(s) + post`. */
  lemma StripDecompose(s: string, drop: char -> bool) returns (pre: string, post: string)
    ensures s == pre + (Strip(s, drop) + post)
    ensures AllDropped(pre, drop) && AllDropped(post, drop)
  {
    var t := TrimStart(s, drop);
    var r := TrimEnd(t, drop);
    pre, post := s[..|s| - |t|], t[|r|..];
    assert t == r + post by {
      assert t == t[..|r|] + t[|r|..];
    }
    assert s == pre + t by {
      assert s == s[..|s| - |t|] + s[|s| - |t|..];
    }
  }

  /** Appending to a string that does not trim away entirely leaves the appended part in place. */
  lemma {:induction false} TrimStartAppend(s: string, post: string, drop: char -> bool)
    ensures TrimStart(s, drop) != [] ==> TrimStart(s + post, drop) == TrimStart(s, drop) + post
    ensures TrimStart(s, drop) == [] && AllDropped(post, drop) ==> TrimStart(s + post, drop) == []
  {
    if s == [] {
      assert s + post == post;
      if AllDropped(post, drop) {
        var none := "";
        TrimStartSkips(post, none, drop);
        assert post + none == post;
      }
    } else {
      assert (s + post)[0] == s[0];
      if drop(s[0]) {
        assert (s + post)[1..] == s[1..] + post;
        TrimStartAppend(s[1..], post, drop);
      }
    }
  }

  /** Extra selected characters around a string do not change what Strip keeps. */
  lemma StripIgnoresPadding(pre: string, s: string, post: string, drop: char -> bool)
    requires AllDropped(pre, drop) && AllDropped(post, drop)
    ensures Strip(pre + s + post, drop) == Strip(s, drop)
  {
    var t := TrimStart(s, drop);
    var padded := pre + s + post;
    var u := TrimStart(padded, drop);
    assert u == (if t != [] then t + post else []) by {
      assert padded == pre + (s + post);
      TrimStartSkips(pre, s + post, drop);
      TrimStartAppend(s, post, drop);
    }
    if t != [] {
      TrimEndSkips(t, post, drop);
    }
  }

  /** Stripping keeps every character that `drop` does not select. */
  lemma StripKeeps(s: string, j: nat, drop: char -> bool)
    requires j < |s| && !drop(s[j])
    ensures s[j] in Strip(s, drop)
  {
    var pre, post := StripDecompose(s, drop);
    var core := Strip(s, drop);
    assert s[j] == core[j - |pre|];
  }

  /**
   * Strip only removes outer runs: a character with an unselected character
   * at or before it and at or after it is kept, at index `k` of the result.
   */
  lemma StripKeepsInside(s: string, lo: nat, i: nat, hi: nat, drop: char -> bool) returns (k: nat)
    requires lo <= i <= hi < |s| && !drop(s[lo]) && !drop(s[hi])
    ensures k < |Strip(s, drop)| && Strip(s, drop)[k] == s[i]
  {
    var pre, post := StripDecompose(s, drop);
    var core := Strip(s, drop);
    KeptInCore(pre, core, post, lo, drop);
    KeptInCore(pre, core, post, hi, drop);
    k := i - |pre|;
    IndexInCore(pre, core, post, i);
  }

  /** A kept character of `pre + (core + post)` lies in `core` when `pre` and `post` are dropped. */
  lemma KeptInCore(pre: string, core: string, post: string, x: nat, drop: char -> bool)
    requires AllDropped(pre, drop) && AllDropped(post, drop)
    requires x < |pre + (core + post)| && !drop((pre + (core + post))[x])
    ensures |pre| <= x < |pre| + |core|
  {
  }

  /** An index of `pre + (core + post)` inside `core`, shifted by `|pre|`. */
  lemma IndexInCore(pre: string, core: string, post: string, x: nat)
    requires |pre| <= x < |pre| + |core|
    ensures (pre + (core + post))[x] == core[x - |pre|]
  {
  }

  /** The pieces with `sep` between them: the inverse of Split, which never returns an empty list. */
  function Join(parts: seq<string>, sep: char): (r: string)
    requires |parts| > 0
    ensures |r| >= |parts| - 1
  {
    if |parts| == 1 then parts[0] else parts[0] + [sep] + Join(parts[1..], sep)
  }

  /** How many times `c` occurs in `s` (Python's `s.count(c)`). */
  function Occurrences(s: string, c: char): nat {
    if s == [] then 0 else (if s[0] == c then 1 else 0) + Occurrences(s[1..], c)
  }

  /**
   * Python's `s.split(sep)` with an explicit separator: the pieces between
   * separators, empty pieces included, so there is always one piece more
   * than there are separators, and no piece holds a separator.
   */
  function Split(s: string, sep: char): (r: seq<string>)
    ensures |r| == Occurrences(s, sep) + 1
    ensures forall i :: 0 <= i < |r| ==> sep !in r[i]
  {
    if s == [] then [[]]
    else
      var rest := Split(s[1..], sep);
      if s[0] == sep then [[]] + rest
      else [[s[0]] + rest[0]] + rest[1..]
  }

  /** Joining the pieces of a split gives the string back. */
  lemma {:induction false} JoinSplit(s: string, sep: char)
    ensures Join(Split(s, sep), sep) == s
  {
    if s != [] {
      var rest := Split(s[1..], sep);
      JoinSplit(s[1..], sep);
      var r := Split(s, sep);
      if s[0] == sep {
        assert r[1..] == rest;
      } else if |rest| == 1 {
        assert r == [[s[0]] + rest[0]];
      } else {
        assert r[0] == [s[0]] + rest[0] && r[1..] == rest[1..];
        assert Join(rest, sep) == rest[0] + [sep] + Join(rest[1..], sep);
      }
    }
  }

  /** Splitting undoes joining pieces that contain no separator. */
  lemma {:induction false} SplitJoin(parts: seq<string>, sep: char)
    requires |parts| > 0
    requires forall i :: 0 <= i < |parts| ==> sep !in parts[i]
    ensures Split(Join(parts, sep), sep) == parts
  {
    if |parts| == 1 {
      var none := "";
      SplitPiece(parts[0], none, sep);
      assert parts[0] + none == parts[0];
      assert Split(none, sep) == [none];
      assert parts == [parts[0]];
    } else {
      var tail := Join(parts[1..], sep);
      SplitJoin(parts[1..], sep);
      SplitPiece(parts[0], [sep] + tail, sep);
      assert parts[0] + [sep] + tail == parts[0] + ([sep] + tail);
      var rest := [sep] + tail;
      assert rest[0] == sep && rest[1..] == tail;
      var pieces := Split(rest, sep);
      assert pieces == [[]] + parts[1..];
      assert pieces[0] == [] && pieces[1..] == parts[1..];
      assert parts[0] + pieces[0] == parts[0];
      assert parts == [parts[0]] + parts[1..];
    }
  }

  /** A separator-free piece in front of `rest` extends the first piece of `Split(rest)`. */
  lemma {:induction false} SplitPiece(piece: string, rest: string, sep: char)
    requires sep !in piece
    ensures Split(piece + rest, sep) == [piece + Split(rest, sep)[0]] + Split(rest, sep)[1..]
  {
    var tail := Split(rest, sep);
    if piece == [] {
      assert piece + rest == rest && piece + tail[0] == tail[0];
      assert tail == [tail[0]] + tail[1..];
    } else {
      var s := piece + rest;
      assert s[0] == piece[0] && piece[0] in piece;
      assert s[1..] == piece[1..] + rest;
      SplitPiece(piece[1..], rest, sep);
      var mid := Split(s[1..], sep);
      assert Split(s, sep) == [[s[0]] + mid[0]] + mid[1..];
      assert mid[0] == piece[1..] + tail[0] && mid[1..] == tail[1..];
      assert [piece[0]] + (piece[1..] + tail[0]) == piece + tail[0];
    }
  }

  /** Every character of a joined string other than the separator comes from one of the pieces. */
  lemma {:induction false} JoinMember(parts: seq<string>, sep: char, i: nat) returns (k: nat)
    requires |parts| > 0 && i < |Join(parts, sep)| && Join(parts, sep)[i] != sep
    ensures k < |parts| && Join(parts, sep)[i] in parts[k]
  {
    if |parts| == 1 {
      k := 0;
    } else {
      var j := Join(parts, sep);
      if i < |parts[0]| {
        assert j[i] == parts[0][i];
        k := 0;
      } else {
        assert i != |parts[0]|;
        var i' := i - |parts[0]| - 1;
        assert j[i] == Join(parts[1..], sep)[i'];
        var k' := JoinMember(parts[1..], sep, i');
        k := k' + 1;
      }
    }
  }
}
