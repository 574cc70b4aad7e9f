/**
 * The parts of Go's `strings` package the shell uses, on strings of Unicode
 * code points: `Split` and `Join` with a one-character separator, `Count`,
 * `TrimSpace`, `Fields` and the cutset form of `TrimRight`.
 */
module GoStrings {

  /** Go's `unicode.IsSpace`: the characters `TrimSpace` and `Fields` treat as white space. */
  predicate IsSpace(c: char) {
    || c == ' ' || c == '\t' || c == '\n' || c == '\U{000B}' || c == '\U{000C}' || c == '\r'
    || c == '\U{0085}' || c == '\U{00A0}' || c == '\U{1680}'
    || ('\U{2000}' <= c <= '\U{200A}')
    || c == '\U{2028}' || c == '\U{2029}' || c == '\U{202F}' || c == '\U{205F}' || c == '\U{3000}'
  }

  predicate AllSpace(s: string) {
    forall i :: 0 <= i < |s| ==> IsSpace(s[i])
  }

  /** A word as `Fields` produces it: non-empty and free of white space. */
  predicate IsToken(w: string) {
    w != [] && forall i :: 0 <= i < |w| ==> !IsSpace(w[i])
  }

  predicate EndsWith(s: string, suffix: string) {
    |suffix| <= |s| && s[|s| - |suffix|..] == suffix
  }

  /** `strings.Count(s, string(c))`: the number of occurrences of `c` in `s`. */
  function Count(s: string, c: char): (n: nat)
    ensures n <= |s|
    ensures n == 0 <==> c !in s
  {
    if s == [] then 0
    else
      assert s == [s[0]] + s[1..];
      (if s[0] == c then 1 else 0) + Count(s[1..], c)
  }

  /** `strings.Split(s, string(sep))`: the pieces of `s` between occurrences of `sep`. */
  function Split(s: string, sep: char): (parts: seq<string>)
    ensures |parts| == Count(s, sep) + 1
    ensures forall i :: 0 <= i < |parts| ==> sep !in parts[i]
    decreases |s|
  {
    if s == [] then [[]]
    else
      var rest := Split(s[1..], sep);
      if s[0] == sep then [[]] + rest
      else [[s[0]] + rest[0]] + rest[1..]
  }

  /** `strings.Join(parts, string(sep))`: the pieces with one separator between neighbours. */
  function Join(parts: seq<string>, sep: char): (r: string)
  {
    if |parts| == 0 then []
    else if |parts| == 1 then parts[0]
    else parts[0] + [sep] + Join(parts[1..], sep)
  }

  /** Removes the leading white space. */
  function TrimLeftSpace(s: string): (r: string)
    ensures |r| <= |s| && r == s[|s| - |r|..]
    ensures AllSpace(s[..|s| - |r|])
    ensures r == [] || !IsSpace(r[0])
  {
    if s != [] && IsSpace(s[0]) then TrimLeftSpace(s[1..]) else s
  }

  /** Removes the trailing white space. */
  function TrimRightSpace(s: string): (r: string)
    ensures |r| <= |s| && r == s[..|r|]
    ensures AllSpace(s[|r|..])
    ensures r == [] || !IsSpace(r[|r| - 1])
  {
    if s != [] && IsSpace(s[|s| - 1]) then TrimRightSpace(s[..|s| - 1]) else s
  }

  /**
   * `strings.TrimSpace`: the result is empty exactly for an all-white-space
   * string, and otherwise begins and ends outside white space.
   */
  function TrimSpace(s: string): (r: string)
    ensures |r| <= |s|
    ensures r == [] <==> AllSpace(s)
    ensures r == [] || (!IsSpace(r[0]) && !IsSpace(r[|r| - 1]))
  {
    var t := TrimRightSpace(s);
    var r := TrimLeftSpace(t);
    assert r == [] ==> AllSpace(s) by {
      if r == [] {
        assert s == t + s[|t|..];
        assert t[..|t| - |r|] == t;
        AllSpaceAppend(t, s[|t|..]);
      }
    }
    assert AllSpace(s) ==> t == [];
    r
  }

  /** The length of the longest prefix of `s` that holds no white space. */
  function WordLen(s: string): (n: nat)
    ensures n <= |s|
    ensures forall i :: 0 <= i < n ==> !IsSpace(s[i])
    ensures n < |s| ==> IsSpace(s[n])
  {
    if s == [] || IsSpace(s[0]) then 0 else 1 + WordLen(s[1..])
  }

  /** `strings.Fields`: the maximal runs of non-space characters, in order. */
  function Fields(s: string): (words: seq<string>)
    ensures forall i :: 0 <= i < |words| ==> IsToken(words[i])
    decreases |s|
  {
    if s == [] then []
    else if IsSpace(s[0]) then Fields(s[1..])
    else
      var n := WordLen(s);
      [s[..n]] + Fields(s[n..])
  }

  /**
   * `strings.TrimRight(s, cutset)`: drops trailing characters as long as they
   * belong to `cutset`. The cutset is a set of characters, not a suffix.
   */
  function TrimRight(s: string, cutset: string): (r: string)
    ensures |r| <= |s| && r == s[..|r|]
    ensures forall i :: |r| <= i < |s| ==> s[i] in cutset
    ensures r == [] || r[|r| - 1] !in cutset
  {
    if s != [] && s[|s| - 1] in cutset then TrimRight(s[..|s| - 1], cutset) else s
  }

  /**
   * `TrimRight(s, cutset)` is the shortest prefix of `s` that leaves only
   * cutset characters behind it: any prefix with that property and a last
   * character outside the cutset is the result.
   */
  lemma TrimRightUnique(s: string, cutset: string, k: nat)
    requires k <= |s|
    requires k == 0 || s[k - 1] !in cutset
    requires forall i :: k <= i < |s| ==> s[i] in cutset
    ensures TrimRight(s, cutset) == s[..k]
  {
  }

  // ---------------------------------------------------------------- Count

  /** A concatenation is all white space exactly when both parts are. */
  lemma AllSpaceAppend(a: string, b: string)
    ensures AllSpace(a + b) <==> AllSpace(a) && AllSpace(b)
  {
    if AllSpace(a) && AllSpace(b) {
      forall i | 0 <= i < |a + b|
        ensures IsSpace((a + b)[i])
      {
        if i >= |a| {
          assert (a + b)[i] == b[i - |a|];
        }
      }
    }
    if AllSpace(a + b) {
      forall i | 0 <= i < |a|
        ensures IsSpace(a[i])
      {
        assert (a + b)[i] == a[i];
      }
      forall i | 0 <= i < |b|
        ensures IsSpace(b[i])
      {
        assert (a + b)[|a| + i] == b[i];
      }
    }
  }

  /** `Count(s, c) == |s|` exactly when every character of `s` is `c`. */
  lemma {:induction false} CountAll(s: string, c: char)
    ensures Count(s, c) == |s| <==> forall i :: 0 <= i < |s| ==> s[i] == c
  {
    if s != [] {
      CountAll(s[1..], c);
      assert forall i :: 1 <= i < |s| ==> s[i] == s[1..][i - 1];
    }
  }

  // ---------------------------------------------------------------- Split and Join

  /** Splitting `a + b`, where `a` has no separator, extends the first piece of `b`. */
  lemma {:induction false} SplitConcat(a: string, b: string, sep: char)
    requires sep !in a
    ensures Split(a + b, sep) == [a + Split(b, sep)[0]] + Split(b, sep)[1..]
  {
    if a == [] {
      assert a + b == b;
      var parts := Split(b, sep);
      assert a + parts[0] == parts[0];
      assert parts == [parts[0]] + parts[1..];
    } else {
      assert (a + b)[1..] == a[1..] + b;
      SplitConcat(a[1..], b, sep);
      assert [a[0]] + (a[1..] + Split(b, sep)[0]) == a + Split(b, sep)[0];
    }
  }

  /** A string with no separator splits into itself alone. */
  lemma SplitNoSep(a: string, sep: char)
    requires sep !in a
    ensures Split(a, sep) == [a]
  {
    SplitConcat(a, [], sep);
    assert a + [] == a;
  }

  /** Splitting at a separator splits both sides independently. */
  lemma {:induction false} SplitAtSep(x: string, y: string, sep: char)
    ensures Split(x + [sep] + y, sep) == Split(x, sep) + Split(y, sep)
  {
    if x == [] {
      assert x + [sep] + y == [sep] + y;
      assert ([sep] + y)[1..] == y;
    } else {
      assert (x + [sep] + y)[1..] == x[1..] + [sep] + y;
      SplitAtSep(x[1..], y, sep);
    }
  }

  /** Splitting a joined list of separator-free pieces gives the pieces back. */
  lemma {:induction false} SplitJoin(parts: seq<string>, sep: char)
    requires |parts| >= 1
    requires forall i :: 0 <= i < |parts| ==> sep !in parts[i]
    ensures Split(Join(parts, sep), sep) == parts
  {
    if |parts| == 1 {
      SplitNoSep(parts[0], sep);
    } else {
      SplitNoSep(parts[0], sep);
      SplitAtSep(parts[0], Join(parts[1..], sep), sep);
      SplitJoin(parts[1..], sep);
      assert parts == [parts[0]] + parts[1..];
    }
  }

  /** Joining the pieces of a split gives the string back. */
  lemma {:induction false} JoinSplit(s: string, sep: char)
    ensures Join(Split(s, sep), sep) == s
  {
    if s != [] {
      JoinSplit(s[1..], sep);
      var rest := Split(s[1..], sep);
      if s[0] == sep {
        assert Split(s, sep) == [[]] + rest;
        assert ([[]] + rest)[1..] == rest;
      } else {
        var parts := Split(s, sep);
        assert parts == [[s[0]] + rest[0]] + rest[1..];
        if |rest| == 1 {
          assert parts == [[s[0]] + rest[0]];
        } else {
          assert parts[1..] == rest[1..];
        }
      }
    }
  }

  /** Joining a concatenation puts one separator between the two joins. */
  lemma {:induction false} JoinAppend(xs: seq<string>, ys: seq<string>, sep: char)
    requires |xs| >= 1 && |ys| >= 1
    ensures Join(xs + ys, sep) == Join(xs, sep) + [sep] + Join(ys, sep)
  {
    if |xs| > 1 {
      assert (xs + ys)[1..] == xs[1..] + ys;
      JoinAppend(xs[1..], ys, sep);
    } else {
      assert (xs + ys)[1..] == ys;
    }
  }

  /** A string that is `w` or ends with `sep` and then `w` has `w` as its last piece. */
  lemma LastPieceOfSuffix(s: string, sep: char, w: string)
    requires sep !in w
    requires s == w || EndsWith(s, [sep] + w)
    ensures var parts := Split(s, sep); parts[|parts| - 1] == w
  {
    SplitNoSep(w, sep);
    if s != w {
      var x := s[..|s| - |w| - 1];
      assert s == x + [sep] + w;
      SplitAtSep(x, w, sep);
    }
  }

  /** Conversely, the last piece of a split is what follows the last separator. */
  lemma SuffixOfLastPiece(s: string, sep: char)
    ensures var parts := Split(s, sep);
      var w := parts[|parts| - 1];
      s == w || EndsWith(s, [sep] + w)
  {
    var parts := Split(s, sep);
    JoinSplit(s, sep);
    if |parts| >= 2 {
      JoinEndsWithLast(parts, sep);
    }
  }

  /** A join of two or more pieces ends with the separator and the last piece. */
  lemma {:induction false} JoinEndsWithLast(parts: seq<string>, sep: char)
    requires |parts| >= 2
    ensures EndsWith(Join(parts, sep), [sep] + parts[|parts| - 1])
  {
    var suffix := [sep] + parts[|parts| - 1];
    var rest := Join(parts[1..], sep);
    if |parts| > 2 {
      JoinEndsWithLast(parts[1..], sep);
      EndsWithAppend(parts[0] + [sep], rest, suffix);
      assert parts[0] + [sep] + rest == Join(parts, sep);
    } else {
      assert rest == parts[1];
      EndsWithAppend(parts[0], suffix, suffix);
      assert parts[0] + suffix == Join(parts, sep);
    }
  }

  lemma EndsWithAppend(a: string, b: string, suffix: string)
    requires EndsWith(b, suffix)
    ensures EndsWith(a + b, suffix)
  {
    assert (a + b)[|a + b| - |suffix|..] == b[|b| - |suffix|..];
  }

  /**
   * The last piece of `Split(s, sep)` is the separator-free word `w` exactly
   * when `s` is `w` or ends with `sep` followed by `w`.
   */
  lemma LastPiece(s: string, sep: char, w: string)
    requires sep !in w
    ensures var parts := Split(s, sep);
      parts[|parts| - 1] == w <==> s == w || EndsWith(s, [sep] + w)
  {
    if s == w || EndsWith(s, [sep] + w) {
      LastPieceOfSuffix(s, sep, w);
    }
    SuffixOfLastPiece(s, sep);
  }

  // ---------------------------------------------------------------- white space and Fields

  /** `Fields` finds no word exactly in an all-space string. */
  lemma {:induction false} FieldsEmpty(s: string)
    ensures Fields(s) == [] <==> AllSpace(s)
  {
    if s != [] && IsSpace(s[0]) {
      FieldsEmpty(s[1..]);
      assert forall i :: 1 <= i < |s| ==> s[i] == s[1..][i - 1];
    }
  }

  /** `WordLen` is determined by its contract. */
  lemma WordLenUnique(s: string, m: nat)
    requires m <= |s|
    requires forall i :: 0 <= i < m ==> !IsSpace(s[i])
    requires m < |s| ==> IsSpace(s[m])
    ensures WordLen(s) == m
  {
  }

  /** Leading white space does not change the words. */
  lemma {:induction false} FieldsTrimLeft(s: string)
    ensures Fields(TrimLeftSpace(s)) == Fields(s)
  {
    if s != [] && IsSpace(s[0]) {
      FieldsTrimLeft(s[1..]);
    }
  }

  /** Trailing white space does not change the words. */
  lemma {:induction false} FieldsAppendSpace(t: string, w: string)
    requires AllSpace(w)
    ensures Fields(t + w) == Fields(t)
    decreases |t|
  {
    if t == [] {
      assert t + w == w;
      FieldsEmpty(w);
    } else if IsSpace(t[0]) {
      assert (t + w)[1..] == t[1..] + w;
      FieldsAppendSpace(t[1..], w);
    } else {
      var m := WordLen(t);
      WordLenUnique(t + w, m);
      assert (t + w)[..m] == t[..m];
      assert (t + w)[m..] == t[m..] + w;
      FieldsAppendSpace(t[m..], w);
    }
  }

  /** `TrimSpace` does not change the words: `Fields(TrimSpace(s)) == Fields(s)`. */
  lemma FieldsTrimSpace(s: string)
    ensures Fields(TrimSpace(s)) == Fields(s)
  {
    var t := TrimRightSpace(s);
    assert s == t + s[|t|..];
    FieldsAppendSpace(t, s[|t|..]);
    FieldsTrimLeft(t);
  }

  /** Re-splitting words joined by single spaces gives the words back. */
  lemma {:induction false} FieldsJoin(words: seq<string>)
    requires |words| >= 1
    requires forall i :: 0 <= i < |words| ==> IsToken(words[i])
    ensures Fields(Join(words, ' ')) == words
  {
    var w := words[0];
    if |words| == 1 {
      WordLenUnique(w, |w|);
      assert w[..|w|] == w && w[|w|..] == [];
    } else {
      var rest := Join(words[1..], ' ');
      var j := w + [' '] + rest;
      WordLenUnique(j, |w|);
      assert j[..|w|] == w;
      assert j[|w|..] == [' '] + rest;
      assert ([' '] + rest)[1..] == rest;
      FieldsJoin(words[1..]);
      assert words == [w] + words[1..];
    }
  }
}
