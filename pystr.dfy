/**
 * The few operations of Python's `str` that the loader and the hours parser use:
 * `strip()`, `strip(chars)`, `split(sep)` and `split(sep, 1)`, with CPython's
 * semantics for a one-character separator.
 */
module PyStr {
  import opened Wrappers

  /** CPython's `str.isspace()`: the characters `strip()` removes. */
  predicate IsSpace(c: char) {
    '\t' <= c <= '\r' || '\U{001C}' <= c <= ' ' || c == '\U{0085}' || c == '\U{00A0}' || c == '\U{1680}' ||
    '\U{2000}' <= c <= '\U{200A}' || c == '\U{2028}' || c == '\U{2029}' || c == '\U{202F}' ||
    c == '\U{205F}' || c == '\U{3000}'
  }

  const Whitespace: set<char> := set c: char | '\t' <= c <= '\U{3000}' && IsSpace(c)

  /** All characters of `s` are in `cs`. */
  predicate AllIn(s: string, cs: set<char>) {
    forall i :: 0 <= i < |s| ==> s[i] in cs
  }

  /** Neither end of `s` is in `cs` (vacuously so for the empty string). */
  predicate EndsOutside(s: string, cs: set<char>) {
    s == [] || (s[0] !in cs && s[|s| - 1] !in cs)
  }

  /**
   * `s.strip(cs)`: the leading run of characters in `cs` is dropped, then the
   * trailing run.
   */
  function StripChars(s: string, cs: set<char>): (r: string)
    ensures |r| <= |s| && EndsOutside(r, cs)
    decreases |s|
  {
    if s != [] && s[0] in cs then StripChars(s[1..], cs)
    else if s != [] && s[|s| - 1] in cs then StripChars(s[..|s| - 1], cs)
    else s
  }

  /** `r` sits at offset `i` in `s`, and what lies outside it is all in `cs`. */
  predicate SliceWithin(s: string, r: string, i: nat, cs: set<char>) {
    i + |r| <= |s| && r == s[i..i + |r|] && AllIn(s[..i], cs) && AllIn(s[i + |r|..], cs)
  }

  lemma SliceWithinTail(s: string, r: string, j: nat, cs: set<char>)
    requires s != [] && s[0] in cs && SliceWithin(s[1..], r, j, cs)
    ensures SliceWithin(s, r, j + 1, cs)
  {
    var t := s[1..];
    assert s[..j + 1] == [s[0]] + t[..j];
    AllInConcat([s[0]], t[..j], cs);
    assert s[j + 1 + |r|..] == t[j + |r|..];
  }

  lemma SliceWithinInit(s: string, r: string, i: nat, cs: set<char>)
    requires s != [] && s[|s| - 1] in cs && SliceWithin(s[..|s| - 1], r, i, cs)
    ensures SliceWithin(s, r, i, cs)
  {
    var t := s[..|s| - 1];
    assert s[..i] == t[..i];
    assert s[i + |r|..] == t[i + |r|..] + [s[|s| - 1]];
    AllInConcat(t[i + |r|..], [s[|s| - 1]], cs);
  }

  /** What `strip(cs)` keeps is a slice of `s`, and everything it drops is in `cs`. */
  lemma {:induction false} StripCharsSlice(s: string, cs: set<char>) returns (i: nat)
    ensures SliceWithin(s, StripChars(s, cs), i, cs)
    decreases |s|
  {
    if s != [] && s[0] in cs {
      var j := StripCharsSlice(s[1..], cs);
      SliceWithinTail(s, StripChars(s, cs), j, cs);
      i := j + 1;
    } else if s != [] && s[|s| - 1] in cs {
      i := StripCharsSlice(s[..|s| - 1], cs);
      SliceWithinInit(s, StripChars(s, cs), i, cs);
    } else {
      i := 0;
      assert s[..0] == [] && s[|s|..] == [];
    }
  }

  /** `s.strip()`. */
  function Strip(s: string): (r: string)
    ensures |r| <= |s| && EndsOutside(r, Whitespace)
  {
    StripChars(s, Whitespace)
  }

  /**
   * `strip(cs)` is characterised by its result: whenever `s` is some padding from `cs`,
   * a middle whose ends are outside `cs`, and more padding, the middle is what is left.
   */
  lemma {:induction false} StripCharsUnique(a: string, m: string, b: string, cs: set<char>)
    requires AllIn(a, cs) && AllIn(b, cs) && EndsOutside(m, cs)
    ensures StripChars(a + m + b, cs) == m
    decreases |a| + |b|
  {
    var s := a + m + b;
    if a != [] {
      assert s[0] == a[0];
      assert s[1..] == a[1..] + m + b;
      assert AllIn(a[1..], cs) by { forall k | 0 <= k < |a[1..]| ensures a[1..][k] in cs { assert a[1..][k] == a[k + 1]; } }
      StripCharsUnique(a[1..], m, b, cs);
    } else if m == [] && b != [] {
      assert s == b && s[1..] == [] + m + b[1..];
      assert AllIn(b[1..], cs) by { forall k | 0 <= k < |b[1..]| ensures b[1..][k] in cs { assert b[1..][k] == b[k + 1]; } }
      StripCharsUnique([], m, b[1..], cs);
    } else if b != [] {
      var b' := b[..|b| - 1];
      assert s[0] == m[0] && s[|s| - 1] == b[|b| - 1];
      assert s[..|s| - 1] == [] + m + b';
      assert AllIn(b', cs) by { forall k | 0 <= k < |b'| ensures b'[k] in cs { assert b'[k] == b[k]; } }
      StripCharsUnique([], m, b', cs);
    } else {
      assert s == m;
    }
  }

  lemma AllInConcat(x: string, y: string, cs: set<char>)
    requires AllIn(x, cs) && AllIn(y, cs)
    ensures AllIn(x + y, cs)
  {
    forall k | 0 <= k < |x + y| ensures (x + y)[k] in cs {
      if k >= |x| { assert (x + y)[k] == y[k - |x|]; }
    }
  }

  lemma SeqAssoc5(p: string, q: string, r: string, s: string, t: string)
    ensures p + (q + r + s) + t == (p + q) + r + (s + t)
  {
  }

  /** Extra padding from `cs` around a string does not change what `strip(cs)` leaves. */
  lemma StripCharsIgnoresPadding(a: string, s: string, b: string, cs: set<char>)
    requires AllIn(a, cs) && AllIn(b, cs)
    ensures StripChars(a + s + b, cs) == StripChars(s, cs)
  {
    var m := StripChars(s, cs);
    var i := StripCharsSlice(s, cs);
    var lead, trail := s[..i], s[i + |m|..];
    assert s == lead + m + trail;
    AllInConcat(a, lead, cs);
    AllInConcat(trail, b, cs);
    var a', b' := a + lead, trail + b;
    SeqAssoc5(a, lead, m, trail, b);
    StripCharsUnique(a', m, b', cs);
  }

  /** A string whose ends are already outside `cs` is left unchanged by `strip(cs)`. */
  lemma StripCharsNoop(s: string, cs: set<char>)
    requires EndsOutside(s, cs)
    ensures StripChars(s, cs) == s
  {
    assert [] + s + [] == s;
    StripCharsUnique([], s, [], cs);
  }

  /** `sep.join(ps)`. */
  function Join(ps: seq<string>, sep: char): string {
    if ps == [] then []
    else if |ps| == 1 then ps[0]
    else ps[0] + [sep] + Join(ps[1..], sep)
  }

  /**
   * `s.split(sep)`: the pieces between occurrences of `sep`, one more piece than there
   * are separators (so the empty string splits into one empty piece).
   */
  function Split(s: string, sep: char): (r: seq<string>)
    ensures |r| >= 1
    ensures forall i :: 0 <= i < |r| ==> sep !in r[i]
    ensures Join(r, sep) == s
    decreases |s|
  {
    if s == [] then [[]]
    else
      var rest := Split(s[1..], sep);
      assert s == [s[0]] + s[1..];
      if s[0] == sep then [[]] + rest
      else
        var r := [[s[0]] + rest[0]] + rest[1..];
        assert |rest| > 1 ==> Join(rest, sep) == rest[0] + [sep] + Join(rest[1..], sep);
        assert |rest| > 1 ==> r[1..] == rest[1..];
        r
  }

  /** `split` gives one more piece than there are separators. */
  lemma {:induction false} SplitCount(s: string, sep: char)
    ensures |Split(s, sep)| == multiset(s)[sep] + 1
    decreases |s|
  {
    if s != [] {
      SplitCount(s[1..], sep);
      assert s == [s[0]] + s[1..];
    }
  }

  /** A string without the separator is a single piece. */
  lemma {:induction false} SplitNoSeparator(s: string, sep: char)
    requires sep !in s
    ensures Split(s, sep) == [s]
    decreases |s|
  {
    if s != [] {
      assert s == [s[0]] + s[1..];
      SplitNoSeparator(s[1..], sep);
    }
  }

  /** The piece before the first separator comes first, and splitting goes on after it. */
  lemma {:induction false} SplitAtFirst(a: string, t: string, sep: char)
    requires sep !in a
    ensures Split(a + [sep] + t, sep) == [a] + Split(t, sep)
    decreases |a|
  {
    var s := a + [sep] + t;
    if a == [] {
      assert s[1..] == t;
    } else {
      assert s[1..] == a[1..] + [sep] + t;
      assert a == [a[0]] + a[1..];
      SplitAtFirst(a[1..], t, sep);
    }
  }

  /** Splitting undoes joining pieces that do not contain the separator. */
  lemma {:induction false} SplitJoin(ps: seq<string>, sep: char)
    requires |ps| >= 1
    requires forall i :: 0 <= i < |ps| ==> sep !in ps[i]
    ensures Split(Join(ps, sep), sep) == ps
    decreases |ps|
  {
    if |ps| == 1 {
      SplitNoSeparator(ps[0], sep);
    } else {
      SplitAtFirst(ps[0], Join(ps[1..], sep), sep);
      SplitJoin(ps[1..], sep);
      assert ps == [ps[0]] + ps[1..];
    }
  }

  /** Two separator-free pieces joined by the separator split back into those two. */
  lemma SplitPair(a: string, b: string, sep: char)
    requires sep !in a && sep !in b
    ensures Split(a + [sep] + b, sep) == [a, b]
  {
    assert Join([a, b], sep) == a + [sep] + b;
    SplitJoin([a, b], sep);
  }

  /**
   * `s.split(sep, 1)` on a string that contains `sep`: the text before the first
   * separator and everything after it; `None` when there is no separator.
   */
  function SplitFirst(s: string, sep: char): (r: Option<(string, string)>)
    ensures r.None? <==> sep !in s
    ensures r.Some? ==> sep !in r.value.0 && r.value.0 + [sep] + r.value.1 == s
    decreases |s|
  {
    if s == [] then None
    else if s[0] == sep then Some(([], s[1..]))
    else
      match SplitFirst(s[1..], sep)
      case None => None
      case Some((a, b)) => Some(([s[0]] + a, b))
  }

  /** The first-separator split is the unique one: only the FIRST separator divides. */
  lemma {:induction false} SplitFirstAt(a: string, b: string, sep: char)
    requires sep !in a
    ensures SplitFirst(a + [sep] + b, sep) == Some((a, b))
    decreases |a|
  {
    var s := a + [sep] + b;
    if a == [] {
      assert s[1..] == b;
    } else {
      assert s[1..] == a[1..] + [sep] + b;
      SplitFirstAt(a[1..], b, sep);
      assert a == [a[0]] + a[1..];
    }
  }

  /** The head of `split(sep, 1)` is the first piece of the full `split(sep)`. */
  lemma SplitFirstIsFirstPiece(s: string, sep: char)
    requires sep in s
    ensures SplitFirst(s, sep).Some? && SplitFirst(s, sep).value.0 == Split(s, sep)[0]
  {
    var (a, b) := SplitFirst(s, sep).value;
    SplitAtFirst(a, b, sep);
  }

  /** A join starts with the first character of its first piece. */
  lemma JoinFirst(ps: seq<string>, sep: char)
    requires |ps| >= 1 && ps[0] != []
    ensures Join(ps, sep) != [] && Join(ps, sep)[0] == ps[0][0]
  {
  }

  /** A join ends with the last character of its last piece. */
  lemma {:induction false} JoinLast(ps: seq<string>, sep: char)
    requires |ps| >= 1 && ps[|ps| - 1] != []
    ensures var j := Join(ps, sep); j != [] && j[|j| - 1] == ps[|ps| - 1][|ps[|ps| - 1]| - 1]
    decreases |ps|
  {
    if |ps| > 1 {
      JoinLast(ps[1..], sep);
    }
  }
}
