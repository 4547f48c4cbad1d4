/**
 * The Python `str` operations the use-case parser and the aggregator rely on,
 * over sequences of code points: `isspace`, `strip`, `startswith`, `find`,
 * `split(sep)` with an explicit separator, and `sep.join(...)`.
 */
module Strings {
  import opened Wrappers

  /** `c.isspace()`: the code points Python treats as whitespace. */
  predicate IsSpace(c: char) {
    || c == ' '
    || ('\t' <= c <= '\r')
    || ('\U{1C}' <= c <= '\U{1F}')
    || c == '\U{85}' || c == '\U{A0}' || c == '\U{1680}'
    || ('\U{2000}' <= c <= '\U{200A}')
    || c == '\U{2028}' || c == '\U{2029}' || c == '\U{202F}' || c == '\U{205F}' || c == '\U{3000}'
  }

  predicate AllSpace(s: string) {
    forall i :: 0 <= i < |s| ==> IsSpace(s[i])
  }

  /** `s.lstrip()` */
  function TrimStart(s: string): string {
    if s != [] && IsSpace(s[0]) then TrimStart(s[1..]) else s
  }

  /** `s.rstrip()` */
  function TrimEnd(s: string): string {
    if s != [] && IsSpace(s[|s| - 1]) then TrimEnd(s[..|s| - 1]) else s
  }

  /** `s.strip()` */
  function Strip(s: string): string {
    TrimEnd(TrimStart(s))
  }

  /** `lstrip` removes a whitespace prefix and nothing more. */
  lemma {:induction false} TrimStartShape(s: string)
    ensures var r := TrimStart(s);
      && |r| <= |s| && r == s[|s| - |r|..]
      && AllSpace(s[..|s| - |r|])
      && (r == [] || !IsSpace(r[0]))
  {
    if s != [] && IsSpace(s[0]) {
      TrimStartShape(s[1..]);
      var r := TrimStart(s[1..]);
      assert s[..|s| - |r|] == [s[0]] + s[1..][..|s| - 1 - |r|];
    }
  }

  /** `rstrip` removes a whitespace suffix and nothing more. */
  lemma {:induction false} TrimEndShape(s: string)
    ensures var r := TrimEnd(s);
      && |r| <= |s| && r == s[..|r|]
      && AllSpace(s[|r|..])
      && (r == [] || !IsSpace(r[|r| - 1]))
  {
    if s != [] && IsSpace(s[|s| - 1]) {
      TrimEndShape(s[..|s| - 1]);
      var r := TrimEnd(s[..|s| - 1]);
      assert s[|r|..] == s[..|s| - 1][|r|..] + [s[|s| - 1]];
    }
  }

  /** `r` is `s[i..]` cut to its length, with nothing but whitespace before and after it in `s`. */
  predicate SliceBetweenBlanks(s: string, r: string, i: nat) {
    i + |r| <= |s| && r == s[i..i + |r|] && AllSpace(s[..i]) && AllSpace(s[i + |r|..])
  }

  /**
   * `s.strip()` is a slice of `s` with only whitespace cut off either side; it
   * neither starts nor ends with whitespace, and it is empty exactly when `s`
   * is all blank.
   */
  lemma StripShape(s: string)
    ensures exists i :: SliceBetweenBlanks(s, Strip(s), i)
    ensures Strip(s) == [] || (!IsSpace(Strip(s)[0]) && !IsSpace(Strip(s)[|Strip(s)| - 1]))
    ensures Strip(s) == [] <==> AllSpace(s)
  {
    var t := TrimStart(s);
    TrimStartShape(s);
    TrimEndShape(t);
    TrimmedBothEnds(s, t, TrimEnd(t));
    assert Strip(s) == TrimEnd(t);
    assert SliceBetweenBlanks(s, Strip(s), |s| - |t|);
    if TrimEnd(t) != [] {
      assert TrimEnd(t)[0] == t[0];
    }
  }

  lemma TrimmedBothEnds(s: string, t: string, r: string)
    requires |t| <= |s| && t == s[|s| - |t|..] && AllSpace(s[..|s| - |t|]) && (t == [] || !IsSpace(t[0]))
    requires |r| <= |t| && r == t[..|r|] && AllSpace(t[|r|..])
    ensures SliceBetweenBlanks(s, r, |s| - |t|)
    ensures r == [] <==> AllSpace(s)
  {
    var i: nat := |s| - |t|;
    assert r == s[i..i + |r|];
    assert s[i + |r|..] == t[|r|..];
    assert SliceBetweenBlanks(s, r, i);
    if r == [] {
      assert t == [];
      assert s[..i] == s;
    }
  }

  /** A blank string strips to the empty string. */
  lemma StripBlank(s: string)
    requires AllSpace(s)
    ensures Strip(s) == ""
  {
    StripShape(s);
  }

  /** `sep` occurs in `s` starting at index `k`. */
  predicate OccursAt(s: string, sep: string, k: nat) {
    k + |sep| <= |s| && s[k..k + |sep|] == sep
  }

  /** `s.startswith(prefix)` */
  predicate StartsWith(s: string, prefix: string) {
    OccursAt(s, prefix, 0)
  }

  /** `s.find(sep, k)`, with `None` for Python's -1: the first occurrence at or after `k`. */
  function FindFrom(s: string, sep: string, k: nat): (r: Option<nat>)
    requires |sep| > 0 && k <= |s|
    ensures r.Some? ==> k <= r.value && OccursAt(s, sep, r.value)
    ensures r.Some? ==> forall j :: k <= j < r.value ==> !OccursAt(s, sep, j)
    ensures r.None? ==> forall j :: k <= j <= |s| ==> !OccursAt(s, sep, j)
    decreases |s| - k
  {
    if k + |sep| > |s| then None
    else if OccursAt(s, sep, k) then Some(k)
    else FindFrom(s, sep, k + 1)
  }

  /** `s.find(sep)`: the first occurrence of `sep` in `s`, if any. */
  function Find(s: string, sep: string): (r: Option<nat>)
    requires |sep| > 0
    ensures r.Some? ==> OccursAt(s, sep, r.value) && forall j :: 0 <= j < r.value ==> !OccursAt(s, sep, j)
    ensures r.None? <==> forall j :: 0 <= j <= |s| ==> !OccursAt(s, sep, j)
  {
    FindFrom(s, sep, 0)
  }

  /** `sep in s` */
  predicate Contains(s: string, sep: string)
    requires |sep| > 0
  {
    Find(s, sep).Some?
  }

  /** `sep.join(xs)` */
  function Join(xs: seq<string>, sep: string): string {
    if xs == [] then ""
    else if |xs| == 1 then xs[0]
    else xs[0] + sep + Join(xs[1..], sep)
  }

  lemma PrefixHasNoEarlierOccurrence(s: string, sep: string, p: nat)
    requires |sep| > 0 && p <= |s|
    requires forall j :: 0 <= j < p ==> !OccursAt(s, sep, j)
    ensures !Contains(s[..p], sep)
  {
    var t := s[..p];
    forall j | 0 <= j <= |t| ensures !OccursAt(t, sep, j) {
      if OccursAt(t, sep, j) {
        assert t[j..j + |sep|] == s[j..j + |sep|];
        assert OccursAt(s, sep, j);
      }
    }
  }

  /** `s.split(sep)` for a non-empty separator: cuts `s` at every occurrence of `sep`, left to right. */
  function Split(s: string, sep: string): (r: seq<string>)
    requires |sep| > 0
    ensures |r| >= 1
    decreases |s|
  {
    match Find(s, sep)
    case None => [s]
    case Some(p) => [s[..p]] + Split(s[p + |sep|..], sep)
  }

  /** Where `sep` first occurs, `s.split(sep)` cuts off a first piece free of `sep`. */
  lemma SplitCut(s: string, sep: string, p: nat)
    requires |sep| > 0 && Find(s, sep) == Some(p)
    ensures p + |sep| <= |s|
    ensures Split(s, sep) == [s[..p]] + Split(s[p + |sep|..], sep)
    ensures s == s[..p] + sep + s[p + |sep|..]
    ensures !Contains(s[..p], sep)
  {
    PrefixHasNoEarlierOccurrence(s, sep, p);
    AroundOccurrence(s, sep, p);
  }

  /** An occurrence of `sep` at `k` splits `s` into what comes before, `sep`, and what follows. */
  lemma AroundOccurrence(s: string, sep: string, k: nat)
    requires OccursAt(s, sep, k)
    ensures s == s[..k] + sep + s[k + |sep|..]
  {
    assert s == s[..k] + s[k..k + |sep|] + s[k + |sep|..];
  }

  /** With no occurrence of `sep`, `s.split(sep)` is `[s]`. */
  lemma SplitNone(s: string, sep: string)
    requires |sep| > 0 && Find(s, sep) == None
    ensures Split(s, sep) == [s]
    ensures !Contains(s, sep)
  {
    assert s[..|s|] == s;
    PrefixHasNoEarlierOccurrence(s, sep, |s|);
  }

  /**
   * Joining the pieces of `s.split(sep)` back with `sep` gives `s`, and no
   * piece contains `sep`.
   */
  lemma {:induction false} SplitJoin(s: string, sep: string)
    requires |sep| > 0
    ensures Join(Split(s, sep), sep) == s
    ensures forall i :: 0 <= i < |Split(s, sep)| ==> !Contains(Split(s, sep)[i], sep)
    decreases |s|
  {
    match Find(s, sep)
    case None =>
      SplitNone(s, sep);
    case Some(p) =>
      SplitCut(s, sep, p);
      var rest := s[p + |sep|..];
      var pieces := Split(s, sep);
      SplitJoin(rest, sep);
      assert Join(pieces, sep) == s[..p] + sep + Join(Split(rest, sep), sep);
      forall i | 0 < i < |pieces| ensures !Contains(pieces[i], sep) {
        assert pieces[i] == Split(rest, sep)[i - 1];
      }
  }

  /**
   * The first piece of `s.split(sep)` is a prefix of `s` that ends where
   * `sep` first occurs, or at the end of `s`.
   */
  lemma SplitFirstPiece(s: string, sep: string, v: string)
    requires |sep| > 0 && v == Split(s, sep)[0]
    ensures |v| <= |s| && v == s[..|v|]
    ensures |v| == |s| || OccursAt(s, sep, |v|)
    ensures forall j :: 0 <= j < |v| ==> !OccursAt(s, sep, j)
  {
    match Find(s, sep)
    case None =>
      assert s[..|s|] == s;
    case Some(p) =>
      SplitCut(s, sep, p);
  }

  /** A string that starts with `sep` splits into an empty piece, then the pieces of what follows `sep`. */
  lemma SplitAtLeadingSeparator(s: string, sep: string)
    requires |sep| > 0 && StartsWith(s, sep)
    ensures |Split(s, sep)| >= 2
    ensures Split(s, sep)[0] == "" && Split(s, sep)[1] == Split(s[|sep|..], sep)[0]
  {
    assert Find(s, sep) == Some(0);
  }

  /** For a one-character separator, `Contains` is plain membership. */
  lemma ContainsChar(s: string, c: char)
    ensures Contains(s, [c]) <==> c in s
  {
    if c in s {
      var k :| 0 <= k < |s| && s[k] == c;
      assert s[k..k + 1] == [c];
      assert OccursAt(s, [c], k);
    }
    if Contains(s, [c]) {
      var k := Find(s, [c]).value;
      assert s[k..k + 1] == [c];
      assert s[k] == c;
    }
  }

  /** In a join of `c`-free pieces, the first `c` (if any) ends the first piece. */
  lemma JoinCharFirstSeparator(a: seq<string>, c: char)
    requires |a| >= 1
    requires forall i :: 0 <= i < |a| ==> c !in a[i]
    ensures |a| == 1 ==> Find(Join(a, [c]), [c]) == None
    ensures |a| > 1 ==> Find(Join(a, [c]), [c]) == Some(|a[0]|)
  {
    var s := Join(a, [c]);
    if |a| == 1 {
      ContainsChar(s, c);
    } else {
      assert s == a[0] + [c] + Join(a[1..], [c]);
      assert OccursAt(s, [c], |a[0]|) by {
        assert s[|a[0]|..|a[0]| + 1] == [c];
      }
      forall j | 0 <= j < |a[0]| ensures !OccursAt(s, [c], j) {
        assert s[j] == a[0][j];
        assert s[j..j + 1] == [s[j]];
      }
    }
  }

  /**
   * Joining with a one-character separator is injective on lists of pieces
   * that do not contain that character: such a decomposition is unique.
   */
  lemma {:induction false} JoinCharInjective(a: seq<string>, b: seq<string>, c: char)
    requires |a| >= 1 && |b| >= 1
    requires forall i :: 0 <= i < |a| ==> c !in a[i]
    requires forall i :: 0 <= i < |b| ==> c !in b[i]
    requires Join(a, [c]) == Join(b, [c])
    ensures a == b
  {
    var s := Join(a, [c]);
    JoinCharFirstSeparator(a, c);
    JoinCharFirstSeparator(b, c);
    if |a| > 1 {
      assert s == a[0] + [c] + Join(a[1..], [c]);
      assert s == b[0] + [c] + Join(b[1..], [c]);
      assert a[0] == s[..|a[0]|] == b[0];
      assert Join(a[1..], [c]) == s[|a[0]| + 1..] == Join(b[1..], [c]);
      JoinCharInjective(a[1..], b[1..], c);
      assert a == [a[0]] + a[1..];
      assert b == [b[0]] + b[1..];
    }
  }

  /**
   * `s.split(c)` is the one decomposition of `s` into `c`-free pieces that
   * joins back to `s` with `c`.
   */
  lemma SplitCharIsUnique(s: string, c: char, pieces: seq<string>)
    requires |pieces| >= 1 && Join(pieces, [c]) == s
    requires forall i :: 0 <= i < |pieces| ==> c !in pieces[i]
    ensures Split(s, [c]) == pieces
  {
    var r := Split(s, [c]);
    SplitJoin(s, [c]);
    forall i | 0 <= i < |r| ensures c !in r[i] {
      ContainsChar(r[i], c);
    }
    JoinCharInjective(r, pieces, c);
  }
}
