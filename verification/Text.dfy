/** Searching and splitting, shared by the string components. */
module Text {
  import opened Wrappers

  /** The first position of `x`, or the length when it does not occur. */
  function IndexOf<T(==)>(s: seq<T>, x: T): (k: nat)
    ensures k <= |s|
    ensures forall i :: 0 <= i < k ==> s[i] != x
    ensures k < |s| ==> s[k] == x
  {
    if s == [] || s[0] == x then 0 else 1 + IndexOf(s[1..], x)
  }

  lemma {:induction false} IndexOfAppend<T>(a: seq<T>, b: seq<T>, x: T)
    requires x !in a
    ensures IndexOf(a + b, x) == |a| + IndexOf(b, x)
  {
    if a == [] {
      assert a + b == b;
    } else {
      assert (a + b)[1..] == a[1..] + b;
      IndexOfAppend(a[1..], b, x);
    }
  }

  /** Stated for a known position: what comes before holds no `x` and `x` stands there. */
  lemma IndexOfIs<T>(s: seq<T>, x: T, k: nat)
    requires k < |s| && s[k] == x && forall i :: 0 <= i < k ==> s[i] != x
    ensures IndexOf(s, x) == k
  {
    hide IndexOf;
  }

  predicate OccursAt(s: string, p: string, i: nat) {
    i + |p| <= |s| && s[i..i + |p|] == p
  }

  lemma OccursFirst(s: string, p: string, i: nat)
    requires OccursAt(s, p, i) && p != []
    ensures p[0] == s[i]
  {
    assert s[i..i + |p|][0] == s[i];
  }

  /** The first position where `p` occurs in `s`. */
  function Find(s: string, p: string): (r: Option<nat>)
    ensures r.Some? ==> OccursAt(s, p, r.value) && forall i: nat :: i < r.value ==> !OccursAt(s, p, i)
    ensures r.None? ==> forall i: nat :: !OccursAt(s, p, i)
  {
    FindFrom(s, p, 0)
  }

  function FindFrom(s: string, p: string, from: nat): (r: Option<nat>)
    requires from <= |s| + 1
    requires forall i: nat :: i < from ==> !OccursAt(s, p, i)
    ensures r.Some? ==> OccursAt(s, p, r.value) && forall i: nat :: i < r.value ==> !OccursAt(s, p, i)
    ensures r.None? ==> forall i: nat :: !OccursAt(s, p, i)
    decreases |s| + 1 - from
  {
    if from > |s| then None
    else if OccursAt(s, p, from) then Some(from)
    else FindFrom(s, p, from + 1)
  }

  /** The last position where `p` occurs in `s`. */
  function FindLast(s: string, p: string): (r: Option<nat>)
    ensures r.Some? ==> OccursAt(s, p, r.value) && forall i: nat :: i > r.value ==> !OccursAt(s, p, i)
    ensures r.None? ==> forall i: nat :: !OccursAt(s, p, i)
  {
    FindLastUpTo(s, p, |s|)
  }

  function FindLastUpTo(s: string, p: string, upto: nat): (r: Option<nat>)
    requires forall i: nat :: i > upto ==> !OccursAt(s, p, i)
    ensures r.Some? ==> OccursAt(s, p, r.value) && forall i: nat :: i > r.value ==> !OccursAt(s, p, i)
    ensures r.None? ==> forall i: nat :: !OccursAt(s, p, i)
  {
    if OccursAt(s, p, upto) then Some(upto)
    else if upto == 0 then None
    else FindLastUpTo(s, p, upto - 1)
  }

  predicate Contains(s: string, p: string) {
    Find(s, p).Some?
  }

  function LowerAscii(c: char): char {
    if 'A' <= c <= 'Z' then (c as int - 'A' as int + 'a' as int) as char else c
  }

  predicate StartsWith(s: string, p: string) {
    p <= s
  }

  /** The pieces between separators; `n` separators give `n + 1` pieces. */
  function Split<T(==)>(s: seq<T>, sep: T): (pieces: seq<seq<T>>)
    ensures pieces != []
    decreases |s|
  {
    var k := IndexOf(s, sep);
    if k == |s| then [s] else [s[..k]] + Split(s[k + 1..], sep)
  }

  lemma SplitHead<T>(s: seq<T>, sep: T)
    ensures Split(s, sep)[0] == s[..IndexOf(s, sep)]
  {
    hide IndexOf;
  }

  lemma SplitWhole<T>(s: seq<T>, sep: T)
    requires sep !in s
    ensures Split(s, sep) == [s]
  {
    hide IndexOf;
  }

  lemma {:induction false} SplitAppend<T>(a: seq<T>, b: seq<T>, sep: T)
    ensures Split(a + [sep] + b, sep) == Split(a, sep) + Split(b, sep)
    decreases |a|
  {
    hide IndexOf;
    var k := IndexOf(a, sep);
    var s := a + [sep] + b;
    IndexOfIs(s, sep, k);
    assert s[..k] == a[..k];
    if k == |a| {
      assert a[..k] == a && s[k + 1..] == b;
    } else {
      assert s[k + 1..] == a[k + 1..] + [sep] + b;
      SplitAppend(a[k + 1..], b, sep);
    }
  }
}
