/** Names of supervised extension children. */
module ChildName {
  import opened Text

  const MAX_STEM: nat := 48
  const MAX_PART: nat := 63
  const LARGEST_SAFE_INDEX: nat := 99_999_999_999_999

  predicate IsAsciiAlphanumeric(c: char) {
    'a' <= c <= 'z' || 'A' <= c <= 'Z' || '0' <= c <= '9'
  }

  predicate Permitted(c: char) {
    IsAsciiAlphanumeric(c) || c == '-' || c == '_' || c == '.'
  }

  /** What follows the last "::", or the whole name when there is none. */
  function LastPathPart(raw: string): (part: string)
  {
    var k := FindLast(raw, "::");
    if k.None? then raw else raw[k.value + 2..]
  }

  function Filtered(s: string): (r: string)
    ensures forall i :: 0 <= i < |r| ==> Permitted(r[i])
  {
    if s == [] then []
    else (if Permitted(s[0]) then [s[0]] else []) + Filtered(s[1..])
  }

  function Take(s: string, n: nat): (r: string)
    ensures r <= s && |r| <= n
  {
    if |s| <= n then s else s[..n]
  }

  function Stem(raw: string): string {
    Take(Filtered(LastPathPart(raw)), MAX_STEM)
  }

  function Decimal(n: nat): (s: string)
    ensures s != [] && forall i :: 0 <= i < |s| ==> '0' <= s[i] <= '9'
  {
    if n < 10 then [DigitChar(n)] else Decimal(n / 10) + [DigitChar(n % 10)]
  }

  function DigitChar(d: nat): (c: char)
    requires d < 10
    ensures '0' <= c <= '9'
  {
    (d + '0' as int) as char
  }

  function ChildNameOf(raw: string, index: nat): string {
    var stem := Stem(raw);
    if stem == [] then "extension-" + Decimal(index) else stem + "-" + Decimal(index)
  }

  // What a name is made of.

  /** `tail` is what follows the last "::" of `raw`, or all of it. */
  ghost predicate AfterLastPath(raw: string, tail: string) {
    || (tail == raw && forall i: nat :: !OccursAt(raw, "::", i))
    || exists k: nat :: OccursAt(raw, "::", k) && tail == raw[k + 2..] && forall i: nat :: i > k ==> !OccursAt(raw, "::", i)
  }

  /** `at` lists, in order, exactly the positions of `s` that hold a letter, a digit, '-', '_' or '.'. */
  ghost predicate PermittedPositions(s: string, at: seq<nat>) {
    && (forall k :: 0 <= k < |at| ==> at[k] < |s|)
    && (forall k, l :: 0 <= k < l < |at| ==> at[k] < at[l])
    && (forall i: nat :: i < |s| ==>
          (i in at <==> 'a' <= s[i] <= 'z' || 'A' <= s[i] <= 'Z' || '0' <= s[i] <= '9' || s[i] in "-_."))
  }

  lemma {:induction false} FilteredSnoc(s: string, c: char)
    ensures Filtered(s + [c]) == Filtered(s) + if Permitted(c) then [c] else []
  {
    hide Permitted;
    if s == [] {
      assert s + [c] == [c] && [c][1..] == [];
    } else {
      assert (s + [c])[0] == s[0] && (s + [c])[1..] == s[1..] + [c];
      FilteredSnoc(s[1..], c);
    }
  }

  lemma PositionsSnoc(s: string, at: seq<nat>, c: char)
    requires PermittedPositions(s, at)
    ensures PermittedPositions(s + [c], at + if Permitted(c) then [|s|] else [])
  {
    var more := at + if Permitted(c) then [|s|] else [];
    assert |s| in more <==> Permitted(c);
    assert forall i: nat :: i < |s| ==> (i in more <==> i in at) && (s + [c])[i] == s[i];
  }

  lemma {:induction false} FilteredExactly(s: string) returns (at: seq<nat>)
    ensures PermittedPositions(s, at)
    ensures |Filtered(s)| == |at| && forall k :: 0 <= k < |at| ==> at[k] < |s| && Filtered(s)[k] == s[at[k]]
  {
    if s == [] {
      at := [];
    } else {
      hide PermittedPositions, Filtered, Permitted;
      var front, c := s[..|s| - 1], s[|s| - 1];
      assert s == front + [c];
      at := FilteredExactly(front);
      FilteredSnoc(front, c);
      PositionsSnoc(front, at, c);
      at := at + if Permitted(c) then [|front|] else [];
    }
  }

  /**
    A name is a stem, a hyphen and the index. The stem is the first 48 permitted characters after the type name's
    last "::", or "extension" if there are none.
   */
  lemma NameExactly(raw: string, index: nat) returns (tail: string, at: seq<nat>, stem: string)
    ensures AfterLastPath(raw, tail) && PermittedPositions(tail, at)
    ensures |stem| == (if |at| <= 48 then |at| else 48) && forall k :: 0 <= k < |stem| ==> stem[k] == tail[at[k]]
    ensures ChildNameOf(raw, index) == (if stem == [] then "extension" else stem) + "-" + Decimal(index)
  {
    hide PermittedPositions, Filtered;
    tail := LastPathPart(raw);
    at := FilteredExactly(tail);
    stem := Stem(raw);
    assert "extension-" == "extension" + "-";
  }

  /** The number that a decimal numeral stands for. */
  function Value(s: string): int {
    if s == [] then 0 else 10 * Value(s[..|s| - 1]) + (s[|s| - 1] as int - '0' as int)
  }

  /** The index is printed as its decimal numeral, without leading zeros. */
  lemma {:induction false} DecimalReadsBack(n: nat)
    ensures Value(Decimal(n)) == n
    ensures Decimal(n)[0] == '0' ==> n == 0
  {
    var s := Decimal(n);
    if n < 10 {
      assert s[..0] == [];
    } else {
      DecimalReadsBack(n / 10);
      assert s[..|s| - 1] == Decimal(n / 10);
      assert s[0] == Decimal(n / 10)[0];
    }
  }

  // Uniqueness.

  lemma {:induction false} DecimalInjective(m: nat, n: nat)
    requires Decimal(m) == Decimal(n)
    ensures m == n
  {
    var a, b := Decimal(m), Decimal(n);
    assert a[|a| - 1] == DigitChar(m % 10);
    assert b[|b| - 1] == DigitChar(n % 10);
    assert m % 10 == n % 10;
    assert (|a| == 1 <==> m < 10) && (|b| == 1 <==> n < 10);
    if m >= 10 && n >= 10 {
      assert a[..|a| - 1] == Decimal(m / 10) && b[..|b| - 1] == Decimal(n / 10);
      DecimalInjective(m / 10, n / 10);
    }
  }

  /** Two strings that end in a hyphen and digits agree on the digits. */
  lemma DigitsAfterHyphen(a: string, x: string, b: string, y: string)
    requires a + "-" + x == b + "-" + y
    requires (forall i :: 0 <= i < |x| ==> x[i] != '-') && (forall i :: 0 <= i < |y| ==> y[i] != '-')
    ensures x == y
  {
    var s, t := a + "-" + x, b + "-" + y;
    assert s[|a|] == '-' && t[|b|] == '-';
    assert forall i :: |a| < i < |s| ==> s[i] == x[i - |a| - 1];
    assert forall i :: |b| < i < |t| ==> t[i] == y[i - |b| - 1];
    assert x == s[|a| + 1..] && y == t[|b| + 1..];
  }

  /** Distinct indices give distinct names, whatever the two type names are. */
  lemma NamesAreUnique(raw: string, i: nat, other: string, j: nat)
    requires i != j
    ensures ChildNameOf(raw, i) != ChildNameOf(other, j)
  {
    if ChildNameOf(raw, i) == ChildNameOf(other, j) {
      var a := if Stem(raw) == [] then "extension" else Stem(raw);
      var b := if Stem(other) == [] then "extension" else Stem(other);
      assert "extension-" == "extension" + "-";
      assert ChildNameOf(raw, i) == a + "-" + Decimal(i);
      assert ChildNameOf(other, j) == b + "-" + Decimal(j);
      DigitsAfterHyphen(a, Decimal(i), b, Decimal(j));
      DecimalInjective(i, j);
    }
  }

  /** Every character is an ASCII letter or digit, a hyphen, an underscore or a dot. */
  lemma NamesUsePermittedCharacters(raw: string, index: nat)
    ensures forall k :: 0 <= k < |ChildNameOf(raw, index)| ==>
              var c := ChildNameOf(raw, index)[k];
              'a' <= c <= 'z' || 'A' <= c <= 'Z' || '0' <= c <= '9' || c in "-_."
  {
    assert forall k :: 0 <= k < |"extension-"| ==> Permitted("extension-"[k]);
  }

  // Length.

  function Pow10(n: nat): (p: nat)
    ensures p > 0
  {
    if n == 0 then 1 else 10 * Pow10(n - 1)
  }

  lemma {:induction false} DecimalLength(n: nat, digits: nat)
    requires digits > 0
    ensures |Decimal(n)| <= digits <==> n < Pow10(digits)
  {
    if n < 10 {
      assert Pow10(digits) == 10 * Pow10(digits - 1);
    } else if digits == 1 {
      assert Pow10(1) == 10 * Pow10(0) == 10;
      assert |Decimal(n / 10)| >= 1;
    } else {
      DecimalLength(n / 10, digits - 1);
    }
  }

  lemma FourteenDigits()
    ensures Pow10(14) == LARGEST_SAFE_INDEX + 1
  {
    assert Pow10(4) == 10_000;
    assert Pow10(8) == 100_000_000;
    assert Pow10(12) == 1_000_000_000_000;
  }

  /** Any type name keeps within the limit of 63 exactly when the index has at most 14 digits. */
  lemma NamesFitExactly(index: nat)
    ensures (forall raw :: |ChildNameOf(raw, index)| <= 63) <==> index < 100_000_000_000_000
  {
    DecimalLength(index, 14);
    FourteenDigits();
    if index > LARGEST_SAFE_INDEX {
      var long := seq(MAX_STEM, _ => 'a');
      LongStem(long);
      assert |ChildNameOf(long, index)| > MAX_PART;
    }
  }

  lemma {:induction false} FilteredFixed(s: string)
    requires forall i :: 0 <= i < |s| ==> Permitted(s[i])
    ensures Filtered(s) == s
  {
    if s != [] {
      FilteredFixed(s[1..]);
      assert s == [s[0]] + s[1..];
    }
  }

  lemma LongStem(s: string)
    requires |s| == MAX_STEM && forall i :: 0 <= i < |s| ==> s[i] == 'a'
    ensures Stem(s) == s
  {
    if FindLast(s, "::").Some? {
      OccursFirst(s, "::", FindLast(s, "::").value);
    }
    FilteredFixed(s);
  }
}
