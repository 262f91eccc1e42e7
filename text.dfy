/** The string operations the converter relies on: ordinal substring search,
    character search, decimal digits, white-space trimming and concatenation. */
module Text {

  /** `key` occurs in `s` starting at position `i`. */
  ghost predicate OccursAt(s: string, key: string, i: int) {
    0 <= i && i + |key| <= |s| && s[i..i + |key|] == key
  }

  /** Ordinal substring test, as `String.Contains(string)`. */
  function Contains(s: string, key: string): bool
    decreases |s|
  {
    if |key| <= |s| && s[..|key|] == key then true
    else if s == [] then false
    else Contains(s[1..], key)
  }

  /** `Contains` holds exactly when `key` occurs somewhere in `s`. */
  lemma {:induction false} ContainsOccurs(s: string, key: string)
    ensures Contains(s, key) <==> exists i :: OccursAt(s, key, i)
    decreases |s|
  {
    if |key| <= |s| && s[..|key|] == key {
      assert OccursAt(s, key, 0);
    } else if s != [] {
      ContainsOccurs(s[1..], key);
      ShiftOccurrence(s, key);
    }
  }

  lemma ShiftOccurrence(s: string, key: string)
    requires s != [] && !(|key| <= |s| && s[..|key|] == key)
    ensures (exists i :: OccursAt(s, key, i)) <==> (exists i :: OccursAt(s[1..], key, i))
  {
    forall i | OccursAt(s, key, i)
      ensures OccursAt(s[1..], key, i - 1)
    {
      assert i != 0;
      assert s[1..][i - 1..i - 1 + |key|] == s[i..i + |key|];
    }
    forall i | OccursAt(s[1..], key, i)
      ensures OccursAt(s, key, i + 1)
    {
      assert s[1..][i..i + |key|] == s[i + 1..i + 1 + |key|];
    }
  }

  /** Position of the first `c` in `s`, or -1, as `String.IndexOf`. */
  function IndexOf(s: string, c: char): (r: int)
    ensures -1 <= r < |s|
    ensures r == -1 <==> c !in s
    ensures r >= 0 ==> s[r] == c && c !in s[..r]
  {
    if s == [] then -1
    else if s[0] == c then 0
    else
      var k := IndexOf(s[1..], c);
      if k < 0 then -1
      else
        assert s[..k + 1] == [s[0]] + s[1..][..k];
        k + 1
  }

  /** `IndexOf` finds the first occurrence. */
  lemma {:induction false} IndexOfAt(s: string, c: char, k: nat)
    requires k < |s| && s[k] == c
    requires forall i :: 0 <= i < k ==> s[i] != c
    ensures IndexOf(s, c) == k
  {
    if k > 0 {
      assert s[0] != c;
      IndexOfAt(s[1..], c, k - 1);
    }
  }

  /** The strings joined in order, as successive `StringBuilder.Append` calls produce them. */
  function Concat(parts: seq<string>): string {
    if parts == [] then "" else Concat(parts[..|parts| - 1]) + parts[|parts| - 1]
  }

  /** The texts `part(0)`, ..., `part(count - 1)`, one after another. */
  function Joined(part: nat -> string, count: nat): string {
    if count == 0 then "" else Joined(part, count - 1) + part(count - 1)
  }

  /** The list `[part(0), ..., part(count - 1)]`. */
  function Parts(part: nat -> string, count: nat): (r: seq<string>)
    ensures |r| == count && forall i :: 0 <= i < count ==> r[i] == part(i)
  {
    if count == 0 then [] else Parts(part, count - 1) + [part(count - 1)]
  }

  /** Joining the parts one at a time is concatenating their list. */
  lemma {:induction false} JoinedParts(part: nat -> string, count: nat)
    ensures Joined(part, count) == Concat(Parts(part, count))
  {
    if count > 0 {
      JoinedParts(part, count - 1);
      assert Parts(part, count)[..count - 1] == Parts(part, count - 1);
    }
  }

  lemma AppendAssoc(a: string, b: string, c: string)
    ensures (a + b) + c == a + (b + c)
  {
  }

  lemma {:induction false} ConcatAppend(a: seq<string>, b: seq<string>)
    ensures Concat(a + b) == Concat(a) + Concat(b)
    decreases |b|
  {
    if b == [] {
      assert a + b == a;
    } else {
      var last := |b| - 1;
      assert (a + b)[..|a + b| - 1] == a + b[..last];
      ConcatAppend(a, b[..last]);
    }
  }

  // ---------------------------------------------------------------------------
  // Decimal digits

  predicate IsDigit(c: char) {
    '0' <= c <= '9'
  }

  predicate AllDigits(s: string) {
    forall i :: 0 <= i < |s| ==> IsDigit(s[i])
  }

  function DigitValue(c: char): nat
    requires IsDigit(c)
  {
    c as int - '0' as int
  }

  function DigitChar(d: nat): (c: char)
    requires d < 10
    ensures IsDigit(c) && DigitValue(c) == d
  {
    ('0' as int + d) as char
  }

  function Pow10(k: nat): (p: nat)
    ensures p >= 1
  {
    if k == 0 then 1 else 10 * Pow10(k - 1)
  }

  lemma {:induction false} Pow10Add(a: nat, b: nat)
    ensures Pow10(a + b) == Pow10(a) * Pow10(b)
    decreases b
  {
    if b > 0 {
      Pow10Add(a, b - 1);
      assert Pow10(a + b) == 10 * Pow10(a + b - 1);
      assert Pow10(a) * Pow10(b) == Pow10(a) * (10 * Pow10(b - 1));
    }
  }

  /** The number a string of decimal digits denotes, most significant digit first. */
  function DigitsValue(s: string): nat
    requires AllDigits(s)
  {
    if s == [] then 0 else 10 * DigitsValue(s[..|s| - 1]) + DigitValue(s[|s| - 1])
  }

  lemma {:induction false} DigitsValueAppend(a: string, b: string)
    requires AllDigits(a) && AllDigits(b)
    ensures AllDigits(a + b)
    ensures DigitsValue(a + b) == DigitsValue(a) * Pow10(|b|) + DigitsValue(b)
    decreases |b|
  {
    assert AllDigits(a + b) by {
      forall i | 0 <= i < |a + b| ensures IsDigit((a + b)[i]) {
        if i >= |a| { assert (a + b)[i] == b[i - |a|]; }
      }
    }
    if b == [] {
      assert a + b == a;
    } else {
      var b' := b[..|b| - 1];
      assert (a + b)[..|a + b| - 1] == a + b';
      DigitsValueAppend(a, b');
      assert DigitsValue(a + b) == 10 * DigitsValue(a + b') + DigitValue(b[|b| - 1]);
      ShiftDigit(DigitsValue(a), Pow10(|b'|), DigitsValue(b'), DigitValue(b[|b| - 1]));
    }
  }

  lemma ShiftDigit(x: nat, p: nat, y: nat, d: nat)
    ensures 10 * (x * p + y) + d == x * (10 * p) + (10 * y + d)
  {
    assert 10 * (x * p) == x * (10 * p);
  }

  /** How many decimal digits `n` has, without leading zeros. */
  function DigitCount(n: nat): nat {
    if n < 10 then 1 else DigitCount(n / 10) + 1
  }

  /** Decimal text of a natural number, as `Int32.ToString()` writes it. */
  function NatToString(n: nat): (s: string)
    ensures |s| >= 1 && AllDigits(s)
    ensures DigitsValue(s) == n
    ensures |s| == DigitCount(n)
    ensures n >= 10 ==> s[0] != '0'
  {
    if n < 10 then [DigitChar(n)]
    else
      var prefix := NatToString(n / 10);
      var s := prefix + [DigitChar(n % 10)];
      assert s[..|s| - 1] == prefix;
      s
  }

  lemma {:induction false} NatToStringLength(n: nat, k: nat)
    requires k >= 1 && n < Pow10(k)
    ensures |NatToString(n)| <= k
    decreases k
  {
    if n >= 10 {
      assert Pow10(1) == 10;
      assert k != 1;
      assert n / 10 < Pow10(k - 1);
      NatToStringLength(n / 10, k - 1);
    }
  }

  /** Decimal text of an integer: a minus sign before the digits of a negative number. */
  function IntToString(n: int): string {
    if n < 0 then "-" + NatToString(-n) else NatToString(n)
  }

  function Zeros(k: nat): (z: string)
    ensures |z| == k && AllDigits(z) && DigitsValue(z) == 0
  {
    if k == 0 then ""
    else
      var z := Zeros(k - 1) + "0";
      assert z[..k - 1] == Zeros(k - 1);
      z
  }

  /** `n.ToString("0000")`-style formatting with `width` digit places: the digits of
      `n` with leading zeros up to `width`, never truncated. */
  function ZeroPadded(n: nat, width: nat): (s: string)
    ensures AllDigits(s) && DigitsValue(s) == n
    ensures |s| >= width && |s| >= |NatToString(n)|
    ensures |NatToString(n)| < width ==> |s| == width
    ensures |NatToString(n)| >= width ==> |s| == |NatToString(n)|
    ensures width >= 1 && n < Pow10(width) ==> |s| == width
  {
    var digits := NatToString(n);
    var s := if |digits| < width then Zeros(width - |digits|) + digits else digits;
    DigitsValueAppend(Zeros(if |digits| < width then width - |digits| else 0), digits);
    DigitsFitWidth(n, width);
    s
  }

  lemma DigitsFitWidth(n: nat, width: nat)
    ensures width >= 1 && n < Pow10(width) ==> |NatToString(n)| <= width
  {
    if width >= 1 && n < Pow10(width) {
      NatToStringLength(n, width);
    }
  }

  // ---------------------------------------------------------------------------
  // White space

  /** The characters .NET number parsing skips around a number: U+0009..U+000D and space. */
  predicate IsWhite(c: char) {
    c == ' ' || '\t' <= c <= '\r'
  }

  function TrimStart(s: string): (r: string)
    ensures |r| <= |s| && r == s[|s| - |r|..]
    ensures r == [] || !IsWhite(r[0])
  {
    if s != [] && IsWhite(s[0]) then TrimStart(s[1..]) else s
  }

  function TrimEnd(s: string): (r: string)
    ensures |r| <= |s| && r == s[..|r|]
    ensures r == [] || !IsWhite(r[|r| - 1])
  {
    if s != [] && IsWhite(s[|s| - 1]) then TrimEnd(s[..|s| - 1]) else s
  }

  function Trim(s: string): string {
    TrimEnd(TrimStart(s))
  }
}
