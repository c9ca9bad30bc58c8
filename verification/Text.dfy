/** Go strings as the store uses them: byte-wise order, prefixes, and decimal integers.

    A string is a sequence of code points. UTF-8 keeps both the order and the
    prefix relation, so comparing code points is comparing bytes. */
module Text {

  datatype Option<+T> = None | Some(value: T)

  /** Go's `a <= b` on strings. */
  predicate LexLe(a: string, b: string) {
    if a == "" then true
    else if b == "" then false
    else if a[0] == b[0] then LexLe(a[1..], b[1..])
    else a[0] < b[0]
  }

  lemma {:induction false} LexReflexive(a: string)
    ensures LexLe(a, a)
  {
    if a != "" {
      LexReflexive(a[1..]);
    }
  }

  lemma {:induction false} LexAntisymmetric(a: string, b: string)
    requires LexLe(a, b) && LexLe(b, a)
    ensures a == b
  {
    if a != "" && b != "" {
      LexAntisymmetric(a[1..], b[1..]);
      assert a == [a[0]] + a[1..] && b == [b[0]] + b[1..];
    }
  }

  lemma {:induction false} LexTransitive(a: string, b: string, c: string)
    requires LexLe(a, b) && LexLe(b, c)
    ensures LexLe(a, c)
  {
    if a != "" && b != "" && c != "" && a[0] == b[0] == c[0] {
      LexTransitive(a[1..], b[1..], c[1..]);
    }
  }

  lemma {:induction false} LexTotal(a: string, b: string)
    ensures LexLe(a, b) || LexLe(b, a)
  {
    if a != "" && b != "" && a[0] == b[0] {
      LexTotal(a[1..], b[1..]);
    }
  }

  /** The two strings are the same up to some position, where `a` has the lower character. */
  ghost predicate FirstDifferenceLower(a: string, b: string) {
    exists i :: 0 <= i < |a| && i < |b| && a[..i] == b[..i] && a[i] < b[i]
  }

  /** The order is that of the first difference, and a string comes before its extensions. */
  lemma {:induction false} LexIff(a: string, b: string)
    ensures LexLe(a, b) <==> a <= b || FirstDifferenceLower(a, b)
  {
    if a != "" && b != "" {
      if a[0] == b[0] {
        LexIff(a[1..], b[1..]);
        LexTail(a, b);
      } else if a[0] < b[0] {
        assert a[..0] == b[..0];
      } else {
        forall i | 0 < i < |a| && i < |b| ensures a[..i] != b[..i] {
          assert a[..i][0] == a[0] && b[..i][0] == b[0];
        }
      }
    }
  }

  lemma LexTail(a: string, b: string)
    requires a != "" && b != "" && a[0] == b[0]
    ensures a <= b <==> a[1..] <= b[1..]
    ensures FirstDifferenceLower(a, b) <==> FirstDifferenceLower(a[1..], b[1..])
  {
    assert a == [a[0]] + a[1..] && b == [b[0]] + b[1..];
    if FirstDifferenceLower(a, b) {
      var i :| 0 <= i < |a| && i < |b| && a[..i] == b[..i] && a[i] < b[i];
      assert a[1..][..i - 1] == a[..i][1..] && b[1..][..i - 1] == b[..i][1..];
    }
    if FirstDifferenceLower(a[1..], b[1..]) {
      var i :| 0 <= i < |a[1..]| && i < |b[1..]| && a[1..][..i] == b[1..][..i] && a[1..][i] < b[1..][i];
      assert a[..i + 1] == [a[0]] + a[1..][..i] && b[..i + 1] == [b[0]] + b[1..][..i];
      assert a[i + 1] < b[i + 1];
    }
  }

  /** `strings.HasPrefix`. */
  predicate HasPrefix(s: string, prefix: string) {
    prefix <= s
  }

  // ----- strconv.FormatInt and strconv.ParseInt in base 10 -----

  const TWO_63 := 0x8000_0000_0000_0000

  /** The value range of int64. */
  predicate IsInt64(n: int) {
    -TWO_63 <= n < TWO_63
  }

  predicate IsDigit(c: char) {
    '0' <= c <= '9'
  }

  predicate AllDigits(s: string) {
    forall i :: 0 <= i < |s| ==> IsDigit(s[i])
  }

  function DigitChar(d: nat): (c: char)
    requires d < 10
    ensures IsDigit(c) && DigitValue(c) == d
  {
    ['0', '1', '2', '3', '4', '5', '6', '7', '8', '9'][d]
  }

  function DigitValue(c: char): nat
    requires IsDigit(c)
  {
    c as int - '0' as int
  }

  function FormatNat(n: nat): string {
    (if n < 10 then "" else FormatNat(n / 10)) + [DigitChar(n % 10)]
  }

  function FormatInt(n: int): string {
    if n < 0 then "-" + FormatNat(-n) else FormatNat(n)
  }

  function DigitsValue(s: string): nat
    requires AllDigits(s)
  {
    if s == "" then 0
    else DigitsValue(s[..|s| - 1]) * 10 + DigitValue(s[|s| - 1])
  }

  function ParseDigits(s: string): Option<nat> {
    if s == "" || !AllDigits(s) then None else Some(DigitsValue(s))
  }

  /** `strconv.ParseInt(s, 10, 64)`: an optional sign, digits, and an int64 range check. */
  function ParseInt(s: string): Option<int> {
    var negative := s != "" && s[0] == '-';
    var digits := if s != "" && (s[0] == '-' || s[0] == '+') then s[1..] else s;
    match ParseDigits(digits)
    case None => None
    case Some(m) =>
      var magnitude: int := m;
      var n := if negative then -magnitude else magnitude;
      if IsInt64(n) then Some(n) else None
  }

  lemma DigitsValueSnoc(front: string, d: nat)
    requires AllDigits(front) && d < 10
    ensures AllDigits(front + [DigitChar(d)])
    ensures DigitsValue(front + [DigitChar(d)]) == DigitsValue(front) * 10 + d
  {
    var s := front + [DigitChar(d)];
    assert s[..|s| - 1] == front;
  }

  lemma {:induction false} FormatNatParses(n: nat)
    ensures FormatNat(n) != "" && AllDigits(FormatNat(n)) && DigitsValue(FormatNat(n)) == n
  {
    if n >= 10 {
      FormatNatParses(n / 10);
      DigitsValueSnoc(FormatNat(n / 10), n % 10);
    } else {
      DigitsValueSnoc("", n % 10);
    }
  }

  /** Reading back what `%d` printed gives the same int64. */
  lemma ParseFormat(n: int)
    requires IsInt64(n)
    ensures ParseInt(FormatInt(n)) == Some(n)
  {
    FormatIsNumeral(n);
    ParseIff(FormatInt(n), n);
  }

  // ----- What numerals are -----

  /** The number without its last `i` digits. */
  function Shift(n: nat, i: nat): nat
    decreases i
  {
    if i == 0 then n else Shift(n / 10, i - 1)
  }

  /** Position `i` from the right holds the digit of 10 to the `i`, and there is no leading zero. */
  lemma {:induction false} FormatDigit(n: nat, i: nat)
    requires i < |FormatNat(n)|
    ensures FormatNat(n)[|FormatNat(n)| - 1 - i] as int == '0' as int + Shift(n, i) % 10
    ensures i == |FormatNat(n)| - 1 ==> Shift(n, i) < 10 && (Shift(n, i) > 0 || n == 0)
  {
    if i > 0 {
      FormatDigit(n / 10, i - 1);
    }
  }

  function Zeros(z: nat): string {
    seq(z, _ => '0')
  }

  function Magnitude(n: int): nat {
    if n < 0 then -n else n
  }

  /** A way to write a number: a sign that fits, any zeros in front, and its digits. */
  ghost predicate Numeral(s: string, n: int) {
    exists sign: string, z: nat :: Spells(s, n, sign, z)
  }

  ghost predicate Spells(s: string, n: int, sign: string, z: nat) {
    && s == sign + (Zeros(z) + FormatNat(Magnitude(n)))
    && ((sign == "-" && n <= 0) || ((sign == "" || sign == "+") && n >= 0))
  }

  lemma {:induction false} LeadingZeros(z: nat, t: string)
    requires AllDigits(t)
    ensures AllDigits(Zeros(z) + t) && DigitsValue(Zeros(z) + t) == DigitsValue(t)
    decreases z + |t|
  {
    var s := Zeros(z) + t;
    if t != "" {
      LeadingZeros(z, t[..|t| - 1]);
      assert s[..|s| - 1] == Zeros(z) + t[..|t| - 1];
    } else if z > 0 {
      LeadingZeros(z - 1, "");
      assert s[..|s| - 1] == Zeros(z - 1) + "";
    }
  }

  lemma FormatSnoc(v: nat, d: nat)
    requires d < 10
    ensures FormatNat(v * 10 + d) == (if v == 0 then "" else FormatNat(v)) + [DigitChar(d)]
  {
    assert (v * 10 + d) / 10 == v && (v * 10 + d) % 10 == d;
  }

  lemma ZerosSnoc(z: nat)
    ensures Zeros(z) + FormatNat(0) == Zeros(z + 1)
  {
    assert FormatNat(0) == ['0'];
  }

  lemma DigitBack(c: char)
    requires IsDigit(c)
    ensures DigitChar(DigitValue(c)) == c
  {
  }

  lemma SpellSnoc(front: string, z: nat, v: nat, d: nat, total: nat)
    requires d < 10 && front == Zeros(z) + FormatNat(v) && total == v * 10 + d
    ensures front + [DigitChar(d)] == Zeros(if v == 0 then z + 1 else z) + FormatNat(total)
  {
    FormatSnoc(v, d);
    ZerosSnoc(z);
  }

  lemma ValueSnoc(d: string)
    requires d != "" && AllDigits(d)
    ensures DigitsValue(d) == DigitsValue(d[..|d| - 1]) * 10 + DigitValue(d[|d| - 1])
  {
  }

  lemma FrontAndLast(d: string)
    requires d != ""
    ensures d == d[..|d| - 1] + [d[|d| - 1]]
  {
  }

  lemma SpellStep(d: string, front: string, z: nat, v: nat, total: nat)
    requires d != "" && front == d[..|d| - 1] && IsDigit(d[|d| - 1])
    requires front == Zeros(z) + FormatNat(v) && total == v * 10 + DigitValue(d[|d| - 1])
    ensures d == Zeros(if v == 0 then z + 1 else z) + FormatNat(total)
  {
    SpellSnoc(front, z, v, DigitValue(d[|d| - 1]), total);
    DigitBack(d[|d| - 1]);
    FrontAndLast(d);
  }

  lemma {:induction false} DigitsSpell(d: string) returns (z: nat)
    requires d != "" && AllDigits(d)
    ensures d == Zeros(z) + FormatNat(DigitsValue(d))
  {
    if |d| == 1 {
      z := 0;
      ValueSnoc(d);
      OneDigit(d, DigitsValue(d));
    } else {
      var front := d[..|d| - 1];
      var y := DigitsSpell(front);
      ValueSnoc(d);
      SpellStep(d, front, y, DigitsValue(front), DigitsValue(d));
      z := if DigitsValue(front) == 0 then y + 1 else y;
    }
  }

  lemma FormatOne(v: nat)
    requires v < 10
    ensures Zeros(0) + FormatNat(v) == [DigitChar(v)]
  {
  }

  lemma OneDigit(d: string, v: nat)
    requires |d| == 1 && IsDigit(d[0]) && v == DigitValue(d[0])
    ensures d == Zeros(0) + FormatNat(v)
  {
    FormatOne(v);
    DigitBack(d[0]);
  }

  /** Where the sign of a text ends. */
  function SignLength(s: string): (n: nat)
    ensures n <= |s|
  {
    if s != "" && (s[0] == '-' || s[0] == '+') then 1 else 0
  }

  lemma ParsedIsNumeral(s: string, n: int)
    requires ParseInt(s) == Some(n)
    ensures IsInt64(n) && Numeral(s, n)
  {
    var sign, digits := s[..SignLength(s)], s[SignLength(s)..];
    assert ParseDigits(digits).Some? && ParseDigits(digits).value == Magnitude(n) by {
      assert SignLength(s) == 0 ==> digits == s;
    }
    var z := DigitsSpell(digits);
    assert s == sign + digits;
    assert Spells(s, n, sign, z);
  }

  lemma NumeralParses(s: string, n: int, sign: string, z: nat)
    requires IsInt64(n) && Spells(s, n, sign, z)
    ensures ParseInt(s) == Some(n)
  {
    var digits := Zeros(z) + FormatNat(Magnitude(n));
    assert digits != "" && AllDigits(digits) && DigitsValue(digits) == Magnitude(n) by {
      FormatNatParses(Magnitude(n));
      LeadingZeros(z, FormatNat(Magnitude(n)));
    }
    assert IsDigit(digits[0]);
    if sign == "" {
      assert s == digits;
    } else {
      assert s[0] == sign[0] && s[1..] == digits;
    }
  }

  /** Exactly the numerals of int64 numbers parse, each to its number. */
  lemma ParseIff(s: string, n: int)
    ensures ParseInt(s) == Some(n) <==> IsInt64(n) && Numeral(s, n)
  {
    if ParseInt(s) == Some(n) {
      ParsedIsNumeral(s, n);
    }
    if IsInt64(n) && Numeral(s, n) {
      var sign, z :| Spells(s, n, sign, z);
      NumeralParses(s, n, sign, z);
    }
  }

  lemma FormatIsNumeral(n: int)
    ensures Numeral(FormatInt(n), n)
  {
    assert Spells(FormatInt(n), n, if n < 0 then "-" else "", 0);
  }
}
