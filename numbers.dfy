/** Numbers as the content scripts see them: `parseInt` on placement text and the
    decimal text `String(n)` that the application writes into `grid-area`. */
module Numbers {
  import opened Text

  /** A JavaScript value read as a number, as far as the model needs one: an integer;
      `NaN`, which also stands for the `null` that a `NaN` becomes in JSON (no cell
      placement ever reads back as `null`); or `undefined`, the missing second value of
      a placement without a `/`. */
  datatype Num = Int(value: int) | NaN | Undefined

  /** `a === b`: equal integers, or `undefined` on both sides; `NaN` equals nothing,
      itself included. */
  predicate StrictEq(a: Num, b: Num) {
    (a.Int? && b.Int? && a.value == b.value) || (a.Undefined? && b.Undefined?)
  }

  predicate IsDigit(c: char) { '0' <= c <= '9' }

  predicate IsHexLetter(c: char) { 'a' <= c <= 'f' || 'A' <= c <= 'F' }

  function DigitValue(c: char): nat
    requires IsDigit(c) || IsHexLetter(c)
  {
    if IsDigit(c) then c as int - '0' as int
    else if 'a' <= c <= 'f' then c as int - 'a' as int + 10
    else c as int - 'A' as int + 10
  }

  /** A digit of the given radix (10 or 16). */
  predicate IsRadixDigit(c: char, radix: nat) {
    (IsDigit(c) || IsHexLetter(c)) && DigitValue(c) < radix
  }

  /** The longest prefix of `s` made of digits of `radix`. */
  function DigitPrefix(s: string, radix: nat): (r: string)
    ensures |r| <= |s| && r == s[..|r|]
    ensures forall i :: 0 <= i < |r| ==> IsRadixDigit(r[i], radix)
    ensures |r| < |s| ==> !IsRadixDigit(s[|r|], radix)
    decreases |s|
  {
    if s != [] && IsRadixDigit(s[0], radix) then [s[0]] + DigitPrefix(s[1..], radix) else []
  }

  /** The value of a digit string, most significant digit first. */
  function ValueOf(ds: string, radix: nat): nat
    requires forall i :: 0 <= i < |ds| ==> IsRadixDigit(ds[i], radix)
    decreases |ds|
  {
    if ds == [] then 0
    else
      var init := ds[..|ds| - 1];
      var last := ds[|ds| - 1];
      assert IsRadixDigit(last, radix);
      assert forall i :: 0 <= i < |init| ==> init[i] == ds[i];
      Shift(ValueOf(init, radix), radix) + DigitValue(last)
  }

  /** A value moved up one place in the given radix. */
  function Shift(v: nat, radix: nat): nat {
    v * radix
  }

  /** The digits after the sign: `0x`/`0X` selects radix 16, then the longest digit
      prefix is read; without one the result is `NaN`. */
  function ParseUnsigned(u: string): (r: Num)
    ensures r.Int? ==> r.value >= 0
  {
    var hex := |u| >= 2 && u[0] == '0' && (u[1] == 'x' || u[1] == 'X');
    var radix := if hex then 16 else 10;
    var ds := DigitPrefix(if hex then u[2..] else u, radix);
    if ds == [] then NaN else Int(ValueOf(ds, radix))
  }

  function Negate(x: Num): Num {
    if x.Int? then Int(-x.value) else NaN
  }

  /** `parseInt(s)` without a radix: leading white space is skipped, then an optional
      sign is read before the digits. */
  function ParseInt(s: string): (r: Num)
    ensures !r.Undefined?
    ensures TrimStart(s) == [] ==> r.NaN?
  {
    var t := TrimStart(s);
    if t != [] && t[0] == '-' then Negate(ParseUnsigned(t[1..]))
    else if t != [] && t[0] == '+' then ParseUnsigned(t[1..])
    else ParseUnsigned(t)
  }

  function DigitChar(d: nat): (c: char)
    requires d < 10
    ensures IsDigit(c) && DigitValue(c) == d
  {
    ('0' as int + d) as char
  }

  /** The decimal digits of `n`, as `String(n)` writes a non-negative integer. */
  function ShowNat(n: nat): (r: string)
    ensures r != []
    ensures forall i :: 0 <= i < |r| ==> IsDigit(r[i])
    decreases n
  {
    if n < 10 then [DigitChar(n)] else ShowNat(n / 10) + [DigitChar(n % 10)]
  }

  /** `String(n)` for an integer. */
  function Show(n: int): string {
    if n < 0 then "-" + ShowNat(-n) else ShowNat(n)
  }

  /** The decimal text of an integer has no white space at either end. */
  lemma ShowUnpadded(n: int)
    ensures Unpadded(Show(n))
  {
    var d := ShowNat(if n < 0 then -n else n);
    assert IsDigit(d[0]) && IsDigit(d[|d| - 1]);
  }

  lemma {:induction false} ValueOfShowNat(n: nat)
    ensures ValueOf(ShowNat(n), 10) == n
    decreases n
  {
    if n >= 10 {
      var s := ShowNat(n);
      assert s[..|s| - 1] == ShowNat(n / 10);
      ValueOfShowNat(n / 10);
    }
  }

  lemma {:induction false} DigitPrefixOfDigits(s: string)
    requires forall i :: 0 <= i < |s| ==> IsDigit(s[i])
    ensures DigitPrefix(s, 10) == s
    decreases |s|
  {
    if s != [] {
      DigitPrefixOfDigits(s[1..]);
      assert [s[0]] + s[1..] == s;
    }
  }

  lemma ParseUnsignedDigits(m: nat)
    ensures ParseUnsigned(ShowNat(m)) == Int(m)
  {
    var u := ShowNat(m);
    assert !(|u| >= 2 && u[0] == '0' && (u[1] == 'x' || u[1] == 'X'));
    DigitPrefixOfDigits(u);
    ValueOfShowNat(m);
  }

  /** Reading back the decimal text of an integer gives that integer. */
  lemma ParseShow(n: int)
    ensures ParseInt(Show(n)) == Int(n)
  {
    var s := Show(n);
    assert IsDigit(ShowNat(if n < 0 then -n else n)[0]);
    assert !IsSpace(s[0]);
    assert TrimStart(s) == s;
    if n < 0 {
      assert s[1..] == ShowNat(-n);
      ParseUnsignedDigits(-n);
    } else {
      ParseUnsignedDigits(n);
    }
  }

  /** Different integers have different decimal texts. */
  lemma ShowNatInjective(a: nat, b: nat)
    requires ShowNat(a) == ShowNat(b)
    ensures a == b
  {
    ValueOfShowNat(a);
    ValueOfShowNat(b);
  }
}
