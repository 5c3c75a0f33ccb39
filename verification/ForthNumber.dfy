/** Printing and parsing numbers: U., UWIDTH, SPACES and .R of jonesforth.f, /MOD and _NUMBER of
    myjf.S, on 64-bit words. */
module ForthNumber {
  import opened Bytes
  import opened Wrappers

  /** A 64-bit word as its unsigned value. */
  type Word = n: int | 0 <= n < 0x1_0000_0000_0000_0000

  const SPACE: Byte := 32
  const MINUS: Byte := 45

  function Wrap(n: int): Word {
    n % 0x1_0000_0000_0000_0000
  }

  function Signed(w: Word): int {
    if w < 0x8000_0000_0000_0000 then w else w - 0x1_0000_0000_0000_0000
  }

  function SignedByte(b: Byte): int {
    if b < 128 then b else b - 256
  }

  // ----- printing ---------------------------------------------------------------------------------

  /** /MOD: %rdx is cleared, so the dividend is taken unsigned and the divisor signed; idivq rounds
      toward zero, and faults on a zero divisor and when the quotient is not a signed 64-bit number. */
  function DivMod(u: Word, d: Word): Option<(Word, Word)> {
    var s := Signed(d);
    if s == 0 then None
    else
      var m := if s > 0 then s else -s;
      var q := if s > 0 then u / m else -(u / m);
      if -0x8000_0000_0000_0000 <= q < 0x8000_0000_0000_0000 then Some((Wrap(u % m), Wrap(q))) else None
  }

  /** For every divisor, negative ones included: quotient and remainder satisfy the law of division with a
      remainder from 0 to below the divisor's magnitude, and the instruction faults exactly when the divisor
      is 0 or no signed 64-bit quotient does. */
  lemma DivModLaw(u: Word, d: Word)
    ensures DivMod(u, d).Some? ==>
              var (r, q) := DivMod(u, d).value;
              u == Signed(q) * Signed(d) + r && 0 <= r < Absolute(Signed(d))
    ensures DivMod(u, d) == None <==>
              Signed(d) == 0 || forall q, r :: Divides(u, Signed(d), q, r) ==>
                !(-0x8000_0000_0000_0000 <= q < 0x8000_0000_0000_0000)
  {
    var s := Signed(d);
    if s != 0 {
      var m: int := Absolute(s);
      var p: int := u / m;
      var q0: int := if s > 0 then p else 0 - p;
      assert u == p * m + u % m && 0 <= u % m < m;
      assert (0 - p) * (0 - m) == p * m;
      assert Divides(u, s, q0, u % m);
      WrapSmall(u % m);
      forall q, r | Divides(u, s, q, r) ensures q == q0 {
        OneQuotient(u, s, q, r, q0, u % m);
      }
      if -0x8000_0000_0000_0000 <= q0 < 0x8000_0000_0000_0000 {
        SignedWrap(q0);
      }
    }
  }

  function Absolute(s: int): nat {
    if s < 0 then -s else s
  }

  predicate Divides(u: int, s: int, q: int, r: int) {
    u == q * s + r && 0 <= r < Absolute(s)
  }

  lemma OneQuotient(u: int, s: int, q: int, r: int, q': int, r': int)
    requires Divides(u, s, q, r) && Divides(u, s, q', r')
    ensures q == q'
  {
    assert (q - q') * s == r' - r;
    var m: int := Absolute(s);
    var k: int := if s < 0 then q' - q else q - q';
    assert k * m == r' - r;
    assert k >= 1 ==> k * m >= m;
    assert k <= -1 ==> k * m <= -m;
  }

  lemma SignedWrap(q: int)
    requires -0x8000_0000_0000_0000 <= q < 0x8000_0000_0000_0000
    ensures Signed(Wrap(q)) == q
  {
  }

  lemma WrapSmall(n: int)
    requires 0 <= n < 0x1_0000_0000_0000_0000
    ensures Wrap(n) == n
  {
  }

  lemma MulMonotone(q: nat, a: nat, b: nat)
    requires a <= b
    ensures q * a <= q * b
  {
    assert q * b == q * a + q * (b - a);
  }

  lemma DivideFacts(u: nat, b: nat)
    requires 2 <= b
    ensures u == (u / b) * b + u % b && 0 <= u % b < b && 2 * (u / b) <= u
  {
    MulMonotone(u / b, 2, b);
  }

  /** In a base of at least 2 the division never faults: quotient and remainder of an unsigned number. */
  lemma DivModUnsigned(u: Word, base: Word)
    requires 2 <= base <= 36
    ensures DivMod(u, base) == Some((u % base, u / base))
    ensures u == (u / base) * base + u % base && 0 <= 2 * (u / base) <= u && 0 <= u % base < base
  {
    DivideFacts(u, base);
    var q, r := u / base, u % base;
    assert Signed(base) == base && q < 0x8000_0000_0000_0000;
    WrapSmall(q);
    WrapSmall(r);
  }

  function DigitChar(d: nat): Byte
    requires d < 36
  {
    if d < 10 then 48 + d else 55 + d
  }

  /** The characters U. emits for an unsigned number. */
  function Digits(u: Word, base: Word): seq<Byte>
    requires 2 <= base <= 36
    decreases u
  {
    DivModUnsigned(u, base);
    (if u / base != 0 then Digits(u / base, base) else []) + [DigitChar(u % base)]
  }

  /** UWIDTH. */
  function UWidth(u: Word, base: Word): nat
    requires 2 <= base <= 36
    decreases u
  {
    DivModUnsigned(u, base);
    if u / base != 0 then UWidth(u / base, base) + 1 else 1
  }

  function Spaces(n: nat): seq<Byte> {
    seq(n, _ => SPACE)
  }

  /** NEGATE of a negative word: its magnitude, which for the least word is 2^63 read unsigned. */
  function Magnitude(n: Word): Word {
    if Signed(n) < 0 then Wrap(0 - n) else n
  }

  function SignWidth(n: Word): nat {
    if Signed(n) < 0 then 1 else 0
  }

  /** Sign and digits, with no padding. */
  function NumberText(n: Word, base: Word): seq<Byte>
    requires 2 <= base <= 36
  {
    (if Signed(n) < 0 then [MINUS] else []) + Digits(Magnitude(n), base)
  }

  /** The pad .R computes, `width` less the sign less the digits, each subtraction wrapping. */
  function Pad(n: Word, width: Word, base: Word): int
    requires 2 <= base <= 36
  {
    Signed(Wrap(Wrap(width - SignWidth(n)) - UWidth(Magnitude(n), base)))
  }

  /** What .R emits. */
  function DotRText(n: Word, width: Word, base: Word): seq<Byte>
    requires 2 <= base <= 36
  {
    Spaces(if Pad(n, width, base) > 0 then Pad(n, width, base) else 0) + NumberText(n, base)
  }

  /** The output side of the interpreter: EMIT and the printing words. */
  class Terminal {
    var output: seq<Byte>
    const base: Word

    constructor (base: Word)
      requires 2 <= base <= 36
      ensures output == [] && this.base == base
    {
      output := [];
      this.base := base;
    }

    method Emit(c: Byte)
      modifies this
      ensures output == old(output) + [c]
    {
      output := output + [c];
    }

    /** SPACES counts its argument down to zero, one space at a time; a negative one writes nothing. */
    method EmitSpaces(n: Word)
      modifies this
      ensures output == old(output) + Spaces(if Signed(n) > 0 then Signed(n) else 0)
    {
      var k := n;
      while Signed(k) > 0
        invariant Signed(k) <= Signed(n) && (k == n || 0 <= Signed(k))
        invariant output == old(output) + Spaces(if Signed(n) > 0 then Signed(n) - Signed(k) else 0)
        decreases Signed(k)
      {
        Emit(SPACE);
        k := Wrap(k - 1);
      }
    }

    /** U. prints the quotient first, then the last digit. */
    method EmitUnsigned(u: Word)
      requires 2 <= base <= 36
      modifies this
      ensures output == old(output) + Digits(u, base)
      decreases u
    {
      DivModUnsigned(u, base);
      var (remainder, quotient) := DivMod(u, base).value;
      if quotient != 0 {
        EmitUnsigned(quotient);
      }
      Emit(if remainder < 10 then 48 + remainder else remainder - 10 + 65);
    }

    method EmitDotR(n: Word, width: Word)
      requires 2 <= base <= 36
      modifies this
      ensures output == old(output) + DotRText(n, width, base)
    {
      var flag, u, w := 0, n, width;
      if Signed(n) < 0 {
        u := Wrap(0 - n);
        flag := 1;
        w := Wrap(width - 1);
      }
      WrapSmall(width);
      assert u == Magnitude(n) && w == Wrap(width - SignWidth(n)) && flag == SignWidth(n);
      var pad := Wrap(w - UWidth(u, base));
      assert Signed(pad) == Pad(n, width, base);
      EmitSpaces(pad);
      if flag != 0 {
        Emit(MINUS);
      }
      EmitUnsigned(u);
    }
  }

  // ----- parsing ----------------------------------------------------------------------------------

  /** The digit a byte stands for in _NUMBER: none below '0' or between '9' and 'A', and none at or
      above BASE, where the last comparison is of signed bytes. */
  function DigitOf(c: Byte, base: Word): Option<Byte> {
    if c < 48 then None
    else
      var d := if c - 48 < 10 then c - 48 else c - 65 + 10;
      if c - 48 >= 10 && c < 65 then None
      else if SignedByte(d) >= SignedByte(base % 256) then None
      else Some(d)
  }

  const DIGITS := "0123456789ABCDEFGHIJKLMNOPQRSTUVWXYZ"

  /** Exactly the first `base` characters of DIGITS are digits, in this order, among the bytes below 183;
      from there on the signed comparison takes every byte for a digit. */
  lemma DigitsOfBase(c: Byte, base: Word, d: Byte)
    requires 2 <= base <= 36
    ensures c < 183 ==> (DigitOf(c, base) == Some(d) <==> d < base && DIGITS[d] as int == c)
    ensures c >= 183 ==> (DigitOf(c, base) == Some(d) <==> d == c - 55)
  {
    if d < 36 {
      DigitLiteral(d);
    }
  }

  lemma DigitLiteral(d: nat)
    requires d < 36
    ensures DIGITS[d] as int == if d < 10 then 48 + d else 55 + d
  {
    assert DIGITS[..10] == "0123456789" && DIGITS[10..] == "ABCDEFGHIJKLMNOPQRSTUVWXYZ";
  }

  /** How many leading bytes are digits. */
  function ValidPrefix(t: seq<Byte>, base: Word): (k: nat)
    ensures k <= |t|
  {
    if t == [] || DigitOf(t[0], base) == None then 0 else 1 + ValidPrefix(t[1..], base)
  }

  /** The 64-bit value of digits read left to right (bytes that are no digits count as 0). */
  function Accumulate(t: seq<Byte>, base: Word): Word {
    if t == [] then 0
    else
      var d := DigitOf(t[|t| - 1], base);
      Wrap(Accumulate(t[..|t| - 1], base) * base + if d.Some? then d.value else 0)
  }

  /** _NUMBER: the value and how many characters were left unconverted.  After a bad character the
      value has already been multiplied once more. */
  function Number(s: seq<Byte>, base: Word): (Word, nat) {
    if s == [] then (0, 0)
    else if s == [MINUS] then (0, 1)
    else
      var t := if s[0] == MINUS then s[1..] else s;
      var k := ValidPrefix(t, base);
      var v := if k == |t| then Accumulate(t, base) else Wrap(Accumulate(t[..k], base) * base);
      (if s[0] == MINUS then Wrap(0 - v) else v, |t| - k)
  }

  lemma WrapAdd(x: int, d: int)
    ensures Wrap(Wrap(x) + d) == Wrap(x + d)
  {
  }

  lemma {:induction false} AccumulateNext(t: seq<Byte>, k: nat, base: Word, d: Byte)
    requires k < |t| && DigitOf(t[k], base) == Some(d)
    ensures Accumulate(t[..k + 1], base) == Wrap(Wrap(Accumulate(t[..k], base) * base) + d)
  {
    assert t[..k + 1][..k] == t[..k];
    WrapAdd(Accumulate(t[..k], base) * base, d);
  }

  /** Leaving out the multiplication before the first digit makes no difference. */
  lemma {:induction false} FirstDigit(t: seq<Byte>, k: nat, base: Word)
    requires k <= |t|
    ensures k == 0 ==> Accumulate(t[..k], base) == Wrap(Accumulate(t[..k], base) * base)
  {
  }

  lemma {:induction false} ValidPrefixAt(t: seq<Byte>, base: Word, k: nat)
    requires k <= |t|
    requires forall i :: 0 <= i < k ==> DigitOf(t[i], base).Some?
    ensures k <= ValidPrefix(t, base)
    ensures k < |t| && DigitOf(t[k], base) == None ==> ValidPrefix(t, base) == k
    decreases k
  {
    if k > 0 {
      ValidPrefixAt(t[1..], base, k - 1);
    }
  }

  /** One round of the loop: `v` is the value after the multiplication, which the first character skips
      when there is no sign. */
  lemma {:induction false} NextCharacter(t: seq<Byte>, k: nat, base: Word, value: Word, skip: bool, v: Word)
    requires k < |t| && value == Accumulate(t[..k], base) && (skip ==> k == 0)
    requires v == if skip then value else Wrap(value * base)
    ensures v == Wrap(Accumulate(t[..k], base) * base)
    ensures DigitOf(t[k], base).Some? ==>
              Accumulate(t[..k + 1], base) == Wrap(v + DigitOf(t[k], base).value)
  {
    FirstDigit(t, k, base);
    if DigitOf(t[k], base).Some? {
      AccumulateNext(t, k, base, DigitOf(t[k], base).value);
    }
  }

  lemma {:induction false} Parsed(s: seq<Byte>, base: Word, t: seq<Byte>, left: nat, v: Word)
    requires s != [] && s != [MINUS] && t == (if s[0] == MINUS then s[1..] else s) && left <= |t|
    requires ValidPrefix(t, base) == |t| - left
    requires v == if left == 0 then Accumulate(t, base) else Wrap(Accumulate(t[..|t| - left], base) * base)
    ensures Number(s, base) == (if s[0] == MINUS then Wrap(0 - v) else v, left)
  {
  }

  /** _NUMBER's loop over the characters. */
  method ParseNumber(s: seq<Byte>, base: Word) returns (value: Word, left: nat)
    ensures (value, left) == Number(s, base)
  {
    hide Wrap, DigitOf, ValidPrefix;
    value, left := 0, |s|;
    if left == 0 {
      return;
    }
    var negative := s[0] == MINUS;
    var i := 0;
    if negative {
      left := left - 1;
      if left == 0 {
        return 0, 1;
      }
      i := 1;
    }
    ghost var t := if negative then s[1..] else s;
    while left > 0
      invariant 0 <= left <= |t| && i == |s| - left && t == s[|s| - |t|..]
      invariant forall j :: 0 <= j < |t| - left ==> DigitOf(t[j], base).Some?
      invariant value == Accumulate(t[..|t| - left], base)
      decreases left
    {
      ghost var k := |t| - left;
      assert t[k] == s[i];
      ghost var before := value;
      if i > 0 {
        value := Wrap(value * base);
      }
      NextCharacter(t, k, base, before, i == 0, value);
      var digit := DigitOf(s[i], base);
      if digit == None {
        ValidPrefixAt(t, base, k);
        assert ValidPrefix(t, base) == k;
        break;
      }
      value := Wrap(value + digit.value);
      i := i + 1;
      left := left - 1;
    }
    if left == 0 {
      assert t[..|t|] == t;
      ValidPrefixAt(t, base, |t|);
    }
    Parsed(s, base, t, left, value);
    if negative {
      value := Wrap(0 - value);
    }
  }

  // ----- the laws ---------------------------------------------------------------------------------

  lemma {:induction false} WidthIsLength(u: Word, base: Word)
    requires 2 <= base <= 36
    ensures |Digits(u, base)| == UWidth(u, base) <= u + 1
    decreases u
  {
    DivModUnsigned(u, base);
    if u / base != 0 {
      WidthIsLength(u / base, base);
    }
  }

  lemma DigitRoundTrip(d: nat, base: Word)
    requires d < base && 2 <= base <= 36
    ensures DigitOf(DigitChar(d), base) == Some(d) && DigitChar(d) != MINUS
  {
  }

  /** The digits U. prints are all digits of the base, and read back as the number. */
  lemma {:induction false} DigitsReadBack(u: Word, base: Word)
    requires 2 <= base <= 36
    ensures forall i :: 0 <= i < |Digits(u, base)| ==>
              DigitOf(Digits(u, base)[i], base).Some? && Digits(u, base)[i] != MINUS
    ensures Accumulate(Digits(u, base), base) == u
    decreases u
  {
    DivModUnsigned(u, base);
    var q, r, s := u / base, u % base, Digits(u, base);
    DigitRoundTrip(r, base);
    var before := s[..|s| - 1];
    if q != 0 {
      DigitsReadBack(q, base);
      assert before == Digits(q, base);
    } else {
      assert before == [];
    }
    assert Accumulate(before, base) == q;
    LastDigit(s, base, q, r, u);
  }

  lemma {:induction false} LastDigit(s: seq<Byte>, base: Word, q: Word, r: nat, u: Word)
    requires s != [] && Accumulate(s[..|s| - 1], base) == q && DigitOf(s[|s| - 1], base) == Some(r)
    requires q * base + r == u
    ensures Accumulate(s, base) == u
  {
    WrapSmall(u);
    assert Accumulate(s, base) == Wrap(q * base + r);
  }

  lemma NegateTwice(n: Word)
    ensures Wrap(0 - Wrap(0 - n)) == n
  {
  }

  /** Print and parse undo each other: for every 64-bit number, the least one included, and every base
      from 2 to 36, _NUMBER reads the sign and digits back to the number with nothing left over. */
  lemma RoundTrip(n: Word, base: Word)
    requires 2 <= base <= 36
    ensures Number(NumberText(n, base), base) == (n, 0)
  {
    var u := Magnitude(n);
    var t := Digits(u, base);
    var s := NumberText(n, base);
    DigitsReadBack(u, base);
    WidthIsLength(u, base);
    ValidPrefixAt(t, base, |t|);
    NegateTwice(n);
    if Signed(n) < 0 {
      assert s[1..] == t && s != [MINUS];
    } else {
      assert s == t && s[0] != MINUS;
    }
  }

  /** .R emits max(width, digits + sign) characters, padding included, exactly when the width it
      subtracts the digits and the sign from is not so near the least 64-bit number that it wraps. */
  lemma {:induction false} DotRLength(n: Word, width: Word, base: Word)
    requires 2 <= base <= 36
    ensures var need := UWidth(Magnitude(n), base) + SignWidth(n);
            |DotRText(n, width, base)| == (if Signed(width) > need then Signed(width) else need)
            <==> Signed(width) - need >= -0x8000_0000_0000_0000
  {
    var w := UWidth(Magnitude(n), base);
    WidthIsLength(Magnitude(n), base);
    WidthBound(Magnitude(n), base);
    PadValue(width, SignWidth(n), w);
  }

  /** Subtracting a small number from a word wraps once, or not at all. */
  lemma PadValue(width: Word, a: nat, b: nat)
    requires a <= 1 && b <= 0x4000_0000_0000_0000
    ensures Signed(Wrap(Wrap(width - a) - b))
            == if Signed(width) - (a + b) >= -0x8000_0000_0000_0000 then Signed(width) - (a + b)
               else Signed(width) - (a + b) + 0x1_0000_0000_0000_0000
  {
  }

  /** The number of digits stays far below the point where the pad could wrap twice. */
  lemma {:induction false} WidthBound(u: Word, base: Word)
    requires 2 <= base <= 36
    ensures UWidth(u, base) <= if u < 2 then 1 else if u < 4 then 2 else if u < 8 then 3 else 3 + u / 8
    decreases u
  {
    DivModUnsigned(u, base);
    if u / base != 0 {
      WidthBound(u / base, base);
    }
  }

  /** A width of the least 64-bit number is one that wraps: .R would emit 2^63 characters. */
  lemma DotRWraps()
    ensures |DotRText(7, 0x8000_0000_0000_0000, 10)| == 0x8000_0000_0000_0000
  {
    WidthIsLength(7, 10);
    PadValue(0x8000_0000_0000_0000, 0, 1);
  }

  // ----- what a text is worth -----------------------------------------------------------------------

  predicate AllDigits(t: seq<Byte>, base: Word) {
    forall i :: 0 <= i < |t| ==> DigitOf(t[i], base).Some?
  }

  function Power(base: nat, n: nat): nat {
    if n == 0 then 1 else base * Power(base, n - 1)
  }

  /** The value of digits by their places, without any limit. */
  function PlaceValue(t: seq<Byte>, base: Word): int
    requires AllDigits(t, base)
  {
    if t == [] then 0
    else DigitOf(t[0], base).value * Power(base, |t| - 1) + PlaceValue(t[1..], base)
  }

  lemma {:induction false} PlaceValueAppend(t: seq<Byte>, c: Byte, base: Word)
    requires AllDigits(t, base) && DigitOf(c, base).Some?
    ensures PlaceValue(t + [c], base) == PlaceValue(t, base) * base + DigitOf(c, base).value
  {
    if t == [] {
      assert [c][1..] == [];
      assert Power(base, 0) == 1;
    } else {
      assert (t + [c])[0] == t[0] && (t + [c])[1..] == t[1..] + [c];
      PlaceValueAppend(t[1..], c, base);
      Distribute(DigitOf(t[0], base).value, Power(base, |t| - 1), PlaceValue(t[1..], base), base);
    }
  }

  lemma Distribute(d: nat, p: nat, v: int, base: nat)
    ensures d * (base * p) + v * base == (d * p + v) * base
  {
  }

  lemma WrapMultiple(x: int, v: int, base: nat, d: nat)
    requires x == Wrap(v)
    ensures Wrap(x * base + d) == Wrap(v * base + d)
  {
    var k := v / 0x1_0000_0000_0000_0000;
    assert v == x + k * 0x1_0000_0000_0000_0000;
    assert v * base + d == x * base + d + (k * base) * 0x1_0000_0000_0000_0000;
    WrapShift(x * base + d, k * base);
  }

  lemma WrapShift(x: int, k: int)
    ensures Wrap(x + k * 0x1_0000_0000_0000_0000) == Wrap(x)
  {
  }

  /** The value read is the value of the digits by their places, modulo 2^64. */
  lemma {:induction false} AccumulateIsPlaceValue(t: seq<Byte>, base: Word)
    requires AllDigits(t, base)
    ensures Accumulate(t, base) == Wrap(PlaceValue(t, base))
  {
    if t != [] {
      var before, c := t[..|t| - 1], t[|t| - 1];
      AccumulateIsPlaceValue(before, base);
      PlaceValueAppend(before, c, base);
      assert t == before + [c];
      WrapMultiple(Accumulate(before, base), PlaceValue(before, base), base, DigitOf(c, base).value);
    }
  }

  /** What _NUMBER makes of any text that starts with digits, with or without a sign: the value of the digits
      modulo 2^64, once more times the base when something is left over, and how much is left over. */
  lemma {:induction false} ParsesValue(t: seq<Byte>, rest: seq<Byte>, base: Word)
    requires AllDigits(t, base) && t + rest != [] && (rest != [] ==> DigitOf(rest[0], base) == None)
    ensures var v := Wrap(if rest == [] then PlaceValue(t, base) else PlaceValue(t, base) * base);
            && ((t + rest)[0] != MINUS ==> Number(t + rest, base) == (v, |rest|))
            && Number([MINUS] + (t + rest), base) == (Wrap(0 - v), |rest|)
  {
    hide Wrap, PlaceValue, Accumulate, Number, DigitOf;
    BothValues(t, base);
    ParsesPrefix(t, rest, base);
  }

  lemma {:induction false} BothValues(t: seq<Byte>, base: Word)
    requires AllDigits(t, base)
    ensures Accumulate(t, base) == Wrap(PlaceValue(t, base))
    ensures Wrap(Accumulate(t, base) * base) == Wrap(PlaceValue(t, base) * base)
  {
    AccumulateIsPlaceValue(t, base);
    WrapMultiple(Accumulate(t, base), PlaceValue(t, base), base, 0);
  }

  lemma {:induction false} ParsesPrefix(t: seq<Byte>, rest: seq<Byte>, base: Word)
    requires AllDigits(t, base) && t + rest != [] && (rest != [] ==> DigitOf(rest[0], base) == None)
    ensures var v := if rest == [] then Accumulate(t, base) else Wrap(Accumulate(t, base) * base);
            && ((t + rest)[0] != MINUS ==> Number(t + rest, base) == (v, |rest|))
            && Number([MINUS] + (t + rest), base) == (Wrap(0 - v), |rest|)
  {
    hide Wrap, Accumulate;
    var s := t + rest;
    PrefixOf(t, rest, base);
    assert s[..|t|] == t && (rest == [] ==> s == t);
    assert ([MINUS] + s)[0] == MINUS && ([MINUS] + s)[1..] == s && [MINUS] + s != [MINUS];
  }

  lemma {:induction false} PrefixOf(t: seq<Byte>, rest: seq<Byte>, base: Word)
    requires AllDigits(t, base) && (rest != [] ==> DigitOf(rest[0], base) == None)
    ensures ValidPrefix(t + rest, base) == |t|
  {
    var s := t + rest;
    assert forall i :: 0 <= i < |t| ==> s[i] == t[i];
    assert rest != [] ==> s[|t|] == rest[0];
    ValidPrefixAt(s, base, |t|);
  }

  lemma NothingToParse(base: Word)
    ensures Number([], base) == (0, 0) && Number([MINUS], base) == (0, 1)
    ensures MINUS == '-' as int && SPACE == ' ' as int
  {
  }

  /** .R prints flush right: spaces, and then a text that reads back as the number. */
  lemma DotRReadsBack(n: Word, width: Word, base: Word) returns (k: nat)
    requires 2 <= base <= 36
    ensures k <= |DotRText(n, width, base)|
    ensures forall i :: 0 <= i < k ==> DotRText(n, width, base)[i] == ' ' as int
    ensures Number(DotRText(n, width, base)[k..], base) == (n, 0)
  {
    var pad := Pad(n, width, base);
    k := if pad > 0 then pad else 0;
    RoundTrip(n, base);
    assert DotRText(n, width, base)[k..] == NumberText(n, base);
  }
}
