/** SQL values and their bytes: types/column_value.go. */
module Values {
  import opened Bytes
  import opened Collections

  datatype Type = Integer | Float | Boolean | Varchar

  /** A float is its 32-bit pattern. */
  datatype Value =
    | IntegerValue(isNull: bool, integer: int)
    | FloatValue(isNull: bool, bits: int)
    | BooleanValue(isNull: bool, boolean: bool)
    | VarcharValue(isNull: bool, varchar: seq<byte>)

  function TypeOf(v: Value): Type {
    match v
    case IntegerValue(_, _) => Integer
    case FloatValue(_, _) => Float
    case BooleanValue(_, _) => Boolean
    case VarcharValue(_, _) => Varchar
  }

  /** `SetNull`: NULL with the type's default value under it. */
  function SetNull(v: Value): Value {
    match v
    case IntegerValue(_, _) => IntegerValue(true, 0)
    case FloatValue(_, _) => FloatValue(true, 0)
    case BooleanValue(_, _) => BooleanValue(true, false)
    case VarcharValue(_, _) => VarcharValue(true, [])
  }

  predicate InRange(v: Value) {
    match v
    case IntegerValue(_, i) => -U31 <= i < U31
    case FloatValue(_, b) => 0 <= b < U32
    case BooleanValue(_, _) => true
    case VarcharValue(_, _) => true
  }

  /** Values in range; a NULL is one that `SetNull` made. */
  predicate ValueOk(v: Value) {
    InRange(v) && (v.isNull ==> v == SetNull(v))
  }

  function BoolByte(b: bool): byte {
    if b then 1 else 0
  }

  /** The two little-endian bytes of a uint16. */
  function Enc16(v: int): (s: seq<byte>)
    requires 0 <= v < U16
    ensures |s| == 2
  {
    [v % 0x100, v / 0x100]
  }

  /** The two bytes at offset `o` as an int16. */
  function Dec16Signed(s: seq<byte>, o: nat): int
    requires o + 2 <= |s|
  {
    Signed16(s[o] as int + 0x100 * s[o + 1] as int)
  }

  /** Go's int16 arithmetic wraps. */
  function Signed16(v: int): (r: int)
    ensures -0x8000 <= r < 0x8000
  {
    var m := v % U16;
    if m < 0x8000 then m else m - U16
  }

  function Serialize(v: Value): (s: seq<byte>)
    requires InRange(v)
    ensures |s| == Size(v)
  {
    [BoolByte(v.isNull)] +
    match v
    case IntegerValue(_, i) => Enc32(ToU32(i))
    case FloatValue(_, b) => Enc32(b)
    case BooleanValue(_, b) => [BoolByte(b)]
    case VarcharValue(_, s) => Enc16(|s| % U16) + s
  }

  function Size(v: Value): nat {
    match v
    case IntegerValue(_, _) => 5
    case FloatValue(_, _) => 5
    case BooleanValue(_, _) => 2
    case VarcharValue(_, s) => |s| + 3
  }

  function NullFlag(data: seq<byte>): bool {
    |data| >= 1 && data[0] != 0
  }

  /** A word behind the flag; missing bytes read as 0. */
  function WordBehind(data: seq<byte>): (w: int)
    ensures 0 <= w < U32
  {
    if |data| >= 5 then Dec32(data, 1) else 0
  }

  function LengthBehind(data: seq<byte>): (n: int)
    ensures -0x8000 <= n < 0x8000
  {
    if |data| >= 3 then Dec16Signed(data, 1) else 0
  }

  function NullIf(isNull: bool, v: Value): Value {
    if isNull then SetNull(v) else v
  }

  /** Deserialization; nothing where Go panics on a slice out of bounds. */
  function NewValueFromBytes(data: seq<byte>, t: Type): Option<Value> {
    match t
    case Integer => Some(NullIf(NullFlag(data), IntegerValue(false, ToI32(WordBehind(data)))))
    case Float => Some(NullIf(NullFlag(data), FloatValue(false, WordBehind(data))))
    case Boolean => Some(NullIf(NullFlag(data), BooleanValue(false, |data| >= 2 && data[1] != 0)))
    case Varchar =>
      var end := Signed16(LengthBehind(data) + 3);
      if 3 <= end <= |data| then Some(NullIf(NullFlag(data), VarcharValue(false, data[3..end]))) else None
  }

  /** The bytes of the value at the head of `data`, as `GetValueInBytes` copies them; nothing where it panics. */
  function ValueBytes(data: seq<byte>, t: Type): Option<seq<byte>> {
    match t
    case Integer => Some([BoolByte(NullFlag(data))] + Enc32(WordBehind(data)))
    case Float => Some([BoolByte(NullFlag(data))] + Enc32(WordBehind(data)))
    case Boolean => Some([BoolByte(NullFlag(data)), BoolByte(|data| >= 2 && data[1] != 0)])
    case Varchar =>
      var n := LengthBehind(data);
      if 0 <= n && n + 3 <= |data| then Some([BoolByte(NullFlag(data))] + Enc16(n) + data[3..n + 3]) else None
  }

  // ---------- what survives the bytes ----------

  lemma SignedWord(i: int)
    requires -U31 <= i < U31
    ensures ToI32(ToU32(i)) == i
  {
  }

  lemma HeadOf(v: Value, rest: seq<byte>)
    requires InRange(v)
    ensures NullFlag(Serialize(v) + rest) == v.isNull
    ensures (v.IntegerValue? ==> WordBehind(Serialize(v) + rest) == ToU32(v.integer))
    ensures (v.FloatValue? ==> WordBehind(Serialize(v) + rest) == v.bits)
    ensures v.VarcharValue? ==> LengthBehind(Serialize(v) + rest) == Signed16(|v.varchar|)
  {
    hide Dec32, Enc32;
    var data := Serialize(v) + rest;
    match v
    case IntegerValue(_, i) => DecEnc32(data, 1, ToU32(i));
    case FloatValue(_, b) => DecEnc32(data, 1, b);
    case BooleanValue(_, _) =>
    case VarcharValue(_, s) =>
      var m := |s| % U16;
      assert data[1] as int == m % 0x100 && data[2] as int == m / 0x100;
  }

  /** A value comes back from its bytes if and only if it is not a varchar of more than 32764 bytes. */
  lemma RoundTrip(v: Value, rest: seq<byte>)
    requires ValueOk(v)
    ensures NewValueFromBytes(Serialize(v) + rest, TypeOf(v)) == Some(v) <==> v.VarcharValue? ==> |v.varchar| <= 32764
  {
    hide Enc32, Enc16;
    var data := Serialize(v) + rest;
    HeadOf(v, rest);
    match v
    case IntegerValue(_, i) => SignedWord(i);
    case FloatValue(_, _) =>
    case BooleanValue(_, _) =>
    case VarcharValue(_, s) =>
      var end := Signed16(LengthBehind(data) + 3);
      if |s| <= 32764 {
        assert end == |s| + 3 && data[3..end] == s;
      } else {
        assert 3 <= end ==> end - 3 != |s|;
      }
  }

  /** The bytes copied out are the value's own if and only if it is not a varchar of more than 32767 bytes. */
  lemma BytesRoundTrip(v: Value, rest: seq<byte>)
    requires ValueOk(v)
    ensures ValueBytes(Serialize(v) + rest, TypeOf(v)) == Some(Serialize(v))
            <==> v.VarcharValue? ==> |v.varchar| <= 32767
  {
    hide Enc32;
    var data := Serialize(v) + rest;
    HeadOf(v, rest);
    match v
    case IntegerValue(_, _) =>
    case FloatValue(_, _) =>
    case BooleanValue(_, b) => assert Serialize(v) == [BoolByte(v.isNull), BoolByte(b)];
    case VarcharValue(_, s) => VarcharBytes(v, rest);
  }

  lemma VarcharBytes(v: Value, rest: seq<byte>)
    requires ValueOk(v) && v.VarcharValue?
    ensures ValueBytes(Serialize(v) + rest, Varchar) == Some(Serialize(v)) <==> |v.varchar| <= 32767
  {
    hide Enc16;
    var data, s := Serialize(v) + rest, v.varchar;
    HeadOf(v, rest);
    var n := LengthBehind(data);
    if |s| <= 32767 {
      assert n == |s| && data[3..n + 3] == s;
      assert [BoolByte(v.isNull)] + Enc16(n) + s == [BoolByte(v.isNull)] + (Enc16(n) + s);
    } else if 0 <= n && n + 3 <= |data| {
      assert n != |s|;
      assert |[BoolByte(NullFlag(data))] + Enc16(n) + data[3..n + 3]| == n + 3;
    }
  }

  // ---------- equality ----------

  predicate IsNaN(bits: int) {
    bits % U31 > 0x7F80_0000
  }

  /** IEEE equality of two patterns: a NaN equals nothing, and the two zeros are equal. */
  predicate FloatEquals(a: int, b: int) {
    !IsNaN(a) && !IsNaN(b) && (a == b || (a % U31 == 0 && b % U31 == 0))
  }

  /** `CompareEquals` of two values of the same type; two NULLs are equal. */
  predicate CompareEquals(v: Value, w: Value)
    requires TypeOf(v) == TypeOf(w)
  {
    if v.isNull && w.isNull then true
    else if v.isNull || w.isNull then false
    else match v
      case IntegerValue(_, i) => i == w.integer
      case FloatValue(_, b) => FloatEquals(b, w.bits)
      case BooleanValue(_, b) => b == w.boolean
      case VarcharValue(_, s) => s == w.varchar
  }

  /** An integer, a varchar, a Boolean and a NULL, byte for byte. */
  lemma SampleValues()
    ensures Serialize(IntegerValue(false, -2)) == [0, 0xFE, 0xFF, 0xFF, 0xFF]
    ensures Serialize(VarcharValue(false, [97, 98])) == [0, 2, 0, 97, 98]
    ensures Serialize(BooleanValue(false, true)) == [0, 1] && Serialize(SetNull(BooleanValue(false, true))) == [1, 0]
  {
  }

  /** Apart from floats, values are equal exactly when their bytes are. */
  lemma EqualIsSameBytes(v: Value, w: Value)
    requires ValueOk(v) && ValueOk(w) && TypeOf(v) == TypeOf(w) && !v.FloatValue?
    ensures CompareEquals(v, w) <==> Serialize(v) == Serialize(w)
  {
    hide Enc32, Enc16;
    if Serialize(v) == Serialize(w) {
      assert Serialize(v)[0] == Serialize(w)[0];
      match v
      case IntegerValue(_, i) =>
        assert Serialize(v)[1..] == Enc32(ToU32(i)) && Serialize(w)[1..] == Enc32(ToU32(w.integer));
        SameWord(ToU32(i), ToU32(w.integer));
      case BooleanValue(_, b) => assert Serialize(v)[1] == Serialize(w)[1];
      case VarcharValue(_, s) => assert Serialize(v)[3..] == s && Serialize(w)[3..] == w.varchar;
    }
  }

  lemma SameWord(a: int, b: int)
    requires 0 <= a < U32 && 0 <= b < U32 && Enc32(a) == Enc32(b)
    ensures a == b
  {
    hide Enc32;
    DecEnc32(Enc32(a), 0, a);
    DecEnc32(Enc32(b), 0, b);
  }

  // ---------- the numbers floats stand for ----------

  /** What a binary32 pattern stands for, by section 3.4 of IEEE 754. */
  datatype FloatMeaning = NaN | Infinity(negative: bool) | Finite(value: real)

  function Pow2(n: nat): (p: nat)
    ensures p >= 1
  {
    if n == 0 then 1 else 2 * Pow2(n - 1)
  }

  const U23: int := 0x80_0000

  function Exponent(bits: int): (e: int)
    ensures 0 <= e < 256
  {
    bits / U23 % 256
  }

  function Fraction(bits: int): (f: int)
    ensures 0 <= f < U23
  {
    bits % U23
  }

  /** A number's size, counted in the smallest positive float, 2 to the -149. */
  function Units(bits: int): (u: nat) {
    if Exponent(bits) == 0 then Fraction(bits) else (U23 + Fraction(bits)) * Pow2(Exponent(bits) - 1)
  }

  function FloatOf(bits: int): FloatMeaning {
    var negative := bits >= U31;
    if Exponent(bits) == 255 && Fraction(bits) != 0 then NaN
    else if Exponent(bits) == 255 then Infinity(negative)
    else Finite((if negative then -(Units(bits) as real) else Units(bits) as real) / Pow2(149) as real)
  }

  lemma {:induction false} Pow2Grows(a: nat, b: nat)
    requires a <= b
    ensures Pow2(a) <= Pow2(b)
  {
    if a < b {
      Pow2Grows(a, b - 1);
    }
  }

  /** Each exponent has its own range of sizes. */
  lemma UnitsRange(bits: int)
    requires 0 <= bits < U31
    ensures Units(bits) < U23 * Pow2(Exponent(bits))
    ensures Exponent(bits) > 0 ==> Units(bits) >= U23 * Pow2(Exponent(bits) - 1)
  {
    var e, f := Exponent(bits), Fraction(bits);
    if e > 0 {
      var p := Pow2(e - 1);
      TimesGrows(U23 + f, 2 * U23, p);
      TimesGrows(U23, U23 + f + 1, p);
      assert 2 * U23 * p == U23 * Pow2(e);
    }
  }

  lemma TimesGrows(a: nat, b: nat, p: nat)
    requires a < b && p >= 1
    ensures a * p < b * p
  {
    assert (b - a) * p >= 1;
  }

  lemma UnitsApart(a: int, b: int)
    requires 0 <= a < U31 && 0 <= b < U31 && Exponent(a) < Exponent(b)
    ensures Units(a) < Units(b)
  {
    UnitsRange(a);
    UnitsRange(b);
    Pow2Grows(Exponent(a), Exponent(b) - 1);
    assert U23 * Pow2(Exponent(a)) <= U23 * Pow2(Exponent(b) - 1);
  }

  lemma SameUnits(a: int, b: int)
    requires 0 <= a < U31 && 0 <= b < U31 && Units(a) == Units(b)
    ensures a == b
  {
    if Exponent(a) < Exponent(b) {
      UnitsApart(a, b);
    } else if Exponent(b) < Exponent(a) {
      UnitsApart(b, a);
    } else {
      var e := Exponent(a);
      if e > 0 && Fraction(a) < Fraction(b) {
        TimesGrows(U23 + Fraction(a), U23 + Fraction(b), Pow2(e - 1));
      } else if e > 0 && Fraction(b) < Fraction(a) {
        TimesGrows(U23 + Fraction(b), U23 + Fraction(a), Pow2(e - 1));
      }
      Parts(a);
      Parts(b);
    }
  }

  lemma SameQuotient(x: real, y: real, d: real)
    requires d > 0.0
    ensures x / d == y / d <==> x == y
  {
    assert x / d * d == x && y / d * d == y;
  }

  /** The sign bit changes neither exponent nor fraction. */
  lemma SignBit(bits: int)
    requires U31 <= bits < U32
    ensures Exponent(bits) == Exponent(bits - U31) && Fraction(bits) == Fraction(bits - U31)
  {
  }

  lemma SizeOf(bits: int)
    requires 0 <= bits < U32
    ensures Exponent(bits) == Exponent(bits % U31) && Fraction(bits) == Fraction(bits % U31)
    ensures Units(bits) == Units(bits % U31)
  {
    if bits >= U31 {
      SignBit(bits);
    }
  }

  lemma Parts(m: int)
    requires 0 <= m < U31
    ensures m == Exponent(m) * U23 + Fraction(m)
  {
  }

  lemma NaNExact(bits: int)
    requires 0 <= bits < U32
    ensures IsNaN(bits) <==> FloatOf(bits).NaN?
    ensures FloatOf(bits).Infinity? <==> bits % U31 == 0x7F80_0000
  {
    hide Units, Pow2, Exponent, Fraction;
    SizeOf(bits);
    Parts(bits % U31);
  }

  lemma ZeroUnits(m: int)
    requires 0 <= m < U31
    ensures Units(m) == 0 <==> m == 0
  {
    hide Pow2;
    assert Units(0) == 0;
    if Units(m) == 0 {
      SameUnits(m, 0);
    }
  }

  /** Two patterns are equal exactly when neither is a NaN and they stand for the same number or infinity. */
  lemma FloatEqualsExact(a: int, b: int)
    requires 0 <= a < U32 && 0 <= b < U32
    ensures FloatEquals(a, b) <==> !FloatOf(a).NaN? && FloatOf(a) == FloatOf(b)
  {
    hide Units, Pow2, Exponent, Fraction;
    NaNExact(a);
    NaNExact(b);
    SizeOf(a);
    SizeOf(b);
    if FloatOf(a).Finite? && FloatOf(b).Finite? {
      FiniteEquals(a, b);
    }
  }

  lemma FiniteEquals(a: int, b: int)
    requires 0 <= a < U32 && 0 <= b < U32 && FloatOf(a).Finite? && FloatOf(b).Finite?
    ensures FloatOf(a) == FloatOf(b) <==> a == b || (a % U31 == 0 && b % U31 == 0)
  {
    hide Units, Pow2, Exponent, Fraction;
    SizeOf(a);
    SizeOf(b);
    ZeroUnits(a % U31);
    ZeroUnits(b % U31);
    var x := if a >= U31 then -(Units(a) as real) else Units(a) as real;
    var y := if b >= U31 then -(Units(b) as real) else Units(b) as real;
    SameQuotient(x, y, Pow2(149) as real);
    if x == y {
      assert Units(a) == Units(b);
      SameUnits(a % U31, b % U31);
    }
  }

  /**
   Two values compare equal exactly when both are NULL or both are not and they are the same integer, Boolean or
   string, or floats standing for the same number or infinity.
   */
  lemma EqualsExact(v: Value, w: Value)
    requires ValueOk(v) && ValueOk(w) && TypeOf(v) == TypeOf(w)
    ensures CompareEquals(v, w) <==>
            if v.FloatValue? && !v.isNull && !w.isNull
            then !FloatOf(v.bits).NaN? && FloatOf(v.bits) == FloatOf(w.bits) else v == w
  {
    hide FloatOf, FloatEquals;
    if v.FloatValue? && !v.isNull && !w.isNull {
      FloatEqualsExact(v.bits, w.bits);
    }
  }

  lemma {:induction false} Pow2Sum(a: nat, b: nat)
    ensures Pow2(a + b) == Pow2(a) * Pow2(b)
  {
    if a > 0 {
      Pow2Sum(a - 1, b);
      assert 2 * (Pow2(a - 1) * Pow2(b)) == 2 * Pow2(a - 1) * Pow2(b);
    }
  }

  lemma Pow23()
    ensures Pow2(23) == U23
  {
    assert Pow2(5) == 32 && Pow2(6) == 64;
    Pow2Sum(6, 6);
    Pow2Sum(6, 5);
    Pow2Sum(12, 11);
  }

  lemma OneUnits(bits: int)
    requires Exponent(bits) == 127 && Fraction(bits) == 0
    ensures Units(bits) == Pow2(149)
  {
    hide Pow2;
    Pow23();
    Pow2Sum(23, 126);
  }

  /** The patterns of 1 and -1. */
  lemma OnesMeaning(bits: int)
    requires bits % U31 == 0x3F80_0000 && 0 <= bits < U32
    ensures FloatOf(bits) == Finite(if bits < U31 then 1.0 else -1.0)
  {
    hide Pow2, Units;
    if bits >= U31 {
      SignBit(bits);
    }
    OneUnits(bits);
    Quotient(Pow2(149) as real);
  }

  lemma Quotient(d: real)
    requires d > 0.0
    ensures d / d == 1.0 && (-d) / d == -1.0
  {
  }

  /** The two float zeros are equal but have different bytes. */
  lemma ZerosDiffer()
    ensures CompareEquals(FloatValue(false, 0), FloatValue(false, U31))
    ensures Serialize(FloatValue(false, 0)) == [0, 0, 0, 0, 0]
    ensures Serialize(FloatValue(false, U31)) == [0, 0, 0, 0, 0x80]
  {
    assert Serialize(FloatValue(false, 0))[4] == 0;
    assert Serialize(FloatValue(false, U31))[4] == 0x80;
  }
}
