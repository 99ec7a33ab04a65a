/** What the comparisons mean (src/execution/execution_defs.h): the bytes of two columns are compared as the numbers and
    strings that they encode, and every operator of a condition is the relation of that name on those values. */
module ComparisonMeaning {
  import opened Types
  import opened Integers
  import opened Compare
  import opened CharLengths

  // ------------------------------------------------------------------------------- integers

  /** A 64-bit two's complement integer as memcpy lays it out. */
  function Int64(x: int): (s: seq<Byte>)
    requires IsInt64(x)
    ensures |s| == 8
  {
    LittleEndian(if x < 0 then x + TWO64 else x, 8)
  }

  predicate IsInt64(x: int) { -TWO64 / 2 <= x < TWO64 / 2 }

  /** The bytes encode the integer, in the width of the column type. */
  predicate Encodes(t: ColType, s: Field, x: int) {
    match t
    case TypeInt => IsInt32(x) && s == Int32(x)
    case TypeBigint => IsInt64(x) && s == Int64(x)
    case TypeDatetime => IsInt64(x) && s == Int64(x)
    case _ => false
  }

  predicate IsIntegral(t: ColType) { t == TypeInt || t == TypeBigint || t == TypeDatetime }

  function Width(t: ColType): nat { if t == TypeInt || t == TypeFloat then 4 else 8 }

  lemma SignedBack(x: int)
    ensures IsInt32(x) ==> Signed(Int32(x), TWO32) == x
    ensures IsInt64(x) ==> Signed(Int64(x), TWO64) == x
  {
    Pow256Values();
    if IsInt32(x) { LittleEndianRoundTrip(if x < 0 then x + TWO32 else x, 4); }
    if IsInt64(x) { LittleEndianRoundTrip(if x < 0 then x + TWO64 else x, 8); }
  }

  /** Integers of all three types are compared as the integers that they encode. */
  lemma IntegerOrder(t: ColType, a: Field, b: Field, x: int, y: int)
    requires Encodes(t, a, x) && Encodes(t, b, y)
    ensures CompareRaw(t, a, b) < 0 <==> x < y
    ensures CompareRaw(t, a, b) == 0 <==> x == y
    ensures CompareRaw(t, a, b) > 0 <==> x > y
  {
    SignedBack(x);
    SignedBack(y);
  }

  lemma {:induction false} LittleEndianBack(s: seq<Byte>)
    ensures FromLittleEndian(s) < Pow256(|s|) && LittleEndian(FromLittleEndian(s), |s|) == s
  {
    if s == [] {
    } else {
      LittleEndianBack(s[1..]);
      LowByte(s[0], FromLittleEndian(s[1..]));
      assert s == [s[0]] + s[1..];
    }
  }

  lemma LowByte(b: Byte, n: nat)
    ensures (b + 256 * n) % 256 == b && (b + 256 * n) / 256 == n
  {
  }

  /** Every column value of the right width encodes an integer, so the order above is that of all values. */
  lemma EveryInteger(t: ColType, s: Field) returns (x: int)
    requires IsIntegral(t) && |s| == Width(t)
    ensures Encodes(t, s, x)
  {
    Pow256Values();
    LittleEndianBack(s);
    var u := FromLittleEndian(s);
    x := if t == TypeInt then if u >= TWO31 then u - TWO32 else u else if 2 * u >= TWO64 then u - TWO64 else u;
  }

  // --------------------------------------------------------------------------------- floats

  /** The three fields of an IEEE single-precision number. */
  datatype Float = Float(negative: bool, exponent: nat, mantissa: nat)

  predicate IsFloat(f: Float) { f.exponent < 256 && f.mantissa < 0x80_0000 }

  function FloatOf(s: Field): (f: Float)
    requires |s| == 4
    ensures IsFloat(f)
  {
    var b0: nat, b1: nat, b2: nat, b3: nat := s[0], s[1], s[2], s[3];
    Float(b3 >= 128, b3 % 128 * 2 + b2 / 128, b2 % 128 * 65536 + b1 * 256 + b0)
  }

  predicate IsNaN(f: Float) { f.exponent == 255 && f.mantissa != 0 }

  function Pow2(n: nat): nat { if n == 0 then 1 else 2 * Pow2(n - 1) }

  /** The magnitude in units of the smallest subnormal number; infinity comes out above all finite numbers. */
  function Magnitude(f: Float): nat {
    if f.exponent == 0 then f.mantissa else (0x80_0000 + f.mantissa) * Pow2(f.exponent - 1)
  }

  function FloatValue(f: Float): int { if f.negative then -(Magnitude(f) as int) else Magnitude(f) }

  lemma {:induction false} Pow2Grows(m: nat, n: nat)
    requires m <= n
    ensures 1 <= Pow2(m) <= Pow2(n)
    decreases n
  {
    if n == 0 {
    } else if m == n {
      Pow2Grows(m - 1, n - 1);
    } else {
      Pow2Grows(m, n - 1);
    }
  }

  lemma Scaled(a: nat, b: nat, p: nat)
    requires p >= 1
    ensures a < b ==> a * p < b * p
    ensures a <= b ==> a * p <= b * p
  {
    if a < b {
      assert b * p == a * p + (b - a) * p;
      assert (b - a) * p >= p by { OneMore(b - a, p); }
    }
  }

  lemma OneMore(k: nat, p: nat)
    requires k >= 1
    ensures k * p >= p
  {
    assert k * p == (k - 1) * p + p;
    assert (k - 1) * p >= 0;
  }

  /** A greater exponent is a greater magnitude. */
  lemma ExponentDecides(f: Float, g: Float)
    requires IsFloat(f) && IsFloat(g) && f.exponent < g.exponent
    ensures Magnitude(f) < Magnitude(g)
  {
    var q := Pow2(g.exponent - 1);
    Pow2Grows(0, g.exponent - 1);
    Scaled(0x80_0000, 0x80_0000 + g.mantissa, q);
    if f.exponent > 0 {
      Pow2Grows(f.exponent, g.exponent - 1);
      var p := Pow2(f.exponent - 1);
      Pow2Grows(0, f.exponent - 1);
      Scaled(0x80_0000 + f.mantissa, 0x100_0000, p);
      assert Pow2(f.exponent) == 2 * p;
      assert 0x80_0000 * q >= 0x80_0000 * Pow2(f.exponent);
    }
  }

  lemma MantissaDecides(f: Float, g: Float)
    requires IsFloat(f) && IsFloat(g) && f.exponent == g.exponent
    ensures Magnitude(f) < Magnitude(g) <==> f.mantissa < g.mantissa
  {
    if f.exponent > 0 {
      Pow2Grows(0, f.exponent - 1);
      Scaled(0x80_0000 + f.mantissa, 0x80_0000 + g.mantissa, Pow2(f.exponent - 1));
      Scaled(0x80_0000 + g.mantissa, 0x80_0000 + f.mantissa, Pow2(f.exponent - 1));
    }
  }

  /** The bit pattern without its sign orders the magnitudes. */
  function Bits(f: Float): nat { f.exponent * 0x80_0000 + f.mantissa }

  lemma MagnitudeOrder(f: Float, g: Float)
    requires IsFloat(f) && IsFloat(g)
    ensures Magnitude(f) < Magnitude(g) <==> Bits(f) < Bits(g)
  {
    hide Magnitude;
    if f.exponent < g.exponent {
      ExponentDecides(f, g);
    } else if g.exponent < f.exponent {
      ExponentDecides(g, f);
    } else {
      MantissaDecides(f, g);
    }
  }

  lemma ZeroMagnitude(f: Float)
    requires IsFloat(f)
    ensures Magnitude(f) == 0 <==> Bits(f) == 0
  {
    if f.exponent > 0 {
      Pow2Grows(0, f.exponent - 1);
      OneMore(0x80_0000 + f.mantissa, Pow2(f.exponent - 1));
    }
  }

  /** The sign bit and the rest of the four bytes. */
  lemma PackedBits(b0: nat, b1: nat, b2: nat, b3: nat)
    requires b0 < 256 && b1 < 256 && b2 < 256 && b3 < 256
    ensures var x := b0 + 256 * b1 + 65536 * b2 + 16777216 * b3;
      var bits := (b3 % 128 * 2 + b2 / 128) * 0x80_0000 + (b2 % 128 * 65536 + b1 * 256 + b0);
      (x >= TWO31 <==> b3 >= 128) && bits == if b3 >= 128 then x - TWO31 else x
  {
    assert b3 == (if b3 >= 128 then 128 else 0) + b3 % 128;
    assert b2 == 128 * (b2 / 128) + b2 % 128;
  }

  lemma RankIsBits(s: Field)
    requires |s| == 4
    ensures FloatRank(s) == if FloatOf(s).negative then -(Bits(FloatOf(s)) as int) else Bits(FloatOf(s))
  {
    hide FromLittleEndian;
    FourBytes(s[0], s[1], s[2], s[3]);
    PackedBits(s[0], s[1], s[2], s[3]);
    assert s == [s[0], s[1], s[2], s[3]];
  }

  /** Floats other than NaN are compared as the numbers that they encode, the two zeros being equal. */
  lemma FloatOrder(a: Field, b: Field)
    requires |a| == |b| == 4 && !IsNaN(FloatOf(a)) && !IsNaN(FloatOf(b))
    ensures CompareRaw(TypeFloat, a, b) < 0 <==> FloatValue(FloatOf(a)) < FloatValue(FloatOf(b))
    ensures CompareRaw(TypeFloat, a, b) == 0 <==> FloatValue(FloatOf(a)) == FloatValue(FloatOf(b))
    ensures CompareRaw(TypeFloat, a, b) > 0 <==> FloatValue(FloatOf(a)) > FloatValue(FloatOf(b))
  {
    hide FloatRank;
    hide Magnitude;
    hide Bits;
    hide FloatOf;
    var f, g := FloatOf(a), FloatOf(b);
    RankIsBits(a);
    RankIsBits(b);
    MagnitudeOrder(f, g);
    MagnitudeOrder(g, f);
    ZeroMagnitude(f);
    ZeroMagnitude(g);
  }

  // -------------------------------------------------------------------------------- strings

  /** The first difference before a NUL is at position k. */
  ghost predicate DifferAt(a: Field, b: Field, k: nat) {
    AgreeTo(a, b, k) && k < |a| && k < |b| && a[k] != b[k]
  }

  /** Where two strings of one length first differ, or None. */
  lemma {:induction false} FirstDifference(a: Field, b: Field) returns (k: Option<nat>)
    requires |a| == |b|
    ensures k.Some? ==> DifferAt(a, b, k.value)
    ensures k.None? ==> StrCmp(a, b) == 0
  {
    if a == [] || (a[0] == b[0] && a[0] == 0) {
      k := None;
    } else if a[0] != b[0] {
      k := Some(0);
    } else {
      var r := FirstDifference(a[1..], b[1..]);
      k := if r.Some? then Some(r.value + 1) else None;
      if r.Some? { AgreeMore(a, b, r.value); }
    }
  }

  lemma AgreeMore(a: Field, b: Field, k: nat)
    requires a != [] && b != [] && a[0] == b[0] && a[0] != 0 && DifferAt(a[1..], b[1..], k)
    ensures DifferAt(a, b, k + 1)
  {
    forall i | 0 <= i < k + 1 ensures a[i] == b[i] && a[i] != 0 {
      if i > 0 { assert a[1..][i - 1] == a[i] && b[1..][i - 1] == b[i]; }
    }
  }

  /** CHAR values of one length are compared by the first byte that differs before a NUL. */
  lemma StringOrder(a: Field, b: Field)
    requires |a| == |b|
    ensures CompareRaw(TypeString, a, b) < 0 <==> exists k: nat :: DifferAt(a, b, k) && a[k] < b[k]
    ensures CompareRaw(TypeString, a, b) > 0 <==> exists k: nat :: DifferAt(a, b, k) && a[k] > b[k]
    ensures CompareRaw(TypeString, a, b) == 0 <==> forall k: nat :: !DifferAt(a, b, k)
  {
    hide StrCmp;
    hide Decided;
    forall k: nat | DifferAt(a, b, k) ensures StrCmp(a, b) == (a[k] as int) - (b[k] as int) { StrCmpAt(a, b, k); }
    var k := FirstDifference(a, b);
    StringIsStrCmp(a, b);
  }

  // ---------------------------------------------------------------------- conditions end to end

  /** The relation that an operator stands for. */
  predicate Relates(op: CompOp, x: int, y: int) {
    match op
    case OpEq => x == y
    case OpNe => x != y
    case OpLt => x < y
    case OpGt => x > y
    case OpLe => x <= y
    case OpGe => x >= y
  }

  /** A condition that compares an integer column with a value holds exactly when the two integers are so related. */
  lemma IntegerWithValue(cols: seq<ColMeta>, c: Condition, rec: Record, x: int, y: int)
    requires Fits(cols, rec) && Resolves(cols, c) && c.rhs.RhsVal?
    requires Encodes(Left(cols, c).ctype, FieldOf(rec, Left(cols, c)), x) && Encodes(Left(cols, c).ctype, c.rhs.raw, y)
    ensures EvalCondition(cols, c, rec) <==> Relates(c.op, x, y)
  {
    hide CompareRaw;
    hide Encodes;
    IntegerOnly(Left(cols, c).ctype, c.rhs.raw, y);
    IntegerOrder(Left(cols, c).ctype, FieldOf(rec, Left(cols, c)), c.rhs.raw, x, y);
  }

  /** The same for two integer columns of one type. */
  lemma IntegerWithColumn(cols: seq<ColMeta>, c: Condition, rec: Record, x: int, y: int)
    requires Fits(cols, rec) && Resolves(cols, c) && c.rhs.RhsCol? && LikeTypes(Left(cols, c), Right(cols, c))
    requires Encodes(Left(cols, c).ctype, FieldOf(rec, Left(cols, c)), x)
    requires Encodes(Left(cols, c).ctype, FieldOf(rec, Right(cols, c)), y)
    ensures EvalCondition(cols, c, rec) <==> Relates(c.op, x, y)
  {
    hide CompareRaw;
    hide Encodes;
    var l, r := Left(cols, c), Right(cols, c);
    IntegerOnly(l.ctype, FieldOf(rec, r), y);
    assert RightBytes(rec, r, l.len) == FieldOf(rec, r);
    IntegerOrder(l.ctype, FieldOf(rec, l), FieldOf(rec, r), x, y);
  }

  lemma IntegerOnly(t: ColType, s: Field, x: int)
    requires Encodes(t, s, x)
    ensures !t.TypeString?
  {
  }

  /** A condition on a FLOAT column and a value, neither of them NaN. */
  lemma FloatWithValue(cols: seq<ColMeta>, c: Condition, rec: Record)
    requires Fits(cols, rec) && Resolves(cols, c) && c.rhs.RhsVal?
    requires Left(cols, c).ctype == TypeFloat && Left(cols, c).len == 4
    requires !IsNaN(FloatOf(FieldOf(rec, Left(cols, c)))) && !IsNaN(FloatOf(c.rhs.raw))
    ensures EvalCondition(cols, c, rec) <==>
      Relates(c.op, FloatValue(FloatOf(FieldOf(rec, Left(cols, c)))), FloatValue(FloatOf(c.rhs.raw)))
  {
    hide CompareRaw;
    hide FloatOf;
    hide FloatValue;
    hide IsNaN;
    FloatOrder(FieldOf(rec, Left(cols, c)), c.rhs.raw);
  }

  /** A condition on a CHAR column and a value: equality is having no difference before a NUL, the order is that of the
      first difference. */
  lemma StringWithValue(cols: seq<ColMeta>, c: Condition, rec: Record)
    requires Fits(cols, rec) && Resolves(cols, c) && c.rhs.RhsVal? && Left(cols, c).ctype == TypeString
    ensures var a, b := FieldOf(rec, Left(cols, c)), c.rhs.raw;
      var less := exists k: nat :: DifferAt(a, b, k) && a[k] < b[k];
      var more := exists k: nat :: DifferAt(a, b, k) && a[k] > b[k];
      EvalCondition(cols, c, rec) <==>
        match c.op
        case OpEq => !less && !more
        case OpNe => less || more
        case OpLt => less
        case OpGt => more
        case OpLe => !more
        case OpGe => !less
  {
    hide CompareRaw;
    hide Decided;
    hide DifferAt;
    TextIsStrCmp(FieldOf(rec, Left(cols, c)), c.rhs.raw);
    StringOrder(FieldOf(rec, Left(cols, c)), c.rhs.raw);
  }
}
