/** Cells, rows and the comparators of rust/src/value.rs.

    `compare_values` panics on a pair of genuinely different types (a number against a
    string).  Here such a pair is ordered by type rank, as `compare_predicate_values` does,
    so every comparator is total and agrees with the source wherever the source returns.
    Reading a column past the end of a row (a panic in the source) yields `Absent`.

    Numbers are cells up to their numeric class (`float_int_class`): a float that equals an
    integer is that integer.  `CellOrder` says that nothing a comparator can see is lost. */
module Values {

  datatype Option<+T> = None | Some(value: T)

  datatype Ordering = Less | Equal | Greater

  type Byte = b: int | 0 <= b < 256

  datatype Value =
    | Absent
    | Null
    | Bool(b: bool)
    | Int(i: I64)
    | Float(f: OwnFloat)
    | Str(bytes: seq<Byte>)
    | Json(text: seq<Byte>)

  // ---- 64-bit integers and floats ----

  const P52: int := 0x10_0000_0000_0000
  const P63: int := 0x8000_0000_0000_0000
  const INF: int := 0x7FF0_0000_0000_0000

  type I64 = i: int | -P63 <= i < P63
  type Magnitude = m: int | 0 <= m < P63

  /** The bits of an IEEE 754 double: sign, and exponent and fraction as one number. */
  datatype Double = Double(neg: bool, mag: Magnitude)

  predicate IsNan(f: Double) {
    f.mag > INF
  }

  predicate IsFinite(f: Double) {
    f.mag < INF
  }

  function Pow2(n: nat): (p: nat)
    ensures p > 0
  {
    if n == 0 then 1 else 2 * Pow2(n - 1)
  }

  /** The smallest positive double is 1 unit; this many units make 1. */
  function One(): (u: nat)
    ensures u > 0
  {
    Pow2(1074)
  }

  /** The absolute value of a finite double in units: subnormals have exponent 0, every other
      fraction has a leading 1. */
  function Units(m: nat): nat {
    if m < P52 then m else (P52 + m % P52) * Pow2(m / P52 - 1)
  }

  function SignedBits(f: Double): int {
    if f.neg then -(f.mag as int) - 1 else f.mag
  }

  /** `f64::total_cmp` */
  function TotalCmp(a: Double, b: Double): Ordering {
    CompareInts(SignedBits(a), SignedBits(b))
  }

  /** `y >= n`, respectively `y < -n`, for a number `y` and a natural `n`. */
  predicate AtLeast(y: Double, n: nat) {
    !y.neg && (!IsFinite(y) || Units(y.mag) >= n * One())
  }

  predicate BelowMinus(y: Double, n: nat) {
    y.neg && (!IsFinite(y) || Units(y.mag) > n * One())
  }

  /** `f64::trunc` */
  function Trunc(y: Double): int {
    if y.neg then -(Units(y.mag) / One()) else Units(y.mag) / One()
  }

  predicate Fractional(y: Double) {
    Units(y.mag) % One() != 0
  }

  /** `compare_int_f64` */
  function CompareIntFloat(x: I64, y: Double): Ordering {
    if IsNan(y) then (if y.neg then Greater else Less)
    else if AtLeast(y, P63) then Less
    else if BelowMinus(y, P63) then Greater
    else if x < Trunc(y) then Less
    else if x > Trunc(y) then Greater
    else if Fractional(y) && !y.neg then Less
    else if Fractional(y) || (x == 0 && y.neg) then Greater
    else Equal
  }

  /** `float_int_class`: the integer a double is equal to. */
  function FloatIntClass(f: Double): Option<int> {
    if !IsFinite(f) || Fractional(f) then None
    else if Units(f.mag) == 0 then (if f.neg then None else Some(0))
    else if AtLeast(f, P63) || BelowMinus(f, P63) then None
    else Some(Trunc(f))
  }

  /** A double equal to no integer. */
  type OwnFloat = f: Double | FloatIntClass(f).None? witness Double(false, INF)

  /** A number as stored, and its cell. */
  datatype Number = Whole(i: I64) | Real(f: Double)

  function CompareNumbers(x: Number, y: Number): Ordering {
    match (x, y)
    case (Whole(a), Whole(b)) => CompareInts(a, b)
    case (Whole(a), Real(b)) => CompareIntFloat(a, b)
    case (Real(a), Whole(b)) => Reverse(CompareIntFloat(b, a))
    case (Real(a), Real(b)) => TotalCmp(a, b)
  }

  type Row = seq<Value>
  type ColId = nat

  /** A sort: columns with their direction (`true` = ascending). */
  type Sort = seq<(ColId, bool)>

  function Col(r: Row, c: ColId): Value {
    if c < |r| then r[c] else Absent
  }

  function Reverse(o: Ordering): Ordering {
    match o case Less => Greater case Equal => Equal case Greater => Less
  }

  function CompareInts(x: int, y: int): Ordering {
    if x < y then Less else if x == y then Equal else Greater
  }

  /** Bytewise comparison; a proper prefix sorts first. */
  function CompareBytes(x: seq<Byte>, y: seq<Byte>): Ordering {
    if x == [] then (if y == [] then Equal else Less)
    else if y == [] then Greater
    else if x[0] != y[0] then CompareInts(x[0], y[0])
    else CompareBytes(x[1..], y[1..])
  }

  function TypeRank(v: Value): int {
    match v
    case Absent => 0
    case Null => 1
    case Bool(_) => 2
    case Int(_) => 3
    case Float(_) => 3
    case Str(_) => 4
    case Json(_) => 5
  }

  /** `compare_values`: Absent < Null < everything else, `null == null`. */
  function CompareValues(x: Value, y: Value): Ordering {
    match (x, y)
    case (Bool(a), Bool(b)) => if a == b then Equal else if b then Less else Greater
    case (Int(a), Int(b)) => CompareInts(a, b)
    case (Float(a), Float(b)) => TotalCmp(a, b)
    case (Int(a), Float(b)) => CompareIntFloat(a, b)
    case (Float(a), Int(b)) => Reverse(CompareIntFloat(b, a))
    case (Str(a), Str(b)) => CompareBytes(a, b)
    case (Json(a), Json(b)) => CompareBytes(a, b)
    case _ => CompareInts(TypeRank(x), TypeRank(y))
  }

  /** `values_equal`: join equality, in which null (or absent) matches nothing. */
  predicate ValuesEqual(x: Value, y: Value) {
    !x.Absent? && !y.Absent? && !x.Null? && !y.Null? && CompareValues(x, y).Equal?
  }

  /** `values_identical`: predicate identity, in which null is identical to null. */
  predicate ValuesIdentical(x: Value, y: Value) {
    CompareValues(x, y).Equal?
  }

  function Directed(c: Ordering, asc: bool): Ordering {
    if asc then c else Reverse(c)
  }

  /** `compare_rows`: lexicographic over the sort's columns. */
  function CompareRows(sort: Sort, x: Row, y: Row): Ordering {
    if sort == [] then Equal
    else
      var c := Directed(CompareValues(Col(x, sort[0].0), Col(y, sort[0].0)), sort[0].1);
      if c.Equal? then CompareRows(sort[1..], x, y) else c
  }

  /** `full_row_equal`: every column, `null == null`. */
  predicate FullRowEqual(x: Row, y: Row) {
    |x| == |y| && forall i :: 0 <= i < |x| ==> CompareValues(x[i], y[i]).Equal?
  }

  // ---- laws ----

  lemma {:induction false} BytesLaws(x: seq<Byte>, y: seq<Byte>)
    ensures CompareBytes(x, y).Equal? <==> x == y
    ensures CompareBytes(y, x) == Reverse(CompareBytes(x, y))
  {
    if x != [] && y != [] && x[0] == y[0] {
      BytesLaws(x[1..], y[1..]);
      assert x == [x[0]] + x[1..] && y == [y[0]] + y[1..];
    }
  }

  lemma {:induction false} BytesTransitive(x: seq<Byte>, y: seq<Byte>, z: seq<Byte>)
    requires CompareBytes(x, y).Less? && CompareBytes(y, z).Less?
    ensures CompareBytes(x, z).Less?
  {
    if x != [] && x[0] == y[0] == z[0] {
      BytesTransitive(x[1..], y[1..], z[1..]);
    }
  }

  // ---- one number line ----

  /** The place of a number: beyond the infinities or between them, its value in units, and on
      which side of zero it stands. */
  type Place = (int, int, int)

  function WholePlace(i: int): Place {
    (0, i * One(), if i < 0 then 0 else 1)
  }

  function RealPlace(f: Double): Place {
    var sign := if f.neg then -1 else 1;
    var side := if f.neg then 0 else 1;
    if IsNan(f) then (2 * sign, sign * f.mag, side)
    else if IsFinite(f) then (0, sign * Units(f.mag), side)
    else (sign, 0, side)
  }

  function PlaceOf(n: Number): Place {
    match n case Whole(i) => WholePlace(i) case Real(f) => RealPlace(f)
  }

  function ComparePlaces(a: Place, b: Place): Ordering {
    if a.0 != b.0 then CompareInts(a.0, b.0)
    else if a.1 != b.1 then CompareInts(a.1, b.1)
    else CompareInts(a.2, b.2)
  }

  lemma UnitsStep(m: nat)
    ensures Units(m) < Units(m + 1)
  {
    var (e, f) := (m / P52, m % P52);
    if m >= P52 {
      var p := Pow2(e - 1);
      if f + 1 < P52 {
        assert (m + 1) / P52 == e && (m + 1) % P52 == f + 1;
        assert (P52 + f + 1) * p == (P52 + f) * p + p;
      } else {
        assert (m + 1) / P52 == e + 1 && (m + 1) % P52 == 0;
        assert P52 * (2 * p) == (P52 + f) * p + p;
      }
    }
  }

  /** The bits of positive doubles are in the order of their values. */
  lemma {:induction false} UnitsGrow(m: nat, n: nat)
    requires m < n
    ensures Units(m) < Units(n)
    decreases n - m
  {
    UnitsStep(m);
    if m + 1 < n { UnitsGrow(m + 1, n); }
  }

  lemma UnitsOrder(m: nat, n: nat)
    ensures CompareInts(Units(m), Units(n)) == CompareInts(m, n)
  {
    if m < n { UnitsGrow(m, n); } else if n < m { UnitsGrow(n, m); }
  }

  lemma RealOrder(a: Double, b: Double)
    ensures TotalCmp(a, b) == ComparePlaces(RealPlace(a), RealPlace(b))
  {
    UnitsOrder(a.mag, b.mag);
    UnitsOrder(0, a.mag);
    UnitsOrder(0, b.mag);
    hide Units;
  }

  /** Comparing with the whole part first and the fraction second is comparing exactly. */
  lemma WholeAndRest(x: int, u: nat, one: nat)
    requires one > 0
    ensures x < u / one ==> x * one < u
    ensures x > u / one ==> x * one > u
    ensures x == u / one ==> u - x * one == u % one
  {
    var (q, r) := (u / one, u % one);
    assert u == q * one + r;
    if x < q { assert x * one <= (q - 1) * one == q * one - one; }
    if x > q { assert x * one >= (q + 1) * one == q * one + one; }
  }

  lemma MixedOrder(x: I64, y: Double)
    ensures CompareIntFloat(x, y) == ComparePlaces(WholePlace(x), RealPlace(y))
  {
    hide Units;
    hide One;
    var (u, one) := (Units(y.mag), One());
    Scaled(x, P63, one);
    Scaled(-P63, x, one);
    Scaled(x, 0, one);
    Scaled(0, x, one);
    if y.neg {
      WholeAndRest(-(x as int), u, one);
      assert -(x as int) * one == -(x * one);
    } else {
      WholeAndRest(x, u, one);
    }
  }

  lemma Scaled(x: int, y: int, one: nat)
    requires one > 0
    ensures x < y ==> x * one < y * one
    ensures x <= y ==> x * one <= y * one
  {
  }

  /** The four arms of numeric comparison are one exact order. */
  lemma NumberOrder(x: Number, y: Number)
    ensures CompareNumbers(x, y) == ComparePlaces(PlaceOf(x), PlaceOf(y))
  {
    hide CompareIntFloat;
    hide TotalCmp;
    hide RealPlace;
    hide One;
    match (x, y) {
      case (Whole(a), Whole(b)) => Scaled(a, b, One()); Scaled(b, a, One());
      case (Whole(a), Real(b)) => MixedOrder(a, b);
      case (Real(a), Whole(b)) => MixedOrder(b, a);
      case (Real(a), Real(b)) => RealOrder(a, b);
    }
  }

  /** A double has the class of an integer exactly when it compares equal to it. */
  lemma ClassIff(f: Double, i: I64)
    ensures FloatIntClass(f) == Some(i) <==> CompareIntFloat(i, f).Equal?
  {
    hide Units;
    hide One;
    WholeAndRest(if f.neg then -(i as int) else i, Units(f.mag), One());
  }

  lemma ClassRange(f: Double)
    ensures FloatIntClass(f).Some? ==> -P63 <= FloatIntClass(f).value < P63
  {
    hide Units;
    hide One;
    WholeAndRest(P63, Units(f.mag), One());
  }

  lemma {:induction false} Pow2Add(m: nat, n: nat)
    ensures Pow2(m + n) == Pow2(m) * Pow2(n)
  {
    if m > 0 { Pow2Add(m - 1, n); }
  }

  lemma Pow2Values()
    ensures Pow2(52) == P52 && Pow2(63) == P63
  {
    assert Pow2(13) == 0x2000 && Pow2(11) == 0x800;
    Pow2Add(13, 13);
    Pow2Add(26, 26);
    Pow2Add(52, 11);
  }

  lemma {:induction false} Pow2Less(m: nat, n: nat)
    requires m < n
    ensures Pow2(m) < Pow2(n)
  {
    if m + 1 < n { Pow2Less(m, n - 1); }
  }

  lemma PowerUnits(k: nat)
    ensures Units((1023 + k) * P52) == Pow2(k) * One()
  {
    hide Pow2;
    var m := (1023 + k) * P52;
    assert m / P52 == 1023 + k && m % P52 == 0;
    Pow2Values();
    Pow2Add(52, 1022 + k);
    Pow2Add(k, 1074);
  }

  /** The unit is the right one: every power of two is a double of that class. */
  lemma PowersExact(k: nat)
    requires k < 63
    ensures FloatIntClass(Double(false, (1023 + k) * P52)) == Some(Pow2(k))
  {
    hide Units;
    hide One;
    hide Pow2;
    var (u, p) := (Units((1023 + k) * P52), Pow2(k));
    PowerUnits(k);
    Pow2Values();
    Pow2Less(k, 63);
    Scaled(p, P63, One());
    Scaled(0, p, One());
    WholeAndRest(p, u, One());
    WholeAndRest(u / One(), u, One());
  }

  /** The cell of a stored number. */
  function CellOf(n: Number): Value {
    match n
    case Whole(i) => Int(i)
    case Real(f) =>
      ClassRange(f);
      if FloatIntClass(f).Some? then Int(FloatIntClass(f).value) else Float(f)
  }

  function NumberOf(v: Value): Number
    requires v.Int? || v.Float?
  {
    if v.Int? then Whole(v.i) else Real(v.f)
  }

  lemma CellPlace(n: Number)
    ensures CellOf(n).Int? || CellOf(n).Float?
    ensures PlaceOf(NumberOf(CellOf(n))) == PlaceOf(n)
  {
    hide FloatIntClass;
    hide CompareIntFloat;
    hide RealPlace;
    hide WholePlace;
    if n.Real? {
      ClassRange(n.f);
      if FloatIntClass(n.f).Some? {
        ClassIff(n.f, FloatIntClass(n.f).value);
        MixedOrder(FloatIntClass(n.f).value, n.f);
      }
    }
  }

  /** Comparing stored numbers is comparing their cells. */
  lemma CellOrder(x: Number, y: Number)
    ensures CompareNumbers(x, y) == CompareValues(CellOf(x), CellOf(y))
  {
    hide PlaceOf;
    CellPlace(x);
    CellPlace(y);
    NumberOrder(x, y);
    NumberOrder(NumberOf(CellOf(x)), NumberOf(CellOf(y)));
    hide CellOf;
    hide CompareIntFloat;
    hide TotalCmp;
  }

  /** Distinct cells have distinct places. */
  lemma PlaceIsCell(x: Value, y: Value)
    requires (x.Int? || x.Float?) && (y.Int? || y.Float?)
    ensures PlaceOf(NumberOf(x)) == PlaceOf(NumberOf(y)) <==> x == y
  {
    hide CompareIntFloat;
    hide FloatIntClass;
    hide RealPlace;
    hide One;
    match (x, y) {
      case (Int(a), Int(b)) => Scaled(a, b, One()); Scaled(b, a, One());
      case (Int(a), Float(b)) => MixedOrder(a, b); ClassIff(b, a);
      case (Float(a), Int(b)) => MixedOrder(b, a); ClassIff(a, b);
      case (Float(a), Float(b)) => RealOrder(a, b);
      case _ =>
    }
  }

  lemma NumberLaws(x: Value, y: Value)
    requires (x.Int? || x.Float?) && (y.Int? || y.Float?)
    ensures CompareValues(x, y).Equal? <==> x == y
    ensures CompareValues(y, x) == Reverse(CompareValues(x, y))
  {
    hide *;
    var (a, b) := (NumberOf(x), NumberOf(y));
    NumbersCompare(x, y);
    NumbersCompare(y, x);
    NumberOrder(a, b);
    NumberOrder(b, a);
    PlaceIsCell(x, y);
    PlaceLaws(PlaceOf(a), PlaceOf(b));
  }

  lemma NumbersCompare(x: Value, y: Value)
    requires (x.Int? || x.Float?) && (y.Int? || y.Float?)
    ensures CompareValues(x, y) == CompareNumbers(NumberOf(x), NumberOf(y))
  {
    hide CompareIntFloat;
    hide TotalCmp;
  }

  lemma PlaceLaws(a: Place, b: Place)
    ensures ComparePlaces(a, b).Equal? <==> a == b
    ensures ComparePlaces(b, a) == Reverse(ComparePlaces(a, b))
  {
  }

  /** On cells, comparing equal is being equal, and swapping the arguments reverses the result. */
  lemma ValueLaws(x: Value, y: Value)
    ensures CompareValues(x, y).Equal? <==> x == y
    ensures CompareValues(y, x) == Reverse(CompareValues(x, y))
  {
    hide CompareIntFloat;
    hide TotalCmp;
    hide CompareBytes;
    if (x.Int? || x.Float?) && (y.Int? || y.Float?) {
      NumberLaws(x, y);
    } else if x.Str? && y.Str? {
      BytesLaws(x.bytes, y.bytes);
    } else if x.Json? && y.Json? {
      BytesLaws(x.text, y.text);
    }
  }

  lemma ValueTransitive(x: Value, y: Value, z: Value)
    requires CompareValues(x, y).Less? && CompareValues(y, z).Less?
    ensures CompareValues(x, z).Less?
  {
    hide PlaceOf;
    hide CompareIntFloat;
    hide TotalCmp;
    if TypeRank(x) == TypeRank(y) == TypeRank(z) {
      if x.Str? {
        BytesTransitive(x.bytes, y.bytes, z.bytes);
      } else if x.Json? {
        BytesTransitive(x.text, y.text, z.text);
      } else if x.Int? || x.Float? {
        NumberOrder(NumberOf(x), NumberOf(y));
        NumberOrder(NumberOf(y), NumberOf(z));
        NumberOrder(NumberOf(x), NumberOf(z));
      }
    }
  }

  // ---- the order itself, said without the comparators ----

  /** Byte order: a proper prefix first, else the first byte that differs decides. */
  ghost predicate BytesBefore(x: seq<Byte>, y: seq<Byte>) {
    || (|x| < |y| && y[..|x|] == x)
    || exists i :: 0 <= i < |x| && i < |y| && x[..i] == y[..i] && x[i] < y[i]
  }

  lemma {:induction false} BytesOrder(x: seq<Byte>, y: seq<Byte>)
    ensures CompareBytes(x, y).Less? <==> BytesBefore(x, y)
  {
    if x == [] {
      assert y[..0] == [];
    } else if y != [] && x[0] == y[0] {
      BytesOrder(x[1..], y[1..]);
      BytesBeforeTail(x, y);
    } else if y != [] {
      assert x[..0] == y[..0];
      assert x[0] < y[0] ==> BytesBefore(x, y);
      forall i | 0 < i < |x| && i < |y| ensures x[..i] != y[..i] { assert x[..i][0] != y[..i][0]; }
      assert |x| < |y| ==> y[..|x|][0] != x[0];
    }
  }

  lemma BytesBeforeTail(x: seq<Byte>, y: seq<Byte>)
    requires x != [] && y != [] && x[0] == y[0]
    ensures BytesBefore(x, y) <==> BytesBefore(x[1..], y[1..])
  {
    var (a, b) := (x[1..], y[1..]);
    assert x == [x[0]] + a && y == [y[0]] + b;
    if |x| < |y| { assert y[..|x|] == [y[0]] + b[..|a|]; }
    forall i | 0 <= i < |a| && i < |b| ensures x[..i + 1] == y[..i + 1] <==> a[..i] == b[..i] {
      assert x[..i + 1] == [x[0]] + a[..i] && y[..i + 1] == [y[0]] + b[..i];
      assert x[..i + 1][1..] == a[..i] && y[..i + 1][1..] == b[..i];
    }
    if |a| < |b| && b[..|a|] != a { assert y[..|x|][1..] == b[..|a|]; }
    if i :| 0 <= i < |a| && i < |b| && a[..i] == b[..i] && a[i] < b[i] {
      assert x[i + 1] < y[i + 1];
    }
    if i :| 0 <= i < |x| && i < |y| && x[..i] == y[..i] && x[i] < y[i] {
      assert a[i - 1] < b[i - 1];
    }
  }

  /** One number before another: below it in value, minus zero below zero, minus NaN first and NaN
      last, the infinities next to them. */
  ghost predicate NumberBefore(x: Number, y: Number) {
    var (a, b) := (PlaceOf(x), PlaceOf(y));
    a.0 < b.0 || (a.0 == b.0 && (a.1 < b.1 || (a.1 == b.1 && a.2 < b.2)))
  }

  /** The order of cells: absent, null, booleans, numbers, strings, JSON. */
  ghost predicate CellBefore(x: Value, y: Value) {
    match x
    case Absent => !y.Absent?
    case Null => !y.Absent? && !y.Null?
    case Bool(a) => (y.Bool? && !a && y.b) || y.Int? || y.Float? || y.Str? || y.Json?
    case Int(a) => (y.Int? && a < y.i) || (y.Float? && NumberBefore(Whole(a), Real(y.f))) || y.Str? || y.Json?
    case Float(a) => ((y.Int? || y.Float?) && NumberBefore(Real(a), NumberOf(y))) || y.Str? || y.Json?
    case Str(a) => (y.Str? && BytesBefore(a, y.bytes)) || y.Json?
    case Json(a) => y.Json? && BytesBefore(a, y.text)
  }

  lemma NumberOrderIs(x: Number, y: Number)
    ensures CompareNumbers(x, y).Less? <==> NumberBefore(x, y)
    ensures x.Whole? && y.Whole? ==> (NumberBefore(x, y) <==> x.i < y.i)
  {
    hide PlaceOf;
    hide CompareIntFloat;
    hide TotalCmp;
    NumberOrder(x, y);
  }

  /** `compare_values` is that order. */
  lemma CellOrderIs(x: Value, y: Value)
    ensures CompareValues(x, y).Less? <==> CellBefore(x, y)
    ensures CompareValues(x, y).Greater? <==> CellBefore(y, x)
  {
    CellLess(x, y);
    CellLess(y, x);
    ValueLaws(x, y);
    hide CompareValues;
    hide CellBefore;
  }

  lemma CellLess(x: Value, y: Value)
    ensures CompareValues(x, y).Less? <==> CellBefore(x, y)
  {
    hide NumberBefore;
    hide BytesBefore;
    hide CompareIntFloat;
    hide TotalCmp;
    if (x.Int? || x.Float?) && (y.Int? || y.Float?) {
      NumberOrderIs(NumberOf(x), NumberOf(y));
    } else if x.Str? && y.Str? {
      BytesOrder(x.bytes, y.bytes);
    } else if x.Json? && y.Json? {
      BytesOrder(x.text, y.text);
    }
  }

  /** The two equalities: join equality is sameness of cells that are there and not null,
      predicate identity is sameness. */
  lemma EqualitiesAre(x: Value, y: Value)
    ensures ValuesEqual(x, y) <==> x == y && !x.Null? && !x.Absent?
    ensures ValuesIdentical(x, y) <==> x == y
  {
    ValueLaws(x, y);
  }

  /** One row before another in a sort: the first sort column on which they differ decides, the
      smaller cell first when it ascends and the larger one first when it descends. */
  ghost predicate RowBefore(sort: Sort, x: Row, y: Row) {
    exists i :: 0 <= i < |sort| && DecidedAt(sort, x, y, i)
  }

  ghost predicate DecidedAt(sort: Sort, x: Row, y: Row, i: nat)
    requires i < |sort|
  {
    && (forall k :: 0 <= k < i ==> Col(x, sort[k].0) == Col(y, sort[k].0))
    && var (a, b) := (Col(x, sort[i].0), Col(y, sort[i].0));
      if sort[i].1 then CellBefore(a, b) else CellBefore(b, a)
  }

  /** `compare_rows` is that order. */
  lemma {:induction false} RowOrderIs(sort: Sort, x: Row, y: Row)
    ensures CompareRows(sort, x, y).Less? <==> RowBefore(sort, x, y)
  {
    if sort != [] {
      var (a, b, rest) := (Col(x, sort[0].0), Col(y, sort[0].0), sort[1..]);
      hide CellBefore;
      hide CompareValues;
      CellOrderIs(a, b);
      ValueLaws(a, b);
      RowOrderIs(rest, x, y);
      forall i | 0 <= i < |rest| ensures DecidedAt(sort, x, y, i + 1) <==> a == b && DecidedAt(rest, x, y, i) {
        DecidedLater(sort, x, y, i);
      }
      if a == b {
        if RowBefore(rest, x, y) {
          var i :| 0 <= i < |rest| && DecidedAt(rest, x, y, i);
          assert DecidedAt(sort, x, y, i + 1);
        }
        if RowBefore(sort, x, y) {
          var i :| 0 <= i < |sort| && DecidedAt(sort, x, y, i);
          assert i > 0 && DecidedAt(rest, x, y, i - 1);
        }
      } else {
        assert DecidedAt(sort, x, y, 0) <==> if sort[0].1 then CellBefore(a, b) else CellBefore(b, a);
      }
    }
  }

  lemma DecidedLater(sort: Sort, x: Row, y: Row, i: nat)
    requires i + 1 < |sort|
    ensures DecidedAt(sort, x, y, i + 1)
      <==> Col(x, sort[0].0) == Col(y, sort[0].0) && DecidedAt(sort[1..], x, y, i)
  {
    hide CellBefore;
    var rest := sort[1..];
    assert forall k :: 0 <= k < |rest| ==> rest[k] == sort[k + 1];
    if Col(x, sort[0].0) == Col(y, sort[0].0) && DecidedAt(rest, x, y, i) {
      forall k | 0 <= k < i + 1 ensures Col(x, sort[k].0) == Col(y, sort[k].0) {
        if k > 0 { assert Col(x, rest[k - 1].0) == Col(y, rest[k - 1].0); }
      }
    }
    if DecidedAt(sort, x, y, i + 1) {
      forall k | 0 <= k < i ensures Col(x, rest[k].0) == Col(y, rest[k].0) {
        assert Col(x, sort[k + 1].0) == Col(y, sort[k + 1].0);
      }
    }
  }

  /** Full-width comparison finds exactly the identical rows. */
  lemma FullRowEqualIsEquality(x: Row, y: Row)
    ensures FullRowEqual(x, y) <==> x == y
  {
    forall i | 0 <= i < |x| && |x| == |y|
      ensures CompareValues(x[i], y[i]).Equal? <==> x[i] == y[i]
    {
      ValueLaws(x[i], y[i]);
    }
    if FullRowEqual(x, y) {
      assert forall i :: 0 <= i < |x| ==> CompareValues(x[i], y[i]).Equal?;
    }
  }

  predicate SameSortKey(sort: Sort, x: Row, y: Row) {
    forall c :: c in sort ==> Col(x, c.0) == Col(y, c.0)
  }

  lemma {:induction false} RowLaws(sort: Sort, x: Row, y: Row)
    ensures CompareRows(sort, x, y).Equal? <==> SameSortKey(sort, x, y)
    ensures CompareRows(sort, y, x) == Reverse(CompareRows(sort, x, y))
  {
    if sort != [] {
      ValueLaws(Col(x, sort[0].0), Col(y, sort[0].0));
      RowLaws(sort[1..], x, y);
      assert sort == [sort[0]] + sort[1..];
    }
  }

  lemma {:induction false} RowTransitive(sort: Sort, x: Row, y: Row, z: Row)
    requires !CompareRows(sort, x, y).Greater? && !CompareRows(sort, y, z).Greater?
    requires CompareRows(sort, x, y).Less? || CompareRows(sort, y, z).Less?
    ensures CompareRows(sort, x, z).Less?
  {
    var (c, asc) := sort[0];
    var (u, v, w) := (Col(x, c), Col(y, c), Col(z, c));
    ValueLaws(u, v); ValueLaws(v, w); ValueLaws(u, w);
    if u == v == w {
      RowTransitive(sort[1..], x, y, z);
    } else if u != v && v != w {
      if asc { ValueTransitive(u, v, w); } else { ValueTransitive(w, v, u); }
    }
  }
}
