/** The value comparison behind value conditions. Doubles are reals here, an integer becomes
    the nearest of them, and the text of a floating-point value is a parameter. */
module ValueOrder {
  import opened Arithmetic
  import opened Bytes

  datatype IntType = Int8 | Int16 | Int32 | Int64 | UInt8 | UInt16 | UInt32 | UInt64

  datatype Value =
    | Empty
    | Bool(b: bool)
    | Integer(width: IntType, n: int)
    | Float32(f: real)
    | Float64(d: real)
    | Text(chars: seq<byte>)
    | Binary(octets: seq<byte>)

  datatype Type = EmptyType | BoolType | IntegerType(width: IntType) | Float32Type | Float64Type | TextType | BinaryType

  /** What %g makes of a double. */
  type Printer = real -> seq<byte>

  function TypeOf(v: Value): Type {
    match v
    case Empty => EmptyType
    case Bool(_) => BoolType
    case Integer(w, _) => IntegerType(w)
    case Float32(_) => Float32Type
    case Float64(_) => Float64Type
    case Text(_) => TextType
    case Binary(_) => BinaryType
  }

  predicate IsNumeric(v: Value) {
    v.Integer? || v.Float32? || v.Float64?
  }

  predicate Fits(w: IntType, n: int) {
    match w
    case Int8 => -0x80 <= n < 0x80
    case Int16 => -0x8000 <= n < 0x8000
    case Int32 => -0x8000_0000 <= n < 0x8000_0000
    case Int64 => -0x8000_0000_0000_0000 <= n < 0x8000_0000_0000_0000
    case UInt8 => 0 <= n < 0x100
    case UInt16 => 0 <= n < 0x1_0000
    case UInt32 => 0 <= n < 0x1_0000_0000
    case UInt64 => 0 <= n < 0x1_0000_0000_0000_0000
  }

  predicate InRange(v: Value) {
    v.Integer? ==> Fits(v.width, v.n)
  }

  lemma Ranges(n: int)
    ensures Fits(Int8, n) <==> -128 <= n <= 127
    ensures Fits(Int16, n) <==> -32768 <= n <= 32767
    ensures Fits(Int32, n) <==> -2147483648 <= n <= 2147483647
    ensures Fits(Int64, n) <==> -9223372036854775808 <= n <= 9223372036854775807
    ensures Fits(UInt8, n) <==> 0 <= n <= 255
    ensures Fits(UInt16, n) <==> 0 <= n <= 65535
    ensures Fits(UInt32, n) <==> 0 <= n <= 4294967295
    ensures Fits(UInt64, n) <==> 0 <= n <= 18446744073709551615
  {
  }

  // ------------------------------------------------------- doubles and text of values

  /** Every integer up to here is a double, and the next one is not. */
  const LAST_EXACT: int := 0x20_0000_0000_0000

  /** The distance of the doubles around n: the least power of two above n / 2^53. */
  function Unit(n: nat): (u: nat)
    ensures u > 0
  {
    if n < LAST_EXACT then 1 else 2 * Unit(n / 2)
  }

  /** The double nearest to n, of two equally near the one with the even significand. */
  function NearestNat(n: nat): nat {
    Round(n / Unit(n), n % Unit(n), Unit(n))
  }

  function Round(q: nat, r: nat, u: nat): nat {
    if 2 * r < u || (2 * r == u && q % 2 == 0) then q * u else (q + 1) * u
  }

  function Nearest(n: int): int {
    if n < 0 then -(NearestNat(-n) as int) else NearestNat(n)
  }

  /** value_to_double. */
  function ToDouble(v: Value): real {
    match v
    case Integer(_, n) => Nearest(n) as real
    case Float32(f) => f
    case Float64(d) => d
    case _ => 0.0
  }

  function Digits(n: nat): seq<byte> {
    if n < 10 then [48 + n] else Digits(n / 10) + [48 + n % 10]
  }

  function Decimal(n: int): seq<byte> {
    if n < 0 then [45] + Digits(-n) else Digits(n)
  }

  const TRUE: seq<byte> := [116, 114, 117, 101]
  const FALSE: seq<byte> := [102, 97, 108, 115, 101]

  /** value_to_string. */
  function ToText(p: Printer, v: Value): seq<byte> {
    match v
    case Empty => []
    case Bool(b) => if b then TRUE else FALSE
    case Integer(_, n) => Decimal(n)
    case Float32(f) => p(f)
    case Float64(d) => p(d)
    case Text(chars) => chars
    case Binary(octets) => octets
  }

  /** Lexicographic order of octets. */
  predicate Less(a: seq<byte>, b: seq<byte>) {
    b != [] && (a == [] || a[0] < b[0] || (a[0] == b[0] && Less(a[1..], b[1..])))
  }

  function Sign(equal: bool, less: bool): int {
    if equal then 0 else if less then -1 else 1
  }

  predicate Within(a: real, b: real, tolerance: real) {
    -tolerance < a - b < tolerance
  }

  function CompareReals(a: real, b: real, tolerance: real): int {
    Sign(Within(a, b, tolerance), a < b)
  }

  /** compare_values. */
  function Compare(p: Printer, a: Value, b: Value): int {
    if TypeOf(a) != TypeOf(b) then
      if IsNumeric(a) && IsNumeric(b) then CompareReals(ToDouble(a), ToDouble(b), 0.000000001)
      else Sign(ToText(p, a) == ToText(p, b), Less(ToText(p, a), ToText(p, b)))
    else match a
      case Empty => 0
      case Bool(x) => Sign(x == b.b, !x)
      case Integer(_, x) => Sign(x == b.n, x < b.n)
      case Float32(x) => CompareReals(x, b.f, 0.000001)
      case Float64(x) => CompareReals(x, b.d, 0.000000001)
      case Text(x) => Sign(x == b.chars, Less(x, b.chars))
      case Binary(x) =>
        if |x| != |b.octets| then Sign(false, |x| < |b.octets|)
        else Sign(x == b.octets, Less(x, b.octets))
  }

  // ----------------------------------------------------------- laws of all pairs

  lemma {:induction false} LessTrichotomy(a: seq<byte>, b: seq<byte>)
    ensures !(Less(a, b) && Less(b, a)) && !Less(a, a)
    ensures Less(a, b) || Less(b, a) <==> a != b
    decreases |a|
  {
    if a != [] {
      LessTrichotomy(a[1..], if b != [] then b[1..] else []);
      assert a == [a[0]] + a[1..] && (b != [] ==> b == [b[0]] + b[1..]);
    }
  }

  lemma {:induction false} LessTransitive(a: seq<byte>, b: seq<byte>, c: seq<byte>)
    requires Less(a, b) && Less(b, c)
    ensures Less(a, c)
    decreases |a|
  {
    if a != [] && a[0] == b[0] == c[0] {
      LessTransitive(a[1..], b[1..], c[1..]);
    }
  }

  /** The sign turns when the sides are swapped, for every pair of values of any types,
      so each value equals itself. */
  lemma Antisymmetric(p: Printer, a: Value, b: Value)
    ensures Compare(p, a, b) == -Compare(p, b, a)
  {
    LessTrichotomy(ToText(p, a), ToText(p, b));
    if a.Text? && b.Text? {
      LessTrichotomy(a.chars, b.chars);
    }
    if a.Binary? && b.Binary? {
      LessTrichotomy(a.octets, b.octets);
    }
    hide Less;
  }

  lemma Reflexive(p: Printer, a: Value)
    ensures Compare(p, a, a) == 0
  {
    Antisymmetric(p, a, a);
  }

  datatype Operator = EQUAL | NOT_EQUAL | LESS_THAN | LESS_EQUAL | GREATER_THAN | GREATER_EQUAL

  /** ValueCondition::evaluate for the comparing operators. */
  predicate Evaluate(p: Printer, op: Operator, value: Value, reference: Value) {
    var r := Compare(p, value, reference);
    match op
    case EQUAL => r == 0
    case NOT_EQUAL => r != 0
    case LESS_THAN => r < 0
    case LESS_EQUAL => r <= 0
    case GREATER_THAN => r > 0
    case GREATER_EQUAL => r >= 0
  }

  function Mirrored(op: Operator): Operator {
    match op
    case LESS_THAN => GREATER_THAN
    case LESS_EQUAL => GREATER_EQUAL
    case GREATER_THAN => LESS_THAN
    case GREATER_EQUAL => LESS_EQUAL
    case _ => op
  }

  function Opposite(op: Operator): Operator {
    match op
    case EQUAL => NOT_EQUAL
    case NOT_EQUAL => EQUAL
    case LESS_THAN => GREATER_EQUAL
    case LESS_EQUAL => GREATER_THAN
    case GREATER_THAN => LESS_EQUAL
    case GREATER_EQUAL => LESS_THAN
  }

  /** The six operators fit together on every pair: an operator holds exactly when its
      opposite does not and when its mirror image holds the other way round, and exactly
      one of less, equal and greater holds. */
  lemma OperatorsAgree(p: Printer, op: Operator, a: Value, b: Value)
    ensures Evaluate(p, op, a, b) <==> !Evaluate(p, Opposite(op), a, b)
    ensures Evaluate(p, op, a, b) <==> Evaluate(p, Mirrored(op), b, a)
    ensures Evaluate(p, LESS_EQUAL, a, b) <==> Evaluate(p, LESS_THAN, a, b) || Evaluate(p, EQUAL, a, b)
    ensures !(Evaluate(p, LESS_THAN, a, b) && Evaluate(p, LESS_THAN, b, a))
    ensures Evaluate(p, EQUAL, a, a)
  {
    Antisymmetric(p, a, b);
    Reflexive(p, a);
    hide Compare;
  }

  // --------------------------------------------------- order within and across types

  /** <= is transitive on the values of a type, and equal values are the same value. */
  ghost predicate IsTotalOrder(p: Printer, t: Type) {
    && (forall x, y, z | TypeOf(x) == TypeOf(y) == TypeOf(z) == t
                         && Evaluate(p, LESS_EQUAL, x, y) && Evaluate(p, LESS_EQUAL, y, z)
          :: Evaluate(p, LESS_EQUAL, x, z))
    && (forall x, y | TypeOf(x) == TypeOf(y) == t && Evaluate(p, EQUAL, x, y) :: x == y)
  }

  predicate IsFloat(t: Type) {
    t.Float32Type? || t.Float64Type?
  }

  lemma Transitive(p: Printer, x: Value, y: Value, z: Value)
    requires TypeOf(x) == TypeOf(y) == TypeOf(z) && !IsFloat(TypeOf(x))
    requires Compare(p, x, y) <= 0 && Compare(p, y, z) <= 0
    ensures Compare(p, x, z) <= 0
  {
    match x
    case Text(s) => TransitiveOctets(s, y.chars, z.chars);
    case Binary(s) => TransitiveOctets(s, y.octets, z.octets);
    case _ =>
  }

  lemma TransitiveOctets(x: seq<byte>, y: seq<byte>, z: seq<byte>)
    ensures (x == y || Less(x, y)) && (y == z || Less(y, z)) ==> x == z || Less(x, z)
  {
    if Less(x, y) && Less(y, z) {
      LessTransitive(x, y, z);
    }
  }

  /** x is at most y and y at most z, but x is not at most z. */
  predicate Drifts(p: Printer, x: Value, y: Value, z: Value) {
    && InRange(x) && InRange(y) && InRange(z)
    && Evaluate(p, LESS_EQUAL, x, y) && Evaluate(p, LESS_EQUAL, y, z) && !Evaluate(p, LESS_EQUAL, x, z)
  }

  /** The tolerances break transitivity: three values a little more than half of one
      tolerance apart. */
  lemma ToleranceDrifts(p: Printer)
    ensures Drifts(p, Float32(0.0000012), Float32(0.0000006), Float32(0.0))
    ensures Drifts(p, Float64(0.0000000012), Float64(0.0000000006), Float64(0.0))
  {
  }

  /** Main result: the comparison is a total order on the values of a type exactly when
      the type is not a floating-point one. */
  lemma TotalOrderWithinType(p: Printer, t: Type)
    ensures IsTotalOrder(p, t) <==> !IsFloat(t)
  {
    if IsFloat(t) {
      ToleranceDrifts(p);
    } else {
      forall x, y, z | TypeOf(x) == TypeOf(y) == TypeOf(z) == t && Compare(p, x, y) <= 0 && Compare(p, y, z) <= 0
        ensures Compare(p, x, z) <= 0
      {
        Transitive(p, x, y, z);
      }
      forall x, y | TypeOf(x) == TypeOf(y) == t && Compare(p, x, y) == 0
        ensures x == y
      {
        EqualIsSame(p, x, y);
      }
      hide Compare;
    }
  }

  lemma EqualIsSame(p: Printer, x: Value, y: Value)
    requires TypeOf(x) == TypeOf(y) && !IsFloat(TypeOf(x)) && Compare(p, x, y) == 0
    ensures x == y
  {
    hide Less;
  }

  // ------------------------------------------------------- the doubles of integers

  /** Integers that a double holds. */
  predicate IsDouble(n: nat) {
    n % Unit(n) == 0
  }

  /** The significand of a large integer has exactly 53 bits. */
  lemma {:induction false} UnitBounds(n: nat)
    ensures n < LAST_EXACT * Unit(n)
    ensures n >= LAST_EXACT ==> LAST_EXACT / 2 * Unit(n) <= n
    ensures n < LAST_EXACT <==> Unit(n) == 1
  {
    if n >= LAST_EXACT {
      UnitBounds(n / 2);
    }
  }

  lemma Significand(n: nat)
    ensures n / Unit(n) < LAST_EXACT
    ensures Unit(n) > 1 ==> LAST_EXACT / 2 <= n / Unit(n)
  {
    hide Unit;
    UnitBounds(n);
    QuotientBounds(n, Unit(n), LAST_EXACT);
    QuotientBounds(n, Unit(n), LAST_EXACT / 2);
  }

  lemma Doubled(k: nat, u: nat)
    ensures 2 * (k * u) == k * (2 * u)
  {
  }

  lemma {:induction false} UnitDivides(m: nat, n: nat) returns (k: nat)
    requires m <= n
    ensures k > 0 && Unit(n) == k * Unit(m)
  {
    if m < LAST_EXACT {
      k := Unit(n);
    } else {
      k := UnitDivides(m / 2, n / 2);
      Doubled(k, Unit(m / 2));
    }
  }

  lemma Parts(n: nat, u: nat)
    requires u > 0
    ensures n == n / u * u + n % u && n % u < u
  {
  }

  lemma QuotientsMonotone(m: nat, n: nat, u: nat)
    requires u > 0 && m <= n
    ensures m / u <= n / u && (m / u == n / u ==> m % u <= n % u)
  {
    Parts(m, u);
    Parts(n, u);
    var p, q := m / u, n / u;
    if q < p {
      MulMonotone(q + 1, p, u);
    }
  }

  lemma RoundBetween(q: nat, r: nat, u: nat)
    ensures q * u <= Round(q, r, u) <= (q + 1) * u
  {
    MulMonotone(q, q + 1, u);
  }

  lemma RoundMonotone(p: nat, r: nat, q: nat, s: nat, u: nat)
    requires p < q || (p == q && r <= s)
    ensures Round(p, r, u) <= Round(q, s, u)
  {
    if p < q {
      hide Round;
      RoundBetween(p, r, u);
      RoundBetween(q, s, u);
      MulMonotone(p + 1, q, u);
    } else {
      MulMonotone(p, p + 1, u);
    }
  }

  lemma QuotientBounds(n: nat, u: nat, k: nat)
    requires u > 0
    ensures n / u < k <==> n < k * u
  {
    Parts(n, u);
    if n / u < k {
      MulMonotone(n / u + 1, k, u);
    } else {
      MulMonotone(k, n / u, u);
    }
  }

  lemma RoundAcross(p: nat, r: nat, u: nat, q: nat, s: nat, v: nat)
    requires 2 * u <= v && p < LAST_EXACT && LAST_EXACT / 2 <= q
    ensures Round(p, r, u) <= Round(q, s, v)
  {
    hide Round;
    RoundBetween(p, r, u);
    RoundBetween(q, s, v);
    MulMonotone(p + 1, LAST_EXACT, u);
    MulMonotone(LAST_EXACT / 2, q, v);
  }

  lemma NearestNatMonotone(m: nat, n: nat)
    requires m <= n
    ensures NearestNat(m) <= NearestNat(n)
  {
    hide Unit, Round;
    var u, v := Unit(m), Unit(n);
    var k := UnitDivides(m, n);
    if k == 1 {
      QuotientsMonotone(m, n, u);
      RoundMonotone(m / u, m % u, n / u, n % u, u);
    } else {
      Significand(m);
      Significand(n);
      MulMonotone(2, k, u);
      RoundAcross(m / u, m % u, u, n / v, n % v, v);
    }
  }

  /** Rounding keeps the order of the integers. */
  lemma NearestMonotone(m: int, n: int)
    requires m <= n
    ensures Nearest(m) <= Nearest(n)
  {
    hide NearestNat;
    if m >= 0 {
      NearestNatMonotone(m, n);
    } else if n < 0 {
      NearestNatMonotone(-n, -m);
    }
  }

  lemma SmallIsExact(n: int)
    requires -LAST_EXACT <= n <= LAST_EXACT
    ensures Nearest(n) == n
  {
  }

  /** No double lies strictly between a number's neighbours. */
  lemma DoublesSkip(d: nat, n: nat)
    requires IsDouble(d)
    ensures d <= n / Unit(n) * Unit(n) || (n / Unit(n) + 1) * Unit(n) <= d
  {
    hide Unit;
    var u, v := Unit(n), Unit(d);
    Parts(d, v);
    if d <= n {
      var k := UnitDivides(d, n);
      if k == 1 {
        QuotientsMonotone(d, n, u);
        MulMonotone(d / u, n / u, u);
      } else {
        UnitBounds(d);
        Significand(n);
        MulMonotone(2, k, v);
        MulMonotone(LAST_EXACT / 2, n / u, u);
      }
    } else {
      var k := UnitDivides(n, d);
      Regrouped(d / v, k, u);
      QuotientBounds(n, u, d / v * k);
      if n / u < d / v * k {
        MulMonotone(n / u + 1, d / v * k, u);
      }
    }
  }

  lemma Regrouped(a: nat, b: nat, c: nat)
    ensures a * (b * c) == a * b * c
  {
  }

  /** Multiples of a distance with at most 53 bits, or the power of two after them. */
  lemma MultiplesAreDoubles(k: nat, n: nat)
    requires k <= LAST_EXACT
    ensures IsDouble(k * Unit(n))
  {
    hide Unit;
    var u := Unit(n);
    var m := k * u;
    var v := Unit(m);
    if m <= n {
      var j := UnitDivides(m, n);
      Regrouped(k, j, v);
      QuotientUnique(m, v, k * j, 0);
    } else {
      var j := UnitDivides(n, m);
      if j == 1 {
        QuotientUnique(m, v, k, 0);
      } else {
        MulMonotone(2, j, u);
        UnitBounds(m);
        MulMonotone(k, LAST_EXACT, u);
        QuotientUnique(m, v, LAST_EXACT / 2, 0);
      }
    }
  }

  function Distance(a: nat, b: nat): nat {
    if a < b then b - a else a - b
  }

  lemma RoundIsNearest(q: nat, r: nat, u: nat, d: nat)
    requires r < u && (d <= q * u || (q + 1) * u <= d)
    ensures Distance(Round(q, r, u), q * u + r) <= Distance(d, q * u + r)
  {
  }

  lemma NearestIsDouble(n: nat)
    ensures IsDouble(NearestNat(n))
  {
    hide Unit, IsDouble;
    Significand(n);
    MultiplesAreDoubles(n / Unit(n), n);
    MultiplesAreDoubles(n / Unit(n) + 1, n);
  }

  /** A number half way between two doubles goes to the one with the even significand. */
  lemma TiesToEven(n: nat)
    requires 2 * (n % Unit(n)) == Unit(n)
    ensures NearestNat(n) / Unit(n) % 2 == 0 && NearestNat(n) % Unit(n) == 0
  {
    hide Unit;
    var u, q := Unit(n), n / Unit(n);
    QuotientUnique(q * u, u, q, 0);
    QuotientUnique((q + 1) * u, u, q + 1, 0);
  }

  /** The rounded number is a double, and no double is nearer. */
  lemma NearestIsNearest(n: nat, d: nat)
    requires IsDouble(d)
    ensures IsDouble(NearestNat(n)) && Distance(NearestNat(n), n) <= Distance(d, n)
  {
    NearestIsDouble(n);
    hide Unit, IsDouble, Round, Distance;
    Parts(n, Unit(n));
    DoublesSkip(d, n);
    RoundIsNearest(n / Unit(n), n % Unit(n), Unit(n), d);
  }

  // ------------------------------------------------------------ order across types

  /** Integers of different widths are compared by their doubles: never against their
      numeric order, and equal exactly when they share a double. */
  lemma InexactIntegersMerge(p: Printer, v: IntType, w: IntType, m: int, n: int)
    requires v != w
    ensures Evaluate(p, EQUAL, Integer(v, m), Integer(w, n)) <==> Nearest(m) == Nearest(n)
    ensures Evaluate(p, LESS_EQUAL, Integer(v, m), Integer(w, n)) <==> m <= n || Nearest(m) == Nearest(n)
  {
    hide Nearest;
    RealsOfIntegers(Nearest(m), Nearest(n));
    if m <= n {
      NearestMonotone(m, n);
    } else {
      NearestMonotone(n, m);
    }
  }

  lemma RealsOfIntegers(m: int, n: int)
    ensures CompareReals(m as real, n as real, 0.000000001) == Sign(m == n, m < n)
  {
    assert m as real - n as real == (m - n) as real;
  }

  predicate Is64(w: IntType) {
    w == Int64 || w == UInt64
  }

  predicate SameOrNarrow(v: IntType, w: IntType) {
    v == w || !Is64(v) || !Is64(w)
  }

  /** The value's double is its number, as for every integer of at most 53 bits. */
  predicate Exact(v: Value) {
    v.Integer? && Nearest(v.n) == v.n
  }

  /** Where they are exact or not of the two widths of 64 bits, integers are ordered by
      their numbers. */
  lemma IntegersOrderedByNumber(p: Printer, x: Value, y: Value)
    requires x.Integer? && y.Integer? && InRange(x) && InRange(y)
    requires SameOrNarrow(x.width, y.width) || (Exact(x) && Exact(y))
    ensures Evaluate(p, LESS_EQUAL, x, y) <==> x.n <= y.n
    ensures Evaluate(p, EQUAL, x, y) <==> x.n == y.n
  {
    if x.width != y.width {
      hide Evaluate;
      InexactIntegersMerge(p, x.width, y.width, x.n, y.n);
      if !Is64(x.width) {
        SmallStandsAlone(x.n, y.n);
      } else if !Is64(y.width) {
        SmallStandsAlone(y.n, x.n);
      }
    }
  }

  /** No other number has the double of a small one. */
  lemma SmallStandsAlone(m: int, n: int)
    requires -LAST_EXACT < m < LAST_EXACT
    ensures Nearest(m) == Nearest(n) <==> m == n
  {
    SmallIsExact(m);
    SmallIsExact(m - 1);
    SmallIsExact(m + 1);
    hide Nearest;
    if m < n {
      NearestMonotone(m + 1, n);
    } else if n < m {
      NearestMonotone(n, m - 1);
    }
  }

  lemma {:induction false} DigitsStart(n: nat)
    ensures Digits(n) != [] && 48 <= Digits(n)[0] <= 57
  {
    if n >= 10 {
      DigitsStart(n / 10);
    }
  }

  /** A numeral is above the empty text and below "false" and "true". */
  lemma NumeralsBelowBool(n: int)
    ensures Decimal(n) != [] && Decimal(n)[0] < 102
  {
    DigitsStart(if n < 0 then -n else n);
    hide Digits;
  }

  /** The types whose values are ordered together. */
  predicate Together(t: Type, u: Type) {
    && !IsFloat(t) && !IsFloat(u)
    && match (t, u)
       case (IntegerType(v), IntegerType(w)) => SameOrNarrow(v, w)
       case (EmptyType, _) => true
       case (_, EmptyType) => true
       case (BoolType, _) => u != BinaryType
       case (_, BoolType) => t != BinaryType
       case _ => t == u
  }

  /** <= is transitive on the values of these types. */
  ghost predicate IsOrderOn(p: Printer, types: set<Type>) {
    forall x, y, z | InRange(x) && InRange(y) && InRange(z) && {TypeOf(x), TypeOf(y), TypeOf(z)} <= types
                     && Evaluate(p, LESS_EQUAL, x, y) && Evaluate(p, LESS_EQUAL, y, z)
      :: Evaluate(p, LESS_EQUAL, x, z)
  }

  /** Empty, booleans and integers by kind, then by number. */
  predicate KeyAtMost(x: Value, y: Value) {
    match (x, y)
    case (Empty, _) => true
    case (Integer(_, m), Integer(_, n)) => m <= n
    case (Integer(_, _), Bool(_)) => true
    case (Bool(a), Bool(b)) => a ==> b
    case _ => false
  }

  predicate IsKeyed(v: Value) {
    v.Empty? || v.Bool? || v.Integer?
  }

  lemma OrderedByKey(p: Printer, x: Value, y: Value)
    requires IsKeyed(x) && IsKeyed(y) && InRange(x) && InRange(y) && Together(TypeOf(x), TypeOf(y))
    ensures Evaluate(p, LESS_EQUAL, x, y) <==> KeyAtMost(x, y)
  {
    if x.Integer? && y.Integer? {
      IntegersOrderedByNumber(p, x, y);
    } else if x.Integer? {
      NumeralsBelowBool(x.n);
      hide Decimal;
    } else if y.Integer? {
      NumeralsBelowBool(y.n);
      hide Decimal;
    }
  }

  lemma OrderedByText(p: Printer, x: Value, y: Value)
    requires {TypeOf(x), TypeOf(y)} <= {EmptyType, BoolType, TextType}
    ensures Evaluate(p, LESS_EQUAL, x, y) <==> AtMost(ToText(p, x), ToText(p, y))
  {
  }

  predicate AtMost(a: seq<byte>, b: seq<byte>) {
    a == b || Less(a, b)
  }

  lemma OrderedByLength(p: Printer, x: Value, y: Value)
    requires {TypeOf(x), TypeOf(y)} <= {EmptyType, BinaryType}
    ensures Evaluate(p, LESS_EQUAL, x, y) <==> ShortlexAtMost(ToText(p, x), ToText(p, y))
  {
  }

  predicate ShortlexAtMost(a: seq<byte>, b: seq<byte>) {
    |a| < |b| || (|a| == |b| && AtMost(a, b))
  }

  lemma TransitiveTogether(p: Printer, x: Value, y: Value, z: Value)
    requires InRange(x) && InRange(y) && InRange(z)
    requires Together(TypeOf(x), TypeOf(y)) && Together(TypeOf(y), TypeOf(z)) && Together(TypeOf(x), TypeOf(z))
    requires Evaluate(p, LESS_EQUAL, x, y) && Evaluate(p, LESS_EQUAL, y, z)
    ensures Evaluate(p, LESS_EQUAL, x, z)
  {
    hide Evaluate, ToText, Less;
    if IsKeyed(x) && IsKeyed(y) && IsKeyed(z) {
      OrderedByKey(p, x, y);
      OrderedByKey(p, y, z);
      OrderedByKey(p, x, z);
    } else {
      TransitiveOctets(ToText(p, x), ToText(p, y), ToText(p, z));
      if x.Text? || y.Text? || z.Text? {
        OrderedByText(p, x, y);
        OrderedByText(p, y, z);
        OrderedByText(p, x, z);
      } else {
        OrderedByLength(p, x, y);
        OrderedByLength(p, y, z);
        OrderedByLength(p, x, z);
      }
    }
  }

  /** 9 is below 10, which is below the text 5, which is below 9. */
  lemma MixedTypesCycle(p: Printer, w: IntType)
    ensures Evaluate(p, LESS_THAN, Integer(w, 9), Integer(w, 10))
    ensures Evaluate(p, LESS_THAN, Integer(w, 10), Text([53]))
    ensures Evaluate(p, LESS_THAN, Text([53]), Integer(w, 9))
  {
    var nine, ten, five: seq<byte> := [57], [49, 48], [53];
    assert Decimal(9) == nine && Decimal(10) == ten;
    assert Less(ten, five) && Less(five, nine);
  }

  /** Binary values are ordered by length first, and other texts are not. */
  lemma BinaryDrifts(p: Printer, a: seq<byte>, b: seq<byte>, v: Value)
    requires |a| < |b| && (v.Text? || v.Bool? || v.Integer?) && InRange(v)
    requires Less(b, ToText(p, v)) && Less(ToText(p, v), a)
    ensures Drifts(p, Binary(a), Binary(b), v)
  {
    LessTrichotomy(ToText(p, v), a);
    hide Less, Fits, Decimal;
  }

  lemma BinaryApart(p: Printer, w: IntType)
    ensures Drifts(p, Binary([98]), Binary([97, 97]), Text([97, 98]))
    ensures Drifts(p, Binary([103]), Binary([97, 97]), Bool(false))
    ensures Drifts(p, Binary([50]), Binary([49, 48]), Integer(w, 15))
  {
    hide Drifts;
    var two, ten, fifteen: seq<byte> := [50], [49, 48], [49, 53];
    assert Decimal(15) == fifteen;
    assert Less(ten, fifteen) && Less(fifteen, two);
    var b, aa, ab, g: seq<byte> := [98], [97, 97], [97, 98], [103];
    assert Less(aa, ab) && Less(ab, b) && Less(aa, FALSE) && Less(FALSE, g);
    BinaryDrifts(p, b, aa, Text(ab));
    BinaryDrifts(p, g, aa, Bool(false));
    BinaryDrifts(p, two, ten, Integer(w, 15));
  }

  /** Between the two widths of 64 bits, 2^53 + 1 and 2^53 share a double. */
  lemma DoublesDrift(p: Printer)
    ensures Drifts(p, Integer(Int64, LAST_EXACT + 1), Integer(UInt64, LAST_EXACT), Integer(Int64, LAST_EXACT))
    ensures Drifts(p, Integer(UInt64, LAST_EXACT + 1), Integer(Int64, LAST_EXACT), Integer(UInt64, LAST_EXACT))
  {
    assert Nearest(LAST_EXACT + 1) == Nearest(LAST_EXACT) == LAST_EXACT;
  }

  /** Two types that are not ordered together hold three values that drift. */
  lemma ApartDrifts(p: Printer, t: Type, u: Type) returns (x: Value, y: Value, z: Value)
    requires !Together(t, u)
    ensures {TypeOf(x), TypeOf(y), TypeOf(z)} <= {t, u} && Drifts(p, x, y, z)
  {
    hide Drifts;
    ToleranceDrifts(p);
    if t.Float32Type? || u.Float32Type? {
      x, y, z := Float32(0.0000012), Float32(0.0000006), Float32(0.0);
    } else if t.Float64Type? || u.Float64Type? {
      x, y, z := Float64(0.0000000012), Float64(0.0000000006), Float64(0.0);
    } else {
      var w := if t.IntegerType? then t.width else if u.IntegerType? then u.width else Int8;
      BinaryApart(p, w);
      if t.BinaryType? || u.BinaryType? {
        if t.TextType? || u.TextType? {
          x, y, z := Binary([98]), Binary([97, 97]), Text([97, 98]);
        } else if t.BoolType? || u.BoolType? {
          x, y, z := Binary([103]), Binary([97, 97]), Bool(false);
        } else {
          x, y, z := Binary([50]), Binary([49, 48]), Integer(w, 15);
        }
      } else if t.TextType? || u.TextType? {
        TextDrifts(p, w);
        x, y, z := Integer(w, 9), Integer(w, 10), Text([53]);
      } else {
        DoublesDrift(p);
        x, y, z := Integer(Int64, LAST_EXACT + 1), Integer(UInt64, LAST_EXACT), Integer(Int64, LAST_EXACT);
      }
    }
  }

  lemma TextDrifts(p: Printer, w: IntType)
    ensures Drifts(p, Integer(w, 9), Integer(w, 10), Text([53]))
  {
    hide Compare;
    MixedTypesCycle(p, w);
    OperatorsAgree(p, LESS_EQUAL, Integer(w, 9), Text([53]));
  }

  /** Main result: the comparison orders the values of a set of types exactly when every
      two of them are ordered together. Any two values are comparable in any case. */
  lemma OrderedExactlyTogether(p: Printer, types: set<Type>)
    ensures IsOrderOn(p, types) <==> forall t, u | t in types && u in types :: Together(t, u)
  {
    hide Together, Evaluate, InRange;
    if t, u :| t in types && u in types && !Together(t, u) {
      var x, y, z := ApartDrifts(p, t, u);
      assert {TypeOf(x), TypeOf(y), TypeOf(z)} <= types;
    } else {
      forall x, y, z | InRange(x) && InRange(y) && InRange(z) && {TypeOf(x), TypeOf(y), TypeOf(z)} <= types
                       && Evaluate(p, LESS_EQUAL, x, y) && Evaluate(p, LESS_EQUAL, y, z)
        ensures Evaluate(p, LESS_EQUAL, x, z)
      {
        TransitiveTogether(p, x, y, z);
      }
    }
  }

  /** Binary values are ordered by length first. */
  lemma BinaryIsShortlex(p: Printer, a: seq<byte>, b: seq<byte>)
    ensures Evaluate(p, LESS_THAN, Binary(a), Binary(b))
        <==> |a| < |b| || (|a| == |b| && exists k :: 0 <= k < |a| && a[..k] == b[..k] && a[k] < b[k])
  {
    LessTrichotomy(a, b);
    if |a| == |b| {
      FirstDifference(a, b);
    }
    hide Less;
  }

  lemma {:induction false} FirstDifference(a: seq<byte>, b: seq<byte>)
    requires |a| == |b|
    ensures Less(a, b) <==> exists k :: 0 <= k < |a| && a[..k] == b[..k] && a[k] < b[k]
    decreases |a|
  {
    if a != [] {
      var x, y := a[1..], b[1..];
      FirstDifference(x, y);
      if Less(a, b) {
        if a[0] < b[0] {
          assert a[..0] == b[..0];
        } else {
          var k :| 0 <= k < |x| && x[..k] == y[..k] && x[k] < y[k];
          assert a[..k + 1] == [a[0]] + x[..k] && b[..k + 1] == [b[0]] + y[..k] && a[k + 1] < b[k + 1];
        }
      }
      if k :| 0 <= k < |a| && a[..k] == b[..k] && a[k] < b[k] {
        if k > 0 {
          assert a[0] == a[..k][0] == b[0];
          assert x[..k - 1] == a[..k][1..] && y[..k - 1] == b[..k][1..] && x[k - 1] < y[k - 1];
        }
      }
    }
  }

  // --------------------------------------------------- the order in plain terms

  /** Numbers of different types are equal within 10^-9, wherever their doubles are; an
      integer counts as its double. */
  lemma MixedNumbers(p: Printer, w: IntType, n: int, f: real, d: real)
    ensures Evaluate(p, EQUAL, Integer(w, n), Float32(f)) <==> -0.000000001 < Nearest(n) as real - f < 0.000000001
    ensures Evaluate(p, LESS_THAN, Integer(w, n), Float32(f)) <==> Nearest(n) as real <= f - 0.000000001
    ensures Evaluate(p, GREATER_THAN, Integer(w, n), Float32(f)) <==> f <= Nearest(n) as real - 0.000000001
    ensures Evaluate(p, EQUAL, Integer(w, n), Float64(d)) <==> -0.000000001 < Nearest(n) as real - d < 0.000000001
    ensures Evaluate(p, LESS_THAN, Integer(w, n), Float64(d)) <==> Nearest(n) as real <= d - 0.000000001
    ensures Evaluate(p, GREATER_THAN, Integer(w, n), Float64(d)) <==> d <= Nearest(n) as real - 0.000000001
    ensures Evaluate(p, EQUAL, Float32(f), Float64(d)) <==> -0.000000001 < f - d < 0.000000001
    ensures Evaluate(p, LESS_THAN, Float32(f), Float64(d)) <==> f <= d - 0.000000001
    ensures Evaluate(p, GREATER_THAN, Float32(f), Float64(d)) <==> d <= f - 0.000000001
  {
    hide Nearest;
  }

  /** Numbers of one floating-point type are equal within 10^-6 or 10^-9. */
  lemma FloatTolerances(p: Printer, x: real, y: real)
    ensures Evaluate(p, EQUAL, Float32(x), Float32(y)) <==> -0.000001 < x - y < 0.000001
    ensures Evaluate(p, LESS_THAN, Float32(x), Float32(y)) <==> x <= y - 0.000001
    ensures Evaluate(p, EQUAL, Float64(x), Float64(y)) <==> -0.000000001 < x - y < 0.000000001
    ensures Evaluate(p, LESS_THAN, Float64(x), Float64(y)) <==> x <= y - 0.000000001
  {
  }

  /** a is a proper beginning of b, or smaller at the first octet that differs. */
  ghost predicate Precedes(a: seq<byte>, b: seq<byte>) {
    exists k :: 0 <= k <= |a| && k < |b| && a[..k] == b[..k] && (k < |a| ==> a[k] < b[k])
  }

  lemma SameHead(a: seq<byte>, b: seq<byte>, k: nat)
    requires 0 < k <= |a| && k <= |b| && a[..k] == b[..k]
    ensures a[0] == b[0]
  {
    assert a[0] == a[..k][0];
  }

  lemma {:induction false} LessIsPrecedes(a: seq<byte>, b: seq<byte>)
    ensures Less(a, b) <==> Precedes(a, b)
    decreases |a|
  {
    if a == [] || b == [] || a[0] != b[0] {
      if b != [] && (a == [] || a[0] < b[0]) {
        assert a[..0] == b[..0];
      }
      if k :| 0 <= k <= |a| && k < |b| && a[..k] == b[..k] && (k < |a| ==> a[k] < b[k]) {
        if k > 0 {
          SameHead(a, b, k);
        }
      }
    } else {
      var x, y := a[1..], b[1..];
      LessIsPrecedes(x, y);
      if k :| 0 <= k <= |x| && k < |y| && x[..k] == y[..k] && (k < |x| ==> x[k] < y[k]) {
        assert a[..k + 1] == [a[0]] + x[..k] && b[..k + 1] == [b[0]] + y[..k];
        assert k + 1 < |a| ==> a[k + 1] == x[k] && b[k + 1] == y[k];
      }
      if k :| 0 <= k <= |a| && k < |b| && a[..k] == b[..k] && (k < |a| ==> a[k] < b[k]) {
        assert x[..k - 1] == a[..k][1..] && y[..k - 1] == b[..k][1..];
        assert k < |a| ==> x[k - 1] == a[k] && y[k - 1] == b[k];
      }
    }
  }

  /** Text is ordered as in a dictionary, and so are values of different types unless both
      are numbers: by their texts. */
  lemma DictionaryOrder(p: Printer, a: Value, b: Value)
    requires (a.Text? && b.Text?) || (TypeOf(a) != TypeOf(b) && !(IsNumeric(a) && IsNumeric(b)))
    ensures Evaluate(p, LESS_THAN, a, b) <==> Precedes(ToText(p, a), ToText(p, b))
    ensures Evaluate(p, EQUAL, a, b) <==> ToText(p, a) == ToText(p, b)
  {
    hide Less, Precedes, Decimal;
    LessTrichotomy(ToText(p, a), ToText(p, b));
    LessIsPrecedes(ToText(p, a), ToText(p, b));
  }

  /** The number a numeral stands for. */
  function NumberOf(digits: seq<byte>): int {
    if digits == [] then 0 else 10 * NumberOf(digits[..|digits| - 1]) + (digits[|digits| - 1] as int - 48)
  }

  lemma {:induction false} DigitsMean(n: nat)
    ensures NumberOf(Digits(n)) == n && (forall c | c in Digits(n) :: 48 <= c <= 57)
    ensures Digits(n) != [] && (n > 0 ==> Digits(n)[0] != 48) && (n == 0 ==> Digits(n) == [48])
  {
    if n >= 10 {
      DigitsMean(n / 10);
      assert Digits(n)[..|Digits(n)| - 1] == Digits(n / 10);
    } else {
      assert NumberOf([48 + n][..0]) == 0;
    }
  }

  /** A decimal numeral without superfluous zeros, behind a minus sign if negative. */
  ghost predicate IsNumeral(text: seq<byte>, n: int) {
    var digits := if n < 0 && text != [] then text[1..] else text;
    && (n < 0 ==> text != [] && text[0] as char == '-')
    && digits != [] && (forall c | c in digits :: '0' <= c as char <= '9')
    && (n != 0 ==> digits[0] as char != '0') && (n == 0 ==> |digits| == 1)
    && NumberOf(digits) == if n < 0 then -n else n
  }

  lemma DecimalIsNumeral(n: int)
    ensures IsNumeral(Decimal(n), n)
  {
    var m: nat := if n < 0 then -n else n;
    DigitsMean(m);
    hide Digits, NumberOf;
    assert n < 0 ==> ([45] + Digits(m))[1..] == Digits(m);
  }

  predicate Spelled(octets: seq<byte>, text: string) {
    |octets| == |text| && forall i | 0 <= i < |text| :: octets[i] as char == text[i]
  }

  /** The texts of the values that are not floating-point numbers. */
  lemma TextsOfValues(p: Printer, w: IntType, n: int, octets: seq<byte>)
    ensures IsNumeral(ToText(p, Integer(w, n)), n)
    ensures Spelled(ToText(p, Bool(true)), "true") && Spelled(ToText(p, Bool(false)), "false")
    ensures ToText(p, Empty) == [] && ToText(p, Text(octets)) == ToText(p, Binary(octets)) == octets
  {
    DecimalIsNumeral(n);
    hide IsNumeral, Decimal;
  }
}
