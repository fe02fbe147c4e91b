/** Arithmetic on integer parameters: a value is widened to 64 bits, the operator works on
    the wide value, and the result is narrowed into the result parameter
    (parse_param_to_operand, operand_to_valuebuf, proc_runtime_unop and proc_runtime_binop
    in src/runtime/proc_runtime_instructions_common.c).
 */
module Operands {
  import opened ProcTypes

  // The operator codes, in the order of the enumerations.
  const OP_EQ: uint32 := 0
  const OP_NEQ: uint32 := 1
  const OP_LT: uint32 := 2
  const OP_GT: uint32 := 3
  const OP_LE: uint32 := 4
  const OP_GE: uint32 := 5

  const OP_INC: uint32 := 0
  const OP_DEC: uint32 := 1
  const OP_NOT: uint32 := 2
  const OP_NEG: uint32 := 3
  const OP_IDT: uint32 := 4
  const OP_RMT: uint32 := 5

  const OP_ADD: uint32 := 0
  const OP_SUB: uint32 := 1
  const OP_MUL: uint32 := 2
  const OP_DIV: uint32 := 3
  const OP_MOD: uint32 := 4

  datatype Width = W8 | W16 | W32 | W64

  /** The integer parameter types; the hexadecimal display types count as unsigned. */
  datatype ParamType = Unsigned(width: Width) | Signed(width: Width)

  const TWO_64: int := 0x1_0000_0000_0000_0000

  function Modulus(width: Width): int {
    match width
    case W8 => 0x100
    case W16 => 0x1_0000
    case W32 => 0x1_0000_0000
    case W64 => 0x1_0000_0000_0000_0000
  }

  predicate InRange(ty: ParamType, x: int) {
    var m := Modulus(ty.width);
    if ty.Unsigned? then 0 <= x < m else -(m / 2) <= x < m / 2
  }

  /** An operand: the type it came from, and its value as a 64-bit integer. */
  datatype Operand = Operand(source: ParamType, value: int)

  predicate SameKind(a: Operand, b: Operand) {
    a.source.Unsigned? == b.source.Unsigned?
  }

  /** The 64-bit result an operator leaves in an operand of this signedness. */
  function Wide(ty: ParamType, x: int): int {
    if ty.Unsigned? then x % TWO_64 else (x + TWO_64 / 2) % TWO_64 - TWO_64 / 2
  }

  /** What the value buffer holds: the operand cast to its source type, read back as an
      unsigned little-endian number; the rest of the buffer is zero. */
  function Pattern(a: Operand): int {
    a.value % Modulus(a.source.width)
  }

  /** The value a parameter of type `ty` takes from a value buffer. */
  function FromPattern(ty: ParamType, bits: int): int {
    var m := Modulus(ty.width);
    var b := bits % m;
    if ty.Signed? && b >= m / 2 then b - m else b
  }

  function Stored(ty: ParamType, a: Operand): int {
    FromPattern(ty, Pattern(a))
  }

  /** Division and remainder of C: towards zero, with the sign of the dividend. */
  function Quotient(a: int, b: int): int
    requires b != 0
  {
    if (a < 0) == (b < 0) then Abs(a) / Abs(b) else -(Abs(a) / Abs(b))
  }

  function Abs(x: int): int {
    if x < 0 then -x else x
  }

  /** The exact result of an arithmetic operator, if it has one. */
  function Exact(binary: uint32, a: int, b: int): Option<int> {
    if binary == OP_ADD then Some(a + b)
    else if binary == OP_SUB then Some(a - b)
    else if binary == OP_MUL then Some(a * b)
    else if binary == OP_DIV && b != 0 then Some(Quotient(a, b))
    else if binary == OP_MOD && b != 0 then Some(a - b * Quotient(a, b))
    else None
  }

  function BinopOperand(binary: uint32, a: Operand, b: Operand): Option<Operand> {
    if !SameKind(a, b) then None
    else
      match Exact(binary, a.value, b.value)
      case None => None
      case Some(x) => Some(a.(value := Wide(a.source, x)))
  }

  function UnopOperand(unary: uint32, a: Operand): Option<Operand> {
    if unary == OP_INC then Some(a.(value := Wide(a.source, a.value + 1)))
    else if unary == OP_DEC then Some(a.(value := Wide(a.source, a.value - 1)))
    else if unary == OP_NEG && a.source.Signed? then Some(a.(value := Wide(a.source, -a.value)))
    else if unary == OP_IDT || unary == OP_RMT then Some(a)
    else None
  }

  function Compare(cmp: uint32, a: int, b: int): Option<bool> {
    if cmp == OP_EQ then Some(a == b)
    else if cmp == OP_NEQ then Some(a != b)
    else if cmp == OP_LT then Some(a < b)
    else if cmp == OP_GT then Some(a > b)
    else if cmp == OP_LE then Some(a <= b)
    else if cmp == OP_GE then Some(a >= b)
    else None
  }

  // ---------------------------------------------------------------- native arithmetic

  /** `r` is the value of type `ty` that equals `x` up to a multiple of 2 to the width. */
  predicate IsNative(ty: ParamType, r: int, x: int) {
    InRange(ty, r) && r % Modulus(ty.width) == x % Modulus(ty.width)
  }

  lemma DivisionIsUnique(x: int, m: nat, q: int, r: nat)
    requires r < m && x == q * m + r
    ensures x % m == r
  {
    var d := x / m - q;
    assert d * m == r - x % m by {
      assert x == (x / m) * m + x % m;
    }
  }

  lemma ModuloMultiple(x: int, m: nat, k: int)
    requires m > 0
    ensures (x + k * m) % m == x % m
  {
    assert x == (x / m) * m + x % m;
    assert x + k * m == (x / m + k) * m + x % m;
    DivisionIsUnique(x + k * m, m, x / m + k, x % m);
  }

  lemma NativeIsUnique(ty: ParamType, r: int, r': int, x: int)
    requires IsNative(ty, r, x) && IsNative(ty, r', x)
    ensures r == r'
  {
    var m := Modulus(ty.width);
    if r < 0 {
      ModuloMultiple(r, m, 1);
    }
    if r' < 0 {
      ModuloMultiple(r', m, 1);
    }
    assert forall y | 0 <= y < m :: y % m == y;
  }

  /** The wide result differs from the exact one by a multiple of 2 to the 64, hence of
      every modulus. */
  lemma WideIsCongruent(ty: ParamType, x: int)
    ensures Wide(ty, x) % Modulus(ty.width) == x % Modulus(ty.width)
  {
    var k := if ty.Unsigned? then -(x / TWO_64) else -((x + TWO_64 / 2) / TWO_64);
    var share := match ty.width
      case W8 => 0x100_0000_0000_0000
      case W16 => 0x1_0000_0000_0000
      case W32 => 0x1_0000_0000
      case W64 => 1;
    var m := Modulus(ty.width);
    assert Wide(ty, x) == x + k * TWO_64;
    assert k * TWO_64 == (k * share) * m;
    ModuloMultiple(x, m, k * share);
  }

  /** Narrowing the wide result into a parameter of the source type is native arithmetic. */
  lemma NarrowedIsNative(ty: ParamType, x: int)
    ensures IsNative(ty, Stored(ty, Operand(ty, Wide(ty, x))), x)
  {
    WideIsCongruent(ty, x);
    var m := Modulus(ty.width);
    var b := x % m;
    DivisionIsUnique(b, m, 0, b);
    ModuloMultiple(b, m, -1);
  }

  /** With the result parameter of the type of operand a, every arithmetic operator stores
      its exact result modulo 2 to the width of that type, whatever the width of b. */
  lemma BinopIsNative(binary: uint32, a: Operand, b: Operand)
    requires SameKind(a, b)
    ensures match Exact(binary, a.value, b.value)
            case Some(x) => BinopOperand(binary, a, b).Some?
                            && IsNative(a.source, Stored(a.source, BinopOperand(binary, a, b).value), x)
            case None => BinopOperand(binary, a, b).None?
  {
    match Exact(binary, a.value, b.value)
    case Some(x) => NarrowedIsNative(a.source, x);
    case None =>
  }

  /** The value of type `ty` congruent to `x`. */
  function Native(ty: ParamType, x: int): int {
    FromPattern(ty, x)
  }

  lemma NativeIsNative(ty: ParamType, x: int)
    ensures IsNative(ty, Native(ty, x), x)
  {
    var m := Modulus(ty.width);
    var b := x % m;
    DivisionIsUnique(b, m, 0, b);
    ModuloMultiple(b, m, -1);
  }

  lemma NativeIsStored(ty: ParamType, x: int)
    ensures Stored(ty, Operand(ty, Native(ty, x))) == Native(ty, x)
  {
    var m := Modulus(ty.width);
    NativeIsNative(ty, x);
    var b := x % m;
    DivisionIsUnique(b, m, 0, b);
  }

  lemma ProductBound(x: int, y: int, bound: nat)
    requires Abs(x) <= bound && Abs(y) <= bound
    ensures Abs(x * y) <= bound * bound
  {
    NaturalProductBound(Abs(x), Abs(y), bound);
    if x < 0 {
      assert x * y == -(Abs(x) * y);
    }
    if y < 0 {
      assert Abs(x) * y == -(Abs(x) * Abs(y));
    }
  }

  lemma NaturalProductBound(x: nat, y: nat, bound: nat)
    requires x <= bound && y <= bound
    ensures 0 <= x * y <= bound * bound
  {
    assert x * y <= bound * y;
  }

  lemma QuotientBound(a: int, b: int)
    requires b != 0
    ensures Abs(Quotient(a, b)) <= Abs(a)
  {
    NaturalQuotientBound(Abs(a), Abs(b));
  }

  lemma NaturalQuotientBound(x: nat, y: nat)
    requires y > 0
    ensures 0 <= x / y <= x
  {
    FactorBound(x, y, x / y, x % y);
  }

  lemma FactorBound(x: nat, y: nat, q: int, r: nat)
    requires y > 0 && x == q * y + r && r < y
    ensures 0 <= q <= x
  {
    if q >= 0 {
      assert q * y >= q;
    }
  }

  lemma WideOfSmall(ty: ParamType, x: int)
    requires ty.Signed? && Abs(x) < TWO_64 / 2
    ensures Wide(ty, x) == x
  {
  }

  /** The 64-bit intermediate of signed operands of at most 32 bits never overflows. */
  lemma SignedIntermediateFits(binary: uint32, a: Operand, b: Operand)
    requires a.source.Signed? && b.source.Signed? && !a.source.width.W64? && !b.source.width.W64?
    requires InRange(a.source, a.value) && InRange(b.source, b.value)
    requires Exact(binary, a.value, b.value).Some?
    ensures var x := Exact(binary, a.value, b.value).value;
            Wide(a.source, x) == x
  {
    var x := Exact(binary, a.value, b.value).value;
    assert Abs(a.value) <= 0x8000_0000 && Abs(b.value) <= 0x8000_0000;
    assert Abs(x) <= 0x8000_0000 + 0x8000_0000 * 0x8000_0000 by {
      ExactBound(binary, a.value, b.value, 0x8000_0000);
    }
    WideOfSmall(a.source, x);
  }

  lemma ExactBound(binary: uint32, a: int, b: int, bound: nat)
    requires 1 <= bound && Abs(a) <= bound && Abs(b) <= bound && Exact(binary, a, b).Some?
    ensures Abs(Exact(binary, a, b).value) <= bound + bound * bound
  {
    hide Quotient;
    ProductBound(a, b, bound);
    NaturalProductBound(1, bound, bound);
    if b != 0 {
      QuotientBound(a, b);
      ProductBound(b, Quotient(a, b), bound);
    }
  }

  /** The exact result of a unary operator on integers, if it has one. */
  function ExactUnary(unary: uint32, ty: ParamType, a: int): Option<int> {
    if unary == OP_INC then Some(a + 1)
    else if unary == OP_DEC then Some(a - 1)
    else if unary == OP_NEG && ty.Signed? then Some(0 - a)
    else if unary == OP_IDT || unary == OP_RMT then Some(a)
    else None
  }

  /** Unary operators store their exact result modulo 2 to the width as well. */
  lemma UnopIsNative(unary: uint32, a: Operand)
    requires InRange(a.source, a.value)
    ensures match ExactUnary(unary, a.source, a.value)
            case Some(x) => UnopOperand(unary, a).Some?
                            && IsNative(a.source, Stored(a.source, UnopOperand(unary, a).value), x)
            case None => UnopOperand(unary, a).None?
  {
    match ExactUnary(unary, a.source, a.value)
    case Some(x) =>
      NarrowedIsNative(a.source, x);
      if x == a.value {
        SmallIsWide(a.source, x);
      }
    case None =>
  }

  lemma SmallIsWide(ty: ParamType, x: int)
    requires InRange(ty, x)
    ensures Wide(ty, x) == x
  {
    if ty.Unsigned? {
      DivisionIsUnique(x, TWO_64, 0, x);
    } else {
      DivisionIsUnique(x + TWO_64 / 2, TWO_64, 0, x + TWO_64 / 2);
    }
  }

  /** What a parameter holds after applying a unary operator to itself. */
  function Applied(unary: uint32, ty: ParamType, x: int): int
    requires ExactUnary(unary, ty, x).Some?
  {
    Stored(ty, UnopOperand(unary, Operand(ty, x)).value)
  }

  /** `++` and `--` undo each other, and `-` undoes itself, at the ends of the range too. */
  lemma UnopsUndo(ty: ParamType, x: int)
    requires InRange(ty, x)
    ensures Applied(OP_DEC, ty, Applied(OP_INC, ty, x)) == x
    ensures Applied(OP_INC, ty, Applied(OP_DEC, ty, x)) == x
    ensures ty.Signed? ==> Applied(OP_NEG, ty, Applied(OP_NEG, ty, x)) == x
  {
    var m := Modulus(ty.width);
    UndoStep(OP_INC, OP_DEC, ty, x);
    UndoStep(OP_DEC, OP_INC, ty, x);
    if ty.Signed? {
      UndoStep(OP_NEG, OP_NEG, ty, x);
    }
  }

  lemma UndoStep(first: uint32, second: uint32, ty: ParamType, x: int)
    requires InRange(ty, x)
    requires (first == OP_INC && second == OP_DEC) || (first == OP_DEC && second == OP_INC)
          || (first == OP_NEG && second == OP_NEG && ty.Signed?)
    ensures Applied(second, ty, Applied(first, ty, x)) == x
  {
    var m := Modulus(ty.width);
    var y := Applied(first, ty, x);
    UnopIsNative(first, Operand(ty, x));
    UnopIsNative(second, Operand(ty, y));
    var exact := ExactUnary(first, ty, x).value;
    CongruentDifference(y, exact, m);
    var k := (y - exact) / m;
    assert y == exact + k * m;
    if first == OP_NEG {
      assert ExactUnary(second, ty, y).value == x + (-k) * m;
      ModuloMultiple(x, m, -k);
    } else {
      assert ExactUnary(second, ty, y).value == x + k * m;
      ModuloMultiple(x, m, k);
    }
    NativeIsUnique(ty, Applied(second, ty, y), x, x);
  }

  lemma CongruentDifference(x: int, y: int, m: nat)
    requires m > 0 && x % m == y % m
    ensures x == y + ((x - y) / m) * m
  {
    assert x - y == (x / m - y / m) * m by {
      assert x == (x / m) * m + x % m && y == (y / m) * m + y % m;
    }
    DivisionIsUnique(x - y, m, x / m - y / m, 0);
    assert x - y == ((x - y) / m) * m + (x - y) % m;
  }

  /** Quotient and remainder are those of C: they make up the dividend, the remainder is
      smaller than the divisor, and it has the sign of the dividend. */
  lemma QuotientAndRemainder(a: int, b: int)
    requires b != 0
    ensures Exact(OP_DIV, a, b).Some? && Exact(OP_MOD, a, b).Some?
    ensures var q, r := Exact(OP_DIV, a, b).value, Exact(OP_MOD, a, b).value;
            a == b * q + r && Abs(r) < Abs(b) && (r < 0 ==> a < 0) && (r > 0 ==> a > 0)
  {
    var n, r := DivisionLaw(Abs(a), Abs(b));
    var q := Quotient(a, b);
    assert q == if (a < 0) == (b < 0) then n else -n;
    hide Quotient;
    SignedProduct(b, q, Abs(b), n, (a < 0) == (b < 0));
    Signs(a, b, b * q, n * Abs(b), r);
  }

  lemma DivisionLaw(x: nat, y: nat) returns (n: nat, r: nat)
    requires y > 0
    ensures n == x / y && x == n * y + r && r < y && 0 <= n * y
  {
    n, r := x / y, x % y;
  }

  lemma Signs(a: int, b: int, product: int, z: int, r: nat)
    requires 0 <= z && Abs(a) == z + r && r < Abs(b) && product == if a < 0 then -z else z
    ensures Abs(a - product) < Abs(b) && (a - product < 0 ==> a < 0) && (a - product > 0 ==> a > 0)
  {
  }

  lemma SignedProduct(b: int, q: int, y: int, n: int, same: bool)
    requires y == Abs(b) && q == if same then n else -n
    ensures b * q == if (b < 0) == same then -(n * y) else n * y
  {
    assert (-n) * y == -(n * y);
    if b < 0 {
      assert q * b == -(q * y);
    }
  }

  /** The six comparison codes are those of numbers, and no other code decides anything. */
  lemma ComparisonsByCode(a: int, b: int)
    ensures Compare(0, a, b) == Some(a == b) && Compare(1, a, b) == Some(a != b)
    ensures Compare(2, a, b) == Some(a < b) && Compare(3, a, b) == Some(a > b)
    ensures Compare(4, a, b) == Some(a <= b) && Compare(5, a, b) == Some(a >= b)
    ensures forall cmp: uint32 :: cmp > 5 ==> Compare(cmp, a, b) == None
  {
  }

  lemma ModuliDivide(v: Width, w: Width) returns (k: int)
    ensures Modulus(v) > Modulus(w) ==> Modulus(v) >= 2 * Modulus(w)
    ensures Modulus(w) <= Modulus(v) ==> Modulus(v) == k * Modulus(w)
  {
    k := Modulus(v) / Modulus(w);
  }

  /** The identity operators copy a value into a parameter of another type unchanged
      exactly when that type can hold it and, for a negative value, is not wider: the
      buffer is filled by zeros, not by the sign. */
  lemma IdentityCopies(from: ParamType, to: ParamType, x: int)
    requires InRange(from, x)
    ensures Stored(to, UnopOperand(OP_IDT, Operand(from, x)).value) == x
       <==> InRange(to, x) && (x >= 0 || Modulus(to.width) <= Modulus(from.width))
  {
    var m, n := Modulus(from.width), Modulus(to.width);
    var bits := if x < 0 then x + m else x;
    DivisionIsUnique(x, m, if x < 0 then -1 else 0, bits);
    var k := ModuliDivide(from.width, to.width);
    var _ := ModuliDivide(to.width, from.width);
    assert InRange(to, FromPattern(to, bits));
    if InRange(to, x) {
      if x < 0 && n <= m {
        ModuloMultiple(x, n, k);
        DivisionIsUnique(x, n, -1, x + n);
      } else {
        DivisionIsUnique(bits, n, 0, bits);
      }
    }
  }

  // ---------------------------------------------------------------- the switch

  /** The remainder of C, from those of natural numbers. */
  function Remainder(a: int, b: int): int
    requires b != 0
  {
    if a < 0 then -(Abs(a) % Abs(b)) else Abs(a) % Abs(b)
  }

  lemma RemainderIsExact(a: int, b: int)
    requires b != 0
    ensures Remainder(a, b) == a - b * Quotient(a, b)
  {
    var n, r := DivisionLaw(Abs(a), Abs(b));
    assert r == Abs(a) % Abs(b) by {
      DivisionIsUnique(Abs(a), Abs(b), n, r);
    }
    SignedProduct(b, Quotient(a, b), Abs(b), n, (a < 0) == (b < 0));
  }

  /** The arithmetic operators, on the wide values of two operands; the result goes into
      the first. */
  method Arithmetic(binary: uint32, a: Operand, b: Operand) returns (result: Option<Operand>)
    requires binary <= OP_MOD
    ensures result == BinopOperand(binary, a, b)
  {
    if a.source.Signed? != b.source.Signed? {
      return None;
    }
    var x: int;
    if binary == OP_ADD {
      x := a.value + b.value;
    } else if binary == OP_SUB {
      x := a.value - b.value;
    } else if binary == OP_MUL {
      x := a.value * b.value;
    } else if b.value == 0 {
      return None;
    } else if binary == OP_DIV {
      x := Quotient(a.value, b.value);
    } else {
      x := Remainder(a.value, b.value);
      RemainderIsExact(a.value, b.value);
    }
    result := Some(a.(value := Wide(a.source, x)));
  }

  // ---------------------------------------------------------------- native numbers

  lemma CongruentIffDivides(x: int, y: int, m: nat)
    requires m > 0
    ensures x % m == y % m <==> (x - y) % m == 0
  {
    if x % m == y % m {
      CongruentDifference(x, y, m);
      DivisionIsUnique(x - y, m, (x - y) / m, 0);
    }
    if (x - y) % m == 0 {
      ModuloMultiple(y, m, (x - y) / m);
    }
  }

  /** Native values, type by type. */
  lemma NativeByType(ty: ParamType, r: int, x: int)
    ensures IsNative(ty, r, x) <==>
              match ty
              case Unsigned(W8) => 0 <= r < 256 && (r - x) % 256 == 0
              case Unsigned(W16) => 0 <= r < 65536 && (r - x) % 65536 == 0
              case Unsigned(W32) => 0 <= r < 4294967296 && (r - x) % 4294967296 == 0
              case Unsigned(W64) => 0 <= r < 18446744073709551616 && (r - x) % 18446744073709551616 == 0
              case Signed(W8) => -128 <= r < 128 && (r - x) % 256 == 0
              case Signed(W16) => -32768 <= r < 32768 && (r - x) % 65536 == 0
              case Signed(W32) => -2147483648 <= r < 2147483648 && (r - x) % 4294967296 == 0
              case Signed(W64) =>
                -9223372036854775808 <= r < 9223372036854775808 && (r - x) % 18446744073709551616 == 0
  {
    CongruentIffDivides(r, x, Modulus(ty.width));
  }

  /** A parameter takes from the value buffer the native value of the pattern in it: the
      operand modulo 2 to the width of its own type. */
  lemma StoredIsNative(ty: ParamType, a: Operand)
    ensures IsNative(ty, Stored(ty, a), a.value % Modulus(a.source.width))
  {
    NativeIsNative(ty, Pattern(a));
  }

  lemma SameNative(ty: ParamType, r: int, x: int, s: int, y: int)
    requires IsNative(ty, r, x) && IsNative(ty, s, y) && x % Modulus(ty.width) == y % Modulus(ty.width)
    ensures r == s
  {
    NativeIsUnique(ty, r, s, x);
  }

  lemma SumCongruent(m: nat, a: int, a': int, b: int)
    requires m > 0 && a % m == a' % m
    ensures (a + b) % m == (a' + b) % m && (a - b) % m == (a' - b) % m
  {
    CongruentDifference(a, a', m);
    ModuloMultiple(a' + b, m, (a - a') / m);
    ModuloMultiple(a' - b, m, (a - a') / m);
  }

  lemma ProductCongruent(m: nat, a: int, b: int, b': int)
    requires m > 0 && b % m == b' % m
    ensures (a * b) % m == (a * b') % m
  {
    CongruentDifference(b, b', m);
    var k := (b - b') / m;
    MultipleOfProduct(a, b, b', k, m, k * m, a * k);
    ModuloMultiple(a * b', m, a * k);
  }

  lemma MultipleOfProduct(a: int, b: int, b': int, k: int, m: int, km: int, ak: int)
    requires b == b' + km && km == k * m && ak == a * k
    ensures a * b == a * b' + ak * m
  {
    assert a * b == a * b' + a * km;
    assert a * (k * m) == (a * k) * m;
  }

  lemma ProductOfSum(a: int, b: int, c: int)
    ensures a * (b + c) == a * b + a * c
  {
  }

  /** What a parameter of the operands' type holds after `+`, `-` or `*`. */
  function Computed(binary: uint32, ty: ParamType, x: int, y: int): int
    requires binary <= 2
  {
    Stored(ty, BinopOperand(binary, Operand(ty, x), Operand(ty, y)).value)
  }

  /** Codes 0, 1 and 2 are addition, subtraction and multiplication. */
  lemma ComputedByCode(ty: ParamType, x: int, y: int)
    ensures IsNative(ty, Computed(0, ty, x, y), x + y)
    ensures IsNative(ty, Computed(1, ty, x, y), x - y)
    ensures IsNative(ty, Computed(2, ty, x, y), x * y)
  {
    BinopIsNative(0, Operand(ty, x), Operand(ty, y));
    BinopIsNative(1, Operand(ty, x), Operand(ty, y));
    BinopIsNative(2, Operand(ty, x), Operand(ty, y));
  }

  lemma ItselfNative(ty: ParamType, x: int)
    requires InRange(ty, x)
    ensures IsNative(ty, x, x)
  {
  }

  /** Subtraction undoes addition. */
  lemma SubtractionUndoes(ty: ParamType, x: int, y: int)
    requires InRange(ty, x)
    ensures Computed(1, ty, Computed(0, ty, x, y), y) == x
    ensures Computed(0, ty, Computed(1, ty, x, y), y) == x
  {
    hide IsNative, Computed;
    var m, sum, difference := Modulus(ty.width), Computed(0, ty, x, y), Computed(1, ty, x, y);
    ItselfNative(ty, x);
    ComputedByCode(ty, x, y);
    ComputedByCode(ty, sum, y);
    ComputedByCode(ty, difference, y);
    NativeMeans(ty, sum, x + y);
    NativeMeans(ty, difference, x - y);
    SumCongruent(m, sum, x + y, y);
    SumCongruent(m, difference, x - y, y);
    SameNative(ty, Computed(1, ty, sum, y), sum - y, x, x);
    SameNative(ty, Computed(0, ty, difference, y), difference + y, x, x);
  }

  lemma NativeMeans(ty: ParamType, r: int, x: int)
    requires IsNative(ty, r, x)
    ensures InRange(ty, r) && r % Modulus(ty.width) == x % Modulus(ty.width)
  {
  }

  /** Multiplication distributes over addition. */
  lemma MultiplicationDistributes(ty: ParamType, x: int, y: int, z: int)
    ensures Computed(2, ty, x, Computed(0, ty, y, z)) == Computed(0, ty, Computed(2, ty, x, y), Computed(2, ty, x, z))
  {
    hide *;
    var sum := SumIs(ty, y, z);
    var xy := ProductIs(ty, x, y);
    var xz := ProductIs(ty, x, z);
    var left := ProductIs(ty, x, sum);
    var right := SumIs(ty, xy, xz);
    BothSides(Modulus(ty.width), x, y, z, sum, xy, xz);
    SameNative(ty, left, x * sum, right, xy + xz);
  }

  lemma SumIs(ty: ParamType, x: int, y: int) returns (r: int)
    ensures r == Computed(0, ty, x, y) && IsNative(ty, r, x + y) && Modulus(ty.width) > 0
    ensures r % Modulus(ty.width) == (x + y) % Modulus(ty.width)
  {
    r := Computed(0, ty, x, y);
    ComputedByCode(ty, x, y);
  }

  lemma ProductIs(ty: ParamType, x: int, y: int) returns (r: int)
    ensures r == Computed(2, ty, x, y) && IsNative(ty, r, x * y) && Modulus(ty.width) > 0
    ensures r % Modulus(ty.width) == (x * y) % Modulus(ty.width)
  {
    r := Computed(2, ty, x, y);
    ComputedByCode(ty, x, y);
  }

  lemma BothSides(m: nat, x: int, y: int, z: int, sum: int, xy: int, xz: int)
    requires m > 0 && sum % m == (y + z) % m && xy % m == (x * y) % m && xz % m == (x * z) % m
    ensures (x * sum) % m == (xy + xz) % m
  {
    ProductCongruent(m, x, sum, y + z);
    ProductOfSum(x, y, z);
    SumOfBoth(m, xy, x * y, xz, x * z);
  }

  lemma SumOfBoth(m: nat, a: int, a': int, b: int, b': int)
    requires m > 0 && a % m == a' % m && b % m == b' % m
    ensures (a + b) % m == (a' + b') % m
  {
    SumCongruent(m, a, a', b);
    SumCongruent(m, b, b', a');
    assert b + a' == a' + b && b' + a' == a' + b';
  }

  /** `++` and `--` add and subtract one, `*` by one changes nothing, and a number and its
      negation add up to zero. */
  lemma UnitsAndInverses(ty: ParamType, x: int)
    requires InRange(ty, x)
    ensures Applied(0, ty, x) == Computed(0, ty, x, 1)
    ensures Applied(1, ty, x) == Computed(1, ty, x, 1)
    ensures Computed(2, ty, x, 1) == x
    ensures ty.Signed? ==> Computed(0, ty, x, Applied(3, ty, x)) == 0
  {
    ItselfNative(ty, x);
    ItselfNative(ty, 0);
    ComputedByCode(ty, x, 1);
    UnopIsNative(0, Operand(ty, x));
    UnopIsNative(1, Operand(ty, x));
    SameNative(ty, Applied(0, ty, x), x + 1, Computed(0, ty, x, 1), x + 1);
    SameNative(ty, Applied(1, ty, x), x - 1, Computed(1, ty, x, 1), x - 1);
    SameNative(ty, Computed(2, ty, x, 1), x * 1, x, x);
    if ty.Signed? {
      SumWithNegation(ty, x);
    }
  }

  lemma SumWithNegation(ty: ParamType, x: int)
    requires InRange(ty, x) && ty.Signed?
    ensures Computed(0, ty, x, Applied(3, ty, x)) == 0
  {
    var n := Applied(3, ty, x);
    ItselfNative(ty, 0);
    UnopIsNative(3, Operand(ty, x));
    ComputedByCode(ty, x, n);
    hide Computed, Applied;
    SumCongruent(Modulus(ty.width), n, 0 - x, x);
    assert x + n == n + x;
    SameNative(ty, Computed(0, ty, x, n), x + n, 0, 0);
  }

  /** Codes 3 and 4 are the division that rounds towards zero and its remainder, if the
      divisor is not zero; other codes than 0 to 4 are none of these. */
  lemma DivisionByCode(x: int, y: int)
    ensures y == 0 ==> Exact(3, x, y) == None && Exact(4, x, y) == None
    ensures y != 0 ==>
              && Exact(3, x, y).Some? && Exact(4, x, y).Some?
              && var q, r := Exact(3, x, y).value, Exact(4, x, y).value;
                 && x == y * q + r
                 && (if y > 0 then -y < r < y else y < r < -y)
                 && (r < 0 ==> x < 0) && (r > 0 ==> x > 0)
    ensures forall binary: uint32 :: binary > 4 ==> Exact(binary, x, y) == None
  {
    if y != 0 {
      QuotientAndRemainder(x, y);
    }
  }
}
