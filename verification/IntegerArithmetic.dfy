/**
 Addition, subtraction and multiplication of integer values of four widths, with the overflow
 checks as they are computed: in wrapped two's complement, after promotion to at least 32 bits.
 */
module IntegerArithmetic {
  import HashBits

  datatype Width = W8 | W16 | W32 | W64
  {
    // Half the number of values: 2 to the number of bits less one.
    function Half(): (h: int)
      ensures h >= 128
    {
      match this
      case W8 => 0x80
      case W16 => 0x8000
      case W32 => 0x8000_0000
      case W64 => 0x8000_0000_0000_0000
    }

    // sizeof, in bits.
    function Bits(): nat {
      match this
      case W8 => 8
      case W16 => 16
      case W32 => 32
      case W64 => 64
    }

    predicate Holds(v: int) {
      -Half() <= v < Half()
    }
  }

  datatype Operand = Operand(width: Width, v: int)
  {
    // The lowest value stands for NULL.
    predicate IsNull() {
      v == -width.Half()
    }

    predicate Valid() {
      width.Holds(v)
    }
  }

  datatype Outcome = Result(width: Width, v: int) | Null(width: Width) | OutOfRange

  // Two's complement wrap-around.
  function Wrap(v: int, w: Width): (r: int)
    ensures w.Holds(r)
  {
    (v + w.Half()) % (2 * w.Half()) - w.Half()
  }

  function Wider(a: Width, b: Width): Width {
    if a.Half() >= b.Half() then a else b
  }

  // The type that C++ computes in.
  function Promoted(a: Width, b: Width): Width {
    Wider(W32, Wider(a, b))
  }

  // Division that truncates toward zero.
  function Quotient(a: int, b: int): int
    requires b != 0
  {
    if (a >= 0) == (b > 0) then Abs(a) / Abs(b) else -(Abs(a) / Abs(b))
  }

  function Abs(a: int): (r: int)
    ensures r >= 0 && (r == a || r == -a) && (r == 0 <==> a == 0)
  {
    if a < 0 then -a else a
  }

  // A value as it is constructed: the lowest one of its type is NULL.
  function Constructed(w: Width, v: int): Outcome {
    if v == -w.Half() then Null(w) else Result(w, v)
  }

  // --- the operations ---

  function AddValue(x: Operand, y: Operand): Outcome {
    var sum := Wrap(x.v + y.v, Promoted(x.width, y.width));
    var sum1, sum2 := Wrap(sum, x.width), Wrap(sum, y.width);
    if sum != sum1 && sum != sum2 then OutOfRange
    else if x.width.Half() >= y.width.Half() then
      if (x.v > 0 && y.v > 0 && sum1 < 0) || (x.v < 0 && y.v < 0 && sum1 > 0) then OutOfRange
      else Constructed(x.width, sum1)
    else if (x.v > 0 && y.v > 0 && sum2 < 0) || (x.v < 0 && y.v < 0 && sum2 > 0) then OutOfRange
    else Constructed(y.width, sum2)
  }

  function SubtractValue(x: Operand, y: Operand): Outcome {
    var diff := Wrap(x.v - y.v, Promoted(x.width, y.width));
    var diff1, diff2 := Wrap(diff, x.width), Wrap(diff, y.width);
    if diff != diff1 && diff != diff2 then OutOfRange
    else if x.width.Half() >= y.width.Half() then
      if (x.v > 0 && y.v < 0 && diff1 < 0) || (x.v < 0 && y.v > 0 && diff1 > 0) then OutOfRange
      else Constructed(x.width, diff1)
    else if (x.v > 0 && y.v < 0 && diff2 < 0) || (x.v < 0 && y.v > 0 && diff2 > 0) then OutOfRange
    else Constructed(y.width, diff2)
  }

  function MultiplyValue(x: Operand, y: Operand): Outcome {
    var prod := Wrap(x.v * y.v, Promoted(x.width, y.width));
    var prod1, prod2 := Wrap(prod, x.width), Wrap(prod, y.width);
    if prod != prod1 && prod != prod2 then OutOfRange
    else if x.width.Half() >= y.width.Half() then
      if y.v != 0 && Quotient(prod1, y.v) != x.v then OutOfRange else Constructed(x.width, prod1)
    else if y.v != 0 && Quotient(prod2, y.v) != x.v then OutOfRange
    else Constructed(y.width, prod2)
  }

  datatype Operation = Plus | Minus | Times

  function Exactly(op: Operation, x: int, y: int): int {
    match op
    case Plus => x + y
    case Minus => x - y
    case Times => x * y
  }

  // Operands that are NULL never reach the computation.
  function Operate(op: Operation, x: Operand, y: Operand): Outcome {
    if x.IsNull() || y.IsNull() then Null(Wider(x.width, y.width))
    else
      match op
      case Plus => AddValue(x, y)
      case Minus => SubtractValue(x, y)
      case Times => MultiplyValue(x, y)
  }

  // What the computation amounts to: the value in the wider type, or an error when it does not fit.
  function Fitted(w: Width, v: int): Outcome {
    if w.Holds(v) then Constructed(w, v) else OutOfRange
  }

  // What is promised: NULL for a NULL operand, else the exact value when it is a legal one of the
  // wider type, else an error. The lowest legal value is one above the value that stands for NULL.
  function Promised(op: Operation, x: Operand, y: Operand): Outcome {
    var w, r := Wider(x.width, y.width), Exactly(op, x.v, y.v);
    if x.IsNull() || y.IsNull() then Null(w)
    else if -w.Half() + 1 <= r < w.Half() then Result(w, r)
    else OutOfRange
  }

  // --- widths ---

  lemma {:induction false} PowSum(a: nat, b: nat)
    ensures HashBits.Pow2(a + b) == HashBits.Pow2(a) * HashBits.Pow2(b)
  {
    if a > 0 {
      PowSum(a - 1, b);
      var x, y := HashBits.Pow2(a - 1), HashBits.Pow2(b);
      assert 2 * (x * y) == (2 * x) * y;
    }
  }

  // Twice the bits and one: the square, doubled.
  lemma PowTwice(n: nat, p: nat)
    requires HashBits.Pow2(n) == p
    ensures HashBits.Pow2(2 * n + 1) == 2 * (p * p)
  {
    PowSum(n, n);
    assert n + n == 2 * n;
  }

  // A width of n bits holds the numbers from minus 2 to the n - 1 on, below 2 to the n - 1.
  lemma HalfIsPower(w: Width)
    ensures w.Half() == HashBits.Pow2(w.Bits() - 1)
  {
    assert HashBits.Pow2(1) == 2 && HashBits.Pow2(0) == 1;
    PowTwice(1, 2);
    PowTwice(3, 8);
    PowTwice(7, 0x80);
    PowTwice(15, 0x8000);
    PowTwice(31, 0x8000_0000);
  }

  // --- wrap-around ---

  lemma WrapFits(v: int, w: Width)
    requires w.Holds(v)
    ensures Wrap(v, w) == v
  {
    var h := w.Half();
    SmallMod(v + h, 2 * h);
  }

  lemma SmallMod(a: int, m: int)
    requires 0 <= a < m
    ensures a % m == a
  {}

  // One lap too far, up or down.
  lemma WrapOnce(v: int, w: Width)
    requires -3 * w.Half() <= v < 3 * w.Half()
    ensures w.Holds(v) ==> Wrap(v, w) == v
    ensures v >= w.Half() ==> Wrap(v, w) == v - 2 * w.Half()
    ensures v < -w.Half() ==> Wrap(v, w) == v + 2 * w.Half()
  {
    match w
    case W8 =>
    case W16 =>
    case W32 =>
    case W64 =>
  }

  lemma WrapLaps(v: int, w: Width) returns (k: int)
    ensures Wrap(v, w) == v - k * (2 * w.Half())
  {
    var h := w.Half();
    k := (v + h) / (2 * h);
    assert v + h == k * (2 * h) + (v + h) % (2 * h);
  }

  lemma WrapFixed(v: int, w: Width)
    ensures Wrap(v, w) == v <==> w.Holds(v)
  {
    if w.Holds(v) {
      WrapFits(v, w);
    }
  }

  // The first check of every operation asks whether the wider type holds the promoted value; if it
  // does, the value survives the cast to that type.
  lemma FirstCheck(val: int, a: Width, b: Width)
    ensures val != Wrap(val, a) && val != Wrap(val, b) <==> !Wider(a, b).Holds(val)
    ensures Wider(a, b).Holds(val) ==> Wrap(val, Wider(a, b)) == val
  {
    WrapFixed(val, a);
    WrapFixed(val, b);
  }

  predicate Big(w: Width) {
    w.Half() >= W32.Half()
  }

  // The sum fits or fails, except for twice the lowest value of 32 or of 64 bits.
  lemma AddFits(x: Operand, y: Operand)
    requires x.Valid() && y.Valid()
    ensures var w := Wider(x.width, y.width);
            AddValue(x, y) == Fitted(w, x.v + y.v) <==> !(Big(w) && x.v == y.v == -w.Half())
  {
    var p, w, r := Promoted(x.width, y.width), Wider(x.width, y.width), x.v + y.v;
    FirstCheck(Wrap(r, p), x.width, y.width);
    if Big(w) {
      WrapOnce(r, w);
    } else {
      WrapFits(r, p);
    }
  }

  // So does the difference, except for zero less the lowest value of 32 or of 64 bits.
  lemma SubtractFits(x: Operand, y: Operand)
    requires x.Valid() && y.Valid()
    ensures var w := Wider(x.width, y.width);
            SubtractValue(x, y) == Fitted(w, x.v - y.v) <==> !(Big(w) && x.v == 0 && y.v == -w.Half())
  {
    var p, w, r := Promoted(x.width, y.width), Wider(x.width, y.width), x.v - y.v;
    FirstCheck(Wrap(r, p), x.width, y.width);
    if Big(w) {
      WrapOnce(r, w);
    } else {
      WrapFits(r, p);
    }
  }

  // --- multiplication ---

  lemma MulAbs(x: int, y: int)
    ensures Abs(x * y) == Abs(x) * Abs(y)
    ensures (x > 0 && y > 0) || (x < 0 && y < 0) ==> x * y > 0
    ensures (x > 0 && y < 0) || (x < 0 && y > 0) ==> x * y < 0
  {}

  lemma DivMul(a: int, b: int)
    requires a >= 0 && b > 0
    ensures (a * b) / b == a
  {
    var q := (a * b) / b;
    assert a * b == q * b + (a * b) % b;
    NoLaps(a - q, b, (a * b) % b);
  }

  // A multiple of b that is closer to zero than b is zero.
  lemma NoLaps(k: int, b: int, d: int)
    requires b > 0 && k * b == d && -b < d < b
    ensures k == 0
  {
    AtLeastOnce(k, b);
  }

  lemma AtLeastOnce(k: int, b: int)
    requires b > 0
    ensures k >= 1 ==> k * b >= b
    ensures k <= -1 ==> k * b <= -b
  {
    if k >= 1 {
      assert (k - 1) * b >= 0;
    } else if k <= -1 {
      assert (-1 - k) * b >= 0;
    }
  }

  // Truncated division undoes multiplication.
  lemma QuotientOfProduct(x: int, y: int)
    requires y != 0
    ensures Quotient(x * y, y) == x
  {
    MulAbs(x, y);
    DivMul(Abs(x), Abs(y));
  }

  lemma QuotientNear(a: int, b: int)
    requires b != 0
    ensures Abs(a - Quotient(a, b) * b) < Abs(b)
  {
    var m, n := Abs(a), Abs(b);
    var q := m / n;
    assert m == n * q + m % n;
    assert Quotient(a, b) * b == if a >= 0 then n * q else -(n * q) by {
      if b > 0 {
        assert n == b;
      } else {
        assert n == -b;
      }
    }
  }

  // A wrapped product that divides back to x has not wrapped.
  lemma DividesBack(x: int, y: int, w: Width)
    requires w.Holds(y) && y != 0
    ensures Quotient(Wrap(x * y, w), y) == x <==> w.Holds(x * y)
  {
    var r := x * y;
    var val := Wrap(r, w);
    if w.Holds(r) {
      WrapFits(r, w);
      QuotientOfProduct(x, y);
    } else {
      var k := WrapLaps(r, w);
      QuotientNear(val, y);
      AtLeastOnce(k, 2 * w.Half());
      assert k != 0;
    }
  }

  lemma SmallProduct(x: int, y: int)
    requires -0x8000 <= x <= 0x8000 && -0x8000 <= y <= 0x8000
    ensures W32.Holds(x * y)
  {
    MulAbs(x, y);
    AtMost(Abs(x), Abs(y), 0x8000);
  }

  lemma AtMost(a: int, b: int, h: int)
    requires 0 <= a <= h && 0 <= b <= h
    ensures a * b <= h * h
  {
    assert (h - a) * b >= 0 && h * (h - b) >= 0;
  }

  // The product fits or fails, for all operands.
  lemma MultiplyFits(x: Operand, y: Operand)
    requires x.Valid() && y.Valid()
    ensures MultiplyValue(x, y) == Fitted(Wider(x.width, y.width), x.v * y.v)
  {
    var p, w, r := Promoted(x.width, y.width), Wider(x.width, y.width), x.v * y.v;
    FirstCheck(Wrap(r, p), x.width, y.width);
    if y.v == 0 {
      WrapFits(0, p);
    } else if Big(w) {
      DividesBack(x.v, y.v, w);
      if w.Holds(r) {
        WrapFits(r, w);
      }
    } else {
      SmallProduct(x.v, y.v);
      WrapFits(r, p);
      QuotientOfProduct(x.v, y.v);
    }
  }

  // The division in that check is never the lowest value by -1, which C++ leaves undefined.
  lemma DivisionDefined(x: Operand, y: Operand)
    requires x.Valid() && y.Valid() && !x.IsNull()
    ensures var w := Wider(x.width, y.width); !(y.v == -1 && Wrap(x.v * y.v, w) == -w.Half())
  {
    var w := Wider(x.width, y.width);
    if y.v == -1 {
      WrapOnce(-x.v, w);
    }
  }

  // --- what is promised, and when it is kept ---

  lemma OperateFits(op: Operation, x: Operand, y: Operand)
    requires x.Valid() && y.Valid() && !x.IsNull() && !y.IsNull()
    ensures Operate(op, x, y) == Fitted(Wider(x.width, y.width), Exactly(op, x.v, y.v))
  {
    match op
    case Plus => AddFits(x, y);
    case Minus => SubtractFits(x, y);
    case Times => MultiplyFits(x, y);
  }

  // Every operation returns the exact legal value or fails exactly when the mathematical result is
  // not the one value that stands for NULL in the wider type; that one comes back as NULL.
  lemma PromiseKeptIff(op: Operation, x: Operand, y: Operand)
    requires x.Valid() && y.Valid()
    ensures var w := Wider(x.width, y.width);
            var lowest := !x.IsNull() && !y.IsNull() && Exactly(op, x.v, y.v) == -w.Half();
            && (Operate(op, x, y) == Promised(op, x, y) <==> !lowest)
            && (lowest ==> Operate(op, x, y) == Null(w))
  {
    if !x.IsNull() && !y.IsNull() {
      OperateFits(op, x, y);
    }
  }

  // TINYINT -64 + -64, INTEGER 2^30 * -2 and BIGINT -2^62 - 2^62 are NULL instead of out of range.
  lemma SumsToNull()
    ensures Operate(Plus, Operand(W8, -64), Operand(W8, -64)) == Null(W8)
    ensures Operate(Minus, Operand(W8, -64), Operand(W16, 32704)) == Null(W16)
    ensures Operate(Times, Operand(W32, 0x4000_0000), Operand(W8, -2)) == Null(W32)
    ensures Operate(Minus, Operand(W64, -0x4000_0000_0000_0000), Operand(W64, 0x4000_0000_0000_0000)) == Null(W64)
  {
    PromiseKeptIff(Plus, Operand(W8, -64), Operand(W8, -64));
    PromiseKeptIff(Minus, Operand(W8, -64), Operand(W16, 32704));
    PromiseKeptIff(Times, Operand(W32, 0x4000_0000), Operand(W8, -2));
    PromiseKeptIff(Minus, Operand(W64, -0x4000_0000_0000_0000), Operand(W64, 0x4000_0000_0000_0000));
  }
}
