/** The mutable 8-bit integer cell `MutableByte`: Java `byte` arithmetic with
    two's-complement wrap-around, written out explicitly. */
module Bytes {
  import opened Lang

  /** Java's `byte`. */
  type Byte = x: int | -128 <= x < 128

  function Abs(x: int): nat { if x < 0 then -x else x }

  /** The narrowing conversion `(byte) x`: keep the low eight bits and read them as
      a two's-complement number. Compound assignments such as `value += n` end with it. */
  function Narrow(x: int): (b: Byte)
    ensures (b - x) % 256 == 0
    ensures -128 <= x < 128 ==> b == x
  {
    (x + 128) % 256 - 128
  }

  /** Java's integer division, which truncates toward zero. */
  function JavaDiv(a: int, b: int): (q: int)
    requires b != 0
    ensures Abs(q) == Abs(a) / Abs(b)
    ensures q < 0 ==> (a < 0) != (b < 0)
    ensures q > 0 ==> (a < 0) == (b < 0)
  {
    var x, y := Abs(a), Abs(b);
    QuotientNonNegative(x, y);
    var m := x / y;
    if (a < 0) == (b < 0) then m else -m
  }

  lemma QuotientNonNegative(x: nat, y: int)
    requires y > 0
    ensures x / y >= 0
  {
  }

  /** A byte magnitude divided by at least two stays within a byte. */
  lemma QuotientSmall(x: nat, y: int)
    requires y >= 2 && x <= 128
    ensures x / y <= 64
  {
    var q, r := x / y, x % y;
    assert x == q * y + r && 0 <= r && q >= 0;
    assert q * y >= q * 2;
  }

  /** Two values that differ by a multiple of 256 narrow to the same byte. */
  lemma NarrowCongruent(x: int, y: int)
    requires (x - y) % 256 == 0
    ensures Narrow(x) == Narrow(y)
  {
    var k := (x - y) / 256;
    assert x + 128 == (y + 128) + 256 * k;
  }

  /** Narrowing an intermediate result does not change a later wrapped sum:
      `(byte)((byte)(a + b) + c) == (byte)(a + b + c)`. */
  lemma NarrowAddAssociates(a: int, b: int, c: int)
    ensures Narrow(Narrow(a + b) + c) == Narrow(a + b + c)
  {
    NarrowCongruent(Narrow(a + b) + c, a + b + c);
  }

  /** Adding `n` and then subtracting `n` restores every byte, even across a wrap. */
  lemma AddThenSubtract(v: Byte, n: Byte)
    ensures Narrow(Narrow(v + n) - n) == v
  {
    NarrowCongruent(Narrow(v + n) - n, v);
  }

  /** The one quotient that overflows: -128 / -1 is 128, which wraps back to -128. */
  lemma DivideOverflow()
    ensures Narrow(JavaDiv(-128, -1)) == -128
  {
  }

  /** Apart from -128 / -1, a byte quotient needs no wrap. */
  lemma DivideNoOverflow(v: Byte, n: Byte)
    requires n != 0 && !(v == -128 && n == -1)
    ensures Narrow(JavaDiv(v, n)) == JavaDiv(v, n)
  {
    var q := JavaDiv(v, n);
    if Abs(n) == 1 {
      assert Abs(v) / 1 == Abs(v);
      assert q == v || q == -v;
    } else {
      QuotientSmall(Abs(v), Abs(n));
    }
  }

  class MutableByte {
    var value: Byte

    /** `MutableByte(byte value)`. */
    constructor (value: Byte)
      ensures this.value == value
    {
      this.value := value;
    }

    /** `MutableByte()`: starts at zero. */
    constructor Default()
      ensures value == 0
    {
      value := 0;
    }

    /** `equals(Object)`: same class and same value. The identity shortcut of the
        source gives the same answer as the value comparison. */
    predicate Equals(other: object?)
      reads this, other
      ensures Equals(other) <==> other is MutableByte && (other as MutableByte).value == value
    {
      this == other || (other != null && other is MutableByte && value == (other as MutableByte).value)
    }

    /** `hashCode()`: the int value, so that equal cells hash alike. */
    function HashCode(): (h: int)
      reads this
      ensures -128 <= h < 128 && h == value
    {
      IntValue()
    }

    /** `compareTo(MutableByte)`, i.e. `Byte.compare`, which returns the difference. */
    function CompareTo(other: MutableByte): (c: int)
      reads this, other
      ensures c < 0 <==> value < other.value
      ensures c > 0 <==> value > other.value
      ensures c == 0 <==> Equals(other)
      ensures -255 <= c <= 255
    {
      value - other.value
    }

    /** `setValue(byte)`. */
    method SetValue(v: Byte)
      modifies this
      ensures value == v
    {
      value := v;
    }

    /** `add(byte)`: `value += number`, wrapping, and returns this cell. */
    method Add(number: Byte) returns (r: MutableByte)
      modifies this
      ensures r == this
      ensures value == Narrow(old(value) + number)
      ensures (value - (old(value) + number)) % 256 == 0
    {
      value := Narrow(value + number);
      r := this;
    }

    /** `subtract(byte)`: `value -= number`, wrapping. */
    method Subtract(number: Byte) returns (r: MutableByte)
      modifies this
      ensures r == this
      ensures value == Narrow(old(value) - number)
      ensures (value - (old(value) - number)) % 256 == 0
    {
      value := Narrow(value - number);
      r := this;
    }

    /** `multiply(byte)`: `value *= number`, wrapping. */
    method Multiply(number: Byte) returns (r: MutableByte)
      modifies this
      ensures r == this
      ensures value == Narrow(old(value) * number)
      ensures (value - old(value) * number) % 256 == 0
    {
      value := Narrow(value * number);
      r := this;
    }

    /** `divide(byte)`: `value /= number`, truncating toward zero and wrapping; a zero
        divisor raises ArithmeticException before the field is written. */
    method Divide(number: Byte) returns (r: Result<MutableByte>)
      modifies this
      ensures number == 0 ==> r == Err(ArithmeticException) && value == old(value)
      ensures number != 0 ==> r == Ok(this) && value == Narrow(JavaDiv(old(value), number))
      ensures number != 0 && !(old(value) == -128 && number == -1) ==> value == JavaDiv(old(value), number)
      ensures number == -1 && old(value) == -128 ==> value == -128
    {
      if number == 0 {
        return Err(ArithmeticException);
      }
      DivideNoOverflowAt(value, number);
      value := Narrow(JavaDiv(value, number));
      r := Ok(this);
    }

    /** `min(byte)`: the smaller operand, which is already a byte. */
    method Min(number: Byte) returns (r: MutableByte)
      modifies this
      ensures r == this
      ensures value <= old(value) && value <= number
      ensures value == old(value) || value == number
    {
      value := Narrow(if value <= number then value else number);
      r := this;
    }

    /** `max(byte)`: the larger operand. */
    method Max(number: Byte) returns (r: MutableByte)
      modifies this
      ensures r == this
      ensures value >= old(value) && value >= number
      ensures value == old(value) || value == number
    {
      value := Narrow(if value >= number then value else number);
      r := this;
    }

    /** `abs()`: `(byte) Math.abs(intValue())`; |-128| = 128 wraps back to -128. */
    method Abs() returns (r: MutableByte)
      modifies this
      ensures r == this
      ensures old(value) == -128 ==> value == -128
      ensures old(value) != -128 ==> value >= 0 && (value == old(value) || value == -old(value))
    {
      value := Narrow(if value < 0 then -(value as int) else value);
      r := this;
    }

    /** `toByte()` and `byteValue()`. */
    function ByteValue(): (b: Byte)
      reads this
      ensures b == value
    {
      value
    }

    /** `intValue()`: sign-extends the byte. */
    function IntValue(): (i: int)
      reads this
      ensures -128 <= i < 128 && i == value
    {
      value as int
    }

    /** `longValue()`: sign-extends the byte. */
    function LongValue(): (l: int)
      reads this
      ensures -128 <= l < 128 && l == value
    {
      value as int
    }
  }

  lemma DivideNoOverflowAt(v: Byte, n: Byte)
    requires n != 0
    ensures !(v == -128 && n == -1) ==> Narrow(JavaDiv(v, n)) == JavaDiv(v, n)
  {
    if !(v == -128 && n == -1) {
      DivideNoOverflow(v, n);
    }
  }

  /** `setValue(b)` followed by any integral accessor gives back `b`. */
  method SetThenRead(cell: MutableByte, b: Byte) returns (asByte: Byte, asInt: int, asLong: int)
    modifies cell
    ensures asByte == b && asInt == b && asLong == b
  {
    cell.SetValue(b);
    asByte, asInt, asLong := cell.ByteValue(), cell.IntValue(), cell.LongValue();
  }

  /** Equal cells have equal hash codes. */
  lemma HashCodeConsistent(a: MutableByte, b: MutableByte)
    requires a.Equals(b)
    ensures a.HashCode() == b.HashCode()
  {
  }

  /** `compareTo` is antisymmetric and zero exactly on equal cells. */
  lemma CompareToAntisymmetric(a: MutableByte, b: MutableByte)
    ensures a.CompareTo(b) == -b.CompareTo(a)
    ensures a.CompareTo(b) == 0 <==> a.Equals(b) && b.Equals(a)
  {
  }
}
