/** The distance and position types of crates/core/src/shape/types.rs:
    centimetres held in an `i32`, converted to and from millimetres held in
    an `i64`, and a position made of two centimetre coordinates. */
module Units {
  import opened Common

  /** `Centimeters(pub i32)`. */
  datatype Centimeters = Centimeters(value: i32)

  /** `Position(pub IVec2)`: two `i32` components. */
  datatype Position = Position(x: i32, y: i32)

  /** `as_millimeters`: widened to `i64` before multiplying by ten. */
  function AsMillimeters(c: Centimeters): (mm: i64)
    ensures mm % 10 == 0
    ensures (mm < 0 <==> c.value < 0) && (mm == 0 <==> c.value == 0)
  {
    c.value * 10
  }

  /** `from_millimeters`: Rust's `/` truncates toward zero, and `as i32`
      keeps the low 32 bits of the quotient. */
  function FromMillimeters(mm: i64): (c: Centimeters)
    ensures I32_MIN <= TruncDiv(mm, 10) <= I32_MAX ==>
      (mm >= 0 ==> 0 <= mm - 10 * c.value < 10) && (mm < 0 ==> -10 < mm - 10 * c.value <= 0)
    ensures (c.value - TruncDiv(mm, 10)) % TWO_32 == 0
  {
    Centimeters(WrapI32(TruncDiv(mm, 10)))
  }

  /** Every centimetre value survives the trip through millimetres. */
  lemma MillimetersRoundTrip(c: Centimeters)
    ensures FromMillimeters(AsMillimeters(c)) == c
  {
    var mm := AsMillimeters(c);
    if mm >= 0 {
      assert mm as int / 10 == c.value;
    } else {
      assert (-mm as int) / 10 == -(c.value as int);
    }
  }

  /** Truncation, not flooring: -15 mm is -1 cm (a flooring division would give -2), and -5 mm is 0 cm. */
  lemma FromMillimetersTruncates()
    ensures FromMillimeters(-15) == Centimeters(-1)
    ensures FromMillimeters(-5) == Centimeters(0)
    ensures FromMillimeters(15) == Centimeters(1)
  {
  }

  /** A quotient outside the `i32` range wraps rather than saturating. */
  lemma FromMillimetersWraps()
    ensures FromMillimeters(10 * 0x8000_0000) == Centimeters(I32_MIN)
  {
  }

  /** `Position::new`. */
  function NewPosition(x: Centimeters, y: Centimeters): (p: Position)
  {
    Position(x.value, y.value)
  }

  /** `Position::x`. */
  function X(p: Position): (c: Centimeters)
  {
    Centimeters(p.x)
  }

  /** `Position::y`. */
  function Y(p: Position): (c: Centimeters)
  {
    Centimeters(p.y)
  }

  /** The accessors return what `new` was given, and `new` rebuilds any position from them. */
  lemma PositionAccessors(x: Centimeters, y: Centimeters, p: Position)
    ensures X(NewPosition(x, y)) == x && Y(NewPosition(x, y)) == y
    ensures NewPosition(X(p), Y(p)) == p
  {
  }
}
