/** Machine-integer vocabulary shared by the model: Rust's fixed-width
    integer types as ranges of mathematical integers, the wrap-around that a
    release build applies to them, truncating division, and the little-endian
    byte layout of 32-bit values. */
module Common {

  datatype Option<T> = None | Some(value: T)

  const TWO_32: int := 0x1_0000_0000
  const I32_MIN: int := -0x8000_0000
  const I32_MAX: int := 0x7FFF_FFFF
  const U32_MAX: int := 0xFFFF_FFFF
  const I64_MIN: int := -0x8000_0000_0000_0000
  const I64_MAX: int := 0x7FFF_FFFF_FFFF_FFFF

  type i32 = x: int | I32_MIN <= x <= I32_MAX
  type i64 = x: int | I64_MIN <= x <= I64_MAX
  type u32 = x: int | 0 <= x <= U32_MAX
  type u8 = x: int | 0 <= x < 256

  /** The i32 with the same low 32 bits as `v` (two's-complement wrap-around). */
  function WrapI32(v: int): (r: i32)
    ensures (r - v) % TWO_32 == 0
    ensures I32_MIN <= v <= I32_MAX ==> r == v
  {
    (v - I32_MIN) % TWO_32 + I32_MIN
  }

  /** The u32 with the same low 32 bits as `v`. */
  function WrapU32(v: int): (r: u32)
    ensures (r - v) % TWO_32 == 0
    ensures 0 <= v <= U32_MAX ==> r == v
  {
    v % TWO_32
  }

  /** Two integers of one 2^32-wide window that agree modulo 2^32 are equal. */
  lemma CongruentInWindow(a: int, b: int, lo: int)
    requires lo <= a < lo + TWO_32 && lo <= b < lo + TWO_32
    requires (a - b) % TWO_32 == 0
    ensures a == b
  {
  }

  /** Wrapping subtraction undone by wrapping addition: the i32 cursor
      arithmetic of an encoder and a decoder cancels out. */
  lemma WrapAddSub(base: i32, target: i32)
    ensures WrapI32(base + WrapI32(target - base)) == target
  {
    var d := WrapI32(target - base);
    var r := WrapI32(base + d);
    var k := (d - (target - base)) / TWO_32;
    assert d - (target - base) == k * TWO_32;
    var j := (r - (base + d)) / TWO_32;
    assert r - (base + d) == j * TWO_32;
    assert r - target == (j + k) * TWO_32;
    assert (r - target) % TWO_32 == 0;
    CongruentInWindow(r, target, I32_MIN);
  }

  /** Rust's `/` on integers: the quotient truncated toward zero. */
  function TruncDiv(a: int, b: int): (q: int)
    requires b > 0
    ensures a >= 0 ==> 0 <= a - b * q < b
    ensures a < 0 ==> -b < a - b * q <= 0
  {
    if a >= 0 then a / b else -((-a) / b)
  }

  /** Bytes of a u32 in little-endian order (`u32::to_le_bytes`). */
  function LeBytes(v: u32): (b: seq<u8>)
    ensures |b| == 4
  {
    [v % 0x100, v / 0x100 % 0x100, v / 0x1_0000 % 0x100, v / 0x100_0000 % 0x100]
  }

  /** Bytes of an i32 in little-endian two's-complement order (`i32::to_le_bytes`). */
  function LeBytesI32(v: i32): (b: seq<u8>)
    ensures |b| == 4
  {
    LeBytes(WrapU32(v))
  }

  /** Reads back a little-endian u32 (`u32::from_le_bytes`). */
  function ReadLe(b: seq<u8>): (v: u32)
    requires |b| == 4
  {
    b[0] as int + 0x100 * b[1] as int + 0x1_0000 * b[2] as int + 0x100_0000 * b[3] as int
  }

  /** The i32 whose two's-complement bits are the u32 `v`. */
  function AsSigned(v: u32): (r: i32)
    ensures WrapU32(r) == v
  {
    if v <= I32_MAX then v else v - TWO_32
  }

  /** A non-empty sequence is its prefix followed by its last element. */
  lemma InitLast<T>(s: seq<T>)
    requires s != []
    ensures s[..|s| - 1] + [s[|s| - 1]] == s
  {
  }

  /** Extending a prefix by one element. */
  lemma PrefixStep<T>(s: seq<T>, i: nat)
    requires i < |s|
    ensures s[..i + 1] == s[..i] + [s[i]] && s[..i + 1][..i] == s[..i]
  {
  }

  /** Concatenation is associative. */
  lemma AppendAssoc<T>(a: seq<T>, b: seq<T>, c: seq<T>)
    ensures a + b + c == a + (b + c)
  {
  }

  /** A sequence is its prefix followed by the rest. */
  lemma TakeDrop<T>(s: seq<T>, i: nat)
    requires i <= |s|
    ensures s[..i] + s[i..] == s
  {
  }

  /** Appending nothing leaves a sequence as it is. */
  lemma AppendNil<T>(s: seq<T>)
    ensures s + [] == s
  {
  }

  /** Appending two elements one at a time appends their pair. */
  lemma AppendPair<T>(s: seq<T>, a: T, b: T)
    ensures s + [a] + [b] == s + [a, b]
  {
  }

  /** Regrouping a four-part concatenation. */
  lemma AppendThree<T>(a: seq<T>, b: seq<T>, c: seq<T>, d: seq<T>)
    ensures a + b + c + d == a + (b + c + d)
  {
  }

  /** The middle part of a concatenation is found at its own offset. */
  lemma SliceMiddle<T>(a: seq<T>, x: seq<T>, c: seq<T>)
    ensures (a + x + c)[|a|..|a| + |x|] == x
  {
  }

  /** A byte vector the caller lends by mutable reference (`&mut Vec<u8>`). */
  class ByteBuffer {
    var bytes: seq<u8>

    constructor (initial: seq<u8>)
      ensures bytes == initial
    {
      bytes := initial;
    }

    /** `Vec::extend_from_slice`. */
    method Extend(more: seq<u8>)
      modifies this
      ensures bytes == old(bytes) + more
    {
      bytes := bytes + more;
    }
  }

  lemma {:induction false} LeBytesRoundTrip(v: u32)
    ensures ReadLe(LeBytes(v)) == v
  {
    var b0, b1, b2, b3 := v % 0x100, v / 0x100 % 0x100, v / 0x1_0000 % 0x100, v / 0x100_0000;
    assert v / 0x100_0000 < 0x100;
    assert v / 0x100 == b1 + 0x100 * (v / 0x1_0000);
    assert v / 0x1_0000 == b2 + 0x100 * b3;
    assert v == b0 + 0x100 * (v / 0x100);
  }

  lemma LeBytesI32RoundTrip(v: i32)
    ensures AsSigned(ReadLe(LeBytesI32(v))) == v
  {
    LeBytesRoundTrip(WrapU32(v));
  }

  /** `a` is `b` with some elements left out, the rest in order. */
  predicate SubsequenceOf<T(==)>(a: seq<T>, b: seq<T>)
    decreases |b|
  {
    if b == [] then a == []
    else
      (a != [] && a[|a| - 1] == b[|b| - 1] && SubsequenceOf(a[..|a| - 1], b[..|b| - 1]))
      || SubsequenceOf(a, b[..|b| - 1])
  }

  /** Keeping or skipping one more element of `b`. */
  lemma SubsequenceSnoc<T>(a: seq<T>, b: seq<T>, x: T)
    requires SubsequenceOf(a, b)
    ensures SubsequenceOf(a, b + [x]) && SubsequenceOf(a + [x], b + [x])
  {
    assert (b + [x])[..|b|] == b;
    assert (a + [x])[..|a|] == a;
  }
}
