/** Shader-argument packing (crates/core/src/shape/compiled/shader/argument.rs):
    each argument kind appends its little-endian words to a shared byte
    buffer and reports where they start, in 4-byte words, and how many
    words it wrote. The tile parameter is unused by all three kinds. */
module ShaderArgument {
  import opened Common
  import opened Bvh
  import opened BvhSerial
  import opened Units

  /** `ShaderArgument { offset, length }`, both in 4-byte words. */
  datatype Argument = Argument(offset: u32, length: u32)

  /** `(buffer.len() / 4) as u32`: the word at which appended data starts. */
  function OffsetOf(buffer: seq<u8>): (offset: u32)
    ensures |buffer| < 4 * TWO_32 ==> 4 * offset <= |buffer| < 4 * offset + 4
  {
    WrapU32(|buffer| / 4)
  }

  /** The eight bytes a point appends: scaled `x` (longitude) then scaled `y` (latitude). */
  function PointData(p: ScaledPoint): seq<u8>
  {
    LeBytesI32(p.lon) + LeBytesI32(p.lat)
  }

  /** The four bytes a distance appends. */
  function CentimetersData(c: Centimeters): seq<u8>
  {
    LeBytesI32(c.value)
  }

  /** `IntoShaderArgument for geo::Point`, from already-scaled coordinates. */
  method PointIntoArgument(p: ScaledPoint, buffer: ByteBuffer) returns (args: seq<Argument>)
    modifies buffer
    ensures buffer.bytes == old(buffer.bytes) + PointData(p)
    ensures args == [Argument(OffsetOf(old(buffer.bytes)), 2)]
  {
    var offset := OffsetOf(buffer.bytes);
    buffer.Extend(LeBytesI32(p.lon));
    buffer.Extend(LeBytesI32(p.lat));
    args := [Argument(offset, 2)];
  }

  /** `IntoShaderArgument for PointBvh`: the length is `serialized_size_u32() as u32`. */
  method BvhIntoArgument(bvh: PointBvh, buffer: ByteBuffer) returns (args: seq<Argument>)
    modifies buffer
    ensures buffer.bytes == old(buffer.bytes) + Serialized(bvh)
    ensures args == [Argument(OffsetOf(old(buffer.bytes)), WrapU32(SerializedSizeU32(bvh)))]
  {
    var offset := OffsetOf(buffer.bytes);
    var length := WrapU32(SerializedSizeU32(bvh));
    WriteBvh(bvh, buffer);
    args := [Argument(offset, length)];
  }

  /** `IntoShaderArgument for Centimeters`. */
  method CentimetersIntoArgument(c: Centimeters, buffer: ByteBuffer) returns (args: seq<Argument>)
    modifies buffer
    ensures buffer.bytes == old(buffer.bytes) + CentimetersData(c)
    ensures args == [Argument(OffsetOf(old(buffer.bytes)), 1)]
  {
    var offset := OffsetOf(buffer.bytes);
    buffer.Extend(LeBytesI32(c.value));
    args := [Argument(offset, 1)];
  }

  // ---------------------------------------------------------------- what a reader of the buffer sees

  /** The `length` words a reader finds at word `offset` of `buffer`. */
  function Window(buffer: seq<u8>, arg: Argument): seq<u8>
    requires 4 * (arg.offset + arg.length) <= |buffer|
  {
    buffer[4 * arg.offset..4 * (arg.offset + arg.length)]
  }

  /** When the buffer is word-aligned, the argument's window is exactly
      the appended data and the earlier bytes are untouched. */
  lemma WindowIsAppended(before: seq<u8>, data: seq<u8>, length: u32)
    requires |before| % 4 == 0 && |before| < 4 * TWO_32 && |data| == 4 * length
    ensures var arg := Argument(OffsetOf(before), length);
      4 * (arg.offset + arg.length) == |before + data|
      && Window(before + data, arg) == data
      && (before + data)[..|before|] == before
  {
  }

  /** The i32 a reader finds at word `k` of `b`. */
  function WordI32(b: seq<u8>, k: nat): i32
    requires 4 * k + 4 <= |b|
  {
    AsSigned(ReadLe(b[4 * k..4 * k + 4]))
  }

  /** A reader of a point argument finds the scaled `x` then the scaled `y`. */
  lemma PointArgumentReadBack(before: seq<u8>, p: ScaledPoint)
    requires |before| % 4 == 0 && |before| < 4 * TWO_32
    ensures var after, off: nat := before + PointData(p), OffsetOf(before);
      |after| == 4 * off + 8 && WordI32(after, off) == p.lon && WordI32(after, off + 1) == p.lat
  {
    var lon, lat := LeBytesI32(p.lon), LeBytesI32(p.lat);
    SliceMiddle(before, lon, lat);
    SliceMiddle(before + lon, lat, []);
    AppendAssoc(before, lon, lat);
    LeBytesI32RoundTrip(p.lon);
    LeBytesI32RoundTrip(p.lat);
  }

  /** A reader of a distance argument finds the centimetre value. */
  lemma CentimetersArgumentReadBack(before: seq<u8>, c: Centimeters)
    requires |before| % 4 == 0 && |before| < 4 * TWO_32
    ensures var after, off: nat := before + CentimetersData(c), OffsetOf(before);
      |after| == 4 * off + 4 && WordI32(after, off) == c.value
  {
    SliceMiddle(before, LeBytesI32(c.value), []);
    LeBytesI32RoundTrip(c.value);
  }

  /** A reader of a hierarchy argument finds exactly `length` words, and
      they parse back into the same hierarchy. */
  lemma BvhArgumentReadBack(before: seq<u8>, bvh: PointBvh)
    requires |before| % 4 == 0 && |before| < 4 * TWO_32
    requires |bvh.nodes| <= U32_MAX && |bvh.points| <= U32_MAX && SerializedSizeU32(bvh) <= U32_MAX
    ensures var arg := Argument(OffsetOf(before), WrapU32(SerializedSizeU32(bvh)));
      4 * (arg.offset + arg.length) == |before + Serialized(bvh)|
      && Parse(Window(before + Serialized(bvh), arg)) == Some(bvh)
  {
    SerializedLength(bvh);
    WindowIsAppended(before, Serialized(bvh), SerializedSizeU32(bvh));
    SerializedRoundTrip(bvh);
  }
}
