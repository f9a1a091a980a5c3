# jet-lag-mobile core, modelled in Dafny

This project models the computational core of jet-lag-mobile, a hide-and-seek
map game. Questions become signed-distance shapes, and the shapes are drawn on a
map as custom layers. It covers seven parts:

- **Vector-tile geometry codec** (`tools/pmtiles-clip`): the MVT command stream
  (`decode_geometry`, `encode_geometry`, zigzag coding), the tile path parser, and
  the `GeomType` / `Feature` / `Layer` helpers of the generated protobuf types.
  Modules `GeometryCodec`, `TilePath` and `VectorTile`.
- **Point BVH** (`shape/bvh.rs`): the in-place build over an index array, its node
  layout, and its little-endian GPU serialisation. Modules `Bvh` and `BvhSerial`.
  The shader-argument packing (`argument.rs`) is in `ShaderArgument`, and the
  `Centimeters` and `Position` helpers (`types.rs`) are in `Units`.
- **SDF shader routine generators** (`routine/*.rs`): `compile_subtract`,
  `compile_invert`, `compile_edge`, `compile_dilate` and `compile_intersection`.
  They append to a naga function's expression arena, local variables and body.
  Module `SdfRoutine`.
- **WGSL import composer** (`crates/core/build.rs`): module naming,
  `collect_imports`, `strip_directives` and `compose_shader`. Module
  `ShaderCompose`.
- **Resource bundle accounting** (`resource/bundle.rs`). Module `ResourceBundles`.
- **Question-to-shape rules**:
  - `ShapeError::missing_data`, in module `Question`;
  - measuring questions (`to_shape` and `build_into`), in `Measuring`;
  - tentacle questions, in `Tentacle`;
  - radar questions, in `Radar`.

  All of them drive a shape compiler. The compiler is modelled as an instruction
  log (`ShapeCompiler`): every call appends one instruction and returns its
  index as the register.
- **Custom map layers**:
  - the Rust vtable and its four entry points, in `CustomLayers`;
  - the C++ host that copies the table and forwards the map's callbacks, in
    `CustomLayerHosts`;
  - the transit layer's global slot, in `TransitLayers`.

  A panic is an `Outcome` value. The calls a layer value receives are recorded as
  a trace.

Rust integers are fixed-width, while Dafny's are unbounded. The model therefore
writes out every wrap-around:

- `i32` / `u32` arithmetic is done modulo 2^32 (`Common.WrapI32`,
  `Common.WrapU32`);
- Rust's truncating `/` is `Common.TruncDiv`;
- `as u32` casts are explicit wraps.

`from_millimeters` casts the quotient with `as i32`, which keeps its low 32
bits; the model follows the code (`Units.FromMillimetersWraps`).

The bit operations of the codec (`& 7`, `>> 3`, `<< 3`, the zigzag xor with a sign
mask) are written arithmetically on `int`: `% 8`, `/ 8`, `* 8` wrapped modulo
2^32, and the zigzag value formula. Comments beside each function give the
identity used.

## Model

| member | source | states |
|---|---|---|
| GeometryCodec.ZigzagDecode | tools/pmtiles-clip/src/main.rs:505-507 | even inputs decode to non-negative values, odd inputs to negative ones |
| GeometryCodec.ZigzagEncodeValue | tools/pmtiles-clip/src/main.rs:509-511 | encoding maps 0, -1, 1, -2, 2, … to 0, 1, 2, 3, 4, …: `2n` for `n >= 0`, `-2n - 1` below |
| GeometryCodec.ZigzagRoundTrip | tools/pmtiles-clip/src/main.rs:505-511 | `zigzag_decode(zigzag_encode(n)) == n` for every i32 |
| GeometryCodec.ZigzagDecodeRoundTrip | tools/pmtiles-clip/src/main.rs:505-511 | `zigzag_encode(zigzag_decode(u)) == u` for every u32, so zigzag is a bijection |
| GeometryCodec.CommandId | tools/pmtiles-clip/src/main.rs:441-442 | the id taken from a header is its low three bits, below 8 |
| GeometryCodec.CommandCount | tools/pmtiles-clip/src/main.rs:443 | the count taken from a header is the rest of the bits, below 2^29 |
| GeometryCodec.DecodeParams | tools/pmtiles-clip/src/main.rs:450-463 | a run yields at most `count` points and consumes exactly two integers per point |
| GeometryCodec.DecodeParamsStep | tools/pmtiles-clip/src/main.rs:451-462 | one pair read off the front moves the cursor by its decoded deltas and becomes the first point |
| GeometryCodec.ReadParams | tools/pmtiles-clip/src/main.rs:450-463 | the parameter loop over the index and cursor reads exactly what `DecodeParams` describes |
| GeometryCodec.DecodeGeometry | tools/pmtiles-clip/src/main.rs:434-474 | the decoder loop returns `Decode(geometry)`, the command list of the stream read from cursor (0, 0) |
| GeometryCodec.DecodedCommandsWellFormed | tools/pmtiles-clip/src/main.rs:444-470 | every decoded command is MoveTo, LineTo or ClosePath, and a ClosePath has no points |
| GeometryCodec.UnknownCommandSkipped | tools/pmtiles-clip/src/main.rs:469 | a header with any other id is dropped alone and consumes no parameters |
| GeometryCodec.RoundTripClose | tools/pmtiles-clip/src/main.rs:466-468 | a ClosePath header decodes to a ClosePath with no points and consumes nothing more |
| GeometryCodec.DecodeParamsLength | tools/pmtiles-clip/src/main.rs:450-455 | a run yields `count` points, or as many whole pairs as remain when the stream is short, and consumes exactly those |
| GeometryCodec.DecodeParamsAbsolute | tools/pmtiles-clip/src/main.rs:436-462 | coordinates are absolute: point k is point k-1 (the incoming cursor for k = 0) moved by delta pair k |
| GeometryCodec.DecodeParamsCursor | tools/pmtiles-clip/src/main.rs:436-462 | the cursor carried to the next command is the last point read, or unchanged when none was read |
| GeometryCodec.Header | tools/pmtiles-clip/src/main.rs:487-488 | the MoveTo/LineTo header decodes back to the command's id and, below 2^29 points, its point count |
| GeometryCodec.EncodeParams | tools/pmtiles-clip/src/main.rs:490-499 | two zigzagged deltas per point |
| GeometryCodec.WriteParams | tools/pmtiles-clip/src/main.rs:490-499 | the delta loop appends `EncodeParams` of the points and leaves the cursor at the last point |
| GeometryCodec.EncodeGeometry | tools/pmtiles-clip/src/main.rs:476-503 | the encoder loop returns `Encode(commands)` |
| GeometryCodec.EncodeFromStep | tools/pmtiles-clip/src/main.rs:486-500 | a MoveTo/LineTo is written as its header, its deltas from the previous point, then the rest from its last point |
| GeometryCodec.ClosePathEncoding | tools/pmtiles-clip/src/main.rs:482-485 | a ClosePath is written as the single integer 15 whatever points it lists, and 15 reads back as id 7, count 1 |
| GeometryCodec.MovedToEncoded | tools/pmtiles-clip/src/main.rs:458-459 | moving the cursor by the encoded wrapped delta towards `p` lands on `p` |
| GeometryCodec.ParamsRoundTrip | tools/pmtiles-clip/src/main.rs:450-463 | reading back a run's encoded deltas recovers the points and ends at the last one |
| GeometryCodec.RoundTripParamsCommand | tools/pmtiles-clip/src/main.rs:434-503 | a representable MoveTo/LineTo reads back as itself whatever follows it |
| GeometryCodec.RoundTripFrom | tools/pmtiles-clip/src/main.rs:434-503 | decoding the encoding of representable commands gives them back from any cursor |
| GeometryCodec.RoundTrip | tools/pmtiles-clip/src/main.rs:434-503 | `decode_geometry(encode_geometry(cs)) == cs` for every list of MoveTo/LineTo with fewer than 2^29 points and ClosePath without points; i32 wrap-around cancels, so no premise on coordinate sums is needed |
| TilePath.Decimal | tools/pmtiles-clip/src/main.rs:691-693 | the rendering of a number is a non-empty digit string |
| TilePath.ParseUnsigned | tools/pmtiles-clip/src/main.rs:691-693 | a successful parse never exceeds the type's maximum |
| TilePath.ParseDecimal | tools/pmtiles-clip/src/main.rs:691-693 | every value that fits parses back from its decimal rendering |
| TilePath.ParseOverflow | tools/pmtiles-clip/src/main.rs:691-693 | a value above the maximum is rejected, with or without a leading `+` |
| TilePath.ParseSigns | tools/pmtiles-clip/src/main.rs:691-693 | a leading `+` is accepted, a leading `-` is not, and an empty string or a lone sign is rejected |
| TilePath.ParseSound | tools/pmtiles-clip/src/main.rs:691-693 | a successful parse saw only digits after an optional `+`, and returns their value |
| TilePath.Stem | tools/pmtiles-clip/src/main.rs:687 | the stem is the longest prefix before the first `.` |
| TilePath.StemOfExtension | tools/pmtiles-clip/src/main.rs:687 | the stem of `digits.ext` is `digits` |
| TilePath.ParseTilePath | tools/pmtiles-clip/src/main.rs:682-685 | fewer than three components give None |
| TilePath.ParseTilePathRoundTrip | tools/pmtiles-clip/src/main.rs:680-696 | `…/{z}/{x}/{y}.{ext}` parses to (z, x, y) whatever directories precede it |
| TilePath.ParseTilePathZoomOverflow | tools/pmtiles-clip/src/main.rs:693 | a zoom above 255 makes the whole path unparseable |
| TilePath.ParseTilePathExact | tools/pmtiles-clip/src/main.rs:680-696 | a `…/z/x/row` path parses exactly when the zoom, the column and the row's stem all parse, and then to the tile of their values |
| VectorTile.Discriminant | tools/pmtiles-clip/src/vector_tile.rs:9-17 | the discriminants lie in 0..=3 |
| VectorTile.TryFrom | tools/pmtiles-clip/src/vector_tile.rs:30-41 | `try_from(v)` is Ok exactly for 0..=3, with the variant of that discriminant, and otherwise Err carrying `v` |
| VectorTile.TryFromDiscriminant | tools/pmtiles-clip/src/vector_tile.rs:9-41 | `try_from(g as i32) == Ok(g)` for every variant |
| VectorTile.GetTypeAgreesWithTryFrom | tools/pmtiles-clip/src/vector_tile.rs:74-83 | for 1, 2 and 3 `get_type` gives the same variant as `try_from` |
| VectorTile.GetTypeUnknownCases | tools/pmtiles-clip/src/vector_tile.rs:74-83 | `get_type` is Unknown exactly when the field is absent or outside 1..=3 |
| VectorTile.AsStrNameInjective | tools/pmtiles-clip/src/vector_tile.rs:19-28 | the four names are pairwise distinct |
| VectorTile.DefaultLayer | tools/pmtiles-clip/src/vector_tile.rs:85-99 | prost's derived default stores version 1 and an empty name and leaves the optional `extent` absent, which `Extent` reads as the schema default 4096 |
| VectorTile.Extent | tools/pmtiles-clip/src/vector_tile.rs:97-98 | the extent read is the stored value, or 4096 when absent |
| Units.AsMillimeters | crates/core/src/shape/types.rs:7-9 | the millimetres are a multiple of ten with the sign of the centimetres |
| Units.FromMillimeters | crates/core/src/shape/types.rs:11-13 | the quotient is truncated toward zero, and the result keeps its low 32 bits |
| Units.MillimetersRoundTrip | crates/core/src/shape/types.rs:7-13 | `from_millimeters(as_millimeters(c)) == c` for every c |
| Units.FromMillimetersTruncates | crates/core/src/shape/types.rs:11-13 | -15 mm is -1 cm and -5 mm is 0 cm (truncation, not flooring) |
| Units.FromMillimetersWraps | crates/core/src/shape/types.rs:11-13 | a quotient outside i32 wraps rather than saturating |
| Units.PositionAccessors | crates/core/src/shape/types.rs:27-38 | `Position::new(x, y).x() == x`, `.y() == y`, and `new` rebuilds any position from its accessors |
| Common.WrapI32 | crates/core/src/shape/bvh.rs:129-130 | the i32 with the same low 32 bits, equal to the input when it fits |
| Common.WrapU32 | crates/core/src/shape/bvh.rs:174-175 | the u32 with the same low 32 bits (`as u32`), equal to the input when it fits |
| Common.TruncDiv | crates/core/src/shape/types.rs:12 | Rust's `/`: the remainder has the dividend's sign and is smaller than the divisor |
| Common.LeBytesRoundTrip | crates/core/src/shape/bvh.rs:23-31 | `u32::to_le_bytes` reads back as the same value |
| Common.LeBytesI32RoundTrip | crates/core/src/shape/bvh.rs:23-31 | `i32::to_le_bytes` reads back as the same value |
| Common.ByteBuffer.Extend | crates/core/src/shape/compiled/shader/argument.rs:21-22 | `extend_from_slice` appends and changes nothing before |
| Bvh.BoundsOfExact | crates/core/src/shape/bvh.rs:85-100 | the accumulated min/max are exactly the extremes of the points: all inside, each limit attained |
| Bvh.BoundsOfPermutation | crates/core/src/shape/bvh.rs:85-100 | the bounds do not depend on the order of the points |
| Bvh.Gather | crates/core/src/shape/bvh.rs:77 | point k of the gathered list is the point index k names |
| Bvh.GatherPermutation | crates/core/src/shape/bvh.rs:72-77 | index lists that are permutations of each other gather permutations of the same points |
| Bvh.SortByKeySorted | crates/core/src/shape/bvh.rs:134-138 | `sort_by_key` orders the indices by key and keeps exactly the same indices |
| Bvh.SortRangeSplice | crates/core/src/shape/bvh.rs:135-137 | sorting `indices[start..end]` leaves prefix and suffix alone and sorts the range |
| Bvh.SortRangePermutes | crates/core/src/shape/bvh.rs:135-137 | sorting a range permutes the indices |
| Bvh.SortRangeSorted | crates/core/src/shape/bvh.rs:135-137 | after sorting, the range is ordered by key |
| Bvh.SortRangeOutside | crates/core/src/shape/bvh.rs:135-137 | no index outside the range moves |
| Bvh.SortRangeByKey | crates/core/src/shape/bvh.rs:135-137 | the in-place sort leaves `indices` as `SortRange` of its old contents |
| Bvh.SplitOnLatAgrees | crates/core/src/shape/bvh.rs:129-131 | when neither extent overflows i32, the as-written and the corrected axis choice agree |
| Bvh.SplitOnLatOverflow | crates/core/src/shape/bvh.rs:114-131 | over nine points (more than `MAX_LEAF_SIZE`, so the range is split): longitude -1.8·10^9 at latitude 1, longitude 1.8·10^9 at latitude 0 and seven at the origin, the bounds span longitudes ±1.8·10^9 and latitudes 0..1; the as-written axis choice picks latitude, the intended one longitude |
| Bvh.BuildOverflowDiffers | crates/core/src/shape/bvh.rs:114-138 | over the same nine points the two axis choices build different point orders: the intended build puts the westmost point first, the as-written build a point at latitude 0 |
| Bvh.BoundsOverGather | crates/core/src/shape/bvh.rs:85-100 | the bounds over `start..end` of the index array are the bounds of the gathered points |
| Bvh.ComputeBounds | crates/core/src/shape/bvh.rs:85-100 | the min/max loop returns the bounds of `points[indices[i]]` for i in `start..end` |
| Bvh.Size | crates/core/src/shape/bvh.rs:102-162 | every tree has at least one node |
| Bvh.Flatten | crates/core/src/shape/bvh.rs:143-159 | the flattened tree has exactly one entry per node |
| Bvh.Mid | crates/core/src/shape/bvh.rs:140 | the split point `start + count / 2` lies in the range |
| Bvh.PatchInternal | crates/core/src/shape/bvh.rs:143-159 | patching the placeholder with `node_index + 1` and the right child's index gives node, left subtree, right subtree |
| Bvh.FlattenInternal | crates/core/src/shape/bvh.rs:143-159 | an internal node is pushed before its left subtree, which comes before its right subtree |
| Bvh.BuildRecursive | crates/core/src/shape/bvh.rs:102-162 | `build_recursive` appends the flattened tree over the range, reorders `indices` as `BuildOrder`, and returns the root's index; the split axis is chosen from the wrapping `i32` extents, as written |
| Bvh.BuildChildren | crates/core/src/shape/bvh.rs:128-161 | a range too large for a leaf is sorted on latitude exactly when its wrapped `i32` latitude extent exceeds its wrapped longitude extent, then both halves are built into the same result |
| Bvh.BuildHalves | crates/core/src/shape/bvh.rs:143-159 | placeholder, left half, right half, patch: the nodes and index order of an internal node |
| Bvh.Build | crates/core/src/shape/bvh.rs:45-83 | `PointBvh::build` returns `BuildSpec(AsWritten, points)`, the build with the wrapping axis choice of `build_recursive` |
| Bvh.BuildOrderPermutes | crates/core/src/shape/bvh.rs:102-162 | building only permutes the indices, and only inside `start..end` |
| Bvh.BuildOrderValid | crates/core/src/shape/bvh.rs:102-162 | every index stays a valid point index |
| Bvh.BuildTreeCovers | crates/core/src/shape/bvh.rs:114-159 | the leaves cover every position of the range exactly once, in position order, with u32 indices |
| Bvh.FlattenCovers | crates/core/src/shape/bvh.rs:114-159 | the flattened leaf nodes cover what the tree's leaves cover |
| Bvh.BuildTreeShape | crates/core/src/shape/bvh.rs:114-159 | every leaf holds 1 to 8 points and there are fewer than two nodes per point |
| Bvh.FlattenLayout | crates/core/src/shape/bvh.rs:114-159 | every internal node's left child is the very next node and its right child lies further on inside the list; every leaf has right child 0 and at most 8 points |
| Bvh.RootBounds | crates/core/src/shape/bvh.rs:109-121 | the root's bounds are exactly the extent of the range's points |
| Bvh.BuildTreeExact | crates/core/src/shape/bvh.rs:109-159 | every node of the tree over a range carries exactly the bounds of the points the build leaves in that node's range; internal nodes split their range at the midpoint |
| Bvh.RangeBoundsExact | crates/core/src/shape/bvh.rs:109-140 | the bounds computed before a range is sorted and split stay exact for the points the build finally leaves in it |
| Bvh.BuildRulesAgreeOn | crates/core/src/shape/bvh.rs:128-159 | on points whose coordinate differences fit an `i32`, the as-written and the intended axis choice give the same index order and tree over any range |
| Bvh.BuildRulesAgree | crates/core/src/shape/bvh.rs:45-83 | `PointBvh::build` with the intended axis choice builds exactly what the code as written builds whenever no extent overflows |
| Bvh.BuildSpecProperties | crates/core/src/shape/bvh.rs:45-83 | under either axis rule: no points give one all-zero node; otherwise the points are a permutation of the input, the leaves partition `0..n` in node order, each left child follows its parent, leaves are small, and every node of the flattened tree carries exactly the bounds of its range of stored points (the root: of all points) |
| BvhSerial.NodeBytes | crates/core/src/shape/bvh.rs:23-31 | a node is 28 bytes |
| BvhSerial.NodeRoundTrip | crates/core/src/shape/bvh.rs:23-31 | each of the seven fields lands at its own little-endian offset, in declaration order |
| BvhSerial.PointRoundTrip | crates/core/src/shape/bvh.rs:182-186 | a point is written `lon` then `lat` and reads back |
| BvhSerial.SerializedLength | crates/core/src/shape/bvh.rs:165-187 | the serialised hierarchy is exactly `4 * serialized_size_u32()` bytes |
| BvhSerial.SerializedRoundTrip | crates/core/src/shape/bvh.rs:172-187 | node count, point count, nodes, points: reading the bytes back gives the same hierarchy when both counts fit a u32 |
| BvhSerial.WriteNode | crates/core/src/shape/bvh.rs:23-31 | `BvhNode::write_to_buffer` appends exactly the node's bytes |
| BvhSerial.WriteNodes | crates/core/src/shape/bvh.rs:177-180 | the node loop appends every node's bytes in order |
| BvhSerial.WritePoints | crates/core/src/shape/bvh.rs:182-186 | the point loop appends every point's bytes in order |
| BvhSerial.WriteBvh | crates/core/src/shape/bvh.rs:172-187 | `PointBvh::write_to_buffer` appends exactly the serialised form and changes nothing before |
| ShaderArgument.OffsetOf | crates/core/src/shape/compiled/shader/argument.rs:19 | the offset is the word in which the buffer's end lies |
| ShaderArgument.PointIntoArgument | crates/core/src/shape/compiled/shader/argument.rs:12-25 | a point appends its eight bytes and returns one argument at the old word length, of length 2 |
| ShaderArgument.BvhIntoArgument | crates/core/src/shape/compiled/shader/argument.rs:28-36 | a hierarchy appends its serialised form and returns one argument of length `serialized_size_u32 as u32` |
| ShaderArgument.CentimetersIntoArgument | crates/core/src/shape/compiled/shader/argument.rs:39-47 | a distance appends four bytes and returns one argument of length 1 |
| ShaderArgument.WindowIsAppended | crates/core/src/shape/compiled/shader/argument.rs:18-22 | on a word-aligned buffer the argument's window is exactly the appended data, and the prefix is unchanged |
| ShaderArgument.PointArgumentReadBack | crates/core/src/shape/compiled/shader/argument.rs:12-25 | a reader finds scaled x then scaled y at the argument's offset |
| ShaderArgument.CentimetersArgumentReadBack | crates/core/src/shape/compiled/shader/argument.rs:39-47 | a reader finds the centimetre value at the argument's offset |
| ShaderArgument.BvhArgumentReadBack | crates/core/src/shape/compiled/shader/argument.rs:28-36 | a reader finds exactly `length` words, which parse back into the same hierarchy |
| SdfRoutine.Function.Append | crates/core/src/shape/compiled/shader/routine/subtract.rs:22-30 | appending to the expression arena returns the new handle and touches nothing else |
| SdfRoutine.FindI32 | crates/core/src/shape/compiled/shader/routine/subtract.rs:70-82 | the first `i32` scalar type of the module, or None when there is none |
| SdfRoutine.FindFunction | crates/core/src/shape/compiled/shader/routine/dilate.rs:17-22 | the first function named `name`, or None when there is none |
| SdfRoutine.AbsI32 | crates/core/src/shape/compiled/shader/routine/edge.rs:29-38 | apart from the most negative value, `abs` is non-negative and equals `x` or `-x` |
| SdfRoutine.ExtendValid | crates/core/src/shape/compiled/shader/routine/subtract.rs:22-103 | well-formed additions keep a function well formed: handles refer backwards, only emittable expressions are emitted, stores go through local pointers |
| SdfRoutine.EvalPrefix | crates/core/src/shape/compiled/shader/routine/subtract.rs:22-61 | an expression's value depends only on the arena up to it |
| SdfRoutine.CompileSubtract | crates/core/src/shape/compiled/shader/routine/subtract.rs:7-108 | panics on a missing left or right register or a missing i32 type; otherwise two pointers, then Load, Load, Negate, Max emitted, one fresh `{id}__subtract_distance` local, body += Emit, Store; returns argument_len 0 |
| SdfRoutine.SubtractValue | crates/core/src/shape/compiled/shader/routine/subtract.rs:43-61 | the stored value is `max(left, -right)` |
| SdfRoutine.SubtractValid | crates/core/src/shape/compiled/shader/routine/subtract.rs:22-103 | only the four value expressions are emitted and the store goes through the new local's pointer |
| SdfRoutine.CompileUnary | crates/core/src/shape/compiled/shader/routine/invert.rs:7-81 | panics on a missing register or i32 type; otherwise a pointer, then Load and Negate emitted, a fresh `{id}__invert_distance` local, body += Emit, Store; returns argument_len 0. With `negate` false it is `compile_edge` (routine/edge.rs:8-85): Abs in place of Negate and an `{id}__edge_distance` local |
| SdfRoutine.UnaryValue | crates/core/src/shape/compiled/shader/routine/invert.rs:28-34 | the stored value is `-x` for invert and `abs(x)` for edge |
| SdfRoutine.UnaryValid | crates/core/src/shape/compiled/shader/routine/edge.rs:20-80 | only Load and the unary operation are emitted and the store goes through the new local's pointer |
| SdfRoutine.CompileDilate | crates/core/src/shape/compiled/shader/routine/dilate.rs:7-108 | panics without a `dilate` function, a register or the i32 type; otherwise only the Load is emitted, then Call(dilate) and a Store into `{id}__dilate_distance`; returns argument_len 1 |
| SdfRoutine.DilateValid | crates/core/src/shape/compiled/shader/routine/dilate.rs:31-103 | arguments and call result are not emitted; the call has three arguments and stores its result through the new local's pointer |
| SdfRoutine.DilateArgument | crates/core/src/shape/compiled/shader/routine/dilate.rs:42-80 | the distance passed to `dilate` is the input register's value |
| SdfRoutine.LookupAllFound | crates/core/src/shape/compiled/shader/routine/intersection.rs:16-19 | the lookup succeeds exactly when every register is mapped, giving each register's local in order |
| SdfRoutine.AppendPointers | crates/core/src/shape/compiled/shader/routine/intersection.rs:23-33 | one LocalVariable pointer per register is appended, in register order |
| SdfRoutine.Mid | crates/core/src/shape/compiled/shader/routine/intersection.rs:49 | the slice is split at `len / 2`, strictly inside it |
| SdfRoutine.BuildMaxTree | crates/core/src/shape/compiled/shader/routine/intersection.rs:35-64 | n pointers give n Loads and n-1 Maxes, left half first, and the root is the last expression |
| SdfRoutine.TreeAtUnique | crates/core/src/shape/compiled/shader/routine/intersection.rs:35-64 | the tree over a slice fixes every one of its 2n-1 expressions |
| SdfRoutine.EmitMaxTree | crates/core/src/shape/compiled/shader/routine/intersection.rs:66-73 | the tree is followed by one Emit of exactly the range it appended |
| SdfRoutine.StoreResult | crates/core/src/shape/compiled/shader/routine/intersection.rs:90-109 | a fresh local, one pointer to it, one Store of the value through it |
| SdfRoutine.CompileIntersection | crates/core/src/shape/compiled/shader/routine/intersection.rs:7-114 | panics with no registers, a missing register or no i32 type; otherwise pointers, the emitted max tree, a fresh `{id}__intersection_distance` local, body += Emit, Store; returns argument_len 0 |
| SdfRoutine.FinishIntersection | crates/core/src/shape/compiled/shader/routine/intersection.rs:66-114 | after the pointers: panics without an i32 type; otherwise the arena holds the pointers, the max tree and the result pointer, one fresh `{id}__intersection_distance` local, body += Emit, Store |
| SdfRoutine.StoreIntersection | crates/core/src/shape/compiled/shader/routine/intersection.rs:89-109 | the fresh local's handle is the old local count; its pointer completes the intersection arena and the Store of the tree's root follows the Emit |
| SdfRoutine.IntersectionExprsOk | crates/core/src/shape/compiled/shader/routine/intersection.rs:23-100 | every appended pointer, Load and Max refers only to earlier expressions |
| SdfRoutine.IntersectionStmtsOk | crates/core/src/shape/compiled/shader/routine/intersection.rs:69-109 | the pushed Emit covers only Loads and Maxes, and the Store writes through a local-variable pointer |
| SdfRoutine.TreeMaxIsMax | crates/core/src/shape/compiled/shader/routine/intersection.rs:46-63 | the tree's value is no smaller than any loaded value and equal to one |
| SdfRoutine.TreeRootIsMax | crates/core/src/shape/compiled/shader/routine/intersection.rs:35-64 | in the evaluated arena, the root holds the largest loaded value |
| SdfRoutine.IntersectionValue | crates/core/src/shape/compiled/shader/routine/intersection.rs:35-109 | the stored value is the largest of the registers' values |
| SdfRoutine.IntersectionValid | crates/core/src/shape/compiled/shader/routine/intersection.rs:23-109 | only Loads and Maxes are emitted and the store goes through the new local's pointer |
| ShaderCompose.Find | crates/core/build.rs:116 | the first occurrence at or after `from`, or None when there is none |
| ShaderCompose.JoinSplit | crates/core/build.rs:123-125 | joining the pieces of a split with the separator gives the text back |
| ShaderCompose.SplitPartsFree | crates/core/build.rs:123 | no piece of a split contains the separator |
| ShaderCompose.TrimSpec | crates/core/build.rs:111 | `trim` keeps the text between two runs of whitespace, and the result begins and ends with non-whitespace |
| ShaderCompose.TrimStartMatchesSuffix | crates/core/build.rs:113 | `trim_start_matches` removes only whole leading copies of the pattern |
| ShaderCompose.LinesHaveNoFeed | crates/core/build.rs:110 | no line holds a line feed |
| ShaderCompose.JoinLines | crates/core/build.rs:195 | for text without `\r` and without a final feed, joining the lines with `\n` gives the text back |
| ShaderCompose.ImportPathBraced | crates/core/build.rs:116-119 | a braced import names exactly the text before its first `::{` |
| ShaderCompose.ImportPathSimple | crates/core/build.rs:120-128 | a simple import drops its last `::` component; a single component names itself |
| ShaderCompose.FirstDefinition | crates/core/build.rs:67-69 | the first line that starts with `#define_import_path`, or None when no line does |
| ShaderCompose.ModuleNameDefined | crates/core/build.rs:66-70 | the module name is the trimmed remainder of the first `#define_import_path` line |
| ShaderCompose.ModuleNameStem | crates/core/build.rs:71-76 | without such a line the module name is the file stem |
| ShaderCompose.CollectSkip | crates/core/build.rs:131-137 | an import that is already collected, on the stack, or unknown is skipped |
| ShaderCompose.CollectDescend | crates/core/build.rs:137-142 | a new known module is pushed, its imports collected, then it is appended |
| ShaderCompose.CollectImports | crates/core/build.rs:104-145 | `collect_imports` leaves `imported` as `Collect` of the source's import lines and restores the stack |
| ShaderCompose.CollectFresh | crates/core/build.rs:131-142 | only known modules are appended, never one on the stack, never one twice |
| ShaderCompose.CollectDistinct | crates/core/build.rs:83-88 | starting empty, the collected modules are distinct and known |
| ShaderCompose.CollectComplete | crates/core/build.rs:104-145 | every known module imported by a line read, or by a module collected on the way, is collected unless it is on the stack |
| ShaderCompose.CollectPostOrder | crates/core/build.rs:137-142 | without cycles, a module is appended only after the modules it imports |
| ShaderCompose.CollectTemplatePostOrder | crates/core/build.rs:83-88 | for an acyclic graph every collected module follows all its known imports, and the main module is not among them |
| ShaderCompose.CountChar | crates/core/build.rs:163-164 | a count never exceeds the line's length |
| ShaderCompose.AdvanceDepth | crates/core/build.rs:177-183 | the brace loop moves the depth by opening minus closing braces |
| ShaderCompose.ScanStep | crates/core/build.rs:152-193 | the loop state after one more line is one `ScanLine` step |
| ShaderCompose.StripDirectives | crates/core/build.rs:147-196 | `strip_directives` returns the kept lines joined by `\n` |
| ShaderCompose.ScanLineKeeps | crates/core/build.rs:153-192 | a kept line is not a directive and changes no state; a directive is never kept |
| ShaderCompose.ScanKeepsNonDirectives | crates/core/build.rs:147-196 | only non-directive lines are kept, in their original order |
| ShaderCompose.ScanSingleLineImports | crates/core/build.rs:147-196 | when no import opens an unclosed brace, exactly the non-directive lines are kept |
| ShaderCompose.ScanDefineLine | crates/core/build.rs:156-158 | a `#define_import_path` line is dropped and changes nothing |
| ShaderCompose.ScanImportLine | crates/core/build.rs:161-173 | an `#import` line is dropped, sets the depth to its brace balance, and enters a braced import when that is positive |
| ShaderCompose.ScanInsideImport | crates/core/build.rs:176-190 | inside a braced import a line is dropped, moves the depth, and ends the import at depth ≤ 0 |
| ShaderCompose.ScanPlainLine | crates/core/build.rs:192 | outside an import an ordinary line is kept |
| ShaderCompose.ScanBracedImport | crates/core/build.rs:161-192 | a three-line braced import is dropped whole and the next ordinary line is kept |
| ShaderCompose.ComposeShader | crates/core/build.rs:83-102 | the output is each collected module stripped plus `\n\n`, in order, then the stripped source |
| ShaderCompose.PreludeSections | crates/core/build.rs:91-96 | when every name is known, there is one section per name, in order |
| ShaderCompose.ComposeSections | crates/core/build.rs:83-102 | the output holds one section per needed module, each module once, then the stripped source |
| ResourceBundles.TotalUpdate | crates/core/src/resource/bundle.rs:45-48 | storing under a name adds the new size and drops the replaced one from the sum held |
| ResourceBundles.ResourceBundle.constructor | crates/core/src/resource/bundle.rs:16-23 | a new bundle has its id and version, size 0 and no resources |
| ResourceBundles.ResourceBundle.Get | crates/core/src/resource/bundle.rs:41-43 | `get` is Some exactly for a stored name, with its reference |
| ResourceBundles.ResourceBundle.Insert | crates/core/src/resource/bundle.rs:45-48 | the name maps to the reference and the size grows by its size even on replacement; `size ≥ sum held` is kept |
| ResourceBundles.ResourceBundle.Remove | crates/core/src/resource/bundle.rs:50-54 | an absent name gives None and changes nothing; a present one is deleted, its size subtracted, its reference returned; `size ≥ sum held` is kept |
| ResourceBundles.InsertThenRemove | crates/core/src/resource/bundle.rs:45-54 | inserting then removing an absent name restores contents and size |
| Question.MissingDataError | crates/core/src/hide_and_seek/question/mod.rs:52-61 | class MissingData, message starting "Missing ", hint present and starting "Download the '" |
| Question.MissingDataNamesRecoverable | crates/core/src/hide_and_seek/question/mod.rs:52-61 | the nice name sits verbatim between "Missing " and " Data!" and inside the hint |
| Question.MissingDataInjective | crates/core/src/hide_and_seek/question/mod.rs:52-61 | different nice names give different errors |
| Question.Positions | crates/core/src/hide_and_seek/question/measuring.rs:87-94 | the POI positions in order |
| Question.Centers | crates/core/src/hide_and_seek/question/measuring.rs:96-103 | the complex centres in order |
| Measuring.NullHasNoEntropy | crates/core/src/hide_and_seek/question/measuring.rs:273-281 | a Null answer is a NoEntropy error before any data check, for every target |
| Measuring.ToShapeOutcome | crates/core/src/hide_and_seek/question/measuring.rs:283-405 | for Closer/Further, `to_shape` fails exactly when the target's data is missing, with `missing_data` naming it; otherwise the shape holds the same question, answer and context |
| Measuring.RailStationAlwaysAccepted | crates/core/src/hide_and_seek/question/measuring.rs:284 | rail stations need no data |
| Measuring.BordersShareNiceName | crates/core/src/hide_and_seek/question/measuring.rs:298-314 | all three border targets report "Administrative Divisions" while checking different area categories |
| Measuring.AcceptedShapesBuild | crates/core/src/hide_and_seek/question/measuring.rs:56-405 | every shape `to_shape` accepts has a non-Null answer and the data its `build_into` arm unwraps |
| Measuring.RequirementCoversSource | crates/core/src/hide_and_seek/question/measuring.rs:56-398 | each target's check covers the lookup of its `build_into` arm |
| Measuring.GeodesicStrings | crates/core/src/hide_and_seek/question/measuring.rs:76-82 | one geodesic string per rail line, registers in order |
| Measuring.BuildField | crates/core/src/hide_and_seek/question/measuring.rs:75-247 | the distance-field arm appends what `Field` describes |
| Measuring.BuildInto | crates/core/src/hide_and_seek/question/measuring.rs:53-258 | `build_into` appends exactly `Build(shape)` and returns its result register |
| Measuring.OnlySeaLevelReadsContour | crates/core/src/hide_and_seek/question/measuring.rs:56-60 | only sea level reads the contour texture |
| Measuring.FurtherInvertsCloser | crates/core/src/hide_and_seek/question/measuring.rs:65-71 | Further builds what Closer builds and then inverts it |
| Measuring.CloserDilatesField | crates/core/src/hide_and_seek/question/measuring.rs:249-256 | every target but sea level ends with a dilation by the question distance; sea level is only the contour at that distance |
| Measuring.AreasTakeEdge | crates/core/src/hide_and_seek/question/measuring.rs:105-147 | border, water and coast targets load their area diagram, take its edge, then dilate |
| Measuring.BuildClosed | crates/core/src/hide_and_seek/question/measuring.rs:53-258 | a measuring shape reads only registers it wrote itself |
| Tentacle.OtherPoisSpec | crates/core/src/hide_and_seek/question/tentacle.rs:95-99 | the other POIs are exactly those with a different id, in original order |
| Tentacle.FindPoi | crates/core/src/hide_and_seek/question/tentacle.rs:101-105 | a found POI is in the category and has the id; None means no POI has it |
| Tentacle.UniqueByIdentifierOrder | crates/core/src/hide_and_seek/question/tentacle.rs:55-70 | `unique_by` keeps complexes in their original order |
| Tentacle.UniqueByIdentifierKeepsIdentifiers | crates/core/src/hide_and_seek/question/tentacle.rs:55-70 | `unique_by` keeps exactly the identifiers it was given |
| Tentacle.UniqueByIdentifierDistinct | crates/core/src/hide_and_seek/question/tentacle.rs:69 | at most one complex per identifier |
| Tentacle.UniqueByIdentifierKeepsFirst | crates/core/src/hide_and_seek/question/tentacle.rs:69 | the first complex of each identifier is kept |
| Tentacle.OtherComplexesSpec | crates/core/src/hide_and_seek/question/tentacle.rs:72-80 | the other complexes share no identifier with the trip's, and the two account for every complex |
| Tentacle.BuildInto | crates/core/src/hide_and_seek/question/tentacle.rs:45-231 | panics, appending nothing, exactly when a lookup it unwraps fails, reporting the first in unwrap order (trip, station, POI category, POI); otherwise appends exactly `Build(shape)` and returns its result register |
| Tentacle.FirstMissing | crates/core/src/hide_and_seek/question/tentacle.rs:54-227 | no unwrapped lookup fails exactly when the shape is `Buildable`: out of radius always; the trip and its stations for the metro line; the category and the answered POI otherwise |
| Tentacle.OutOfRadiusInvertsCircle | crates/core/src/hide_and_seek/question/tentacle.rs:46-50 | out of radius: invert(dilate(point(center), radius)) |
| Tentacle.PoiTentacle | crates/core/src/hide_and_seek/question/tentacle.rs:93-111 | boundary(answered POI, other POIs, Inside); the answered POI is not among the others and every other id is |
| Tentacle.MetroLineTentacle | crates/core/src/hide_and_seek/question/tentacle.rs:54-90 | both clouds dilated by the hiding radius and joined by boundary(trip, other, Inside); the trip complexes are distinct and disjoint from the others |
| Tentacle.BuildClosed | crates/core/src/hide_and_seek/question/tentacle.rs:45-231 | a tentacle shape reads only registers it wrote itself |
| Radar.BuildInto | crates/core/src/hide_and_seek/question/radar.rs:25-32 | `build_into` appends exactly `Build(shape)` and returns its result register |
| Radar.MissInvertsHit | crates/core/src/hide_and_seek/question/radar.rs:26-30 | Hit is the circle alone; Miss is the same circle followed by its inversion |
| Radar.BuildClosed | crates/core/src/hide_and_seek/question/radar.rs:25-32 | a radar shape reads only registers it wrote itself |
| ShapeCompiler.AppendClosed | crates/core/src/hide_and_seek/question/tentacle.rs:45-231 | appending a shape's instructions keeps every read pointing to an earlier write |
| CustomLayers.Layer.constructor | crates/mobile/src/layers/mod.rs:74 | a new layer value has received only its construction |
| CustomLayers.VTable.Custom | crates/mobile/src/layers/mod.rs:97-105 | `custom::<T>()` fills all four slots with T's and has no value yet |
| CustomLayers.VTable.State | crates/mobile/src/layers/mod.rs:69 | Uninitialized exactly when the pointer is null; Initialized exactly when it points to a live value |
| CustomLayers.Initialize | crates/mobile/src/layers/mod.rs:72-75 | a fresh value is stored, or the call panics with "failed to construct type"; slots unchanged |
| CustomLayers.Render | crates/mobile/src/layers/mod.rs:77-85 | the parameters reach the stored value unchanged, once; panics "failed to render a frame" when its render fails |
| CustomLayers.ContextLost | crates/mobile/src/layers/mod.rs:87-90 | the stored value is told once |
| CustomLayers.Deinitialize | crates/mobile/src/layers/mod.rs:92-95 | the value is cleaned up once and the table keeps the dangling pointer |
| CustomLayers.FetchCustomLayerVtable | crates/mobile/src/layers/mod.rs:112-122 | kind 0 gives the out-of-bounds table; every other kind panics "picked an invalid layer" |
| CustomLayerHosts.CustomLayerHostImpl.constructor | android/app/src/cpp/customLayer.hpp:57-59 | the host holds a fresh copy of the table, with the same slots and pointer |
| CustomLayerHosts.CustomLayerHostImpl.Initialize | android/app/src/cpp/customLayer.hpp:45 | calls the initialize slot once on the host's own copy, leaving all four slots as they were |
| CustomLayerHosts.CustomLayerHostImpl.Render | android/app/src/cpp/customLayer.hpp:47-50 | calls the render slot once with the caller's parameters |
| CustomLayerHosts.CustomLayerHostImpl.ContextLost | android/app/src/cpp/customLayer.hpp:52 | calls the context-lost slot once |
| CustomLayerHosts.CustomLayerHostImpl.Deinitialize | android/app/src/cpp/customLayer.hpp:54 | calls the deinitialize slot once, leaving the copy Deinitialized |
| CustomLayerHosts.HostsCopyTheTable | android/app/src/cpp/customLayer.hpp:57-59 | two hosts built from one table hold independent copies: initializing one leaves the other and the shared table alone |
| TransitLayers.LoseContext | crates/mobile/src/layers/transit/android.rs:206-209 | losing the context drops the program and keeps the graphics |
| TransitLayers.RenderLayer | crates/mobile/src/layers/transit/android.rs:196-204 | rendering proceeds exactly when the graphics are present |
| TransitLayers.RunAccepted | crates/mobile/src/layers/transit/android.rs:263-319 | from an empty slot, a run of calls returns exactly on prefixes of (initialize (render \| context_lost)* deinitialize)*; a layer is held exactly when one is installed, and it always has its graphics |
| TransitLayers.LayerSlot.constructor | crates/mobile/src/layers/transit/android.rs:263 | the slot starts empty |
| TransitLayers.LayerSlot.Initialize | crates/mobile/src/layers/transit/android.rs:264-271 | a new layer is always installed; the call panics "failed to cleanup previous layer!" when one was there, and agrees with `Step` |
| TransitLayers.LayerSlot.Render | crates/mobile/src/layers/transit/android.rs:287-297 | forwards the parameters to the installed layer; panics without one; agrees with `Step` |
| TransitLayers.LayerSlot.ContextLost | crates/mobile/src/layers/transit/android.rs:299-308 | the installed layer loses its program; panics without one; agrees with `Step` |
| TransitLayers.LayerSlot.Deinitialize | crates/mobile/src/layers/transit/android.rs:309-319 | empties the slot and cleans the layer up once; panics when already empty; agrees with `Step` |

## Left out

- Floating point: `as_meters` / `from_meters`, the `COORD_SCALE` rounding of
  geographic coordinates in `bvh.rs` and `argument.rs`, the map projection, and the
  `Parameters` fields of a render call. Points enter the model already scaled to
  `i32`. Render parameters are known only by their address.
- Geometric clipping, file and gzip I/O, protobuf encoding (prost), and the
  tile server of `pmtiles-clip` and the mobile crate.
- `Path::components` normalisation: `TilePath.ParseTilePath` takes the path's
  components as a list of strings.
- Debug builds: the model follows release-build arithmetic. The geometry codec's
  `i32` cursor and the BVH extents (`Bvh.SplitOnLatAsWritten`) wrap on overflow,
  where a debug build panics instead.
- `Bvh.PointAt` is total. It reads the origin for an out-of-range index, where
  Rust indexing panics. The build only uses indices in range
  (`Bvh.BuildOrderValid`), so this case never arises there.
- `Bvh.SortByKey`: `sort_by_key` is a stable sort. The model sorts by insertion
  and proves ordering and permutation, but not stability.
- The `SdfCompiler` internals are not part of this model. The compiler is an
  instruction log, and each call returns the index of its instruction as the
  register.
- The `QuestionContext` is a plain value. Each `has_…` check is membership in
  the matching field, and `get_poi` is the first POI of the category with that
  id (`Tentacle.FindPoi`).
- The radar shape's question context is never read, so it is left out of
  `Radar.RadarShape`.
- `ShaderCompose.IsWhitespace` lists the Unicode White_Space characters. Unicode
  beyond `char` equality is not modelled.
- The build script's directory walk and file reading are left out, along with
  naga_oil validation. Module contents are given as a map from name to text.
- `ShaderCompose.Scan`: the `i32` brace depth is an unbounded integer. A line
  needs more than 2^31 braces to overflow it.
- `ResourceBundles.ResourceBundle.Insert`: the running `size` is unbounded. The
  `u64` overflow of `+=` (a panic in a debug build) is not modelled.
- `ResourceBundles.ResourceBundle.Remove`: requires `Valid`, so `size` covers
  every held reference. A bundle read back by deserialisation need not satisfy
  this, and removing from it can take the `u64` size below zero (a wrap-around,
  or a panic in a debug build). That underflow is not modelled.
- `Mutex`, `Once` and logging setup in the layer code. Everything is modelled as
  single-threaded state, and a poisoned lock is not modelled.
- The transit layer module is commented out of the build
  (crates/mobile/src/layers/mod.rs:5-8). It is modelled all the same.
- GL and EGL work: shader compilation, `SimpleGraphics`, and drawing.
  `TransitLayer::new` is modelled as always succeeding with program and graphics
  present, so its setup panics are not modelled. A failing `graphics.render` is
  not modelled either.
- `customLayer.cpp` (JNI registration) is not part of this model. It calls a
  `setup()` that `customLayer.hpp` never declares.
- `CustomLayerHosts.CustomLayerHostImpl`: calling through a null slot is
  undefined behaviour in C++. The host's methods therefore require all four slots
  to be set (`Dispatchable`).
- `CustomLayers.Render`, `CustomLayers.ContextLost` and
  `CustomLayers.Deinitialize`: use of a null or dangling pointer is undefined
  behaviour in Rust. These methods therefore require the Initialized state.
- The geometry type argument of `decode_geometry` is accepted and ignored, as in
  the code.

## Findings

| source | as written | input that shows it | evidently intended | confidence | as-written member | corrected member |
|---|---|---|---|---|---|---|
| crates/core/src/shape/bvh.rs:129-131 | `max_lon - min_lon` and `max_lat - min_lat` are `i32` subtractions. For points spread over more than about 214.7 degrees of longitude, the extent wraps to a negative number in a release build (a debug build panics). | Nine points (more than `MAX_LEAF_SIZE` = 8, so `build_recursive` splits the range): scaled (longitude, latitude) (-1 800 000 000, 1), (1 800 000 000, 0) and seven at (0, 0). The longitude extent 3.6·10^9 wraps negative, so `lat_extent > lon_extent` holds and the range is split on latitude; the built point order differs from the intended one. | The range is split along the axis with the larger true extent (longitude here), with the extents computed in a wider type. | not executed | Bvh.SplitOnLatOverflow | Bvh.BuildRulesAgree |

`Bvh.Build` follows the code as written. The corrected build is
`Bvh.BuildSpec(Intended, points)`. `Bvh.BuildSpecProperties` proves every
property of the build for it too, and `Bvh.BuildRulesAgree` shows that it
builds the same hierarchy as the code as written whenever no extent overflows.
