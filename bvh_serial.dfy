/** The GPU byte layout of a point hierarchy (crates/core/src/shape/bvh.rs):
    a node is seven little-endian 32-bit fields; a hierarchy is its node
    count, its point count, its nodes and then its `(lon, lat)` pairs. */
module BvhSerial {
  import opened Common
  import opened Bvh

  /** The 28 bytes `BvhNode::write_to_buffer` appends, fields in declaration order. */
  function NodeBytes(n: BvhNode): (b: seq<u8>)
    ensures |b| == 4 * SIZE_U32
  {
    LeBytesI32(n.minLat) + LeBytesI32(n.maxLat) + LeBytesI32(n.minLon) + LeBytesI32(n.maxLon)
    + LeBytes(n.leftFirst) + LeBytes(n.rightChild) + LeBytes(n.count)
  }

  /** The eight bytes of one `(lon, lat)` pair. */
  function PointBytes(p: ScaledPoint): (b: seq<u8>)
    ensures |b| == 8
  {
    LeBytesI32(p.lon) + LeBytesI32(p.lat)
  }

  /** The nodes' bytes one after the other. */
  function NodesBytes(ns: seq<BvhNode>): (b: seq<u8>)
    ensures |b| == 4 * SIZE_U32 * |ns|
  {
    if ns == [] then [] else NodesBytes(ns[..|ns| - 1]) + NodeBytes(ns[|ns| - 1])
  }

  /** The points' bytes one after the other. */
  function PointsBytes(ps: seq<ScaledPoint>): (b: seq<u8>)
    ensures |b| == 8 * |ps|
  {
    if ps == [] then [] else PointsBytes(ps[..|ps| - 1]) + PointBytes(ps[|ps| - 1])
  }

  /** `serialized_size_u32`: two header words, seven per node, two per point. */
  function SerializedSizeU32(bvh: PointBvh): nat
  {
    2 + |bvh.nodes| * SIZE_U32 + |bvh.points| * 2
  }

  /** The bytes `PointBvh::write_to_buffer` appends; the counts are cast with `as u32`. */
  function Serialized(bvh: PointBvh): seq<u8>
  {
    LeBytes(WrapU32(|bvh.nodes|)) + LeBytes(WrapU32(|bvh.points|)) + NodesBytes(bvh.nodes) + PointsBytes(bvh.points)
  }

  /** The serialized hierarchy is exactly `serialized_size_u32` words long. */
  lemma SerializedLength(bvh: PointBvh)
    ensures |Serialized(bvh)| == 4 * SerializedSizeU32(bvh)
  {
  }

  // ---------------------------------------------------------------- reading back

  /** The i32 stored little-endian at `b[k..k + 4]`. */
  function ReadI32(b: seq<u8>, k: nat): i32
    requires k + 4 <= |b|
  {
    AsSigned(ReadLe(b[k..k + 4]))
  }

  /** The u32 stored little-endian at `b[k..k + 4]`. */
  function ReadU32(b: seq<u8>, k: nat): u32
    requires k + 4 <= |b|
  {
    ReadLe(b[k..k + 4])
  }

  /** A node read back from its 28 bytes. */
  function ParseNode(b: seq<u8>): BvhNode
    requires |b| == 4 * SIZE_U32
  {
    BvhNode(ReadI32(b, 0), ReadI32(b, 4), ReadI32(b, 8), ReadI32(b, 12),
            ReadU32(b, 16), ReadU32(b, 20), ReadU32(b, 24))
  }

  /** A point read back from its eight bytes. */
  function ParsePoint(b: seq<u8>): ScaledPoint
    requires |b| == 8
  {
    ScaledPoint(ReadI32(b, 0), ReadI32(b, 4))
  }

  /** `n` nodes read back from `28 * n` bytes. */
  function ParseNodes(b: seq<u8>, n: nat): (ns: seq<BvhNode>)
    requires |b| == 4 * SIZE_U32 * n
    ensures |ns| == n
  {
    if n == 0 then [] else ParseNodes(b[..4 * SIZE_U32 * (n - 1)], n - 1) + [ParseNode(b[4 * SIZE_U32 * (n - 1)..])]
  }

  /** `n` points read back from `8 * n` bytes. */
  function ParsePoints(b: seq<u8>, n: nat): (ps: seq<ScaledPoint>)
    requires |b| == 8 * n
    ensures |ps| == n
  {
    if n == 0 then [] else ParsePoints(b[..8 * (n - 1)], n - 1) + [ParsePoint(b[8 * (n - 1)..])]
  }

  /** Reads a serialized hierarchy back: `None` when the bytes are shorter
      than the header or their length disagrees with the two counts. */
  function Parse(b: seq<u8>): Option<PointBvh>
  {
    if |b| < 8 then None
    else
      var n, p := ReadU32(b, 0), ReadU32(b, 4);
      var nodesEnd := 8 + 4 * SIZE_U32 * n;
      if |b| != nodesEnd + 8 * p then None
      else Some(PointBvh(ParseNodes(b[8..nodesEnd], n), ParsePoints(b[nodesEnd..], p)))
  }

  /** Each field of a node lands at its own offset. */
  lemma NodeRoundTrip(n: BvhNode)
    ensures ParseNode(NodeBytes(n)) == n
  {
    var b := NodeBytes(n);
    var f0, f1, f2, f3 := LeBytesI32(n.minLat), LeBytesI32(n.maxLat), LeBytesI32(n.minLon), LeBytesI32(n.maxLon);
    var f4, f5, f6 := LeBytes(n.leftFirst), LeBytes(n.rightChild), LeBytes(n.count);
    assert b[0..4] == f0;
    assert b[4..8] == f1;
    assert b[8..12] == f2;
    assert b[12..16] == f3;
    assert b[16..20] == f4;
    assert b[20..24] == f5;
    assert b[24..28] == f6;
    LeBytesI32RoundTrip(n.minLat);
    LeBytesI32RoundTrip(n.maxLat);
    LeBytesI32RoundTrip(n.minLon);
    LeBytesI32RoundTrip(n.maxLon);
    LeBytesRoundTrip(n.leftFirst);
    LeBytesRoundTrip(n.rightChild);
    LeBytesRoundTrip(n.count);
  }

  /** Both coordinates of a point land at their own offsets. */
  lemma PointRoundTrip(p: ScaledPoint)
    ensures ParsePoint(PointBytes(p)) == p
  {
    var b := PointBytes(p);
    assert b[0..4] == LeBytesI32(p.lon);
    assert b[4..8] == LeBytesI32(p.lat);
    LeBytesI32RoundTrip(p.lon);
    LeBytesI32RoundTrip(p.lat);
  }

  lemma {:induction false} NodesRoundTrip(ns: seq<BvhNode>)
    ensures ParseNodes(NodesBytes(ns), |ns|) == ns
  {
    if ns != [] {
      var init, last := ns[..|ns| - 1], ns[|ns| - 1];
      var b := NodesBytes(ns);
      assert b[..4 * SIZE_U32 * |init|] == NodesBytes(init);
      assert b[4 * SIZE_U32 * |init|..] == NodeBytes(last);
      NodesRoundTrip(init);
      NodeRoundTrip(last);
      InitLast(ns);
    }
  }

  lemma {:induction false} PointsRoundTrip(ps: seq<ScaledPoint>)
    ensures ParsePoints(PointsBytes(ps), |ps|) == ps
  {
    if ps != [] {
      var init, last := ps[..|ps| - 1], ps[|ps| - 1];
      var b := PointsBytes(ps);
      assert b[..8 * |init|] == PointsBytes(init);
      assert b[8 * |init|..] == PointBytes(last);
      PointsRoundTrip(init);
      PointRoundTrip(last);
      InitLast(ps);
    }
  }

  /** The serialized form determines the hierarchy: reading it back gives
      the same nodes and points, as long as both counts fit the u32 header. */
  lemma SerializedRoundTrip(bvh: PointBvh)
    requires |bvh.nodes| <= U32_MAX && |bvh.points| <= U32_MAX
    ensures Parse(Serialized(bvh)) == Some(bvh)
  {
    var h0, h1 := LeBytes(|bvh.nodes|), LeBytes(|bvh.points|);
    var nb, pb := NodesBytes(bvh.nodes), PointsBytes(bvh.points);
    var b := Serialized(bvh);
    assert b == h0 + h1 + nb + pb;
    assert b[0..4] == h0;
    assert b[4..8] == h1;
    LeBytesRoundTrip(|bvh.nodes|);
    LeBytesRoundTrip(|bvh.points|);
    var nodesEnd := 8 + 4 * SIZE_U32 * |bvh.nodes|;
    assert b[8..nodesEnd] == nb;
    assert b[nodesEnd..] == pb;
    NodesRoundTrip(bvh.nodes);
    PointsRoundTrip(bvh.points);
  }

  // ---------------------------------------------------------------- writing

  /** `BvhNode::write_to_buffer`. */
  method WriteNode(node: BvhNode, buffer: ByteBuffer)
    modifies buffer
    ensures buffer.bytes == old(buffer.bytes) + NodeBytes(node)
  {
    buffer.Extend(LeBytesI32(node.minLat));
    buffer.Extend(LeBytesI32(node.maxLat));
    buffer.Extend(LeBytesI32(node.minLon));
    buffer.Extend(LeBytesI32(node.maxLon));
    buffer.Extend(LeBytes(node.leftFirst));
    buffer.Extend(LeBytes(node.rightChild));
    buffer.Extend(LeBytes(node.count));
  }

  /** `PointBvh::write_to_buffer`: the header, every node, then every point. */
  method WriteBvh(bvh: PointBvh, buffer: ByteBuffer)
    modifies buffer
    ensures buffer.bytes == old(buffer.bytes) + Serialized(bvh)
  {
    buffer.Extend(LeBytes(WrapU32(|bvh.nodes|)));
    buffer.Extend(LeBytes(WrapU32(|bvh.points|)));
    WriteNodes(bvh.nodes, buffer);
    WritePoints(bvh.points, buffer);
    ghost var h := LeBytes(WrapU32(|bvh.nodes|)) + LeBytes(WrapU32(|bvh.points|));
    AppendAssoc(old(buffer.bytes), LeBytes(WrapU32(|bvh.nodes|)), LeBytes(WrapU32(|bvh.points|)));
    AppendAssoc(old(buffer.bytes), h, NodesBytes(bvh.nodes));
    AppendAssoc(old(buffer.bytes), h + NodesBytes(bvh.nodes), PointsBytes(bvh.points));
  }

  /** The node loop of `PointBvh::write_to_buffer`. */
  method WriteNodes(nodes: seq<BvhNode>, buffer: ByteBuffer)
    modifies buffer
    ensures buffer.bytes == old(buffer.bytes) + NodesBytes(nodes)
  {
    for i := 0 to |nodes|
      invariant buffer.bytes == old(buffer.bytes) + NodesBytes(nodes[..i])
    {
      WriteNode(nodes[i], buffer);
      NodesBytesPrefix(nodes, i);
      AppendAssoc(old(buffer.bytes), NodesBytes(nodes[..i]), NodeBytes(nodes[i]));
    }
    assert nodes[..|nodes|] == nodes;
  }

  /** The point loop of `PointBvh::write_to_buffer`: `lon` then `lat`. */
  method WritePoints(points: seq<ScaledPoint>, buffer: ByteBuffer)
    modifies buffer
    ensures buffer.bytes == old(buffer.bytes) + PointsBytes(points)
  {
    for i := 0 to |points|
      invariant buffer.bytes == old(buffer.bytes) + PointsBytes(points[..i])
    {
      buffer.Extend(LeBytesI32(points[i].lon));
      buffer.Extend(LeBytesI32(points[i].lat));
      PointsBytesPrefix(points, i);
    }
    assert points[..|points|] == points;
  }

  lemma NodesBytesPrefix(ns: seq<BvhNode>, i: nat)
    requires i < |ns|
    ensures NodesBytes(ns[..i + 1]) == NodesBytes(ns[..i]) + NodeBytes(ns[i])
  {
    assert ns[..i + 1][..i] == ns[..i];
  }

  lemma PointsBytesPrefix(ps: seq<ScaledPoint>, i: nat)
    requires i < |ps|
    ensures PointsBytes(ps[..i + 1]) == PointsBytes(ps[..i]) + PointBytes(ps[i])
  {
    assert ps[..i + 1][..i] == ps[..i];
  }
}
