/** The command/parameter integer stream that carries a feature's geometry in a
    vector tile (section 4.3 of the Mapbox Vector Tile Specification v2.1), as
    the tile clipper decodes and re-encodes it.

    The stream is a sequence of `u32`. A command header keeps its command id in
    the low three bits and its parameter count in the high twenty-nine; each
    MoveTo/LineTo parameter is a zigzag-encoded pair of deltas from a cursor
    that persists across commands. Bit operations on `u32` are written
    arithmetically: `v & 7` is `v % 8`, `v >> 3` is `v / 8`, and a left shift
    that may lose high bits is a multiplication wrapped modulo 2^32. The `i32`
    cursor additions wrap as in a release build. */
module GeometryCodec {
  import opened Common
  import VectorTile

  const MOVE_TO: u32 := 1
  const LINE_TO: u32 := 2
  const CLOSE_PATH: u32 := 7

  datatype Point = Point(x: i32, y: i32)

  /** One decoded command: its id and its absolute coordinates. */
  datatype Command = Command(id: u32, coords: seq<Point>)

  const ORIGIN := Point(0, 0)

  // ---------------------------------------------------------------- zigzag

  /** `zigzag_decode(n) = ((n >> 1) as i32) ^ (-((n & 1) as i32))`. For an even
      `n` the mask is 0 and the result is `n >> 1`; for an odd `n` the mask is
      all ones and the xor complements, giving `-(n >> 1) - 1`. */
  function ZigzagDecode(n: u32): (r: i32)
    ensures n % 2 == 0 ==> r >= 0
    ensures n % 2 == 1 ==> r < 0
  {
    if n % 2 == 0 then n / 2 else -(n / 2) - 1
  }

  /** `-v - 1`, the bitwise complement of an `i32`, applied when `neg` holds. */
  function ComplementIf(neg: bool, v: i32): i32
  {
    if neg then -1 - v else v
  }

  /** `zigzag_encode(n) = ((n << 1) ^ (n >> 31)) as u32`: `n << 1` wraps within
      `i32`, `n >> 31` is the arithmetic sign mask (0 or all ones), the xor with
      all ones complements, and the final cast reinterprets the bits as `u32`. */
  function ZigzagEncode(n: i32): (r: u32)
  {
    WrapU32(ComplementIf(n < 0, WrapI32(2 * n)))
  }

  /** Zigzag encoding interleaves signs: 0, -1, 1, -2, 2, ... map to 0, 1, 2, 3, 4, ... */
  lemma ZigzagEncodeValue(n: i32)
    ensures n >= 0 ==> ZigzagEncode(n) == 2 * n
    ensures n < 0 ==> ZigzagEncode(n) == -2 * n - 1
  {
    if n >= 0 {
      assert WrapI32(2 * n) == 2 * n - (if 2 * n > I32_MAX then TWO_32 else 0);
    } else {
      assert WrapI32(2 * n) == 2 * n + (if 2 * n < I32_MIN then TWO_32 else 0);
    }
  }

  /** Decoding undoes encoding for every `i32`. */
  lemma ZigzagRoundTrip(n: i32)
    ensures ZigzagDecode(ZigzagEncode(n)) == n
  {
    ZigzagEncodeValue(n);
  }

  /** Encoding undoes decoding for every `u32`: zigzag is a bijection. */
  lemma ZigzagDecodeRoundTrip(u: u32)
    ensures ZigzagEncode(ZigzagDecode(u)) == u
  {
    ZigzagEncodeValue(ZigzagDecode(u));
  }

  // ---------------------------------------------------------------- decoding

  /** The command id of a header, `cmd_int & 0x7`. */
  function CommandId(header: u32): (id: u32)
    ensures id < 8
  {
    header % 8
  }

  /** The parameter count of a header, `cmd_int >> 3`. */
  function CommandCount(header: u32): (count: nat)
    ensures count < 0x2000_0000
  {
    header / 8
  }

  /** The state after reading a command's parameters: the points read, the
      stream left over and the cursor. */
  datatype Params = Params(coords: seq<Point>, rest: seq<u32>, cursor: Point)

  /** The cursor moved by the deltas zigzag-encoded in `dx` and `dy`. */
  function Moved(cursor: Point, dx: u32, dy: u32): Point
  {
    Point(WrapI32(cursor.x + ZigzagDecode(dx)), WrapI32(cursor.y + ZigzagDecode(dy)))
  }

  /** Reads up to `count` parameter pairs from `g`, stopping early as soon as
      fewer than two integers remain. */
  function DecodeParams(g: seq<u32>, count: nat, cursor: Point): (r: Params)
    ensures |r.coords| <= count
    ensures |r.rest| <= |g|
    ensures |g| == |r.rest| + 2 * |r.coords|
    decreases count
  {
    if count == 0 || |g| < 2 then Params([], g, cursor)
    else
      var p := Moved(cursor, g[0], g[1]);
      var tail := DecodeParams(g[2..], count - 1, p);
      Params([p] + tail.coords, tail.rest, tail.cursor)
  }

  /** `d` with `coords` read before it. */
  function Prepend(coords: seq<Point>, d: Params): Params
  {
    Params(coords + d.coords, d.rest, d.cursor)
  }

  /** One parameter pair read off the front of a run. */
  lemma DecodeParamsStep(g: seq<u32>, count: nat, cursor: Point)
    requires count > 0 && |g| >= 2
    ensures DecodeParams(g, count, cursor)
      == Prepend([Moved(cursor, g[0], g[1])], DecodeParams(g[2..], count - 1, Moved(cursor, g[0], g[1])))
  {
  }

  /** The commands of stream `g` read with the cursor starting at `cursor`:
      MoveTo and LineTo collect their points, ClosePath carries none, and a
      header with any other id is skipped on its own. */
  function DecodeFrom(g: seq<u32>, cursor: Point): seq<Command>
    decreases |g|
  {
    if g == [] then []
    else
      var id := CommandId(g[0]);
      if id == MOVE_TO || id == LINE_TO then
        var d := DecodeParams(g[1..], CommandCount(g[0]), cursor);
        [Command(id, d.coords)] + DecodeFrom(d.rest, d.cursor)
      else if id == CLOSE_PATH then
        [Command(CLOSE_PATH, [])] + DecodeFrom(g[1..], cursor)
      else
        DecodeFrom(g[1..], cursor)
  }

  /** `decode_geometry`: the cursor starts at the origin. */
  function Decode(g: seq<u32>): seq<Command>
  {
    DecodeFrom(g, ORIGIN)
  }

  /** The `for _ in 0..count` loop of `decode_geometry`: reads up to `count`
      parameter pairs starting at index `start`, moving the cursor. */
  method ReadParams(geometry: seq<u32>, start: nat, count: nat, x0: i32, y0: i32)
    returns (coords: seq<Point>, i: nat, x: i32, y: i32)
    requires start <= |geometry|
    ensures i <= |geometry|
    ensures Params(coords, geometry[i..], Point(x, y)) == DecodeParams(geometry[start..], count, Point(x0, y0))
  {
    ghost var whole := DecodeParams(geometry[start..], count, Point(x0, y0));
    coords, i, x, y := [], start, x0, y0;
    var k := 0;
    while k < count
      invariant i <= |geometry| && k <= count
      invariant Prepend(coords, DecodeParams(geometry[i..], count - k, Point(x, y))) == whole
      decreases count - k
    {
      if i + 1 >= |geometry| {
        ReadDone(geometry, i, count - k, Point(x, y), coords);
        break;
      }
      var p := Moved(Point(x, y), geometry[i], geometry[i + 1]);
      ReadPair(geometry, i, count - k, Point(x, y), coords);
      i := i + 2;
      x, y := p.x, p.y;
      coords := coords + [p];
      k := k + 1;
    }
    if k == count {
      ReadDone(geometry, i, 0, Point(x, y), coords);
    }
  }

  /** Nothing more is read once no pair is requested or fewer than two integers remain. */
  lemma ReadDone(g: seq<u32>, i: nat, n: nat, cursor: Point, coords: seq<Point>)
    requires i <= |g| && (n == 0 || i + 1 >= |g|)
    ensures Prepend(coords, DecodeParams(g[i..], n, cursor)) == Params(coords, g[i..], cursor)
  {
    assert coords + [] == coords;
  }

  /** Reading one more pair moves it from the run still to be read to the points read. */
  lemma ReadPair(g: seq<u32>, i: nat, n: nat, cursor: Point, coords: seq<Point>)
    requires i + 1 < |g| && n > 0
    ensures var p := Moved(cursor, g[i], g[i + 1]);
      Prepend(coords, DecodeParams(g[i..], n, cursor)) == Prepend(coords + [p], DecodeParams(g[i + 2..], n - 1, p))
  {
    var p := Moved(cursor, g[i], g[i + 1]);
    assert g[i..][2..] == g[i + 2..];
    DecodeParamsStep(g[i..], n, cursor);
    assert coords + ([p] + DecodeParams(g[i + 2..], n - 1, p).coords) == (coords + [p]) + DecodeParams(g[i + 2..], n - 1, p).coords;
  }

  /** `decode_geometry` as the clipper runs it: one pass with an index and a
      cursor. The geometry type is accepted and ignored. */
  method DecodeGeometry(geometry: seq<u32>, geomType: VectorTile.GeomType) returns (result: seq<Command>)
    ensures result == Decode(geometry)
  {
    result := [];
    var i := 0;
    var x: i32 := 0;
    var y: i32 := 0;
    while i < |geometry|
      invariant 0 <= i <= |geometry|
      invariant result + DecodeFrom(geometry[i..], Point(x, y)) == Decode(geometry)
      decreases |geometry| - i
    {
      var cmdInt := geometry[i];
      var cmd := CommandId(cmdInt);
      var count := CommandCount(cmdInt);
      ghost var before := geometry[i..];
      assert before[1..] == geometry[i + 1..];
      i := i + 1;
      if cmd == MOVE_TO || cmd == LINE_TO {
        var coords;
        coords, i, x, y := ReadParams(geometry, i, count, x, y);
        result := result + [Command(cmd, coords)];
      } else if cmd == CLOSE_PATH {
        result := result + [Command(CLOSE_PATH, [])];
      }
    }
  }

  /** Every decoded command is a MoveTo, a LineTo or a ClosePath, and a
      ClosePath carries no points. */
  lemma {:induction false} DecodedCommandsWellFormed(g: seq<u32>, cursor: Point)
    ensures forall c <- DecodeFrom(g, cursor) ::
      (c.id == MOVE_TO || c.id == LINE_TO || c.id == CLOSE_PATH) && (c.id == CLOSE_PATH ==> c.coords == [])
    decreases |g|
  {
    if g != [] {
      var id := CommandId(g[0]);
      if id == MOVE_TO || id == LINE_TO {
        var d := DecodeParams(g[1..], CommandCount(g[0]), cursor);
        DecodedCommandsWellFormed(d.rest, d.cursor);
      } else {
        DecodedCommandsWellFormed(g[1..], cursor);
      }
    }
  }

  /** A header whose id is none of MoveTo, LineTo, ClosePath is dropped on its
      own; the integers after it are read as the next header. */
  lemma UnknownCommandSkipped(h: u32, rest: seq<u32>, cursor: Point)
    requires CommandId(h) != MOVE_TO && CommandId(h) != LINE_TO && CommandId(h) != CLOSE_PATH
    ensures DecodeFrom([h] + rest, cursor) == DecodeFrom(rest, cursor)
  {
    assert ([h] + rest)[1..] == rest;
  }

  /** A run yields as many points as requested, or as many whole pairs as the
      stream still holds when it is truncated, and consumes exactly those. */
  lemma {:induction false} DecodeParamsLength(g: seq<u32>, count: nat, cursor: Point)
    ensures var d := DecodeParams(g, count, cursor);
      |d.coords| == (if count <= |g| / 2 then count else |g| / 2) && d.rest == g[2 * |d.coords|..]
    decreases count
  {
    if count > 0 && |g| >= 2 {
      DecodeParamsLength(g[2..], count - 1, Moved(cursor, g[0], g[1]));
    }
  }

  /** Coordinates come out absolute: the k-th point is the previous point (the
      incoming cursor for the first) moved by the k-th delta pair. */
  lemma {:induction false} DecodeParamsAbsolute(g: seq<u32>, count: nat, cursor: Point, k: nat)
    requires k < |DecodeParams(g, count, cursor).coords|
    ensures DecodeParams(g, count, cursor).coords[k] ==
      Moved(if k == 0 then cursor else DecodeParams(g, count, cursor).coords[k - 1], g[2 * k], g[2 * k + 1])
    decreases count
  {
    if k > 0 {
      var p := Moved(cursor, g[0], g[1]);
      DecodeParamsAbsolute(g[2..], count - 1, p, k - 1);
    }
  }

  /** The cursor after a run of parameters is its last point, or unchanged when there is none. */
  lemma {:induction false} DecodeParamsCursor(g: seq<u32>, count: nat, cursor: Point)
    ensures var d := DecodeParams(g, count, cursor);
      d.cursor == if d.coords == [] then cursor else d.coords[|d.coords| - 1]
    decreases count
  {
    if count > 0 && |g| >= 2 {
      DecodeParamsCursor(g[2..], count - 1, Moved(cursor, g[0], g[1]));
    }
  }

  // ---------------------------------------------------------------- encoding

  /** A MoveTo/LineTo header, `(cmd & 0x7) | ((len as u32) << 3)`: the length
      is truncated to 32 bits and shifted with loss of the high bits; the two
      parts occupy disjoint bits, so the `|` is an addition. */
  function Header(c: Command): (h: u32)
    ensures CommandId(h) == c.id % 8
    ensures |c.coords| < 0x2000_0000 ==> CommandCount(h) == |c.coords|
  {
    c.id % 8 + |c.coords| % 0x2000_0000 * 8
  }

  /** The header of a ClosePath, `(7 & 0x7) | (1 << 3)`. */
  const CLOSE_PATH_HEADER: u32 := 15

  /** The last point of `coords`, or `cursor` when there is none. */
  function LastOr(coords: seq<Point>, cursor: Point): Point
  {
    if coords == [] then cursor else coords[|coords| - 1]
  }

  /** The zigzag-encoded deltas of `coords`, each from the point before it. */
  function EncodeParams(coords: seq<Point>, cursor: Point): (r: seq<u32>)
    ensures |r| == 2 * |coords|
    decreases |coords|
  {
    if coords == [] then []
    else
      var p := coords[0];
      [ZigzagEncode(WrapI32(p.x - cursor.x)), ZigzagEncode(WrapI32(p.y - cursor.y))]
        + EncodeParams(coords[1..], p)
  }

  /** The stream for `cs` with the cursor starting at `cursor`. A ClosePath is
      written as its fixed header whatever points it lists and leaves the
      cursor alone; any other command is written with its id's low bits. */
  function EncodeFrom(cs: seq<Command>, cursor: Point): seq<u32>
    decreases |cs|
  {
    if cs == [] then []
    else if cs[0].id == CLOSE_PATH then
      [CLOSE_PATH_HEADER] + EncodeFrom(cs[1..], cursor)
    else
      [Header(cs[0])] + EncodeParams(cs[0].coords, cursor)
        + EncodeFrom(cs[1..], LastOr(cs[0].coords, cursor))
  }

  /** `encode_geometry`: the cursor starts at the origin. */
  function Encode(cs: seq<Command>): seq<u32>
  {
    EncodeFrom(cs, ORIGIN)
  }

  /** The inner `for &(cx, cy) in coords` loop of `encode_geometry`: appends
      each point's deltas from the running cursor and moves the cursor to it. */
  method WriteParams(prefix: seq<u32>, coords: seq<Point>, x0: i32, y0: i32)
    returns (result: seq<u32>, x: i32, y: i32)
    ensures result == prefix + EncodeParams(coords, Point(x0, y0))
    ensures Point(x, y) == LastOr(coords, Point(x0, y0))
  {
    result, x, y := prefix, x0, y0;
    var j := 0;
    while j < |coords|
      invariant 0 <= j <= |coords|
      invariant Point(x, y) == if j == 0 then Point(x0, y0) else coords[j - 1]
      invariant result + EncodeParams(coords[j..], Point(x, y)) == prefix + EncodeParams(coords, Point(x0, y0))
    {
      var p := coords[j];
      assert coords[j..][1..] == coords[j + 1..];
      var pair := [ZigzagEncode(WrapI32(p.x - x)), ZigzagEncode(WrapI32(p.y - y))];
      assert EncodeParams(coords[j..], Point(x, y)) == pair + EncodeParams(coords[j + 1..], p);
      result := result + pair;
      x, y := p.x, p.y;
      j := j + 1;
    }
  }

  /** The stream of a MoveTo/LineTo followed by further commands. */
  lemma EncodeFromStep(cs: seq<Command>, cursor: Point)
    requires cs != [] && cs[0].id != CLOSE_PATH
    ensures EncodeFrom(cs, cursor) == [Header(cs[0])] + EncodeParams(cs[0].coords, cursor)
      + EncodeFrom(cs[1..], LastOr(cs[0].coords, cursor))
  {
  }

  /** The same stream with the header, the parameters and the rest grouped from the right. */
  lemma EncodeFromParams(cs: seq<Command>, cursor: Point)
    requires cs != [] && cs[0].id != CLOSE_PATH
    ensures EncodeFrom(cs, cursor) == [Header(cs[0])]
      + (EncodeParams(cs[0].coords, cursor) + EncodeFrom(cs[1..], LastOr(cs[0].coords, cursor)))
  {
    EncodeFromStep(cs, cursor);
  }

  lemma AppendAssoc(a: seq<u32>, b: seq<u32>, c: seq<u32>, d: seq<u32>)
    ensures (a + b + c) + d == a + (b + c + d)
  {
  }

  /** `encode_geometry` as the clipper runs it: one pass over the commands
      with a running cursor. */
  method EncodeGeometry(commands: seq<Command>) returns (result: seq<u32>)
    ensures result == Encode(commands)
  {
    result := [];
    var x: i32 := 0;
    var y: i32 := 0;
    var n := 0;
    while n < |commands|
      invariant 0 <= n <= |commands|
      invariant result + EncodeFrom(commands[n..], Point(x, y)) == Encode(commands)
    {
      var c := commands[n];
      assert commands[n..][1..] == commands[n + 1..];
      if c.id == CLOSE_PATH {
        result := result + [CLOSE_PATH_HEADER];
        n := n + 1;
        continue;
      }
      var header := Header(c);
      ghost var before, cursor := result, Point(x, y);
      EncodeFromStep(commands[n..], cursor);
      result, x, y := WriteParams(result + [header], c.coords, x, y);
      AppendAssoc(before, [header], EncodeParams(c.coords, cursor), EncodeFrom(commands[n + 1..], Point(x, y)));
      n := n + 1;
    }
  }

  /** A ClosePath always encodes as the single integer 15, whatever points it lists. */
  lemma ClosePathEncoding(coords: seq<Point>, cursor: Point)
    ensures EncodeFrom([Command(CLOSE_PATH, coords)], cursor) == [CLOSE_PATH_HEADER]
    ensures CommandId(CLOSE_PATH_HEADER) == CLOSE_PATH && CommandCount(CLOSE_PATH_HEADER) == 1
  {
  }

  // ---------------------------------------------------------------- round trip

  /** Commands the stream can represent: MoveTo or LineTo with fewer than 2^29
      points (the width of the count field), or a ClosePath without points. */
  predicate Encodable(c: Command)
  {
    ((c.id == MOVE_TO || c.id == LINE_TO) && |c.coords| < 0x2000_0000)
    || (c.id == CLOSE_PATH && c.coords == [])
  }

  /** Moving the cursor by the encoded deltas toward `p` lands on `p`, wrap-around included. */
  lemma MovedToEncoded(cursor: Point, p: Point)
    ensures Moved(cursor, ZigzagEncode(WrapI32(p.x - cursor.x)), ZigzagEncode(WrapI32(p.y - cursor.y))) == p
  {
    ZigzagRoundTrip(WrapI32(p.x - cursor.x));
    ZigzagRoundTrip(WrapI32(p.y - cursor.y));
    WrapAddSub(cursor.x, p.x);
    WrapAddSub(cursor.y, p.y);
  }

  /** Reading back the deltas of `coords` recovers `coords` and leaves the cursor at their last point. */
  lemma {:induction false} ParamsRoundTrip(coords: seq<Point>, cursor: Point, tail: seq<u32>)
    ensures DecodeParams(EncodeParams(coords, cursor) + tail, |coords|, cursor)
      == Params(coords, tail, LastOr(coords, cursor))
    decreases |coords|
  {
    if coords != [] {
      ParamsRoundTrip(coords[1..], coords[0], tail);
      ParamsRoundTripStep(coords, cursor, tail);
    }
  }

  /** The step of `ParamsRoundTrip`: the first pair reads back as the first
      point, and the rest as the remaining points. */
  lemma ParamsRoundTripStep(coords: seq<Point>, cursor: Point, tail: seq<u32>)
    requires coords != []
    requires DecodeParams(EncodeParams(coords[1..], coords[0]) + tail, |coords[1..]|, coords[0])
      == Params(coords[1..], tail, LastOr(coords[1..], coords[0]))
    ensures DecodeParams(EncodeParams(coords, cursor) + tail, |coords|, cursor)
      == Params(coords, tail, LastOr(coords, cursor))
  {
    var p := coords[0];
    var rest := EncodeParams(coords[1..], p) + tail;
    EncodeParamsCons(coords, cursor, tail);
    DecodeEncodedPair(p, cursor, rest, |coords|);
    assert [p] + coords[1..] == coords;
    calc {
      DecodeParams(EncodeParams(coords, cursor) + tail, |coords|, cursor);
      DecodeParams(EncodeParams([p], cursor) + rest, |coords|, cursor);
      Prepend([p], DecodeParams(rest, |coords| - 1, p));
      Prepend([p], Params(coords[1..], tail, LastOr(coords[1..], p)));
      Params(coords, tail, LastOr(coords, cursor));
    }
  }

  /** The encoding of a run splits after its first point. */
  lemma EncodeParamsCons(coords: seq<Point>, cursor: Point, tail: seq<u32>)
    requires coords != []
    ensures EncodeParams(coords, cursor) + tail
      == EncodeParams([coords[0]], cursor) + (EncodeParams(coords[1..], coords[0]) + tail)
  {
    assert [coords[0]][1..] == [];
  }

  /** The encoded first point reads back as itself, whatever follows it. */
  lemma DecodeEncodedPair(p: Point, cursor: Point, rest: seq<u32>, count: nat)
    requires count > 0
    ensures DecodeParams(EncodeParams([p], cursor) + rest, count, cursor)
      == Prepend([p], DecodeParams(rest, count - 1, p))
  {
    var dx, dy := ZigzagEncode(WrapI32(p.x - cursor.x)), ZigzagEncode(WrapI32(p.y - cursor.y));
    assert [p][1..] == [];
    assert EncodeParams([p], cursor) + rest == [dx, dy] + rest;
    MovedToEncoded(cursor, p);
    DecodeParamsPair(dx, dy, rest, count, cursor);
  }

  /** A pair read off the front of a run of parameters. */
  lemma DecodeParamsPair(dx: u32, dy: u32, rest: seq<u32>, count: nat, cursor: Point)
    requires count > 0
    ensures DecodeParams([dx, dy] + rest, count, cursor)
      == Prepend([Moved(cursor, dx, dy)], DecodeParams(rest, count - 1, Moved(cursor, dx, dy)))
  {
    assert ([dx, dy] + rest)[2..] == rest;
  }

  /** A MoveTo or LineTo header followed by its parameters decodes to one command. */
  lemma DecodeFromParamsStep(h: u32, tail: seq<u32>, cursor: Point)
    requires CommandId(h) == MOVE_TO || CommandId(h) == LINE_TO
    ensures var d := DecodeParams(tail, CommandCount(h), cursor);
      DecodeFrom([h] + tail, cursor) == [Command(CommandId(h), d.coords)] + DecodeFrom(d.rest, d.cursor)
  {
    assert ([h] + tail)[1..] == tail;
  }

  /** A representable MoveTo or LineTo reads back as itself, whatever follows it. */
  lemma RoundTripParamsCommand(c: Command, cursor: Point, rest: seq<u32>)
    requires Encodable(c) && c.id != CLOSE_PATH
    ensures DecodeFrom([Header(c)] + (EncodeParams(c.coords, cursor) + rest), cursor)
      == [c] + DecodeFrom(rest, LastOr(c.coords, cursor))
  {
    var h := Header(c);
    assert CommandId(h) == c.id && CommandCount(h) == |c.coords|;
    ParamsRoundTrip(c.coords, cursor, rest);
    DecodeFromParamsStep(h, EncodeParams(c.coords, cursor) + rest, cursor);
  }

  /** Decoding the encoding of representable commands gives them back, from any starting cursor. */
  lemma {:induction false} RoundTripFrom(cs: seq<Command>, cursor: Point)
    requires forall c <- cs :: Encodable(c)
    ensures DecodeFrom(EncodeFrom(cs, cursor), cursor) == cs
    decreases |cs|
  {
    if cs != [] {
      assert cs[0] in cs;
      assert forall c <- cs[1..] :: c in cs;
      RoundTripFrom(cs[1..], NextCursor(cs[0], cursor));
      RoundTripCons(cs, cursor);
    }
  }

  /** The cursor after `c` is written or read. */
  function NextCursor(c: Command, cursor: Point): Point
  {
    if c.id == CLOSE_PATH then cursor else LastOr(c.coords, cursor)
  }

  /** The round trip of a list from the round trip of its tail. */
  lemma RoundTripCons(cs: seq<Command>, cursor: Point)
    requires cs != [] && Encodable(cs[0])
    requires DecodeFrom(EncodeFrom(cs[1..], NextCursor(cs[0], cursor)), NextCursor(cs[0], cursor)) == cs[1..]
    ensures DecodeFrom(EncodeFrom(cs, cursor), cursor) == cs
  {
    if cs[0].id == CLOSE_PATH {
      RoundTripConsClose(cs, cursor, EncodeFrom(cs[1..], cursor));
    } else {
      RoundTripConsParams(cs, cursor, EncodeFrom(cs[1..], LastOr(cs[0].coords, cursor)));
    }
  }

  /** The step of the round trip for a leading ClosePath. */
  lemma RoundTripConsClose(cs: seq<Command>, cursor: Point, rest: seq<u32>)
    requires cs != [] && Encodable(cs[0]) && cs[0].id == CLOSE_PATH
    requires rest == EncodeFrom(cs[1..], cursor) && DecodeFrom(rest, cursor) == cs[1..]
    ensures DecodeFrom(EncodeFrom(cs, cursor), cursor) == cs
  {
    assert EncodeFrom(cs, cursor) == [CLOSE_PATH_HEADER] + rest;
    RoundTripClose(cursor, rest);
    assert cs[0] == Command(CLOSE_PATH, []);
    assert [cs[0]] + cs[1..] == cs;
  }

  /** The step of the round trip for a leading MoveTo or LineTo. */
  lemma RoundTripConsParams(cs: seq<Command>, cursor: Point, rest: seq<u32>)
    requires cs != [] && Encodable(cs[0]) && cs[0].id != CLOSE_PATH
    requires rest == EncodeFrom(cs[1..], LastOr(cs[0].coords, cursor))
    requires DecodeFrom(rest, LastOr(cs[0].coords, cursor)) == cs[1..]
    ensures DecodeFrom(EncodeFrom(cs, cursor), cursor) == cs
  {
    EncodeFromParams(cs, cursor);
    RoundTripParamsCommand(cs[0], cursor, rest);
    assert [cs[0]] + cs[1..] == cs;
  }

  /** A ClosePath header reads back as a ClosePath, whatever follows it. */
  lemma RoundTripClose(cursor: Point, rest: seq<u32>)
    ensures DecodeFrom([CLOSE_PATH_HEADER] + rest, cursor) == [Command(CLOSE_PATH, [])] + DecodeFrom(rest, cursor)
  {
    assert ([CLOSE_PATH_HEADER] + rest)[1..] == rest;
  }

  /** `decode_geometry(encode_geometry(cs)) == cs` for every representable command list. */
  lemma RoundTrip(cs: seq<Command>)
    requires forall c <- cs :: Encodable(c)
    ensures Decode(Encode(cs)) == cs
  {
    RoundTripFrom(cs, ORIGIN);
  }
}
