/** The shape compiler as the question shapes drive it. Its internals are
    not part of this model: it is an instruction log in which every call
    appends one instruction and returns a fresh register, the position of
    that instruction in the log. The instructions follow the compiler calls
    the question shapes make, which include the `SdfInstruction` variants of
    crates/core/src/shape/instruction.rs (Point, Union, Invert, Dilate,
    Boundary, LoadVdg). */
module ShapeCompiler {
  import opened Units

  /** A register: the index of the instruction that writes it. */
  type Register = nat

  /** An area diagram or a sea-level contour texture held by the question
      context, known only by its identity. */
  datatype Diagram = Diagram(id: nat)
  datatype ContourTexture = ContourTexture(id: nat)

  /** `BoundaryOverlapResolution`: the question shapes only use `Inside`. */
  datatype OverlapResolution = Inside

  datatype Instruction =
    | Point(position: Position)
    | PointCloud(positions: seq<Position>)
    | Circle(center: Position, radius: Centimeters)
    | GeodesicString(path: seq<Position>)
    | Contour(texture: ContourTexture, distance: Centimeters)
    | LoadVdg(diagram: Diagram)
    | Union(shapes: seq<Register>)
    | Edge(input: Register)
    | Invert(input: Register)
    | Dilate(input: Register, amount: Centimeters)
    | Boundary(inside: Register, outside: Register, resolution: OverlapResolution)

  /** The registers an instruction reads. */
  function Inputs(instr: Instruction): seq<Register>
  {
    match instr
    case Union(shapes) => shapes
    case Edge(input) => [input]
    case Invert(input) => [input]
    case Dilate(input, _) => [input]
    case Boundary(inside, outside, _) => [inside, outside]
    case _ => []
  }

  /** Every instruction reads only registers written before it. */
  predicate WellFormed(log: seq<Instruction>)
  {
    forall k | 0 <= k < |log| :: forall r <- Inputs(log[k]) :: r < k
  }

  /** What a shape appends to a log whose length was `base`, and the
      register holding the shape. */
  datatype Program = Program(ops: seq<Instruction>, result: Register)

  /** A program written at `base` reads only registers written before its
      own instructions and returns one it wrote. */
  predicate Closed(p: Program, base: nat)
  {
    && base <= p.result < base + |p.ops|
    && forall k | 0 <= k < |p.ops| :: forall r <- Inputs(p.ops[k]) :: r < base + k
  }

  /** Appending a closed program keeps a log well formed and leaves the
      result register written. */
  lemma AppendClosed(log: seq<Instruction>, p: Program)
    requires WellFormed(log) && Closed(p, |log|)
    ensures WellFormed(log + p.ops) && p.result < |log + p.ops|
  {
    var all := log + p.ops;
    forall k | 0 <= k < |all|
      ensures forall r <- Inputs(all[k]) :: r < k
    {
      if k >= |log| {
        assert all[k] == p.ops[k - |log|];
      } else {
        assert all[k] == log[k];
      }
    }
  }

  /** `SdfCompiler`: only its instruction log is modelled. */
  class SdfCompiler {
    var log: seq<Instruction>

    constructor ()
      ensures log == []
    {
      log := [];
    }

    /** Appends one instruction; its register is its index. */
    method Append(instr: Instruction) returns (output: Register)
      modifies this
      ensures log == old(log) + [instr] && output == |old(log)|
    {
      output := |log|;
      log := log + [instr];
    }

    /** `point`. */
    method Point(position: Position) returns (output: Register)
      modifies this
      ensures log == old(log) + [Instruction.Point(position)] && output == |old(log)|
    {
      output := Append(Instruction.Point(position));
    }

    /** `point_cloud`. */
    method PointCloud(positions: seq<Position>) returns (output: Register)
      modifies this
      ensures log == old(log) + [Instruction.PointCloud(positions)] && output == |old(log)|
    {
      output := Append(Instruction.PointCloud(positions));
    }

    /** `with(&Circle::new(center, radius))`. */
    method WithCircle(center: Position, radius: Centimeters) returns (output: Register)
      modifies this
      ensures log == old(log) + [Circle(center, radius)] && output == |old(log)|
    {
      output := Append(Circle(center, radius));
    }

    /** `geodesic_string`. */
    method GeodesicString(path: seq<Position>) returns (output: Register)
      modifies this
      ensures log == old(log) + [Instruction.GeodesicString(path)] && output == |old(log)|
    {
      output := Append(Instruction.GeodesicString(path));
    }

    /** `with_contour_texture`. */
    method WithContourTexture(texture: ContourTexture, distance: Centimeters) returns (output: Register)
      modifies this
      ensures log == old(log) + [Contour(texture, distance)] && output == |old(log)|
    {
      output := Append(Contour(texture, distance));
    }

    /** `with_vdg`. */
    method WithVdg(diagram: Diagram) returns (output: Register)
      modifies this
      ensures log == old(log) + [LoadVdg(diagram)] && output == |old(log)|
    {
      output := Append(LoadVdg(diagram));
    }

    /** `union`. */
    method Union(shapes: seq<Register>) returns (output: Register)
      modifies this
      ensures log == old(log) + [Instruction.Union(shapes)] && output == |old(log)|
    {
      output := Append(Instruction.Union(shapes));
    }

    /** `edge`. */
    method Edge(input: Register) returns (output: Register)
      modifies this
      ensures log == old(log) + [Instruction.Edge(input)] && output == |old(log)|
    {
      output := Append(Instruction.Edge(input));
    }

    /** `invert`. */
    method Invert(input: Register) returns (output: Register)
      modifies this
      ensures log == old(log) + [Instruction.Invert(input)] && output == |old(log)|
    {
      output := Append(Instruction.Invert(input));
    }

    /** `dilate`. */
    method Dilate(input: Register, amount: Centimeters) returns (output: Register)
      modifies this
      ensures log == old(log) + [Instruction.Dilate(input, amount)] && output == |old(log)|
    {
      output := Append(Instruction.Dilate(input, amount));
    }

    /** `boundary`. */
    method Boundary(inside: Register, outside: Register, resolution: OverlapResolution) returns (output: Register)
      modifies this
      ensures log == old(log) + [Instruction.Boundary(inside, outside, resolution)] && output == |old(log)|
    {
      output := Append(Instruction.Boundary(inside, outside, resolution));
    }
  }
}
