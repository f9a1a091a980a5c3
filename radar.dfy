/** The radar question, "are you within this distance of me?"
    (crates/core/src/hide_and_seek/question/radar.rs): a hit keeps the
    circle, a miss keeps its complement. */
module Radar {
  import opened Units
  import opened ShapeCompiler

  datatype RadarQuestion = RadarQuestion(center: Position, radius: Centimeters)

  datatype RadarAnswer = Hit | Miss

  /** The shape's question context is never read and is left out. */
  datatype RadarShape = RadarShape(question: RadarQuestion, answer: RadarAnswer)

  /** What `build_into` appends at a log of length `base`. */
  function Build(shape: RadarShape, base: nat): Program
  {
    var circle := Circle(shape.question.center, shape.question.radius);
    match shape.answer
    case Hit => Program([circle], base)
    case Miss => Program([circle, Invert(base)], base + 1)
  }

  /** `RadarQuestionShape::build_into`. */
  method BuildInto(shape: RadarShape, compiler: SdfCompiler) returns (result: Register)
    modifies compiler
    ensures var p := Build(shape, |old(compiler.log)|);
      compiler.log == old(compiler.log) + p.ops && result == p.result
  {
    result := compiler.WithCircle(shape.question.center, shape.question.radius);
    match shape.answer {
      case Hit =>
      case Miss =>
        result := compiler.Invert(result);
    }
  }

  /** A hit is the circle of the question's radius around its centre; a
      miss writes that same circle and then inverts it. */
  lemma MissInvertsHit(q: RadarQuestion, base: nat)
    ensures var hit := Build(RadarShape(q, Hit), base);
      var miss := Build(RadarShape(q, Miss), base);
      && hit.ops == [Circle(q.center, q.radius)] && hit.result == base
      && miss.ops == hit.ops + [Invert(hit.result)] && miss.result == base + 1
  {
  }

  /** A radar shape reads only registers it wrote itself, in order. */
  lemma BuildClosed(shape: RadarShape, base: nat)
    ensures Closed(Build(shape, base), base)
  {
  }
}
