/** The tentacle question, "of all the X within this distance of me, which
    are you closest to?" (crates/core/src/hide_and_seek/question/tentacle.rs):
    the shape each answer builds, and which POIs or transit complexes count
    as the hider's and which as the others. */
module Tentacle {
  import opened Common
  import opened Units
  import opened ShapeCompiler
  import opened Question

  datatype TentacleTarget = Museum | Library | MovieTheater | Hospital | MetroLine | Zoo | Aquarium | AmusementPark

  /** `center` is a geographic point, modelled as a position. */
  datatype TentacleQuestion = TentacleQuestion(center: Position, radius: Centimeters, target: TentacleTarget)

  datatype TentacleAnswer = OutOfRadius | WithinRadius(closestId: string)

  datatype TentacleShape = TentacleShape(question: TentacleQuestion, answer: TentacleAnswer, context: QuestionContext)

  /** The POI category each POI target reads. */
  function PoiKey(t: TentacleTarget): string
    requires t != MetroLine
  {
    match t
    case Museum => "museum"
    case Library => "library"
    case MovieTheater => "movie_theater"
    case Hospital => "hospital"
    case Zoo => "zoo"
    case Aquarium => "aquarium"
    case AmusementPark => "amusement_park"
  }

  // ---------------------------------------------------------------- POI targets

  /** `filter_map(|v| (*v.id != **closest_id).then_some(..))`: the POIs
      whose id is not the answer's, in order. */
  function OtherPois(pois: seq<Poi>, closestId: string): seq<Poi>
  {
    if pois == [] then []
    else
      var init := OtherPois(pois[..|pois| - 1], closestId);
      var last := pois[|pois| - 1];
      if last.id != closestId then init + [last] else init
  }

  /** The other POIs are exactly those with a different id, kept in their
      original order. */
  lemma {:induction false} OtherPoisSpec(pois: seq<Poi>, closestId: string)
    ensures forall p :: p in OtherPois(pois, closestId) <==> p in pois && p.id != closestId
    ensures SubsequenceOf(OtherPois(pois, closestId), pois)
  {
    if pois != [] {
      var init, last := pois[..|pois| - 1], pois[|pois| - 1];
      OtherPoisSpec(init, closestId);
      assert pois == init + [last];
      SubsequenceSnoc(OtherPois(init, closestId), init, last);
    }
  }

  /** `get_poi(category, id)`: the first POI of the category with that id. */
  function FindPoi(pois: seq<Poi>, id: string): (r: Option<Poi>)
    ensures r.Some? ==> r.value in pois && r.value.id == id
    ensures r.None? ==> forall p <- pois :: p.id != id
  {
    if pois == [] then None
    else if pois[0].id == id then Some(pois[0])
    else FindPoi(pois[1..], id)
  }

  // ---------------------------------------------------------------- the metro line

  /** The identifiers of some complexes, in order. */
  function Identifiers(complexes: seq<Complex>): (ids: seq<string>)
    ensures |ids| == |complexes| && forall i | 0 <= i < |complexes| :: ids[i] == complexes[i].identifier
  {
    seq(|complexes|, i requires 0 <= i < |complexes| => complexes[i].identifier)
  }

  /** `unique_by(|v| v.identifier())`: the first complex of each identifier,
      in order. */
  function UniqueByIdentifier(complexes: seq<Complex>): seq<Complex>
  {
    if complexes == [] then []
    else
      var init := UniqueByIdentifier(complexes[..|complexes| - 1]);
      var last := complexes[|complexes| - 1];
      if last.identifier in Identifiers(init) then init else init + [last]
  }

  /** No two complexes share an identifier. */
  predicate DistinctIdentifiers(complexes: seq<Complex>)
  {
    forall i, j | 0 <= i < j < |complexes| :: complexes[i].identifier != complexes[j].identifier
  }

  /** `complexes[i]` is the first complex with its identifier. */
  predicate FirstOfItsIdentifier(complexes: seq<Complex>, i: nat)
    requires i < |complexes|
  {
    forall j | 0 <= j < i :: complexes[j].identifier != complexes[i].identifier
  }

  /** `unique_by` keeps complexes in their original order. */
  lemma {:induction false} UniqueByIdentifierOrder(complexes: seq<Complex>)
    ensures SubsequenceOf(UniqueByIdentifier(complexes), complexes)
  {
    if complexes != [] {
      var init, last := complexes[..|complexes| - 1], complexes[|complexes| - 1];
      UniqueByIdentifierOrder(init);
      assert complexes == init + [last];
      SubsequenceSnoc(UniqueByIdentifier(init), init, last);
    }
  }

  /** `unique_by` keeps exactly the identifiers it was given. */
  lemma {:induction false} UniqueByIdentifierKeepsIdentifiers(complexes: seq<Complex>)
    ensures forall id :: id in Identifiers(UniqueByIdentifier(complexes)) <==> id in Identifiers(complexes)
  {
    if complexes != [] {
      var init, last := complexes[..|complexes| - 1], complexes[|complexes| - 1];
      UniqueByIdentifierKeepsIdentifiers(init);
      assert Identifiers(complexes) == Identifiers(init) + [last.identifier];
      var u0 := UniqueByIdentifier(init);
      if last.identifier !in Identifiers(u0) {
        assert Identifiers(u0 + [last]) == Identifiers(u0) + [last.identifier];
      }
    }
  }

  /** `unique_by` keeps at most one complex per identifier. */
  lemma {:induction false} UniqueByIdentifierDistinct(complexes: seq<Complex>)
    ensures DistinctIdentifiers(UniqueByIdentifier(complexes))
  {
    if complexes != [] {
      var init, last := complexes[..|complexes| - 1], complexes[|complexes| - 1];
      UniqueByIdentifierDistinct(init);
      var u0 := UniqueByIdentifier(init);
      if last.identifier !in Identifiers(u0) {
        var u := u0 + [last];
        forall i, j | 0 <= i < j < |u|
          ensures u[i].identifier != u[j].identifier
        {
          if j == |u0| {
            assert Identifiers(u0)[i] == u[i].identifier;
          }
        }
      }
    }
  }

  /** `unique_by` keeps the first complex of every identifier. */
  lemma {:induction false} UniqueByIdentifierKeepsFirst(complexes: seq<Complex>, i: nat)
    requires i < |complexes| && FirstOfItsIdentifier(complexes, i)
    ensures complexes[i] in UniqueByIdentifier(complexes)
  {
    var init, last := complexes[..|complexes| - 1], complexes[|complexes| - 1];
    if i < |init| {
      assert FirstOfItsIdentifier(init, i);
      UniqueByIdentifierKeepsFirst(init, i);
    } else {
      forall k | 0 <= k < |init|
        ensures Identifiers(init)[k] != last.identifier
      {
        assert init[k] == complexes[k];
      }
      UniqueByIdentifierKeepsIdentifiers(init);
    }
  }

  /** The complexes of the trip's stop events, in order (with repeats). */
  function StopComplexes(context: QuestionContext, trip: Trip): seq<Complex>
    requires forall s <- trip.stopStations :: s in context.stations
  {
    seq(|trip.stopStations|, i requires 0 <= i < |trip.stopStations| => context.stations[trip.stopStations[i]].complex)
  }

  /** The `all_complexes` filter: every complex whose identifier is not one
      of the trip's, in order. */
  function OtherComplexes(all: seq<Complex>, trip: seq<Complex>): seq<Complex>
  {
    if all == [] then []
    else
      var init := OtherComplexes(all[..|all| - 1], trip);
      var last := all[|all| - 1];
      if last.identifier in Identifiers(trip) then init else init + [last]
  }

  /** The other complexes and the trip's complexes share no identifier,
      and together they account for every complex. */
  lemma {:induction false} OtherComplexesSpec(all: seq<Complex>, trip: seq<Complex>)
    ensures forall c <- OtherComplexes(all, trip) :: c.identifier !in Identifiers(trip)
    ensures forall c <- all :: c in OtherComplexes(all, trip) || c.identifier in Identifiers(trip)
    ensures SubsequenceOf(OtherComplexes(all, trip), all)
  {
    if all != [] {
      var init, last := all[..|all| - 1], all[|all| - 1];
      OtherComplexesSpec(init, trip);
      assert all == init + [last];
      SubsequenceSnoc(OtherComplexes(init, trip), init, last);
    }
  }

  // ---------------------------------------------------------------- build_into

  /** The lookups `build_into` unwraps succeed: the trip and each of its
      stations for the metro line, the category and the answered POI for
      the other targets. */
  predicate Buildable(shape: TentacleShape)
  {
    match shape.answer
    case OutOfRadius => true
    case WithinRadius(closestId) =>
      var context := shape.context;
      if shape.question.target == MetroLine then
        closestId in context.trips && forall s <- context.trips[closestId].stopStations :: s in context.stations
      else
        var key := PoiKey(shape.question.target);
        key in context.pois && FindPoi(context.pois[key], closestId).Some?
  }

  /** The lookup whose `unwrap` panics. */
  datatype Lookup = MissingTrip | MissingStation | MissingCategory | MissingPoi

  /** What `build_into` returns, or the first lookup it unwraps that fails. */
  datatype BuildOutcome = Returned(register: Register) | Panicked(missing: Lookup)

  /** The first failing lookup, in the order `build_into` unwraps them: the
      trip, then its stations for the metro line; the category's POIs, then
      the answered POI for the other targets. */
  function FirstMissing(shape: TentacleShape): (m: Option<Lookup>)
    ensures m.None? <==> Buildable(shape)
  {
    match shape.answer
    case OutOfRadius => None
    case WithinRadius(closestId) =>
      var context := shape.context;
      if shape.question.target == MetroLine then
        if closestId !in context.trips then Some(MissingTrip)
        else if exists s <- context.trips[closestId].stopStations :: s !in context.stations then Some(MissingStation)
        else None
      else
        var key := PoiKey(shape.question.target);
        if key !in context.pois then Some(MissingCategory)
        else if FindPoi(context.pois[key], closestId).None? then Some(MissingPoi)
        else None
  }

  /** The metro line's question complexes: its stop-event complexes,
      deduplicated by identifier. */
  function TripComplexes(context: QuestionContext, closestId: string): seq<Complex>
    requires closestId in context.trips && forall s <- context.trips[closestId].stopStations :: s in context.stations
  {
    UniqueByIdentifier(StopComplexes(context, context.trips[closestId]))
  }

  /** What `build_into` appends at a log of length `base`. */
  function Build(shape: TentacleShape, base: nat): (p: Program)
    requires Buildable(shape)
  {
    var q, context := shape.question, shape.context;
    match shape.answer
    case OutOfRadius =>
      Program([Instruction.Point(q.center), Instruction.Dilate(base, q.radius), Instruction.Invert(base + 1)], base + 2)
    case WithinRadius(closestId) =>
      if q.target == MetroLine then
        var trip := TripComplexes(context, closestId);
        var other := OtherComplexes(context.complexes, trip);
        var radius := context.seekerHidingRadius;
        Program([Instruction.PointCloud(Centers(other)), Instruction.PointCloud(Centers(trip)),
                 Instruction.Dilate(base, radius), Instruction.Dilate(base + 1, radius),
                 Instruction.Boundary(base + 3, base + 2, Inside)], base + 4)
      else
        var pois := context.pois[PoiKey(q.target)];
        var question := FindPoi(pois, closestId).value;
        Program([Instruction.PointCloud(Positions(OtherPois(pois, closestId))), Instruction.Point(question.position),
                 Instruction.Boundary(base + 1, base, Inside)], base + 2)
  }

  /** `TentacleQuestionShape::build_into`. */
  method BuildInto(shape: TentacleShape, compiler: SdfCompiler) returns (outcome: BuildOutcome)
    modifies compiler
    ensures outcome.Panicked? <==> !Buildable(shape)
    ensures outcome.Panicked? ==> Some(outcome.missing) == FirstMissing(shape) && compiler.log == old(compiler.log)
    ensures outcome.Returned? ==> var p := Build(shape, |old(compiler.log)|);
      compiler.log == old(compiler.log) + p.ops && outcome.register == p.result
  {
    var missing := FirstMissing(shape);
    if missing.Some? {
      return Panicked(missing.value);
    }
    var q, context := shape.question, shape.context;
    var result: Register;
    match shape.answer {
    case OutOfRadius =>
      var center := compiler.Point(q.center);
      var circle := compiler.Dilate(center, q.radius);
      result := compiler.Invert(circle);
    case WithinRadius(closestId) =>
      var other, tentacle;
      if q.target == MetroLine {
        var complexes := TripComplexes(context, closestId);
        var others := OtherComplexes(context.complexes, complexes);
        var osp := compiler.PointCloud(Centers(others));
        var qsp := compiler.PointCloud(Centers(complexes));
        other := compiler.Dilate(osp, context.seekerHidingRadius);
        tentacle := compiler.Dilate(qsp, context.seekerHidingRadius);
      } else {
        var pois := context.pois[PoiKey(q.target)];
        var question := FindPoi(pois, closestId).value;
        other := compiler.PointCloud(Positions(OtherPois(pois, closestId)));
        tentacle := compiler.Point(question.position);
      }
      result := compiler.Boundary(tentacle, other, Inside);
    }
    outcome := Returned(result);
  }

  /** Out of radius, the hider is outside the circle of the question's
      radius around its centre: the inverted dilation of the centre point. */
  lemma OutOfRadiusInvertsCircle(q: TentacleQuestion, context: QuestionContext, base: nat)
    ensures var p := Build(TentacleShape(q, OutOfRadius, context), base);
      && p.ops[p.result - base] == Instruction.Invert(base + 1)
      && p.ops[1] == Instruction.Dilate(base, q.radius)
      && p.ops[0] == Instruction.Point(q.center)
  {
  }

  /** Within radius, the result is the boundary between the answered
      shape (inside) and the others (outside). For a POI target the
      answered shape is the answered POI's point and the others are the
      category's other POIs, which never include it. */
  lemma PoiTentacle(shape: TentacleShape, base: nat)
    requires Buildable(shape) && shape.answer.WithinRadius? && shape.question.target != MetroLine
    ensures var p := Build(shape, base);
      var pois := shape.context.pois[PoiKey(shape.question.target)];
      var id := shape.answer.closestId;
      var question := FindPoi(pois, id).value;
      && p.ops[p.result - base] == Instruction.Boundary(base + 1, base, Inside)
      && p.ops[1] == Instruction.Point(question.position)
      && p.ops[0] == Instruction.PointCloud(Positions(OtherPois(pois, id)))
      && question in pois && question !in OtherPois(pois, id)
      && forall poi <- pois :: poi.id != id ==> poi in OtherPois(pois, id)
  {
    var pois := shape.context.pois[PoiKey(shape.question.target)];
    OtherPoisSpec(pois, shape.answer.closestId);
  }

  /** For the metro line, both point clouds are dilated by the seekers'
      hiding radius, and the trip's complexes (inside) and the others
      (outside) are disjoint by identifier and cover every complex. */
  lemma MetroLineTentacle(shape: TentacleShape, base: nat)
    requires Buildable(shape) && shape.answer.WithinRadius? && shape.question.target == MetroLine
    ensures var p := Build(shape, base);
      var trip := TripComplexes(shape.context, shape.answer.closestId);
      var other := OtherComplexes(shape.context.complexes, trip);
      && p.ops[p.result - base] == Instruction.Boundary(base + 3, base + 2, Inside)
      && p.ops[2] == Instruction.Dilate(base, shape.context.seekerHidingRadius)
      && p.ops[3] == Instruction.Dilate(base + 1, shape.context.seekerHidingRadius)
      && p.ops[0] == Instruction.PointCloud(Centers(other))
      && p.ops[1] == Instruction.PointCloud(Centers(trip))
      && DistinctIdentifiers(trip)
      && (forall c <- other :: c.identifier !in Identifiers(trip))
      && (forall c <- shape.context.complexes :: c in other || c.identifier in Identifiers(trip))
  {
    var trip := TripComplexes(shape.context, shape.answer.closestId);
    UniqueByIdentifierDistinct(StopComplexes(shape.context, shape.context.trips[shape.answer.closestId]));
    OtherComplexesSpec(shape.context.complexes, trip);
  }

  /** A tentacle shape reads only registers it wrote itself, in order. */
  lemma BuildClosed(shape: TentacleShape, base: nat)
    requires Buildable(shape)
    ensures Closed(Build(shape, base), base)
  {
  }
}
