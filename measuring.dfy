/** The measuring question, "compared to me, are you closer to or further
    from the nearest X?" (crates/core/src/hide_and_seek/question/measuring.rs):
    which answers and data let it become a shape, and the shape it builds. */
module Measuring {
  import opened Common
  import opened Units
  import opened ShapeCompiler
  import opened Question

  datatype MeasuringTarget =
    | CommercialAirport | HighSpeedRailLine | RailStation | InternationalBorder
    | FirstAdministrativeDivisionBorder | SecondAdministrativeDivisionBorder | SeaLevel
    | BodyOfWater | Coastline | Mountain | Park | AmusementPark | Zoo | Aquarium | GolfCourse
    | Museum | MovieTheater | Hospital | Library | ForeignConsulate

  /** For `SeaLevel` the distance is an altitude. */
  datatype MeasuringQuestion = MeasuringQuestion(category: MeasuringTarget, distance: Centimeters)

  datatype MeasuringAnswer = Null | Closer | Further

  datatype MeasuringShape = MeasuringShape(question: MeasuringQuestion, answer: MeasuringAnswer, context: QuestionContext)

  // ---------------------------------------------------------------- to_shape

  /** The data a target needs before it can become a shape. */
  datatype DataRequirement =
    | NoRequirement
    | PoiCategory(poiKey: string)
    | AreaCategory(areaKey: string)
    | SeaLevelContourTexture
    | HighSpeedRailLineData

  /** The check `to_shape` makes for each target. */
  function Requirement(t: MeasuringTarget): DataRequirement
  {
    match t
    case RailStation => NoRequirement
    case CommercialAirport => PoiCategory("airport")
    case HighSpeedRailLine => HighSpeedRailLineData
    case InternationalBorder => AreaCategory("international_border")
    case FirstAdministrativeDivisionBorder => AreaCategory("first_administrative_division")
    case SecondAdministrativeDivisionBorder => AreaCategory("second_administrative_division")
    case SeaLevel => SeaLevelContourTexture
    case BodyOfWater => AreaCategory("water_body")
    case Coastline => AreaCategory("landmass")
    case Mountain => PoiCategory("mountain")
    case Park => PoiCategory("park")
    case AmusementPark => PoiCategory("amusement_park")
    case Zoo => PoiCategory("zoo")
    case Aquarium => PoiCategory("aquarium")
    case GolfCourse => PoiCategory("golf_course")
    case Museum => PoiCategory("museum")
    case MovieTheater => PoiCategory("movie_theater")
    case Hospital => PoiCategory("hospital")
    case Library => PoiCategory("library")
    case ForeignConsulate => PoiCategory("foreign_consulate")
  }

  /** The name `to_shape` reports when a target's data is missing. */
  function NiceName(t: MeasuringTarget): string
  {
    match t
    case RailStation => ""
    case CommercialAirport => "Airports"
    case HighSpeedRailLine => "High-Speed Rail Lines"
    case InternationalBorder => "Administrative Divisions"
    case FirstAdministrativeDivisionBorder => "Administrative Divisions"
    case SecondAdministrativeDivisionBorder => "Administrative Divisions"
    case SeaLevel => "Sea Level Contour Texture"
    case BodyOfWater => "Water Bodies"
    case Coastline => "Landmasses"
    case Mountain => "Mountains"
    case Park => "Parks"
    case AmusementPark => "Amusement Parks"
    case Zoo => "Zoos"
    case Aquarium => "Aquariums"
    case GolfCourse => "Golf Courses"
    case Museum => "Museums"
    case MovieTheater => "Movie Theaters"
    case Hospital => "Hospitals"
    case Library => "Libraries"
    case ForeignConsulate => "Foreign Consulates"
  }

  /** `has_poi_category`, `has_area_category`,
      `has_sea_level_contour_texture` and `has_high_speed_rail_line_data`. */
  predicate Satisfies(context: QuestionContext, req: DataRequirement)
  {
    match req
    case NoRequirement => true
    case PoiCategory(key) => key in context.pois
    case AreaCategory(key) => key in context.areas
    case SeaLevelContourTexture => context.seaLevelContour.Some?
    case HighSpeedRailLineData => context.highSpeedRailLines.Some?
  }

  const NO_POIS_MESSAGE: string := "No POIs available to answer Measuring Question."
  const NO_POIS_HINT: string := "Your game map should include POIs for this category."

  /** `MeasuringQuestion::to_shape`. */
  function ToShape(q: MeasuringQuestion, answer: MeasuringAnswer, context: QuestionContext): Result<MeasuringShape, ShapeError>
  {
    if answer == Null then Err(ShapeError(NO_POIS_MESSAGE, Some(NO_POIS_HINT), NoEntropy))
    else if !Satisfies(context, Requirement(q.category)) then Err(MissingDataError(NiceName(q.category)))
    else Ok(MeasuringShape(q, answer, context))
  }

  /** A Null answer is refused for lack of entropy whatever the target and
      whatever data is present. */
  lemma NullHasNoEntropy(q: MeasuringQuestion, context: QuestionContext)
    ensures ToShape(q, Null, context).Err?
    ensures ToShape(q, Null, context).error.errorClass == NoEntropy
    ensures ToShape(q, Null, context).error.resolutionHint == Some(NO_POIS_HINT)
  {
  }

  /** For a Closer or Further answer, `to_shape` fails exactly when the
      target's data is missing, and then with `missing_data` naming it; on
      success the shape keeps the question, the answer and the context. */
  lemma ToShapeOutcome(q: MeasuringQuestion, answer: MeasuringAnswer, context: QuestionContext)
    requires answer != Null
    ensures ToShape(q, answer, context).Ok? <==> Satisfies(context, Requirement(q.category))
    ensures ToShape(q, answer, context).Ok? ==> ToShape(q, answer, context).value == MeasuringShape(q, answer, context)
    ensures ToShape(q, answer, context).Err? ==>
      ToShape(q, answer, context).error.errorClass == MissingData
      && Between(ToShape(q, answer, context).error.message, MISSING_PREFIX, MISSING_SUFFIX) == NiceName(q.category)
  {
    MissingDataNamesRecoverable(NiceName(q.category));
  }

  /** Rail stations need no data: any Closer or Further answer becomes a shape. */
  lemma RailStationAlwaysAccepted(distance: Centimeters, answer: MeasuringAnswer, context: QuestionContext)
    requires answer != Null
    ensures ToShape(MeasuringQuestion(RailStation, distance), answer, context).Ok?
  {
  }

  /** The three border targets report the same missing data, the
      administrative divisions, though each checks its own area category. */
  lemma BordersShareNiceName()
    ensures NiceName(InternationalBorder) == NiceName(FirstAdministrativeDivisionBorder)
         == NiceName(SecondAdministrativeDivisionBorder) == "Administrative Divisions"
    ensures Requirement(InternationalBorder) != Requirement(FirstAdministrativeDivisionBorder)
    ensures Requirement(InternationalBorder) != Requirement(SecondAdministrativeDivisionBorder)
    ensures Requirement(FirstAdministrativeDivisionBorder) != Requirement(SecondAdministrativeDivisionBorder)
  {
    assert "international_border"[0] != "first_administrative_division"[0];
    assert "international_border"[0] != "second_administrative_division"[0];
    assert "first_administrative_division"[0] != "second_administrative_division"[0];
  }

  // ---------------------------------------------------------------- build_into

  /** The data `build_into` reads (and unwraps) for each target. */
  datatype DataSource =
    | ContourData
    | RailLines
    | AllPois(poiKey: string)
    | AllComplexes
    | AreaDiagram(areaKey: string)

  /** The context lookup in each arm of `build_into`. */
  function Source(t: MeasuringTarget): DataSource
  {
    match t
    case SeaLevel => ContourData
    case HighSpeedRailLine => RailLines
    case CommercialAirport => AllPois("airport")
    case RailStation => AllComplexes
    case InternationalBorder => AreaDiagram("international_border")
    case FirstAdministrativeDivisionBorder => AreaDiagram("first_administrative_division")
    case SecondAdministrativeDivisionBorder => AreaDiagram("second_administrative_division")
    case BodyOfWater => AreaDiagram("water_body")
    case Coastline => AreaDiagram("landmass")
    case Mountain => AllPois("mountain")
    case Park => AllPois("park")
    case AmusementPark => AllPois("amusement_park")
    case Zoo => AllPois("zoo")
    case Aquarium => AllPois("aquarium")
    case GolfCourse => AllPois("golf_course")
    case Museum => AllPois("museum")
    case MovieTheater => AllPois("movie_theater")
    case Hospital => AllPois("hospital")
    case Library => AllPois("library")
    case ForeignConsulate => AllPois("foreign_consulate")
  }

  /** The lookup succeeds, so its `unwrap` does not panic. */
  predicate Available(context: QuestionContext, source: DataSource)
  {
    match source
    case ContourData => context.seaLevelContour.Some?
    case RailLines => context.highSpeedRailLines.Some?
    case AllPois(key) => key in context.pois
    case AllComplexes => true
    case AreaDiagram(key) => key in context.areas
  }

  /** Every shape `to_shape` accepts can be built: each target's check in
      `to_shape` covers the lookup its arm of `build_into` unwraps, and the
      Null answer that `build_into` treats as unreachable is refused. */
  lemma AcceptedShapesBuild(q: MeasuringQuestion, answer: MeasuringAnswer, context: QuestionContext)
    requires ToShape(q, answer, context).Ok?
    ensures var shape := ToShape(q, answer, context).value;
      shape.answer != Null && Available(shape.context, Source(shape.question.category))
  {
    assert answer != Null && Satisfies(context, Requirement(q.category));
    RequirementCoversSource(q.category, context);
  }

  /** Each target's check covers its lookup. */
  lemma RequirementCoversSource(t: MeasuringTarget, context: QuestionContext)
    requires Satisfies(context, Requirement(t))
    ensures Available(context, Source(t))
  {
    match t
    case CommercialAirport =>
    case HighSpeedRailLine =>
    case RailStation =>
    case InternationalBorder =>
    case FirstAdministrativeDivisionBorder =>
    case SecondAdministrativeDivisionBorder =>
    case SeaLevel =>
    case BodyOfWater =>
    case Coastline =>
    case Mountain =>
    case Park =>
    case AmusementPark =>
    case Zoo =>
    case Aquarium =>
    case GolfCourse =>
    case Museum =>
    case MovieTheater =>
    case Hospital =>
    case Library =>
    case ForeignConsulate =>
  }

  /** The shape of the distance field for a target other than sea level:
      one geodesic string per rail line joined by a union, a point cloud of
      POI positions or complex centres, or the edge of an area diagram. */
  function Field(source: DataSource, context: QuestionContext, base: nat): (p: Program)
    requires source != ContourData && Available(context, source)
  {
    match source
    case RailLines =>
      var lines := context.highSpeedRailLines.value;
      Program(seq(|lines|, i requires 0 <= i < |lines| => Instruction.GeodesicString(lines[i]))
                + [Instruction.Union(seq(|lines|, i requires 0 <= i < |lines| => base + i))],
              base + |lines|)
    case AllPois(key) => Program([Instruction.PointCloud(Positions(context.pois[key]))], base)
    case AllComplexes => Program([Instruction.PointCloud(Centers(context.complexes))], base)
    case AreaDiagram(key) => Program([LoadVdg(context.areas[key]), Instruction.Edge(base)], base + 1)
  }

  /** What `build_into` appends for a shape, at a log of length `base`. */
  function Build(shape: MeasuringShape, base: nat): (p: Program)
    requires shape.answer != Null && Available(shape.context, Source(shape.question.category))
  {
    var q := shape.question;
    var closer :=
      if Source(q.category) == ContourData then
        Program([Instruction.Contour(shape.context.seaLevelContour.value, q.distance)], base)
      else
        var field := Field(Source(q.category), shape.context, base);
        Program(field.ops + [Instruction.Dilate(field.result, q.distance)], base + |field.ops|);
    if shape.answer == Closer then closer
    else Program(closer.ops + [Instruction.Invert(closer.result)], base + |closer.ops|)
  }

  /** The `map(|path| compiler.geodesic_string(..)).collect()` loop of the
      high-speed rail arm: one geodesic string per line, registers in order. */
  method GeodesicStrings(lines: seq<seq<Position>>, compiler: SdfCompiler) returns (paths: seq<Register>)
    modifies compiler
    ensures var base := |old(compiler.log)|;
      && compiler.log == old(compiler.log) + seq(|lines|, i requires 0 <= i < |lines| => Instruction.GeodesicString(lines[i]))
      && paths == seq(|lines|, i requires 0 <= i < |lines| => base + i)
  {
    var base := |compiler.log|;
    paths := [];
    for i := 0 to |lines|
      invariant compiler.log == old(compiler.log) + seq(i, j requires 0 <= j < i => Instruction.GeodesicString(lines[j]))
      invariant paths == seq(i, j requires 0 <= j < i => base + j)
    {
      var path := compiler.GeodesicString(lines[i]);
      paths := paths + [path];
    }
  }

  /** The arm of `build_into` that builds the distance field. */
  method BuildField(source: DataSource, context: QuestionContext, compiler: SdfCompiler) returns (field: Register)
    requires source != ContourData && Available(context, source)
    modifies compiler
    ensures var p := Field(source, context, |old(compiler.log)|);
      compiler.log == old(compiler.log) + p.ops && field == p.result
  {
    match source
    case RailLines =>
      var paths := GeodesicStrings(context.highSpeedRailLines.value, compiler);
      field := compiler.Union(paths);
    case AllPois(key) =>
      field := compiler.PointCloud(Positions(context.pois[key]));
    case AllComplexes =>
      field := compiler.PointCloud(Centers(context.complexes));
    case AreaDiagram(key) =>
      var area := compiler.WithVdg(context.areas[key]);
      field := compiler.Edge(area);
  }

  /** `MeasuringQuestionShape::build_into`. */
  method BuildInto(shape: MeasuringShape, compiler: SdfCompiler) returns (result: Register)
    requires shape.answer != Null && Available(shape.context, Source(shape.question.category))
    modifies compiler
    ensures var p := Build(shape, |old(compiler.log)|);
      compiler.log == old(compiler.log) + p.ops && result == p.result
  {
    var q, context := shape.question, shape.context;
    if Source(q.category) == ContourData {
      var contour := compiler.WithContourTexture(context.seaLevelContour.value, q.distance);
      if shape.answer == Closer {
        result := contour;
      } else {
        result := compiler.Invert(contour);
      }
      return;
    }
    var field := BuildField(Source(q.category), context, compiler);
    var dilated := compiler.Dilate(field, q.distance);
    if shape.answer == Closer {
      result := dilated;
    } else {
      result := compiler.Invert(dilated);
    }
  }

  /** Only sea level reads the contour texture. */
  lemma OnlySeaLevelReadsContour(t: MeasuringTarget)
    ensures Source(t) == ContourData <==> t == SeaLevel
  {
  }

  /** A Further answer builds exactly what Closer builds and then inverts it. */
  lemma FurtherInvertsCloser(q: MeasuringQuestion, context: QuestionContext, base: nat)
    requires Available(context, Source(q.category))
    ensures var closer := Build(MeasuringShape(q, Closer, context), base);
      Build(MeasuringShape(q, Further, context), base)
        == Program(closer.ops + [Instruction.Invert(closer.result)], base + |closer.ops|)
  {
  }

  /** Every target but sea level is dilated by the question's distance, and
      Closer returns the dilated field; sea level is never dilated and
      Closer returns the contour at that distance. */
  lemma CloserDilatesField(q: MeasuringQuestion, context: QuestionContext, base: nat)
    requires Available(context, Source(q.category))
    ensures var p := Build(MeasuringShape(q, Closer, context), base);
      && p.result == base + |p.ops| - 1
      && (q.category != SeaLevel ==> p.ops[|p.ops| - 1].Dilate? && p.ops[|p.ops| - 1].amount == q.distance)
      && (q.category == SeaLevel ==>
            p.ops == [Instruction.Contour(context.seaLevelContour.value, q.distance)])
  {
    OnlySeaLevelReadsContour(q.category);
  }

  /** Border, water and coast targets take the edge of their area diagram
      before dilating it. */
  lemma AreasTakeEdge(q: MeasuringQuestion, context: QuestionContext, base: nat)
    requires Source(q.category).AreaDiagram? && Available(context, Source(q.category))
    ensures Build(MeasuringShape(q, Closer, context), base).ops
      == [LoadVdg(context.areas[Source(q.category).areaKey]), Instruction.Edge(base), Instruction.Dilate(base + 1, q.distance)]
  {
  }

  /** A measuring shape reads only registers it wrote itself, in order. */
  lemma BuildClosed(shape: MeasuringShape, base: nat)
    requires shape.answer != Null && Available(shape.context, Source(shape.question.category))
    ensures Closed(Build(shape, base), base)
  {
    var q := shape.question;
    if Source(q.category) != ContourData {
      FieldClosed(Source(q.category), shape.context, base);
    }
  }

  /** The distance field reads only registers it wrote. */
  lemma FieldClosed(source: DataSource, context: QuestionContext, base: nat)
    requires source != ContourData && Available(context, source)
    ensures Closed(Field(source, context, base), base)
  {
    var p := Field(source, context, base);
    if source.RailLines? {
      var n := |context.highSpeedRailLines.value|;
      forall k | 0 <= k < |p.ops|
        ensures forall r <- Inputs(p.ops[k]) :: r < base + k
      {
        if k == n {
          assert Inputs(p.ops[k]) == seq(n, i requires 0 <= i < n => base + i);
        } else {
          assert p.ops[k].GeodesicString?;
        }
      }
    }
  }
}
