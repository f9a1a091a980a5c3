/** What the question shapes share (crates/core/src/hide_and_seek/question/mod.rs):
    the error a question reports when it cannot become a shape, and the
    question context, which is not part of this model and appears here as
    the data it answers with. */
module Question {
  import opened Common
  import opened Units
  import opened ShapeCompiler

  datatype Result<T, E> = Ok(value: T) | Err(error: E)

  /** `ShapeErrorClass`. */
  datatype ShapeErrorClass = Uncomputable | MissingData | NoEntropy | InvalidParameters

  /** `ShapeError`. */
  datatype ShapeError = ShapeError(message: string, resolutionHint: Option<string>, errorClass: ShapeErrorClass)

  const MISSING_PREFIX: string := "Missing "
  const MISSING_SUFFIX: string := " Data!"
  const HINT_PREFIX: string := "Download the '"
  const HINT_SUFFIX: string := "' data bundle to visualize this question."

  /** `ShapeError::missing_data(nice_name)`. */
  function MissingDataError(niceName: string): (e: ShapeError)
    ensures e.errorClass == MissingData && e.resolutionHint.Some?
    ensures MISSING_PREFIX <= e.message && HINT_PREFIX <= e.resolutionHint.value
  {
    ShapeError(MISSING_PREFIX + niceName + MISSING_SUFFIX,
               Some(HINT_PREFIX + niceName + HINT_SUFFIX),
               MissingData)
  }

  /** The nice name carried by a message or hint between a fixed prefix
      and suffix. */
  function Between(text: string, prefix: string, suffix: string): string
    requires |prefix| + |suffix| <= |text|
  {
    text[|prefix|..|text| - |suffix|]
  }

  /** The nice name can be read back verbatim from both the message and
      the hint, so two different names never give the same error. */
  lemma MissingDataNamesRecoverable(niceName: string)
    ensures var e := MissingDataError(niceName);
      && |MISSING_PREFIX| + |MISSING_SUFFIX| <= |e.message|
      && Between(e.message, MISSING_PREFIX, MISSING_SUFFIX) == niceName
      && |HINT_PREFIX| + |HINT_SUFFIX| <= |e.resolutionHint.value|
      && Between(e.resolutionHint.value, HINT_PREFIX, HINT_SUFFIX) == niceName
  {
    var e := MissingDataError(niceName);
    assert e.message == MISSING_PREFIX + niceName + MISSING_SUFFIX;
    assert e.message[|MISSING_PREFIX|..|e.message| - |MISSING_SUFFIX|] == niceName;
    var hint := e.resolutionHint.value;
    assert hint == HINT_PREFIX + niceName + HINT_SUFFIX;
    assert hint[|HINT_PREFIX|..|hint| - |HINT_SUFFIX|] == niceName;
  }

  /** Different nice names give different errors. */
  lemma MissingDataInjective(a: string, b: string)
    requires MissingDataError(a) == MissingDataError(b)
    ensures a == b
  {
    MissingDataNamesRecoverable(a);
    MissingDataNamesRecoverable(b);
  }

  // ---------------------------------------------------------------- the question context

  /** A point of interest. */
  datatype Poi = Poi(id: string, position: Position)

  /** A transit complex: a group of stations with one centre. */
  datatype Complex = Complex(identifier: string, center: Position)

  /** A station and the complex it belongs to. */
  datatype Station = Station(identifier: string, complex: Complex)

  /** A trip, by the stations of its stop events in order. */
  datatype Trip = Trip(stopStations: seq<string>)

  /** The question context as the shapes query it: POIs by category, area
      diagrams by category, the sea-level contour texture, the high-speed
      rail lines, the transit data and the seekers' hiding radius. Each
      `has_…` check is membership in the matching field. */
  datatype QuestionContext = QuestionContext(
    pois: map<string, seq<Poi>>,
    areas: map<string, Diagram>,
    seaLevelContour: Option<ContourTexture>,
    highSpeedRailLines: Option<seq<seq<Position>>>,
    complexes: seq<Complex>,
    stations: map<string, Station>,
    trips: map<string, Trip>,
    seekerHidingRadius: Centimeters)

  /** The positions of some POIs, in order. */
  function Positions(pois: seq<Poi>): (ps: seq<Position>)
    ensures |ps| == |pois| && forall i | 0 <= i < |pois| :: ps[i] == pois[i].position
  {
    seq(|pois|, i requires 0 <= i < |pois| => pois[i].position)
  }

  /** The centres of some complexes, in order. */
  function Centers(complexes: seq<Complex>): (cs: seq<Position>)
    ensures |cs| == |complexes| && forall i | 0 <= i < |complexes| :: cs[i] == complexes[i].center
  {
    seq(|complexes|, i requires 0 <= i < |complexes| => complexes[i].center)
  }
}
