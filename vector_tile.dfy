/** The geometry-type enumeration of the vector-tile protobuf schema
    (section 4.3.4 of the Mapbox Vector Tile Specification v2.1) and the
    defaults of a tile layer, as tools/pmtiles-clip/src/vector_tile.rs declares
    them. */
module VectorTile {
  import opened Common

  /** `GeomType`, `#[repr(i32)]` with discriminants 0 to 3. */
  datatype GeomType = Unknown | Point | Linestring | Polygon

  datatype TryFromResult = Ok(geomType: GeomType) | Err(value: int)

  /** The discriminant, `g as i32`. */
  function Discriminant(g: GeomType): (d: i32)
    ensures 0 <= d <= 3
  {
    match g
    case Unknown => 0
    case Point => 1
    case Linestring => 2
    case Polygon => 3
  }

  /** `GeomType::as_str_name`. */
  function AsStrName(g: GeomType): (name: string)
  {
    match g
    case Unknown => "UNKNOWN"
    case Point => "POINT"
    case Linestring => "LINESTRING"
    case Polygon => "POLYGON"
  }

  /** `<GeomType as TryFrom<i32>>::try_from`: succeeds exactly on 0..=3 and
      otherwise hands the value back unchanged. */
  function TryFrom(value: i32): (r: TryFromResult)
    ensures r.Ok? <==> 0 <= value <= 3
    ensures r.Ok? ==> Discriminant(r.geomType) == value
    ensures r.Err? ==> r.value == value
  {
    match value
    case 0 => Ok(Unknown)
    case 1 => Ok(Point)
    case 2 => Ok(Linestring)
    case 3 => Ok(Polygon)
    case _ => Err(value)
  }

  /** A feature, reduced to the field `get_type` reads (`geom_type`, an optional enumeration value). */
  datatype Feature = Feature(geomTypeField: Option<i32>)

  /** `Feature::get_type`: 1, 2 and 3 name Point, Linestring and Polygon;
      anything else, an absent field included, reads as Unknown. */
  function GetType(f: Feature): (g: GeomType)
  {
    match f.geomTypeField
    case Some(1) => Point
    case Some(2) => Linestring
    case Some(3) => Polygon
    case _ => Unknown
  }

  /** A layer, reduced to the two fields that carry schema defaults. */
  datatype Layer = Layer(version: u32, name: string, extent: Option<u32>)

  /** The value prost's derived `Default` gives a layer: the required
      `version` holds its schema default 1, and the optional `extent` is left
      absent, so a reader sees the schema default 4096 through `Extent`
      while re-encoding the layer writes no extent field. */
  function DefaultLayer(): (l: Layer)
    ensures l.version == 1 && l.name == ""
    ensures l.extent.None? && Extent(l) == 4096
  {
    Layer(1, "", None)
  }

  /** The value of `extent` a reader sees (`Layer::extent()`): the stored value or the default 4096. */
  function Extent(l: Layer): (e: u32)
    ensures l.extent.None? ==> e == 4096
    ensures l.extent.Some? ==> e == l.extent.value
  {
    match l.extent
    case Some(v) => v
    case None => 4096
  }

  /** Converting a variant to its discriminant and back is the identity. */
  lemma TryFromDiscriminant(g: GeomType)
    ensures TryFrom(Discriminant(g)) == Ok(g)
  {
  }

  /** `try_from` and `get_type` agree on every present value that names a real geometry. */
  lemma GetTypeAgreesWithTryFrom(v: i32)
    requires 1 <= v <= 3
    ensures TryFrom(v) == Ok(GetType(Feature(Some(v))))
  {
  }

  /** `get_type` never fails: values that `try_from` rejects, and an absent field, read as Unknown. */
  lemma GetTypeUnknownCases(f: Feature)
    ensures GetType(f) == Unknown <==> (f.geomTypeField.None? || !(1 <= f.geomTypeField.value <= 3))
  {
  }

  /** The four names are pairwise distinct, so `as_str_name` is injective. */
  lemma AsStrNameInjective(g: GeomType, h: GeomType)
    ensures AsStrName(g) == AsStrName(h) ==> g == h
  {
  }
}
