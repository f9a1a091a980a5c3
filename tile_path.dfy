/** Recovering a tile's zoom, column and row from a `z/x/y.ext` file path, as
    `parse_tile_path` in tools/pmtiles-clip/src/main.rs does, including the
    decimal parsing of Rust's `str::parse` for unsigned integers. */
module TilePath {
  import opened Common

  const U8_MAX: nat := 255

  datatype TileId = TileId(z: u8, x: u32, y: u32)

  predicate IsDigit(c: char)
  {
    '0' <= c <= '9'
  }

  predicate AllDigits(s: string)
  {
    forall i | 0 <= i < |s| :: IsDigit(s[i])
  }

  function DigitValue(c: char): (d: nat)
    requires IsDigit(c)
    ensures d < 10
  {
    c as int - '0' as int
  }

  function DigitChar(d: nat): (c: char)
    requires d < 10
    ensures IsDigit(c) && DigitValue(c) == d
  {
    ('0' as int + d) as char
  }

  /** The value of a string of decimal digits, most significant first. */
  function DigitsValue(s: string): nat
    requires AllDigits(s)
  {
    if s == [] then 0 else 10 * DigitsValue(s[..|s| - 1]) + DigitValue(s[|s| - 1])
  }

  /** The shortest decimal rendering of `n` (what `n.to_string()` writes). */
  function Decimal(n: nat): (s: string)
    ensures |s| > 0 && AllDigits(s)
  {
    if n < 10 then [DigitChar(n)] else Decimal(n / 10) + [DigitChar(n % 10)]
  }

  /** `s.parse::<uN>()` for an unsigned type whose largest value is `max`:
      one optional leading `+`, then at least one ASCII digit and nothing
      else, with a value that fits. A lone sign, a `-`, an empty string,
      whitespace or an overflow is an error. */
  function ParseUnsigned(s: string, max: nat): (r: Option<nat>)
    ensures r.Some? ==> r.value <= max
  {
    var digits := if |s| > 0 && s[0] == '+' then s[1..] else s;
    if digits == [] || !AllDigits(digits) then None
    else if DigitsValue(digits) > max then None
    else Some(DigitsValue(digits))
  }

  /** The text before the first `.` (`s.split('.').next()`, which always has a first piece). */
  function Stem(s: string): (r: string)
    ensures |r| <= |s| && r == s[..|r|]
    ensures forall i | 0 <= i < |r| :: r[i] != '.'
    ensures |r| < |s| ==> s[|r|] == '.'
  {
    if s == [] || s[0] == '.' then [] else [s[0]] + Stem(s[1..])
  }

  /** `parse_tile_path` over the path's components (`Path::components`): the
      last three name the row (with its extension), the column and the zoom. */
  function ParseTilePath(components: seq<string>): (r: Option<TileId>)
    ensures |components| < 3 ==> r.None?
  {
    if |components| < 3 then None
    else
      var n := |components|;
      var y := ParseUnsigned(Stem(components[n - 1]), U32_MAX);
      var x := ParseUnsigned(components[n - 2], U32_MAX);
      var z := ParseUnsigned(components[n - 3], U8_MAX);
      if y.None? || x.None? || z.None? then None
      else Some(TileId(z.value, x.value, y.value))
  }

  lemma {:induction false} DigitsValueAppend(s: string, c: char)
    requires AllDigits(s)
    requires IsDigit(c)
    ensures DigitsValue(s + [c]) == 10 * DigitsValue(s) + DigitValue(c)
  {
    assert (s + [c])[..|s|] == s;
  }

  /** Reading back the decimal rendering of a number gives the number. */
  lemma {:induction false} DecimalValue(n: nat)
    ensures DigitsValue(Decimal(n)) == n
  {
    if n >= 10 {
      DecimalValue(n / 10);
      DigitsValueAppend(Decimal(n / 10), DigitChar(n % 10));
    }
  }

  /** Parsing the decimal rendering of any value that fits gives that value back. */
  lemma ParseDecimal(n: nat, max: nat)
    requires n <= max
    ensures ParseUnsigned(Decimal(n), max) == Some(n)
  {
    DecimalValue(n);
  }

  /** A number that does not fit is rejected, however it is written. */
  lemma ParseOverflow(n: nat, max: nat)
    requires n > max
    ensures ParseUnsigned(Decimal(n), max).None?
    ensures ParseUnsigned("+" + Decimal(n), max).None?
  {
    DecimalValue(n);
    assert ("+" + Decimal(n))[1..] == Decimal(n);
  }

  /** A leading `+` is accepted, a leading `-` is not, and neither stands alone. */
  lemma ParseSigns(n: nat, max: nat)
    requires n <= max
    ensures ParseUnsigned("+" + Decimal(n), max) == Some(n)
    ensures ParseUnsigned("-" + Decimal(n), max).None?
    ensures ParseUnsigned("+", max).None? && ParseUnsigned("-", max).None? && ParseUnsigned("", max).None?
  {
    DecimalValue(n);
    assert ("+" + Decimal(n))[1..] == Decimal(n);
    var minus := "-" + Decimal(n);
    assert !AllDigits(minus) by {
      assert !IsDigit(minus[0]);
    }
    assert !AllDigits("-") by {
      assert !IsDigit("-"[0]);
    }
  }

  /** A successful parse saw only digits after an optional `+`, and their value. */
  lemma ParseSound(s: string, max: nat)
    requires ParseUnsigned(s, max).Some?
    ensures var digits := if |s| > 0 && s[0] == '+' then s[1..] else s;
      digits != [] && AllDigits(digits)
      && ParseUnsigned(s, max).value == DigitsValue(digits)
  {
  }

  /** The stem of a rendered number followed by an extension is the rendered number. */
  lemma {:induction false} StemOfExtension(digits: string, ext: string)
    requires AllDigits(digits)
    ensures Stem(digits + "." + ext) == digits
    decreases |digits|
  {
    if digits != [] {
      assert (digits + "." + ext)[1..] == digits[1..] + "." + ext;
      StemOfExtension(digits[1..], ext);
      assert [digits[0]] + digits[1..] == digits;
    } else {
      assert (digits + "." + ext)[0] == '.';
    }
  }

  /** `tiles/{z}/{x}/{y}.{ext}` written by a tile writer reads back as (z, x, y),
      whatever directories precede it. */
  lemma ParseTilePathRoundTrip(prefix: seq<string>, t: TileId, ext: string)
    ensures ParseTilePath(prefix + [Decimal(t.z), Decimal(t.x), Decimal(t.y) + "." + ext]) == Some(t)
  {
    ParseDecimal(t.z, U8_MAX);
    ParseDecimal(t.x, U32_MAX);
    ParseDecimal(t.y, U32_MAX);
    StemOfExtension(Decimal(t.y), ext);
  }

  /** A path whose last three components are `z`, `x` and `row` parses
      exactly when the zoom, the column and the row's stem all parse, and
      then to the tile of their values. */
  lemma ParseTilePathExact(prefix: seq<string>, z: string, x: string, row: string)
    ensures var r := ParseTilePath(prefix + [z, x, row]);
      var zp, xp, yp := ParseUnsigned(z, U8_MAX), ParseUnsigned(x, U32_MAX), ParseUnsigned(Stem(row), U32_MAX);
      && (r.Some? <==> zp.Some? && xp.Some? && yp.Some?)
      && (r.Some? ==> r.value == TileId(zp.value, xp.value, yp.value))
  {
    var cs := prefix + [z, x, row];
    assert cs[|cs| - 3] == z && cs[|cs| - 2] == x && cs[|cs| - 1] == row;
  }

  /** A zoom above 255 makes the whole path unparseable. */
  lemma ParseTilePathZoomOverflow(prefix: seq<string>, z: nat, x: u32, y: u32, ext: string)
    requires z > U8_MAX
    ensures ParseTilePath(prefix + [Decimal(z), Decimal(x), Decimal(y) + "." + ext]).None?
  {
    ParseOverflow(z, U8_MAX);
  }
}
