/** `validateGPSData`: the route script's and the single-folder script's
    three-way classification, and the quantized comparison of the validation
    script. */
module Validation {
  import opened Arith
  import opened Results
  import opened Codec
  import opened GpsTags

  /** The outcome of validating one image. */
  datatype Outcome = Match | Mismatch | Missing {

    /** The integer the scripts return: 1, -1 or 0. */
    function Code(): (c: int)
      ensures -1 <= c <= 1
      ensures Match? <==> c == 1
      ensures Mismatch? <==> c == -1
      ensures Missing? <==> c == 0
    {
      match this
      case Match => 1
      case Mismatch => -1
      case Missing => 0
    }
  }

  /** Returns `Missing` without reading the image when a reference cell is
      empty; otherwise decodes both axes, negates the longitude (it is
      stored unsigned and read as West) and compares exactly. */
  function ValidateGps(e: RefEntry, gps: GpsBlock): (r: Result<Outcome>)
    ensures !HasCoordinates(e) ==> r == Ok(Missing)
    ensures r == Ok(Missing) ==> !HasCoordinates(e)
    ensures r == Ok(Match) <==>
      && HasCoordinates(e)
      && ReadAxis(gps, Latitude) == Ok(e.lat.value.Value())
      && ReadAxis(gps, Longitude) == Ok(-e.lon.value.Value())
    ensures r.Ok? <==>
      !HasCoordinates(e) || (ReadAxis(gps, Latitude).Ok? && ReadAxis(gps, Longitude).Ok?)
  {
    if HasCoordinates(e) then
      var lat :- ReadAxis(gps, Latitude);
      var lon :- ReadAxis(gps, Longitude);
      var decodedLon := lon * -1.0;
      if lat == e.lat.value.Value() && decodedLon == e.lon.value.Value() then
        Ok(Match)
      else
        Ok(Mismatch)
    else
      Ok(Missing)
  }

  /** What the route loop records for an entry: it writes the reference into
      the image and validates it straight away. Since only magnitudes are
      stored and the longitude is read back negated, a match means nothing
      was lost: the latitude is its magnitude and the longitude minus its
      magnitude. */
  function ExpectedOutcome(e: RefEntry): (o: Outcome)
    ensures o == Missing <==> !HasCoordinates(e)
    ensures HasCoordinates(e) ==>
      (o == Match <==> RealAbs(e.lat.value.Value()) == e.lat.value.Value()
                       && -RealAbs(e.lon.value.Value()) == e.lon.value.Value())
  {
    if !HasCoordinates(e) then Missing
    else if e.lat.value.Value() >= 0.0 && e.lon.value.Value() <= 0.0 then Match
    else Mismatch
  }

  /** Writing then validating the same reference matches exactly when the
      latitude is north (non-negative) and the longitude west
      (non-positive); with an empty cell it is `Missing`. */
  lemma WriteThenValidate(gps: GpsBlock, e: RefEntry)
    ensures ValidateGps(e, SetGps(gps, e)) == Ok(ExpectedOutcome(e))
  {
    if HasCoordinates(e) {
      WriteThenRead(gps, e);
    }
  }

  /** The two comparisons the validation script prints. */
  datatype Comparison = Comparison(latEqual: bool, lonEqual: bool)

  /** The validation script's `validateGPSData`: decodes and quantizes both
      axes, then compares them with the quantized reference values. It
      checks for no empty cell, so `Decimal('')` raises. */
  function ValidateQuantized(e: RefEntry, gps: GpsBlock): (r: Result<Comparison>)
    ensures r.Ok? <==>
      HasCoordinates(e) && ReadAxis(gps, Latitude).Ok? && ReadAxis(gps, Longitude).Ok?
    ensures r.Ok? && r.value.latEqual ==>
      && ReadAxis(gps, Latitude).Ok?
      && RealAbs(ReadAxis(gps, Latitude).value - e.lat.value.Value()) * Scale10 <= 1.0
    ensures r.Ok? && r.value.lonEqual ==>
      && ReadAxis(gps, Longitude).Ok?
      && RealAbs(-ReadAxis(gps, Longitude).value - e.lon.value.Value()) * Scale10 <= 1.0
  {
    var lat :- ReadAxisQuantized(gps, Latitude);
    var lon :- ReadAxisQuantized(gps, Longitude);
    var decodedLon := lon * -1.0;
    if HasCoordinates(e) then
      var refLat := Quantize10(e.lat.value.Value());
      var refLon := Quantize10(e.lon.value.Value());
      QuantizedComparisonClose(ReadAxis(gps, Latitude).value, e.lat.value.Value());
      QuantizedComparisonClose(ReadAxis(gps, Longitude).value, e.lon.value.Value());
      Ok(Comparison(lat == refLat, decodedLon == refLon))
    else
      Err(InvalidDecimal)
  }

  /** One axis as the validation script reads it: the tag, then the
      quantized decode, failing as `ReadAxis` does. */
  function ReadAxisQuantized(gps: GpsBlock, tag: nat): (r: Result<real>)
    ensures r.Ok? <==> ReadAxis(gps, tag).Ok?
    ensures r.Ok? ==> r.value == Quantize10(ReadAxis(gps, tag).value)
  {
    var dms :- ReadTagDms(gps, tag);
    DmsToDecimalQuantized(dms)
  }

  /** A quantized comparison that succeeds bounds the exact difference by
      one unit of the tenth fractional digit, with or without the negation
      applied to a decoded longitude. */
  lemma QuantizedComparisonClose(decoded: real, reference: real)
    ensures Quantize10(decoded) == Quantize10(reference) ==>
      RealAbs(decoded - reference) * Scale10 <= 1.0
    ensures -Quantize10(decoded) == Quantize10(reference) ==>
      RealAbs(-decoded - reference) * Scale10 <= 1.0
  {
    if Quantize10(decoded) == Quantize10(reference) {
      QuantizeEqualClose(decoded, reference);
    }
    if -Quantize10(decoded) == Quantize10(reference) {
      QuantizeOdd(decoded);
      QuantizeEqualClose(-decoded, reference);
    }
  }

  /** On a directory the scripts wrote, and reference values with at most ten
      fractional digits, the printed comparisons hold exactly when the
      latitude is non-negative and the longitude non-positive. */
  lemma QuantizedAfterWrite(gps: GpsBlock, e: RefEntry)
    requires HasCoordinates(e)
    requires e.lat.value.scale <= QuantizeDigits && e.lon.value.scale <= QuantizeDigits
    ensures ValidateQuantized(e, SetGps(gps, e))
            == Ok(Comparison(e.lat.value.Value() >= 0.0, e.lon.value.Value() <= 0.0))
  {
    var lat, lon := e.lat.value.Value(), e.lon.value.Value();
    var written := SetGps(gps, e);
    assert ReadAxisQuantized(written, Latitude) == Ok(RealAbs(lat))
        && ReadAxisQuantized(written, Longitude) == Ok(RealAbs(lon)) by {
      WriteThenRead(gps, e);
      QuantizeFewDigits(e.lat.value);
      QuantizeFewDigits(e.lon.value);
    }
    assert Quantize10(lat) == lat && Quantize10(lon) == lon by {
      QuantizeFewDigits(e.lat.value);
      QuantizeFewDigits(e.lon.value);
    }
    QuantizedOnDecoded(e, written, RealAbs(lat), RealAbs(lon));
  }

  lemma QuantizedOnDecoded(e: RefEntry, gps: GpsBlock, lat: real, lon: real)
    requires HasCoordinates(e)
    requires ReadAxisQuantized(gps, Latitude) == Ok(lat) && ReadAxisQuantized(gps, Longitude) == Ok(lon)
    ensures ValidateQuantized(e, gps) == Ok(Comparison(lat == Quantize10(e.lat.value.Value()),
                                                       lon * -1.0 == Quantize10(e.lon.value.Value())))
  {
  }
}
