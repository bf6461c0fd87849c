/** The EXIF GPS directory as the scripts see it after `piexif.load`: a map
    from GPS tag number to value. `setGPSData` rewrites the four coordinate
    tags in it; the validators read two of them back. */
module GpsTags {
  import opened Arith
  import opened Results
  import opened Codec

  /** Tag numbers of the GPS directory (EXIF 2.3, section 4.6.6). */
  const LatitudeRef: nat := 1
  const Latitude: nat := 2
  const LongitudeRef: nat := 3
  const Longitude: nat := 4

  predicate IsCoordinateTag(t: nat)
  {
    t == LatitudeRef || t == Latitude || t == LongitudeRef || t == Longitude
  }

  /** A tag value: a tuple of rationals, or ASCII text such as a hemisphere
      reference. */
  datatype GpsValue = Rationals(items: seq<Rational>) | Ascii(text: string)

  type GpsBlock = map<nat, GpsValue>

  /** One row of the reference table; `None` is an empty `Rec Lat` or
      `Rec Lon` cell. */
  datatype RefEntry = RefEntry(lat: Option<Dec>, lon: Option<Dec>)

  /** Both reference cells are filled (`gpsData["lat"] != ''` and
      `gpsData["lon"] != ''`). */
  predicate HasCoordinates(e: RefEntry)
  {
    e.lat.Some? && e.lon.Some?
  }

  /** The triple as `piexif` stores it: three rationals. */
  function EncodeDms(dms: Dms): (v: GpsValue)
    ensures ReadDms(v) == Ok(dms)
  {
    Rationals([dms.deg, dms.min, dms.sec])
  }

  /** The entries `convertDMSToDD` indexes: `[0]`, `[1]` and `[2]` of a
      rational tuple; anything else makes it raise. */
  function ReadDms(v: GpsValue): (r: Result<Dms>)
    ensures r.Ok? <==> v.Rationals? && |v.items| >= 3
    ensures r.Err? ==> r.error == MalformedValue
    ensures r.Ok? ==> r.value.deg == v.items[0] && r.value.min == v.items[1] && r.value.sec == v.items[2]
  {
    match v
    case Rationals(items) =>
      if |items| >= 3 then Ok(Dms(items[0], items[1], items[2])) else Err(MalformedValue)
    case Ascii(_) =>
      Err(MalformedValue)
  }

  /** `exif_dict["GPS"][tag]`, failing with `KeyError` when absent. */
  function ReadTagDms(gps: GpsBlock, tag: nat): (r: Result<Dms>)
    ensures tag !in gps ==> r == Err(MissingTag(tag))
    ensures tag in gps ==> r == ReadDms(gps[tag])
  {
    if tag in gps then ReadDms(gps[tag]) else Err(MissingTag(tag))
  }

  /** `convertDMSToDD(exif_dict["GPS"][tag])`, unsigned. */
  function ReadAxis(gps: GpsBlock, tag: nat): (r: Result<real>)
    ensures r.Ok? <==> tag in gps && ReadDms(gps[tag]).Ok? && ReadDms(gps[tag]).value.sec.den != 0
  {
    var dms :- ReadTagDms(gps, tag);
    DmsToDecimal(dms)
  }

  /** The update `setGPSData` makes: with both reference values present it
      stores both magnitudes and fixes the hemisphere references to `N` and
      `W` whatever the signs; otherwise the directory is left as it was. */
  function SetGps(gps: GpsBlock, e: RefEntry): (r: GpsBlock)
    ensures !HasCoordinates(e) ==> r == gps
    ensures HasCoordinates(e) ==>
      && r.Keys == gps.Keys + {LatitudeRef, Latitude, LongitudeRef, Longitude}
      && r[LatitudeRef] == Ascii("N")
      && r[LongitudeRef] == Ascii("W")
      && ReadDms(r[Latitude]) == Ok(DegreesToDms(e.lat.value))
      && ReadDms(r[Longitude]) == Ok(DegreesToDms(e.lon.value))
    ensures forall t :: t in gps && !IsCoordinateTag(t) ==> t in r && r[t] == gps[t]
  {
    if HasCoordinates(e) then
      gps[Latitude := EncodeDms(DegreesToDms(e.lat.value))]
         [Longitude := EncodeDms(DegreesToDms(e.lon.value))]
         [LongitudeRef := Ascii("W")]
         [LatitudeRef := Ascii("N")]
    else
      gps
  }

  /** Reading back a freshly written directory gives the magnitudes of the
      reference coordinates. */
  lemma WriteThenRead(gps: GpsBlock, e: RefEntry)
    requires HasCoordinates(e)
    ensures ReadAxis(SetGps(gps, e), Latitude) == Ok(RealAbs(e.lat.value.Value()))
    ensures ReadAxis(SetGps(gps, e), Longitude) == Ok(RealAbs(e.lon.value.Value()))
  {
    RoundTrip(e.lat.value);
    RoundTrip(e.lon.value);
  }

  /** `setGPSData` of the single-folder script: the same update, handed on
      for writing only when `writeFlag == 1`. */
  function SetGpsGated(gps: GpsBlock, e: RefEntry, writeFlag: int): (r: Option<GpsBlock>)
    ensures r.Some? <==> writeFlag == 1
    ensures r.Some? ==> r.value == SetGps(gps, e)
  {
    var updated := SetGps(gps, e);
    if writeFlag == 1 then Some(updated) else None
  }
}
