/** The MultiLocation codec: the pair (parents, interior) under the ABI's
    tuple framing, which is not modelled; LocationTuple stands for it. */
module MultiLocationCodec {
  import opened Bytes
  import opened Errors
  import opened XcmTypes
  import opened JunctionCodec
  import opened JunctionsCodec

  /** The framed pair: the parents count and the interior's junction fields. */
  datatype LocationTuple = LocationTuple(parents: uint8, interior: seq<seq<uint8>>)

  function MultiLocationToTuple(m: MultiLocation): (r: Result<LocationTuple>)
    ensures r.Ok? <==> forall i :: 0 <= i < |m.interior| ==> !m.interior[i].Plurality?
    ensures r.Ok? ==> r.value.parents == m.parents && |r.value.interior| == |m.interior|
    ensures r.Ok? ==> forall i :: 0 <= i < |m.interior| ==> JunctionToBytes(m.interior[i]) == Ok(r.value.interior[i])
    ensures r.Err? ==> r.error == UnsupportedVariant
  {
    var interior :- JunctionsToFields(m.interior);
    Ok(LocationTuple(m.parents, interior))
  }

  function MultiLocationFromTuple(t: LocationTuple): (r: Result<MultiLocation>)
    ensures r.Ok? <==> JunctionsFromFields(t.interior).Ok?
    ensures r.Ok? ==> r.value.parents == t.parents && |r.value.interior| == |t.interior|
    ensures r.Ok? ==> forall i :: 0 <= i < |t.interior| ==> JunctionFromBytes(t.interior[i]) == Ok(r.value.interior[i])
    ensures r.Err? ==> r == Err(JunctionsFromFields(t.interior).error)
  {
    var interior :- JunctionsFromFields(t.interior);
    Ok(MultiLocation(t.parents, interior))
  }

  /** Reading back the pair written for a location whose junctions are all
      encodable gives the same location. */
  lemma MultiLocationRoundTrip(m: MultiLocation)
    requires forall i :: 0 <= i < |m.interior| ==> m.interior[i].Encodable()
    ensures MultiLocationToTuple(m).Ok?
    ensures MultiLocationFromTuple(MultiLocationToTuple(m).value) == Ok(m)
  {
    JunctionsRoundTrip(m.interior);
  }

  /** The location 255 parents up with an empty interior round-trips. */
  lemma ParentsOnlyExample()
    ensures MultiLocationToTuple(MultiLocation(255, [])) == Ok(LocationTuple(255, []))
    ensures MultiLocationFromTuple(LocationTuple(255, [])) == Ok(MultiLocation(255, []))
  {
  }
}
