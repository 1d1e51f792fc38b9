/** The Junctions codec: an ordered list of junction fields, each the
    inner bytes of one junction, under the ABI's sequence framing. The
    framing itself is not modelled: a list of fields stands for it. */
module JunctionsCodec {
  import opened Bytes
  import opened Errors
  import opened XcmTypes
  import opened JunctionCodec

  /** Reads each field as a junction, in order; the first field that fails
      to decode decides the error. */
  function JunctionListFromFields(fields: seq<seq<uint8>>): (r: Result<seq<Junction>>)
    ensures r.Ok? <==> forall i :: 0 <= i < |fields| ==> JunctionFromBytes(fields[i]).Ok?
    ensures r.Ok? ==> |r.value| == |fields|
    ensures r.Ok? ==> forall i :: 0 <= i < |fields| ==> JunctionFromBytes(fields[i]) == Ok(r.value[i])
  {
    if fields == [] then Ok([])
    else
      var head :- JunctionFromBytes(fields[0]);
      var tail :- JunctionListFromFields(fields[1..]);
      Ok([head] + tail)
  }

  /** The error of a failed list read is that of its first field that
      fails to decode: fields are read in order and reading stops there. */
  lemma {:induction false} ListErrorIsFirstFailure(fields: seq<seq<uint8>>)
    requires JunctionListFromFields(fields).Err?
    ensures exists i :: (0 <= i < |fields| && JunctionFromBytes(fields[i]) == Err(JunctionListFromFields(fields).error)
      && forall k :: 0 <= k < i ==> JunctionFromBytes(fields[k]).Ok?)
  {
    if JunctionFromBytes(fields[0]).Ok? {
      ListErrorIsFirstFailure(fields[1..]);
      var i :| 0 <= i < |fields[1..]| && JunctionFromBytes(fields[1..][i]) == Err(JunctionListFromFields(fields[1..]).error)
        && forall k :: 0 <= k < i ==> JunctionFromBytes(fields[1..][k]).Ok?;
      assert JunctionFromBytes(fields[i + 1]) == Err(JunctionListFromFields(fields).error);
      assert forall k :: 0 <= k < i + 1 ==> JunctionFromBytes(fields[k]).Ok? by {
        forall k | 0 < k < i + 1 ensures JunctionFromBytes(fields[k]).Ok? {
          assert fields[k] == fields[1..][k - 1];
        }
      }
    }
  }

  /** Folds a list into an initially empty path, pushing in order; fails
      with an overflow on the first push beyond MAX_DEPTH. */
  method PushAll(items: seq<Junction>) returns (r: Result<Junctions>)
    ensures |items| <= MAX_DEPTH ==> r == Ok(items)
    ensures |items| > MAX_DEPTH ==> r == Err(LengthOverflow)
  {
    var junctions: Junctions := [];
    for i := 0 to |items|
      invariant junctions == items[..i]
    {
      var pushed := Push(junctions, items[i]);
      if pushed.None? {
        return Err(LengthOverflow);
      }
      junctions := pushed.value;
    }
    assert items[..|items|] == items;
    return Ok(junctions);
  }

  /** What reading a Junctions value yields: the decoded list, if every
      field decodes and the path is no deeper than MAX_DEPTH. */
  function JunctionsFromFields(fields: seq<seq<uint8>>): (r: Result<Junctions>)
    ensures r.Ok? <==> |fields| <= MAX_DEPTH && forall i :: 0 <= i < |fields| ==> JunctionFromBytes(fields[i]).Ok?
    ensures r.Ok? ==> |r.value| == |fields| && forall i :: 0 <= i < |fields| ==> JunctionFromBytes(fields[i]) == Ok(r.value[i])
    ensures (forall i :: 0 <= i < |fields| ==> JunctionFromBytes(fields[i]).Ok?) && |fields| > MAX_DEPTH ==>
      r == Err(LengthOverflow)
    ensures JunctionListFromFields(fields).Err? ==> r == Err(JunctionListFromFields(fields).error)
  {
    var items :- JunctionListFromFields(fields);
    if |items| <= MAX_DEPTH then Ok(items) else Err(LengthOverflow)
  }

  /** When some field fails to decode, the Junctions read reports the error
      of the first such field, whatever the depth. */
  lemma JunctionsErrorIsFirstFailure(fields: seq<seq<uint8>>)
    requires exists i :: 0 <= i < |fields| && JunctionFromBytes(fields[i]).Err?
    ensures exists i :: (0 <= i < |fields| && JunctionFromBytes(fields[i]) == Err(JunctionsFromFields(fields).error)
      && forall k :: 0 <= k < i ==> JunctionFromBytes(fields[k]).Ok?)
  {
    ListErrorIsFirstFailure(fields);
  }

  /** Reads a Junctions value: decodes the list, then pushes its elements
      one by one into an empty path. */
  method ReadJunctions(fields: seq<seq<uint8>>) returns (r: Result<Junctions>)
    ensures r == JunctionsFromFields(fields)
  {
    var items :- JunctionListFromFields(fields);
    r := PushAll(items);
  }

  /** Writes a Junctions value as the list of its junctions' inner bytes, in
      path order; fails if any junction is a Plurality. */
  function JunctionsToFields(path: seq<Junction>): (r: Result<seq<seq<uint8>>>)
    ensures r.Ok? <==> forall i :: 0 <= i < |path| ==> !path[i].Plurality?
    ensures r.Err? ==> r.error == UnsupportedVariant
    ensures r.Ok? ==> |r.value| == |path| && forall i :: 0 <= i < |path| ==> JunctionToBytes(path[i]) == Ok(r.value[i])
  {
    if path == [] then Ok([])
    else
      var head :- JunctionToBytes(path[0]);
      var tail :- JunctionsToFields(path[1..]);
      Ok([head] + tail)
  }

  /** Each written field reads back as the junction it was written from. */
  lemma FieldsDecodeToPath(path: seq<Junction>, fields: seq<seq<uint8>>)
    requires forall i :: 0 <= i < |path| ==> path[i].Encodable()
    requires JunctionsToFields(path) == Ok(fields)
    ensures forall i :: 0 <= i < |fields| ==> JunctionFromBytes(fields[i]) == Ok(path[i])
  {
    forall i | 0 <= i < |fields|
      ensures JunctionFromBytes(fields[i]) == Ok(path[i])
    {
      JunctionRoundTrip(path[i]);
    }
  }

  /** Fields that decode one by one to the junctions of a path are read
      as that path. */
  lemma FieldsReadAsPath(path: Junctions, fields: seq<seq<uint8>>)
    requires |fields| == |path|
    requires forall i :: 0 <= i < |fields| ==> JunctionFromBytes(fields[i]) == Ok(path[i])
    ensures JunctionsFromFields(fields) == Ok(path)
  {
    var r := JunctionsFromFields(fields);
    assert forall i :: 0 <= i < |path| ==> r.value[i] == path[i];
    assert r.value == path;
  }

  /** Reading back the fields written for a path of encodable junctions
      gives the same path, in the same order. */
  lemma JunctionsRoundTrip(path: Junctions)
    requires forall i :: 0 <= i < |path| ==> path[i].Encodable()
    ensures JunctionsToFields(path).Ok?
    ensures JunctionsFromFields(JunctionsToFields(path).value) == Ok(path)
  {
    var fields := JunctionsToFields(path).value;
    FieldsDecodeToPath(path, fields);
    FieldsReadAsPath(path, fields);
  }

  /** The depth bound is inclusive: MAX_DEPTH decodable fields are read,
      one more overflows. */
  lemma DepthBoundIsExact(fields: seq<seq<uint8>>)
    requires forall i :: 0 <= i < |fields| ==> JunctionFromBytes(fields[i]).Ok?
    ensures |fields| == MAX_DEPTH ==> JunctionsFromFields(fields).Ok?
    ensures |fields| == MAX_DEPTH + 1 ==> JunctionsFromFields(fields) == Err(LengthOverflow)
  {
  }
}
