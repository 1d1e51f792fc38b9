/** The byte cursor of the ABI reader, as far as the codec uses it: an input
    buffer and an offset that only moves forward. */
module Reader {
  import opened Bytes
  import opened Errors

  datatype Cursor = Cursor(input: seq<uint8>, pos: nat) {
    predicate Valid() {
      pos <= |input|
    }

    /** The bytes not yet consumed. */
    function Rest(): seq<uint8>
      requires Valid()
    {
      input[pos..]
    }
  }

  /** A cursor at the start of `input`. */
  function Start(input: seq<uint8>): (c: Cursor)
    ensures c.Valid() && c.Rest() == input
  {
    Cursor(input, 0)
  }

  /** Consumes exactly n bytes; fails when fewer than n remain. */
  function ReadRawBytes(c: Cursor, n: nat): (r: Result<(seq<uint8>, Cursor)>)
    requires c.Valid()
    ensures r.Ok? <==> n <= |c.Rest()|
    ensures r.Err? ==> r.error == ShortRead
    ensures r.Ok? ==> r.value.1.Valid() && |r.value.0| == n
    ensures r.Ok? ==> r.value.0 + r.value.1.Rest() == c.Rest()
  {
    if c.pos + n <= |c.input| then
      var next := Cursor(c.input, c.pos + n);
      assert c.input[c.pos..c.pos + n] + next.Rest() == c.Rest();
      Ok((c.input[c.pos..c.pos + n], next))
    else
      Err(ShortRead)
  }

  /** Consumes everything that is left. */
  function ReadTillEnd(c: Cursor): (r: (seq<uint8>, Cursor))
    requires c.Valid()
    ensures r.0 == c.Rest()
    ensures r.1.Valid() && r.1.Rest() == []
  {
    (c.input[c.pos..], Cursor(c.input, |c.input|))
  }
}
