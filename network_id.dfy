/** The NetworkId byte codec: one tag byte, then, for `Named` only, the raw
    name bytes up to the end of the buffer (no length prefix). */
module NetworkIdCodec {
  import opened Bytes
  import opened Errors
  import opened XcmTypes
  import Reader

  /** The tag byte that selects each variant. */
  function Tag(n: NetworkId): (t: uint8)
    ensures t <= 3
  {
    match n
    case Any => 0
    case Named(_) => 1
    case Polkadot => 2
    case Kusama => 3
  }

  function NetworkIdToBytes(n: NetworkId): (r: seq<uint8>)
    ensures |r| >= 1 && r[0] == Tag(n)
    ensures !n.Named? ==> |r| == 1
    ensures n.Named? ==> r[1..] == n.name
  {
    match n
    case Any => [0]
    case Named(name) => [1] + name
    case Polkadot => [2]
    case Kusama => [3]
  }

  function NetworkIdFromBytes(encoded: seq<uint8>): (r: Result<NetworkId>)
    ensures encoded == [] ==> r == Err(EmptyInput)
    ensures encoded != [] && encoded[0] > 3 ==> r == Err(UnknownVariantTag)
    ensures encoded != [] && encoded[0] == 1 && |encoded| - 1 > MAX_NAME_LEN ==> r == Err(LengthOverflow)
    ensures r.Ok? <==> encoded != [] && encoded[0] <= 3 && (encoded[0] == 1 ==> |encoded| - 1 <= MAX_NAME_LEN)
    ensures r.Ok? ==> r.value.Bounded() && Tag(r.value) == encoded[0]
  {
    if |encoded| == 0 then Err(EmptyInput)
    else
      // a non-empty buffer always holds the one-byte selector
      var selector := Reader.ReadRawBytes(Reader.Start(encoded), 1).value;
      match selector.0[0]
      case 0 => Ok(Any)
      case 1 =>
        var name := Reader.ReadTillEnd(selector.1).0;
        assert name == encoded[1..];
        if |name| <= MAX_NAME_LEN then Ok(Named(name)) else Err(LengthOverflow)
      case 2 => Ok(Polkadot)
      case 3 => Ok(Kusama)
      case _ => Err(UnknownVariantTag)
  }

  /** Decoding what was encoded gives back the same network, for every
      network whose name respects its capacity. */
  lemma NetworkIdRoundTrip(n: NetworkId)
    requires n.Bounded()
    ensures NetworkIdFromBytes(NetworkIdToBytes(n)) == Ok(n)
  {
  }

  /** Decoding reads back a canonical encoding: the encoding of the decoded
      value is a prefix of the input, and all of it when the tag is `Named`. */
  lemma NetworkIdDecodeCanonical(encoded: seq<uint8>)
    requires NetworkIdFromBytes(encoded).Ok?
    ensures var bytes := NetworkIdToBytes(NetworkIdFromBytes(encoded).value);
      && bytes <= encoded
      && (encoded[0] == 1 ==> bytes == encoded)
  {
  }

  /** Only `Named` reads past the tag: after `Any`, `Polkadot` or `Kusama`
      any further bytes are ignored. */
  lemma NetworkIdIgnoresTrailing(n: NetworkId, extra: seq<uint8>)
    requires !n.Named?
    ensures NetworkIdFromBytes(NetworkIdToBytes(n) + extra) == Ok(n)
  {
  }

  /** The name bound is inclusive: a name of exactly MAX_NAME_LEN bytes
      decodes, one byte more overflows. */
  lemma NameBoundIsExact(name: seq<uint8>, b: uint8)
    requires |name| == MAX_NAME_LEN
    ensures NetworkIdFromBytes([1] + name) == Ok(Named(name))
    ensures NetworkIdFromBytes([1] + name + [b]) == Err(LengthOverflow)
  {
  }
}
