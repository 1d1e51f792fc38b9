/** The inner byte layout of one Junction: a tag byte (0..7), the variant's
    fixed-width field in big-endian order, then, for the three account
    variants, the NetworkId bytes up to the end of the buffer. `GeneralKey`
    takes the whole rest of the buffer instead. */
module JunctionCodec {
  import opened Bytes
  import opened Errors
  import opened XcmTypes
  import opened NetworkIdCodec
  import Reader

  /** The tag byte of each variant; 8, the position of Plurality, is a tag
      no layout uses. */
  function JunctionTag(j: Junction): (t: uint8)
    ensures t < 8 <==> !j.Plurality?
    ensures j.HasNetwork() <==> 1 <= t <= 3
    ensures j.GeneralKey? <==> t == 6
  {
    match j
    case Parachain(_) => 0
    case AccountId32(_, _) => 1
    case AccountIndex64(_, _) => 2
    case AccountKey20(_, _) => 3
    case PalletInstance(_) => 4
    case GeneralIndex(_) => 5
    case GeneralKey(_) => 6
    case OnlyChild => 7
    case Plurality => 8
  }

  /** Width of the fixed field that follows each tag (0 for GeneralKey,
      whose key is the rest of the buffer, and for OnlyChild). */
  function FixedWidth(tag: uint8): nat
  {
    match tag
    case 0 => 4
    case 1 => 32
    case 2 => 8
    case 3 => 20
    case 4 => 1
    case 5 => 16
    case _ => 0
  }

  /** The fixed-width field that follows the tag, in network byte order. */
  function FixedField(j: Junction): (f: seq<uint8>)
    requires !j.Plurality?
    ensures |f| == FixedWidth(JunctionTag(j))
  {
    match j
    case Parachain(paraId) => Pow256Of4(); ToBeBytes(paraId, 4)
    case AccountId32(_, id) => id
    case AccountIndex64(_, index) => Pow256Of8(); ToBeBytes(index, 8)
    case AccountKey20(_, key) => key
    case PalletInstance(instance) => OneByte(instance); ToBeBytes(instance, 1)
    case GeneralIndex(generalIndex) => Pow256Of16(); ToBeBytes(generalIndex, 16)
    case GeneralKey(_) => []
    case OnlyChild => []
  }

  /** What follows the fixed field and runs to the end of the buffer: the
      NetworkId bytes of an account variant, or the key of a GeneralKey. */
  function TrailingField(j: Junction): seq<uint8>
  {
    if j.HasNetwork() then NetworkIdToBytes(j.network)
    else if j.GeneralKey? then j.generalKey
    else []
  }

  /** Writes the inner bytes of a junction; Plurality has no layout and is
      reported as unsupported rather than written. */
  function JunctionToBytes(j: Junction): (r: Result<seq<uint8>>)
    ensures r.Err? <==> j.Plurality?
    ensures r.Err? ==> r.error == UnsupportedVariant
    ensures r.Ok? ==> r.value == [JunctionTag(j)] + FixedField(j) + TrailingField(j)
  {
    match j
    case Parachain(paraId) => Pow256Of4(); Ok([0] + ToBeBytes(paraId, 4))
    case AccountId32(network, id) => Ok([1] + id + NetworkIdToBytes(network))
    case AccountIndex64(network, index) =>
      Pow256Of8();
      Ok([2] + ToBeBytes(index, 8) + NetworkIdToBytes(network))
    case AccountKey20(network, key) => Ok([3] + key + NetworkIdToBytes(network))
    case PalletInstance(instance) => OneByte(instance); Ok([4] + ToBeBytes(instance, 1))
    case GeneralIndex(generalIndex) => Pow256Of16(); Ok([5] + ToBeBytes(generalIndex, 16))
    case GeneralKey(key) => Ok([6] + key)
    case OnlyChild => Ok([7])
    case Plurality => Err(UnsupportedVariant)
  }

  /** The integer fields are laid out big-endian: reading the fixed field
      back as an unsigned integer gives the junction's number. */
  lemma FixedFieldIsBigEndian(j: Junction)
    requires j.Parachain? || j.AccountIndex64? || j.PalletInstance? || j.GeneralIndex?
    ensures j.Parachain? ==> FromBeBytes(FixedField(j)) == j.paraId
    ensures j.AccountIndex64? ==> FromBeBytes(FixedField(j)) == j.index
    ensures j.PalletInstance? ==> FixedField(j) == [j.instance]
    ensures j.GeneralIndex? ==> FromBeBytes(FixedField(j)) == j.generalIndex
  {
    match j
    case Parachain(paraId) => Pow256Of4(); FromToBeBytes(paraId, 4);
    case AccountIndex64(_, index) => Pow256Of8(); FromToBeBytes(index, 8);
    case PalletInstance(instance) => OneByte(instance);
    case GeneralIndex(generalIndex) => Pow256Of16(); FromToBeBytes(generalIndex, 16);
  }

  /** Reads the fields of an account variant (tags 1..3): its fixed-width
      account field, then a NetworkId made of every byte left. */
  function ReadAccount(tag: uint8, c: Reader.Cursor): (r: Result<Junction>)
    requires c.Valid() && 1 <= tag <= 3
    ensures |c.Rest()| < FixedWidth(tag) ==> r == Err(ShortRead)
    ensures |c.Rest()| >= FixedWidth(tag) ==>
      var network := NetworkIdFromBytes(c.Rest()[FixedWidth(tag)..]);
      && (network.Err? ==> r == Err(network.error))
      && (network.Ok? ==> r.Ok? && r.value.HasNetwork() && r.value.network == network.value)
    ensures r.Ok? ==> r.value.Encodable() && JunctionTag(r.value) == tag
  {
    var account :- Reader.ReadRawBytes(c, FixedWidth(tag));
    var network := Reader.ReadTillEnd(account.1).0;
    var n :- NetworkIdFromBytes(network);
    if tag == 1 then Ok(AccountId32(n, account.0))
    else if tag == 2 then Pow256Of8(); Ok(AccountIndex64(n, FromBeBytes(account.0)))
    else Ok(AccountKey20(n, account.0))
  }

  /** Reads the fields of a variant whose only field is a fixed-width
      integer (tags 0, 4 and 5); bytes after it are left unread. */
  function ReadInteger(tag: uint8, c: Reader.Cursor): (r: Result<Junction>)
    requires c.Valid() && tag in {0, 4, 5}
    ensures r.Ok? <==> |c.Rest()| >= FixedWidth(tag)
    ensures r.Err? ==> r.error == ShortRead
    ensures r.Ok? ==> r.value.Encodable() && JunctionTag(r.value) == tag
  {
    var data :- Reader.ReadRawBytes(c, FixedWidth(tag));
    if tag == 0 then Pow256Of4(); Ok(Parachain(FromBeBytes(data.0)))
    else if tag == 4 then Ok(PalletInstance(data.0[0]))
    else Pow256Of16(); Ok(GeneralIndex(FromBeBytes(data.0)))
  }

  /** Reads the fields that follow tag `tag`, starting at cursor `c`. */
  function ReadVariant(tag: uint8, c: Reader.Cursor): (r: Result<Junction>)
    requires c.Valid()
    ensures tag >= 8 ==> r == Err(UnknownVariantTag)
    ensures tag < 8 && |c.Rest()| < FixedWidth(tag) ==> r == Err(ShortRead)
    ensures tag == 6 && |c.Rest()| > MAX_KEY_LEN ==> r == Err(LengthOverflow)
    ensures (1 <= tag <= 3 && |c.Rest()| >= FixedWidth(tag)
             && NetworkIdFromBytes(c.Rest()[FixedWidth(tag)..]).Err?) ==>
        r == Err(NetworkIdFromBytes(c.Rest()[FixedWidth(tag)..]).error)
    ensures r.Ok? <==>
      && tag < 8
      && |c.Rest()| >= FixedWidth(tag)
      && (1 <= tag <= 3 ==> NetworkIdFromBytes(c.Rest()[FixedWidth(tag)..]).Ok?)
      && (tag == 6 ==> |c.Rest()| <= MAX_KEY_LEN)
    ensures r.Ok? ==> r.value.Encodable() && JunctionTag(r.value) == tag
  {
    match tag
    case 0 => ReadInteger(0, c)
    case 1 => ReadAccount(1, c)
    case 2 => ReadAccount(2, c)
    case 3 => ReadAccount(3, c)
    case 4 => ReadInteger(4, c)
    case 5 => ReadInteger(5, c)
    case 6 =>
      var key := Reader.ReadTillEnd(c).0;
      if |key| <= MAX_KEY_LEN then Ok(GeneralKey(key)) else Err(LengthOverflow)
    case 7 => Ok(OnlyChild)
    case _ => Err(UnknownVariantTag)
  }

  /** Reads the inner bytes of a junction: the selector byte, then the
      fields of the variant it selects. */
  function JunctionFromBytes(bytes: seq<uint8>): (r: Result<Junction>)
    ensures bytes == [] ==> r == Err(EmptyInput)
    ensures bytes != [] && bytes[0] >= 8 ==> r == Err(UnknownVariantTag)
    ensures bytes != [] && bytes[0] < 8 && |bytes| < 1 + FixedWidth(bytes[0]) ==> r == Err(ShortRead)
    ensures bytes != [] && 1 <= bytes[0] <= 3 && |bytes| == 1 + FixedWidth(bytes[0]) ==> r == Err(EmptyInput)
    ensures bytes != [] && bytes[0] == 6 && |bytes| - 1 > MAX_KEY_LEN ==> r == Err(LengthOverflow)
    ensures (bytes != [] && 1 <= bytes[0] <= 3 && |bytes| >= 1 + FixedWidth(bytes[0])
             && NetworkIdFromBytes(bytes[1 + FixedWidth(bytes[0])..]).Err?) ==>
        r == Err(NetworkIdFromBytes(bytes[1 + FixedWidth(bytes[0])..]).error)
    ensures r.Ok? <==>
      && bytes != [] && bytes[0] < 8
      && |bytes| >= 1 + FixedWidth(bytes[0])
      && (1 <= bytes[0] <= 3 ==> NetworkIdFromBytes(bytes[1 + FixedWidth(bytes[0])..]).Ok?)
      && (bytes[0] == 6 ==> |bytes| - 1 <= MAX_KEY_LEN)
    ensures r.Ok? ==> r.value.Encodable() && JunctionTag(r.value) == bytes[0]
  {
    if |bytes| == 0 then Err(EmptyInput)
    else
      // a non-empty buffer always holds the one-byte selector
      var selector := Reader.ReadRawBytes(Reader.Start(bytes), 1).value;
      assert selector.1.Rest() == bytes[1..];
      ReadVariant(selector.0[0], selector.1)
  }


  /** After the selector byte the reader continues at offset 1. */
  lemma ReadsAfterTag(bytes: seq<uint8>)
    requires bytes != []
    ensures Reader.Cursor(bytes, 1).Valid() && Reader.Cursor(bytes, 1).Rest() == bytes[1..]
    ensures JunctionFromBytes(bytes) == ReadVariant(bytes[0], Reader.Cursor(bytes, 1))
  {
  }

  /** An integer variant is read back from its fixed field. */
  lemma ReadIntegerOf(j: Junction, c: Reader.Cursor)
    requires j.Parachain? || j.PalletInstance? || j.GeneralIndex?
    requires c.Valid() && |c.Rest()| >= |FixedField(j)| && c.Rest()[..|FixedField(j)|] == FixedField(j)
    ensures ReadInteger(JunctionTag(j), c) == Ok(j)
  {
    FixedFieldIsBigEndian(j);
  }

  /** The integer variant read from a cursor has the consumed bytes as its
      fixed field. */
  lemma ReadIntegerField(tag: uint8, c: Reader.Cursor)
    requires c.Valid() && tag in {0, 4, 5} && |c.Rest()| >= FixedWidth(tag)
    ensures FixedField(ReadInteger(tag, c).value) == c.Rest()[..FixedWidth(tag)]
  {
    var field := c.Rest()[..FixedWidth(tag)];
    assert Reader.ReadRawBytes(c, FixedWidth(tag)).value.0 == field;
    if tag != 4 {
      ToFromBeBytes(field);
    }
  }

  /** An account variant is read back from its fixed field followed by its
      network's bytes. */
  lemma ReadAccountOf(j: Junction, c: Reader.Cursor)
    requires j.HasNetwork() && j.network.Bounded()
    requires c.Valid() && c.Rest() == FixedField(j) + NetworkIdToBytes(j.network)
    ensures ReadAccount(JunctionTag(j), c) == Ok(j)
  {
    assert c.Rest()[..|FixedField(j)|] == FixedField(j);
    assert Reader.ReadRawBytes(c, |FixedField(j)|).value.1.Rest() == NetworkIdToBytes(j.network);
    NetworkIdRoundTrip(j.network);
    if j.AccountIndex64? {
      FixedFieldIsBigEndian(j);
    }
  }

  /** The account variant read from a cursor has the bytes consumed before
      the network as its fixed field. */
  lemma ReadAccountField(tag: uint8, c: Reader.Cursor)
    requires c.Valid() && 1 <= tag <= 3 && ReadAccount(tag, c).Ok?
    ensures FixedField(ReadAccount(tag, c).value) == c.Rest()[..FixedWidth(tag)]
  {
    var field := c.Rest()[..FixedWidth(tag)];
    assert Reader.ReadRawBytes(c, FixedWidth(tag)).value.0 == field;
    if tag == 2 {
      ToFromBeBytes(field);
    }
  }

  /** A variant without a trailing field (tags 0, 4, 5, 7) is read from its
      tag and fixed field alone, whatever bytes follow them. */
  lemma ReadsFixedPrefixOnly(j: Junction, extra: seq<uint8>)
    requires j.Parachain? || j.PalletInstance? || j.GeneralIndex? || j.OnlyChild?
    ensures JunctionFromBytes([JunctionTag(j)] + FixedField(j) + extra) == Ok(j)
  {
    var bytes := [JunctionTag(j)] + FixedField(j) + extra;
    ReadsAfterTag(bytes);
    if !j.OnlyChild? {
      var c := Reader.Cursor(bytes, 1);
      assert c.Rest() == FixedField(j) + extra;
      ReadIntegerOf(j, c);
    }
  }

  /** An account variant is read as its fixed field followed by the
      NetworkId made of every byte after it. */
  lemma ReadsAccount(j: Junction)
    requires j.HasNetwork() && j.network.Bounded()
    ensures JunctionFromBytes([JunctionTag(j)] + FixedField(j) + NetworkIdToBytes(j.network)) == Ok(j)
  {
    var bytes := [JunctionTag(j)] + FixedField(j) + NetworkIdToBytes(j.network);
    ReadsAfterTag(bytes);
    ReadAccountOf(j, Reader.Cursor(bytes, 1));
  }

  /** Reading back the bytes written for any encodable junction gives the
      same junction. */
  lemma JunctionRoundTrip(j: Junction)
    requires j.Encodable()
    ensures JunctionFromBytes(JunctionToBytes(j).value) == Ok(j)
  {
    var bytes := JunctionToBytes(j).value;
    if j.HasNetwork() {
      ReadsAccount(j);
    } else if j.GeneralKey? {
      ReadsAfterTag(bytes);
    } else {
      ReadsFixedPrefixOnly(j, []);
      assert bytes == [JunctionTag(j)] + FixedField(j) + [];
    }
  }

  /** Tags 0, 4, 5 and 7 read only their fixed field: bytes appended after
      an encoding are ignored. */
  lemma JunctionIgnoresTrailing(j: Junction, extra: seq<uint8>)
    requires j.Encodable() && !j.HasNetwork() && !j.GeneralKey?
    ensures JunctionFromBytes(JunctionToBytes(j).value + extra) == Ok(j)
  {
    ReadsFixedPrefixOnly(j, extra);
  }

  /** The fixed field of a decoded junction is the input's bytes after the tag. */
  lemma DecodedFixedField(bytes: seq<uint8>)
    requires JunctionFromBytes(bytes).Ok?
    ensures var j := JunctionFromBytes(bytes).value;
      && JunctionTag(j) == bytes[0]
      && FixedField(j) == bytes[1..1 + FixedWidth(bytes[0])]
  {
    var tag := bytes[0];
    ReadsAfterTag(bytes);
    var c := Reader.Cursor(bytes, 1);
    if 1 <= tag <= 3 {
      ReadAccountField(tag, c);
    } else if tag in {0, 4, 5} {
      ReadIntegerField(tag, c);
    }
  }

  /** Decoding reads a canonical encoding: whatever decodes is encodable,
      and its encoding is a prefix of the input; the whole input when the
      last field runs to the end of the buffer (a key, or a Named network). */
  lemma JunctionDecodeCanonical(bytes: seq<uint8>)
    requires JunctionFromBytes(bytes).Ok?
    ensures var j := JunctionFromBytes(bytes).value;
      && JunctionToBytes(j).Ok?
      && JunctionToBytes(j).value <= bytes
      && (j.GeneralKey? || (j.HasNetwork() && j.network.Named?) ==> JunctionToBytes(j).value == bytes)
  {
    var j := JunctionFromBytes(bytes).value;
    var w := FixedWidth(bytes[0]);
    DecodedFixedField(bytes);
    var head := [JunctionTag(j)] + FixedField(j);
    assert bytes == head + bytes[1 + w..];
    ReadsAfterTag(bytes);
    if j.HasNetwork() {
      NetworkIdDecodeCanonical(bytes[1 + w..]);
    }
  }

  /** The account of a Polkadot AccountId32 made of 32 zero bytes is written
      as the tag 1, the 32 zero bytes and the Polkadot tag 2, and read back. */
  lemma ZeroPolkadotAccountExample()
    ensures JunctionToBytes(AccountId32(Polkadot, seq(32, _ => 0))) == Ok([1] + seq(32, _ => 0) + [2])
    ensures JunctionFromBytes([1] + seq(32, _ => 0) + [2]) == Ok(AccountId32(Polkadot, seq(32, _ => 0)))
  {
    JunctionRoundTrip(AccountId32(Polkadot, seq(32, _ => 0)));
  }

  /** An account junction whose trailing NetworkId has an unknown tag fails
      with the NetworkId's own error, not with a junction-level one. */
  lemma UnknownNetworkInAccountExample()
    ensures JunctionFromBytes([1] + seq(32, _ => 0) + [9]) == Err(UnknownVariantTag)
  {
  }

  /** Plurality is never written: no bytes are produced for it. This is the
      writer's own contract, restated for the variant as a named property. */
  lemma PluralityNeverEncoded(j: Junction)
    requires j.Plurality?
    ensures JunctionToBytes(j) == Err(UnsupportedVariant)
  {
  }
}
