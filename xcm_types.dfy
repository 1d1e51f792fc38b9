/** The XCM location values the codec translates: network identifiers,
    junctions, bounded junction paths and multi-locations. */
module XcmTypes {
  import opened Bytes
  import opened Errors

  /** Capacity of the `WeakBoundedVec` holding a `Named` network name. */
  const MAX_NAME_LEN: nat := 32
  /** Capacity of the `WeakBoundedVec` holding a `GeneralKey`. */
  const MAX_KEY_LEN: nat := 32
  /** Maximum number of junctions in a path (`X1` .. `X8`). */
  const MAX_DEPTH: nat := 8

  type Bytes20 = s: seq<uint8> | |s| == 20 witness seq(20, _ => 0)
  type Bytes32 = s: seq<uint8> | |s| == 32 witness seq(32, _ => 0)

  datatype NetworkId = Any | Named(name: seq<uint8>) | Polkadot | Kusama {
    /** The name respects its bounded-vector capacity. */
    predicate Bounded() {
      Named? ==> |name| <= MAX_NAME_LEN
    }
  }

  /** The junction kinds of the location model. The fields of `Plurality`
      (a body id and a body part) are not modelled: no codec operation
      looks inside it. */
  datatype Junction =
    | Parachain(paraId: uint32)
    | AccountId32(network: NetworkId, id: Bytes32)
    | AccountIndex64(network: NetworkId, index: uint64)
    | AccountKey20(network: NetworkId, key: Bytes20)
    | PalletInstance(instance: uint8)
    | GeneralIndex(generalIndex: uint128)
    | GeneralKey(generalKey: seq<uint8>)
    | OnlyChild
    | Plurality
  {
    /** Has a NetworkId as its last field. */
    predicate HasNetwork() {
      AccountId32? || AccountIndex64? || AccountKey20?
    }

    /** Every bounded vector inside respects its capacity. */
    predicate Bounded() {
      && (HasNetwork() ==> network.Bounded())
      && (GeneralKey? ==> |generalKey| <= MAX_KEY_LEN)
    }

    /** The values the junction codec can write and read back. */
    predicate Encodable() {
      Bounded() && !Plurality?
    }
  }

  /** An interior path: at most MAX_DEPTH junctions, outermost first. */
  type Junctions = s: seq<Junction> | |s| <= MAX_DEPTH

  /** Appends a junction at the end of a path; fails, leaving no path,
      once the path already holds MAX_DEPTH junctions. */
  function Push(path: Junctions, j: Junction): (r: Option<Junctions>)
    ensures r.Some? <==> |path| < MAX_DEPTH
    ensures r.Some? ==> |r.value| == |path| + 1 && r.value[..|path|] == path && r.value[|path|] == j
  {
    if |path| < MAX_DEPTH then Some(path + [j]) else None
  }

  datatype MultiLocation = MultiLocation(parents: uint8, interior: Junctions)
}
