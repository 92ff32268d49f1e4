/**
 * Protocol negotiation: a client offers protocol versions and a feature
 * set; the server picks the highest version both support and the features
 * both have.
 */
module Negotiation {
  import opened Base

  const CURRENT_VERSION: u8 := 1
  const MIN_SUPPORTED_VERSION: u8 := 1
  const MAX_SUPPORTED_VERSION: u8 := 1

  datatype Feature =
    | QuicTransport | TcpTransport | UdpTransport
    | ChaCha20Poly1305 | Aes256Gcm
    | ZstdCompression | Lz4Compression | BrotliCompression
    | ZeroRttResumption | ConnectionMigration | Multiplexing | ProofOfWork

  /** The features of `FeatureSet::with_defaults`. */
  const DEFAULT_FEATURES: set<Feature> := {UdpTransport, ChaCha20Poly1305, ZstdCompression, Multiplexing}

  /** Every feature: what `ProtocolNegotiator::new` supports. */
  const ALL_FEATURES: set<Feature> := DEFAULT_FEATURES + {
    TcpTransport, QuicTransport, Aes256Gcm, Lz4Compression, BrotliCompression,
    ZeroRttResumption, ConnectionMigration, ProofOfWork}

  lemma AllFeaturesComplete(f: Feature)
    ensures f in ALL_FEATURES
  {
    match f
    case _ =>
  }

  class FeatureSet {
    var features: set<Feature>

    /** `FeatureSet::new`: no features. */
    constructor ()
      ensures features == {} && IsEmpty()
    {
      features := {};
    }

    /** `FeatureSet::with_defaults`: UDP transport, ChaCha20-Poly1305, Zstd, multiplexing. */
    constructor WithDefaults()
      ensures features == DEFAULT_FEATURES && Len() == 4
      ensures Has(UdpTransport) && Has(ChaCha20Poly1305) && Has(ZstdCompression) && Has(Multiplexing)
    {
      features := DEFAULT_FEATURES;
    }

    method Add(feature: Feature)
      modifies this
      ensures features == old(features) + {feature}
      ensures Has(feature)
    {
      features := features + {feature};
    }

    method Remove(feature: Feature)
      modifies this
      ensures features == old(features) - {feature}
      ensures !Has(feature)
    {
      features := features - {feature};
    }

    predicate Has(feature: Feature)
      reads this
    {
      feature in features
    }

    /** The features both sets have, as a new set. */
    method Intersect(other: FeatureSet) returns (r: FeatureSet)
      ensures fresh(r)
      ensures r.features == features * other.features
      ensures r.features <= features && r.features <= other.features
      ensures forall f :: r.Has(f) <==> Has(f) && other.Has(f)
    {
      r := new FeatureSet();
      r.features := features * other.features;
    }

    function Len(): nat
      reads this
    {
      |features|
    }

    predicate IsEmpty()
      reads this
      ensures IsEmpty() <==> Len() == 0
    {
      features == {}
    }
  }

  /** The versions of `supported` that `client` offers, in `supported`'s order (`filter`). */
  function Common(supported: seq<u8>, client: seq<u8>): (c: seq<u8>)
    ensures forall v :: v in c <==> v in supported && v in client
  {
    if supported == [] then []
    else (if supported[0] in client then [supported[0]] else []) + Common(supported[1..], client)
  }

  /** The first element after sorting descending: the largest. */
  function Largest(vs: seq<u8>): (m: u8)
    requires vs != []
    ensures m in vs && forall v :: v in vs ==> v <= m
  {
    if |vs| == 1 then vs[0]
    else
      var rest := Largest(vs[1..]);
      assert forall v :: v in vs ==> v == vs[0] || v in vs[1..];
      if vs[0] >= rest then vs[0] else rest
  }

  /** `select_version`: the highest version both sides support, if any. */
  function SelectVersion(supported: seq<u8>, client: seq<u8>): (r: Option<u8>)
    ensures r.None? <==> forall v :: v in supported ==> v !in client
    ensures r.Some? ==> r.value in supported && r.value in client
    ensures r.Some? ==> forall v :: v in supported && v in client ==> v <= r.value
  {
    var common := Common(supported, client);
    if common == [] then None else Some(Largest(common))
  }

  datatype NegotiationResult = NegotiationResult(version: u8, features: FeatureSet)

  class ProtocolNegotiator {
    const supportedVersions: seq<u8>
    const supportedFeatures: FeatureSet

    /** `ProtocolNegotiator::new`: version 1, and every feature. */
    constructor ()
      ensures supportedVersions == [MIN_SUPPORTED_VERSION, CURRENT_VERSION]
      ensures fresh(supportedFeatures)
      ensures supportedFeatures.features == ALL_FEATURES
    {
      var fs := new FeatureSet.WithDefaults();
      fs.Add(TcpTransport);
      fs.Add(QuicTransport);
      fs.Add(Aes256Gcm);
      fs.Add(Lz4Compression);
      fs.Add(BrotliCompression);
      fs.Add(ZeroRttResumption);
      fs.Add(ConnectionMigration);
      fs.Add(ProofOfWork);
      supportedVersions := [MIN_SUPPORTED_VERSION, CURRENT_VERSION];
      supportedFeatures := fs;
    }

    /**
     * `negotiate`: nothing when no version is shared; otherwise the
     * selected version and the features both sides have.
     */
    method Negotiate(clientVersions: seq<u8>, clientFeatures: FeatureSet) returns (r: Option<NegotiationResult>)
      ensures r.None? <==> SelectVersion(supportedVersions, clientVersions).None?
      ensures r.Some? ==>
        r.value.version == SelectVersion(supportedVersions, clientVersions).value
        && fresh(r.value.features)
        && r.value.features.features == supportedFeatures.features * clientFeatures.features
    {
      var version := SelectVersion(supportedVersions, clientVersions);
      if version.None? {
        return None;
      }
      var features := supportedFeatures.Intersect(clientFeatures);
      r := Some(NegotiationResult(version.value, features));
    }

    predicate SupportsVersion(version: u8) {
      version in supportedVersions
    }

    predicate SupportsFeature(feature: Feature)
      reads supportedFeatures
    {
      supportedFeatures.Has(feature)
    }
  }

  /** With the versions `new` installs, exactly version 1 is supported. */
  lemma SupportsOnlyVersionOne(version: u8)
    ensures version in [MIN_SUPPORTED_VERSION, CURRENT_VERSION] <==> version == 1
  {
  }

  /** Clients offering [1], [99] and [1, 2] get versions 1, none and 1. */
  lemma VersionSelectionScenario()
    ensures SelectVersion([MIN_SUPPORTED_VERSION, CURRENT_VERSION], [1]) == Some(1)
    ensures SelectVersion([MIN_SUPPORTED_VERSION, CURRENT_VERSION], [99]) == None
    ensures SelectVersion([MIN_SUPPORTED_VERSION, CURRENT_VERSION], [1, 2]) == Some(1)
  {
  }

  /** A client with QUIC and ChaCha20-Poly1305 offering version 1 negotiates version 1 with both. */
  method NegotiationScenario() returns (version: u8, quic: bool, chacha: bool)
    ensures version == 1 && quic && chacha
  {
    var negotiator := new ProtocolNegotiator();
    var client := new FeatureSet();
    client.Add(QuicTransport);
    client.Add(ChaCha20Poly1305);
    var result := negotiator.Negotiate([1], client);
    version := result.value.version;
    quic := result.value.features.Has(QuicTransport);
    chacha := result.value.features.Has(ChaCha20Poly1305);
  }
}
