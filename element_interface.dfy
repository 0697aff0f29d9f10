/**
 * The value types of the earlier "element" protocol revision: the same
 * version tag, a single `Signal` enum for requests and replies, and the
 * version-stamped `SignalPacket` envelope that wraps every exchange.
 */
module ElementInterface {
  import opened Wrappers

  /** The host's own interface version (a build-time package version; the
      text used here stands in for it and no lemma depends on it). */
  const INTERFACE_VERSION: string := "0.1.0"

  datatype InterfaceVersion = InterfaceVersion(tag: string)

  /** `InterfaceVersion::new`. */
  function NewVersion(): (v: InterfaceVersion)
    ensures MatchesOwn(v)
  {
    InterfaceVersion(INTERFACE_VERSION)
  }

  /** `InterfaceVersion::from`. */
  function FromStr(version: string): (v: InterfaceVersion)
    ensures IntoString(v) == version
    ensures MatchesOwn(v) <==> version == INTERFACE_VERSION
  {
    InterfaceVersion(version)
  }

  /** `matches_own`: exact equality with the host's own tag. */
  predicate MatchesOwn(v: InterfaceVersion)
  {
    v.tag == INTERFACE_VERSION
  }

  /** `Into<String> for InterfaceVersion`. */
  function IntoString(v: InterfaceVersion): string
  {
    v.tag
  }

  lemma MatchesOwnIffHostVersion(v: InterfaceVersion)
    ensures MatchesOwn(v) <==> v == NewVersion()
    ensures IntoString(v) == v.tag && FromStr(IntoString(v)) == v
  {
  }

  datatype ElementType = NoType | Test | HomeScreen

  datatype RawVectorPtr = RawVectorPtr(ptr: nat, len: nat)

  datatype ElementError =
    | UnsupportedInterfaceVersion(version: InterfaceVersion)
    | UnsupportedSignal
    | DecodeFailed(detail: string)
    | EncodeFailed(detail: string)

  /** The envelope of every exchange: a version stamp and either a pointer to
      the encoded signal or an error. */
  datatype SignalPacket = SignalPacket(version: InterfaceVersion, payload: Result<RawVectorPtr, ElementError>)

  /** `SignalPacket::new`: stamps the host's own version and keeps the payload. */
  function NewPacket(payload: Result<RawVectorPtr, ElementError>): (p: SignalPacket)
    ensures MatchesOwn(p.version)
    ensures p.payload == payload
  {
    SignalPacket(InterfaceVersion(INTERFACE_VERSION), payload)
  }

  datatype ElementMetadata = ElementMetadata(
    name: string,
    version: string,
    elementType: ElementType,
    description: string,
    publisher: Publisher)

  datatype DataType = DataString(s: string)

  /** Requests and replies share this one enum in this revision. */
  datatype Signal =
    | NoSignal
    | AskMetadata
    | Metadata(metadata: ElementMetadata)
    | Ping(message: string)
    | Pong(response: string)
    | AskHomeScreen
    | HomeScreen(mimeType: string, data: DataType)

  datatype Publisher = Publisher(name: string, signedBy: seq<Publisher>)

  /** `Publisher::new`. */
  function PublisherNew(name: string, signedBy: seq<Publisher>): (p: Publisher)
    ensures p.name == name && p.signedBy == signedBy
  {
    Publisher(name, signedBy)
  }

  /** `Into<Publisher>` for `String` and `&str`: no signers. */
  function PublisherFrom(name: string): (p: Publisher)
    ensures p.name == name && p.signedBy == []
  {
    Publisher(name, [])
  }
}
