/**
 * The value types of the current wrap protocol: the interface-version tag,
 * the wrap metadata and type, the guest-reported error, the publisher chain,
 * the typed query families with their numeric ids, and the document types
 * (`Dimension`, `Text`, ...) that a mimetype wrap answers with.
 */
module Interface {
  import opened Wrappers

  /** The host's own interface version: the common crate's package version at
      build time. The text used here stands in for it; no lemma depends on it. */
  const INTERFACE_VERSION: string := "0.1.0"

  /** An opaque version tag. */
  datatype InterfaceVersion = InterfaceVersion(tag: string)

  /** `InterfaceVersion::new`: the version the host itself was built with. */
  function NewVersion(): (v: InterfaceVersion)
    ensures MatchesOwn(v)
    ensures IntoString(v) == INTERFACE_VERSION
  {
    InterfaceVersion(INTERFACE_VERSION)
  }

  /** `InterfaceVersion::from`. */
  function FromStr(version: string): (v: InterfaceVersion)
    ensures IntoString(v) == version
    ensures MatchesOwn(v) <==> version == INTERFACE_VERSION
  {
    InterfaceVersion(version)
  }

  /** `matches_own`: exact string equality with the host's own tag, with no
      compatibility window. */
  predicate MatchesOwn(v: InterfaceVersion)
  {
    v.tag == INTERFACE_VERSION
  }

  /** `Into<String> for InterfaceVersion`. */
  function IntoString(v: InterfaceVersion): string
  {
    v.tag
  }

  /** A version matches exactly when it is the host's own one. */
  lemma MatchesOwnIffHostVersion(v: InterfaceVersion)
    ensures MatchesOwn(v) <==> v == NewVersion()
    ensures FromStr(IntoString(v)) == v
  {
  }

  /** A tag that differs from the host's in a single position never matches. */
  lemma OneCharacterOff(s: string, i: nat)
    requires |s| == |INTERFACE_VERSION| && i < |s| && s[i] != INTERFACE_VERSION[i]
    ensures !MatchesOwn(FromStr(s))
  {
  }

  datatype WrapType = NoType | Test | HomeScreen | Mimetype(mime: string)

  /** A non-owning reference into a guest's linear memory. */
  datatype RawVectorPtr = RawVectorPtr(ptr: nat, len: nat)

  datatype WrapMetadata = WrapMetadata(
    name: string,
    version: string,
    wrapType: WrapType,
    description: string,
    publisher: Publisher,
    interfaceVersion: InterfaceVersion)

  /** Errors a guest reports, as ordinary payloads. */
  datatype WrapError =
    | UnsupportedSignal
    | DecodeFailed(detail: string)
    | EncodeFailed(detail: string)
    | UnsupportedInterface(id: bv64)
    | Other(message: string)

  /** `Into<WrapError>` for `String` and `&str`. */
  function WrapErrorFrom(s: string): (e: WrapError)
    ensures e.Other? && e.message == s
  {
    Other(s)
  }

  /** A publisher and the chain of publishers that co-signed it (structure only). */
  datatype Publisher = Publisher(name: string, signedBy: seq<Publisher>)

  /** `Publisher::new`. */
  function PublisherNew(name: string, signedBy: seq<Publisher>): (p: Publisher)
    ensures p.name == name && p.signedBy == signedBy
  {
    Publisher(name, signedBy)
  }

  /** `Into<Publisher>` for `String` and `&str`: an unsigned publisher. */
  function PublisherFrom(name: string): (p: Publisher)
    ensures p.name == name && p.signedBy == []
    ensures p == PublisherNew(name, [])
  {
    Publisher(name, [])
  }

  // ---- query families and their numeric ids ----

  const COMMON_QUERY_ID: bv64 := 0
  const HOMESCREEN_QUERY_ID: bv64 := 1
  const MIMETYPE_QUERY_ID: bv64 := 2

  datatype DataType = DataString(s: string)

  datatype CommonQuery = AskMetadata | Ping(message: string)
  datatype CommonResponse = Metadata(metadata: WrapMetadata) | Pong(response: string)
  type CommonResult = Result<CommonResponse, WrapError>

  datatype HomescreenQuery = AskHomeScreen
  datatype HomescreenResponse = HomeScreenContent(mimeType: string, data: DataType)

  datatype MimetypeQuery = AskParse(data: DataType)
  datatype MimetypeResponse = DimensionResponse(dimension: Dimension)

  // ---- document types ----

  datatype Dimension = Dimension(title: string, children: seq<Element>)
  datatype Element = Canvas(texts: seq<Text>)

  /** Font sizes and line heights are `f32` constants in the source; every one
      of them is exactly representable, so they are reals here. */
  datatype Text = Text(spans: seq<TextSpan>, fontSize: real, lineHeight: real, color: TextColor)
  datatype TextColor = TextColor(r: bv8, g: bv8, b: bv8)
  const BLACK: TextColor := TextColor(0, 0, 0)

  datatype Style = Normal | Italic | Oblique

  /** `weight` is a `u16` in the source. */
  datatype TextSpan = TextSpan(text: string, color: Option<TextColor>, style: Style, weight: nat)
}
