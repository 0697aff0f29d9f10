/**
 * The host side of the current wrap protocol: a loaded wrap owns a linear
 * memory and the guest's `signal` export; `SendSignal` marshals one typed
 * query through that memory; `FromBytes` runs the load gate (compile, export
 * lookup, metadata handshake, version check); `Wraps` is the registry keyed
 * by capability with the source map beside it.
 *
 * The wasm runtime and the guest code are oracles: compiling yields a module
 * (the instance's initial memory and, if exported, the `signal` function) and
 * a call yields a result word and the memory image after the call. The binary
 * codec (bincode) is an oracle too: a total encoder and a partial decoder per
 * query family.
 */
module WrapLoader {
  import opened Wrappers
  import I = Interface
  import MemoryBridge

  datatype SignalError =
    | MemoryTooSmall(shortfall: nat)
    | CallFailed(trap: string)
    | WrapError(error: I.WrapError)
    | DecodeFailed(detail: string)
    | EncodeFailed(detail: string)
    | WrapDoesNotExist

  datatype LoaderError =
    | FileNotFound
    | InvalidWasm(detail: string)
    | Signal(error: SignalError)
    | MissingExport
    | InvalidMetadata
    | UnsupportedInterfaceVersion(version: I.InterfaceVersion)

  /** The registry key a wrap is stored under. */
  datatype WrapKey = HomeScreen | Mimetype(mime: string) | Other(wrapType: I.WrapType, name: string)

  /** A source identity (a canonical file URL), kept opaque. */
  type Url = string

  /** What one call of the guest's `signal(query_id, ptr, len)` does: it returns
      a word, or traps; either way the memory may have changed. */
  datatype CallOutcome = Returned(word: bv64, memory: seq<bv8>) | Trapped(detail: string, memory: seq<bv8>)
  type GuestCall = (bv64, nat, nat, seq<bv8>) -> CallOutcome

  /** A compiled and instantiated module: its memory right after instantiation
      and its `signal` export, if any. */
  datatype Module = Module(memory: seq<bv8>, signal: Option<GuestCall>)

  /** The wasm engine: compiling bytes either fails or gives a module. */
  datatype Engine = Engine(compile: seq<bv8> -> Result<Module, string>)

  /** One query family as the host sees it: its numeric id, the encoder of its
      request type and the decoder of `Result<Response, WrapError>`. */
  datatype SignalCodec<!Q, R> = SignalCodec(
    queryId: bv64,
    encode: Q -> seq<bv8>,
    decode: seq<bv8> -> Result<Result<R, I.WrapError>, string>)

  /** The encoder's error when the encoding does not fit the memory window. */
  const UNEXPECTED_END: string := "UnexpectedEnd"

  const PING_MESSAGE: string := "Harmony core"

  const TWO_POW_64: int := 0x1_0000_0000_0000_0000

  /** The outcome of one `send_signal` call on a memory image: the typed result
      and the memory afterwards. */
  function SendSignalSpec<Q, R>(call: GuestCall, codec: SignalCodec<Q, R>, q: Q, mem: seq<bv8>)
    : (Result<R, SignalError>, seq<bv8>)
  {
    var window := MemoryBridge.MemSliceMut(mem, 0).value;
    var request := codec.encode(q);
    if |request| > window.hi - window.lo then
      (Err(EncodeFailed(UNEXPECTED_END)), mem)
    else
      var written := request + mem[|request|..];
      match call(codec.queryId, 0, |request| % TWO_POW_64, written)
      case Trapped(detail, after) => (Err(CallFailed(detail)), after)
      case Returned(word, after) => (ReadReply(codec, word, after), after)
  }

  /** Reading the reply: the word is split into length and offset, the window
      is read bounds-checked and decoded as `Result<Response, WrapError>`. */
  function ReadReply<Q, R>(codec: SignalCodec<Q, R>, word: bv64, after: seq<bv8>): Result<R, SignalError>
  {
    var (length, lower) := MemoryBridge.Unpack(word);
    match MemoryBridge.MemSlice(after, lower as nat, lower as nat + length as nat)
    case Err(shortfall) => Err(MemoryTooSmall(shortfall))
    case Ok(bytes) =>
      match codec.decode(bytes)
      case Err(detail) => Err(DecodeFailed(detail))
      case Ok(Err(e)) => Err(WrapError(e))
      case Ok(Ok(response)) => Ok(response)
  }

  /** A reply window that reaches past the end of memory is reported as
      `MemoryTooSmall` with the exact shortfall; otherwise the decoder sees
      exactly the bytes `[offset, offset + length)`. */
  lemma ReadReplyBounds<Q, R>(codec: SignalCodec<Q, R>, word: bv64, after: seq<bv8>)
    ensures var (length, lower) := MemoryBridge.Unpack(word);
      var upper := lower as nat + length as nat;
      && (upper > |after| ==> ReadReply(codec, word, after) == Err(MemoryTooSmall(upper - |after|)))
      && (upper <= |after| ==>
            match codec.decode(after[lower as nat..upper])
            case Err(d) => ReadReply(codec, word, after) == Err(DecodeFailed(d))
            case Ok(Err(e)) => ReadReply(codec, word, after) == Err(WrapError(e))
            case Ok(Ok(v)) => ReadReply(codec, word, after) == Ok(v))
  {
    var (length, lower) := MemoryBridge.Unpack(word);
    var upper := lower as nat + length as nat;
    if upper <= |after| {
      var s := MemoryBridge.MemSlice(after, lower as nat, upper);
      assert s.value == after[lower as nat..upper];
    }
  }

  /** The request is written at offset 0 and the guest is called with that
      offset and the encoded length; when the encoding is larger than the
      memory nothing is written and no call is made. */
  lemma SendSignalRequestLayout<Q, R>(call: GuestCall, codec: SignalCodec<Q, R>, q: Q, mem: seq<bv8>)
    ensures var request := codec.encode(q);
      && (|request| > |mem| ==> SendSignalSpec(call, codec, q, mem) == (Err(EncodeFailed(UNEXPECTED_END)), mem))
      && (|request| <= |mem| ==>
            var written := request + mem[|request|..];
            && |written| == |mem| && written[..|request|] == request
            && SendSignalSpec(call, codec, q, mem).1 == call(codec.queryId, 0, |request| % TWO_POW_64, written).memory)
  {
    var request := codec.encode(q);
    if |request| <= |mem| {
      var written := request + mem[|request|..];
      assert written[..|request|] == request;
    }
  }

  /** A reply read as `Ok` came through the guest's own `Ok` payload, decoded
      from a window that lies inside the memory. */
  lemma ReadReplyOkIsDecodedWindow<Q, R>(codec: SignalCodec<Q, R>, word: bv64, after: seq<bv8>)
    requires ReadReply(codec, word, after).Ok?
    ensures var (length, lower) := MemoryBridge.Unpack(word);
      && lower as nat + length as nat <= |after|
      && codec.decode(after[lower as nat..lower as nat + length as nat]) == Ok(Ok(ReadReply(codec, word, after).value))
  {
    ReadReplyBounds(codec, word, after);
  }

  /** A successful `send_signal` is the guest returning normally from the call
      with the encoded request, followed by a successful read of its reply. */
  lemma SendSignalOkIsReply<Q, R>(call: GuestCall, codec: SignalCodec<Q, R>, q: Q, mem: seq<bv8>)
    requires SendSignalSpec(call, codec, q, mem).0.Ok?
    ensures |codec.encode(q)| <= |mem|
    ensures var request := codec.encode(q);
      var outcome := call(codec.queryId, 0, |request| % TWO_POW_64, request + mem[|request|..]);
      && outcome.Returned?
      && SendSignalSpec(call, codec, q, mem).0 == ReadReply(codec, outcome.word, outcome.memory)
  {
  }

  /** The load gate, in order: compile, find the `signal` export, ask for the
      metadata, check the interface version. On success: the metadata and the
      memory after the handshake. */
  function FromBytesSpec(engine: Engine, codec: SignalCodec<I.CommonQuery, I.CommonResponse>, bytes: seq<bv8>)
    : Result<(I.WrapMetadata, seq<bv8>), LoaderError>
  {
    match engine.compile(bytes)
    case Err(detail) => Err(InvalidWasm(detail))
    case Ok(m) =>
      if m.signal.None? then Err(MissingExport)
      else
        var (reply, after) := SendSignalSpec(m.signal.value, codec, I.AskMetadata, m.memory);
        if reply.Err? || !reply.value.Metadata? then Err(InvalidMetadata)
        else if !I.MatchesOwn(reply.value.metadata.interfaceVersion) then
          Err(UnsupportedInterfaceVersion(reply.value.metadata.interfaceVersion))
        else Ok((reply.value.metadata, after))
  }

  /** Error precedence of the load gate, and what a success guarantees. */
  lemma FromBytesGate(engine: Engine, codec: SignalCodec<I.CommonQuery, I.CommonResponse>, bytes: seq<bv8>)
    ensures engine.compile(bytes).Err? ==>
      FromBytesSpec(engine, codec, bytes) == Err(InvalidWasm(engine.compile(bytes).error))
    ensures engine.compile(bytes).Ok? && engine.compile(bytes).value.signal.None? ==>
      FromBytesSpec(engine, codec, bytes) == Err(MissingExport)
    ensures engine.compile(bytes).Ok? && engine.compile(bytes).value.signal.Some? ==>
      var m := engine.compile(bytes).value;
      var reply := SendSignalSpec(m.signal.value, codec, I.AskMetadata, m.memory).0;
      && (reply.Err? || !reply.value.Metadata? ==> FromBytesSpec(engine, codec, bytes) == Err(InvalidMetadata))
      && (reply.Ok? && reply.value.Metadata? ==>
            (FromBytesSpec(engine, codec, bytes).Ok? <==> I.MatchesOwn(reply.value.metadata.interfaceVersion)))
    ensures FromBytesSpec(engine, codec, bytes).Ok? ==>
      I.MatchesOwn(FromBytesSpec(engine, codec, bytes).value.0.interfaceVersion)
  {
  }

  /** A wrap reporting any other version than the host's is refused with the
      version it reported. */
  lemma VersionGate(engine: Engine, codec: SignalCodec<I.CommonQuery, I.CommonResponse>, bytes: seq<bv8>, md: I.WrapMetadata)
    requires engine.compile(bytes).Ok? && engine.compile(bytes).value.signal.Some?
    requires var m := engine.compile(bytes).value;
      SendSignalSpec(m.signal.value, codec, I.AskMetadata, m.memory).0 == Ok(I.Metadata(md))
    requires md.interfaceVersion != I.NewVersion()
    ensures FromBytesSpec(engine, codec, bytes) == Err(UnsupportedInterfaceVersion(md.interfaceVersion))
  {
    I.MatchesOwnIffHostVersion(md.interfaceVersion);
  }

  /** `get_wrap_key`: the home screen is a singleton, one wrap per mimetype,
      and every other type is keyed by type and name. */
  function GetWrapKey(md: I.WrapMetadata): (k: WrapKey)
    ensures k.HomeScreen? <==> md.wrapType.HomeScreen?
    ensures k.Mimetype? <==> md.wrapType.Mimetype?
    ensures k.Mimetype? ==> k.mime == md.wrapType.mime
    ensures k.Other? ==> k.wrapType == md.wrapType && k.name == md.name
  {
    match md.wrapType
    case HomeScreen => HomeScreen
    case Mimetype(mime) => Mimetype(mime)
    case _ => Other(md.wrapType, md.name)
  }

  /** When two wraps collide in the registry (and so the later one replaces the
      earlier): same home screen, same mimetype, or same other type and name. */
  lemma SameKeyIff(a: I.WrapMetadata, b: I.WrapMetadata)
    ensures GetWrapKey(a) == GetWrapKey(b) <==>
      (a.wrapType == b.wrapType && (a.wrapType.HomeScreen? || a.wrapType.Mimetype? || a.name == b.name))
  {
  }

  class LoadedWrap {
    var memory: array<bv8>
    const call: GuestCall
    var metadata: Option<I.WrapMetadata>

    /** A wrap that has passed the load gate. */
    ghost predicate Active()
      reads this
    {
      metadata.Some? && I.MatchesOwn(metadata.value.interfaceVersion)
    }

    /** The temporary wrap built before the metadata handshake. */
    constructor (initial: seq<bv8>, call: GuestCall)
      ensures fresh(memory) && memory[..] == initial
      ensures this.call == call && metadata == None
    {
      memory := new bv8[|initial|](i requires 0 <= i < |initial| => initial[i]);
      this.call := call;
      metadata := None;
    }

    /** Writes an encoded request into the memory at offset 0, in place. */
    method WriteRequest(request: seq<bv8>)
      requires |request| <= memory.Length
      modifies memory
      ensures memory[..] == request + old(memory[..])[|request|..]
    {
      ghost var before := memory[..];
      var i := 0;
      while i < |request|
        invariant 0 <= i <= |request|
        invariant forall j :: 0 <= j < i ==> memory[j] == request[j]
        invariant forall j :: i <= j < memory.Length ==> memory[j] == before[j]
      {
        memory[i] := request[i];
        i := i + 1;
      }
      assert memory[..] == request + before[|request|..];
    }

    /** The second half of `send_signal`: split the result word, read the
        reply window bounds-checked from the current memory and decode it. */
    method ReadReplyFromMemory<Q, R>(codec: SignalCodec<Q, R>, word: bv64) returns (r: Result<R, SignalError>)
      ensures r == ReadReply(codec, word, memory[..])
    {
      var mem := memory[..];
      var split := MemoryBridge.Unpack(word);
      var slice := MemoryBridge.MemSlice(mem, split.1 as nat, split.1 as nat + split.0 as nat);
      if slice.Err? {
        return Err(MemoryTooSmall(slice.error));
      }
      var decoded := codec.decode(slice.value);
      if decoded.Err? {
        return Err(DecodeFailed(decoded.error));
      }
      if decoded.value.Err? {
        return Err(WrapError(decoded.value.error));
      }
      r := Ok(decoded.value.value);
    }

    /** `send_signal`: encode the query at offset 0, call the guest, re-read the
        memory, then read and decode the reply. */
    method SendSignal<Q, R>(codec: SignalCodec<Q, R>, q: Q) returns (r: Result<R, SignalError>)
      modifies this, memory
      ensures r == SendSignalSpec(call, codec, q, old(memory[..])).0
      ensures memory[..] == SendSignalSpec(call, codec, q, old(memory[..])).1
      ensures metadata == old(metadata)
      ensures memory == old(memory) || fresh(memory)
    {
      ghost var before := memory[..];
      var window := MemoryBridge.MemSliceMut(memory[..], 0).value;
      var request := codec.encode(q);
      if |request| > window.hi - window.lo {
        return Err(EncodeFailed(UNEXPECTED_END));
      }
      WriteRequest(request);
      var outcome := call(codec.queryId, 0, |request| % TWO_POW_64, memory[..]);
      // the guest may have written to (and grown) its memory: take a fresh view
      var after := outcome.memory;
      memory := new bv8[|after|](k requires 0 <= k < |after| => after[k]);
      assert memory[..] == after;
      if outcome.Trapped? {
        return Err(CallFailed(outcome.detail));
      }
      r := ReadReplyFromMemory(codec, outcome.word);
    }
  }

  /** `LoadedWrap::from_bytes`. */
  method FromBytes(engine: Engine, codec: SignalCodec<I.CommonQuery, I.CommonResponse>, bytes: seq<bv8>)
    returns (r: Result<LoadedWrap, LoaderError>)
    ensures r.Err? <==> FromBytesSpec(engine, codec, bytes).Err?
    ensures r.Err? ==> r.error == FromBytesSpec(engine, codec, bytes).error
    ensures r.Ok? ==>
      && fresh(r.value) && fresh(r.value.memory)
      && r.value.call == engine.compile(bytes).value.signal.value
      && r.value.metadata == Some(FromBytesSpec(engine, codec, bytes).value.0)
      && r.value.memory[..] == FromBytesSpec(engine, codec, bytes).value.1
      && r.value.Active()
  {
    var compiled := engine.compile(bytes);
    if compiled.Err? {
      return Err(InvalidWasm(compiled.error));
    }
    var compiledModule := compiled.value;
    if compiledModule.signal.None? {
      return Err(MissingExport);
    }
    var wrap := new LoadedWrap(compiledModule.memory, compiledModule.signal.value);
    var reply := wrap.SendSignal(codec, I.AskMetadata);
    if reply.Err? || !reply.value.Metadata? {
      return Err(InvalidMetadata);
    }
    var md := reply.value.metadata;
    if !I.MatchesOwn(md.interfaceVersion) {
      return Err(UnsupportedInterfaceVersion(md.interfaceVersion));
    }
    wrap.metadata := Some(md);
    r := Ok(wrap);
  }

  /** The registry: loaded wraps by key, and the key each source was loaded under. */
  /** The memory a registered wrap keeps: its memory after the metadata
      handshake and then the test ping. */
  function LoadedMemory(engine: Engine, codec: SignalCodec<I.CommonQuery, I.CommonResponse>, bytes: seq<bv8>): seq<bv8>
    requires FromBytesSpec(engine, codec, bytes).Ok?
  {
    SendSignalSpec(engine.compile(bytes).value.signal.value, codec, I.Ping(PING_MESSAGE),
                   FromBytesSpec(engine, codec, bytes).value.1).1
  }

  class Wraps {
    var sourceMap: map<Url, WrapKey>
    var loaded: map<WrapKey, LoadedWrap>

    /** Every registered wrap passed the gate and sits under its own key. */
    ghost predicate Valid()
      reads this, loaded.Values
    {
      forall k | k in loaded :: loaded[k].Active() && GetWrapKey(loaded[k].metadata.value) == k
    }

    constructor ()
      ensures Valid() && sourceMap == map[] && loaded == map[]
    {
      sourceMap := map[];
      loaded := map[];
    }

    /** `load`: all-or-nothing; on success the new wrap replaces whatever
        occupied its key and the source is recorded under that key. The ping
        sent after loading never changes the outcome. */
    method Load(engine: Engine, codec: SignalCodec<I.CommonQuery, I.CommonResponse>, bytes: seq<bv8>, source: Url)
      returns (r: Result<(), LoaderError>)
      requires Valid()
      modifies this
      ensures Valid()
      ensures r.Ok? <==> FromBytesSpec(engine, codec, bytes).Ok?
      ensures r.Err? ==> && r.error == FromBytesSpec(engine, codec, bytes).error
                         && sourceMap == old(sourceMap) && loaded == old(loaded)
      ensures r.Ok? ==>
        var key := GetWrapKey(FromBytesSpec(engine, codec, bytes).value.0);
        && key in loaded && fresh(loaded[key])
        && loaded == old(loaded)[key := loaded[key]]
        && loaded[key].metadata == Some(FromBytesSpec(engine, codec, bytes).value.0)
        && loaded[key].call == engine.compile(bytes).value.signal.value
        && loaded[key].memory[..] == LoadedMemory(engine, codec, bytes)
        && sourceMap == old(sourceMap)[source := key]
    {
      var made := FromBytes(engine, codec, bytes);
      if made.Err? {
        return Err(made.error);
      }
      var wrap := made.value;
      // test ping; its outcome is only logged
      var _ := wrap.SendSignal(codec, I.Ping(PING_MESSAGE));
      var key := GetWrapKey(wrap.metadata.value);
      loaded := loaded[key := wrap];
      sourceMap := sourceMap[source := key];
      r := Ok(());
    }

    /** `load_from_path`: the file's contents are given (`None` when it could
        not be read); the source identity is the canonical URL of the path. */
    method LoadFromPath(engine: Engine, codec: SignalCodec<I.CommonQuery, I.CommonResponse>,
                        file: Option<seq<bv8>>, source: Url)
      returns (r: Result<(), LoaderError>)
      requires Valid()
      modifies this
      ensures Valid()
      ensures file.None? ==> r == Err(FileNotFound) && sourceMap == old(sourceMap) && loaded == old(loaded)
      ensures file.Some? ==> (r.Ok? <==> FromBytesSpec(engine, codec, file.value).Ok?)
      ensures r.Err? ==> sourceMap == old(sourceMap) && loaded == old(loaded)
      ensures file.Some? && r.Ok? ==>
        var key := GetWrapKey(FromBytesSpec(engine, codec, file.value).value.0);
        && key in loaded && fresh(loaded[key])
        && loaded == old(loaded)[key := loaded[key]]
        && loaded[key].metadata == Some(FromBytesSpec(engine, codec, file.value).value.0)
        && loaded[key].call == engine.compile(file.value).value.signal.value
        && loaded[key].memory[..] == LoadedMemory(engine, codec, file.value)
        && sourceMap == old(sourceMap)[source := key]
    {
      if file.None? {
        return Err(FileNotFound);
      }
      r := Load(engine, codec, file.value, source);
    }

    /** `unload`: forgets the source; removes whatever now occupies the key it
        was loaded under, even a wrap loaded later from another source. */
    method Unload(source: Url) returns (r: Result<(), LoaderError>)
      requires Valid()
      modifies this
      ensures Valid()
      ensures sourceMap == old(sourceMap) - {source}
      ensures r.Ok? <==> source in old(sourceMap) && old(sourceMap)[source] in old(loaded)
      ensures r.Err? ==> r.error == FileNotFound
      ensures loaded == if source in old(sourceMap) then old(loaded) - {old(sourceMap)[source]} else old(loaded)
    {
      if source !in sourceMap {
        return Err(FileNotFound);
      }
      var key := sourceMap[source];
      sourceMap := sourceMap - {source};
      if key !in loaded {
        return Err(FileNotFound);
      }
      loaded := loaded - {key};
      r := Ok(());
    }

    /** `signal`: forwards to the wrap under `key`; neither map changes, and a
        failed call does not evict the wrap. */
    method Signal<Q, R>(key: WrapKey, codec: SignalCodec<Q, R>, q: Q) returns (r: Result<R, SignalError>)
      requires Valid()
      modifies if key in loaded then {loaded[key] as object, loaded[key].memory} else {}
      ensures Valid()
      ensures sourceMap == old(sourceMap) && loaded == old(loaded)
      ensures key !in loaded ==> r == Err(WrapDoesNotExist)
      ensures key in loaded ==>
        && r == SendSignalSpec(loaded[key].call, codec, q, old(loaded[key].memory[..])).0
        && loaded[key].memory[..] == SendSignalSpec(loaded[key].call, codec, q, old(loaded[key].memory[..])).1
    {
      if key !in loaded {
        return Err(WrapDoesNotExist);
      }
      var wrap := loaded[key];
      r := wrap.SendSignal(codec, q);
    }
  }

  /** The home-screen scenario: after loading A and then B, both home screens,
      only B is registered under the home-screen key, with B's guest and B's
      memory, so a later `Signal` to that key is answered by B. */
  method HomeScreenReplacement(wraps: Wraps, engine: Engine, codec: SignalCodec<I.CommonQuery, I.CommonResponse>,
                               a: seq<bv8>, b: seq<bv8>, sourceA: Url, sourceB: Url)
    requires wraps.Valid()
    requires FromBytesSpec(engine, codec, a).Ok? && FromBytesSpec(engine, codec, a).value.0.wrapType.HomeScreen?
    requires FromBytesSpec(engine, codec, b).Ok? && FromBytesSpec(engine, codec, b).value.0.wrapType.HomeScreen?
    modifies wraps
    ensures wraps.Valid()
    ensures HomeScreen in wraps.loaded
    ensures wraps.loaded[HomeScreen].metadata == Some(FromBytesSpec(engine, codec, b).value.0)
    ensures wraps.loaded[HomeScreen].call == engine.compile(b).value.signal.value
    ensures wraps.loaded[HomeScreen].memory[..] == LoadedMemory(engine, codec, b)
    ensures wraps.sourceMap == old(wraps.sourceMap)[sourceA := HomeScreen][sourceB := HomeScreen]
  {
    var ra := wraps.Load(engine, codec, a, sourceA);
    var first := wraps.loaded[HomeScreen];
    var rb := wraps.Load(engine, codec, b, sourceB);
    assert wraps.loaded[HomeScreen] != first;
  }
}
