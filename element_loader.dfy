/**
 * The host side of the earlier "element" protocol revision. Every exchange
 * goes through two hops: the host writes the encoded signal at offset 0 and,
 * right after it, a version-stamped `SignalPacket` pointing at that signal;
 * the guest answers with a packed word pointing at a reply packet, whose
 * version is checked before the payload it points to is read and decoded.
 * Elements are keyed by their metadata name.
 *
 * As in the current revision, the wasm runtime, the guest and the codec are
 * oracles. The packet window uses the corrected `MemSliceMut` (everything from
 * the packet offset to the end of memory); see `MemoryBridge`.
 * `SendSignalSpecAsWritten` keeps the source's shorter window, and two lemmas
 * say where the two agree and where they part.
 */
module ElementLoader {
  import opened Wrappers
  import E = ElementInterface
  import MemoryBridge
  import Text

  datatype SignalError =
    | MemoryTooSmall(shortfall: nat)
    | CallFailed(trap: string)
    | ElementError(error: E.ElementError)
    | DecodeFailed(detail: string)
    | EncodeFailed(detail: string)
    | UnsupportedInterfaceVersion(version: E.InterfaceVersion)

  datatype ElementLoaderError =
    | FileNotFound
    | InvalidWasm(detail: string)
    | Signal(error: SignalError)
    | InvalidMetadata

  /** One call of the guest's `signal(packet_ptr, packet_len)`. */
  datatype CallOutcome = Returned(word: bv64, memory: seq<bv8>) | Trapped(detail: string, memory: seq<bv8>)
  type GuestCall = (nat, nat, seq<bv8>) -> CallOutcome

  datatype Module = Module(memory: seq<bv8>, signal: Option<GuestCall>)
  datatype Engine = Engine(compile: seq<bv8> -> Result<Module, string>)

  /** The codec of this revision: signals and packets, both directions. */
  datatype Codec = Codec(
    encodeSignal: E.Signal -> seq<bv8>,
    decodeSignal: seq<bv8> -> Result<E.Signal, string>,
    encodePacket: E.SignalPacket -> seq<bv8>,
    decodePacket: seq<bv8> -> Result<E.SignalPacket, string>)

  const UNEXPECTED_END: string := "UnexpectedEnd"
  const PING_MESSAGE: string := "Harmony core"

  /** `bytes` written into `mem` at `offset`, everything else kept. */
  function WriteAt(mem: seq<bv8>, offset: nat, bytes: seq<bv8>): (r: seq<bv8>)
    requires offset + |bytes| <= |mem|
    ensures |r| == |mem|
    ensures forall i :: 0 <= i < |r| ==>
      r[i] == if offset <= i < offset + |bytes| then bytes[i - offset] else mem[i]
  {
    mem[..offset] + bytes + mem[offset + |bytes|..]
  }

  /** The packet the host sends: its own version and a pointer to the signal. */
  function RequestPacket(size: nat): E.SignalPacket
  {
    E.NewPacket(Ok(E.RawVectorPtr(0, size)))
  }

  /** One `send_signal` on a memory image: the result and the memory afterwards. */
  function SendSignalSpec(call: GuestCall, codec: Codec, input: E.Signal, mem: seq<bv8>): (Result<E.Signal, SignalError>, seq<bv8>)
  {
    var signalWindow := MemoryBridge.MemSliceMut(mem, 0).value;
    var request := codec.encodeSignal(input);
    if |request| > signalWindow.hi - signalWindow.lo then
      (Err(EncodeFailed(UNEXPECTED_END)), mem)
    else
      var withSignal := WriteAt(mem, 0, request);
      var packetWindow := MemoryBridge.MemSliceMut(withSignal, |request|).value;
      var packet := codec.encodePacket(RequestPacket(|request|));
      if |packet| > packetWindow.hi - packetWindow.lo then
        (Err(EncodeFailed(UNEXPECTED_END)), withSignal)
      else
        var withPacket := WriteAt(withSignal, |request|, packet);
        match call(|request|, |packet|, withPacket)
        case Trapped(detail, after) => (Err(CallFailed(detail)), after)
        case Returned(word, after) => (ReadPacketReply(codec, word, after), after)
  }

  /** The reply: read the packet the word points at, check its version, then
      read and decode the signal its payload points at. */
  function ReadPacketReply(codec: Codec, word: bv64, after: seq<bv8>): Result<E.Signal, SignalError>
  {
    var (length, lower) := MemoryBridge.Unpack(word);
    match MemoryBridge.MemSlice(after, lower as nat, lower as nat + length as nat)
    case Err(shortfall) => Err(MemoryTooSmall(shortfall))
    case Ok(packetBytes) =>
      match codec.decodePacket(packetBytes)
      case Err(detail) => Err(DecodeFailed(detail))
      case Ok(packet) =>
        if !E.MatchesOwn(packet.version) then Err(UnsupportedInterfaceVersion(packet.version))
        else ReadPayload(codec, packet.payload, after)
  }

  function ReadPayload(codec: Codec, payload: Result<E.RawVectorPtr, E.ElementError>, after: seq<bv8>)
    : Result<E.Signal, SignalError>
  {
    match payload
    case Err(e) => Err(ElementError(e))
    case Ok(p) =>
      match MemoryBridge.MemSlice(after, p.ptr, p.ptr + p.len)
      case Err(shortfall) => Err(MemoryTooSmall(shortfall))
      case Ok(signalBytes) =>
        match codec.decodeSignal(signalBytes)
        case Err(detail) => Err(DecodeFailed(detail))
        case Ok(signal) => Ok(signal)
  }

  /** The request layout: the signal at `[0, size)`, the packet right after it
      at `[size, size + packet size)`, the packet carrying the host's version
      and the pointer `{ptr: 0, len: size}`, and the guest called with the
      packet's offset and length. */
  lemma RequestLayout(call: GuestCall, codec: Codec, input: E.Signal, mem: seq<bv8>)
    requires |codec.encodeSignal(input)| + |codec.encodePacket(RequestPacket(|codec.encodeSignal(input)|))| <= |mem|
    ensures var request := codec.encodeSignal(input);
      var packet := codec.encodePacket(RequestPacket(|request|));
      var image := WriteAt(WriteAt(mem, 0, request), |request|, packet);
      && image[..|request|] == request
      && image[|request|..|request| + |packet|] == packet
      && image[|request| + |packet|..] == mem[|request| + |packet|..]
      && E.MatchesOwn(RequestPacket(|request|).version)
      && RequestPacket(|request|).payload == Ok(E.RawVectorPtr(0, |request|))
      && SendSignalSpec(call, codec, input, mem).1 == call(|request|, |packet|, image).memory
  {
    var request := codec.encodeSignal(input);
    var packet := codec.encodePacket(RequestPacket(|request|));
    var image := WriteAt(WriteAt(mem, 0, request), |request|, packet);
    assert image[..|request|] == request;
    assert image[|request|..|request| + |packet|] == packet;
  }

  /** `send_signal` with the packet window as the source writes it,
      `[size, len - size)`: `None` where the slice panics
      (`len - size < size`). */
  function SendSignalSpecAsWritten(call: GuestCall, codec: Codec, input: E.Signal, mem: seq<bv8>)
    : Option<(Result<E.Signal, SignalError>, seq<bv8>)>
  {
    var signalWindow := MemoryBridge.MemSliceMut(mem, 0).value;
    var request := codec.encodeSignal(input);
    if |request| > signalWindow.hi - signalWindow.lo then
      Some((Err(EncodeFailed(UNEXPECTED_END)), mem))
    else if |mem| - |request| < |request| then
      None
    else
      var withSignal := WriteAt(mem, 0, request);
      var packetWindow := MemoryBridge.MemSliceMutAsWritten(withSignal, |request|).value;
      var packet := codec.encodePacket(RequestPacket(|request|));
      if |packet| > packetWindow.hi - packetWindow.lo then
        Some((Err(EncodeFailed(UNEXPECTED_END)), withSignal))
      else
        var withPacket := WriteAt(withSignal, |request|, packet);
        match call(|request|, |packet|, withPacket)
        case Trapped(detail, after) => Some((Err(CallFailed(detail)), after))
        case Returned(word, after) => Some((ReadPacketReply(codec, word, after), after))
  }

  /** The written and the corrected packet windows lead to the same exchange
      whenever the signal and the packet fit with the signal's size to spare:
      `2 * size + packet size <= len`. */
  lemma SendSignalAsWrittenAgrees(call: GuestCall, codec: Codec, input: E.Signal, mem: seq<bv8>)
    requires var request := codec.encodeSignal(input);
      2 * |request| + |codec.encodePacket(RequestPacket(|request|))| <= |mem|
    ensures SendSignalSpecAsWritten(call, codec, input, mem) == Some(SendSignalSpec(call, codec, input, mem))
  {
  }

  /** Where they differ, the written version never reaches the guest while
      the corrected one does: when the signal is longer than the memory left
      after it the slice panics, and otherwise a packet that fits the
      corrected window but not the `size` bytes shorter written one fails to
      encode. */
  lemma SendSignalAsWrittenDiverges(call: GuestCall, codec: Codec, input: E.Signal, mem: seq<bv8>)
    requires var request := codec.encodeSignal(input);
      var packet := codec.encodePacket(RequestPacket(|request|));
      |request| + |packet| <= |mem| < 2 * |request| + |packet|
    ensures var request := codec.encodeSignal(input);
      var packet := codec.encodePacket(RequestPacket(|request|));
      var image := WriteAt(WriteAt(mem, 0, request), |request|, packet);
      && SendSignalSpec(call, codec, input, mem).1 == call(|request|, |packet|, image).memory
      && (|mem| < 2 * |request| ==> SendSignalSpecAsWritten(call, codec, input, mem).None?)
      && (2 * |request| <= |mem| ==>
            SendSignalSpecAsWritten(call, codec, input, mem)
              == Some((Err(EncodeFailed(UNEXPECTED_END)), WriteAt(mem, 0, request))))
  {
    RequestLayout(call, codec, input, mem);
  }

  /** A reply packet stamped with any other version is refused with that
      version before its payload is looked at. */
  lemma ReplyVersionCheckedFirst(codec: Codec, word: bv64, after: seq<bv8>, packet: E.SignalPacket)
    requires var (length, lower) := MemoryBridge.Unpack(word);
      && lower as nat + length as nat <= |after|
      && codec.decodePacket(after[lower as nat..lower as nat + length as nat]) == Ok(packet)
    requires !E.MatchesOwn(packet.version)
    ensures ReadPacketReply(codec, word, after) == Err(UnsupportedInterfaceVersion(packet.version))
  {
    var (length, lower) := MemoryBridge.Unpack(word);
    assert MemoryBridge.MemSlice(after, lower as nat, lower as nat + length as nat)
      == Ok(after[lower as nat..lower as nat + length as nat]);
  }

  /** A guest-reported error becomes `ElementError`; a pointer payload is read
      bounds-checked over `[ptr, ptr + len)`. */
  lemma PayloadHandling(codec: Codec, payload: Result<E.RawVectorPtr, E.ElementError>, after: seq<bv8>)
    ensures payload.Err? ==> ReadPayload(codec, payload, after) == Err(ElementError(payload.error))
    ensures payload.Ok? && payload.value.ptr + payload.value.len > |after| ==>
      ReadPayload(codec, payload, after) == Err(MemoryTooSmall(payload.value.ptr + payload.value.len - |after|))
    ensures payload.Ok? && payload.value.ptr + payload.value.len <= |after| ==>
      var p := payload.value;
      match codec.decodeSignal(after[p.ptr..p.ptr + p.len])
      case Err(d) => ReadPayload(codec, payload, after) == Err(DecodeFailed(d))
      case Ok(s) => ReadPayload(codec, payload, after) == Ok(s)
  {
    if payload.Ok? && payload.value.ptr + payload.value.len <= |after| {
      var p := payload.value;
      assert MemoryBridge.MemSlice(after, p.ptr, p.ptr + p.len) == Ok(after[p.ptr..p.ptr + p.len]);
    }
  }

  /** `LoadedElement::from_bytes` without its version gate: the handshake only
      has to answer with `Metadata`. */
  function FromBytesSpec(engine: Engine, codec: Codec, bytes: seq<bv8>): Result<(E.ElementMetadata, seq<bv8>), ElementLoaderError>
    requires engine.compile(bytes).Ok? ==> engine.compile(bytes).value.signal.Some?
  {
    match engine.compile(bytes)
    case Err(detail) => Err(InvalidWasm(detail))
    case Ok(m) =>
      var (reply, after) := SendSignalSpec(m.signal.value, codec, E.AskMetadata, m.memory);
      if reply.Err? || !reply.value.Metadata? then Err(InvalidMetadata)
      else Ok((reply.value.metadata, after))
  }

  /** `Elements::load`: the gate, then a ping whose failure aborts the load. */
  function LoadSpec(engine: Engine, codec: Codec, bytes: seq<bv8>): Result<E.ElementMetadata, ElementLoaderError>
    requires engine.compile(bytes).Ok? ==> engine.compile(bytes).value.signal.Some?
  {
    match FromBytesSpec(engine, codec, bytes)
    case Err(e) => Err(e)
    case Ok((md, after)) =>
      var call := engine.compile(bytes).value.signal.value;
      var ping := SendSignalSpec(call, codec, E.Ping(PING_MESSAGE), after).0;
      if ping.Err? then Err(Signal(ping.error)) else Ok(md)
  }

  /** The memory a registered element keeps: its memory after the metadata
      handshake and then the test ping. */
  function LoadedMemory(engine: Engine, codec: Codec, bytes: seq<bv8>): seq<bv8>
    requires engine.compile(bytes).Ok? ==> engine.compile(bytes).value.signal.Some?
    requires FromBytesSpec(engine, codec, bytes).Ok?
  {
    SendSignalSpec(engine.compile(bytes).value.signal.value, codec, E.Ping(PING_MESSAGE),
                   FromBytesSpec(engine, codec, bytes).value.1).1
  }

  /** The handshake of this revision has no version gate: any `Metadata`
      answer is accepted, whatever the element's interface version. */
  lemma NoVersionGateAtLoad(engine: Engine, codec: Codec, bytes: seq<bv8>, md: E.ElementMetadata)
    requires engine.compile(bytes).Ok? && engine.compile(bytes).value.signal.Some?
    requires var m := engine.compile(bytes).value;
      SendSignalSpec(m.signal.value, codec, E.AskMetadata, m.memory).0 == Ok(E.Metadata(md))
    ensures FromBytesSpec(engine, codec, bytes).Ok? && FromBytesSpec(engine, codec, bytes).value.0 == md
    ensures LoadSpec(engine, codec, bytes).Ok? || LoadSpec(engine, codec, bytes).error.Signal?
  {
  }

  class LoadedElement {
    var memory: array<bv8>
    const call: GuestCall
    var metadata: Option<E.ElementMetadata>

    constructor (initial: seq<bv8>, call: GuestCall)
      ensures fresh(memory) && memory[..] == initial
      ensures this.call == call && metadata == None
    {
      memory := new bv8[|initial|](i requires 0 <= i < |initial| => initial[i]);
      this.call := call;
      metadata := None;
    }

    /** Writes `bytes` into the memory at `offset`, in place. */
    method Write(offset: nat, bytes: seq<bv8>)
      requires offset + |bytes| <= memory.Length
      modifies memory
      ensures memory[..] == WriteAt(old(memory[..]), offset, bytes)
    {
      ghost var before := memory[..];
      var i := 0;
      while i < |bytes|
        invariant 0 <= i <= |bytes|
        invariant forall j :: 0 <= j < memory.Length ==>
          memory[j] == if offset <= j < offset + i then bytes[j - offset] else before[j]
      {
        memory[offset + i] := bytes[i];
        i := i + 1;
      }
      assert memory[..] == WriteAt(before, offset, bytes);
    }

    /** The reply half of `send_signal`, on the current memory. */
    method ReadReplyFromMemory(codec: Codec, word: bv64) returns (r: Result<E.Signal, SignalError>)
      ensures r == ReadPacketReply(codec, word, memory[..])
    {
      var mem := memory[..];
      var split := MemoryBridge.Unpack(word);
      var packetSlice := MemoryBridge.MemSlice(mem, split.1 as nat, split.1 as nat + split.0 as nat);
      if packetSlice.Err? {
        return Err(MemoryTooSmall(packetSlice.error));
      }
      var packet := codec.decodePacket(packetSlice.value);
      if packet.Err? {
        return Err(DecodeFailed(packet.error));
      }
      if !E.MatchesOwn(packet.value.version) {
        return Err(UnsupportedInterfaceVersion(packet.value.version));
      }
      r := ReadPayloadFromMemory(codec, packet.value.payload);
    }

    /** The second hop of the reply: the payload the reply packet carries. */
    method ReadPayloadFromMemory(codec: Codec, payload: Result<E.RawVectorPtr, E.ElementError>) returns (r: Result<E.Signal, SignalError>)
      ensures r == ReadPayload(codec, payload, memory[..])
    {
      if payload.Err? {
        return Err(ElementError(payload.error));
      }
      var p := payload.value;
      var signalSlice := MemoryBridge.MemSlice(memory[..], p.ptr, p.ptr + p.len);
      if signalSlice.Err? {
        return Err(MemoryTooSmall(signalSlice.error));
      }
      var signal := codec.decodeSignal(signalSlice.value);
      if signal.Err? {
        return Err(DecodeFailed(signal.error));
      }
      r := Ok(signal.value);
    }

    /** `send_signal`: the signal at offset 0, the packet right after it, the
        call, a fresh view of the memory, then the reply. */
    method SendSignal(codec: Codec, input: E.Signal) returns (r: Result<E.Signal, SignalError>)
      modifies this, memory
      ensures r == SendSignalSpec(call, codec, input, old(memory[..])).0
      ensures memory[..] == SendSignalSpec(call, codec, input, old(memory[..])).1
      ensures metadata == old(metadata)
      ensures memory == old(memory) || fresh(memory)
    {
      ghost var before := memory[..];
      var signalWindow := MemoryBridge.MemSliceMut(memory[..], 0).value;
      var request := codec.encodeSignal(input);
      if |request| > signalWindow.hi - signalWindow.lo {
        return Err(EncodeFailed(UNEXPECTED_END));
      }
      Write(0, request);
      ghost var withSignal := memory[..];
      var packetPtr := |request|;
      var packetWindow := MemoryBridge.MemSliceMut(memory[..], packetPtr).value;
      var packet := codec.encodePacket(RequestPacket(|request|));
      if |packet| > packetWindow.hi - packetWindow.lo {
        return Err(EncodeFailed(UNEXPECTED_END));
      }
      Write(packetPtr, packet);
      var outcome := call(packetPtr, |packet|, memory[..]);
      var after := outcome.memory;
      memory := new bv8[|after|](k requires 0 <= k < |after| => after[k]);
      assert memory[..] == after;
      if outcome.Trapped? {
        return Err(CallFailed(outcome.detail));
      }
      r := ReadReplyFromMemory(codec, outcome.word);
    }
  }

  /** `LoadedElement::from_bytes`. A missing `signal` export is a panic in the
      source, so it is excluded here. */
  method FromBytes(engine: Engine, codec: Codec, bytes: seq<bv8>) returns (r: Result<LoadedElement, ElementLoaderError>)
    requires engine.compile(bytes).Ok? ==> engine.compile(bytes).value.signal.Some?
    ensures r.Err? <==> FromBytesSpec(engine, codec, bytes).Err?
    ensures r.Err? ==> r.error == FromBytesSpec(engine, codec, bytes).error
    ensures r.Ok? ==>
      && fresh(r.value) && fresh(r.value.memory)
      && r.value.call == engine.compile(bytes).value.signal.value
      && r.value.metadata == Some(FromBytesSpec(engine, codec, bytes).value.0)
      && r.value.memory[..] == FromBytesSpec(engine, codec, bytes).value.1
  {
    var compiled := engine.compile(bytes);
    if compiled.Err? {
      return Err(InvalidWasm(compiled.error));
    }
    var element := new LoadedElement(compiled.value.memory, compiled.value.signal.value);
    var reply := element.SendSignal(codec, E.AskMetadata);
    if reply.Err? || !reply.value.Metadata? {
      return Err(InvalidMetadata);
    }
    element.metadata := Some(reply.value.metadata);
    r := Ok(element);
  }

  /** The last path component without its extension (`Path::file_stem`), for
      '/'-separated paths; `None` when the path names no file. The stem is
      the file name cut before its last '.', unless that '.' is the first
      character, in which case it is the whole name. */
  function FileStem(path: string): (stem: Option<string>)
    ensures stem.Some? <==> FileName(path).Some?
    ensures stem.Some? ==>
      var name := FileName(path).value;
      && 0 < |stem.value| <= |name| && name[..|stem.value|] == stem.value
      && ((stem.value == name && '.' !in name[1..])
        || (|stem.value| < |name| && name[|stem.value|] == '.' && '.' !in name[|stem.value| + 1..]))
  {
    match FileName(path)
    case None => None
    case Some(name) =>
      match Text.LastIndexOf(name, '.')
      case Some(i) =>
        if i == 0 then
          assert '.' !in name[1..] by {
            forall k | 1 <= k < |name| ensures name[k] != '.' {
              assert name[1..][k - 1] == name[k];
              assert name[k] == name[i + 1..][k - 1];
            }
          }
          Some(name)
        else Some(name[..i])
      case None => Some(name)
  }

  /** The last normal component (`Path::file_name`): empty and "."
      components are skipped, so "dir/foo.wasm/" and "dir/foo.wasm/." name
      "foo.wasm"; a path ending in ".." or naming no component names no
      file. */
  function FileName(path: string): (name: Option<string>)
    ensures name.Some? ==> name.value !in {"", ".", ".."} && '/' !in name.value
    decreases |path|
  {
    match Text.LastIndexOf(path, '/')
    case Some(i) =>
      var last := path[i + 1..];
      if last == "" || last == "." then FileName(path[..i])
      else if last == ".." then None
      else Some(last)
    case None =>
      if path in {"", ".", ".."} then None else Some(path)
  }

  /** A trailing separator, or a trailing "." component, does not change the
      file a path names. */
  lemma TrailingComponentsIgnored(path: string)
    ensures FileName(path + "/") == FileName(path)
    ensures FileName(path + "/.") == FileName(path)
  {
    Text.LastSeparator(path, '/', "");
    assert path + "/" == path + ['/'] + "";
    assert (path + "/")[..|path|] == path;
    Text.LastSeparator(path, '/', ".");
    assert path + "/." == path + ['/'] + ".";
    assert (path + "/.")[..|path|] == path;
  }

  /** The element compiled to `<dir>/<name>.wasm` is unloaded by the name it
      was built under, with or without a trailing separator. */
  lemma FileStemOfWasmPath(dir: string, name: string)
    requires name != "" && '/' !in name
    ensures FileStem(dir + "/" + name + ".wasm") == Some(name)
    ensures FileStem(dir + "/" + name + ".wasm" + "/") == Some(name)
    ensures FileStem(dir + "/" + name + ".wasm" + "/.") == Some(name)
  {
    var file := name + ['.'] + "wasm";
    assert dir + "/" + name + ".wasm" == dir + ['/'] + file;
    assert '/' !in file;
    Text.LastSeparator(dir, '/', file);
    assert file != "" && file != "." && file != "..";
    assert FileName(dir + ['/'] + file) == Some(file);
    Text.LastSeparator(name, '.', "wasm");
    assert file[..|name|] == name;
    TrailingComponentsIgnored(dir + "/" + name + ".wasm");
  }

  /** The element registry, keyed by metadata name. */
  class Elements {
    var loaded: map<string, LoadedElement>

    ghost predicate Valid()
      reads this, loaded.Values
    {
      forall name | name in loaded :: loaded[name].metadata.Some? && loaded[name].metadata.value.name == name
    }

    constructor ()
      ensures Valid() && loaded == map[]
    {
      loaded := map[];
    }

    /** `load`: the gate, a ping that aborts on failure, then insertion under
        the element's name, replacing any earlier element of that name. */
    method Load(engine: Engine, codec: Codec, bytes: seq<bv8>) returns (r: Result<(), ElementLoaderError>)
      requires Valid()
      requires engine.compile(bytes).Ok? ==> engine.compile(bytes).value.signal.Some?
      modifies this
      ensures Valid()
      ensures r.Ok? <==> LoadSpec(engine, codec, bytes).Ok?
      ensures r.Err? ==> r.error == LoadSpec(engine, codec, bytes).error && loaded == old(loaded)
      ensures r.Ok? ==>
        var name := LoadSpec(engine, codec, bytes).value.name;
        && name in loaded && fresh(loaded[name])
        && loaded == old(loaded)[name := loaded[name]]
        && loaded[name].metadata == Some(LoadSpec(engine, codec, bytes).value)
        && loaded[name].call == engine.compile(bytes).value.signal.value
        && loaded[name].memory[..] == LoadedMemory(engine, codec, bytes)
    {
      var made := FromBytes(engine, codec, bytes);
      if made.Err? {
        return Err(made.error);
      }
      var element := made.value;
      var test := element.SendSignal(codec, E.Ping(PING_MESSAGE));
      if test.Err? {
        return Err(Signal(test.error));
      }
      var name := element.metadata.value.name;
      loaded := loaded[name := element];
      r := Ok(());
    }

    /** `load_from_path`: the file's contents, or `None` when unreadable. */
    method LoadFromPath(engine: Engine, codec: Codec, file: Option<seq<bv8>>) returns (r: Result<(), ElementLoaderError>)
      requires Valid()
      requires file.Some? && engine.compile(file.value).Ok? ==> engine.compile(file.value).value.signal.Some?
      modifies this
      ensures Valid()
      ensures file.None? ==> r == Err(FileNotFound)
      ensures file.Some? ==> (r.Ok? <==> LoadSpec(engine, codec, file.value).Ok?)
      ensures r.Err? ==> loaded == old(loaded)
      ensures file.Some? && r.Ok? ==>
        var name := LoadSpec(engine, codec, file.value).value.name;
        && name in loaded && fresh(loaded[name])
        && loaded == old(loaded)[name := loaded[name]]
        && loaded[name].metadata == Some(LoadSpec(engine, codec, file.value).value)
        && loaded[name].call == engine.compile(file.value).value.signal.value
        && loaded[name].memory[..] == LoadedMemory(engine, codec, file.value)
    {
      if file.None? {
        return Err(FileNotFound);
      }
      r := Load(engine, codec, file.value);
    }

    /** `unload`: removes exactly the element of that name. */
    method Unload(name: string) returns (r: Result<(), ElementLoaderError>)
      requires Valid()
      modifies this
      ensures Valid()
      ensures r.Ok? <==> name in old(loaded)
      ensures r.Err? ==> r.error == FileNotFound
      ensures loaded == old(loaded) - {name}
    {
      if name !in loaded {
        return Err(FileNotFound);
      }
      loaded := loaded - {name};
      r := Ok(());
    }

    /** `unload_from_path`: unloads by the path's file stem. */
    method UnloadFromPath(path: string) returns (r: Result<(), ElementLoaderError>)
      requires Valid()
      modifies this
      ensures Valid()
      ensures r.Ok? <==> FileStem(path).Some? && FileStem(path).value in old(loaded)
      ensures r.Err? ==> r.error == FileNotFound
      ensures loaded == if FileStem(path).Some? then old(loaded) - {FileStem(path).value} else old(loaded)
    {
      var stem := FileStem(path);
      if stem.None? {
        return Err(FileNotFound);
      }
      r := Unload(stem.value);
    }
  }
}
