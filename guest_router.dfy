/**
 * What the `define_wrap` attribute generates inside a wrap: the name of the
 * handler it calls for each supported query type, the exported
 * `signal(interface_id, ptr, len)` entry point that routes a request to the
 * handler for that query id and packs the location of the encoded answer into
 * one word, and the built-in `common_query` answering `AskMetadata`.
 *
 * The token parsing of the attribute is not modelled: a wrap definition is
 * given directly as its parts. The codec is an oracle, as on the host side.
 */
module GuestRouter {
  import opened Wrappers
  import I = Interface
  import MemoryBridge
  import Text
  import WrapLoader

  // ---------------------------------------------------------------------
  // Handler names
  // ---------------------------------------------------------------------

  /** The characters `c` becomes: lowered, with a '_' in front when it is
      upper-case and the character before it was not. */
  function SnakeChar(c: char, prevUpper: bool): string
  {
    (if Text.IsUpper(c) && !prevUpper then "_" else "") + [Text.Lower(c)]
  }

  /** The snake-cased text before truncation: each upper-case letter is
      lowered and gets a '_' in front of it when the character before it was
      not upper-case. `prevUpper` is that flag for the first character; it
      starts out set, so the first character never gets one. */
  function Snake(s: string, prevUpper: bool): string
  {
    if s == [] then []
    else
      SnakeChar(s[0], prevUpper) + Snake(s[1..], Text.IsUpper(s[0]))
  }

  /** The snake-cased text with everything from its last '_' removed. */
  function SnakeCaseAndRemoveLast(s: string): string
  {
    var built := Snake(s, true);
    match Text.LastIndexOf(built, '_')
    case Some(i) => built[..i]
    case None => built
  }

  /** One turn of the character loop: the part built so far followed by the
      snake-cased rest is still the snake-cased whole. */
  lemma SnakeLoopStep(s: string, i: nat, built: string, prevUpper: bool)
    requires i < |s|
    requires built + Snake(s[i..], prevUpper) == Snake(s, true)
    ensures (built + SnakeChar(s[i], prevUpper)) + Snake(s[i + 1..], Text.IsUpper(s[i])) == Snake(s, true)
  {
    assert s[i..][1..] == s[i + 1..];
    var piece := SnakeChar(s[i], prevUpper);
    var rest := Snake(s[i + 1..], Text.IsUpper(s[i]));
    assert Snake(s[i..], prevUpper) == piece + rest;
    assert (built + piece) + rest == built + (piece + rest);
  }

  /** `to_snake_case_and_remove_last`, as the character loop it is. */
  method ToSnakeCaseAndRemoveLast(s: string) returns (result: string)
    ensures result == SnakeCaseAndRemoveLast(s)
  {
    result := "";
    var lastWasUpper := true;
    var i := 0;
    while i < |s|
      invariant 0 <= i <= |s|
      invariant i == 0 ==> lastWasUpper
      invariant result + Snake(s[i..], lastWasUpper) == Snake(s, true)
    {
      var c := s[i];
      SnakeLoopStep(s, i, result, lastWasUpper);
      ghost var expected := result + SnakeChar(c, lastWasUpper);
      if Text.IsUpper(c) {
        if !lastWasUpper && i != 0 {
          result := result + "_";
        }
        result := result + [Text.Lower(c)];
        lastWasUpper := true;
      } else {
        result := result + [c];
        lastWasUpper := false;
      }
      assert result == expected;
      i := i + 1;
    }
    assert s[i..] == [];
    assert result + [] == result;
    assert result == Snake(s, true);
    var lastUnderscore := Text.LastIndexOf(result, '_');
    if lastUnderscore.Some? {
      result := result[..lastUnderscore.value];
    }
  }

  /** The handler a query type is routed to. */
  function HandlerName(queryType: string): string
  {
    SnakeCaseAndRemoveLast(queryType) + "_query"
  }

  /** The result never holds an upper-case letter. */
  lemma {:induction false} SnakeHasNoUpper(s: string, prevUpper: bool)
    ensures forall k :: 0 <= k < |Snake(s, prevUpper)| ==> !Text.IsUpper(Snake(s, prevUpper)[k])
  {
    if s != [] {
      SnakeHasNoUpper(s[1..], Text.IsUpper(s[0]));
    }
  }

  /** A capitalised word: an upper-case letter followed by at least one
      character that is neither upper-case nor '_'. */
  predicate IsWord(w: string)
  {
    |w| >= 2 && Text.IsUpper(w[0]) && forall k :: 1 <= k < |w| ==> !Text.IsUpper(w[k]) && w[k] != '_'
  }

  function LowerWord(w: string): string
    requires IsWord(w)
  {
    [Text.Lower(w[0])] + w[1..]
  }

  /** Words written one after the other, as in a type name. */
  function Camel(words: seq<string>): string
  {
    if words == [] then "" else words[0] + Camel(words[1..])
  }

  /** The lower-cased words joined by '_'. */
  function SnakeJoin(words: seq<string>): string
    requires |words| >= 1 && forall k :: 0 <= k < |words| ==> IsWord(words[k])
  {
    if |words| == 1 then LowerWord(words[0])
    else LowerWord(words[0]) + "_" + SnakeJoin(words[1..])
  }

  lemma {:induction false} SnakeConcat(a: string, b: string, prevUpper: bool)
    ensures Snake(a + b, prevUpper) ==
      Snake(a, prevUpper) + Snake(b, if a == [] then prevUpper else Text.IsUpper(a[|a| - 1]))
  {
    if a != [] {
      assert (a + b)[1..] == a[1..] + b;
      SnakeConcat(a[1..], b, Text.IsUpper(a[0]));
    } else {
      assert a + b == b;
    }
  }

  lemma {:induction false} SnakeOfWord(w: string, prevUpper: bool)
    requires IsWord(w)
    ensures Snake(w, prevUpper) == (if prevUpper then "" else "_") + LowerWord(w)
  {
    SnakeOfTail(w[1..], Text.IsUpper(w[0]));
    assert w[1..] == w[1..];
  }

  lemma {:induction false} SnakeOfTail(t: string, prevUpper: bool)
    requires forall k :: 0 <= k < |t| ==> !Text.IsUpper(t[k])
    ensures Snake(t, prevUpper) == t
  {
    if t != [] {
      SnakeOfTail(t[1..], false);
    }
  }

  /** A camel-case name of words becomes those words lower-cased and joined
      by '_'. */
  lemma {:induction false} SnakeOfCamel(words: seq<string>, prevUpper: bool)
    requires |words| >= 1 && forall k :: 0 <= k < |words| ==> IsWord(words[k])
    ensures Snake(Camel(words), prevUpper) == (if prevUpper then "" else "_") + SnakeJoin(words)
  {
    var w := words[0];
    SnakeConcat(w, Camel(words[1..]), prevUpper);
    SnakeOfWord(w, prevUpper);
    if |words| == 1 {
      assert Camel(words[1..]) == "";
    } else {
      SnakeOfCamel(words[1..], false);
    }
  }

  /** The lower-cased words never contain '_' themselves. */
  lemma NoUnderscoreInLowerWord(w: string)
    requires IsWord(w)
    ensures '_' !in LowerWord(w)
  {
    assert forall k :: 1 <= k < |LowerWord(w)| ==> LowerWord(w)[k] == w[k];
  }

  /** Joining all words is joining all but the last, '_', and the last. */
  lemma {:induction false} SnakeJoinSnoc(words: seq<string>)
    requires |words| >= 2 && forall k :: 0 <= k < |words| ==> IsWord(words[k])
    ensures SnakeJoin(words) == SnakeJoin(words[..|words| - 1]) + "_" + LowerWord(words[|words| - 1])
  {
    if |words| > 2 {
      SnakeJoinSnoc(words[1..]);
      assert words[1..][..|words[1..]| - 1] == words[..|words| - 1][1..];
    }
  }

  /** For a type name made of two or more capitalised words, the last word
      is dropped and the others are joined in snake case; a single word is
      only lower-cased. */
  lemma CamelNameDropsLastWord(words: seq<string>)
    requires |words| >= 1 && forall k :: 0 <= k < |words| ==> IsWord(words[k])
    ensures |words| == 1 ==> SnakeCaseAndRemoveLast(Camel(words)) == LowerWord(words[0])
    ensures |words| >= 2 ==> SnakeCaseAndRemoveLast(Camel(words)) == SnakeJoin(words[..|words| - 1])
  {
    SnakeOfCamel(words, true);
    assert Snake(Camel(words), true) == SnakeJoin(words) by {
      assert "" + SnakeJoin(words) == SnakeJoin(words);
    }
    if |words| == 1 {
      NoUnderscoreInLowerWord(words[0]);
    } else {
      TruncateJoined(words);
    }
  }

  /** Truncating the joined words at the last '_' drops the last word. */
  lemma TruncateJoined(words: seq<string>)
    requires |words| >= 2 && forall k :: 0 <= k < |words| ==> IsWord(words[k])
    ensures var built := SnakeJoin(words);
      var init := SnakeJoin(words[..|words| - 1]);
      Text.LastIndexOf(built, '_') == Some(|init|) && built[..|init|] == init
  {
    var built := SnakeJoin(words);
    var last := LowerWord(words[|words| - 1]);
    var init := SnakeJoin(words[..|words| - 1]);
    SnakeJoinSnoc(words);
    NoUnderscoreInLowerWord(words[|words| - 1]);
    Text.LastSeparator(init, '_', last);
    assert built == init + ['_'] + last;
  }

  /** The three query types of the interface are routed to the handler
      functions their interface traits declare. */
  lemma QueryIsWord()
    ensures IsWord("Query")
  {
    var q := "Query";
    assert forall k :: 1 <= k < |q| ==> 'a' <= q[k] <= 'z';
  }

  lemma CommonQueryHandlerName()
    ensures HandlerName("CommonQuery") == "common_query"
  {
    var first := "Common";
    QueryIsWord();
    assert IsWord(first) by {
      assert forall k :: 1 <= k < |first| ==> 'a' <= first[k] <= 'z';
    }
    assert LowerWord(first) == "common" by {
      assert Text.Lower(first[0]) == 'c';
      assert first[1..] == "ommon";
    }
    assert first + "Query" == "CommonQuery";
    TwoWordHandler(first, "Query");
  }

  lemma HomescreenQueryHandlerName()
    ensures HandlerName("HomescreenQuery") == "homescreen_query"
  {
    var first := "Homescreen";
    QueryIsWord();
    assert IsWord(first) by {
      assert forall k :: 1 <= k < |first| ==> 'a' <= first[k] <= 'z';
    }
    assert LowerWord(first) == "homescreen" by {
      assert Text.Lower(first[0]) == 'h';
      assert first[1..] == "omescreen";
    }
    assert first + "Query" == "HomescreenQuery";
    TwoWordHandler(first, "Query");
  }

  lemma MimetypeQueryHandlerName()
    ensures HandlerName("MimetypeQuery") == "mimetype_query"
  {
    var first := "Mimetype";
    QueryIsWord();
    assert IsWord(first) by {
      assert forall k :: 1 <= k < |first| ==> 'a' <= first[k] <= 'z';
    }
    assert LowerWord(first) == "mimetype" by {
      assert Text.Lower(first[0]) == 'm';
      assert first[1..] == "imetype";
    }
    assert first + "Query" == "MimetypeQuery";
    TwoWordHandler(first, "Query");
  }

  lemma TwoWordHandler(first: string, second: string)
    requires IsWord(first) && IsWord(second)
    ensures HandlerName(first + second) == LowerWord(first) + "_query"
  {
    var words := [first, second];
    assert Camel(words) == first + second by {
      assert Camel(words[1..]) == second + Camel([]);
    }
    CamelNameDropsLastWord(words);
    assert words[..1] == [first];
  }

  // ---------------------------------------------------------------------
  // The generated `signal` entry point
  // ---------------------------------------------------------------------

  /** One generated match arm: the query id it answers and what it does with
      the request bytes. */
  datatype Arm = Arm(queryId: bv64, respond: seq<bv8> -> Result<seq<bv8>, I.WrapError>)

  /** The arm generated for one supported query type: decode the request,
      run the handler, encode its answer. */
  function MakeArm<Q, R>(queryId: bv64, decode: seq<bv8> -> Result<Q, string>, handler: Q -> R,
                         encode: R -> Result<seq<bv8>, string>): Arm
  {
    Arm(queryId, (input: seq<bv8>) => ArmResponse(decode, handler, encode, input))
  }

  function ArmResponse<Q, R>(decode: seq<bv8> -> Result<Q, string>, handler: Q -> R,
                             encode: R -> Result<seq<bv8>, string>, input: seq<bv8>): Result<seq<bv8>, I.WrapError>
  {
    match decode(input)
    case Err(detail) => Err(I.DecodeFailed(detail))
    case Ok(query) =>
      match encode(handler(query))
      case Err(detail) => Err(I.EncodeFailed(detail))
      case Ok(bytes) => Ok(bytes)
  }

  /** The handler runs only on a request that decodes; a decode failure and
      an encode failure each surface as their own error, and otherwise the
      answer is the handler's encoded response. */
  lemma ArmOutcomes<Q, R>(queryId: bv64, decode: seq<bv8> -> Result<Q, string>, handler: Q -> R,
                          encode: R -> Result<seq<bv8>, string>, input: seq<bv8>)
    ensures var r := MakeArm(queryId, decode, handler, encode).respond(input);
      && (decode(input).Err? ==> r == Err(I.DecodeFailed(decode(input).error)))
      && (decode(input).Ok? && encode(handler(decode(input).value)).Err? ==>
            r == Err(I.EncodeFailed(encode(handler(decode(input).value)).error)))
      && (r.Ok? <==> decode(input).Ok? && encode(handler(decode(input).value)).Ok?)
      && (r.Ok? ==> r.value == encode(handler(decode(input).value)).value)
  {
  }

  /** The match on `interface_id`: the first arm for that id, or
      `UnsupportedInterface(id)` when there is none. */
  function Dispatch(arms: seq<Arm>, id: bv64, input: seq<bv8>): (r: Result<seq<bv8>, I.WrapError>)
    ensures (forall k :: 0 <= k < |arms| ==> arms[k].queryId != id) ==> r == Err(I.UnsupportedInterface(id))
  {
    if arms == [] then Err(I.UnsupportedInterface(id))
    else if arms[0].queryId == id then arms[0].respond(input)
    else Dispatch(arms[1..], id, input)
  }

  /** The arm that answers is the first one declared for the id. */
  lemma {:induction false} DispatchFirstMatch(arms: seq<Arm>, id: bv64, input: seq<bv8>, k: nat)
    requires k < |arms| && arms[k].queryId == id
    requires forall j :: 0 <= j < k ==> arms[j].queryId != id
    ensures Dispatch(arms, id, input) == arms[k].respond(input)
  {
    if k > 0 {
      DispatchFirstMatch(arms[1..], id, input, k - 1);
    }
  }

  /** The bytes `signal` leaves in memory: the arm's answer, or the encoded
      error when routing or the arm failed. */
  function Output(arms: seq<Arm>, encodeError: I.WrapError -> seq<bv8>, id: bv64, input: seq<bv8>): seq<bv8>
  {
    match Dispatch(arms, id, input)
    case Ok(bytes) => bytes
    case Err(e) => encodeError(e)
  }

  /** The returned word: the length in the low 32 bits, the pointer in the
      high 32 bits. */
  function Pack(len: bv64, ptr: bv64): bv64
  {
    (len & MemoryBridge.LOW_MASK) | (ptr << 32)
  }

  /** The host's unpack recovers the low 32 bits of both halves, hence both
      exactly when they fit in 32 bits; packing an unpacked word gives it back. */
  lemma PackUnpack(len: bv64, ptr: bv64)
    ensures MemoryBridge.Unpack(Pack(len, ptr)) == (len & MemoryBridge.LOW_MASK, ptr & MemoryBridge.LOW_MASK)
    ensures len <= MemoryBridge.LOW_MASK && ptr <= MemoryBridge.LOW_MASK ==>
      MemoryBridge.Unpack(Pack(len, ptr)) == (len, ptr)
  {
  }

  lemma UnpackPack(word: bv64)
    ensures Pack(MemoryBridge.Unpack(word).0, MemoryBridge.Unpack(word).1) == word
  {
  }

  /** The end of one guest call: `out` is placed at `outPtr`, chosen by the
      guest's allocator and given here, and its location is packed.
      `outPtr` and `outLen` are the `u64` casts of the buffer's address and
      length; on wasm32 both fit in 32 bits. */
  function PlaceOutput(out: seq<bv8>, outPtr: bv64, outLen: bv64, mem: seq<bv8>): WrapLoader.CallOutcome
    requires outPtr <= MemoryBridge.LOW_MASK && outLen <= MemoryBridge.LOW_MASK
    requires outLen as nat == |out| && outPtr as nat + outLen as nat <= |mem|
  {
    WrapLoader.Returned(Pack(outLen, outPtr), mem[..outPtr as nat] + out + mem[outPtr as nat + |out|..])
  }

  /** One guest call: the routed answer, placed and packed. */
  function GuestSignal(arms: seq<Arm>, encodeError: I.WrapError -> seq<bv8>, id: bv64,
                       input: seq<bv8>, outPtr: bv64, outLen: bv64, mem: seq<bv8>): WrapLoader.CallOutcome
    requires outPtr <= MemoryBridge.LOW_MASK && outLen <= MemoryBridge.LOW_MASK
    requires outLen as nat == |Output(arms, encodeError, id, input)|
    requires outPtr as nat + outLen as nat <= |mem|
  {
    PlaceOutput(Output(arms, encodeError, id, input), outPtr, outLen, mem)
  }

  /** The host reads back exactly the bytes the guest placed: the reply it
      decodes is the decoding of those bytes. */
  lemma HostReadsPlacedOutput<Q, R>(codec: WrapLoader.SignalCodec<Q, R>, out: seq<bv8>,
                                    outPtr: bv64, outLen: bv64, mem: seq<bv8>)
    requires outPtr <= MemoryBridge.LOW_MASK && outLen <= MemoryBridge.LOW_MASK
    requires outLen as nat == |out| && outPtr as nat + outLen as nat <= |mem|
    ensures var reply := PlaceOutput(out, outPtr, outLen, mem);
      var r := WrapLoader.ReadReply(codec, reply.word, reply.memory);
      && (codec.decode(out).Err? ==> r == Err(WrapLoader.DecodeFailed(codec.decode(out).error)))
      && (codec.decode(out).Ok? && codec.decode(out).value.Err? ==> r == Err(WrapLoader.WrapError(codec.decode(out).value.error)))
      && (r.Ok? <==> codec.decode(out).Ok? && codec.decode(out).value.Ok?)
      && (r.Ok? ==> r.value == codec.decode(out).value.value)
  {
    PlacedWindow(out, outPtr, outLen, mem);
  }

  /** The packed word points at exactly the placed bytes. */
  lemma PlacedWindow(out: seq<bv8>, outPtr: bv64, outLen: bv64, mem: seq<bv8>)
    requires outPtr <= MemoryBridge.LOW_MASK && outLen <= MemoryBridge.LOW_MASK
    requires outLen as nat == |out| && outPtr as nat + outLen as nat <= |mem|
    ensures var reply := PlaceOutput(out, outPtr, outLen, mem);
      && MemoryBridge.Unpack(reply.word) == (outLen, outPtr)
      && MemoryBridge.MemSlice(reply.memory, outPtr as nat, outPtr as nat + outLen as nat) == Ok(out)
  {
    PackUnpack(outLen, outPtr);
    WindowOfWrite(out, outPtr as nat, mem);
  }

  lemma WindowOfWrite(out: seq<bv8>, p: nat, mem: seq<bv8>)
    requires p + |out| <= |mem|
    ensures MemoryBridge.MemSlice(mem[..p] + out + mem[p + |out|..], p, p + |out|) == Ok(out)
  {
    var written := mem[..p] + out + mem[p + |out|..];
    assert written[p..p + |out|] == out;
  }

  /** An id no arm answers reaches the host as `UnsupportedInterface(id)`,
      provided the host's codec reads the guest's encoded errors back. */
  lemma UnknownIdReachesHost<Q, R>(codec: WrapLoader.SignalCodec<Q, R>, arms: seq<Arm>,
                                   encodeError: I.WrapError -> seq<bv8>, id: bv64,
                                   input: seq<bv8>, outPtr: bv64, outLen: bv64, mem: seq<bv8>)
    requires forall k :: 0 <= k < |arms| ==> arms[k].queryId != id
    requires codec.decode(encodeError(I.UnsupportedInterface(id))) == Ok(Err(I.UnsupportedInterface(id)))
    requires outPtr <= MemoryBridge.LOW_MASK && outLen <= MemoryBridge.LOW_MASK
    requires outLen as nat == |encodeError(I.UnsupportedInterface(id))|
    requires outPtr as nat + outLen as nat <= |mem|
    ensures var reply := GuestSignal(arms, encodeError, id, input, outPtr, outLen, mem);
      WrapLoader.ReadReply(codec, reply.word, reply.memory) == Err(WrapLoader.WrapError(I.UnsupportedInterface(id)))
  {
    HostReadsPlacedOutput(codec, encodeError(I.UnsupportedInterface(id)), outPtr, outLen, mem);
  }

  // ---------------------------------------------------------------------
  // `metadata` and `common_query`
  // ---------------------------------------------------------------------

  /** The parts of a wrap the attribute and the crate manifest supply; the
      optional user arms of `common_query` are a partial answer function. */
  datatype WrapDefinition = WrapDefinition(
    crateName: string,
    crateVersion: string,
    crateDescription: string,
    publisher: I.Publisher,
    wrapType: I.WrapType,
    commonArms: I.CommonQuery -> Option<I.CommonResult>)

  /** The generated `metadata()`: the crate's name, version and description,
      the declared type and publisher, and the host's own interface version. */
  function Metadata(def: WrapDefinition): (r: I.CommonResponse)
    ensures r.Metadata? && I.MatchesOwn(r.metadata.interfaceVersion)
    ensures r.metadata.name == def.crateName && r.metadata.version == def.crateVersion
    ensures r.metadata.description == def.crateDescription
    ensures r.metadata.wrapType == def.wrapType && r.metadata.publisher == def.publisher
  {
    I.Metadata(I.WrapMetadata(def.crateName, def.crateVersion, def.wrapType, def.crateDescription,
                              def.publisher, I.NewVersion()))
  }

  /** The generated `common_query`. */
  function CommonQuery(def: WrapDefinition, query: I.CommonQuery): (r: I.CommonResult)
    ensures query.AskMetadata? ==> r == Ok(Metadata(def))
    ensures !query.AskMetadata? && def.commonArms(query).None? ==> r == Err(I.UnsupportedSignal)
    ensures !query.AskMetadata? && def.commonArms(query).Some? ==> r == def.commonArms(query).value
  {
    match query
    case AskMetadata => Ok(Metadata(def))
    case _ =>
      match def.commonArms(query)
      case Some(answer) => answer
      case None => Err(I.UnsupportedSignal)
  }

  /** A wrap built with the attribute always passes the host's interface
      version gate: when the handshake carries its metadata, loading gets
      past the gate with exactly that metadata. */
  lemma GeneratedWrapPassesVersionGate(def: WrapDefinition, engine: WrapLoader.Engine,
                                       codec: WrapLoader.SignalCodec<I.CommonQuery, I.CommonResponse>, bytes: seq<bv8>)
    requires engine.compile(bytes).Ok? && engine.compile(bytes).value.signal.Some?
    requires var m := engine.compile(bytes).value;
      WrapLoader.SendSignalSpec(m.signal.value, codec, I.AskMetadata, m.memory).0
        == Ok(CommonQuery(def, I.AskMetadata).value)
    ensures WrapLoader.FromBytesSpec(engine, codec, bytes).Ok?
    ensures WrapLoader.FromBytesSpec(engine, codec, bytes).value.0 == Metadata(def).metadata
  {
  }
}
