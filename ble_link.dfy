/**
 * The state `useBLE` keeps for the link to the box: the pending-callback list,
 * the packet being reassembled, the last SMARTfloor data, the notification
 * counter, and the two ways of writing to the box. Handler functions are
 * recorded as invocations; the radio write itself is the returned value.
 */
module BleLink {
  import opened Outcomes
  import opened Text
  import opened JsValue
  import Base64
  import Crc32
  import opened Callbacks
  import Reassembly

  /** The initial `receivedData`. */
  const InitialReceived: Value := Obj([("type", Num(-1)), ("data", Null)])

  /** A notification that `onDataUpdate` drops before touching anything: an error, or no (or an empty) value. */
  predicate Dropped(error: bool, value: Option<string>) {
    error || value.None? || value.value == ""
  }

  /** The object `sendCommand` packs: `{id, command: command.toString(), message}`. */
  function CommandMessage(id: string, command: int, message: Value): (m: Value)
    ensures m.Obj? && Get(m, "id") == Str(id) && Get(m, "command") == Str(IntToString(command))
    ensures Get(m, "message") == message
  {
    var entries := [("id", Str(id)), ("command", Str(IntToString(command))), ("message", message)];
    assert "id" != "command" && "id" != "message" && "command" != "message" by {
      assert "id"[0] != "command"[0] && "command"[0] != "message"[0] && "id"[0] != "message"[0];
    }
    assert Lookup(entries, "command") == Lookup(entries[1..], "command");
    assert Lookup(entries, "message") == Lookup(entries[1..], "message") == Lookup(entries[1..][1..], "message");
    Obj(entries)
  }

  /** The text `askForSDCard` writes before base64: the request id, a bar, the decimal request type. */
  function SdRequestText(id: string, ctype: int): (text: string)
    requires IsDigits(id)
    ensures IsLatin1(text)
    ensures |text| > |id| && text[..|id|] == id && text[|id|] == '|'
  {
    var head := id + "|";
    assert IsLatin1(head) by {
      forall i | 0 <= i < |head|
        ensures head[i] as int < 256
      {
        if i < |id| {
          assert head[i] == id[i];
        }
      }
    }
    Latin1Concat(head, IntToString(ctype));
    var text := head + IntToString(ctype);
    assert text[..|id|] == head[..|id|] == id;
    text
  }

  /**
   * The loop of `tryCallbacks`: call every entry registered under `key`, in list order,
   * and collect the ids of the one-time ones among them.
   */
  method WalkCallbacks(cbs: seq<Callback>, key: Value, data: Value) returns (calls: seq<Invocation>, del: seq<string>)
    ensures calls == Invoked(cbs, key, data)
    ensures del == DeletedIds(cbs, key)
  {
    calls, del := [], [];
    var i := 0;
    while i < |cbs|
      invariant 0 <= i <= |cbs|
      invariant calls == Invoked(cbs[..i], key, data)
      invariant del == DeletedIds(cbs[..i], key)
    {
      var cb := cbs[i];
      ghost var seen := cbs[..i + 1];
      assert seen[..i] == cbs[..i] && seen[i] == cb;
      assert Invoked(seen, key, data) == calls + (if Matches(cb, key) then [Invocation(cb.handler, data)] else []);
      assert DeletedIds(seen, key) == del + (if Matches(cb, key) && cb.oneTime then [cb.id] else []);
      if Matches(cb, key) {
        calls := calls + [Invocation(cb.handler, data)];
        if cb.oneTime {
          del := del + [cb.id];
        }
      }
      i := i + 1;
    }
    assert cbs[..i] == cbs;
  }

  class Link {
    /** msgpack-lite's `encode` and `decode` (`None` when decoding throws). */
    const pack: Value -> seq<byte>
    const unpack: Reassembly.Unpack

    /** `revieceCallbacks`. */
    var callbacks: seq<Callback>
    /** `recievePackage.current`, field by field. */
    var ptype: Value
    var checksum: Value
    var len: Value
    var deviceId: string
    var memory: seq<seq<byte>>
    /** `receivedData`. */
    var received: Value
    /** `notiviedData`. */
    var notified: nat
    /** Every handler call made so far, in order. */
    var invocations: seq<Invocation>

    function Packet(): Reassembly.Packet
      reads this
    {
      Reassembly.Packet(ptype, checksum, len, deviceId, memory)
    }

    predicate Valid()
      reads this
    {
      Reassembly.Valid(Packet())
    }

    /** What a dispatch did to the callback list, the invocation log and the received-data slot. */
    predicate Delivered(d: Reassembly.Dispatch, cbs0: seq<Callback>, inv0: seq<Invocation>, rec0: Value)
      reads this
    {
      match d
      case Nothing => callbacks == cbs0 && invocations == inv0 && received == rec0
      case ToCallbacks(key, data) =>
        && callbacks == Remaining(cbs0, key)
        && invocations == inv0 + Invoked(cbs0, key, data)
        && received == rec0
      case ToReceived(data) => callbacks == cbs0 && invocations == inv0 && received == data
    }

    constructor(pack: Value -> seq<byte>, unpack: Reassembly.Unpack)
      ensures this.pack == pack && this.unpack == unpack
      ensures Packet() == Reassembly.Sentinel && Valid()
      ensures callbacks == [] && invocations == [] && received == InitialReceived && notified == 0
    {
      this.pack := pack;
      this.unpack := unpack;
      callbacks := [];
      ptype, checksum, len, deviceId, memory := Num(-1), Num(0), Num(0), "", [];
      received := InitialReceived;
      notified := 0;
      invocations := [];
    }

    /** `recievePackage.current = {type: -1, checksum: 0, len: 0, id: "", memory: []}`. */
    method Reset()
      modifies this`ptype, this`checksum, this`len, this`deviceId, this`memory
      ensures Packet() == Reassembly.Sentinel
    {
      ptype, checksum, len, deviceId, memory := Num(-1), Num(0), Num(0), "", [];
    }

    /**
     * `registerCallback(callback)` as the context type declares it: append the entry.
     * The object the hook returns has no such member (see `Plates.HookProvidesRegister`);
     * this is the member the screens expect.
     */
    method RegisterCallback(cb: Callback)
      modifies this`callbacks
      ensures callbacks == old(callbacks) + [cb]
    {
      callbacks := callbacks + [cb];
    }

    /**
     * `tryCallbacks(key, data)`: call every entry registered under `key`, in list order,
     * collecting the ids of the one-time ones, then drop every entry with a collected id.
     */
    method TryCallbacks(key: Value, data: Value)
      modifies this`callbacks, this`invocations
      ensures invocations == old(invocations) + Invoked(old(callbacks), key, data)
      ensures callbacks == Remaining(old(callbacks), key)
    {
      var calls, del := WalkCallbacks(callbacks, key, data);
      invocations := invocations + calls;
      callbacks := WithoutIds(callbacks, del);
    }

    /**
     * `onDataUpdate(error, characteristic)` with the characteristic's base64 value and
     * device id: one notification through the reassembly state machine. An exception
     * anywhere in the handler lands in the catch, which resets the packet state.
     */
    method OnDataUpdate(error: bool, value: Option<string>, dev: string)
      requires Valid()
      modifies this
      ensures Valid()
      ensures Dropped(error, value) ==> unchanged(this)
      ensures !Dropped(error, value) ==>
                && notified == old(notified) + 1
                && var o := Reassembly.Receive(unpack, old(Packet()), Base64.Decode(value.value), dev);
                   Packet() == o.packet && Delivered(o.dispatch, old(callbacks), old(invocations), old(received))
    {
      if error || value.None? || value.value == "" {
        return;
      }
      notified := notified + 1;
      var chunk := Base64.Decode(value.value);
      Reassembly.ReceiveKeepsValid(unpack, Packet(), chunk, dev);
      if checksum != Num(0) {
        ReceiveBody(chunk);
      } else {
        ReadHeader(chunk, dev);
      }
    }

    /** The frame a chunk may touch: the packet state and what a dispatch changes. */
    method ReceiveBody(chunk: seq<byte>)
      requires !Reassembly.Idle(Packet())
      modifies this`ptype, this`checksum, this`len, this`deviceId, this`memory
      modifies this`callbacks, this`invocations, this`received
      ensures var o := Reassembly.Receive(unpack, old(Packet()), chunk, deviceId);
              Packet() == o.packet && Delivered(o.dispatch, old(callbacks), old(invocations), old(received))
    {
      memory := memory + [chunk];
      if Reassembly.Complete(memory, len) {
        Finish();
      }
    }

    /** The last chunk is in: check the CRC-32, route the body, and reset the packet state. */
    method Finish()
      modifies this`ptype, this`checksum, this`len, this`deviceId, this`memory
      modifies this`callbacks, this`invocations, this`received
      ensures Packet() == Reassembly.Sentinel
      ensures Delivered(Reassembly.Resolve(unpack, old(ptype), old(checksum), old(memory)), old(callbacks), old(invocations), old(received))
    {
      var data := Concat(memory);
      var crc := Crc32.Checksum(data);
      if !LooseEqualsNumber(checksum, crc) {
        Reset();
        return;
      }
      if ptype == Num(0) {
        var decoded := unpack(data);
        if decoded.None? || IsNullish(decoded.value) {
          // decode throws, or reading `Call_ID` of null throws
          Reset();
          return;
        }
        var callId := Get(decoded.value, "Call_ID");
        if callId != Undefined {
          TryCallbacks(callId, decoded.value);
        }
      } else if ptype == Num(4) {
        var decoded := unpack(data);
        if decoded.None? {
          Reset();
          return;
        }
        received := decoded.value;
      }
      // the body is decoded once more for the log; a throw there also ends in the reset
      Reset();
    }

    /** An idle state reads the chunk as the header `[type, len, checksum]`. */
    method ReadHeader(chunk: seq<byte>, dev: string)
      requires Reassembly.Idle(Packet())
      modifies this`ptype, this`checksum, this`len, this`deviceId, this`memory
      ensures Packet() == Reassembly.Receive(unpack, old(Packet()), chunk, dev).packet
    {
      var header := unpack(chunk);
      if header.None? || IsNullish(header.value) {
        // decode throws, or indexing null throws
        Reset();
        return;
      }
      checksum := At(header.value, 2);
      len := At(header.value, 1);
      deviceId := dev;
      ptype := At(header.value, 0);
    }

    /**
     * `askForSDCard({oneTime, type, func})`: draw an id below 100, register the callback
     * under it, and return the base64 text written to the data characteristic.
     */
    method AskForSdCard(oneTime: bool, ctype: int, handler: HandlerId, draw: nat) returns (value: string)
      requires draw < 100
      modifies this`callbacks
      ensures callbacks == old(callbacks) + [Callback(oneTime, NatToString(draw), ctype, handler)]
      ensures value == Base64.Encode(CharCodes(SdRequestText(NatToString(draw), ctype)))
    {
      var id := NatToString(draw);
      var request := Callback(oneTime, id, ctype, handler);
      var text := SdRequestText(id, ctype);
      value := Base64.Encode(CharCodes(text));
      callbacks := callbacks + [request];
    }

    /**
     * `sendCommand(command, message, callback?)`: draw an id below 100, register the
     * callback (if any) under it with the command as its type, and return the base64 of
     * the packed command object.
     */
    method SendCommand(command: int, message: Value, callback: Option<(bool, HandlerId)>, draw: nat) returns (value: string)
      requires draw < 100
      modifies this`callbacks
      ensures callback.None? ==> callbacks == old(callbacks)
      ensures callback.Some? ==>
                callbacks == old(callbacks) + [Callback(callback.value.0, NatToString(draw), command, callback.value.1)]
      ensures value == Base64.Encode(pack(CommandMessage(NatToString(draw), command, message)))
    {
      var id := NatToString(draw);
      if callback.Some? {
        var request := Callback(callback.value.0, id, command, callback.value.1);
        callbacks := callbacks + [request];
      }
      var bytes := pack(Obj([("id", Str(id)), ("command", Str(IntToString(command))), ("message", message)]));
      var binary := FromCharCodes(bytes);
      CharCodesFromCharCodes(bytes);
      value := Base64.Encode(CharCodes(binary));
    }
  }

  /**
   * A non-empty chunk the box sends as base64 is not dropped, and `Buffer.from(value,
   * 'base64')` hands the state machine exactly that chunk.
   */
  lemma NotificationCarriesChunk(c: seq<byte>)
    requires c != []
    ensures !Dropped(false, Some(Base64.Encode(c)))
    ensures Base64.Decode(Base64.Encode(c)) == c
  {
    Base64.DecodeEncode(c);
    Base64.EncodeNonEmpty(c);
  }

  /** The text after the bar reads back as the request type: its digits, after a '-' when negative. */
  predicate TypeReadsBack(t: string, ctype: int) {
    && (ctype >= 0 ==> IsDigits(t) && ParseNat(t) == ctype)
    && (ctype < 0 ==> |t| > 1 && t[0] == '-' && IsDigits(t[1..]) && ParseNat(t[1..]) == -ctype)
  }

  /** Everything after the bar of the request text is the request type in decimal. */
  lemma SdRequestType(id: string, ctype: int)
    requires IsDigits(id)
    ensures TypeReadsBack(SdRequestText(id, ctype)[|id| + 1..], ctype)
  {
    var t := SdRequestText(id, ctype)[|id| + 1..];
    assert t == IntToString(ctype);
    if ctype >= 0 {
      ParseNatToString(ctype);
    } else {
      assert t[1..] == NatToString(-ctype);
      ParseNatToString(-ctype);
    }
  }

  /**
   * The box reads back what `askForSDCard` wrote: base64-decoding the value gives the
   * text, whose leading one or two digits, up to the bar, are the drawn id, and whose
   * rest is the request type.
   */
  lemma SdRequestRoundTrip(draw: nat, ctype: int)
    requires draw < 100
    ensures var id := NatToString(draw);
            var text := SdRequestText(id, ctype);
            && FromCharCodes(Base64.Decode(Base64.Encode(CharCodes(text)))) == text
            && 1 <= |id| <= 2 && text[|id|] == '|' && ParseNat(text[..|id|]) == draw
    ensures TypeReadsBack(SdRequestText(NatToString(draw), ctype)[|NatToString(draw)| + 1..], ctype)
  {
    var id := NatToString(draw);
    var text := SdRequestText(id, ctype);
    Base64.DecodeEncode(CharCodes(text));
    FromCharCodesOfCharCodes(text);
    SmallNatLength(draw);
    ParseNatToString(draw);
    assert text[..|id|] == id;
    SdRequestType(id, ctype);
  }

  /**
   * With a codec that reads back what it writes, the box recovers the command object
   * from what `sendCommand` wrote: its id, its command (as decimal text) and its message.
   */
  lemma CommandRoundTrip(pack: Value -> seq<byte>, unpack: Reassembly.Unpack, id: string, command: int, message: Value)
    requires unpack(pack(CommandMessage(id, command, message))) == Some(CommandMessage(id, command, message))
    ensures var m := unpack(Base64.Decode(Base64.Encode(pack(CommandMessage(id, command, message)))));
            && m.Some? && m.value.Obj?
            && Get(m.value, "id") == Str(id) && Get(m.value, "command") == Str(IntToString(command))
            && Get(m.value, "message") == message
  {
    Base64.DecodeEncode(pack(CommandMessage(id, command, message)));
  }

  /**
   * A command sent with a one-time callback, answered by a verified type-0 packet whose
   * `Call_ID` is the request id: the answer is routed to that id, the handler runs with
   * the answer, and a second answer with the same id runs nothing.
   */
  lemma OneTimeReply(cbs: seq<Callback>, id: string, command: int, h: HandlerId, reply: Value, again: Value)
    requires reply.Obj? && Get(reply, "Call_ID") == Str(id)
    ensures Reassembly.Route(Num(0), Some(reply)) == Reassembly.ToCallbacks(Str(id), reply)
    ensures var registered := cbs + [Callback(true, id, command, h)];
            && Invoked(registered, Str(id), reply) == Invoked(cbs, Str(id), reply) + [Invocation(h, reply)]
            && Invoked(Remaining(registered, Str(id)), Str(id), again) == []
  {
    var registered := cbs + [Callback(true, id, command, h)];
    assert registered[..|registered| - 1] == cbs;
    assert Matches(registered[|cbs|], Str(id)) && registered[|cbs|].oneTime;
    OneTimeFiresOnce(registered, Str(id), again);
  }
}
