/**
 * The receive side of the link as a function of one incoming chunk: the packet
 * state kept between notifications, how a chunk is read as a header or as body,
 * the CRC-32 check once the declared length is reached, and the routing of the
 * decoded body by packet type.
 */
module Reassembly {
  import opened Outcomes
  import opened Text
  import opened JsValue
  import Crc32

  /** `recievePackage.current`: header fields are kept as the decoded values they were read as. */
  datatype Packet = Packet(ptype: Value, checksum: Value, len: Value, deviceId: string, memory: seq<seq<byte>>)

  /** The reset value `{type: -1, checksum: 0, len: 0, id: "", memory: []}`. */
  const Sentinel: Packet := Packet(Num(-1), Num(0), Num(0), "", [])

  /** A declared checksum of (the number) 0 means no packet is in progress (`checksum !== 0` fails). */
  predicate Idle(p: Packet) {
    p.checksum == Num(0)
  }

  /** msgpack-lite's `decode`, as the receiver sees it: `None` when it throws. */
  type Unpack = seq<byte> -> Option<Value>

  /** `memory.reduce((n, {length}) => n + length, 0)`. */
  function Total(memory: seq<seq<byte>>): nat
    decreases |memory|
  {
    if memory == [] then 0 else Total(memory[..|memory| - 1]) + |memory[|memory| - 1]|
  }

  /** `total >= len`, with `len` coerced to a number; NaN compares false. */
  predicate Complete(memory: seq<seq<byte>>, len: Value) {
    var n := ToNumber(len);
    n.Some? && Total(memory) >= n.value
  }

  /** What a verified packet is handed to. */
  datatype Dispatch =
    | Nothing
    | ToCallbacks(key: Value, data: Value)   // tryCallbacks(Call_ID, decoded)
    | ToReceived(data: Value)                // setReceivedData(decoded)

  /**
   * Routing of a verified body by packet type: type 0 goes to the callbacks whose id is
   * its `Call_ID` (when it has one), type 4 replaces the received-data slot, any other
   * type is only logged. A body that fails to decode, or a null body read for `Call_ID`,
   * throws and dispatches nothing.
   */
  function Route(ptype: Value, decoded: Option<Value>): (d: Dispatch)
    ensures d.ToCallbacks? ==> ptype == Num(0) && decoded == Some(d.data) && !IsNullish(d.data)
                               && d.key == Get(d.data, "Call_ID") && d.key != Undefined
    ensures d.ToReceived? ==> ptype == Num(4) && decoded == Some(d.data)
    ensures ptype != Num(0) && ptype != Num(4) ==> d == Nothing
    ensures decoded.None? ==> d == Nothing
    ensures ptype == Num(0) && decoded.Some? && !IsNullish(decoded.value) && Get(decoded.value, "Call_ID") != Undefined
            ==> d == ToCallbacks(Get(decoded.value, "Call_ID"), decoded.value)
    ensures ptype == Num(4) && decoded.Some? ==> d == ToReceived(decoded.value)
  {
    if ptype == Num(0) then
      if decoded.None? || IsNullish(decoded.value) then Nothing
      else
        var callId := Get(decoded.value, "Call_ID");
        if callId != Undefined then ToCallbacks(callId, decoded.value) else Nothing
    else if ptype == Num(4) then
      if decoded.None? then Nothing else ToReceived(decoded.value)
    else Nothing
  }

  /** The dispatch of a packet whose accumulated chunks are `memory`: nothing unless the CRC-32 matches. */
  function Resolve(unpack: Unpack, ptype: Value, checksum: Value, memory: seq<seq<byte>>): (d: Dispatch)
    ensures d != Nothing ==> LooseEqualsNumber(checksum, Crc32.Checksum(Concat(memory)))
    ensures LooseEqualsNumber(checksum, Crc32.Checksum(Concat(memory))) ==> d == Route(ptype, unpack(Concat(memory)))
  {
    var data := Concat(memory);
    if LooseEqualsNumber(checksum, Crc32.Checksum(data)) then Route(ptype, unpack(data)) else Nothing
  }

  datatype Outcome = Outcome(packet: Packet, dispatch: Dispatch)

  /** One chunk through the state machine of `onDataUpdate`. */
  function Receive(unpack: Unpack, p: Packet, chunk: seq<byte>, deviceId: string): (r: Outcome)
    ensures Idle(p) ==> r.dispatch == Nothing && (r.packet == Sentinel || r.packet.memory == p.memory)
    ensures !Idle(p) ==> r.packet == Sentinel || r == Outcome(p.(memory := p.memory + [chunk]), Nothing)
    ensures r.dispatch != Nothing ==> r.packet == Sentinel
  {
    if !Idle(p) then
      var memory := p.memory + [chunk];
      if Complete(memory, p.len) then Outcome(Sentinel, Resolve(unpack, p.ptype, p.checksum, memory))
      else Outcome(p.(memory := memory), Nothing)
    else
      var header := unpack(chunk);
      if header.None? || IsNullish(header.value) then Outcome(Sentinel, Nothing)
      else
        var h := header.value;
        Outcome(p.(checksum := At(h, 2), len := At(h, 1), deviceId := deviceId, ptype := At(h, 0)), Nothing)
  }

  /**
   * The invariant the machine keeps: an idle state holds no chunks, and a packet in
   * progress that holds chunks is still short of its declared length.
   */
  predicate Valid(p: Packet) {
    && (Idle(p) ==> p.memory == [])
    && (!Idle(p) && p.memory != [] ==> !Complete(p.memory, p.len))
  }

  lemma SentinelValid()
    ensures Valid(Sentinel) && Idle(Sentinel)
  {
  }

  /** Every chunk keeps the invariant. */
  lemma ReceiveKeepsValid(unpack: Unpack, p: Packet, chunk: seq<byte>, deviceId: string)
    requires Valid(p)
    ensures Valid(Receive(unpack, p, chunk, deviceId).packet)
  {
  }

  /** While idle, a chunk is decoded as the header `[type, len, checksum]`, stored, and nothing is dispatched. */
  lemma IdleReadsHeader(unpack: Unpack, p: Packet, chunk: seq<byte>, deviceId: string, h: Value)
    requires Idle(p) && unpack(chunk) == Some(h) && !IsNullish(h)
    ensures Receive(unpack, p, chunk, deviceId)
            == Outcome(Packet(At(h, 0), At(h, 2), At(h, 1), deviceId, p.memory), Nothing)
  {
  }

  /** A header declaring checksum 0 leaves the machine idle, so a body whose CRC-32 is 0 can never be delivered. */
  lemma ZeroChecksumHeaderStaysIdle(unpack: Unpack, p: Packet, chunk: seq<byte>, deviceId: string)
    requires Idle(p)
    requires unpack(chunk).Some? && !IsNullish(unpack(chunk).value) && At(unpack(chunk).value, 2) == Num(0)
    ensures Idle(Receive(unpack, p, chunk, deviceId).packet)
  {
  }

  /** A header that fails to decode, or decodes to null, resets the state and dispatches nothing. */
  lemma BadHeaderResets(unpack: Unpack, p: Packet, chunk: seq<byte>, deviceId: string)
    requires Idle(p)
    requires unpack(chunk).None? || IsNullish(unpack(chunk).value)
    ensures Receive(unpack, p, chunk, deviceId) == Outcome(Sentinel, Nothing)
  {
  }

  /** While the total stays below the declared length, the chunk is appended and nothing else changes. */
  lemma ShortBodyAccumulates(unpack: Unpack, p: Packet, chunk: seq<byte>, deviceId: string)
    requires !Idle(p) && !Complete(p.memory + [chunk], p.len)
    ensures Receive(unpack, p, chunk, deviceId) == Outcome(p.(memory := p.memory + [chunk]), Nothing)
  {
  }

  /**
   * Once the total reaches the declared length, the state resets whatever happens; the
   * decoded body is routed exactly when the CRC-32 of all accumulated bytes, excess
   * included, equals the declared checksum.
   */
  lemma CompleteBodyResolves(unpack: Unpack, p: Packet, chunk: seq<byte>, deviceId: string)
    requires !Idle(p) && Complete(p.memory + [chunk], p.len)
    ensures var o := Receive(unpack, p, chunk, deviceId);
            var data := Concat(p.memory + [chunk]);
            && o.packet == Sentinel
            && (LooseEqualsNumber(p.checksum, Crc32.Checksum(data)) ==> o.dispatch == Route(p.ptype, unpack(data)))
            && (!LooseEqualsNumber(p.checksum, Crc32.Checksum(data)) ==> o.dispatch == Nothing)
  {
  }

  /** Only a verified body is ever dispatched, and only on the chunk that completes it. */
  lemma DispatchNeedsChecksum(unpack: Unpack, p: Packet, chunk: seq<byte>, deviceId: string)
    requires Receive(unpack, p, chunk, deviceId).dispatch != Nothing
    ensures !Idle(p) && Complete(p.memory + [chunk], p.len)
    ensures LooseEqualsNumber(p.checksum, Crc32.Checksum(Concat(p.memory + [chunk])))
    ensures Receive(unpack, p, chunk, deviceId).packet == Sentinel
  {
  }

  lemma {:induction false} TotalAppend(a: seq<seq<byte>>, b: seq<seq<byte>>)
    ensures Total(a + b) == Total(a) + Total(b)
    decreases |b|
  {
    if b == [] {
      assert a + b == a;
    } else {
      var b' := b[..|b| - 1];
      assert (a + b)[..|a + b| - 1] == a + b';
      TotalAppend(a, b');
    }
  }

  /** Feeding chunks one after the other: the final state and the dispatch of every chunk. */
  function Run(unpack: Unpack, p: Packet, chunks: seq<seq<byte>>, deviceId: string): (r: (Packet, seq<Dispatch>))
    ensures |r.1| == |chunks|
    decreases |chunks|
  {
    if chunks == [] then (p, [])
    else
      var o := Receive(unpack, p, chunks[0], deviceId);
      var rest := Run(unpack, o.packet, chunks[1..], deviceId);
      (rest.0, [o.dispatch] + rest.1)
  }

  function Nothings(k: nat): (r: seq<Dispatch>)
    ensures |r| == k && forall i :: 0 <= i < k ==> r[i] == Nothing
  {
    seq(k, _ => Nothing)
  }

  lemma RunCompletes(unpack: Unpack, p: Packet, c: seq<byte>, deviceId: string)
    requires !Idle(p) && Complete(p.memory + [c], p.len)
    ensures Run(unpack, p, [c], deviceId) == (Sentinel, [Resolve(unpack, p.ptype, p.checksum, p.memory + [c])])
  {
    var o := Receive(unpack, p, c, deviceId);
    assert o == Outcome(Sentinel, Resolve(unpack, p.ptype, p.checksum, p.memory + [c]));
    assert [c][0] == c && [c][1..] == [];
    var rest := Run(unpack, o.packet, [], deviceId);
    assert rest == (Sentinel, []);
    assert Run(unpack, p, [c], deviceId) == (rest.0, [o.dispatch] + rest.1);
    assert [o.dispatch] + rest.1 == [o.dispatch];
  }

  lemma RunAccumulates(unpack: Unpack, p: Packet, cs: seq<seq<byte>>, deviceId: string)
    requires !Idle(p) && cs != [] && !Complete(p.memory + [cs[0]], p.len)
    ensures var r := Run(unpack, p.(memory := p.memory + [cs[0]]), cs[1..], deviceId);
            Run(unpack, p, cs, deviceId) == (r.0, [Nothing] + r.1)
  {
  }

  /** The byte counts along the chunks: the first chunk plus the rest up to the last one. */
  lemma TotalsOfFirst(m: seq<seq<byte>>, cs: seq<seq<byte>>)
    requires |cs| >= 2
    ensures Total(m + [cs[0]]) + Total(cs[1..][..|cs| - 2]) == Total(m) + Total(cs[..|cs| - 1])
    ensures Total(m + [cs[0]]) + Total(cs[1..]) == Total(m) + Total(cs)
    ensures Total(m + [cs[0]]) <= Total(m) + Total(cs[..|cs| - 1])
  {
    var front := cs[..|cs| - 1];
    assert front == [cs[0]] + cs[1..][..|cs| - 2];
    assert cs == [cs[0]] + cs[1..];
    assert m + [cs[0]] + cs[1..][..|cs| - 2] == m + front;
    assert m + [cs[0]] + cs[1..] == m + cs;
    TotalAppend(m + [cs[0]], cs[1..][..|cs| - 2]);
    TotalAppend(m + [cs[0]], cs[1..]);
    TotalAppend(m, front);
    TotalAppend(m, cs);
  }

  /**
   * Body chunks fed to a packet in progress: every chunk before the one that reaches the
   * declared length is only stored, and that one resolves the whole accumulation.
   */
  lemma {:induction false} RunBody(unpack: Unpack, p: Packet, cs: seq<seq<byte>>, deviceId: string, n: int)
    requires !Idle(p) && p.len == Num(n) && cs != []
    requires Total(p.memory) + Total(cs[..|cs| - 1]) < n <= Total(p.memory) + Total(cs)
    ensures Run(unpack, p, cs, deviceId) == (Sentinel, Nothings(|cs| - 1) + [Resolve(unpack, p.ptype, p.checksum, p.memory + cs)])
    decreases |cs|
  {
    if |cs| == 1 {
      RunBodyLast(unpack, p, cs, deviceId, n);
    } else {
      RunBodyShift(p, cs, n);
      var q := p.(memory := p.memory + [cs[0]]);
      RunBody(unpack, q, cs[1..], deviceId, n);
      RunBodyStep(unpack, p, cs, deviceId, Resolve(unpack, p.ptype, p.checksum, p.memory + cs));
    }
  }

  /** The base case of `RunBody`: a single chunk that reaches the length. */
  lemma RunBodyLast(unpack: Unpack, p: Packet, cs: seq<seq<byte>>, deviceId: string, n: int)
    requires !Idle(p) && p.len == Num(n) && |cs| == 1
    requires Total(p.memory) < n <= Total(p.memory) + Total(cs)
    ensures Run(unpack, p, cs, deviceId) == (Sentinel, Nothings(0) + [Resolve(unpack, p.ptype, p.checksum, p.memory + cs)])
  {
    assert cs == [cs[0]];
    TotalAppend(p.memory, cs);
    assert Complete(p.memory + [cs[0]], p.len);
    RunCompletes(unpack, p, cs[0], deviceId);
    assert Nothings(0) + [Resolve(unpack, p.ptype, p.checksum, p.memory + cs)] == [Resolve(unpack, p.ptype, p.checksum, p.memory + cs)];
  }

  /** Storing the first of several body chunks: the packet is not complete yet, and the rest of the chunks meet the bounds of `RunBody`. */
  lemma RunBodyShift(p: Packet, cs: seq<seq<byte>>, n: int)
    requires !Idle(p) && p.len == Num(n) && |cs| >= 2
    requires Total(p.memory) + Total(cs[..|cs| - 1]) < n <= Total(p.memory) + Total(cs)
    ensures !Complete(p.memory + [cs[0]], p.len)
    ensures var t := cs[1..];
            && Total(p.memory + [cs[0]]) + Total(t[..|t| - 1]) < n <= Total(p.memory + [cs[0]]) + Total(t)
            && (p.memory + [cs[0]]) + t == p.memory + cs
  {
    TotalsOfFirst(p.memory, cs);
    var t := cs[1..];
    assert t[..|t| - 1] == cs[1..][..|cs| - 2];
    assert cs == [cs[0]] + t;
  }

  lemma RunBodyStep(unpack: Unpack, p: Packet, cs: seq<seq<byte>>, deviceId: string, x: Dispatch)
    requires !Idle(p) && |cs| >= 2 && !Complete(p.memory + [cs[0]], p.len)
    requires Run(unpack, p.(memory := p.memory + [cs[0]]), cs[1..], deviceId) == (Sentinel, Nothings(|cs| - 2) + [x])
    ensures Run(unpack, p, cs, deviceId) == (Sentinel, Nothings(|cs| - 1) + [x])
  {
    RunAccumulates(unpack, p, cs, deviceId);
    assert [Nothing] + (Nothings(|cs| - 2) + [x]) == Nothings(|cs| - 1) + [x];
  }

  /**
   * A whole packet delivered in order from the idle state: a header chunk declaring
   * `[t, n, c]`, then body chunks whose total first reaches `n` on the last one. The
   * machine ends idle; only the last chunk dispatches, and it dispatches the routed
   * body exactly when `c` is the CRC-32 of all the body bytes.
   */
  lemma DeliverPacket(unpack: Unpack, header: seq<byte>, body: seq<seq<byte>>, deviceId: string, t: int, n: int, c: int)
    requires unpack(header) == Some(Arr([Num(t), Num(n), Num(c)])) && c != 0
    requires body != [] && Total(body[..|body| - 1]) < n <= Total(body)
    ensures var r := Run(unpack, Sentinel, [header] + body, deviceId);
            var data := Concat(body);
            && r.0 == Sentinel
            && r.1 == Nothings(|body|) + [if c == Crc32.Checksum(data) then Route(Num(t), unpack(data)) else Nothing]
  {
    var x := Resolve(unpack, Num(t), Num(c), body);
    HeaderThenBody(unpack, header, body, deviceId, t, n, c);
    ResolveNumeric(unpack, t, c, body);
    var front := Nothings(|body| - 1);
    assert [Nothing] + front == Nothings(|body|);
    assert [Nothing] + (front + [x]) == ([Nothing] + front) + [x];
  }

  /** The run behind `DeliverPacket`, with the dispatch of the last chunk left as `Resolve`. */
  lemma HeaderThenBody(unpack: Unpack, header: seq<byte>, body: seq<seq<byte>>, deviceId: string, t: int, n: int, c: int)
    requires unpack(header) == Some(Arr([Num(t), Num(n), Num(c)])) && c != 0
    requires body != [] && Total(body[..|body| - 1]) < n <= Total(body)
    ensures Run(unpack, Sentinel, [header] + body, deviceId)
            == (Sentinel, [Nothing] + (Nothings(|body| - 1) + [Resolve(unpack, Num(t), Num(c), body)]))
  {
    var p := Packet(Num(t), Num(c), Num(n), deviceId, []);
    assert Receive(unpack, Sentinel, header, deviceId) == Outcome(p, Nothing);
    RunFirst(unpack, Sentinel, header, body, deviceId);
    assert p.memory + body == body;
    RunBody(unpack, p, body, deviceId, n);
  }

  /** The first chunk of a run is received on its own; the run goes on from the state it leaves. */
  lemma RunFirst(unpack: Unpack, p: Packet, c: seq<byte>, cs: seq<seq<byte>>, deviceId: string)
    ensures var o := Receive(unpack, p, c, deviceId);
            var r := Run(unpack, o.packet, cs, deviceId);
            Run(unpack, p, [c] + cs, deviceId) == (r.0, [o.dispatch] + r.1)
  {
    assert ([c] + cs)[0] == c && ([c] + cs)[1..] == cs;
  }

  /** With a numeric declared checksum the check is plain equality with the CRC-32. */
  lemma ResolveNumeric(unpack: Unpack, t: int, c: int, memory: seq<seq<byte>>)
    ensures var data := Concat(memory);
            Resolve(unpack, Num(t), Num(c), memory) == if c == Crc32.Checksum(data) then Route(Num(t), unpack(data)) else Nothing
  {
    LooseEqualsNumberOnNumbers(c, Crc32.Checksum(Concat(memory)));
  }

  /** A header whose length is not a number wedges the machine: every later chunk is only appended, and nothing is ever dispatched. */
  lemma {:induction false} NonNumericLengthNeverCompletes(unpack: Unpack, p: Packet, cs: seq<seq<byte>>, deviceId: string)
    requires !Idle(p) && ToNumber(p.len).None?
    ensures Run(unpack, p, cs, deviceId) == (p.(memory := p.memory + cs), Nothings(|cs|))
    decreases |cs|
  {
    if cs == [] {
      assert p.memory + cs == p.memory;
    } else {
      var q := p.(memory := p.memory + [cs[0]]);
      NonNumericLengthNeverCompletes(unpack, q, cs[1..], deviceId);
      assert q.memory + cs[1..] == p.memory + cs by { assert cs == [cs[0]] + cs[1..]; }
      assert [Nothing] + Nothings(|cs| - 1) == Nothings(|cs|);
    }
  }

  /**
   * A header that decodes to an array too short to hold a numeric length (`[]`, `[type]`),
   * or to any other value without one, while its checksum slot is not the number 0, wedges
   * the receiver: the packet stays in progress, every later chunk is appended, and nothing
   * is ever dispatched again.
   */
  lemma MalformedHeaderWedges(unpack: Unpack, chunk: seq<byte>, cs: seq<seq<byte>>, deviceId: string, h: Value)
    requires unpack(chunk) == Some(h) && !IsNullish(h)
    requires At(h, 2) != Num(0) && ToNumber(At(h, 1)).None?
    ensures Run(unpack, Sentinel, [chunk] + cs, deviceId)
            == (Packet(At(h, 0), At(h, 2), At(h, 1), deviceId, cs), Nothings(|cs| + 1))
  {
    var q := Packet(At(h, 0), At(h, 2), At(h, 1), deviceId, []);
    assert Receive(unpack, Sentinel, chunk, deviceId) == Outcome(q, Nothing);
    assert ([chunk] + cs)[1..] == cs;
    NonNumericLengthNeverCompletes(unpack, q, cs, deviceId);
    assert q.memory + cs == cs;
    assert [Nothing] + Nothings(|cs|) == Nothings(|cs| + 1);
  }

  /** An empty array, the header `0x90` decodes to, is such a header. */
  lemma EmptyHeaderWedges(unpack: Unpack, chunk: seq<byte>, cs: seq<seq<byte>>, deviceId: string)
    requires unpack(chunk) == Some(Arr([]))
    ensures Run(unpack, Sentinel, [chunk] + cs, deviceId) == (Packet(Undefined, Undefined, Undefined, deviceId, cs), Nothings(|cs| + 1))
  {
    MalformedHeaderWedges(unpack, chunk, cs, deviceId, Arr([]));
  }

  /** A state from which the receiver can get back to idle: idle, or a packet whose length is a number. */
  predicate Live(p: Packet) {
    Idle(p) || ToNumber(p.len).Some?
  }

  /**
   * The receive step with the header checked: a header without a numeric length is
   * rejected like one that fails to decode, and the state resets.
   */
  function ReceiveChecked(unpack: Unpack, p: Packet, chunk: seq<byte>, deviceId: string): (r: Outcome)
    ensures Live(r.packet)
    ensures r.dispatch == Receive(unpack, p, chunk, deviceId).dispatch
    ensures Valid(p) ==> Valid(r.packet)
  {
    var o := Receive(unpack, p, chunk, deviceId);
    if Live(o.packet) then o else Outcome(Sentinel, Nothing)
  }

  /** The checked step agrees with the written one on every well-formed header and every body chunk. */
  lemma CheckedAgrees(unpack: Unpack, p: Packet, chunk: seq<byte>, deviceId: string)
    requires Live(p) && (Idle(p) ==> Live(Receive(unpack, p, chunk, deviceId).packet))
    ensures ReceiveChecked(unpack, p, chunk, deviceId) == Receive(unpack, p, chunk, deviceId)
  {
  }

  /** With the check, a packet in progress always ends: one chunk at least as long as the declared length completes it. */
  lemma CheckedPacketEnds(unpack: Unpack, p: Packet, chunk: seq<byte>, deviceId: string)
    requires Live(p) && !Idle(p) && |chunk| >= ToNumber(p.len).value
    ensures ReceiveChecked(unpack, p, chunk, deviceId).packet == Sentinel
  {
    TotalAppend(p.memory, [chunk]);
    assert [chunk][..0] == [];
    assert Total([chunk]) == |chunk|;
    assert Complete(p.memory + [chunk], p.len);
  }

  /** With the check, the header `0x90` leaves the receiver idle, so the next chunk is read as a header again. */
  lemma CheckedEmptyHeaderResets(unpack: Unpack, chunk: seq<byte>, deviceId: string)
    requires unpack(chunk) == Some(Arr([]))
    ensures ReceiveChecked(unpack, Sentinel, chunk, deviceId) == Outcome(Sentinel, Nothing)
  {
  }
}
