/**
 * The plate overview of the modal screen: six plates whose `visible` flag follows
 * the SET_VOLTAGE_PORT answers of the box, and the two registrations that deliver
 * those answers.
 */
module Plates {
  import opened Text
  import opened JsValue
  import opened Outcomes
  import opened Callbacks
  import BleTypes
  import Base64
  import BleLink

  const PlateCount: nat := 6

  /** The fields every plate starts with. */
  const InitialFields: seq<int> := [200, 255, 190, 127, 128, 128, 128, 128]

  /** One entry of `puzzleFields`: `visible` holds whatever value the box sent. */
  datatype Plate = Plate(visible: Value, fields: seq<int>)

  const InitialPlate: Plate := Plate(Bool(false), InitialFields)

  /** The slot the key at 0-based position `k` writes: `k - 1`, with position 0 wrapping to the last plate. */
  function Slot(k: nat): (i: nat)
    ensures k == 0 ==> i == PlateCount - 1
    ensures k > 0 ==> i + 1 == k
  {
    if k == 0 then 5 else k - 1
  }

  /** The plates after the bulk writes of the given keys, each in turn. */
  function BulkWrites(ps: seq<Plate>, entries: seq<(string, Value)>): (r: seq<Plate>)
    requires |ps| == PlateCount && |entries| <= PlateCount + 1
    ensures |r| == PlateCount
    decreases |entries|
  {
    if entries == [] then ps
    else
      var k := |entries| - 1;
      var prev := BulkWrites(ps, entries[..k]);
      prev[Slot(k) := prev[Slot(k)].(visible := entries[k].1)]
  }

  /** What a SET_VOLTAGE_PORT answer does: whether the update ran to the end, and the plates afterwards. */
  datatype Update = Update(ok: bool, plates: seq<Plate>)

  /**
   * The answer handler on the plate list. Reading a member of null throws. With a
   * `platenumber`, plate `platenumber - 1` takes `connected`, and an index outside the
   * six plates throws. Otherwise every key writes its slot in key order; a key at
   * position 7 or later indexes past the list and throws, keeping the writes before it.
   */
  function VoltagePortUpdate(ps: seq<Plate>, data: Value): (u: Update)
    requires |ps| == PlateCount
    ensures |u.plates| == PlateCount
    ensures IsNullish(data) ==> u == Update(false, ps)
    ensures !IsNullish(data) && Get(data, "platenumber") != Undefined ==>
              (u.ok <==> ToNumber(Get(data, "platenumber")).Some?
                         && 1 <= ToNumber(Get(data, "platenumber")).value <= PlateCount)
    ensures !IsNullish(data) && Get(data, "platenumber") == Undefined ==> (u.ok <==> |Entries(data)| <= PlateCount + 1)
    ensures !u.ok && !IsNullish(data) && Get(data, "platenumber") != Undefined ==> u.plates == ps
  {
    if IsNullish(data) then Update(false, ps)
    else
      var plate := Get(data, "platenumber");
      if plate != Undefined then
        var n := ToNumber(plate);
        if n.Some? && 1 <= n.value <= PlateCount then
          Update(true, ps[n.value - 1 := ps[n.value - 1].(visible := Get(data, "connected"))])
        else Update(false, ps)
      else
        var entries := Entries(data);
        if |entries| <= PlateCount + 1 then Update(true, BulkWrites(ps, entries))
        else Update(false, BulkWrites(ps, entries[..PlateCount + 1]))
  }

  /** The `puzzleFields` state, mutated in place by the answer handler. */
  class PlateBoard {
    const plates: array<Plate>

    constructor()
      ensures fresh(plates) && plates.Length == PlateCount
      ensures forall i :: 0 <= i < plates.Length ==> plates[i] == InitialPlate
    {
      plates := new Plate[PlateCount](_ => InitialPlate);
    }

    /** The SET_VOLTAGE_PORT handler (both registrations carry the same one). */
    method OnVoltagePort(data: Value) returns (ok: bool)
      requires plates.Length == PlateCount
      modifies plates
      ensures var u := VoltagePortUpdate(old(plates[..]), data);
              ok == u.ok && plates[..] == u.plates
    {
      if IsNullish(data) {
        return false;
      }
      var plate := Get(data, "platenumber");
      if plate != Undefined {
        var n := ToNumber(plate);
        if n.None? || n.value - 1 < 0 || n.value - 1 >= plates.Length {
          return false;
        }
        plates[n.value - 1] := plates[n.value - 1].(visible := Get(data, "connected"));
        return true;
      }
      ok := WriteEach(Entries(data));
    }

    /** The bulk form: every key in turn writes the slot its position selects. */
    method WriteEach(entries: seq<(string, Value)>) returns (ok: bool)
      requires plates.Length == PlateCount
      modifies plates
      ensures ok <==> |entries| <= PlateCount + 1
      ensures plates[..] == BulkWrites(old(plates[..]), if ok then entries else entries[..PlateCount + 1])
    {
      var index := 0;
      while index < |entries|
        invariant 0 <= index <= |entries| && index <= PlateCount + 1
        invariant plates[..] == BulkWrites(old(plates[..]), entries[..index])
      {
        var slot := index - 1;
        if slot < 0 {
          slot := 5;
        }
        if slot >= plates.Length {
          assert entries[..PlateCount + 1] == entries[..index];
          return false;
        }
        assert entries[..index + 1][..index] == entries[..index];
        plates[slot] := plates[slot].(visible := entries[index].1);
        index := index + 1;
      }
      assert entries[..index] == entries;
      return true;
    }
  }

  /** No answer ever changes a plate's fields. */
  lemma {:induction false} BulkKeepsFields(ps: seq<Plate>, entries: seq<(string, Value)>)
    requires |ps| == PlateCount && |entries| <= PlateCount + 1
    ensures forall i :: 0 <= i < PlateCount ==> BulkWrites(ps, entries)[i].fields == ps[i].fields
    decreases |entries|
  {
    if entries != [] {
      BulkKeepsFields(ps, entries[..|entries| - 1]);
    }
  }

  lemma UpdateKeepsFields(ps: seq<Plate>, data: Value)
    requires |ps| == PlateCount
    ensures forall i :: 0 <= i < PlateCount ==> VoltagePortUpdate(ps, data).plates[i].fields == ps[i].fields
  {
    if !IsNullish(data) && Get(data, "platenumber") == Undefined {
      var entries := Entries(data);
      if |entries| <= PlateCount + 1 {
        BulkKeepsFields(ps, entries);
      } else {
        BulkKeepsFields(ps, entries[..PlateCount + 1]);
      }
    }
  }

  /** A single-plate answer changes only that plate's flag; an index outside 1..6 throws and changes nothing. */
  lemma SinglePlate(ps: seq<Plate>, data: Value, p: int)
    requires |ps| == PlateCount && data.Obj? && Get(data, "platenumber") == Num(p)
    ensures var u := VoltagePortUpdate(ps, data);
            && (1 <= p <= PlateCount <==> u.ok)
            && (u.ok ==> u.plates[p - 1].visible == Get(data, "connected"))
            && (forall i :: 0 <= i < PlateCount && i != p - 1 ==> u.plates[i] == ps[i])
  {
  }

  /**
   * A bulk answer with up to six keys: the key at position k sets plate `Slot(k)`, and
   * plates no key reaches keep their flag.
   */
  lemma {:induction false} BulkSetsSlots(ps: seq<Plate>, entries: seq<(string, Value)>)
    requires |ps| == PlateCount && |entries| <= PlateCount
    ensures forall k :: 0 <= k < |entries| ==> BulkWrites(ps, entries)[Slot(k)].visible == entries[k].1
    ensures forall i :: 0 <= i < PlateCount && (forall k :: 0 <= k < |entries| ==> Slot(k) != i)
              ==> BulkWrites(ps, entries)[i] == ps[i]
    decreases |entries|
  {
    if entries != [] {
      var k := |entries| - 1;
      BulkSetsSlots(ps, entries[..k]);
      forall j | 0 <= j < k
        ensures Slot(j) != Slot(k)
      {
      }
    }
  }

  /**
   * A seventh key reaches plate 6 a second time: with seven keys, plate 6 ends with the
   * seventh value rather than the first.
   */
  lemma SeventhKeyOverwritesLastPlate(ps: seq<Plate>, entries: seq<(string, Value)>)
    requires |ps| == PlateCount && |entries| == PlateCount + 1
    ensures BulkWrites(ps, entries)[PlateCount - 1].visible == entries[PlateCount].1
  {
  }

  /** Eight keys or more throw at the eighth, after the first seven writes took effect. */
  lemma TooManyKeys(ps: seq<Plate>, data: Value)
    requires |ps| == PlateCount && !IsNullish(data) && Get(data, "platenumber") == Undefined
    requires |Entries(data)| > PlateCount + 1
    ensures VoltagePortUpdate(ps, data) == Update(false, BulkWrites(ps, Entries(data)[..PlateCount + 1]))
  {
  }

  /** The id of the persistent plate subscription. */
  const SubscriptionId: string := "plateinfopage"

  /** The persistent subscription the screen registers on mount. */
  function Subscription(h: HandlerId): Callback {
    Callback(false, SubscriptionId, BleTypes.Code(BleTypes.SetVoltagePort), h)
  }

  /**
   * The answer to the one-shot request is addressed to a drawn decimal id, which can never
   * be the subscription's id: dispatching it leaves the persistent subscription registered.
   */
  lemma SubscriptionSurvivesRequestReply(cbs: seq<Callback>, h: HandlerId, draw: nat)
    requires Subscription(h) in cbs
    ensures Subscription(h) in Remaining(cbs, Str(NatToString(draw)))
  {
    assert !('0' <= SubscriptionId[0] <= '9');
    assert NatToString(draw) != SubscriptionId;
    OtherIdSurvives(cbs, Str(NatToString(draw)), Subscription(h));
  }

  /**
   * Whether the object the hook returns, and so the context value, carries
   * `registerCallback`: it does not, although the context type declares it.
   */
  const HookProvidesRegister: bool := false

  /** The one-shot request for the current plate state, under the drawn id. */
  function Request(h: HandlerId, draw: nat): Callback {
    Callback(true, NatToString(draw), BleTypes.Code(BleTypes.SetVoltagePort), h)
  }

  /** What the mount effect adds to the callback list, given whether `registerCallback` exists. */
  function MountedEntries(provided: bool, h1: HandlerId, h2: HandlerId, draw: nat): seq<Callback> {
    if provided then [Subscription(h1), Request(h2, draw)] else []
  }

  /**
   * The mount effect of the modal screen: register the persistent subscription, then send
   * SET_VOLTAGE_PORT with an empty message and the one-shot request. When the context value
   * has no `registerCallback`, the first call throws a TypeError and the effect ends there:
   * nothing is registered and nothing is written.
   */
  method MountPlateScreen(link: BleLink.Link, provided: bool, h1: HandlerId, h2: HandlerId, draw: nat)
    returns (written: Option<string>)
    requires draw < 100
    modifies link`callbacks
    ensures link.callbacks == old(link.callbacks) + MountedEntries(provided, h1, h2, draw)
    ensures written.Some? <==> provided
    ensures written.Some? ==>
              written.value == Base64.Encode(link.pack(BleLink.CommandMessage(NatToString(draw), BleTypes.Code(BleTypes.SetVoltagePort), Obj([]))))
  {
    if !provided {
      return None;
    }
    ghost var before := link.callbacks;
    link.RegisterCallback(Subscription(h1));
    var value := link.SendCommand(BleTypes.Code(BleTypes.SetVoltagePort), Obj([]), Some((true, h2)), draw);
    assert link.callbacks == before + [Subscription(h1)] + [Request(h2, draw)];
    assert before + [Subscription(h1)] + [Request(h2, draw)] == before + MountedEntries(provided, h1, h2, draw);
    written := Some(value);
  }

  /**
   * As written: the mount adds nothing, so whatever the box sends and under whatever key,
   * neither plate handler is ever invoked and the plates keep their initial state.
   */
  lemma MountAsWrittenRegistersNothing(cbs: seq<Callback>, h1: HandlerId, h2: HandlerId, draw: nat)
    requires forall c :: c in cbs ==> c.handler != h1 && c.handler != h2
    ensures MountedEntries(HookProvidesRegister, h1, h2, draw) == []
    ensures forall key, data, i :: 0 <= i < |Invoked(cbs + MountedEntries(HookProvidesRegister, h1, h2, draw), key, data)| ==>
              Invoked(cbs + MountedEntries(HookProvidesRegister, h1, h2, draw), key, data)[i].handler != h1
              && Invoked(cbs + MountedEntries(HookProvidesRegister, h1, h2, draw), key, data)[i].handler != h2
  {
    assert cbs + MountedEntries(HookProvidesRegister, h1, h2, draw) == cbs;
    forall key, data
      ensures forall i :: 0 <= i < |Invoked(cbs, key, data)| ==>
                Invoked(cbs, key, data)[i].handler != h1 && Invoked(cbs, key, data)[i].handler != h2
    {
      InvokedAreMatching(cbs, key, data);
      forall i | 0 <= i < |Invoked(cbs, key, data)|
        ensures Invoked(cbs, key, data)[i].handler != h1 && Invoked(cbs, key, data)[i].handler != h2
      {
        assert Matching(cbs, key)[i] in Matching(cbs, key);
      }
    }
  }

  /**
   * With `registerCallback` provided: the box's answer to the request invokes the request's
   * handler once, after whatever was registered under that id before; the request is then
   * gone and the subscription stays for later broadcasts.
   */
  lemma MountThenReply(cbs: seq<Callback>, h1: HandlerId, h2: HandlerId, draw: nat, reply: Value)
    ensures Invoked(cbs + MountedEntries(true, h1, h2, draw), Str(NatToString(draw)), reply)
            == Invoked(cbs, Str(NatToString(draw)), reply) + [Invocation(h2, reply)]
    ensures Subscription(h1) in Remaining(cbs + MountedEntries(true, h1, h2, draw), Str(NatToString(draw)))
    ensures Request(h2, draw) !in Remaining(cbs + MountedEntries(true, h1, h2, draw), Str(NatToString(draw)))
  {
    var key := Str(NatToString(draw));
    var registered := cbs + MountedEntries(true, h1, h2, draw);
    assert !('0' <= SubscriptionId[0] <= '9');
    assert NatToString(draw) != SubscriptionId;
    assert registered[..|registered| - 1] == cbs + [Subscription(h1)];
    assert (cbs + [Subscription(h1)])[..|cbs|] == cbs;
    assert Invoked(cbs + [Subscription(h1)], key, reply) == Invoked(cbs, key, reply);
    assert HasOneTimeMatch(registered, key) by {
      assert Matches(registered[|registered| - 1], key) && registered[|registered| - 1].oneTime;
    }
    RemainingAfterOneTime(registered, key);
    OthersMembers(registered, key, Subscription(h1));
    OthersMembers(registered, key, Request(h2, draw));
  }
}
