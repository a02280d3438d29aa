/**
 * The pending-callback list `revieceCallbacks` and what `tryCallbacks(id, data)`
 * does to it: invoke every entry whose id is `id`, in list order, then, if any of
 * them was one-time, drop every entry carrying that id.
 */
module Callbacks {
  import opened JsValue

  /** Stands for a handler function: the model records that it was invoked and with what. */
  type HandlerId = nat

  /** A `bleCallback` entry: `type` is carried but never consulted by dispatch. */
  datatype Callback = Callback(oneTime: bool, id: string, ctype: int, handler: HandlerId)

  datatype Invocation = Invocation(handler: HandlerId, data: Value)

  /** `callback.id === key`: registered ids are strings, so only a string key can match. */
  predicate Matches(c: Callback, key: Value) {
    key == Str(c.id)
  }

  /** The entries `key` selects, in list order. */
  function Matching(cbs: seq<Callback>, key: Value): (r: seq<Callback>)
    ensures forall c :: c in r ==> c in cbs && Matches(c, key)
    decreases |cbs|
  {
    if cbs == [] then []
    else Matching(cbs[..|cbs| - 1], key) + (if Matches(cbs[|cbs| - 1], key) then [cbs[|cbs| - 1]] else [])
  }

  /** The handler calls made while walking the list. */
  function Invoked(cbs: seq<Callback>, key: Value, data: Value): (r: seq<Invocation>)
    ensures |r| <= |cbs|
    ensures forall j :: 0 <= j < |r| ==> r[j].data == data
    ensures (forall c :: c in cbs ==> !Matches(c, key)) ==> r == []
    decreases |cbs|
  {
    if cbs == [] then []
    else
      var last := cbs[|cbs| - 1];
      Invoked(cbs[..|cbs| - 1], key, data) + (if Matches(last, key) then [Invocation(last.handler, data)] else [])
  }

  /** `delCallback`: the id of every matching one-time entry, in list order. */
  function DeletedIds(cbs: seq<Callback>, key: Value): seq<string>
    decreases |cbs|
  {
    if cbs == [] then []
    else
      var last := cbs[|cbs| - 1];
      DeletedIds(cbs[..|cbs| - 1], key) + (if Matches(last, key) && last.oneTime then [last.id] else [])
  }

  /** `cbs.filter(cb => !del.includes(cb.id))`. */
  function WithoutIds(cbs: seq<Callback>, del: seq<string>): (r: seq<Callback>)
    ensures |r| <= |cbs|
    ensures forall c :: c in r <==> c in cbs && c.id !in del
    decreases |cbs|
  {
    if cbs == [] then []
    else (if cbs[0].id in del then [] else [cbs[0]]) + WithoutIds(cbs[1..], del)
  }

  /** The list `tryCallbacks` leaves behind. */
  function Remaining(cbs: seq<Callback>, key: Value): (r: seq<Callback>)
    ensures |r| <= |cbs|
    ensures forall c :: c in r ==> c in cbs
    ensures forall c :: c in cbs && !Matches(c, key) ==> c in r
  {
    DeletedIdsShape(cbs, key);
    WithoutIds(cbs, DeletedIds(cbs, key))
  }

  /** The entries `key` does not select, in list order. */
  function Others(cbs: seq<Callback>, key: Value): seq<Callback>
    decreases |cbs|
  {
    if cbs == [] then []
    else (if Matches(cbs[0], key) then [] else [cbs[0]]) + Others(cbs[1..], key)
  }

  predicate HasOneTimeMatch(cbs: seq<Callback>, key: Value) {
    exists i :: 0 <= i < |cbs| && Matches(cbs[i], key) && cbs[i].oneTime
  }

  /** Every selected entry is invoked exactly once, in list order, with the message. */
  lemma {:induction false} InvokedAreMatching(cbs: seq<Callback>, key: Value, data: Value)
    ensures |Invoked(cbs, key, data)| == |Matching(cbs, key)|
    ensures forall i :: 0 <= i < |Matching(cbs, key)| ==>
              Invoked(cbs, key, data)[i] == Invocation(Matching(cbs, key)[i].handler, data)
    decreases |cbs|
  {
    if cbs != [] {
      var init, last := cbs[..|cbs| - 1], cbs[|cbs| - 1];
      InvokedAreMatching(init, key, data);
      if Matches(last, key) {
        assert Invoked(cbs, key, data) == Invoked(init, key, data) + [Invocation(last.handler, data)];
        assert Matching(cbs, key) == Matching(init, key) + [last];
      } else {
        assert Invoked(cbs, key, data) == Invoked(init, key, data);
        assert Matching(cbs, key) == Matching(init, key);
      }
    }
  }

  /** `delCallback` holds only the dispatched id, and is non-empty exactly when a one-time entry matched. */
  lemma {:induction false} DeletedIdsShape(cbs: seq<Callback>, key: Value)
    ensures forall x :: x in DeletedIds(cbs, key) ==> key == Str(x)
    ensures DeletedIds(cbs, key) != [] <==> HasOneTimeMatch(cbs, key)
    decreases |cbs|
  {
    if cbs != [] {
      var init := cbs[..|cbs| - 1];
      DeletedIdsShape(init, key);
      if HasOneTimeMatch(init, key) {
        var i :| 0 <= i < |init| && Matches(init[i], key) && init[i].oneTime;
        assert cbs[i] == init[i];
      }
      if HasOneTimeMatch(cbs, key) && !HasOneTimeMatch(init, key) {
        var i :| 0 <= i < |cbs| && Matches(cbs[i], key) && cbs[i].oneTime;
        assert i == |cbs| - 1;
      }
    }
  }

  /** Filtering by a list of ids that all equal `key` and is not empty removes exactly the entries `key` selects. */
  lemma {:induction false} WithoutKeyIds(cbs: seq<Callback>, key: Value, del: seq<string>)
    requires del != []
    requires forall x :: x in del ==> key == Str(x)
    ensures WithoutIds(cbs, del) == Others(cbs, key)
    decreases |cbs|
  {
    if cbs != [] {
      assert key == Str(del[0]);
      assert Matches(cbs[0], key) <==> cbs[0].id in del;
      WithoutKeyIds(cbs[1..], key, del);
    }
  }

  lemma {:induction false} WithoutNoIds(cbs: seq<Callback>)
    ensures WithoutIds(cbs, []) == cbs
    decreases |cbs|
  {
    if cbs != [] {
      WithoutNoIds(cbs[1..]);
      assert cbs == [cbs[0]] + cbs[1..];
    }
  }

  /** If any selected entry is one-time, every entry with that id goes, persistent ones included; all others stay, in order. */
  lemma RemainingAfterOneTime(cbs: seq<Callback>, key: Value)
    requires HasOneTimeMatch(cbs, key)
    ensures Remaining(cbs, key) == Others(cbs, key)
  {
    DeletedIdsShape(cbs, key);
    WithoutKeyIds(cbs, key, DeletedIds(cbs, key));
  }

  /** If no selected entry is one-time, the list is left as it was. */
  lemma RemainingWithoutOneTime(cbs: seq<Callback>, key: Value)
    requires !HasOneTimeMatch(cbs, key)
    ensures Remaining(cbs, key) == cbs
  {
    DeletedIdsShape(cbs, key);
    WithoutNoIds(cbs);
  }

  /** No entry left by a one-time dispatch is selected by that key again. */
  lemma OthersOfOthers(cbs: seq<Callback>, key: Value)
    ensures Others(Others(cbs, key), key) == Others(cbs, key)
    ensures Matching(Others(cbs, key), key) == []
  {
    OthersIdempotent(cbs, key);
    forall c | c in Others(cbs, key)
      ensures !Matches(c, key)
    {
      OthersMembers(cbs, key, c);
    }
    NoneMatching(Others(cbs, key), key);
  }

  lemma {:induction false} OthersIdempotent(cbs: seq<Callback>, key: Value)
    ensures Others(Others(cbs, key), key) == Others(cbs, key)
    decreases |cbs|
  {
    if cbs != [] {
      OthersIdempotent(cbs[1..], key);
      var rest := Others(cbs[1..], key);
      if !Matches(cbs[0], key) {
        var kept := [cbs[0]] + rest;
        assert Others(cbs, key) == kept;
        assert kept[0] == cbs[0] && kept[1..] == rest;
      } else {
        assert Others(cbs, key) == rest;
      }
    }
  }

  /** A list none of whose entries `key` selects selects nothing. */
  lemma {:induction false} NoneMatching(cbs: seq<Callback>, key: Value)
    requires forall c :: c in cbs ==> !Matches(c, key)
    ensures Matching(cbs, key) == []
    decreases |cbs|
  {
    if cbs != [] {
      var init := cbs[..|cbs| - 1];
      assert forall c :: c in init ==> c in cbs;
      NoneMatching(init, key);
      assert cbs[|cbs| - 1] in cbs;
    }
  }

  /** Entries with other ids survive dispatch unchanged and in their original order. */
  lemma OthersSurvive(cbs: seq<Callback>, key: Value)
    ensures Others(Remaining(cbs, key), key) == Others(cbs, key)
  {
    if HasOneTimeMatch(cbs, key) {
      RemainingAfterOneTime(cbs, key);
      OthersOfOthers(cbs, key);
    } else {
      RemainingWithoutOneTime(cbs, key);
    }
  }

  /** After a dispatch that hit a one-time entry, a second message with the same id invokes nothing. */
  lemma OneTimeFiresOnce(cbs: seq<Callback>, key: Value, data: Value)
    requires HasOneTimeMatch(cbs, key)
    ensures Invoked(Remaining(cbs, key), key, data) == []
  {
    RemainingAfterOneTime(cbs, key);
    OthersOfOthers(cbs, key);
    InvokedAreMatching(Remaining(cbs, key), key, data);
  }

  /** A persistent subscription plus a one-time request under the same id: one dispatch removes both. */
  lemma SharedIdRemovesPersistent(key: string, h1: HandlerId, h2: HandlerId, data: Value)
    ensures var cbs := [Callback(false, key, 10, h1), Callback(true, key, 10, h2)];
            Invoked(cbs, Str(key), data) == [Invocation(h1, data), Invocation(h2, data)]
            && Remaining(cbs, Str(key)) == []
  {
    var cbs := [Callback(false, key, 10, h1), Callback(true, key, 10, h2)];
    assert Matches(cbs[1], Str(key)) && cbs[1].oneTime;
    RemainingAfterOneTime(cbs, Str(key));
    assert cbs[1..][1..] == [];
    assert Others(cbs[1..], Str(key)) == [];
    assert cbs[..1] == [cbs[0]] && cbs[..1][..0] == [];
    assert Invoked(cbs[..1], Str(key), data) == [Invocation(h1, data)];
  }

  /** An entry is among the others exactly when it is in the list and `key` does not select it. */
  lemma {:induction false} OthersMembers(cbs: seq<Callback>, key: Value, c: Callback)
    ensures c in Others(cbs, key) <==> c in cbs && !Matches(c, key)
    decreases |cbs|
  {
    if cbs != [] {
      OthersMembers(cbs[1..], key, c);
      assert cbs == [cbs[0]] + cbs[1..];
    }
  }

  /** An entry whose id is not the dispatched key is still registered after the dispatch. */
  lemma OtherIdSurvives(cbs: seq<Callback>, key: Value, c: Callback)
    requires c in cbs && !Matches(c, key)
    ensures c in Remaining(cbs, key)
  {
    if HasOneTimeMatch(cbs, key) {
      RemainingAfterOneTime(cbs, key);
      OthersMembers(cbs, key, c);
    } else {
      RemainingWithoutOneTime(cbs, key);
    }
  }
}
