/** The dispatch half of `update_nextdns_rewrites`: one delete request per
    row of `to_be_deleted`, then one add request per row of `to_be_added`. */
module Sync {
  import opened Hosts
  import opened Reconcile
  import opened Seqs

  /** A request to the rewrites endpoint: `DELETE .../{id}` or
      `POST ...` with body `{name, content}`. */
  datatype Call = DeleteCall(id: string) | AddCall(name: string, content: string)

  /** One delete request per deletion, carrying only its `id`: the i-th
      request deletes the i-th row's id. */
  function DeleteCalls(deletions: seq<Deletion>): (calls: seq<Call>)
    ensures |calls| == |deletions|
    ensures forall i :: 0 <= i < |calls| ==> calls[i] == DeleteCall(deletions[i].id)
  {
    if deletions == [] then []
    else DeleteCalls(deletions[..|deletions| - 1]) + [DeleteCall(deletions[|deletions| - 1].id)]
  }

  /** One add request per addition, carrying only its `(name, content)`: the
      i-th request adds the i-th row. */
  function AddCalls(additions: seq<Record>): (calls: seq<Call>)
    ensures |calls| == |additions|
    ensures forall i :: 0 <= i < |calls| ==> calls[i] == AddCall(additions[i].name, additions[i].content)
  {
    if additions == [] then []
    else
      var last := additions[|additions| - 1];
      AddCalls(additions[..|additions| - 1]) + [AddCall(last.name, last.content)]
  }

  /** The requests issued for a diff, in order: the deletes of its rows, then
      the adds of its rows. */
  function Dispatch(deletions: seq<Deletion>, additions: seq<Record>): (calls: seq<Call>)
    ensures |calls| == |deletions| + |additions|
    ensures forall i :: 0 <= i < |deletions| ==> calls[i] == DeleteCall(deletions[i].id)
    ensures forall i :: 0 <= i < |additions| ==>
              calls[|deletions| + i] == AddCall(additions[i].name, additions[i].content)
  {
    DeleteCalls(deletions) + AddCalls(additions)
  }

  /** The requests one reconciliation issues. Each target record whose key no
      current rewrite has is added as often as it occurs in the target, and no
      other record is added. */
  function Plan(current: seq<Rewrite>, target: seq<Record>): (calls: seq<Call>)
    ensures |calls| == |ToBeDeleted(current, target)| + |ToBeAdded(current, target)|
    ensures forall r: Record :: multiset(calls)[AddCall(r.name, r.content)]
                        == if RecordKey(r) in KeysOf(current, RewriteKey) then 0 else multiset(target)[r]
  {
    DispatchAddCounts(ToBeDeleted(current, target), ToBeAdded(current, target));
    Dispatch(ToBeDeleted(current, target), ToBeAdded(current, target))
  }

  /** Once an add has been issued, no delete follows. */
  lemma DispatchDeletesFirst(deletions: seq<Deletion>, additions: seq<Record>)
    ensures var calls := Dispatch(deletions, additions);
            forall i, j :: 0 <= i < j < |calls| && calls[i].AddCall? ==> calls[j].AddCall?
  {
    var calls := Dispatch(deletions, additions);
    forall i, j | 0 <= i < j < |calls| && calls[i].AddCall? ensures calls[j].AddCall? {
      assert calls[j] == AddCall(additions[j - |deletions|].name, additions[j - |deletions|].content);
    }
  }

  /** An add request occurs in the dispatch exactly as often as its record
      occurs among the additions. */
  lemma DispatchAddCounts(deletions: seq<Deletion>, additions: seq<Record>)
    ensures forall r: Record :: multiset(Dispatch(deletions, additions))[AddCall(r.name, r.content)] == multiset(additions)[r]
  {
    forall r: Record ensures multiset(Dispatch(deletions, additions))[AddCall(r.name, r.content)] == multiset(additions)[r] {
      DeleteCallsHaveNoAdd(deletions, r.name, r.content);
      AddCallsCount(additions, r);
    }
  }

  lemma {:induction false} DeleteCallsHaveNoAdd(deletions: seq<Deletion>, name: string, content: string)
    ensures multiset(DeleteCalls(deletions))[AddCall(name, content)] == 0
  {
    if deletions != [] {
      DeleteCallsHaveNoAdd(deletions[..|deletions| - 1], name, content);
    }
  }

  lemma {:induction false} AddCallsCount(additions: seq<Record>, r: Record)
    ensures multiset(AddCalls(additions))[AddCall(r.name, r.content)] == multiset(additions)[r]
  {
    if additions != [] {
      var init, last := additions[..|additions| - 1], additions[|additions| - 1];
      AddCallsCount(init, r);
      InitLast(additions);
      assert AddCall(last.name, last.content) == AddCall(r.name, r.content) <==> last == r;
    }
  }

  /** A target record listed twice is added twice; the one current rewrite,
      which the target lacks, is deleted first. */
  lemma ExampleDuplicateAdd(r: Record)
    requires r.name != "z.x"
    ensures Plan([Rewrite("1", "z.x", "9.9.9.9")], [r, r])
            == [DeleteCall("1"), AddCall(r.name, r.content), AddCall(r.name, r.content)]
  {
    var current, target := [Rewrite("1", "z.x", "9.9.9.9")], [r, r];
    DuplicateAddDiff(r, current, target);
    var calls := Dispatch([Deletion("1", "z.x")], target);
    assert Plan(current, target) == calls;
    assert |calls| == 3 && calls[0] == DeleteCall("1");
    assert calls[1] == AddCall(r.name, r.content) && calls[2] == AddCall(r.name, r.content);
  }

  lemma DuplicateAddDiff(r: Record, current: seq<Rewrite>, target: seq<Record>)
    requires r.name != "z.x"
    requires current == [Rewrite("1", "z.x", "9.9.9.9")] && target == [r, r]
    ensures ToBeDeleted(current, target) == [Deletion("1", "z.x")]
    ensures ToBeAdded(current, target) == target
  {
    var kc, kt := KeysOf(current, RewriteKey), KeysOf(target, RecordKey);
    assert Key("z.x", "9.9.9.9") !in kt by {
      assert forall x :: x in target ==> x == r;
    }
    assert RecordKey(r) !in kc by {
      assert forall x :: x in current ==> x == current[0];
    }
    assert current[1..] == [] && target[1..] == [r] && target[1..][1..] == [];
    assert Unmatched(current, RewriteKey, kt) == current;
    assert Unmatched(target, RecordKey, kc) == target;
    assert Project(current) == [Deletion("1", "z.x")];
  }

  /** The endpoint as this client sees it: the requests issued so far. */
  class RewritesApi {
    var issued: seq<Call>

    constructor ()
      ensures issued == []
    {
      issued := [];
    }

    /** `delete_dns_record(session, id_)`. */
    method DeleteDnsRecord(id: string)
      modifies this
      ensures issued == old(issued) + [DeleteCall(id)]
    {
      issued := issued + [DeleteCall(id)];
    }

    /** `add_dns_record(session, (name, content))`. */
    method AddDnsRecord(name: string, content: string)
      modifies this
      ensures issued == old(issued) + [AddCall(name, content)]
    {
      issued := issued + [AddCall(name, content)];
    }
  }

  /** The first loop of `update_nextdns_rewrites`: a delete request per row. */
  method DeleteAll(api: RewritesApi, deletions: seq<Deletion>)
    modifies api
    ensures api.issued == old(api.issued) + DeleteCalls(deletions)
  {
    for i := 0 to |deletions|
      invariant api.issued == old(api.issued) + DeleteCalls(deletions[..i])
    {
      assert deletions[..i + 1][..i] == deletions[..i];
      api.DeleteDnsRecord(deletions[i].id);
    }
    assert deletions[..|deletions|] == deletions;
  }

  /** The second loop of `update_nextdns_rewrites`: an add request per row. */
  method AddAll(api: RewritesApi, additions: seq<Record>)
    modifies api
    ensures api.issued == old(api.issued) + AddCalls(additions)
  {
    for i := 0 to |additions|
      invariant api.issued == old(api.issued) + AddCalls(additions[..i])
    {
      assert additions[..i + 1][..i] == additions[..i];
      api.AddDnsRecord(additions[i].name, additions[i].content);
    }
    assert additions[..|additions|] == additions;
  }

  /** Both loops of `update_nextdns_rewrites`, in order. */
  method IssueAll(api: RewritesApi, deletions: seq<Deletion>, additions: seq<Record>)
    modifies api
    ensures api.issued == old(api.issued) + Dispatch(deletions, additions)
  {
    DeleteAll(api, deletions);
    AddAll(api, additions);
    AppendAssoc(old(api.issued), DeleteCalls(deletions), AddCalls(additions));
  }

  /** `update_nextdns_rewrites(current, target)`: diff, then issue every
      delete, then every add. */
  method UpdateRewrites(api: RewritesApi, current: seq<Rewrite>, target: seq<Record>)
    modifies api
    ensures api.issued == old(api.issued) + Plan(current, target)
  {
    var toBeDeleted := ToBeDeleted(current, target);
    var toBeAdded := ToBeAdded(current, target);
    IssueAll(api, toBeDeleted, toBeAdded);
  }

  // ---------------------------------------------------------------------------
  // What the requests carry
  // ---------------------------------------------------------------------------

  lemma {:induction false} DeleteCallsAreDeletes(deletions: seq<Deletion>)
    ensures forall c :: c in DeleteCalls(deletions) <==> exists d :: d in deletions && c == DeleteCall(d.id)
  {
    if deletions != [] {
      var init := deletions[..|deletions| - 1];
      DeleteCallsAreDeletes(init);
      assert deletions == init + [deletions[|deletions| - 1]];
    }
  }

  lemma {:induction false} AddCallsAreAdds(additions: seq<Record>)
    ensures forall c :: c in AddCalls(additions) <==> exists r :: r in additions && c == AddCall(r.name, r.content)
  {
    if additions != [] {
      var init := additions[..|additions| - 1];
      AddCallsAreAdds(init);
      assert additions == init + [additions[|additions| - 1]];
    }
  }

  /** The deletes of a reconciliation name exactly the ids of the current
      rewrites whose `(name, content)` is not in the target. */
  lemma PlanDeletes(current: seq<Rewrite>, target: seq<Record>, id: string)
    ensures DeleteCall(id) in Plan(current, target)
            <==> exists r :: r in current && RewriteKey(r) !in KeysOf(target, RecordKey) && r.id == id
  {
    var deletions := ToBeDeleted(current, target);
    DeleteCallsAreDeletes(deletions);
    AddCallsAreAdds(ToBeAdded(current, target));
    if DeleteCall(id) in Plan(current, target) {
      var d :| d in deletions && DeleteCall(id) == DeleteCall(d.id);
    }
    if r :| r in current && RewriteKey(r) !in KeysOf(target, RecordKey) && r.id == id {
      assert Deletion(r.id, r.name) in deletions;
    }
  }

  /** The adds of a reconciliation name exactly the target keys that no
      current rewrite has. */
  lemma PlanAdds(current: seq<Rewrite>, target: seq<Record>, name: string, content: string)
    ensures AddCall(name, content) in Plan(current, target)
            <==> Key(name, content) in KeysOf(target, RecordKey) - KeysOf(current, RewriteKey)
  {
    var additions := ToBeAdded(current, target);
    DeleteCallsAreDeletes(ToBeDeleted(current, target));
    AddCallsAreAdds(additions);
    UnmatchedMembers(target, RecordKey, KeysOf(current, RewriteKey));
    if Key(name, content) in KeysOf(target, RecordKey) - KeysOf(current, RewriteKey) {
      var r :| r in target && RecordKey(r) == Key(name, content);
      assert r in additions;
    }
  }

  // ---------------------------------------------------------------------------
  // The service's side: applying the plan reaches the target
  // ---------------------------------------------------------------------------

  /** The rewrites stored after deleting `id`. */
  function RemoveId(store: seq<Rewrite>, id: string): (rest: seq<Rewrite>)
    ensures forall r :: r in rest <==> r in store && r.id != id
  {
    if store == [] then []
    else
      var tail := RemoveId(store[1..], id);
      assert forall r :: r in store <==> r == store[0] || r in store[1..];
      if store[0].id == id then tail else [store[0]] + tail
  }

  /** The service's answer to one request: a delete removes the rewrites with
      that id, an add stores one new rewrite under the id the service picks
      (`newId`). */
  function Apply(store: seq<Rewrite>, call: Call, newId: string): (after: seq<Rewrite>)
  {
    match call
    case DeleteCall(id) => RemoveId(store, id)
    case AddCall(name, content) => store + [Rewrite(newId, name, content)]
  }

  /** A delete keeps exactly the rewrites with another id; an add keeps every
      rewrite and stores one more, under the picked id. */
  lemma ApplyMembers(store: seq<Rewrite>, call: Call, newId: string)
    ensures call.DeleteCall? ==> forall r :: r in Apply(store, call, newId) <==> r in store && r.id != call.id
    ensures call.AddCall? ==> forall r :: r in Apply(store, call, newId)
                                         <==> r in store || r == Rewrite(newId, call.name, call.content)
  {
  }

  /** The service's answers to a run of requests, the i-th answered with the
      i-th id the service picks. Every rewrite stored afterwards was stored
      before or carries one of the picked ids. */
  function ApplyAll(store: seq<Rewrite>, calls: seq<Call>, newIds: seq<string>): (after: seq<Rewrite>)
    requires |newIds| == |calls|
    ensures forall r :: r in after ==> r in store || r.id in newIds
  {
    if calls == [] then store
    else
      var n := |calls| - 1;
      assert newIds == newIds[..n] + [newIds[n]];
      ApplyMembers(ApplyAll(store, calls[..n], newIds[..n]), calls[n], newIds[n]);
      Apply(ApplyAll(store, calls[..n], newIds[..n]), calls[n], newIds[n])
  }

  /** Ids identify rewrites: two stored rewrites with the same id are the same. */
  ghost predicate UniqueIds(store: seq<Rewrite>) {
    forall r, s :: r in store && s in store && r.id == s.id ==> r == s
  }

  /** The ids the service picks are pairwise distinct and unused in `store`. */
  ghost predicate FreshIds(store: seq<Rewrite>, newIds: seq<string>) {
    && (forall i, j :: 0 <= i < j < |newIds| ==> newIds[i] != newIds[j])
    && (forall i, r :: 0 <= i < |newIds| && r in store ==> newIds[i] != r.id)
  }

  /** Fresh ids keep ids unique through any run of requests. */
  lemma {:induction false} ApplyAllUniqueIds(store: seq<Rewrite>, calls: seq<Call>, newIds: seq<string>)
    requires |newIds| == |calls|
    requires UniqueIds(store) && FreshIds(store, newIds)
    ensures UniqueIds(ApplyAll(store, calls, newIds))
  {
    if calls != [] {
      var n := |calls| - 1;
      var before := ApplyAll(store, calls[..n], newIds[..n]);
      ApplyAllUniqueIds(store, calls[..n], newIds[..n]);
      forall r | r in before ensures r.id != newIds[n] {
        if r !in store {
          var i :| 0 <= i < n && newIds[..n][i] == r.id;
          assert newIds[i] != newIds[n];
        }
      }
    }
  }

  lemma {:induction false} ApplyAllAppend(store: seq<Rewrite>, p: seq<Call>, q: seq<Call>, ip: seq<string>, iq: seq<string>)
    requires |ip| == |p| && |iq| == |q|
    ensures ApplyAll(store, p + q, ip + iq) == ApplyAll(ApplyAll(store, p, ip), q, iq)
  {
    if q == [] {
      assert p + q == p && ip + iq == ip;
    } else {
      var n := |q| - 1;
      ApplyAllAppend(store, p, q[..n], ip, iq[..n]);
      AppendInitLast(p, q);
      AppendInitLast(ip, iq);
    }
  }

  /** After the deletes, exactly the rewrites whose id was not deleted remain. */
  lemma {:induction false} AfterDeletes(store: seq<Rewrite>, deletions: seq<Deletion>, newIds: seq<string>)
    requires |newIds| == |deletions|
    ensures forall r :: r in ApplyAll(store, DeleteCalls(deletions), newIds)
              <==> r in store && forall d :: d in deletions ==> d.id != r.id
  {
    if deletions != [] {
      var n := |deletions| - 1;
      var init, last := deletions[..n], deletions[n];
      AfterDeletes(store, init, newIds[..n]);
      var calls := DeleteCalls(deletions);
      assert calls[..n] == DeleteCalls(init);
      assert deletions == init + [last];
    }
  }

  /** After the adds, the keys stored are the old ones plus the added ones. */
  lemma {:induction false} AfterAdds(store: seq<Rewrite>, additions: seq<Record>, newIds: seq<string>)
    requires |newIds| == |additions|
    ensures KeysOf(ApplyAll(store, AddCalls(additions), newIds), RewriteKey)
            == KeysOf(store, RewriteKey) + KeysOf(additions, RecordKey)
  {
    if additions != [] {
      var n := |additions| - 1;
      var init, last := additions[..n], additions[n];
      AfterAdds(store, init, newIds[..n]);
      var calls := AddCalls(additions);
      assert calls[..n] == AddCalls(init);
      var before := ApplyAll(store, AddCalls(init), newIds[..n]);
      var added := Rewrite(newIds[n], last.name, last.content);
      var after := before + [added];
      assert ApplyAll(store, calls, newIds) == after;
      assert KeysOf(after, RewriteKey) == KeysOf(before, RewriteKey) + {RecordKey(last)} by {
        assert forall r :: r in after <==> r in before || r == added;
        assert RewriteKey(added) == RecordKey(last) && added in after;
      }
      assert KeysOf(additions, RecordKey) == KeysOf(init, RecordKey) + {RecordKey(last)} by {
        assert additions == init + [last];
        assert forall r :: r in additions <==> r in init || r == last;
        assert last in additions;
      }
    }
  }

  /** With unique ids, deleting the ids of the unmatched rewrites keeps
      exactly the rewrites whose key the target has. */
  lemma KeptAfterDeletes(current: seq<Rewrite>, target: seq<Record>, newIds: seq<string>)
    requires UniqueIds(current)
    requires |newIds| == |ToBeDeleted(current, target)|
    ensures KeysOf(ApplyAll(current, DeleteCalls(ToBeDeleted(current, target)), newIds), RewriteKey)
            == KeysOf(current, RewriteKey) * KeysOf(target, RecordKey)
  {
    var deletions := ToBeDeleted(current, target);
    var kt := KeysOf(target, RecordKey);
    var kept := ApplyAll(current, DeleteCalls(deletions), newIds);
    AfterDeletes(current, deletions, newIds);
    forall r | r in current
      ensures r in kept <==> RewriteKey(r) in kt
    {
      if RewriteKey(r) in kt {
        forall d | d in deletions ensures d.id != r.id {
          var s :| s in current && RewriteKey(s) !in kt && d == Deletion(s.id, s.name);
        }
      } else {
        assert Deletion(r.id, r.name) in deletions;
      }
    }
    forall k | k in KeysOf(current, RewriteKey) * kt ensures k in KeysOf(kept, RewriteKey) {
      var r :| r in current && RewriteKey(r) == k;
      assert r in kept;
    }
  }

  /** When the service does what the requests ask and answers each with a
      fresh id, one reconciliation leaves it holding exactly the target's
      keys under unique ids, so diffing again plans nothing. */
  lemma Converges(current: seq<Rewrite>, target: seq<Record>, newIds: seq<string>)
    requires UniqueIds(current)
    requires |newIds| == |ToBeDeleted(current, target)| + |ToBeAdded(current, target)|
    requires FreshIds(current, newIds)
    ensures |newIds| == |Plan(current, target)|
    ensures var after := ApplyAll(current, Plan(current, target), newIds);
            && KeysOf(after, RewriteKey) == KeysOf(target, RecordKey)
            && UniqueIds(after)
            && ToBeDeleted(after, target) == []
            && ToBeAdded(after, target) == []
  {
    var deletions, additions := ToBeDeleted(current, target), ToBeAdded(current, target);
    assert Plan(current, target) == Dispatch(deletions, additions);
    DispatchConverges(current, target, deletions, additions, newIds);
  }

  lemma DispatchConverges(current: seq<Rewrite>, target: seq<Record>,
                          deletions: seq<Deletion>, additions: seq<Record>, newIds: seq<string>)
    requires UniqueIds(current) && FreshIds(current, newIds)
    requires deletions == ToBeDeleted(current, target) && additions == ToBeAdded(current, target)
    requires |newIds| == |deletions| + |additions|
    ensures var after := ApplyAll(current, Dispatch(deletions, additions), newIds);
            && KeysOf(after, RewriteKey) == KeysOf(target, RecordKey)
            && UniqueIds(after)
            && ToBeDeleted(after, target) == []
            && ToBeAdded(after, target) == []
  {
    var after := ApplyAll(current, Dispatch(deletions, additions), newIds);
    KeysAfterDispatch(current, target, deletions, additions, newIds);
    ApplyAllUniqueIds(current, Dispatch(deletions, additions), newIds);
    DiffSameKeys(after, target);
  }

  /** The deletes keep the current keys the target has; the adds bring in the
      rest of the target's keys. */
  lemma KeysAfterDispatch(current: seq<Rewrite>, target: seq<Record>,
                          deletions: seq<Deletion>, additions: seq<Record>, newIds: seq<string>)
    requires UniqueIds(current)
    requires deletions == ToBeDeleted(current, target) && additions == ToBeAdded(current, target)
    requires |newIds| == |deletions| + |additions|
    ensures KeysOf(ApplyAll(current, Dispatch(deletions, additions), newIds), RewriteKey)
            == KeysOf(target, RecordKey)
  {
    var n := |deletions|;
    assert newIds == newIds[..n] + newIds[n..];
    ApplyAllAppend(current, DeleteCalls(deletions), AddCalls(additions), newIds[..n], newIds[n..]);
    var kept := ApplyAll(current, DeleteCalls(deletions), newIds[..n]);
    KeptAfterDeletes(current, target, newIds[..n]);
    AfterAdds(kept, additions, newIds[n..]);
    DiffKeys(current, target);
  }
}
