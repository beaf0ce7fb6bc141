/** The diff at the heart of `update_nextdns_rewrites`: an outer join of the
    current rewrites with the target records on `(name, content)`, whose
    one-sided rows become the deletions and the additions. */
module Reconcile {
  import opened Hosts

  /** The join key: rewrites are identified by `(name, content)` alone. */
  datatype Key = Key(name: string, content: string)

  /** A rewrite as the service lists it: `{id, name, content}`. */
  datatype Rewrite = Rewrite(id: string, name: string, content: string)

  /** A row of `to_be_deleted`: the `id` and `name` columns. */
  datatype Deletion = Deletion(id: string, name: string)

  function RewriteKey(r: Rewrite): Key { Key(r.name, r.content) }

  function RecordKey(r: Record): Key { Key(r.name, r.content) }

  /** The keys occurring in a list of rows (an empty list has none). */
  function KeysOf<T(==,!new)>(rows: seq<T>, key: T -> Key): set<Key> {
    set x | x in rows :: key(x)
  }

  /** The rows whose key does not occur among `others`, in their order, each
      as often as it occurs: the rows the merge indicator marks as present on
      this side only. */
  function Unmatched<T(==,!new)>(rows: seq<T>, key: T -> Key, others: set<Key>): (kept: seq<T>)
    ensures forall x :: multiset(kept)[x] == if key(x) in others then 0 else multiset(rows)[x]
  {
    if rows == [] then []
    else
      var rest := Unmatched(rows[1..], key, others);
      assert rows == [rows[0]] + rows[1..];
      if key(rows[0]) in others then rest else [rows[0]] + rest
  }

  /** The `left_only` rows of the merge: the current rewrites whose key the
      target lacks, each as often as it occurs. */
  function DeletedRows(current: seq<Rewrite>, target: seq<Record>): (rows: seq<Rewrite>)
    ensures forall r :: r in rows <==> r in current && RewriteKey(r) !in KeysOf(target, RecordKey)
  {
    UnmatchedMembers(current, RewriteKey, KeysOf(target, RecordKey));
    Unmatched(current, RewriteKey, KeysOf(target, RecordKey))
  }

  /** `to_be_deleted`: each `left_only` row projected to `(id, name)`, row by row. */
  function ToBeDeleted(current: seq<Rewrite>, target: seq<Record>): (deletions: seq<Deletion>)
    ensures var rows := DeletedRows(current, target);
            |deletions| == |rows| && forall i :: 0 <= i < |rows| ==> deletions[i] == Deletion(rows[i].id, rows[i].name)
    ensures forall d :: d in deletions <==>
              exists r :: r in current && RewriteKey(r) !in KeysOf(target, RecordKey) && d == Deletion(r.id, r.name)
  {
    Project(DeletedRows(current, target))
  }

  /** The `[['id', 'name']]` projection, row by row. */
  function Project(rows: seq<Rewrite>): (deletions: seq<Deletion>)
    ensures |deletions| == |rows|
    ensures forall i :: 0 <= i < |rows| ==> deletions[i] == Deletion(rows[i].id, rows[i].name)
    ensures forall d :: d in deletions <==> exists r :: r in rows && d == Deletion(r.id, r.name)
  {
    if rows == [] then []
    else
      var rest := Project(rows[1..]);
      assert forall r :: r in rows <==> r == rows[0] || r in rows[1..];
      [Deletion(rows[0].id, rows[0].name)] + rest
  }

  /** `to_be_added`: the `right_only` rows, projected to `(name, content)`,
      which is all a target record has. */
  function ToBeAdded(current: seq<Rewrite>, target: seq<Record>): (additions: seq<Record>)
    ensures forall x :: multiset(additions)[x] == if RecordKey(x) in KeysOf(current, RewriteKey) then 0 else multiset(target)[x]
  {
    Unmatched(target, RecordKey, KeysOf(current, RewriteKey))
  }

  // ---------------------------------------------------------------------------
  // Properties
  // ---------------------------------------------------------------------------

  /** A row is unmatched exactly when it is a row whose key is not among `others`. */
  lemma UnmatchedMembers<T(!new)>(rows: seq<T>, key: T -> Key, others: set<Key>)
    ensures forall x :: x in Unmatched(rows, key, others) <==> x in rows && key(x) !in others
  {
    var kept := Unmatched(rows, key, others);
    forall x ensures x in kept <==> x in rows && key(x) !in others {
      assert x in kept <==> multiset(kept)[x] > 0;
      assert x in rows <==> multiset(rows)[x] > 0;
    }
  }

  /** The keys left unmatched are the keys of the rows minus `others`. */
  lemma UnmatchedKeys<T(!new)>(rows: seq<T>, key: T -> Key, others: set<Key>)
    ensures KeysOf(Unmatched(rows, key, others), key) == KeysOf(rows, key) - others
  {
    UnmatchedMembers(rows, key, others);
    var kept := Unmatched(rows, key, others);
    forall k | k in KeysOf(rows, key) - others ensures k in KeysOf(kept, key) {
      var x :| x in rows && key(x) == k;
      assert x in kept;
    }
  }

  /** The two sides of the diff: deleted rows carry exactly the keys only the
      current side has, added records exactly the keys only the target has.
      So the two key sets are disjoint, and together with the keys both sides
      share they make up every key of either side, each once. */
  lemma DiffKeys(current: seq<Rewrite>, target: seq<Record>)
    ensures KeysOf(DeletedRows(current, target), RewriteKey) == KeysOf(current, RewriteKey) - KeysOf(target, RecordKey)
    ensures KeysOf(ToBeAdded(current, target), RecordKey) == KeysOf(target, RecordKey) - KeysOf(current, RewriteKey)
    ensures KeysOf(DeletedRows(current, target), RewriteKey) !! KeysOf(ToBeAdded(current, target), RecordKey)
    ensures var both := KeysOf(current, RewriteKey) * KeysOf(target, RecordKey);
            && both !! KeysOf(DeletedRows(current, target), RewriteKey)
            && both !! KeysOf(ToBeAdded(current, target), RecordKey)
            && KeysOf(DeletedRows(current, target), RewriteKey) + KeysOf(ToBeAdded(current, target), RecordKey) + both
               == KeysOf(current, RewriteKey) + KeysOf(target, RecordKey)
  {
    UnmatchedKeys(current, RewriteKey, KeysOf(target, RecordKey));
    UnmatchedKeys(target, RecordKey, KeysOf(current, RewriteKey));
  }

  /** Nothing unmatched when every key is among `others`. */
  lemma UnmatchedNone<T(!new)>(rows: seq<T>, key: T -> Key, others: set<Key>)
    requires KeysOf(rows, key) <= others
    ensures Unmatched(rows, key, others) == []
  {
    UnmatchedMembers(rows, key, others);
  }

  /** Diffing against a target with the same key set plans nothing. */
  lemma DiffSameKeys(current: seq<Rewrite>, target: seq<Record>)
    requires KeysOf(current, RewriteKey) == KeysOf(target, RecordKey)
    ensures ToBeDeleted(current, target) == []
    ensures ToBeAdded(current, target) == []
  {
    UnmatchedNone(current, RewriteKey, KeysOf(target, RecordKey));
    UnmatchedNone(target, RecordKey, KeysOf(current, RewriteKey));
  }

  /** One rewrite already in place, one missing: only the missing one is added. */
  lemma ExampleOneMissing()
    ensures var current := [Rewrite("1", "a.x", "1.1.1.1")];
            var target := [Record("1.1.1.1", "a.x"), Record("2.2.2.2", "b.x")];
            ToBeDeleted(current, target) == [] && ToBeAdded(current, target) == [Record("2.2.2.2", "b.x")]
  {
    var current := [Rewrite("1", "a.x", "1.1.1.1")];
    var target := [Record("1.1.1.1", "a.x"), Record("2.2.2.2", "b.x")];
    assert target[0] in target && RecordKey(target[0]) == RewriteKey(current[0]);
    assert KeysOf(current, RewriteKey) == {Key("a.x", "1.1.1.1")} by {
      assert forall r :: r in current ==> r == current[0];
    }
    UnmatchedNone(current, RewriteKey, KeysOf(target, RecordKey));
    var others := KeysOf(current, RewriteKey);
    var tail := target[1..];
    assert tail == [Record("2.2.2.2", "b.x")] && tail[1..] == [];
    assert Unmatched(tail[1..], RecordKey, others) == [];
    assert Unmatched(tail, RecordKey, others) == tail;
    assert Unmatched(target, RecordKey, others) == Unmatched(tail, RecordKey, others);
  }
}
