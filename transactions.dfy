/**
 * The transaction store as a list, the trailing window the handlers analyse,
 * and the marking of flagged records as blocked (backend/analyse.js).
 */
module Transactions {
  import Js

  /**
   * One stored record. Only `id` and `blocked` are examined; every other
   * field travels unchanged in `rest`.
   */
  datatype Transaction<Id, R> = Transaction(id: Id, blocked: bool, rest: R)

  /**
   * The trailing slice of the store: the most recent `limit` records in
   * their stored order, or the whole store when it holds fewer.
   */
  function Window<T>(store: seq<T>, limit: int): (w: seq<T>)
    requires limit > 0
    ensures |w| == Js.Min(limit, |store|)
    ensures w == store[|store| - |w|..]
    ensures limit >= |store| ==> w == store
  {
    Js.SliceFrom(store, -limit)
  }

  /** `{ ...tx, blocked: true }` when the id is listed, `tx` itself otherwise. */
  function Mark<Id(==), R>(tx: Transaction<Id, R>, ids: seq<Id>): (r: Transaction<Id, R>)
    ensures r.id == tx.id && r.rest == tx.rest
    ensures r.blocked == (tx.blocked || tx.id in ids)
    ensures tx.id !in ids ==> r == tx
  {
    if tx.id in ids then tx.(blocked := true) else tx
  }

  /**
   * The map over the whole store: every record marked against the id list.
   * Length, order, ids and other fields are kept; listed records become
   * blocked; unlisted records are left exactly as they were.
   */
  function MarkBlocked<Id(==), R>(store: seq<Transaction<Id, R>>, ids: seq<Id>): (r: seq<Transaction<Id, R>>)
    ensures |r| == |store|
    ensures forall i :: 0 <= i < |store| ==> r[i].id == store[i].id && r[i].rest == store[i].rest
    ensures forall i :: 0 <= i < |store| ==> r[i].blocked == (store[i].blocked || store[i].id in ids)
    ensures forall i :: 0 <= i < |store| && store[i].id !in ids ==> r[i] == store[i]
  {
    if store == [] then [] else [Mark(store[0], ids)] + MarkBlocked(store[1..], ids)
  }

  /** Marking a concatenation marks each part on its own. */
  lemma {:induction false} MarkBlockedAppend<Id, R>(a: seq<Transaction<Id, R>>, b: seq<Transaction<Id, R>>, ids: seq<Id>)
    ensures MarkBlocked(a + b, ids) == MarkBlocked(a, ids) + MarkBlocked(b, ids)
  {
    if a != [] {
      assert (a + b)[1..] == a[1..] + b;
      MarkBlockedAppend(a[1..], b, ids);
    } else {
      assert a + b == b;
    }
  }

  /**
   * The marking covers the whole store, not only the analysed window: the
   * records before the window are marked against the same list.
   */
  lemma MarkBlockedBeyondWindow<Id, R>(store: seq<Transaction<Id, R>>, limit: int, ids: seq<Id>)
    requires limit > 0
    ensures var w := Window(store, limit);
            var older := store[..|store| - |w|];
            MarkBlocked(store, ids) == MarkBlocked(older, ids) + MarkBlocked(w, ids)
  {
    var w := Window(store, limit);
    var older := store[..|store| - |w|];
    assert store == older + w;
    MarkBlockedAppend(older, w, ids);
  }

  /** Marking with the same list twice gives the store marked once. */
  lemma {:induction false} MarkBlockedIdempotent<Id, R>(store: seq<Transaction<Id, R>>, ids: seq<Id>)
    ensures MarkBlocked(MarkBlocked(store, ids), ids) == MarkBlocked(store, ids)
  {
    if store != [] {
      var once := MarkBlocked(store, ids);
      assert once[1..] == MarkBlocked(store[1..], ids);
      MarkBlockedIdempotent(store[1..], ids);
    }
  }

  /** An empty list (the fallback when the reply does not parse) leaves the store as it was. */
  lemma {:induction false} MarkBlockedNoIds<Id, R>(store: seq<Transaction<Id, R>>)
    ensures MarkBlocked(store, []) == store
  {
    if store != [] {
      MarkBlockedNoIds(store[1..]);
    }
  }

  /** The number of positions at which two equally long lists differ. */
  ghost function Changed<T>(before: seq<T>, after: seq<T>): (n: nat)
    requires |before| == |after|
    ensures n <= |before|
    ensures n == 0 <==> before == after
  {
    if before == [] then 0
    else (if before[0] != after[0] then 1 else 0) + Changed(before[1..], after[1..])
  }

  /** No two records of the store share an id (assumed by the system, never enforced). */
  ghost predicate DistinctIds<Id, R>(store: seq<Transaction<Id, R>>) {
    forall i, j :: 0 <= i < j < |store| ==> store[i].id != store[j].id
  }

  /** The ids occurring in a store. */
  ghost function IdsOf<Id, R>(store: seq<Transaction<Id, R>>): (s: set<Id>)
    ensures forall i :: 0 <= i < |store| ==> store[i].id in s
    ensures forall x :: x in s ==> exists i :: 0 <= i < |store| && store[i].id == x
  {
    if store == [] then {} else {store[0].id} + IdsOf(store[1..])
  }

  ghost function Elements<T>(xs: seq<T>): set<T> {
    set x | x in xs
  }

  lemma {:induction false} ElementsBound<T>(xs: seq<T>)
    ensures |Elements(xs)| <= |xs|
  {
    if xs != [] {
      ElementsBound(xs[1..]);
      assert Elements(xs) == Elements(xs[1..]) + {xs[0]};
    }
  }

  /** The tail of a store with distinct ids has distinct ids, none equal to the head's. */
  lemma DistinctTail<Id, R>(store: seq<Transaction<Id, R>>)
    requires store != [] && DistinctIds(store)
    ensures DistinctIds(store[1..]) && store[0].id !in IdsOf(store[1..])
  {
    var t := store[1..];
    forall i, j | 0 <= i < j < |t| ensures t[i].id != t[j].id {
      assert t[i] == store[i + 1] && t[j] == store[j + 1];
    }
  }

  /** Marking changes the first record exactly when it is listed and not yet blocked. */
  lemma ChangedHead<Id, R>(store: seq<Transaction<Id, R>>, ids: seq<Id>)
    requires store != []
    ensures Changed(store, MarkBlocked(store, ids))
            == (if store[0].id in ids && !store[0].blocked then 1 else 0)
               + Changed(store[1..], MarkBlocked(store[1..], ids))
  {
    var after := MarkBlocked(store, ids);
    assert after[1..] == MarkBlocked(store[1..], ids);
    assert after[0] == Mark(store[0], ids);
  }

  /** The head's id, when new, adds one to the ids shared with the list exactly when it is listed. */
  lemma SharedIdsHead<Id, R>(store: seq<Transaction<Id, R>>, ids: seq<Id>)
    requires store != [] && store[0].id !in IdsOf(store[1..])
    ensures |IdsOf(store) * Elements(ids)|
            == |IdsOf(store[1..]) * Elements(ids)| + (if store[0].id in ids then 1 else 0)
  {
    var x, e := store[0].id, Elements(ids);
    var shared := IdsOf(store[1..]) * e;
    assert IdsOf(store) == IdsOf(store[1..]) + {x};
    if x in ids {
      assert x !in shared;
      assert IdsOf(store) * e == shared + {x};
    } else {
      assert IdsOf(store) * e == shared;
    }
  }

  lemma {:induction false} ChangedByMarking<Id, R>(store: seq<Transaction<Id, R>>, ids: seq<Id>)
    requires DistinctIds(store)
    ensures Changed(store, MarkBlocked(store, ids)) <= |IdsOf(store) * Elements(ids)|
  {
    if store != [] {
      ChangedHead(store, ids);
      DistinctTail(store);
      ChangedByMarking(store[1..], ids);
      SharedIdsHead(store, ids);
    }
  }

  /**
   * When the store's ids are distinct, the number of records the marking
   * actually changes is at most the length of the id list, which is what the
   * handler reports as `blockedCount`.
   */
  lemma BlockedCountBoundsChanges<Id, R>(store: seq<Transaction<Id, R>>, ids: seq<Id>)
    requires DistinctIds(store)
    ensures Changed(store, MarkBlocked(store, ids)) <= |ids|
  {
    ChangedByMarking(store, ids);
    ElementsBound(ids);
    var both := IdsOf(store) * Elements(ids);
    assert |Elements(ids)| == |both| + |Elements(ids) - both|;
  }

  /**
   * `blockedCount` is the list's length, not the number of records changed:
   * a repeated id, an id absent from the store and an already blocked record
   * all count.
   */
  lemma BlockedCountOvercounts()
    ensures var store := [Transaction(1, false, 0), Transaction(2, true, 0)];
            var ids := [1, 1, 2, 7];
            Changed(store, MarkBlocked(store, ids)) == 1 && |ids| == 4
  {
    var store := [Transaction(1, false, 0), Transaction(2, true, 0)];
    var ids := [1, 1, 2, 7];
    assert MarkBlocked(store, ids) == [Transaction(1, true, 0), Transaction(2, true, 0)];
  }

  /** Without distinct ids the bound fails: one listed id blocks every record carrying it. */
  lemma DuplicateIdsExceedBlockedCount()
    ensures var store := [Transaction(5, false, 0), Transaction(5, false, 1)];
            var ids := [5];
            !DistinctIds(store) && Changed(store, MarkBlocked(store, ids)) == 2 && |ids| == 1
  {
    var store := [Transaction(5, false, 0), Transaction(5, false, 1)];
    assert MarkBlocked(store, [5]) == [Transaction(5, true, 0), Transaction(5, true, 1)];
  }

  /** Three unblocked records T1..T3 and the list ["T2"]: only T2 becomes blocked. */
  lemma BlockOneOfThree()
    ensures var store := [Transaction("T1", false, 1), Transaction("T2", false, 2), Transaction("T3", false, 3)];
            MarkBlocked(store, ["T2"]) == [store[0], store[1].(blocked := true), store[2]]
            && Window(store, 3) == store
  {
  }
}
