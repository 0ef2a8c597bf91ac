/** How each mutation of the item list shows up in the derived views. */
module Lifecycle {
  import opened Seqs
  import opened Sorting
  import opened Items
  import opened Store
  import opened Views

  /** A patch that takes a record out of the review queue: soft delete or mark reviewed. */
  predicate Retires(p: Patch)
  {
    (p.SetDeletedAt? && p.deletedAt.Some?) || (p.SetReviewedAt? && p.reviewedAt.Some?)
  }

  /** Soft delete removes exactly the records with that id from the active items. */
  lemma {:induction false} ActiveAfterSoftDelete(items: seq<Item>, id: string, now: int)
    ensures ActiveItems(SoftDeleted(items, id, now)) == Filter(ActiveItems(items), IdIsNot(id))
  {
    if items != [] {
      ActiveAfterSoftDelete(items[1..], id, now);
      var a := items[0];
      var a' := if a.id == id then a.(deletedAt := Some(now)) else a;
      assert SoftDeleted(items, id, now) == [a'] + SoftDeleted(items[1..], id, now);
      FilterCons(a', SoftDeleted(items[1..], id, now), IsActive);
      FilterCons(a, items[1..], IsActive);
      assert items == [a] + items[1..];
      if IsActive(a) {
        assert ActiveItems(items) == [a] + ActiveItems(items[1..]);
        FilterCons(a, ActiveItems(items[1..]), IdIsNot(id));
        assert IdIsNot(id)(a) == (a.id != id);
        if a.id == id {
          assert !IsActive(a');
          assert ActiveItems(SoftDeleted(items, id, now)) == ActiveItems(SoftDeleted(items[1..], id, now));
        } else {
          assert ActiveItems(SoftDeleted(items, id, now)) == [a] + ActiveItems(SoftDeleted(items[1..], id, now));
        }
      } else {
        assert !IsActive(a');
        assert ActiveItems(items) == ActiveItems(items[1..]);
        assert ActiveItems(SoftDeleted(items, id, now)) == ActiveItems(SoftDeleted(items[1..], id, now));
      }
    }
  }

  lemma PendingCons(x: Item, s: seq<Item>)
    ensures Pending([x] + s) == (if IsActive(x) && IsUnreviewed(x) then [x] else []) + Pending(s)
  {
    FilterCons(x, s, IsActive);
    if IsActive(x) {
      FilterCons(x, ActiveItems(s), IsUnreviewed);
    } else {
      assert ActiveItems([x] + s) == ActiveItems(s);
    }
  }

  /** The pending part of one record after a retiring patch to `id`. */
  lemma PendingHeadRetire(a: Item, id: string, p: Patch)
    requires Retires(p)
    ensures var a' := if a.id == id then Patched(a, p) else a;
      (if IsActive(a') && IsUnreviewed(a') then [a'] else [])
        == Filter(if IsActive(a) && IsUnreviewed(a) then [a] else [], IdIsNot(id))
  {
    FilterCons(a, [], IdIsNot(id));
  }

  /** A retiring patch removes exactly the records with that id from the pending records. */
  lemma {:induction false} PendingAfterRetire(items: seq<Item>, id: string, p: Patch)
    requires Retires(p)
    ensures Pending(ApplyPatch(items, id, p)) == Filter(Pending(items), IdIsNot(id))
  {
    if items != [] {
      var a := items[0];
      var a' := if a.id == id then Patched(a, p) else a;
      var rest := ApplyPatch(items[1..], id, p);
      var head := if IsActive(a) && IsUnreviewed(a) then [a] else [];
      PendingAfterRetire(items[1..], id, p);
      assert ApplyPatch(items, id, p) == [a'] + rest;
      assert items == [a] + items[1..];
      PendingCons(a', rest);
      PendingCons(a, items[1..]);
      PendingHeadRetire(a, id, p);
      FilterAppend(head, Pending(items[1..]), IdIsNot(id));
    }
  }

  /** Soft delete or mark reviewed of `id` removes exactly the records with that id
      from the next review queue and leaves the order of the others unchanged. */
  lemma ReviewQueueAfterRetire(items: seq<Item>, id: string, p: Patch)
    requires Retires(p)
    ensures ReviewQueue(ApplyPatch(items, id, p)) == Filter(ReviewQueue(items), IdIsNot(id))
  {
    PendingAfterRetire(items, id, p);
    SortByFilter(Pending(items), CreatedAt, IdIsNot(id));
  }

  /** With unique ids a sorted-by-filter sequence holds at most one record per id. */
  lemma ReviewQueueUniqueIds(items: seq<Item>, id: string)
    requires UniqueIds(items)
    ensures |Filter(ReviewQueue(items), HasId(id))| <= 1
  {
    var pending := Pending(items);
    FilterIsSubsequence(items, IsActive);
    FilterIsSubsequence(ActiveItems(items), IsUnreviewed);
    SubsequenceTransitive(pending, ActiveItems(items), items);
    FilterMonotone(pending, items, HasId(id));
    SubsequenceMembers(Filter(pending, HasId(id)), Filter(items, HasId(id)));
    SortByFilter(pending, CreatedAt, HasId(id));
  }

  /** Completing the review of the head of the queue (mark reviewed or soft delete)
      leaves exactly the rest of the queue, in the same order. */
  lemma ReviewHeadAdvance(items: seq<Item>, p: Patch)
    requires UniqueIds(items) && Retires(p) && ReviewQueue(items) != []
    ensures ReviewQueue(ApplyPatch(items, ReviewQueue(items)[0].id, p)) == ReviewQueue(items)[1..]
  {
    var q := ReviewQueue(items);
    var h := q[0].id;
    ReviewQueueAfterRetire(items, h, p);
    ReviewQueueUniqueIds(items, h);
    assert q == [q[0]] + q[1..];
    FilterCons(q[0], q[1..], HasId(h));
    FilterCons(q[0], q[1..], IdIsNot(h));
    FilterMembers(q[1..], HasId(h));
    assert forall i :: 0 <= i < |q[1..]| ==> q[1..][i] !in Filter(q[1..], HasId(h));
    FilterAllPass(q[1..], IdIsNot(h));
  }

  /** A record soft-deleted at `deletedAt` is in the bin computed at `now` exactly
      when `now` is less than thirty days after `deletedAt`. */
  lemma SoftDeletedInBin(items: seq<Item>, id: string, deletedAt: int, now: int)
    ensures forall x :: x in items && x.id == id ==>
      ((x.(deletedAt := Some(deletedAt)) in BinItems(SoftDeleted(items, id, deletedAt), now))
        <==> now < deletedAt + RetentionMs)
  {
    var r := SoftDeleted(items, id, deletedAt);
    BinSpec(r, now);
    forall x | x in items && x.id == id
      ensures x.(deletedAt := Some(deletedAt)) in r
    {
      var k :| 0 <= k < |items| && items[k] == x;
      assert r[k] == x.(deletedAt := Some(deletedAt));
    }
  }

  /** Every record is still there after restore, with `deleted_at` cleared when its
      id matches. */
  lemma RestoredMembers(items: seq<Item>, id: string)
    ensures forall x :: x in items ==> (if x.id == id then x.(deletedAt := None) else x) in Restored(items, id)
  {
    var r := Restored(items, id);
    forall x | x in items
      ensures (if x.id == id then x.(deletedAt := None) else x) in r
    {
      var k :| 0 <= k < |items| && items[k] == x;
      assert r[k] == if x.id == id then x.(deletedAt := None) else x;
    }
  }

  /** Restore makes the records with that id active again, and those not yet reviewed
      come back to the review queue; records with another id are untouched. */
  lemma RestoreReadmits(items: seq<Item>, id: string)
    ensures forall x :: x in items && x.id == id ==> x.(deletedAt := None) in ActiveItems(Restored(items, id))
    ensures forall x :: x in items && x.id == id && IsUnreviewed(x) ==>
      x.(deletedAt := None) in ReviewQueue(Restored(items, id))
    ensures forall x :: x in ActiveItems(items) ==> x in ActiveItems(Restored(items, id))
  {
    var r := Restored(items, id);
    RestoredMembers(items, id);
    ActiveSpec(items);
    ActiveSpec(r);
    ReviewQueueMembers(r);
    forall x | x in ActiveItems(items)
      ensures x in r
    {
      if x.id == id {
        assert x.(deletedAt := None) == x;
      }
    }
  }

  /** Emptying the bin leaves the active items, the feed and the review queue as
      they were, and leaves the bin empty at every moment. */
  lemma EmptyBinKeepsViews(items: seq<Item>, selected: Option<string>, query: string, now: int)
    ensures ActiveItems(EmptiedBin(items)) == ActiveItems(items)
    ensures Feed(EmptiedBin(items), selected, query) == Feed(items, selected, query)
    ensures ReviewQueue(EmptiedBin(items)) == ReviewQueue(items)
    ensures BinItems(EmptiedBin(items), now) == []
  {
    FilterIdempotent(items, IsActive);
    BinOfActiveIsEmpty(items, now);
  }

  /** Permanent delete removes the records with that id from the active items and
      from the review queue, and keeps the order of the others. */
  lemma PermanentDeleteViews(items: seq<Item>, id: string)
    ensures ActiveItems(PermanentlyDeleted(items, id)) == Filter(ActiveItems(items), IdIsNot(id))
    ensures ReviewQueue(PermanentlyDeleted(items, id)) == Filter(ReviewQueue(items), IdIsNot(id))
  {
    FilterCommute(items, IdIsNot(id), IsActive);
    FilterCommute(ActiveItems(items), IdIsNot(id), IsUnreviewed);
    SortByFilter(Pending(items), CreatedAt, IdIsNot(id));
  }

  /** A saved row that is active, unreviewed and in the "Inbox" space, as the row
      stored from the insert payload is, leads the unfiltered feed once put in
      front of the items, makes "Inbox" the first space, and waits in the review
      queue. */
  lemma AddedItemViews(items: seq<Item>, x: Item)
    requires IsActive(x) && IsUnreviewed(x) && SpaceOf(x) == DefaultSpace
    ensures Feed([x] + items, None, "")[0] == x
    ensures SpaceKeys(ActiveItems([x] + items))[0] == DefaultSpace
    ensures x in ReviewQueue([x] + items)
  {
    var s := [x] + items;
    FilterCons(x, items, IsActive);
    var a := ActiveItems(s);
    assert a[0] == x;
    SpaceKeysMembers(a);
    SpaceKeysFirstSeenOrder(a);
    var keys := SpaceKeys(a);
    assert DefaultSpace in keys by {
      assert SpaceOf(a[0]) == DefaultSpace;
    }
    assert FirstIndex(a, DefaultSpace) == 0;
    forall i | 0 < i < |keys|
      ensures keys[i] != DefaultSpace
    {
      assert FirstIndex(a, keys[0]) < FirstIndex(a, keys[i]);
    }
    ReviewQueueMembers(s);
  }
}
