/** The local effect of each item mutation of the `App` component: a `map` or
    `filter` over the previous list of items, keyed by `id`. */
module Store {
  import opened Seqs
  import opened Items
  import opened Platforms

  /** A one-field update: `{ ...item, deleted_at: t }` or `{ ...item, reviewed_at: t }`. */
  datatype Patch = SetDeletedAt(deletedAt: Option<int>) | SetReviewedAt(reviewedAt: Option<int>)

  function Patched(x: Item, p: Patch): (r: Item)
  {
    match p
    case SetDeletedAt(t) => x.(deletedAt := t)
    case SetReviewedAt(t) => x.(reviewedAt := t)
  }

  /** `items.map(i => i.id === id ? patched(i) : i)`. */
  function ApplyPatch(items: seq<Item>, id: string, p: Patch): (r: seq<Item>)
    ensures |r| == |items|
    ensures forall i :: 0 <= i < |items| ==>
      r[i] == if items[i].id == id then Patched(items[i], p) else items[i]
  {
    if items == [] then []
    else [if items[0].id == id then Patched(items[0], p) else items[0]] + ApplyPatch(items[1..], id, p)
  }

  function SoftDeleted(items: seq<Item>, id: string, now: int): (r: seq<Item>)
  {
    ApplyPatch(items, id, SetDeletedAt(Some(now)))
  }

  function Restored(items: seq<Item>, id: string): (r: seq<Item>)
  {
    ApplyPatch(items, id, SetDeletedAt(None))
  }

  function MarkedReviewed(items: seq<Item>, id: string, now: int): (r: seq<Item>)
  {
    ApplyPatch(items, id, SetReviewedAt(Some(now)))
  }

  /** `items.filter(item => item.id !== id)`. */
  function PermanentlyDeleted(items: seq<Item>, id: string): (r: seq<Item>)
  {
    Filter(items, IdIsNot(id))
  }

  /** `items.filter(item => !item.deleted_at)`. */
  function EmptiedBin(items: seq<Item>): (r: seq<Item>)
  {
    Filter(items, IsActive)
  }

  /** `xs.map(i => i.id)`. */
  function Ids(xs: seq<Item>): (r: seq<string>)
    ensures |r| == |xs|
    ensures forall i :: 0 <= i < |xs| ==> r[i] == xs[i].id
  {
    if xs == [] then [] else [xs[0].id] + Ids(xs[1..])
  }

  /** The ids sent with the bulk delete: `items.filter(i => i.deleted_at).map(i => i.id)`. */
  function BinIds(items: seq<Item>): (r: seq<string>)
  {
    Ids(Filter(items, IsDeleted))
  }

  /** The title every new link is saved with. */
  const NewItemTitle := "New Saved Link"

  /** The insert payload built by `handleAddItem`; the thumbnail is chosen by the caller. */
  function NewItemFor(user: UserProfile, url: string, thumbnail: string, now: int): (r: NewItem)
  {
    NewItem(user.id, url, thumbnail, NewItemTitle, DefaultSpace, None, [], "", GetPlatform(url), now)
  }

  /** The row the remote store holds after inserting `n` under the id it assigned. */
  function Inserted(n: NewItem, id: string): (r: Item)
  {
    Item(id, n.userId, n.url, n.thumbnail, n.title, Some(n.categoryId), n.subcategoryId, n.tags,
         Some(n.shortDescription), None, n.createdAt, None, None, Some(n.platform), None)
  }

  /** No two records share an id. */
  ghost predicate UniqueIds(items: seq<Item>)
  {
    forall id :: |Filter(items, HasId(id))| <= 1
  }

  /** Patches change only the records whose id matches, and one field of each. */
  lemma PatchFrame(items: seq<Item>, id: string, p: Patch, i: int)
    requires 0 <= i < |items|
    ensures ApplyPatch(items, id, p)[i].id == items[i].id
    ensures ApplyPatch(items, id, p)[i].createdAt == items[i].createdAt
    ensures p.SetDeletedAt? ==> ApplyPatch(items, id, p)[i].reviewedAt == items[i].reviewedAt
    ensures p.SetReviewedAt? ==> ApplyPatch(items, id, p)[i].deletedAt == items[i].deletedAt
    ensures items[i].id == id && p.SetDeletedAt? ==> ApplyPatch(items, id, p)[i].deletedAt == p.deletedAt
    ensures items[i].id == id && p.SetReviewedAt? ==> ApplyPatch(items, id, p)[i].reviewedAt == p.reviewedAt
    ensures items[i].id != id ==> ApplyPatch(items, id, p)[i] == items[i]
  {
  }

  /** Setting the same field twice keeps only the second value (last write wins). */
  lemma {:induction false} LastWriteWins(items: seq<Item>, id: string, p: Patch, q: Patch)
    requires p.SetDeletedAt? == q.SetDeletedAt?
    ensures ApplyPatch(ApplyPatch(items, id, p), id, q) == ApplyPatch(items, id, q)
  {
    if items != [] {
      LastWriteWins(items[1..], id, p, q);
      assert ApplyPatch(items, id, p)[1..] == ApplyPatch(items[1..], id, p);
    }
  }

  /** A patch that writes the value every matching record already holds changes nothing. */
  lemma {:induction false} PatchUnchanged(items: seq<Item>, id: string, t: Option<int>)
    requires forall i :: 0 <= i < |items| && items[i].id == id ==> items[i].deletedAt == t
    ensures ApplyPatch(items, id, SetDeletedAt(t)) == items
  {
    if items != [] {
      PatchUnchanged(items[1..], id, t);
      assert items == [items[0]] + items[1..];
    }
  }

  /** Restore undoes a soft delete of records that were active. */
  lemma RestoreUndoesSoftDelete(items: seq<Item>, id: string, now: int)
    requires forall i :: 0 <= i < |items| && items[i].id == id ==> IsActive(items[i])
    ensures Restored(SoftDeleted(items, id, now), id) == items
  {
    LastWriteWins(items, id, SetDeletedAt(Some(now)), SetDeletedAt(None));
    PatchUnchanged(items, id, None);
  }

  /** Permanent delete keeps exactly the records with another id, in order. */
  lemma PermanentDeleteSpec(items: seq<Item>, id: string)
    ensures IsSubsequence(PermanentlyDeleted(items, id), items)
    ensures forall x :: x in PermanentlyDeleted(items, id) <==> x in items && x.id != id
    ensures |PermanentlyDeleted(items, id)| == |items| - |Filter(items, HasId(id))|
  {
    FilterIsSubsequence(items, IdIsNot(id));
    FilterMembers(items, IdIsNot(id));
    FilterPartition(items, id);
  }

  lemma {:induction false} FilterPartition(items: seq<Item>, id: string)
    ensures |Filter(items, IdIsNot(id))| + |Filter(items, HasId(id))| == |items|
  {
    if items != [] {
      FilterPartition(items[1..], id);
    }
  }

  /** Emptying the bin keeps exactly the records without `deleted_at`, in order, and
      the bulk delete names the id of every record with `deleted_at`, whatever its age. */
  lemma EmptyBinSpec(items: seq<Item>)
    ensures IsSubsequence(EmptiedBin(items), items)
    ensures forall x :: x in EmptiedBin(items) <==> x in items && IsActive(x)
    ensures forall x :: x in items && IsDeleted(x) ==> x.id in BinIds(items)
    ensures forall id :: id in BinIds(items) ==> exists x :: x in items && IsDeleted(x) && x.id == id
    ensures |EmptiedBin(items)| + |BinIds(items)| == |items|
  {
    FilterIsSubsequence(items, IsActive);
    FilterMembers(items, IsActive);
    FilterMembers(items, IsDeleted);
    DeletedPartition(items);
    var d := Filter(items, IsDeleted);
    forall x | x in items && IsDeleted(x)
      ensures x.id in BinIds(items)
    {
      var k :| 0 <= k < |d| && d[k] == x;
      assert BinIds(items)[k] == x.id;
    }
    forall id | id in BinIds(items)
      ensures exists x :: x in items && IsDeleted(x) && x.id == id
    {
      var k :| 0 <= k < |d| && BinIds(items)[k] == id;
      assert d[k] in d;
    }
  }

  /** Every record is either active or deleted. */
  lemma {:induction false} DeletedPartition(items: seq<Item>)
    ensures |Filter(items, IsActive)| + |Filter(items, IsDeleted)| == |items|
  {
    if items != [] {
      DeletedPartition(items[1..]);
    }
  }

  /** The payload of a new link: Inbox, no tags, stamped with the current time. */
  lemma NewItemSpec(user: UserProfile, url: string, thumbnail: string, now: int, id: string)
    ensures NewItemFor(user, url, thumbnail, now).categoryId == DefaultSpace
    ensures NewItemFor(user, url, thumbnail, now).tags == []
    ensures NewItemFor(user, url, thumbnail, now).createdAt == now
    ensures NewItemFor(user, url, thumbnail, now).userId == user.id
    ensures var x := Inserted(NewItemFor(user, url, thumbnail, now), id);
      IsActive(x) && IsUnreviewed(x) && SpaceOf(x) == DefaultSpace && x.id == id
  {
  }
}
