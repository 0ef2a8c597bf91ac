/** The views the `App` component derives from its list of items: the active
    items, the bin, the feed, the spaces and the review queue. */
module Views {
  import opened Seqs
  import opened Text
  import opened Sorting
  import opened Items

  /** Thirty days in milliseconds: the bin's retention window. */
  const RetentionMs := 30 * 86400000

  /** `items.filter(i => !i.deleted_at)`. */
  function ActiveItems(items: seq<Item>): (r: seq<Item>)
  {
    Filter(items, IsActive)
  }

  /** `new Date(i.deleted_at) > thirtyDaysAgo`, for a record that has `deleted_at`. */
  function WithinRetention(now: int): (r: Item -> bool)
  {
    (x: Item) => x.deletedAt.Some? && x.deletedAt.value > now - RetentionMs
  }

  /** The deleted records whose deletion is less than thirty days old. */
  function BinItems(items: seq<Item>, now: int): (r: seq<Item>)
  {
    Filter(Filter(items, IsDeleted), WithinRetention(now))
  }

  /** The search test with the query already lower-cased: the title, or a
      non-empty url, includes the query. */
  function MatchesQuery(lowerQuery: string): (r: Item -> bool)
  {
    (x: Item) => Contains(Lower(x.title), lowerQuery)
                 || (x.url != "" && Contains(Lower(x.url), lowerQuery))
  }

  /** The feed: the active items, narrowed to the selected space when one is
      selected, then to the items matching the search query when it is not empty. */
  function Feed(items: seq<Item>, selected: Option<string>, query: string): (r: seq<Item>)
  {
    var active := ActiveItems(items);
    var inSpace := if selected.Some? && selected.value != "" then Filter(active, InSpace(selected.value)) else active;
    if query != "" then Filter(inSpace, MatchesQuery(Lower(query))) else inSpace
  }

  /** With no space selected and a query given, the feed is the active items that
      match the lower-cased query. */
  lemma FeedUnnarrowed(items: seq<Item>, query: string)
    requires query != ""
    ensures Feed(items, None, query) == Filter(ActiveItems(items), MatchesQuery(Lower(query)))
  {
  }

  /** The records waiting for review: active and without `reviewed_at`. */
  function Pending(items: seq<Item>): (r: seq<Item>)
  {
    Filter(ActiveItems(items), IsUnreviewed)
  }

  /** The pending records, oldest first. */
  function ReviewQueue(items: seq<Item>): (r: seq<Item>)
  {
    SortBy(Pending(items), CreatedAt)
  }

  // ---------------------------------------------------------------------------
  // Active items and bin

  /** Every record is active or deleted, and the counts add up. */
  lemma {:induction false} ActivePartition(items: seq<Item>)
    ensures |ActiveItems(items)| + |Filter(items, IsDeleted)| == |items|
  {
    if items != [] {
      ActivePartition(items[1..]);
    }
  }

  lemma ActiveSpec(items: seq<Item>)
    ensures IsSubsequence(ActiveItems(items), items)
    ensures forall x :: x in ActiveItems(items) <==> x in items && x.deletedAt.None?
  {
    FilterIsSubsequence(items, IsActive);
    FilterMembers(items, IsActive);
  }

  /** The bin holds exactly the records deleted less than thirty days before `now`,
      in list order, and shares no record with the active items. */
  lemma BinSpec(items: seq<Item>, now: int)
    ensures IsSubsequence(BinItems(items, now), Filter(items, IsDeleted))
    ensures forall x :: x in BinItems(items, now) <==>
      x in items && x.deletedAt.Some? && x.deletedAt.value > now - RetentionMs
    ensures forall x :: x in BinItems(items, now) ==> x !in ActiveItems(items)
  {
    FilterIsSubsequence(Filter(items, IsDeleted), WithinRetention(now));
    FilterMembers(Filter(items, IsDeleted), WithinRetention(now));
    FilterMembers(items, IsDeleted);
    FilterMembers(items, IsActive);
  }

  /** Once the bin is emptied, no later moment shows anything in it. */
  lemma BinOfActiveIsEmpty(items: seq<Item>, now: int)
    ensures BinItems(ActiveItems(items), now) == []
  {
    var a := ActiveItems(items);
    FilterNonePass(a, IsDeleted);
  }

  // ---------------------------------------------------------------------------
  // Feed

  /** The search test stated with substring occurrence instead of the search function. */
  ghost predicate QueryMatches(x: Item, query: string)
  {
    query == ""
    || HasSubstring(Lower(x.title), Lower(query))
    || (x.url != "" && HasSubstring(Lower(x.url), Lower(query)))
  }

  ghost predicate SpaceMatches(x: Item, selected: Option<string>)
  {
    selected.None? || selected.value == "" || SpaceOf(x) == selected.value
  }

  lemma MatchesQuerySpec(x: Item, query: string)
    requires query != ""
    ensures MatchesQuery(Lower(query))(x) <==> QueryMatches(x, query)
  {
    ContainsIffOccurs(Lower(x.title), Lower(query));
    ContainsIffOccurs(Lower(x.url), Lower(query));
  }

  /** The feed keeps the active order, holds exactly the active items in the selected
      space that match the query, and is all active items when nothing narrows it. */
  lemma FeedSpec(items: seq<Item>, selected: Option<string>, query: string)
    ensures IsSubsequence(Feed(items, selected, query), ActiveItems(items))
    ensures forall x :: x in Feed(items, selected, query) <==>
      x in items && IsActive(x) && SpaceMatches(x, selected) && QueryMatches(x, query)
    ensures (selected.None? || selected == Some("")) && query == "" ==>
      Feed(items, selected, query) == ActiveItems(items)
  {
    var active := ActiveItems(items);
    ActiveSpec(items);
    var inSpace := if selected.Some? && selected.value != "" then Filter(active, InSpace(selected.value)) else active;
    if selected.Some? && selected.value != "" {
      FilterIsSubsequence(active, InSpace(selected.value));
      FilterMembers(active, InSpace(selected.value));
    } else {
      SubsequenceOfSelf(active);
    }
    assert IsSubsequence(inSpace, active);
    assert forall x :: x in inSpace <==> x in items && IsActive(x) && SpaceMatches(x, selected);
    if query != "" {
      FilterIsSubsequence(inSpace, MatchesQuery(Lower(query)));
      SubsequenceTransitive(Filter(inSpace, MatchesQuery(Lower(query))), inSpace, active);
      FilterMembers(inSpace, MatchesQuery(Lower(query)));
      forall x | x in inSpace
        ensures MatchesQuery(Lower(query))(x) <==> QueryMatches(x, query)
      {
        MatchesQuerySpec(x, query);
      }
    }
  }

  // ---------------------------------------------------------------------------
  // Review queue

  /** The review queue is sorted oldest first, is a permutation of the unreviewed
      active items, and keeps list order among items created at the same instant. */
  lemma ReviewQueueSpec(items: seq<Item>)
    ensures SortedBy(ReviewQueue(items), CreatedAt)
    ensures multiset(ReviewQueue(items)) == multiset(Pending(items))
    ensures forall t :: Filter(ReviewQueue(items), KeyIs(CreatedAt, t)) == Filter(Pending(items), KeyIs(CreatedAt, t))
  {
    var pending := Pending(items);
    SortBySorted(pending, CreatedAt);
    SortByPermutation(pending, CreatedAt);
    forall t
      ensures Filter(ReviewQueue(items), KeyIs(CreatedAt, t)) == Filter(pending, KeyIs(CreatedAt, t))
    {
      SortByStable(pending, CreatedAt, t);
    }
  }

  /** Membership in the review queue. */
  lemma ReviewQueueMembers(items: seq<Item>)
    ensures forall x :: x in ReviewQueue(items) <==> x in items && IsActive(x) && IsUnreviewed(x)
  {
    var pending := Pending(items);
    SortByPermutation(pending, CreatedAt);
    FilterMembers(ActiveItems(items), IsUnreviewed);
    FilterMembers(items, IsActive);
    assert forall x :: x in ReviewQueue(items) <==> x in multiset(pending);
  }

  // ---------------------------------------------------------------------------
  // Spaces

  /** The space names of `s` in order of first occurrence. */
  function SpaceKeys(s: seq<Item>): (r: seq<string>)
  {
    if s == [] then []
    else
      var keys := SpaceKeys(s[..|s| - 1]);
      var k := SpaceOf(s[|s| - 1]);
      if k in keys then keys else keys + [k]
  }

  predicate NoDuplicates<T(==)>(s: seq<T>)
  {
    forall i, j :: 0 <= i < j < |s| ==> s[i] != s[j]
  }

  /** The position of the first item of `s` in space `k`; `|s|` if there is none. */
  function FirstIndex(s: seq<Item>, k: string): (r: nat)
    ensures r <= |s|
    ensures r < |s| ==> SpaceOf(s[r]) == k
    ensures forall i :: 0 <= i < r ==> SpaceOf(s[i]) != k
  {
    if s == [] then 0 else if SpaceOf(s[0]) == k then 0 else 1 + FirstIndex(s[1..], k)
  }

  lemma {:induction false} FirstIndexAppend(s: seq<Item>, x: Item, k: string)
    ensures FirstIndex(s + [x], k) ==
      if FirstIndex(s, k) < |s| then FirstIndex(s, k) else if SpaceOf(x) == k then |s| else |s| + 1
  {
    if s != [] {
      assert (s + [x])[0] == s[0] && (s + [x])[1..] == s[1..] + [x];
      FirstIndexAppend(s[1..], x, k);
    }
  }

  /** Appending an item adds its space at the end when it is new, and nothing otherwise. */
  lemma SpaceKeysAppend(s: seq<Item>, x: Item)
    ensures SpaceKeys(s + [x]) == if SpaceOf(x) in SpaceKeys(s) then SpaceKeys(s) else SpaceKeys(s) + [SpaceOf(x)]
  {
    assert (s + [x])[..|s + [x]| - 1] == s;
  }

  /** The space names are exactly the spaces of the items. */
  lemma {:induction false} SpaceKeysMembers(s: seq<Item>)
    ensures forall k :: k in SpaceKeys(s) <==> exists i :: 0 <= i < |s| && SpaceOf(s[i]) == k
  {
    if s != [] {
      var p := s[..|s| - 1];
      assert s == p + [s[|s| - 1]];
      SpaceKeysMembers(p);
      forall k | k in SpaceKeys(s)
        ensures exists i :: 0 <= i < |s| && SpaceOf(s[i]) == k
      {
        if k in SpaceKeys(p) {
          var i :| 0 <= i < |p| && SpaceOf(p[i]) == k;
          assert s[i] == p[i];
        } else {
          assert SpaceOf(s[|s| - 1]) == k;
        }
      }
      forall k | exists i :: 0 <= i < |s| && SpaceOf(s[i]) == k
        ensures k in SpaceKeys(s)
      {
        var i :| 0 <= i < |s| && SpaceOf(s[i]) == k;
        if i < |p| {
          assert SpaceOf(p[i]) == k;
        }
      }
    }
  }

  /** The space names are distinct. */
  lemma {:induction false} SpaceKeysDistinct(s: seq<Item>)
    ensures NoDuplicates(SpaceKeys(s))
  {
    if s != [] {
      SpaceKeysDistinct(s[..|s| - 1]);
    }
  }

  /** A space already seen keeps its first index when a record is appended. */
  lemma FirstIndexKnown(p: seq<Item>, x: Item, k: string)
    requires k in SpaceKeys(p)
    ensures FirstIndex(p + [x], k) == FirstIndex(p, k) < |p|
  {
    SpaceKeysMembers(p);
    var i :| 0 <= i < |p| && SpaceOf(p[i]) == k;
    FirstIndexAppend(p, x, k);
  }

  /** The space of an appended record not seen before is first seen at its position. */
  lemma FirstIndexNew(p: seq<Item>, x: Item)
    requires SpaceOf(x) !in SpaceKeys(p)
    ensures FirstIndex(p + [x], SpaceOf(x)) == |p|
  {
    NotAmongKeys(p, SpaceOf(x));
    FirstIndexAppend(p, x, SpaceOf(x));
  }

  /** The space names appear in the order in which each is first seen. */
  lemma {:induction false} SpaceKeysFirstSeenOrder(s: seq<Item>)
    ensures forall i, j :: 0 <= i < j < |SpaceKeys(s)| ==>
      FirstIndex(s, SpaceKeys(s)[i]) < FirstIndex(s, SpaceKeys(s)[j]) < |s|
  {
    if s != [] {
      var p := s[..|s| - 1];
      var x := s[|s| - 1];
      assert s == p + [x];
      SpaceKeysFirstSeenOrder(p);
      SpaceKeysAppend(p, x);
      var keys := SpaceKeys(p);
      forall i, j | 0 <= i < j < |SpaceKeys(s)|
        ensures FirstIndex(s, SpaceKeys(s)[i]) < FirstIndex(s, SpaceKeys(s)[j]) < |s|
      {
        assert SpaceKeys(s)[i] == keys[i];
        FirstIndexKnown(p, x, keys[i]);
        if j < |keys| {
          assert SpaceKeys(s)[j] == keys[j];
          FirstIndexKnown(p, x, keys[j]);
        } else {
          assert SpaceKeys(s)[j] == SpaceOf(x);
          FirstIndexNew(p, x);
        }
      }
    }
  }

  /** The sum of the group sizes of the spaces named in `order`. */
  function TotalSize(order: seq<string>, groups: map<string, seq<Item>>): (r: nat)
  {
    if order == [] then 0
    else TotalSize(order[..|order| - 1], groups)
         + (if order[|order| - 1] in groups then |groups[order[|order| - 1]]| else 0)
  }

  lemma {:induction false} TotalSizeOutside(order: seq<string>, groups: map<string, seq<Item>>, k: string, g: seq<Item>)
    requires k !in order
    ensures TotalSize(order, groups[k := g]) == TotalSize(order, groups)
  {
    if order != [] {
      TotalSizeOutside(order[..|order| - 1], groups, k, g);
    }
  }

  lemma {:induction false} TotalSizeGrow(order: seq<string>, groups: map<string, seq<Item>>, k: string, x: Item)
    requires NoDuplicates(order) && k in order && k in groups
    ensures TotalSize(order, groups[k := groups[k] + [x]]) == TotalSize(order, groups) + 1
  {
    var init := order[..|order| - 1];
    assert NoDuplicates(init);
    if order[|order| - 1] == k {
      assert k !in init;
      TotalSizeOutside(init, groups, k, groups[k] + [x]);
    } else {
      assert k in init;
      TotalSizeGrow(init, groups, k, x);
    }
  }

  /** `order` and `groups` are the spaces of `s`: the keys in first-seen order, each
      with its items in list order, the group sizes summing to the length of `s`. */
  ghost predicate GroupsOf(s: seq<Item>, order: seq<string>, groups: map<string, seq<Item>>)
  {
    && order == SpaceKeys(s)
    && NoDuplicates(order)
    && (forall k :: k in groups <==> k in order)
    && (forall k :: k in groups ==> groups[k] == Filter(s, InSpace(k)))
    && TotalSize(order, groups) == |s|
  }

  /** Adding a group for a name not yet listed, at the end of the list, adds its size. */
  lemma TotalSizeNew(order: seq<string>, groups: map<string, seq<Item>>, k: string, g: seq<Item>)
    requires k !in order
    ensures TotalSize(order + [k], groups[k := g]) == TotalSize(order, groups) + |g|
  {
    TotalSizeOutside(order, groups, k, g);
    assert (order + [k])[..|order + [k]| - 1] == order;
  }

  /** No record of `s` belongs to a space that is not among its space names. */
  lemma NotAmongKeys(s: seq<Item>, k: string)
    requires k !in SpaceKeys(s)
    ensures forall i :: 0 <= i < |s| ==> SpaceOf(s[i]) != k
  {
    SpaceKeysMembers(s);
  }

  /** A record of a space no earlier record belongs to forms that space's group on
      its own and leaves every other space's records as they were. */
  lemma NewSpaceFilters(s: seq<Item>, x: Item, k: string)
    requires forall i :: 0 <= i < |s| ==> SpaceOf(s[i]) != SpaceOf(x)
    ensures Filter(s + [x], InSpace(SpaceOf(x))) == [x]
    ensures k != SpaceOf(x) ==> Filter(s + [x], InSpace(k)) == Filter(s, InSpace(k))
  {
    var space := SpaceOf(x);
    assert forall i :: 0 <= i < |s| ==> !InSpace(space)(s[i]);
    FilterNonePass(s, InSpace(space));
    FilterAppend(s, [x], InSpace(space));
    FilterAppend(s, [x], InSpace(k));
  }

  /** The first item of a space not seen before opens a new group at the end. */
  lemma NewSpaceStep(s: seq<Item>, x: Item, order: seq<string>, groups: map<string, seq<Item>>)
    requires GroupsOf(s, order, groups) && SpaceOf(x) !in groups
    ensures GroupsOf(s + [x], order + [SpaceOf(x)], groups[SpaceOf(x) := [x]])
  {
    var space := SpaceOf(x);
    var order', groups' := order + [space], groups[space := [x]];
    assert space !in order;
    SpaceKeysAppend(s, x);
    assert order' == SpaceKeys(s + [x]);
    SpaceKeysDistinct(s + [x]);
    KeysExtend(order, groups, space, [x]);
    NotAmongKeys(s, space);
    NewSpaceGroups(s, x, groups);
    TotalSizeNew(order, groups, space, [x]);
  }

  /** A new name added to the map and to the end of the list keeps them in step. */
  lemma KeysExtend(order: seq<string>, groups: map<string, seq<Item>>, k: string, g: seq<Item>)
    requires forall j :: j in groups <==> j in order
    ensures forall j :: j in groups[k := g] <==> j in order + [k]
  {
  }

  /** Every group, the new one included, is the filter of the longer sequence. */
  lemma NewSpaceGroups(s: seq<Item>, x: Item, groups: map<string, seq<Item>>)
    requires forall k :: k in groups ==> groups[k] == Filter(s, InSpace(k))
    requires forall i :: 0 <= i < |s| ==> SpaceOf(s[i]) != SpaceOf(x)
    ensures forall k :: k in groups[SpaceOf(x) := [x]] ==> groups[SpaceOf(x) := [x]][k] == Filter(s + [x], InSpace(k))
  {
    var groups' := groups[SpaceOf(x) := [x]];
    forall k | k in groups'
      ensures groups'[k] == Filter(s + [x], InSpace(k))
    {
      NewSpaceFilters(s, x, k);
      if k == SpaceOf(x) {
        assert groups'[k] == [x];
      } else {
        assert k in groups && groups'[k] == groups[k];
        assert groups[k] == Filter(s, InSpace(k));
      }
    }
  }

  /** Appending a record adds it at the end of its own space's records only. */
  lemma AppendToSpace(s: seq<Item>, x: Item, k: string)
    ensures Filter(s + [x], InSpace(k)) == Filter(s, InSpace(k)) + (if SpaceOf(x) == k then [x] else [])
  {
    FilterAppend(s, [x], InSpace(k));
    FilterCons(x, [], InSpace(k));
  }

  /** A later item of a known space is appended to that space's group. */
  lemma KnownSpaceStep(s: seq<Item>, x: Item, order: seq<string>, groups: map<string, seq<Item>>)
    requires GroupsOf(s, order, groups) && SpaceOf(x) in groups
    ensures GroupsOf(s + [x], order, groups[SpaceOf(x) := groups[SpaceOf(x)] + [x]])
  {
    var space := SpaceOf(x);
    var groups' := groups[space := groups[space] + [x]];
    SpaceKeysAppend(s, x);
    forall k | k in groups'
      ensures groups'[k] == Filter(s + [x], InSpace(k))
    {
      AppendToSpace(s, x, k);
    }
    TotalSizeGrow(order, groups, space, x);
  }

  /** What the groups of a whole sequence say about each item and each group. */
  lemma GroupsOfSpec(s: seq<Item>, order: seq<string>, groups: map<string, seq<Item>>)
    requires GroupsOf(s, order, groups)
    ensures forall k :: k in groups ==> groups[k] != []
    ensures forall k, x :: k in groups ==> (x in groups[k] <==> x in s && SpaceOf(x) == k)
    ensures forall x :: x in s ==> SpaceOf(x) in groups
  {
    SpaceKeysMembers(s);
    forall k | k in groups
      ensures groups[k] != [] && forall x :: x in groups[k] <==> x in s && SpaceOf(x) == k
    {
      FilterMembers(s, InSpace(k));
      var j :| 0 <= j < |s| && SpaceOf(s[j]) == k;
      assert s[j] in groups[k];
    }
    forall x | x in s
      ensures SpaceOf(x) in groups
    {
      var j :| 0 <= j < |s| && s[j] == x;
    }
  }

  /** The groups the `spaces` loop has built after visiting `s`: the first record
      of a space creates its group, and each later one is pushed onto it. */
  function SpaceGroups(s: seq<Item>): (r: map<string, seq<Item>>)
  {
    if s == [] then map[]
    else
      var groups := SpaceGroups(s[..|s| - 1]);
      var x := s[|s| - 1];
      if SpaceOf(x) in groups then groups[SpaceOf(x) := groups[SpaceOf(x)] + [x]]
      else groups[SpaceOf(x) := [x]]
  }

  /** The space names and the groups built by the loop are the spaces of `s`. */
  lemma {:induction false} SpaceGroupsSpec(s: seq<Item>)
    ensures GroupsOf(s, SpaceKeys(s), SpaceGroups(s))
  {
    if s == [] {
      assert NoDuplicates<string>([]);
    } else {
      var p := s[..|s| - 1];
      var x := s[|s| - 1];
      assert s == p + [x];
      SpaceGroupsSpec(p);
      if SpaceOf(x) in SpaceGroups(p) {
        KnownSpaceStep(p, x, SpaceKeys(p), SpaceGroups(p));
      } else {
        NewSpaceStep(p, x, SpaceKeys(p), SpaceGroups(p));
      }
      SpaceKeysAppend(p, x);
    }
  }

  /** A name has a group exactly when it is one of the space names. */
  lemma SpaceGroupsDomain(s: seq<Item>, k: string)
    ensures k in SpaceGroups(s) <==> k in SpaceKeys(s)
  {
    SpaceGroupsSpec(s);
  }

  /** The names an empty JavaScript object already answers through
      `Object.prototype`; each answers with a function or an object, never an array. */
  predicate InheritedName(k: string)
  {
    k in ["constructor", "toString", "toLocaleString", "valueOf", "hasOwnProperty",
          "isPrototypeOf", "propertyIsEnumerable", "__proto__", "__defineGetter__",
          "__defineSetter__", "__lookupGetter__", "__lookupSetter__"]
  }

  /** The `spaces` memo as written, on a plain object: a space whose name is inherited
      finds the inherited member, which is truthy, so no group is created and the
      `push` on it throws; `None` is that failure. */
  function SpacesAsWritten(s: seq<Item>): (r: Option<map<string, seq<Item>>>)
  {
    if s == [] then Some(map[])
    else
      var prior := SpacesAsWritten(s[..|s| - 1]);
      var x := s[|s| - 1];
      if prior.None? || InheritedName(SpaceOf(x)) then None
      else if SpaceOf(x) in prior.value then Some(prior.value[SpaceOf(x) := prior.value[SpaceOf(x)] + [x]])
      else Some(prior.value[SpaceOf(x) := [x]])
  }

  predicate InInheritedSpace(x: Item)
  {
    InheritedName(SpaceOf(x))
  }

  /** Some record of `s` is in a space with an inherited name. */
  predicate HasInheritedSpace(s: seq<Item>)
  {
    Filter(s, InInheritedSpace) != []
  }

  /** A record in an inherited-name space is in the prefix or is the last one. */
  lemma HasInheritedSpaceLast(s: seq<Item>)
    requires s != []
    ensures HasInheritedSpace(s) <==> HasInheritedSpace(s[..|s| - 1]) || InInheritedSpace(s[|s| - 1])
  {
    var p, x := s[..|s| - 1], s[|s| - 1];
    assert s == p + [x];
    FilterAppend(p, [x], InInheritedSpace);
    FilterCons(x, [], InInheritedSpace);
  }

  /** As written, the memo fails exactly when some record's space has an inherited
      name, and otherwise builds the same groups as the corrected grouping. */
  lemma {:induction false} SpacesAsWrittenSpec(s: seq<Item>)
    ensures SpacesAsWritten(s).None? <==> HasInheritedSpace(s)
    ensures SpacesAsWritten(s).Some? ==> SpacesAsWritten(s).value == SpaceGroups(s)
  {
    if s != [] {
      SpacesAsWrittenSpec(s[..|s| - 1]);
      HasInheritedSpaceLast(s);
    }
  }

  /** The `spaces` memo: walks the active items once, appending each to the group
      of its space; the first item of a space not seen before creates its group.
      `order` is the key order of the resulting object. */
  method ComputeSpaces(active: seq<Item>) returns (order: seq<string>, groups: map<string, seq<Item>>)
    ensures order == SpaceKeys(active) && groups == SpaceGroups(active)
    ensures forall k :: k in groups <==> k in order
    ensures forall k :: k in groups ==> groups[k] == Filter(active, InSpace(k)) && groups[k] != []
    ensures forall k, x :: k in groups ==> (x in groups[k] <==> x in active && SpaceOf(x) == k)
    ensures forall x :: x in active ==> SpaceOf(x) in groups
    ensures TotalSize(order, groups) == |active|
  {
    order, groups := [], map[];
    var i := 0;
    while i < |active|
      invariant 0 <= i <= |active|
      invariant order == SpaceKeys(active[..i]) && groups == SpaceGroups(active[..i])
    {
      var x := active[i];
      var space := SpaceOf(x);
      ghost var next := active[..i + 1];
      assert |next| == i + 1 && next[..i] == active[..i] && next[i] == x;
      SpaceGroupsDomain(active[..i], space);
      if space !in groups {
        groups := groups[space := [x]];
        order := order + [space];
      } else {
        groups := groups[space := groups[space] + [x]];
      }
      i := i + 1;
    }
    assert active[..i] == active;
    SpaceGroupsSpec(active);
    GroupsOfSpec(active, order, groups);
  }
}
