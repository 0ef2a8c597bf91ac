/** Small concrete situations, worked through the model. */
module Scenarios {
  import opened Seqs
  import opened Sorting
  import opened Items
  import opened Platforms
  import opened Store
  import opened Views
  import opened Session

  const Day := 86400000

  /** A record with only the fields the scenarios look at; its url is empty. */
  function Link(id: string, title: string, category: Option<string>, createdAt: int): (r: Item)
  {
    Item(id, "u1", "", "", title, category, None, [], None, None, createdAt, None, None, None, None)
  }

  /** Two Inbox links (one without a category) and a Travel link make two spaces,
      Inbox first, of sizes two and one. */
  lemma TwoSpaces()
    ensures var s := [Link("a", "A", Some("Inbox"), 1), Link("b", "B", None, 2), Link("c", "C", Some("Travel"), 3)];
      && SpaceKeys(ActiveItems(s)) == ["Inbox", "Travel"]
      && |Filter(ActiveItems(s), InSpace("Inbox"))| == 2
      && |Filter(ActiveItems(s), InSpace("Travel"))| == 1
  {
    var a := Link("a", "A", Some("Inbox"), 1);
    var b := Link("b", "B", None, 2);
    var c := Link("c", "C", Some("Travel"), 3);
    var s := [a, b, c];
    FilterCons(a, [b, c], IsActive);
    FilterCons(b, [c], IsActive);
    FilterCons(c, [], IsActive);
    assert ActiveItems(s) == s;
    assert s[..2] == [a, b] && [a, b][..1] == [a] && [a][..0] == [];
    assert SpaceKeys([a]) == ["Inbox"];
    assert SpaceKeys([a, b]) == ["Inbox"];
    assert SpaceKeys(s) == ["Inbox", "Travel"];
    FilterCons(a, [b, c], InSpace("Inbox"));
    FilterCons(b, [c], InSpace("Inbox"));
    FilterCons(c, [], InSpace("Inbox"));
    FilterCons(a, [b, c], InSpace("Travel"));
    FilterCons(b, [c], InSpace("Travel"));
    FilterCons(c, [], InSpace("Travel"));
  }

  /** A link deleted at time `t` is in the bin computed at t + 29 days, and not
      in the bin computed at t + 30 or t + 31 days. */
  lemma BinRetention(t: int)
    ensures var x := Link("a", "A", None, 0).(deletedAt := Some(t));
      && BinItems([x], t + 29 * Day) == [x]
      && BinItems([x], t + 30 * Day) == []
      && BinItems([x], t + 31 * Day) == []
  {
    var x := Link("a", "A", None, 0).(deletedAt := Some(t));
    FilterCons(x, [], IsDeleted);
    FilterCons(x, [], WithinRetention(t + 29 * Day));
    FilterCons(x, [], WithinRetention(t + 30 * Day));
    FilterCons(x, [], WithinRetention(t + 31 * Day));
  }

  lemma LowerQuery()
    ensures Text.Lower("pARIS") == "paris"
  {
    assert forall i :: 0 <= i < 5 ==> Text.Lower("pARIS")[i] == "paris"[i];
  }

  lemma LowerTitle()
    ensures Text.Lower("Paris") == "paris"
  {
    assert forall i :: 0 <= i < 5 ==> Text.Lower("Paris")[i] == "paris"[i];
  }

  lemma NoParisInOslo()
    ensures !Text.Contains(Text.Lower("Oslo"), "paris")
  {
    Text.ContainsIffOccurs(Text.Lower("Oslo"), "paris");
  }

  /** "paris" matches the title "Paris" and not the title "Oslo". */
  lemma ParisMatches()
    ensures MatchesQuery("paris")(Link("a", "Paris", None, 1))
    ensures !MatchesQuery("paris")(Link("b", "Oslo", None, 2))
  {
    LowerTitle();
    NoParisInOslo();
    assert Text.StartsWith(Text.Lower("Paris"), "paris");
  }

  /** Of the two links, the search for "paris" keeps the first. */
  lemma ParisFilter()
    ensures var s := [Link("a", "Paris", None, 1), Link("b", "Oslo", None, 2)];
      Filter(s, MatchesQuery("paris")) == [s[0]]
  {
    var p := Link("a", "Paris", None, 1);
    var q := Link("b", "Oslo", None, 2);
    ParisMatches();
    FilterCons(p, [q], MatchesQuery("paris"));
    FilterCons(q, [], MatchesQuery("paris"));
  }

  /** Both links are active. */
  lemma ParisOsloActive()
    ensures var s := [Link("a", "Paris", None, 1), Link("b", "Oslo", None, 2)];
      ActiveItems(s) == s
  {
    var p := Link("a", "Paris", None, 1);
    var q := Link("b", "Oslo", None, 2);
    FilterCons(p, [q], IsActive);
    FilterCons(q, [], IsActive);
  }

  /** The search is case-insensitive on the title, and a record with an empty
      url is matched on its title alone. */
  lemma SearchIgnoresCase()
    ensures var s := [Link("a", "Paris", None, 1), Link("b", "Oslo", None, 2)];
      Feed(s, None, "pARIS") == [s[0]]
  {
    var s := [Link("a", "Paris", None, 1), Link("b", "Oslo", None, 2)];
    ParisOsloActive();
    LowerQuery();
    ParisFilter();
    FeedUnnarrowed(s, "pARIS");
  }

  /** A link in a space named "constructor" makes the `spaces` memo as written
      fail, while the corrected grouping gives it a group of its own. */
  lemma ConstructorSpace()
    ensures var s := [Link("a", "A", Some("constructor"), 1)];
      SpacesAsWritten(s) == None && SpaceGroups(s) == map["constructor" := s]
  {
    var s := [Link("a", "A", Some("constructor"), 1)];
    assert s[..0] == [];
    assert InheritedName("constructor");
  }

  /** The review queue puts the oldest first, and links saved at the same moment
      keep their order in the list. */
  lemma QueueOrder()
    ensures var s := [Link("a", "A", None, 3), Link("b", "B", None, 1), Link("c", "C", None, 3)];
      ReviewQueue(s) == [s[1], s[0], s[2]]
  {
    var a := Link("a", "A", None, 3);
    var b := Link("b", "B", None, 1);
    var c := Link("c", "C", None, 3);
    FilterCons(a, [b, c], IsActive);
    FilterCons(b, [c], IsActive);
    FilterCons(c, [], IsActive);
    FilterCons(a, [b, c], IsUnreviewed);
    FilterCons(b, [c], IsUnreviewed);
    FilterCons(c, [], IsUnreviewed);
    assert SortBy([c], CreatedAt) == [c];
    assert SortBy([b, c], CreatedAt) == Insert(b, [c], CreatedAt) == [b, c];
    assert SortBy([a, b, c], CreatedAt) == Insert(a, [b, c], CreatedAt);
    assert Insert(a, [c], CreatedAt) == [a, c];
  }

  /** A link naming both services is classified by the first in priority order,
      and a link naming none is Other. */
  lemma PlatformPriority()
    ensures GetPlatform("instagram/youtu.be") == YouTube
    ensures GetPlatform("x.com") == Other
  {
    assert Text.OccursAt("instagram/youtu.be", "youtu.be", 10);
  }

  /** A tab unlocked once stays unlocked: signing out and in again, and switching
      the lock on, show no lock screen. */
  method UnlockedTabStaysOpen(profile: UserProfile) returns (locked: bool)
    ensures !locked
  {
    var app := new App(true, false);
    app.Login(profile.(settings := profile.settings.(appLockEnabled := true)));
    app.Unlock(Refused);
    app.Logout();
    app.Login(profile);
    app.ToggleAppLock(true);
    locked := app.isLocked;
  }

  /** In a tab that was never unlocked, switching the lock on engages it at once,
      because the switch replaces the profile and the lock effect runs again. */
  method EnablingLockLocksFreshTab(profile: UserProfile) returns (locked: bool)
    ensures locked
  {
    var app := new App(true, false);
    app.Login(profile.(settings := profile.settings.(appLockEnabled := false)));
    app.ToggleAppLock(true);
    locked := app.isLocked;
  }

  /** Soft delete, then restore, of a link that was active gives back the same
      items and sends the two remote updates in order. */
  method DeleteThenRestore(hasClient: bool, items: seq<Item>, id: string, now: int)
    returns (same: bool, sent: seq<Request>)
    requires forall i :: 0 <= i < |items| && items[i].id == id ==> IsActive(items[i])
    ensures same
    ensures sent == if hasClient then [UpdateDeletedAt(id, Some(now)), UpdateDeletedAt(id, None)] else []
  {
    var app := new App(hasClient, false);
    app.items := items;
    app.SoftDelete(id, now);
    app.Restore(id);
    RestoreUndoesSoftDelete(items, id, now);
    same := app.items == items;
    sent := app.requests;
  }
}
