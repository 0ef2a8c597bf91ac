# mymind item lifecycle, views and lock gate, in Dafny

This project models the core of the `App` component of mymind. mymind is a
single-page app that saves links ("items"). The model covers three parts:

- **The item lifecycle.** A link is added with a default title in the Inbox space.
  It moves to the bin by soft delete, comes back by restore, and is removed by
  permanent delete or by emptying the bin. It leaves the review queue once it is
  marked reviewed.
- **The derived views.** The active items; the bin (records deleted less than
  thirty days before the last change of the items); the feed (narrowed by the selected space and a
  case-insensitive search); the spaces (active items grouped by category, in
  order of first appearance); and the review queue (unreviewed active items,
  oldest first, ties in list order).
- **The lock gate.** The lock screen comes up for a user with app lock enabled
  in a browser tab that was never unlocked. Any unlock attempt opens it for the
  rest of the session.

Modules:

- `Items`: the record shapes of `types.ts`.
- `Text`: ASCII lower-casing and substring search.
- `Seqs`: filtering and subsequences.
- `Sorting`: a stable sort by key, standing in for `Array.prototype.sort` with a
  comparator.
- `Platforms`: `getPlatform`.
- `Store`: the local effect of each mutation, as a function of the previous list.
- `Views`: the derived views. Grouping into spaces is a method with a loop, as in
  the source.
- `Lifecycle`: how each mutation shows up in each view.
- `Session`: the `App` class. It holds the component's state (user, items, lock
  flag, the tab's `app_unlocked` marker, the add dialog, and the log of remote
  requests), and its handlers are methods.
- `Scenarios`: worked examples.

Modelling choices:

- Timestamps are integers, in milliseconds since the epoch.
- `None` stands for both a missing field and `null`.
- The current time, the chosen thumbnail, the insert response and the
  authenticator's answer are parameters.
- Remote calls are recorded in a request log instead of being performed.

Four behaviours of the code are worth stating plainly:

- **Switching app lock on locks a tab that was never unlocked.** `toggleAppLock`
  replaces the `user` object (App.tsx:371-372), which re-runs the lock effect on
  `[user]` (App.tsx:315-322). `Session.App.ToggleAppLock` states this, and
  `Scenarios.EnablingLockLocksFreshTab` shows it.
- **Sign-out keeps the items and the lock.** Sign-out only clears the user
  (App.tsx:770). The items stay in memory, and a lock already engaged stays
  engaged.
- **Restore ignores the retention window.** It clears `deleted_at` whatever its
  age (App.tsx:434-436).
- **The bin is computed when the items change.** `binItems` is memoised on
  `[items]` (App.tsx:485-489), so its "thirty days ago" is taken at mount or at
  the last change of `items`, not when the bin is shown. The model's `now` for
  the bin is that moment.

## Model

| member | source | states |
|---|---|---|
| Text.LowerChar | App.tsx:501 | upper-case ASCII letters map to their lower-case letter; every other character is unchanged |
| Text.Lower | App.tsx:501 | lower-casing keeps the length and lower-cases each character in place |
| Text.LowerIdempotent | App.tsx:501-504 | lower-casing an already lower-cased string changes nothing |
| Text.Contains | App.tsx:503-504 | `includes`: some suffix of the string starts with the query; its meaning is carried by Text.ContainsIffOccurs |
| Text.ContainsIffOccurs | App.tsx:503-504 | the recursive `includes` holds exactly when the substring occurs at some index |
| Text.OccursShift | App.tsx:503-504 | an occurrence in the tail of a string is an occurrence one place later in the string |
| Text.OccursUnshift | App.tsx:503-504 | an occurrence past the first place is an occurrence one place earlier in the tail |
| Platforms.GetPlatform | App.tsx:15-20 | YouTube iff the url contains "youtube" or "youtu.be"; TikTok iff not YouTube and it contains "tiktok"; Instagram iff neither of those and it contains "instagram"; Other iff it contains none of the four |
| Sorting.SortBy | App.tsx:521 | `sort` with the creation-time comparator, as a stable insertion sort; its contract is carried by Sorting.SortBySorted, Sorting.SortByPermutation, Sorting.SortByStable and Sorting.SortByFilter |
| Sorting.SortBySorted | App.tsx:521 | the queue's sort yields a sequence ordered by creation time |
| Sorting.SortByPermutation | App.tsx:521 | the sort is a permutation of its input |
| Sorting.SortByFilter | App.tsx:521 | sorting commutes with every filter, so removing records from the input removes them from the output and keeps everything else in place |
| Sorting.SortByStable | App.tsx:521 | records with equal creation time keep their input order (the sort is stable) |
| Items.SpaceOf | App.tsx:496 | the category with "Inbox" as fallback: the category when it is set and not empty, and "Inbox" otherwise (also App.tsx:513); used by Views.FeedSpec and Views.ComputeSpaces |
| Store.Patched | App.tsx:421-423 | `{ ...item, field: value }` for the one field a handler sets; its frame is Store.PatchFrame |
| Store.SoftDeleted | App.tsx:421-423 | the soft-delete map with `deleted_at` set to the current time; its contract is carried by Store.ApplyPatch and Lifecycle.ActiveAfterSoftDelete |
| Store.Restored | App.tsx:434-436 | the restore map with `deleted_at` cleared; its contract is carried by Store.ApplyPatch, Store.RestoreUndoesSoftDelete and Lifecycle.RestoreReadmits |
| Store.MarkedReviewed | App.tsx:470 | the mark-reviewed map with `reviewed_at` set to the current time; its contract is carried by Store.ApplyPatch and Lifecycle.ReviewQueueAfterRetire |
| Store.PermanentlyDeleted | App.tsx:446 | `filter(item => item.id !== itemId)`; its contract is Store.PermanentDeleteSpec |
| Store.EmptiedBin | App.tsx:458 | `filter(item => !item.deleted_at)`; its contract is Store.EmptyBinSpec |
| Store.BinIds | App.tsx:455 | `items.filter(i => i.deleted_at).map(i => i.id)`; its contract is Store.EmptyBinSpec |
| Store.NewItemFor | App.tsx:389-400 | the insert payload; its contract is Store.NewItemSpec |
| Store.ApplyPatch | App.tsx:421-423 | the id-keyed map keeps the length and order; a record with the id gets the new field value, and every other record is unchanged |
| Store.PatchFrame | App.tsx:421-423 | a patch changes only the one field it sets, only on records with the matching id, and never the id or creation time |
| Store.LastWriteWins | App.tsx:434-436 | two patches of the same field on the same id leave only the second value |
| Store.PatchUnchanged | App.tsx:434-436 | writing a `deleted_at` value that every matching record already holds changes nothing |
| Store.RestoreUndoesSoftDelete | App.tsx:432-436 | restore right after soft delete of records that were active gives back exactly the original list |
| Store.PermanentDeleteSpec | App.tsx:446 | permanent delete keeps, in order, exactly the records with another id, and its length drops by the number of records with that id |
| Store.FilterPartition | App.tsx:446 | the records with an id and the records without it add up to the whole list |
| Store.Ids | App.tsx:455 | the id list has one entry per record, in order |
| Store.EmptyBinSpec | App.tsx:454-458 | emptying the bin keeps, in order, exactly the records without `deleted_at`; the bulk delete names the id of every record with `deleted_at`, whatever its age, and only those; the two counts add up to the list length |
| Store.DeletedPartition | App.tsx:455-458 | every record is either active or deleted, and the counts add up |
| Store.NewItemSpec | App.tsx:389-400 | the insert payload carries the user's id, the Inbox category, no tags and the current time; the stored row is active, unreviewed and in the Inbox space |
| Views.ActiveItems | App.tsx:484 | `items.filter(i => !i.deleted_at)`; its contract is Views.ActiveSpec |
| Views.WithinRetention | App.tsx:486-488 | `new Date(i.deleted_at) > thirtyDaysAgo`, with thirty days of 86400000 ms before `now`; its meaning is stated by Views.BinSpec |
| Views.BinItems | App.tsx:485-489 | the bin computed at `now`; its contract is Views.BinSpec |
| Views.MatchesQuery | App.tsx:500-505 | the search test with the lower-cased query; its contract is Views.MatchesQuerySpec |
| Views.Feed | App.tsx:491-508 | `filteredItems`; its contract is Views.FeedSpec |
| Views.Pending | App.tsx:521 | `activeItems.filter(i => !i.reviewed_at)`; its contract is carried by Views.ReviewQueueMembers and Lifecycle.PendingAfterRetire |
| Views.ReviewQueue | App.tsx:520-522 | `reviewQueue`; its contract is Views.ReviewQueueSpec |
| Views.SpaceKeys | App.tsx:510-518 | the key order of `groups`, each space in order of its first record; its contract is carried by Views.SpaceKeysMembers, Views.SpaceKeysDistinct and Views.SpaceKeysFirstSeenOrder |
| Views.ActivePartition | App.tsx:484-488 | the active and deleted records add up to the whole list |
| Views.ActiveSpec | App.tsx:484 | the active items are the records without `deleted_at`, in list order |
| Views.BinSpec | App.tsx:485-489 | the bin is a subsequence of the deleted records; it holds exactly the records whose `deleted_at` is later than now minus thirty days, and none of them is active |
| Views.BinOfActiveIsEmpty | App.tsx:485-489 | a list with no deleted records shows an empty bin at every moment |
| Views.MatchesQuerySpec | App.tsx:500-505 | for a non-empty query, the search test holds iff the lower-cased query occurs in the lower-cased title, or in the lower-cased url when the url is not empty |
| Views.FeedSpec | App.tsx:491-508 | the feed is a subsequence of the active items; a record is in it iff it is active, in the selected space (when one is selected) and matches the query (when it is not empty); with no space selected and no query it equals the active items |
| Views.ReviewQueueSpec | App.tsx:520-522 | the queue is sorted by creation time, is a permutation of the pending records, and keeps list order among records created at the same instant |
| Views.ReviewQueueMembers | App.tsx:520-522 | a record is in the queue iff it is in the list, active and unreviewed |
| Views.FirstIndex | App.tsx:512-513 | the index of the first record in a space, and no earlier record is in that space |
| Views.FirstIndexAppend | App.tsx:512-513 | appending a record leaves the first index of every space already seen unchanged; an unseen space gets the appended record's position when the record belongs to it |
| Views.FirstIndexKnown | App.tsx:512-513 | appending a record leaves the first index of an already seen space unchanged and inside the old list |
| Views.FirstIndexNew | App.tsx:512-513 | a record of an unseen space is that space's first record once appended |
| Views.SpaceKeysAppend | App.tsx:512-514 | visiting one more record adds its space name at the end exactly when the name was not seen before |
| Views.SpaceKeysMembers | App.tsx:512-514 | a name is a space exactly when some active record belongs to it |
| Views.SpaceKeysDistinct | App.tsx:514 | no space name appears twice |
| Views.SpaceKeysFirstSeenOrder | App.tsx:512-514 | space names appear in the order in which each is first seen |
| Views.NotAmongKeys | App.tsx:512-514 | no record belongs to a space that is not among the space names |
| Views.TotalSizeOutside | App.tsx:514 | adding a group for a name not yet listed leaves the sum of the listed group sizes unchanged |
| Views.TotalSizeGrow | App.tsx:515 | pushing one record onto a listed group raises the sum of the group sizes by one |
| Views.TotalSizeNew | App.tsx:514 | a group for a new name added at the end of the list adds its size to the sum |
| Views.NewSpaceFilters | App.tsx:512-514 | the first record of an unseen space makes up that space's records alone and leaves every other space's records as they were |
| Views.NewSpaceGroups | App.tsx:514-515 | after a group is created for an unseen space, every group is exactly its space's records of the longer list |
| Views.AppendToSpace | App.tsx:515 | appending a record adds it at the end of its own space's records and changes no other space's records |
| Views.NewSpaceStep | App.tsx:514-515 | creating a group for an unseen space and putting the record in it keeps the grouping invariant |
| Views.KnownSpaceStep | App.tsx:515 | pushing a record onto the group of a known space keeps the grouping invariant |
| Views.SpaceGroups | App.tsx:510-518 | `groups` after visiting each record in turn; its contract is Views.SpaceGroupsSpec |
| Views.SpaceGroupsSpec | App.tsx:510-518 | the reference grouping, built record by record as the loop does, has a group for each space name in first-seen order, each group exactly that space's records in list order, the sizes adding up to the list length |
| Views.SpaceGroupsDomain | App.tsx:510-518 | a name has a group exactly when some record is in that space |
| Views.HasInheritedSpaceLast | App.tsx:512-515 | a record in a space whose name an empty object inherits is in the prefix or is the last record |
| Views.SpacesAsWritten | App.tsx:510-518 | the `spaces` memo as written, on a plain object, with no result standing for the TypeError of a `push` on an inherited member; its contract is Views.SpacesAsWrittenSpec |
| Views.SpacesAsWrittenSpec | App.tsx:510-518 | on a plain object, the memo fails exactly when some record's space is named like a member of `Object.prototype`, and otherwise builds the same groups as Views.SpaceGroups |
| Views.GroupsOfSpec | App.tsx:510-518 | under the grouping invariant, no group is empty, each group holds exactly the records of its space, and every record's space has a group |
| Views.ComputeSpaces | App.tsx:510-518 | the spaces loop computes the reference grouping, and so yields the names in first-seen order and one group per name; each group is the active records of that space in active order and is not empty; every active record is in exactly the group of its space; the sizes add up to the number of active records |
| Lifecycle.ActiveAfterSoftDelete | App.tsx:421-423 | after soft delete the active items are the previous active items without the records of that id, in the same order |
| Lifecycle.PendingCons | App.tsx:521 | a record heads the pending records exactly when it is active and unreviewed |
| Lifecycle.PendingHeadRetire | App.tsx:421-423 | a retiring patch takes the patched record out of the pending records when it had the id, and keeps it as it was otherwise |
| Lifecycle.PendingAfterRetire | App.tsx:470 | soft delete or mark reviewed of an id removes exactly that id's records from the pending records |
| Lifecycle.ReviewQueueAfterRetire | App.tsx:466-476 | after soft delete or mark reviewed, the next review queue is the previous one without that id's records, the others in the same order |
| Lifecycle.ReviewQueueUniqueIds | App.tsx:520-522 | when ids are unique, the queue holds at most one record per id |
| Lifecycle.ReviewHeadAdvance | App.tsx:671-677 | marking the head of the queue reviewed, or soft-deleting it, leaves exactly the rest of the queue |
| Lifecycle.SoftDeletedInBin | App.tsx:485-489 | a record soft-deleted at time t is in the bin when the bin is computed at `now` exactly when `now` is less than t plus thirty days |
| Lifecycle.RestoredMembers | App.tsx:434-436 | after restore every record is still there, with `deleted_at` cleared when its id matches |
| Lifecycle.RestoreReadmits | App.tsx:434-436 | restore makes the id's records active again, puts the unreviewed ones back in the review queue, and keeps every active record active |
| Lifecycle.EmptyBinKeepsViews | App.tsx:458 | emptying the bin changes neither the active items, the feed nor the review queue, and leaves the bin empty at every moment |
| Lifecycle.PermanentDeleteViews | App.tsx:446 | permanent delete removes the id's records from the active items and from the review queue, the others in the same order |
| Lifecycle.AddedItemViews | App.tsx:405-406 | a saved row that is active, unreviewed and in Inbox (as Store.NewItemSpec shows the row stored from the payload to be), put in front of the items, heads the unfiltered feed, makes Inbox the first space, and is in the review queue |
| Session.App.constructor | App.tsx:301-311 | the first render has no user, no items, no lock and an empty request log; the session marker is whatever the tab holds |
| Session.App.LockEffect | App.tsx:315-322 | the lock engages when the user has app lock enabled and the tab has no unlock marker; otherwise the lock is left as it was (the effect never releases it) |
| Session.App.Login | App.tsx:525 | the profile becomes the user and the lock effect runs for it |
| Session.App.Logout | App.tsx:770 | the user is cleared; items, lock and marker are kept |
| Session.App.Unlock | App.tsx:344-365 | whatever the authenticator answers, the tab is marked unlocked and the lock is released |
| Session.App.ToggleAppLock | App.tsx:367-378 | without a user nothing changes; otherwise the setting is replaced in a copy of the profile, the lock engages if it is now enabled and the tab was never unlocked, and a profile update is sent when a client exists |
| Session.App.AddItem | App.tsx:381-413 | nothing happens without a user or a client; otherwise the payload is sent; a saved row is put in front of the items and the dialog closes; on failure the items and dialog are unchanged and an alert is raised |
| Session.App.SoftDelete | App.tsx:417-430 | the items become their soft-deleted version; an update of `deleted_at` is sent when a client exists |
| Session.App.Restore | App.tsx:432-442 | the items become their restored version; an update clearing `deleted_at` is sent when a client exists |
| Session.App.PermanentDelete | App.tsx:444-452 | the id's records are removed; a delete is sent when a client exists |
| Session.App.EmptyBin | App.tsx:454-464 | every deleted record is removed; one bulk delete of their ids is sent only when a client exists and there is at least one |
| Session.App.MarkReviewed | App.tsx:466-476 | the id's records get `reviewed_at`; the update is sent when a client exists |
| Scenarios.TwoSpaces | App.tsx:510-518 | links in Inbox, with no category and in Travel make the spaces Inbox and Travel, of sizes two and one |
| Scenarios.ConstructorSpace | App.tsx:512-515 | a link in a space named "constructor" makes the memo as written fail, while the corrected grouping gives it a group of its own |
| Scenarios.BinRetention | App.tsx:485-489 | a link deleted at t is in the bin when the bin is computed at t plus 29 days, and not when it is computed at t plus 30 or 31 days |
| Scenarios.LowerQuery | App.tsx:501 | the query "pARIS" lower-cases to "paris" |
| Scenarios.LowerTitle | App.tsx:502 | the title "Paris" lower-cases to "paris" |
| Scenarios.NoParisInOslo | App.tsx:502 | the lower-cased title "Oslo" does not include "paris" |
| Scenarios.ParisMatches | App.tsx:501-504 | the lower-cased query "paris" matches a link titled "Paris" and not one titled "Oslo", both with empty urls |
| Scenarios.ParisFilter | App.tsx:500-505 | of the links titled "Paris" and "Oslo", the search for "paris" keeps only the first |
| Scenarios.ParisOsloActive | App.tsx:484 | two links that were never deleted are both active, in order |
| Scenarios.SearchIgnoresCase | App.tsx:491-508 | with no space selected, the query "pARIS" gives a feed of exactly the link titled "Paris", not the one titled "Oslo"; both have empty urls, which are not searched |
| Scenarios.QueueOrder | App.tsx:520-522 | creation times 3, 1, 3 give the queue order second, first, third |
| Scenarios.PlatformPriority | App.tsx:15-20 | a url naming Instagram and youtu.be is YouTube; a url naming no service is Other |
| Scenarios.UnlockedTabStaysOpen | App.tsx:315-322 | once a tab is unlocked, signing out and in again and switching the lock on show no lock screen |
| Scenarios.EnablingLockLocksFreshTab | App.tsx:367-372 | switching the lock on in a tab that was never unlocked engages the lock at once |
| Scenarios.DeleteThenRestore | App.tsx:417-442 | soft delete then restore of active records gives back the same items and sends the two updates in that order |

## Left out

- Rendering, navigation, tabs, the sign-in screen and every component other than
  `App` are not modelled. The selected space and the search query are parameters
  of the feed.
- The data-sync effect (App.tsx:325-342) is not modelled. It fetches all of the
  user's items from the remote store and replaces the list, and it runs again
  whenever `user` changes, including after sign-in and after `toggleAppLock`. Its
  result comes from outside the component.
- Sign-out's `supabase.auth.signOut()` is not modelled: it is a remote call whose
  outcome the component ignores.
- The remote store is not modelled. Each handler records the request it sends.
  The store's replies are ignored, as in the source, except for the insert, whose
  reply is a parameter of `AddItem`.
- Concurrency of the awaited calls is not modelled. Requests are logged in call
  order. The order in which they complete, and stale writes landing late, are not
  modelled.
- `getThumbnail` is not modelled. It uses a regular expression and a random
  choice, so the thumbnail is a parameter.
- `formatDate` and the AI fields are not modelled: they are display only.
- The WebAuthn challenge is not modelled. Its three outcomes are a parameter, and
  the source treats them all the same way.
- The `isAdding` flag, the `selectedItem` reset done by soft delete, and the
  console logs are not modelled: they are display state.
- ISO timestamp strings and their parsing are not modelled; times are integers.
  A malformed date, which JavaScript would turn into NaN, is not covered.
- Views.BinItems: uses a fixed thirty-day window of 30 × 86400000 ms. The source
  subtracts 30 calendar days in local time, which differs by an hour across a
  daylight-saving change.
- Text.Lower: lower-cases ASCII letters only. `toLowerCase` also maps other
  Unicode letters.
- Views.ComputeSpaces: gives the spaces in first-seen order for every name. A
  JavaScript object lists integer-like keys first, in numeric order. It also
  gives a category named like a member of `Object.prototype` (for example
  "constructor") a group of its own, where the source throws; the finding below
  records this.
- Views.BinItems: `now` is the moment the memo last ran (mount or a change of
  `items`), not the moment the bin is viewed. A record deleted at t stays listed
  past t plus thirty days until `items` changes again; that staleness is not
  modelled.
- Lifecycle.AddedItemViews: the insert reply is taken to be the row
  `Store.Inserted` builds from the payload (store.dfy:79-83): the assigned id,
  the sent fields, and no `deleted_at` or `reviewed_at`. That row is active,
  unreviewed and in Inbox. `Session.App.AddItem` itself prepends whatever row the
  store answers with.
- Views.ReviewQueue: compares creation times as integers. It makes no claim about
  dates that do not parse.

## Findings

| source | as written | input that shows it | evidently intended | confidence | as-written member | corrected member |
|---|---|---|---|---|---|---|
| App.tsx:511-515 | `groups` is a plain object, so `groups[cat]` finds a member of `Object.prototype` for a category such as "constructor"; `!groups[cat]` is false, no group is created, and `groups[cat].push(item)` throws a TypeError | one active link with category "constructor" | every category gets its own group, as with an object without a prototype or a `Map` | medium, not executed | Views.SpacesAsWritten, Scenarios.ConstructorSpace | Views.ComputeSpaces |
