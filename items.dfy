/** The record shapes of types.ts: saved items, the insert payload and the
    user profile. Timestamps are milliseconds since the epoch. */
module Items {

  datatype Option<+T> = None | Some(value: T)

  datatype Platform = YouTube | TikTok | Instagram | Other

  /** One saved link and its lifecycle metadata. `None` stands for both
      `undefined` and `null`. */
  datatype Item = Item(
    id: string,
    userId: string,
    url: string,
    thumbnail: string,
    title: string,
    categoryId: Option<string>,
    subcategoryId: Option<string>,
    tags: seq<string>,
    shortDescription: Option<string>,
    mindNotes: Option<string>,
    createdAt: int,
    deletedAt: Option<int>,
    reviewedAt: Option<int>,
    platform: Option<Platform>,
    isProcessing: Option<bool>)

  /** The row sent to the remote store when a link is added; the store assigns the id. */
  datatype NewItem = NewItem(
    userId: string,
    url: string,
    thumbnail: string,
    title: string,
    categoryId: string,
    subcategoryId: Option<string>,
    tags: seq<string>,
    shortDescription: string,
    platform: Platform,
    createdAt: int)

  datatype UserSettings = UserSettings(appLockEnabled: bool, biometricRegistered: bool)

  datatype UserProfile = UserProfile(id: string, email: string, settings: UserSettings)

  /** The space an item is grouped under: its category, or "Inbox" when the
      category is missing or empty (`category_id || 'Inbox'`). */
  const DefaultSpace := "Inbox"

  function SpaceOf(x: Item): (r: string)
  {
    if x.categoryId.Some? && x.categoryId.value != "" then x.categoryId.value else DefaultSpace
  }

  /** `!i.deleted_at`: the item is not in the bin. */
  predicate IsActive(x: Item)
  {
    x.deletedAt.None?
  }

  /** `i.deleted_at` is set: the item was soft-deleted. */
  predicate IsDeleted(x: Item)
  {
    x.deletedAt.Some?
  }

  /** `!i.reviewed_at`: the item still waits for review. */
  predicate IsUnreviewed(x: Item)
  {
    x.reviewedAt.None?
  }

  function CreatedAt(x: Item): (r: int)
  {
    x.createdAt
  }

  function HasId(id: string): (r: Item -> bool)
  {
    (x: Item) => x.id == id
  }

  function IdIsNot(id: string): (r: Item -> bool)
  {
    (x: Item) => x.id != id
  }

  function InSpace(space: string): (r: Item -> bool)
  {
    x => SpaceOf(x) == space
  }
}
