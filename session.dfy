/** The state the `App` component keeps between renders and the handlers that
    change it: the signed-in user, the list of items, the app-lock gate and the
    requests sent to the remote store. */
module Session {
  import opened Items
  import opened Store

  /** One request to the remote store, in the order the handlers send them. */
  datatype Request =
    | InsertItem(row: NewItem)
    | UpdateDeletedAt(id: string, deletedAt: Option<int>)
    | UpdateReviewedAt(id: string, reviewedAt: int)
    | DeleteItem(id: string)
    | DeleteItems(ids: seq<string>)
    | UpdateAppLock(userId: string, enabled: bool)

  /** What the platform authenticator does when asked to verify the user. */
  datatype UnlockOutcome = Verified | Refused | Unsupported

  /** The answer to the insert of a new link: the stored row, or an error. */
  datatype InsertResponse = Saved(data: Item) | Failed

  class App {
    /** `user`: the signed-in profile, if any. */
    var user: Option<UserProfile>
    /** `items`: every record of the user, the bin included, newest first as fetched. */
    var items: seq<Item>
    /** `isLocked`: whether the lock screen covers the app. */
    var isLocked: bool
    /** The `app_unlocked` entry of the tab's session storage. */
    var sessionUnlocked: bool
    /** `isAddModalOpen`: whether the add-link dialog is shown. */
    var addModalOpen: bool
    /** The remote requests sent so far. */
    var requests: seq<Request>
    /** Whether a remote client was configured (`supabase` is not null). */
    const hasClient: bool

    /** Once this tab has been unlocked the lock screen never shows again. */
    ghost predicate Valid()
      reads this
    {
      sessionUnlocked ==> !isLocked
    }

    /** The first render: nobody signed in, no items, not locked. The session
        marker survives reloads of the same tab, so it is given. */
    constructor (hasClient: bool, sessionUnlocked: bool)
      ensures Valid()
      ensures this.hasClient == hasClient && this.sessionUnlocked == sessionUnlocked
      ensures user == None && items == [] && !isLocked && !addModalOpen && requests == []
    {
      this.hasClient := hasClient;
      this.sessionUnlocked := sessionUnlocked;
      user := None;
      items := [];
      isLocked := false;
      addModalOpen := false;
      requests := [];
    }

    /** The lock effect, run whenever `user` is replaced: it engages the lock when
        the user has app lock enabled and this tab was never unlocked, and it
        never releases the lock. */
    method LockEffect()
      requires Valid()
      modifies this
      ensures Valid()
      ensures isLocked == (old(isLocked)
        || (user.Some? && user.value.settings.appLockEnabled && !sessionUnlocked))
      ensures user == old(user) && items == old(items) && sessionUnlocked == old(sessionUnlocked)
      ensures addModalOpen == old(addModalOpen) && requests == old(requests)
    {
      if user.Some? && user.value.settings.appLockEnabled {
        if !sessionUnlocked {
          isLocked := true;
        }
      }
    }

    /** The sign-in screen hands over a profile; the lock effect runs for it. */
    method Login(profile: UserProfile)
      requires Valid()
      modifies this
      ensures Valid()
      ensures user == Some(profile)
      ensures isLocked == (old(isLocked) || (profile.settings.appLockEnabled && !sessionUnlocked))
      ensures items == old(items) && sessionUnlocked == old(sessionUnlocked)
      ensures addModalOpen == old(addModalOpen) && requests == old(requests)
    {
      user := Some(profile);
      LockEffect();
    }

    /** Sign-out forgets the user and keeps everything else, the items included. */
    method Logout()
      requires Valid()
      modifies this
      ensures Valid()
      ensures user == None
      ensures items == old(items) && isLocked == old(isLocked) && sessionUnlocked == old(sessionUnlocked)
      ensures addModalOpen == old(addModalOpen) && requests == old(requests)
    {
      user := None;
      LockEffect();
    }

    /** Whatever the authenticator answers, the tab is marked unlocked and the
        lock screen goes away. */
    method Unlock(outcome: UnlockOutcome)
      modifies this
      ensures Valid()
      ensures sessionUnlocked && !isLocked
      ensures user == old(user) && items == old(items)
      ensures addModalOpen == old(addModalOpen) && requests == old(requests)
    {
      // A verified user, a refused or failed prompt and a browser without the
      // authenticator all take the same path.
      sessionUnlocked := true;
      isLocked := false;
    }

    /** The settings switch: a signed-in user gets a copy of the profile with the
        new setting, which re-runs the lock effect, and the remote profile is
        updated when a client exists. */
    method ToggleAppLock(enabled: bool)
      requires Valid()
      modifies this
      ensures Valid()
      ensures old(user).None? ==>
        user == None && isLocked == old(isLocked) && requests == old(requests)
      ensures old(user).Some? ==>
        && user == Some(old(user).value.(settings := old(user).value.settings.(appLockEnabled := enabled)))
        && isLocked == (old(isLocked) || (enabled && !sessionUnlocked))
        && requests == old(requests) + (if hasClient then [UpdateAppLock(old(user).value.id, enabled)] else [])
      ensures items == old(items) && sessionUnlocked == old(sessionUnlocked) && addModalOpen == old(addModalOpen)
    {
      if user.None? {
        return;
      }
      var u := user.value;
      user := Some(u.(settings := u.settings.(appLockEnabled := enabled)));
      LockEffect();
      if hasClient {
        requests := requests + [UpdateAppLock(u.id, enabled)];
      }
    }

    /** Saving a link: nothing happens without a user and a client; otherwise the
        payload is sent, and the row the store answers with is put in front of
        the items and the dialog closes, or on failure the items stay as they
        were and an alert is raised. */
    method AddItem(url: string, thumbnail: string, now: int, response: InsertResponse)
      returns (alert: bool)
      requires Valid()
      modifies this
      ensures Valid()
      ensures old(user).None? || !hasClient ==>
        !alert && items == old(items) && requests == old(requests) && addModalOpen == old(addModalOpen)
      ensures old(user).Some? && hasClient ==>
        && requests == old(requests) + [InsertItem(NewItemFor(old(user).value, url, thumbnail, now))]
        && alert == response.Failed?
        && (response.Saved? ==> items == [response.data] + old(items) && !addModalOpen)
        && (response.Failed? ==> items == old(items) && addModalOpen == old(addModalOpen))
      ensures user == old(user) && isLocked == old(isLocked) && sessionUnlocked == old(sessionUnlocked)
    {
      alert := false;
      if user.None? || !hasClient {
        return;
      }
      var row := NewItemFor(user.value, url, thumbnail, now);
      requests := requests + [InsertItem(row)];
      match response
      case Saved(data) =>
        items := [data] + items;
        addModalOpen := false;
      case Failed =>
        alert := true;
    }

    /** Moving a record to the bin: stamped with `deleted_at` at once, then the
        remote row is updated when a client exists. */
    method SoftDelete(id: string, now: int)
      requires Valid()
      modifies this
      ensures Valid()
      ensures items == SoftDeleted(old(items), id, now)
      ensures requests == old(requests) + (if hasClient then [UpdateDeletedAt(id, Some(now))] else [])
      ensures user == old(user) && isLocked == old(isLocked) && sessionUnlocked == old(sessionUnlocked)
      ensures addModalOpen == old(addModalOpen)
    {
      items := SoftDeleted(items, id, now);
      if hasClient {
        requests := requests + [UpdateDeletedAt(id, Some(now))];
      }
    }

    /** Taking a record out of the bin: `deleted_at` cleared, locally and remotely. */
    method Restore(id: string)
      requires Valid()
      modifies this
      ensures Valid()
      ensures items == Restored(old(items), id)
      ensures requests == old(requests) + (if hasClient then [UpdateDeletedAt(id, None)] else [])
      ensures user == old(user) && isLocked == old(isLocked) && sessionUnlocked == old(sessionUnlocked)
      ensures addModalOpen == old(addModalOpen)
    {
      items := Restored(items, id);
      if hasClient {
        requests := requests + [UpdateDeletedAt(id, None)];
      }
    }

    /** Deleting a record for good, locally and remotely. */
    method PermanentDelete(id: string)
      requires Valid()
      modifies this
      ensures Valid()
      ensures items == PermanentlyDeleted(old(items), id)
      ensures requests == old(requests) + (if hasClient then [DeleteItem(id)] else [])
      ensures user == old(user) && isLocked == old(isLocked) && sessionUnlocked == old(sessionUnlocked)
      ensures addModalOpen == old(addModalOpen)
    {
      items := PermanentlyDeleted(items, id);
      if hasClient {
        requests := requests + [DeleteItem(id)];
      }
    }

    /** Emptying the bin: every record with `deleted_at` goes, and one bulk delete
        names them all, sent only when there is at least one. */
    method EmptyBin()
      requires Valid()
      modifies this
      ensures Valid()
      ensures items == EmptiedBin(old(items))
      ensures requests == old(requests)
        + (if hasClient && BinIds(old(items)) != [] then [DeleteItems(BinIds(old(items)))] else [])
      ensures user == old(user) && isLocked == old(isLocked) && sessionUnlocked == old(sessionUnlocked)
      ensures addModalOpen == old(addModalOpen)
    {
      var ids := BinIds(items);
      items := EmptiedBin(items);
      if hasClient && |ids| > 0 {
        requests := requests + [DeleteItems(ids)];
      }
    }

    /** Marking a record reviewed: stamped with `reviewed_at`, locally and remotely. */
    method MarkReviewed(id: string, now: int)
      requires Valid()
      modifies this
      ensures Valid()
      ensures items == MarkedReviewed(old(items), id, now)
      ensures requests == old(requests) + (if hasClient then [UpdateReviewedAt(id, now)] else [])
      ensures user == old(user) && isLocked == old(isLocked) && sessionUnlocked == old(sessionUnlocked)
      ensures addModalOpen == old(addModalOpen)
    {
      items := MarkedReviewed(items, id, now);
      if hasClient {
        requests := requests + [UpdateReviewedAt(id, now)];
      }
    }
  }
}
