/**
  The lifecycle sweep over the listing store (server/utils/listingCleanup.js,
  `deleteImageFromR2IfStored`, `deleteListingById`, `runListingCleanup`).

  The store is an object holding the `listings` and `users` tables as maps;
  the two collaborators the sweep calls, the expiry-warning notifier and the
  object-store delete, are parameters that say whether a call is rejected,
  and every call to them, like every write to the store, is appended to the
  ghost effect log `log`.
*/
module ListingCleanup {
  import opened Wrappers
  import opened Js
  import opened FileKeys
  import opened Lifecycle

  /** What a completed sweep returns: the sizes of its three selections. */
  datatype Summary = Summary(warned: nat, deletedSold: nat, deletedActive: nat)

  /** A sweep either completes, or stops when the notifier rejects; nothing
      catches that rejection, so it ends the sweep. */
  datatype SweepResult = Completed(summary: Summary) | Aborted(rejected: Notice)

  /** How the warning loop ended: every row processed, or the notifier
      rejected the notice of row `index`. */
  datatype WarnOutcome = AllWarned | Rejected(index: nat, notice: Notice)

  /** The warning-query row of listing `id`. */
  function RowOf(m: map<Id, Listing>, id: Id): WarnRow
    requires id in m
  {
    WarnRow(id, m[id].title, m[id].userId)
  }

  /** The notifier accepts the notice of every row in `rows`. */
  ghost predicate AcceptsRows(users: map<UserId, User>, rows: seq<WarnRow>, notifierRejects: Notice -> bool) {
    forall row :: row in rows && NoticeFor(users, row).Some? ==> !notifierRejects(NoticeFor(users, row).value)
  }

  /** The notifier accepts every notice a sweep at `now` would send. */
  ghost predicate NotifierAcceptsAll(m: map<Id, Listing>, users: map<UserId, User>, now: int,
                                     notifierRejects: Notice -> bool)
  {
    forall id :: id in WarnIds(m, now) && NoticeFor(users, RowOf(m, id)).Some? ==>
      !notifierRejects(NoticeFor(users, RowOf(m, id)).value)
  }

  /** `sendListingExpiryWarning` as `server/utils/email.js` provides it:
      that module exports no such function, so the imported name is
      `undefined` and every call throws. */
  function MissingExportNotifier(n: Notice): bool {
    true
  }

  /** With the notifier as written, a sweep cannot complete as soon as one
      warn candidate's owner has a truthy email: it stops at that notice,
      before any deletion. */
  lemma MissingExportAbortsSweep(m: map<Id, Listing>, users: map<UserId, User>, now: int, id: Id)
    requires id in WarnIds(m, now) && OwnerEmail(users, m[id].userId).Some?
    ensures !NotifierAcceptsAll(m, users, now, MissingExportNotifier)
  {
    assert NoticeFor(users, RowOf(m, id)).Some?;
  }

  /** The notifier the sweep evidently expects: failures to deliver are
      swallowed inside it, so no notice is ever rejected. */
  function DeliveringNotifier(n: Notice): bool {
    false
  }

  /** With that notifier every sweep completes. */
  lemma DeliveringNotifierCompletesSweep(m: map<Id, Listing>, users: map<UserId, User>, now: int)
    ensures NotifierAcceptsAll(m, users, now, DeliveringNotifier)
  {
  }

  class ListingStore {
    var listings: map<Id, Listing>
    var users: map<UserId, User>
    ghost var log: seq<Effect>

    constructor (listings: map<Id, Listing>, users: map<UserId, User>)
      ensures this.listings == listings && this.users == users && log == []
    {
      this.listings := listings;
      this.users := users;
      log := [];
    }

    /** A `SELECT id FROM listings WHERE ...`: every listing satisfying
        `q`, once each, in an order the store chooses. */
    method SelectIds(q: Query) returns (ids: seq<Id>)
      ensures NoDup(ids)
      ensures Elems(ids) == Selection(listings, q)
    {
      ids := [];
      var rest := listings.Keys;
      while true
        invariant rest <= listings.Keys
        invariant NoDup(ids)
        invariant forall id :: id in ids ==> id !in rest
        invariant forall id :: id in ids <==> id in listings && id !in rest && Matches(q, listings[id])
        decreases rest
      {
        if id :| id in rest {
          if Matches(q, listings[id]) {
            ids := ids + [id];
          }
          rest := rest - {id};
        } else {
          break;
        }
      }
      assert forall id :: id in Elems(ids) <==> id in listings && Matches(q, listings[id]);
    }

    /** The warning query: one row per listing in the warning window. */
    method SelectWarnCandidates(now: int) returns (rows: seq<WarnRow>)
      ensures Enumerates(IdsOf(rows), WarnIds(listings, now))
      ensures forall row :: row in rows ==> row.id in listings && row == RowOf(listings, row.id)
    {
      var ids := SelectIds(WarnQuery(now));
      var m := listings;
      assert Elems(ids) == WarnIds(m, now);
      assert forall i :: 0 <= i < |ids| ==> ids[i] in Elems(ids);
      rows := seq(|ids|, i requires 0 <= i < |ids| => RowOf(m, ids[i]));
      assert IdsOf(rows) == ids;
      forall row | row in rows ensures row.id in m && row == RowOf(m, row.id) {
        var i :| 0 <= i < |rows| && rows[i] == row;
      }
    }

    /** `deleteImageFromR2IfStored`: a delete is sent to the object store
        only for a truthy storage key; its rejection is caught and ignored. */
    method DeleteImageFromR2IfStored(imageUrl: JsValue, base: JsValue, assetRejects: string -> bool)
      modifies this`log
      ensures log == old(log) + AssetEffects(imageUrl, base, assetRejects)
    {
      var fileKey := FileKeyFromPublicUrl(imageUrl, base);
      if fileKey.None? || fileKey.value == "" {
        return;
      }
      log := log + [AssetDelete(fileKey.value, assetRejects(fileKey.value))];
    }

    /** `deleteListingById`: read the current image URL, try to delete the
        image, then delete the row whatever happened to the image. */
    method DeleteListingById(id: Id, base: JsValue, assetRejects: string -> bool)
      modifies this`listings, this`log
      ensures listings == old(listings) - {id}
      ensures log == old(log) + DeleteEffects(old(listings), id, base, assetRejects)
    {
      var imageUrl := ImageOf(listings, id);
      DeleteImageFromR2IfStored(imageUrl, base, assetRejects);
      listings := listings - {id};
      log := log + [RowDelete(id)];
    }

    /** One turn of the warning loop: look up the owner's email, notify
        when it is truthy, then mark the listing warned. A rejected
        notification ends the turn before the mark. */
    method WarnListing(row: WarnRow, now: int, notifierRejects: Notice -> bool) returns (rejected: Option<Notice>)
      modifies this`listings, this`log
      ensures rejected.Some? <==> NoticeFor(users, row).Some? && notifierRejects(NoticeFor(users, row).value)
      ensures rejected.Some? ==>
        && rejected == NoticeFor(users, row)
        && listings == old(listings)
        && log == old(log) + [Notify(rejected.value)]
      ensures rejected.None? ==>
        && listings == (if row.id in old(listings) then old(listings)[row.id := MarkWarned(old(listings)[row.id], now)]
                        else old(listings))
        && log == old(log) + WarnEffects(users, row, now)
    {
      var email := OwnerEmail(users, row.userId);
      if email.Some? {
        var notice := Notice(email.value, row.title, row.id, 1);
        log := log + [Notify(notice)];
        if notifierRejects(notice) {
          return Some(notice);
        }
      }
      if row.id in listings {
        listings := listings[row.id := MarkWarned(listings[row.id], now)];
      }
      log := log + [MarkedWarned(row.id, now)];
      rejected := None;
    }

    /** The warning loop over the rows of the warning query. */
    method WarnEach(rows: seq<WarnRow>, now: int, notifierRejects: Notice -> bool) returns (w: WarnOutcome)
      requires NoDup(IdsOf(rows))
      modifies this`listings, this`log
      ensures w.AllWarned? <==> AcceptsRows(users, rows, notifierRejects)
      ensures w.AllWarned? ==>
        && listings == StampAll(old(listings), Elems(IdsOf(rows)), now)
        && log == old(log) + WarnTrace(users, rows, now)
      ensures w.Rejected? ==>
        && w.index < |rows|
        && NoticeFor(users, rows[w.index]) == Some(w.notice)
        && notifierRejects(w.notice)
        && listings == StampAll(old(listings), Elems(IdsOf(rows[..w.index])), now)
        && log == old(log) + WarnTrace(users, rows[..w.index], now) + [Notify(w.notice)]
    {
      for i := 0 to |rows|
        invariant listings == StampAll(old(listings), Elems(IdsOf(rows[..i])), now)
        invariant log == old(log) + WarnTrace(users, rows[..i], now)
        invariant AcceptsRows(users, rows[..i], notifierRejects)
      {
        WarnStep(old(listings), users, rows, i, now);
        AppendAssoc(old(log), WarnTrace(users, rows[..i], now), WarnEffects(users, rows[i], now));
        var rejected := WarnListing(rows[i], now, notifierRejects);
        if rejected.Some? {
          assert rows[i] in rows;
          return Rejected(i, rejected.value);
        }
      }
      assert rows[..|rows|] == rows;
      w := AllWarned;
    }

    /** A deletion loop: `deleteListingById` on each selected id in order. */
    method DeleteEach(ids: seq<Id>, base: JsValue, assetRejects: string -> bool)
      requires NoDup(ids)
      modifies this`listings, this`log
      ensures listings == old(listings) - Elems(ids)
      ensures log == old(log) + DeleteTrace(old(listings), ids, base, assetRejects)
    {
      for i := 0 to |ids|
        invariant listings == old(listings) - Elems(ids[..i])
        invariant log == old(log) + DeleteTrace(old(listings), ids[..i], base, assetRejects)
      {
        DeleteStep(old(listings), ids, i, base, assetRejects);
        AppendAssoc(old(log), DeleteTrace(old(listings), ids[..i], base, assetRejects),
                    DeleteEffects(old(listings), ids[i], base, assetRejects));
        DeleteListingById(ids[i], base, assetRejects);
      }
      assert ids[..|ids|] == ids;
    }

    /** `runListingCleanup`: warn, delete expired sold listings, delete
        expired unsold listings, and report the three selection sizes. The
        ghost results are the three query results, in the order processed. */
    method RunListingCleanup(now: int, base: JsValue, notifierRejects: Notice -> bool, assetRejects: string -> bool)
      returns (r: SweepResult, ghost toWarn: seq<WarnRow>, ghost soldExpired: seq<Id>, ghost activeExpired: seq<Id>)
      modifies this`listings, this`log
      ensures Enumerates(IdsOf(toWarn), WarnIds(old(listings), now))
      ensures forall row :: row in toWarn ==> row.id in old(listings) && row == RowOf(old(listings), row.id)
      ensures r.Completed? <==> NotifierAcceptsAll(old(listings), users, now, notifierRejects)
      ensures r.Completed? ==>
        && Enumerates(soldExpired, SoldIds(old(listings), now))
        && Enumerates(activeExpired, ActiveIds(old(listings), now))
        && listings == Swept(old(listings), now)
        && r.summary == Summary(|WarnIds(old(listings), now)|, |SoldIds(old(listings), now)|,
                                |ActiveIds(old(listings), now)|)
        && log == old(log) + WarnTrace(users, toWarn, now)
                           + DeleteTrace(old(listings), soldExpired, base, assetRejects)
                           + DeleteTrace(old(listings), activeExpired, base, assetRejects)
      ensures r.Aborted? ==>
        exists k :: 0 <= k < |toWarn|
          && NoticeFor(users, toWarn[k]) == Some(r.rejected)
          && notifierRejects(r.rejected)
          && listings == StampAll(old(listings), Elems(IdsOf(toWarn[..k])), now)
          && log == old(log) + WarnTrace(users, toWarn[..k], now) + [Notify(r.rejected)]
    {
      ghost var m0 := listings;

      // 1) Warn listings in the warning window, once.
      var warnRows := SelectWarnCandidates(now);
      toWarn, soldExpired, activeExpired := warnRows, [], [];
      var w := WarnEach(warnRows, now, notifierRejects);
      RowsCoverWarnIds(m0, users, now, notifierRejects, warnRows);
      if w.Rejected? {
        return Aborted(w.notice), toWarn, soldExpired, activeExpired;
      }
      assert Elems(IdsOf(warnRows)) == WarnIds(m0, now);

      // 2) Delete sold listings after 7 days.
      var soldIds := SelectIds(SoldExpiredQuery(now));
      DeleteEach(soldIds, base, assetRejects);

      // 3) Delete active listings after 30 days.
      var activeIds := SelectIds(ActiveExpiredQuery(now));
      DeleteEach(activeIds, base, assetRejects);

      DeletionPhasesCompose(m0, soldIds, activeIds, now, base, assetRejects);
      NoDupCard(IdsOf(warnRows));
      NoDupCard(soldIds);
      NoDupCard(activeIds);
      soldExpired, activeExpired := soldIds, activeIds;
      r := Completed(Summary(|warnRows|, |soldIds|, |activeIds|));
    }
  }

  /** Notices of the warning rows are the notices of the warning selection,
      so the notifier accepts all rows exactly when it accepts the whole
      selection. */
  lemma RowsCoverWarnIds(m: map<Id, Listing>, users: map<UserId, User>, now: int,
                         notifierRejects: Notice -> bool, rows: seq<WarnRow>)
    requires Enumerates(IdsOf(rows), WarnIds(m, now))
    requires forall row :: row in rows ==> row.id in m && row == RowOf(m, row.id)
    ensures NotifierAcceptsAll(m, users, now, notifierRejects) <==> AcceptsRows(users, rows, notifierRejects)
  {
    forall id | id in WarnIds(m, now)
      ensures RowOf(m, id) in rows
    {
      assert id in IdsOf(rows);
      var i :| 0 <= i < |rows| && IdsOf(rows)[i] == id;
      assert rows[i] == RowOf(m, id);
    }
    forall row | row in rows
      ensures row.id in WarnIds(m, now)
    {
      var i :| 0 <= i < |rows| && rows[i] == row;
      assert IdsOf(rows)[i] == row.id;
    }
  }
}
