/**
  The listing lifecycle as values (server/utils/listingCleanup.js): listing
  and user records, the three selections a sweep makes, the store a complete
  sweep leaves behind, and the side effects a phase performs, in order.
  Timestamps are whole seconds; one `now` is used for a whole sweep.
*/
module Lifecycle {
  import opened Wrappers
  import opened Js
  import opened FileKeys

  const Day: int := 86400

  type Id = int
  type UserId = int

  /** A row of the `listings` table, as far as the sweep reads or writes it.
      `status` is nullable; a null status counts as `'active'`. */
  datatype Listing = Listing(
    title: string,
    status: Option<string>,
    createdAt: int,
    soldAt: Option<int>,
    expiryWarnedAt: Option<int>,
    imageUrl: Option<string>,
    userId: UserId)

  /** A row of the `users` table; `email` is nullable. */
  datatype User = User(email: Option<string>)

  /** `COALESCE(status, 'active')`. */
  function EffectiveStatus(l: Listing): string {
    match l.status
    case Some(s) => s
    case None => "active"
  }

  predicate IsSold(l: Listing) {
    EffectiveStatus(l) == "sold"
  }

  /** The warning query: not sold, never warned, created in the one-day
      window (now - 30 days, now - 29 days]. */
  predicate InWarnWindow(l: Listing, now: int) {
    && !IsSold(l)
    && l.expiryWarnedAt.None?
    && l.createdAt <= now - 29 * Day
    && l.createdAt > now - 30 * Day
  }

  /** The sold-expiry query: sold, with a sale time at least 7 days old. */
  predicate SoldExpired(l: Listing, now: int) {
    && IsSold(l)
    && l.soldAt.Some?
    && l.soldAt.value <= now - 7 * Day
  }

  /** The active-expiry query: not sold and at least 30 days old. */
  predicate ActiveExpired(l: Listing, now: int) {
    && !IsSold(l)
    && l.createdAt <= now - 30 * Day
  }

  function WarnIds(m: map<Id, Listing>, now: int): set<Id> {
    set id | id in m && InWarnWindow(m[id], now)
  }

  function SoldIds(m: map<Id, Listing>, now: int): set<Id> {
    set id | id in m && SoldExpired(m[id], now)
  }

  function ActiveIds(m: map<Id, Listing>, now: int): set<Id> {
    set id | id in m && ActiveExpired(m[id], now)
  }

  /** The three listing queries of a sweep at time `now`. */
  datatype Query = WarnQuery(now: int) | SoldExpiredQuery(now: int) | ActiveExpiredQuery(now: int)

  predicate Matches(q: Query, l: Listing) {
    match q
    case WarnQuery(now) => InWarnWindow(l, now)
    case SoldExpiredQuery(now) => SoldExpired(l, now)
    case ActiveExpiredQuery(now) => ActiveExpired(l, now)
  }

  /** What query `q` selects from store `m`. */
  function Selection(m: map<Id, Listing>, q: Query): set<Id> {
    match q
    case WarnQuery(now) => WarnIds(m, now)
    case SoldExpiredQuery(now) => SoldIds(m, now)
    case ActiveExpiredQuery(now) => ActiveIds(m, now)
  }

  /** `expiry_warned_at := now`. */
  function MarkWarned(l: Listing, now: int): Listing {
    l.(expiryWarnedAt := Some(now))
  }

  /** The store after the listings in `ids` have been marked warned. */
  function StampAll(m: map<Id, Listing>, ids: set<Id>, now: int): map<Id, Listing> {
    map id | id in m :: if id in ids then MarkWarned(m[id], now) else m[id]
  }

  /** Marking one more listing warned. */
  lemma StampAllStep(m: map<Id, Listing>, ids: set<Id>, x: Id, now: int)
    requires x !in ids
    ensures var c := StampAll(m, ids, now);
      StampAll(m, ids + {x}, now) == if x in c then c[x := MarkWarned(c[x], now)] else c
  {
  }

  /** The store a complete sweep at `now` leaves behind: warn candidates
      marked, then both expired selections removed. */
  function Swept(m: map<Id, Listing>, now: int): map<Id, Listing> {
    StampAll(m, WarnIds(m, now), now) - SoldIds(m, now) - ActiveIds(m, now)
  }

  // ---------------------------------------------------------------------
  // Properties of the selections and of Swept

  /** At one `now`, the three selections are pairwise disjoint. */
  lemma SelectionsDisjoint(m: map<Id, Listing>, now: int)
    ensures SoldIds(m, now) !! ActiveIds(m, now)
    ensures WarnIds(m, now) !! ActiveIds(m, now)
    ensures WarnIds(m, now) !! SoldIds(m, now)
  {
    forall id | id in m
      ensures !(SoldExpired(m[id], now) && ActiveExpired(m[id], now))
      ensures !(InWarnWindow(m[id], now) && ActiveExpired(m[id], now))
      ensures !(InWarnWindow(m[id], now) && SoldExpired(m[id], now))
    {
    }
  }

  /** Marking listings warned does not change what the two deletion
      queries select, and deleting the sold-expired listings does not change
      what the active-expiry query selects: phase order does not matter for
      the selections. */
  lemma PhasesIndependent(m: map<Id, Listing>, w: set<Id>, now: int)
    ensures SoldIds(StampAll(m, w, now), now) == SoldIds(m, now)
    ensures ActiveIds(StampAll(m, w, now) - SoldIds(m, now), now) == ActiveIds(m, now)
  {
    var st := StampAll(m, w, now);
    forall id | id in m
      ensures id in st && SoldExpired(st[id], now) == SoldExpired(m[id], now)
      ensures id in st && ActiveExpired(st[id], now) == ActiveExpired(m[id], now)
    {
    }
    assert SoldIds(st, now) == SoldIds(m, now);
    SelectionsDisjoint(m, now);
    var rest := st - SoldIds(m, now);
    forall id | id in ActiveIds(m, now) ensures id in ActiveIds(rest, now) {
      assert id !in SoldIds(m, now);
    }
  }

  /** Running the two deletion phases on the store the warning phase left
      behind selects and deletes what the reference `Swept` says, and each
      deletion reads the same image URL it would have read before the
      warning phase. */
  lemma DeletionPhasesCompose(m: map<Id, Listing>, soldIds: seq<Id>, activeIds: seq<Id>, now: int,
                              base: JsValue, assetRejects: string -> bool)
    requires Elems(soldIds) == SoldIds(StampAll(m, WarnIds(m, now), now), now)
    requires Elems(activeIds) == ActiveIds(StampAll(m, WarnIds(m, now), now) - Elems(soldIds), now)
    ensures Elems(soldIds) == SoldIds(m, now)
    ensures Elems(activeIds) == ActiveIds(m, now)
    ensures StampAll(m, WarnIds(m, now), now) - Elems(soldIds) - Elems(activeIds) == Swept(m, now)
    ensures DeleteTrace(StampAll(m, WarnIds(m, now), now), soldIds, base, assetRejects)
         == DeleteTrace(m, soldIds, base, assetRejects)
    ensures DeleteTrace(StampAll(m, WarnIds(m, now), now) - Elems(soldIds), activeIds, base, assetRejects)
         == DeleteTrace(m, activeIds, base, assetRejects)
  {
    var st := StampAll(m, WarnIds(m, now), now);
    PhasesIndependent(m, WarnIds(m, now), now);
    SelectionsDisjoint(m, now);
    forall id | id in soldIds ensures ImageOf(st, id) == ImageOf(m, id) {
    }
    DeleteTraceReadsImagesOnly(st, m, soldIds, base, assetRejects);
    forall id | id in activeIds ensures ImageOf(st - Elems(soldIds), id) == ImageOf(m, id) {
      assert id in Elems(activeIds);
    }
    DeleteTraceReadsImagesOnly(st - Elems(soldIds), m, activeIds, base, assetRejects);
  }

  /** Which listings survive a sweep, and what they look like afterwards:
      exactly those in neither expired selection, unchanged except that a
      warn candidate now carries `expiryWarnedAt == now`. */
  lemma SweptIsExact(m: map<Id, Listing>, now: int, id: Id)
    ensures id in Swept(m, now) <==>
      id in m && !SoldExpired(m[id], now) && !ActiveExpired(m[id], now)
    ensures id in Swept(m, now) ==>
      Swept(m, now)[id] == if InWarnWindow(m[id], now) then MarkWarned(m[id], now) else m[id]
  {
  }

  /** A sold listing without a sale time is never deleted. */
  lemma SoldWithoutSaleTimeSurvives(m: map<Id, Listing>, now: int, id: Id)
    requires id in m && IsSold(m[id]) && m[id].soldAt.None?
    ensures id in Swept(m, now) && Swept(m, now)[id] == m[id]
  {
    SweptIsExact(m, now, id);
  }

  /** `expiryWarnedAt` is one-way: a sweep never clears or rewrites it. */
  lemma WarnedNeverCleared(m: map<Id, Listing>, now: int, id: Id)
    requires id in m && m[id].expiryWarnedAt.Some?
    requires id in Swept(m, now)
    ensures Swept(m, now)[id].expiryWarnedAt == m[id].expiryWarnedAt
  {
    SweptIsExact(m, now, id);
  }

  /** Warn-once: a listing a sweep selects for warning is not selected for
      warning by any later sweep, whatever its time. */
  lemma WarnOnce(m: map<Id, Listing>, now: int, later: int, id: Id)
    requires id in WarnIds(m, now)
    ensures id !in WarnIds(Swept(m, now), later)
  {
    SweptIsExact(m, now, id);
  }

  /** A second sweep at the same time selects nothing and changes nothing. */
  lemma SweepIdempotent(m: map<Id, Listing>, now: int)
    ensures WarnIds(Swept(m, now), now) == {}
    ensures SoldIds(Swept(m, now), now) == {}
    ensures ActiveIds(Swept(m, now), now) == {}
    ensures Swept(Swept(m, now), now) == Swept(m, now)
  {
    var s := Swept(m, now);
    forall id | id in s
      ensures !InWarnWindow(s[id], now) && !SoldExpired(s[id], now) && !ActiveExpired(s[id], now)
    {
      SweptIsExact(m, now, id);
    }
    assert WarnIds(s, now) == {};
    assert SoldIds(s, now) == {};
    assert ActiveIds(s, now) == {};
    assert StampAll(s, {}, now) == s;
  }

  // ---------------------------------------------------------------------
  // Query results as sequences

  predicate NoDup<T(==)>(s: seq<T>) {
    forall i, j :: 0 <= i < j < |s| ==> s[i] != s[j]
  }

  function Elems<T(==)>(s: seq<T>): set<T> {
    set x | x in s
  }

  /** A query result lists every selected id exactly once. */
  predicate Enumerates(ids: seq<Id>, selected: set<Id>) {
    NoDup(ids) && Elems(ids) == selected
  }

  /** A duplicate-free sequence has as many elements as its set: a count of
      query rows is the size of the selection. */
  lemma {:induction false} NoDupCard<T>(s: seq<T>)
    requires NoDup(s)
    ensures |Elems(s)| == |s|
  {
    if s != [] {
      var init := s[..|s| - 1];
      var last := s[|s| - 1];
      NoDupCard(init);
      assert s == init + [last];
      assert last !in Elems(init);
      assert Elems(s) == Elems(init) + {last};
    }
  }

  // ---------------------------------------------------------------------
  // Side effects

  /** What the warning notifier is given: recipient, title, listing id and
      the fixed `daysLeft: 1`. */
  datatype Notice = Notice(email: string, title: string, listingId: Id, daysLeft: int)

  /** One observable step of a sweep, in the order it happens: a call to the
      notifier, the `expiry_warned_at` update, an object-store delete (with
      whether it was rejected; the rejection is swallowed), a row delete. */
  datatype Effect =
    | Notify(notice: Notice)
    | MarkedWarned(id: Id, at: int)
    | AssetDelete(key: string, rejected: bool)
    | RowDelete(id: Id)

  /** A row of the warning query: the listing's id, title and owner. */
  datatype WarnRow = WarnRow(id: Id, title: string, userId: UserId)

  /** `user?.email` when it is truthy. */
  function OwnerEmail(users: map<UserId, User>, uid: UserId): (r: Option<string>)
    ensures r.Some? <==> uid in users && users[uid].email.Some? && users[uid].email.value != ""
    ensures r.Some? ==> r.value == users[uid].email.value
  {
    if uid in users && users[uid].email.Some? && users[uid].email.value != "" then
      Some(users[uid].email.value)
    else
      None
  }

  /** The notice for one warned row, when its owner has an email. */
  function NoticeFor(users: map<UserId, User>, row: WarnRow): Option<Notice> {
    match OwnerEmail(users, row.userId)
    case Some(email) => Some(Notice(email, row.title, row.id, 1))
    case None => None
  }

  /** Effects of warning one row: notify if there is an email, then mark. */
  function WarnEffects(users: map<UserId, User>, row: WarnRow, now: int): seq<Effect> {
    (match NoticeFor(users, row)
     case Some(n) => [Notify(n)]
     case None => [])
    + [MarkedWarned(row.id, now)]
  }

  /** Effects of warning `rows` in order. */
  function WarnTrace(users: map<UserId, User>, rows: seq<WarnRow>, now: int): seq<Effect> {
    if rows == [] then []
    else WarnTrace(users, rows[..|rows| - 1], now) + WarnEffects(users, rows[|rows| - 1], now)
  }

  /** `row?.imageUrl` for a fresh read of listing `id`. */
  function ImageOf(m: map<Id, Listing>, id: Id): JsValue {
    if id in m && m[id].imageUrl.Some? then JsString(m[id].imageUrl.value) else NonString
  }

  /** Effects of `deleteImageFromR2IfStored(imageUrl)`. */
  function AssetEffects(imageUrl: JsValue, base: JsValue, assetRejects: string -> bool): seq<Effect> {
    match AssetKeyToDelete(imageUrl, base)
    case Some(key) => [AssetDelete(key, assetRejects(key))]
    case None => []
  }

  /** Effects of `deleteListingById(id)` on store `m`: the asset delete (if
      any), then the row delete. */
  function DeleteEffects(m: map<Id, Listing>, id: Id, base: JsValue, assetRejects: string -> bool): seq<Effect> {
    AssetEffects(ImageOf(m, id), base, assetRejects) + [RowDelete(id)]
  }

  /** Effects of deleting `ids` in order, each read against store `m`. */
  function DeleteTrace(m: map<Id, Listing>, ids: seq<Id>, base: JsValue, assetRejects: string -> bool): seq<Effect> {
    if ids == [] then []
    else DeleteTrace(m, ids[..|ids| - 1], base, assetRejects) + DeleteEffects(m, ids[|ids| - 1], base, assetRejects)
  }

  /** Every notification of a warning phase is for a row of the phase, goes
      to that row's owner's truthy email, carries its title, and says one
      day is left; every row of the phase is marked, email or not. */
  lemma {:induction false} WarnTraceContents(users: map<UserId, User>, rows: seq<WarnRow>, now: int)
    ensures forall e :: e in WarnTrace(users, rows, now) && e.Notify? ==>
      exists row :: row in rows && NoticeFor(users, row) == Some(e.notice)
    ensures forall e :: e in WarnTrace(users, rows, now) && e.Notify? ==> e.notice.daysLeft == 1
    ensures forall row :: row in rows ==> MarkedWarned(row.id, now) in WarnTrace(users, rows, now)
    ensures forall row :: row in rows && NoticeFor(users, row).Some? ==>
      Notify(NoticeFor(users, row).value) in WarnTrace(users, rows, now)
    ensures forall e :: e in WarnTrace(users, rows, now) ==> e.Notify? || e.MarkedWarned?
  {
    if rows != [] {
      var init := rows[..|rows| - 1];
      var last := rows[|rows| - 1];
      WarnTraceContents(users, init, now);
      assert rows == init + [last];
      var t := WarnTrace(users, rows, now);
      assert t == WarnTrace(users, init, now) + WarnEffects(users, last, now);
      forall row | row in rows
        ensures MarkedWarned(row.id, now) in t
      {
        if row in init {
          assert MarkedWarned(row.id, now) in WarnTrace(users, init, now);
        } else {
          assert row == last;
        }
      }
      forall row | row in rows && NoticeFor(users, row).Some?
        ensures Notify(NoticeFor(users, row).value) in t
      {
        if row in init {
          assert Notify(NoticeFor(users, row).value) in WarnTrace(users, init, now);
        } else {
          assert row == last;
        }
      }
      forall e | e in t && e.Notify?
        ensures exists row :: row in rows && NoticeFor(users, row) == Some(e.notice)
      {
        if e in WarnTrace(users, init, now) {
          var row :| row in init && NoticeFor(users, row) == Some(e.notice);
          assert row in rows;
        } else {
          assert e in WarnEffects(users, last, now);
          assert NoticeFor(users, last) == Some(e.notice);
        }
      }
    }
  }

  /** The ids of the rows, in order. */
  function IdsOf(rows: seq<WarnRow>): seq<Id> {
    seq(|rows|, i requires 0 <= i < |rows| => rows[i].id)
  }

  lemma IdsOfPrefix(rows: seq<WarnRow>, i: nat)
    requires i < |rows| && NoDup(IdsOf(rows))
    ensures IdsOf(rows[..i + 1]) == IdsOf(rows[..i]) + [rows[i].id]
    ensures Elems(IdsOf(rows[..i + 1])) == Elems(IdsOf(rows[..i])) + {rows[i].id}
    ensures rows[i].id !in Elems(IdsOf(rows[..i]))
  {
    assert IdsOf(rows[..i + 1]) == IdsOf(rows[..i]) + [rows[i].id];
    assert IdsOf(rows)[i] == rows[i].id;
    forall j | 0 <= j < i ensures IdsOf(rows[..i])[j] != rows[i].id {
      assert IdsOf(rows[..i])[j] == IdsOf(rows)[j];
    }
  }

  lemma WarnTracePrefix(users: map<UserId, User>, rows: seq<WarnRow>, i: nat, now: int)
    requires i < |rows|
    ensures WarnTrace(users, rows[..i + 1], now) == WarnTrace(users, rows[..i], now) + WarnEffects(users, rows[i], now)
  {
    assert rows[..i + 1][..i] == rows[..i];
  }

  lemma DeleteTracePrefix(m: map<Id, Listing>, ids: seq<Id>, i: nat, base: JsValue, assetRejects: string -> bool)
    requires i < |ids|
    ensures DeleteTrace(m, ids[..i + 1], base, assetRejects)
         == DeleteTrace(m, ids[..i], base, assetRejects) + DeleteEffects(m, ids[i], base, assetRejects)
  {
    assert ids[..i + 1][..i] == ids[..i];
  }

  lemma InitLast<T>(s: seq<T>)
    requires s != []
    ensures s == s[..|s| - 1] + [s[|s| - 1]]
  {
  }

  lemma AppendAssoc<T>(a: seq<T>, b: seq<T>, c: seq<T>)
    ensures a + b + c == a + (b + c)
  {
  }

  /** One turn of a deletion loop over `ids` that started on store `m`:
      the store it finds still holds the same image for `ids[i]`, and the
      turn extends both the removed set and the trace by that one id. */
  lemma DeleteStep(m: map<Id, Listing>, ids: seq<Id>, i: nat, base: JsValue, assetRejects: string -> bool)
    requires NoDup(ids) && i < |ids|
    ensures DeleteEffects(m - Elems(ids[..i]), ids[i], base, assetRejects) == DeleteEffects(m, ids[i], base, assetRejects)
    ensures m - Elems(ids[..i]) - {ids[i]} == m - Elems(ids[..i + 1])
    ensures DeleteTrace(m, ids[..i + 1], base, assetRejects)
         == DeleteTrace(m, ids[..i], base, assetRejects) + DeleteEffects(m, ids[i], base, assetRejects)
  {
    DeleteTracePrefix(m, ids, i, base, assetRejects);
    assert ids[i] !in Elems(ids[..i]) by {
      assert forall j :: 0 <= j < i ==> ids[..i][j] == ids[j] != ids[i];
    }
    assert ImageOf(m - Elems(ids[..i]), ids[i]) == ImageOf(m, ids[i]);
    assert Elems(ids[..i + 1]) == Elems(ids[..i]) + {ids[i]} by {
      assert ids[..i + 1] == ids[..i] + [ids[i]];
    }
  }

  /** One turn of a warning loop over `rows` that started on store `m`. */
  lemma WarnStep(m: map<Id, Listing>, users: map<UserId, User>, rows: seq<WarnRow>, i: nat, now: int)
    requires i < |rows| && NoDup(IdsOf(rows))
    ensures var c := StampAll(m, Elems(IdsOf(rows[..i])), now);
      StampAll(m, Elems(IdsOf(rows[..i + 1])), now)
        == if rows[i].id in m then c[rows[i].id := MarkWarned(c[rows[i].id], now)] else c
    ensures WarnTrace(users, rows[..i + 1], now) == WarnTrace(users, rows[..i], now) + WarnEffects(users, rows[i], now)
    ensures rows[..i + 1] == rows[..i] + [rows[i]]
  {
    IdsOfPrefix(rows, i);
    WarnTracePrefix(users, rows, i, now);
    StampAllStep(m, Elems(IdsOf(rows[..i])), rows[i].id, now);
    assert rows[..i + 1] == rows[..i] + [rows[i]];
  }

  /** A warning phase marks its rows in order: the marks of the trace, read
      in order, are the rows' ids. The number of rows is the number of
      marks, not the number of notifications. */
  lemma {:induction false} WarnTraceMarks(users: map<UserId, User>, rows: seq<WarnRow>, now: int)
    ensures Marks(WarnTrace(users, rows, now)) == IdsOf(rows)
  {
    if rows != [] {
      var init := rows[..|rows| - 1];
      var last := rows[|rows| - 1];
      WarnTraceMarks(users, init, now);
      var w := WarnEffects(users, last, now);
      MarksAppend(WarnTrace(users, init, now), w);
      if NoticeFor(users, last).Some? {
        MarksAppend([Notify(NoticeFor(users, last).value)], [MarkedWarned(last.id, now)]);
      }
      assert Marks([MarkedWarned(last.id, now)]) == [last.id];
      assert IdsOf(rows) == IdsOf(init) + [last.id];
    }
  }

  /** The ids marked warned in an effect sequence, in order. */
  function Marks(t: seq<Effect>): seq<Id> {
    if t == [] then []
    else (if t[0].MarkedWarned? then [t[0].id] else []) + Marks(t[1..])
  }

  lemma {:induction false} MarksAppend(a: seq<Effect>, b: seq<Effect>)
    ensures Marks(a + b) == Marks(a) + Marks(b)
  {
    if a == [] {
      assert a + b == b;
    } else {
      assert (a + b)[0] == a[0];
      assert (a + b)[1..] == a[1..] + b;
      MarksAppend(a[1..], b);
    }
  }

  /** Deleting one listing: an object-store delete is attempted only for a
      truthy key derived from the listing's current image URL, and always
      before the row delete, which comes last whatever the object store
      answered. On an absent id nothing but the (no-op) row delete happens. */
  lemma DeleteEffectsShape(m: map<Id, Listing>, id: Id, base: JsValue, assetRejects: string -> bool)
    ensures var e := DeleteEffects(m, id, base, assetRejects);
      && 1 <= |e| <= 2
      && e[|e| - 1] == RowDelete(id)
      && (|e| == 2 <==> AssetKeyToDelete(ImageOf(m, id), base).Some?)
      && (|e| == 2 ==> e[0] == AssetDelete(AssetKeyToDelete(ImageOf(m, id), base).value,
                                           assetRejects(AssetKeyToDelete(ImageOf(m, id), base).value)))
    ensures id !in m ==> DeleteEffects(m, id, base, assetRejects) == [RowDelete(id)]
  {
  }

  /** The row deletes of a deletion phase happen in the order of the
      selection, one per selected id. */
  lemma {:induction false} DeleteTraceRows(m: map<Id, Listing>, ids: seq<Id>, base: JsValue, assetRejects: string -> bool)
    ensures RowDeletes(DeleteTrace(m, ids, base, assetRejects)) == ids
  {
    if ids != [] {
      var init := ids[..|ids| - 1];
      var last := ids[|ids| - 1];
      DeleteTraceRows(m, init, base, assetRejects);
      RowDeletesAppend(DeleteTrace(m, init, base, assetRejects), DeleteEffects(m, last, base, assetRejects));
      DeleteEffectsRows(m, last, base, assetRejects);
      InitLast(ids);
    }
  }

  /** Deleting one listing deletes exactly its row. */
  lemma DeleteEffectsRows(m: map<Id, Listing>, id: Id, base: JsValue, assetRejects: string -> bool)
    ensures RowDeletes(DeleteEffects(m, id, base, assetRejects)) == [id]
  {
    var a := AssetEffects(ImageOf(m, id), base, assetRejects);
    RowDeletesAppend(a, [RowDelete(id)]);
    assert RowDeletes(a) == [] by {
      if a != [] { assert a[1..] == []; }
    }
    assert RowDeletes([RowDelete(id)]) == [id] by {
      assert [RowDelete(id)][1..] == [];
    }
  }

  /** Object-store deletes of a deletion phase are only for truthy keys of
      selected listings' image URLs. */
  lemma {:induction false} DeleteTraceAssets(m: map<Id, Listing>, ids: seq<Id>, base: JsValue, assetRejects: string -> bool)
    ensures forall e :: e in DeleteTrace(m, ids, base, assetRejects) && e.AssetDelete? ==>
      exists id :: id in ids && AssetKeyToDelete(ImageOf(m, id), base) == Some(e.key)
  {
    if ids != [] {
      var init := ids[..|ids| - 1];
      var last := ids[|ids| - 1];
      DeleteTraceAssets(m, init, base, assetRejects);
      var d := DeleteEffects(m, last, base, assetRejects);
      forall e | e in DeleteTrace(m, ids, base, assetRejects) && e.AssetDelete?
        ensures exists id :: id in ids && AssetKeyToDelete(ImageOf(m, id), base) == Some(e.key)
      {
        if e in DeleteTrace(m, init, base, assetRejects) {
          var id :| id in init && AssetKeyToDelete(ImageOf(m, id), base) == Some(e.key);
          assert id in ids;
        } else {
          assert e in d;
          assert last in ids;
        }
      }
    }
  }

  /** The ids deleted in an effect sequence, in order. */
  function RowDeletes(t: seq<Effect>): seq<Id> {
    if t == [] then []
    else (if t[0].RowDelete? then [t[0].id] else []) + RowDeletes(t[1..])
  }

  lemma {:induction false} RowDeletesAppend(a: seq<Effect>, b: seq<Effect>)
    ensures RowDeletes(a + b) == RowDeletes(a) + RowDeletes(b)
  {
    if a == [] {
      assert a + b == b;
    } else {
      assert (a + b)[0] == a[0];
      assert (a + b)[1..] == a[1..] + b;
      RowDeletesAppend(a[1..], b);
    }
  }

  /** A deletion phase's effects depend on the store only through the image
      URLs of the listings it deletes. */
  lemma {:induction false} DeleteTraceReadsImagesOnly(m1: map<Id, Listing>, m2: map<Id, Listing>, ids: seq<Id>, base: JsValue, assetRejects: string -> bool)
    requires forall id :: id in ids ==> ImageOf(m1, id) == ImageOf(m2, id)
    ensures DeleteTrace(m1, ids, base, assetRejects) == DeleteTrace(m2, ids, base, assetRejects)
  {
    if ids != [] {
      var init := ids[..|ids| - 1];
      assert forall id :: id in init ==> id in ids;
      DeleteTraceReadsImagesOnly(m1, m2, init, base, assetRejects);
      assert ImageOf(m1, ids[|ids| - 1]) == ImageOf(m2, ids[|ids| - 1]);
    }
  }
}
