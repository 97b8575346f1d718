# Listing lifecycle sweep and authentication middleware

This project is a Dafny model of two parts of the burg-market server.

- **The listing lifecycle sweep** (`server/utils/listingCleanup.js`). `runListingCleanup` does three things in order:
  - It warns the owners of listings that are 29 to 30 days old and not sold, once per listing. It sends a notice with `daysLeft: 1` when the owner has a truthy email, and it stamps `expiry_warned_at` on every selected listing.
  - It deletes sold listings whose sale time is at least 7 days old.
  - It deletes unsold listings that are at least 30 days old.

  Each deletion first removes the listing's stored image from the object store, but only when the image URL lies under the configured public base. A failure of that removal is ignored. The sweep returns the sizes of its three selections.
- **The authentication middleware** (`server/middleware/authMiddleware.js`). It takes the token from an `Authorization: Bearer ...` header, trimmed, and falls back to the trimmed `token` cookie. It answers 401 `Missing token.` or 401 `Invalid token.`, or it calls `next()` with the numeric `userId` from the verified token.

Modules:

- `Wrappers`: `Option`, the model of `null` and `undefined`.
- `Js`: the JavaScript semantics the code uses: `typeof ... === "string"`, string truthiness, `startsWith` and `endsWith`, and `String.prototype.trim` with the ECMAScript white-space set.
- `FileKeys`: `fileKeyFromPublicUrl` and the guard of `deleteImageFromR2IfStored`. The value of `R2_PUBLIC_BASE` is a parameter.
- `Lifecycle`: the listing and user records, the three selections, the reference state `Swept` that a complete sweep must leave, and the ordered effect traces of each phase, with their lemmas.
- `ListingCleanup`: the class `ListingStore`. It holds the `listings` and `users` tables as maps and a ghost effect log. Its methods are the queries, `deleteImageFromR2IfStored`, `deleteListingById`, the warning and deletion loops, and `runListingCleanup`. Each method is proved against `Lifecycle`.
- `AuthMiddleware`: token selection and the middleware's decision as pure functions. `jwt.verify` is the function parameter `verify`.

The two collaborators of the sweep are parameters:
- `notifierRejects` says whether a call to `sendListingExpiryWarning` throws.
- `assetRejects` says whether the object-store delete fails.

Every call to either collaborator is appended to the log, and so is every store write.

## Model

| member | source | states |
|---|---|---|
| FileKeys.FileKeyFromPublicUrl | server/utils/listingCleanup.js:7-14 | A key exists iff the URL and the base are both non-empty strings and the URL starts with the base, trailing `/` removed, plus `/`. A returned key rebuilds the URL from the base. |
| FileKeys.NormalizeBase | server/utils/listingCleanup.js:11 | Appending back the removed `/` gives the configured base. At most one trailing `/` is dropped. |
| FileKeys.FileKeyRoundTrip | server/utils/listingCleanup.js:11-13 | For every key `k` and non-empty base, the key of `normalizedBase + "/" + k` is `k`. |
| FileKeys.FileKeyInjective | server/utils/listingCleanup.js:12-13 | For a fixed base, two URLs with the same derived key are the same URL. |
| FileKeys.TrailingSlashIrrelevant | server/utils/listingCleanup.js:11 | A base written with a trailing `/` yields the same key, or the same null, for every URL as the base written without it. |
| FileKeys.AssetKeyToDelete | server/utils/listingCleanup.js:17-18 | An object-store delete is wanted exactly when the derived key is present and non-empty, and it is for that key. |
| FileKeys.BareBaseIsSkipped | server/utils/listingCleanup.js:13-18 | The URL `normalizedBase + "/"` derives the empty key, so nothing is deleted for it. |
| FileKeys.DeletedKeyIsUnderBase | server/utils/listingCleanup.js:12-18 | Anything deleted from the object store comes from a URL under the base, and the URL is the base plus `/` plus the key. |
| ListingCleanup.ListingStore.DeleteImageFromR2IfStored | server/utils/listingCleanup.js:16-29 | The only effect is an object-store delete of the truthy key, or nothing. A rejection is recorded and swallowed. |
| Lifecycle.DeleteEffectsShape | server/utils/listingCleanup.js:58-62 | Deleting a listing makes at most one object-store delete, derived from its current image URL, and always before the row delete, which comes last. For an id that is already gone, only the no-op row delete happens, which is why a retry is safe. |
| ListingCleanup.ListingStore.DeleteListingById | server/utils/listingCleanup.js:58-62 | Afterwards the store is the old store without `id`, and the log grows by exactly the effects `DeleteEffects` prescribes for the image URL read before the delete. |
| Lifecycle.SelectionsDisjoint | server/utils/listingCleanup.js:66-74 | At one `now`, the warning, sold-expiry and active-expiry selections are pairwise disjoint. |
| Lifecycle.PhasesIndependent | server/utils/listingCleanup.js:81-101 | Stamping warnings does not change the sold-expiry selection. Deleting the sold-expired listings does not change the active-expiry selection. |
| Lifecycle.SweptIsExact | server/utils/listingCleanup.js:64-107 | A listing survives a sweep iff it is in neither expired selection. A survivor is unchanged, except that a warn candidate now carries `expiryWarnedAt == now`. |
| Lifecycle.SoldWithoutSaleTimeSurvives | server/utils/listingCleanup.js:85-91 | A sold listing with a null `sold_at` is never deleted and never changed. |
| Lifecycle.WarnedNeverCleared | server/utils/listingCleanup.js:66-82 | A sweep never clears or rewrites an existing `expiry_warned_at`. |
| Lifecycle.WarnOnce | server/utils/listingCleanup.js:65-82 | A listing warned by one sweep is never selected for warning by any later sweep, at any time. |
| Lifecycle.SweepIdempotent | server/utils/listingCleanup.js:64-107 | A second sweep at the same time selects nothing, and it leaves the store as it is. |
| Lifecycle.NoDupCard | server/utils/listingCleanup.js:109-113 | A query result without duplicates has as many rows as the selected set has elements. |
| Lifecycle.OwnerEmail | server/utils/listingCleanup.js:77-78 | An email is present iff the owner exists and has a non-empty (truthy) email, and it is that email. |
| Lifecycle.WarnTraceContents | server/utils/listingCleanup.js:76-82 | A warning phase notifies only rows of the phase, each through its owner's truthy email, with its title and `daysLeft == 1`. Every row with such an email is notified, every row is marked whether or not it has an email, and the phase has no other effects. |
| Lifecycle.WarnTraceMarks | server/utils/listingCleanup.js:76-82 | A warning phase marks its rows in query order, one mark per row, so the number of warned rows is the number of marks, not the number of notices. |
| Lifecycle.DeleteTraceRows | server/utils/listingCleanup.js:93-95 | A deletion phase (this loop and the one at lines 105-107) deletes the rows in the order of its selection, once each. |
| Lifecycle.DeleteEffectsRows | server/utils/listingCleanup.js:58-62 | Deleting one listing deletes exactly its own row. |
| Lifecycle.DeleteTraceAssets | server/utils/listingCleanup.js:58-60 | Every object-store delete in a deletion phase is for the truthy key of a selected listing's image URL. |
| Lifecycle.DeleteTraceReadsImagesOnly | server/utils/listingCleanup.js:58-61 | A deletion phase depends on the store only through the image URLs of the listings it deletes. |
| Lifecycle.DeletionPhasesCompose | server/utils/listingCleanup.js:84-107 | Run on the store the warning phase leaves, the two deletion phases select what they would select on the original store, delete the same images, and leave exactly `Swept`. |
| Lifecycle.StampAllStep | server/utils/listingCleanup.js:81 | Stamping one more listing only sets that listing's `expiryWarnedAt`. |
| Lifecycle.DeleteStep | server/utils/listingCleanup.js:93-95 | In a deletion loop, each turn finds the listing's image URL as the loop found it, removes only that id, and extends the trace by that id's effects. |
| Lifecycle.WarnStep | server/utils/listingCleanup.js:76-82 | In the warning loop, each turn stamps only that row's listing and extends the trace by that row's effects. |
| ListingCleanup.ListingStore.SelectIds | server/utils/listingCleanup.js:85-91 | A query (this one and those at lines 66-74 and 98-103) returns every listing matching it, each exactly once. |
| ListingCleanup.ListingStore.SelectWarnCandidates | server/utils/listingCleanup.js:66-74 | The warning query returns one row per listing in the warning window, each carrying that listing's id, title and owner. |
| ListingCleanup.ListingStore.WarnListing | server/utils/listingCleanup.js:77-81 | One warning turn notifies only when the owner's email is truthy. A notifier rejection ends the turn before the stamp. Otherwise the listing is stamped with `now` and the log grows by the row's effects. |
| ListingCleanup.ListingStore.WarnEach | server/utils/listingCleanup.js:76-82 | The loop completes iff the notifier accepts every row's notice. It then leaves every row's listing stamped and the row effects logged in order. On a rejection at row `k`, rows before `k` are stamped and logged, and row `k` is only notified. |
| ListingCleanup.ListingStore.DeleteEach | server/utils/listingCleanup.js:93-95 | The loop (this one and the one at lines 105-107) removes exactly the selected ids, and it logs their delete effects in order, read against the store the loop started from. |
| ListingCleanup.ListingStore.RunListingCleanup | server/utils/listingCleanup.js:64-114 | Each query result enumerates its selection. The sweep completes iff the notifier accepts every notice. On completion, the store equals `Swept`, the summary equals the three selection sizes, and the log is the warning trace followed by both deletion traces. On a rejection, only a prefix of the warnings has happened and nothing has been deleted. |
| ListingCleanup.RowsCoverWarnIds | server/utils/listingCleanup.js:66-79 | The warning rows' notices are exactly the warning selection's notices. |
| ListingCleanup.MissingExportAbortsSweep | server/utils/listingCleanup.js:79 | With the notifier as `email.js` provides it, no sweep that has a warn candidate whose owner has a truthy email can complete. |
| ListingCleanup.DeliveringNotifierCompletesSweep | server/utils/listingCleanup.js:76-82 | With a notifier that swallows its own failures, every sweep completes. |
| Js.Trim | server/middleware/authMiddleware.js:6-7 | `trim` returns a stretch of its input with only trimmable characters cut on either side, and that stretch neither starts nor ends with a trimmable character. |
| Js.SkipForward | server/middleware/authMiddleware.js:6-7 | The front cut of `trim` skips only trimmable characters and stops at the first non-trimmable one. |
| Js.SkipBackward | server/middleware/authMiddleware.js:6-7 | The back cut of `trim` skips only trimmable characters and stops after the last non-trimmable one. |
| Js.TrimPadded | server/middleware/authMiddleware.js:6-7 | A trimmed string padded on both sides with trimmable characters trims back to itself. |
| Js.TrimIdempotent | server/middleware/authMiddleware.js:6-7 | Trimming twice is the same as trimming once. |
| Js.TrimEmptyIff | server/middleware/authMiddleware.js:6-10 | A trimmed token is empty, and so missing, iff every character of it is white space. |
| Js.TrimmableBetweenSuffix | server/middleware/authMiddleware.js:6 | A white-space stretch after the `"Bearer "` prefix is white space in the whole header. |
| AuthMiddleware.BearerToken | server/middleware/authMiddleware.js:4-6 | There is a bearer token iff the header is a string that starts with `"Bearer "`. The token is the trimmed rest of the header. |
| AuthMiddleware.BearerTokenIsTrimmedSpan | server/middleware/authMiddleware.js:5-6 | The bearer token is the stretch of the header after `"Bearer "` with only white space around it, and it has no white space at either end. |
| AuthMiddleware.CookieToken | server/middleware/authMiddleware.js:7 | There is a cookie token iff the `token` cookie is a string. The token is that string trimmed. |
| AuthMiddleware.SelectToken | server/middleware/authMiddleware.js:8 | The chosen token is the bearer token or the cookie token. A usable (non-empty) token exists iff either of them is usable. |
| AuthMiddleware.Authenticate | server/middleware/authMiddleware.js:3-25 | Every answer is a 401 with `Missing token.` or `Invalid token.`. `Missing token.` is answered iff there is no usable token. `next` is called iff the token verifies to a payload whose `userId` is a number, and then that `userId` is passed on. |
| AuthMiddleware.BearerTakesPrecedence | server/middleware/authMiddleware.js:8 | With a usable bearer token the cookie is never looked at. |
| AuthMiddleware.CookieFallback | server/middleware/authMiddleware.js:8 | Without a usable bearer token, the trimmed cookie token is used. |
| AuthMiddleware.VerifiedOnlyOnSelectedToken | server/middleware/authMiddleware.js:8-15 | `jwt.verify` is consulted only on the selected token. Without a token the verifier does not matter. |
| AuthMiddleware.BearerIsCaseSensitive | server/middleware/authMiddleware.js:5 | `bearer x`, `Bearer` with no space, `Basic x`, and a non-string header give no bearer token. |
| AuthMiddleware.PaddedBearerIsTrimmed | server/middleware/authMiddleware.js:6 | `"Bearer "` followed by white space, a token and white space yields exactly that token. |
| AuthMiddleware.BlankBearerFallsBack | server/middleware/authMiddleware.js:6-8 | A bearer header holding only white space yields the cookie token instead. |
| AuthMiddleware.PaddedCookieIsTrimmed | server/middleware/authMiddleware.js:7 | White space around the cookie token is removed. |

## Left out

- Time: SQLite `datetime(...)` parsing and `CURRENT_TIMESTAMP` are not modelled. Timestamps are whole seconds, and one `now` stands for every `datetime('now', ...)` and `CURRENT_TIMESTAMP` of a sweep, although the source evaluates them query by query.
- Store errors: the `dbGet`, `dbAll` and `dbRun` adapters (server/utils/listingCleanup.js:31-56) and their rejections are not modelled. The tables are in-memory maps. In the source a failed query rejects the whole sweep, because no loop has a try/catch.
- Asynchrony and concurrency: every `await` is sequential in the model. Concurrent sweeps and concurrent requests are out of scope.
- Object-store protocol: the `DeleteObjectCommand` request, the bucket name and the `r2` client are not modelled. A delete is recorded as its key plus whether it was rejected.
- Mail: `sendListingExpiryWarning` is a parameter. `server/utils/email.js` does not export it (line 46); see Findings.
- Row order: the order in which SQLite returns rows is left to the store (`SelectIds` may return any order). The model proves facts about every order.
- Null titles: a listing's `title` is a string in the model. SQLite could hold NULL, which the source would pass through unchanged.
- JWT: `jwt.verify` and `JWT_SECRET` are the parameter `verify`. Signature checking, expiry and claims other than `userId` are not modelled. The user id has a type parameter `N`; the model only distinguishes "a number" from "anything else".
- Strings: JavaScript strings are UTF-16 code-unit sequences. The model uses Dafny `char` sequences, so surrogate pairs are not modelled. `trim` is modelled with the ECMAScript white-space and line-terminator characters.
- HTTP: `req` and `res` are reduced to the header value, the cookie value and an `Outcome`. The JSON body is reduced to its error string.
- Not implemented in the source: a title placeholder for the notice, per-record failure isolation in the sweep, and a notifier that swallows its own errors. The model follows the code.

## Findings

| source | as written | input that shows it | evidently intended | confidence | as-written member | corrected member |
|---|---|---|---|---|---|---|
| server/utils/listingCleanup.js:79 | `sendListingExpiryWarning` is imported from `./email`, but `server/utils/email.js:46` exports only `sendVerificationCode`. The imported name is `undefined`, and calling it throws, which rejects `runListingCleanup`. | A store with one unsold, unwarned listing created 29.5 days before `now`, owned by a user with email `"a@b.c"`: the sweep throws at line 79, before any stamp or deletion. | A warning mail is sent, with its delivery failures swallowed, and the sweep goes on to stamp and delete. | high (not executed) | ListingCleanup.MissingExportAbortsSweep | ListingCleanup.DeliveringNotifierCompletesSweep |
