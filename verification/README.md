# Accessibility points: the point store and its callers, in Dafny

This project models the core of an app where people find and add
accessibility points: ramps, elevators, accessible restrooms, reserved
parking and step-free entrances. Its centre is the **point store**. The
store merges three sources of points. The first is a fixed seed list. The
second is a persisted overlay: an object that maps a location (the search
text) to the points users created or edited there. The third is a fallible
discovery call. The store offers three mutations: create, update
(rename / change icon) and rate. Three small pure layers sit on top of it:

- the screen's list handling: optimistic apply, then confirm or roll back;
- the details panel's permission gates and rating summaries;
- a case-insensitive user registry with a session slot.

Everything is written as pure functions over immutable values:

- `OverlayStore.Overlay` is the decoded overlay. It is an ordered sequence
  of `(location, points)` partitions with distinct locations, kept in the
  key order that `for … in` and `Object.values` walk.
- `Repository.Discovery` is what the discovery request produced: failure,
  blank text, unparsable text, or decoded points.
- The id from `crypto.randomUUID()` is a `freshId` parameter.
- The screen handlers take the awaited store call's outcome as a `reply`
  parameter. This lets a rejected call (for instance a failed storage
  write) be fed in.

JavaScript's id-keyed `Map` is modelled exactly. Setting an existing key
keeps its position and replaces its value. A new key goes to the end. So
`PointLists.Collect` is "last write wins, in order of first appearance".

Five behaviours of the code shape the model:

- Fetching a location does not merge in the seed points. The result is the
  discovered points overridden by that location's overlay.
- The store's update has no ownership check. Only the details panel's
  `canModify` gate keeps non-owners from editing.
- Rating values are not range-checked anywhere.
- The store never rejects an anonymous caller. The screen handlers simply
  do nothing without a user.
- Rating a point known only from discovery does not create an overlay copy.
  The store fails with "not found", and the screen rolls back.

Truthiness is modelled where the code relies on it:

- `!point?.creatorId` treats an empty creator id as "no creator".
- `if (users[key])` treats an empty stored id as "not registered".
- In `register`, a name without an own entry that lower-cases to an
  inherited `Object.prototype` member (`constructor`, `__proto__`) is
  truthy, so it counts as taken.

## Model

| member | source | states |
|---|---|---|
| Types.KindsAreSix | types.ts:1-8 | the point kind has exactly six variants and every kind is one of them |
| Seed.DefaultPoints | data/defaultPoints.ts:4-45 | the seed has exactly five points, with ids `default-1` to `default-5` in order |
| Seed.SeedIsWellFormed | data/defaultPoints.ts:5-44 | seed ids are pairwise distinct; no seed point has a creator, icon or ratings; the five kinds are distinct and never `Unknown` |
| PointLists.IndexOfId | services/geminiService.ts:159 | `findIndex` by id returns the first index holding the id, and none exactly when no element has it |
| PointLists.FindById | services/geminiService.ts:202 | `find` by id returns the first element of the list with that id, and none exactly when no element has it |
| PointLists.Put | services/geminiService.ts:61-65 | `Map.set` keeps ids distinct, makes the new point the one found for its id, leaves every other id's point and position unchanged, and appends only a new id |
| PointLists.Collect | services/geminiService.ts:58-68 | the id-keyed merge has no repeated id, holds for each id the last point written with it, and holds only input points |
| PointLists.LastWithIdAppend | services/geminiService.ts:61-66 | writing `a` then `b` leaves `b`'s last point for an id when `b` has one, otherwise `a`'s |
| PointLists.CollectKeepsFirstSeenOrder | services/geminiService.ts:68 | the merged list is ordered by each id's first occurrence in the writes (`Map` insertion order) |
| PointLists.CollectDistinctIsIdentity | services/geminiService.ts:104-107 | merging a list without repeated ids returns that list unchanged |
| PointLists.ReplaceById | App.tsx:152 | the screen's replace-by-id keeps length and every other element in place, and puts the new point at every position with the id |
| OverlayStore.Get | services/geminiService.ts:100 | `allUserPoints[location] \|\| []` is the partition stored under that key, or empty when the key is missing |
| OverlayStore.Assign | services/geminiService.ts:136 | assigning a key makes it read back the new list, leaves every other key's list unchanged, keeps keys distinct, and adds a partition only for a new key |
| OverlayStore.Flatten | services/geminiService.ts:64 | `Object.values(...).flat()`: every partition's points, partitions in key order (membership and distinctness are stated by the two lemmas below) |
| OverlayStore.PartitionOf | services/geminiService.ts:158-165 | the `for … in` scan returns the first partition in key order holding the id, and none exactly when no partition does |
| OverlayStore.FindInOverlay | services/geminiService.ts:190-198 | the cross-partition lookup returns the first point with that id in the first partition (in key order) holding it, and none exactly when no partition holds it |
| OverlayStore.Upsert | services/geminiService.ts:158-171 | when some partition holds the id, exactly one slot changes: the first index of the id in the first such partition, which keeps its location and all other points, and every other partition is kept; only when no partition holds it is the point appended to the end of the caller's location, which keeps its place in key order or becomes the last key, with every other partition in place; afterwards the lookup finds the written point |
| OverlayStore.UpsertKeepsWellFormed | services/geminiService.ts:158-171 | the write never files an id twice, within or across partitions, and keeps keys distinct |
| OverlayStore.FlattenMembers | services/geminiService.ts:64 | a point is in the flattened overlay exactly when some partition holds it |
| OverlayStore.FlattenDistinct | services/geminiService.ts:64 | with unique ids the flattened overlay repeats no id |
| OverlayStore.FindInOverlayIsInFlatten | services/geminiService.ts:64 | with unique ids, the partition scan and a search of the flattened overlay agree |
| OverlayStore.UpsertStoredIsIdentity | services/geminiService.ts:225-228 | writing back the very point already stored under its id leaves the overlay unchanged |
| Ratings.RatingIndex | services/geminiService.ts:214 | `findIndex` by user returns the first entry of that user, and none exactly when the user has no entry |
| Ratings.RatingOf | components/DetailsPanel.tsx:48 | the user's rating value exists exactly when the user has an entry, and it is the value of the user's first entry |
| Ratings.UpsertRating | services/geminiService.ts:213-220 | after rating, the user's value is the new one; the user's first entry is overwritten in place and every other entry, the user's later ones included, stays where it was; the list grows by one only for a first rating; an absent list starts empty |
| Ratings.UpsertRatingCount | services/geminiService.ts:213-220 | a user with no entry ends with exactly one; otherwise the count stays the same, so rating never duplicates a user's entry |
| Ratings.UpsertRatingIdempotent | services/geminiService.ts:216-217 | rating again with the same value leaves the list unchanged |
| Ratings.UpsertRatingRerates | services/geminiService.ts:212-220 | the rating upsert is a re-rating: first entry overwritten in place with every other entry kept at its position, or one appended, other users untouched, and at most one entry becomes exactly one |
| Repository.InitialPoints | services/geminiService.ts:55-69 | the initial list repeats no id and holds only seed or overlay points |
| Repository.InitialPrecedence | services/geminiService.ts:61-66 | for each id the initial list holds the last overlay point with it, and the seed point only when no partition has the id |
| Repository.InitialKeepsOverlayPoints | services/geminiService.ts:55-69 | on a well-formed overlay every overlay point appears unchanged; a seed point appears unchanged when no partition shares its id |
| Repository.ClearCreators | services/geminiService.ts:89-92 | discovered points keep every field except the creator, which is cleared |
| Repository.FetchPoints | services/geminiService.ts:71-117 | a reply gives a list without repeated ids drawn only from the cleared discovered points and the location's overlay (no seed); a failure gives the location's overlay as stored, and the error exactly when that is empty |
| Repository.FetchPrecedence | services/geminiService.ts:102-107 | the location's overlay beats discovered points: for each id the last overlay point wins, otherwise the last discovered one |
| Repository.EmptyTextIsOverlayOnly | services/geminiService.ts:84-107 | a blank reply is the same as an empty discovery and yields the location's overlay as stored |
| Repository.Fallback | services/geminiService.ts:109-116 | the `catch` branch returns the location's stored points exactly when there are some, and otherwise the unavailable error |
| Repository.CreatePoint | services/geminiService.ts:119-140 | the new point has the fresh id, the position, the fixed address and the caller as creator, with the draft's other fields; it is appended to the end of the location's partition, which keeps its place in key order or becomes the last key; every other partition stays in place |
| Repository.CreateIsUpsert | services/geminiService.ts:133-137 | with an unused id, creating is the store's upsert, keeps the overlay well formed and the point is found afterwards |
| Repository.WithOwner | services/geminiService.ts:151-154 | an existing creator is kept unchanged; only a missing one becomes the updater |
| Repository.UpdatePoint | services/geminiService.ts:142-175 | the stored point equals the given one apart from the ownership rule; it overwrites the one slot of the first partition holding the id, keeping that partition's location and other points and every other partition, or, when no partition holds it, is appended to the caller's location with key order kept |
| Repository.UpdateKeepsWellFormed | services/geminiService.ts:158-171 | an update never files a point twice |
| Repository.RatingTarget | services/geminiService.ts:189-206 | the point to rate is the overlay copy if any partition holds it, else the seed point, else none |
| Repository.RatePoint | services/geminiService.ts:177-237 | fails with not-found exactly when the id is in neither the overlay nor the seed; otherwise only `ratings` changes: the user's first entry is overwritten in place with every other entry kept at its position, or one entry appended, every other user's entries are kept, and a user with at most one entry ends with exactly one; the point overwrites its one slot in the partition it came from, or, for a seed point, is appended to the caller's location with key order kept |
| Repository.RateKeepsWellFormed | services/geminiService.ts:224-234 | rating keeps the overlay well formed |
| Repository.RateIsIdempotent | services/geminiService.ts:212-234 | rating a second time with the same value, from any location, changes neither the overlay nor the returned point |
| Repository.RateIgnoresLocationOfStoredPoint | services/geminiService.ts:187-198 | once a point is in the overlay, the caller's location has no effect on the rating |
| Repository.DiscoveredOnlyCannotBeRated | services/geminiService.ts:200-210 | a point in neither the overlay nor the seed cannot be rated |
| Auth.LowerIsIdempotent | services/authService.ts:40 | lower-casing a lower-cased name changes nothing |
| Auth.Lower | services/authService.ts:24 | lower-casing keeps the length and maps each character (ASCII and Latin-1 capitals) |
| Auth.CurrentUser | services/authService.ts:56-63 | the current user is whatever the session slot holds: the last user logged in, none after logout |
| Auth.Register | services/authService.ts:20-34 | registering fails exactly when the lower-cased name is taken: an own entry with a non-empty id, or an inherited `constructor`/`__proto__`; otherwise it adds exactly that key with the fresh id, keeps every other entry, returns the name as typed and leaves the session alone |
| Auth.Login | services/authService.ts:36-50 | login succeeds exactly when the lower-cased name is registered, returns the stored id with the name as typed and puts that user in the session; a failure changes nothing |
| Auth.Logout | services/authService.ts:52-54 | after logout the current user is none and the registry is unchanged |
| Auth.RegisterThenLogin | services/authService.ts:27-44 | after registering, any casing of the name logs in as the new id |
| Auth.LoginIgnoresCase | services/authService.ts:39-41 | two casings of one name log in alike and as the same id |
| Auth.LogoutThenLogin | services/authService.ts:36-54 | logging out empties the session but keeps the registry, so the same name logs in again as the same user |
| Auth.PasswordIsIgnored | services/authService.ts:20-36 | the password changes neither register nor login |
| Auth.InheritedNamesAreTaken | services/authService.ts:24-26 | a name lower-casing to `constructor` or `__proto__` cannot be registered unless the registry has such an own key |
| Details.OwnerModifiesButCannotRate | components/DetailsPanel.tsx:41-42 | a logged-in owner may modify the point but not rate it |
| Details.OthersRateButCannotModify | components/DetailsPanel.tsx:41-42 | a logged-in user who is not the (non-empty) creator may rate but not modify |
| Details.UnownedPointIsOpen | components/DetailsPanel.tsx:41-42 | a point without creator may be modified and rated by any logged-in user |
| Details.AnonymousCanDoNothing | components/DetailsPanel.tsx:41-42 | without a user neither gate opens |
| Details.CanModify | components/DetailsPanel.tsx:41 | a logged-in user may modify a point whose creator is missing, empty or that user |
| Details.CanRate | components/DetailsPanel.tsx:42 | a logged-in user may rate a point unless that user is its creator |
| Details.GatesAreComplementary | components/DetailsPanel.tsx:41-42 | for a logged-in user at least one gate is open; with a non-empty creator exactly one is; both are open exactly without creator, or with the empty creator and a non-empty user id |
| Details.TotalRatings | components/DetailsPanel.tsx:47 | the rating count is the list's length, 0 when the list or the point is absent |
| Details.UserRating | components/DetailsPanel.tsx:48 | the viewer's rating is the value of their first entry, and 0 when they have no entry, there is no list, no point or no viewer |
| Details.PanelAfterRating | components/DetailsPanel.tsx:47-48 | the panel's count is the number of ratings and its "your rating" is the viewer's first entry (0 when none); after the viewer rates, it shows their new value, and the count grows exactly for a first rating |
| Details.StartThenSaveIsNoOp | components/DetailsPanel.tsx:74-85 | opening the editor and saving at once asks for no rename |
| Details.EscapeDiscardsEdit | components/DetailsPanel.tsx:99-106 | after Escape, Enter asks for no rename, whatever had been typed |
| Details.Trim | components/DetailsPanel.tsx:81-82 | trimming yields empty exactly for blank text, and otherwise the slice between the first and last non-space characters |
| Details.TrimIsIdempotent | components/DetailsPanel.tsx:81-82 | trimming twice is trimming once |
| Details.StartEditing | components/DetailsPanel.tsx:74-78 | the editor opens on the current name only when a point is shown and may be modified; otherwise nothing changes |
| Details.SaveName | components/DetailsPanel.tsx:80-85 | a rename to the trimmed text is requested exactly when the trimmed text is non-empty and the raw text differs from the name; the editor always closes |
| Details.NameKey | components/DetailsPanel.tsx:99-106 | Enter saves; Escape closes and resets the text to the current name; other keys do nothing |
| App.LoadInitial | App.tsx:37-51 | the initial list is shown, or an empty list on failure; nothing else changes |
| App.FirstLoadShowsSeed | App.tsx:37-43 | with nothing stored yet, the screen opens on the five seed points in seed order |
| App.Search | App.tsx:55-77 | a search remembers the query, clears the selection, and shows exactly the fetched points or an empty list on failure |
| App.SearchShowsOverlayOnFailure | App.tsx:61-73 | with the store's fetch, a failed discovery shows the location's overlay, and a reply never shows an id twice |
| App.SaveNewPoint | App.tsx:131-146 | without coordinates or a user, or on failure, nothing changes; otherwise the new point is appended at the end and selected and the coordinates are cleared; the user and the query are always kept |
| App.SavedPointBelongsToUser | App.tsx:135-136 | with the store's create, the appended point has the user as creator and the chosen coordinates, and the earlier list is untouched |
| App.ApplyOptimistic | App.tsx:151-153 | the tentative point replaces every entry with the id, with the list's length kept, and is selected; the user, query and coordinates are kept |
| App.SettleEdit | App.tsx:155-161 | the confirmed point, or the original on failure, replaces the entries with the id and is selected, with the list's length kept; the user, query and coordinates are kept |
| App.UpdateIcon | App.tsx:148-163 | without the point or a user nothing changes; otherwise only entries with the id change, to the confirmed point or back to the original; the user, query and coordinates are always kept |
| App.Rename | App.tsx:165-180 | nothing changes without the point or a user, or for an unchanged name; otherwise only entries with the id change, to the confirmed point or back to the original; the user, query and coordinates are always kept |
| App.FailedEditRestoresList | App.tsx:158-178 | on a list without repeated ids, a failed icon update or rename restores exactly the previous list |
| App.OptimisticRating | App.tsx:190-203 | the tentative point differs only in ratings: the user's first entry is replaced in place with every other entry kept at its position, or one entry appended, every other user's entries are kept, a user with at most one entry ends with exactly one, and an absent list becomes a one-element list |
| App.Rate | App.tsx:182-224 | without a user or the point nothing changes; a failure restores the whole pre-call list and, when this point was selected, the original copy; a success changes only the entries with the id, to the stored point, and selects the stored point when this point was selected; any other selection is kept, and so are the user, query and coordinates |
| App.OptimisticMatchesStore | App.tsx:190-213 | when the screen shows the stored copy, the tentative point equals the point the store confirms |
| App.RatingDiscoveredPointRollsBack | App.tsx:211-222 | rating a point known only from discovery fails in the store, and the screen returns to its snapshot |
| App.PaddedNameIsNoOp | App.tsx:166-167 | a name changed only by surrounding spaces asks for a rename to the current name, which the screen ignores |

## Left out

- The discovery request: the prompt, the model call and the response schema. Its outcome is the `Discovery` input, because it is a network client.
- `localStorage`/`sessionStorage` and JSON encoding. This includes the fallback to an empty overlay when stored JSON is unreadable and to no user when the session is unreadable. The decoded overlay, user map and session are the state.
- A failed storage write inside a store mutation. The store functions always return the new overlay. The screen handlers take the store's outcome as a parameter, so a rejected write can be fed in as `Err`.
- `crypto.randomUUID()`: the fresh id is a parameter. Creating with an unused id is what keeps the overlay well formed (`Repository.CreateIsUpsert`).
- Timers and async interleaving. The handlers' `prev =>` updates are applied in sequence to the state the optimistic step produced.
- Engine ordering of integer-like object keys (`"1"` before `"a"`). Partitions keep insertion order.
- Latitude and longitude are opaque `real` values. The floating-point average rating and its rounding are not modelled.
- Auth.Login: a lower-cased name without an own entry that equals an inherited `Object.prototype` member (`constructor`, `__proto__`) logs in in the code with that member, a function or object, as the user id. The model's ids are strings, so it rejects such a login.
- OverlayStore.Get: a location without an own key that names an inherited `Object.prototype` member (`constructor`, `toString`, `__proto__`, …) reads that member in the code, not `[]`. The model reads it as a missing key.
- Repository.FetchPoints: for such a location the code's merge throws on the inherited member, and its `catch` returns that member whenever its `length` is positive. The model returns the merged points, as for any missing key.
- Repository.CreatePoint: for such a location the code's `push` throws. The model appends under a new key.
- Repository.UpdatePoint: when no partition holds the point and the location is such a name, the code's `push` throws. The model appends under a new key.
- Repository.RatePoint: when a seed point is rated and the location is such a name, the code's `push` throws. The model appends under a new key.
- Auth.Lower: maps only ASCII and Latin-1 capital letters. The full Unicode case mapping of `toLowerCase` is not modelled.
- The loading flags, error texts, live-region messages and selection-only handlers of the screen (`handleLogin`, `handleRegister`, `handleLogout`, `handlePointSelect`, `handleMapClick`, `handleStartAddingPoint`, `handleCancelAddPoint`). They hold no point data.
- The map widget, icons, the add-point, search and login forms, file reading, speech and page style toggles. They are UI only.
