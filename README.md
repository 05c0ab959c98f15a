# Current-location bookkeeping of pure-picasso, in Dafny

This project models how the pure-picasso admin application tracks each
user's current location, and proves properties of that model. Users are
assigned to locations through a `UserLocation` join table. Each row carries
an `isPrimary` and an `isCurrent` flag. Four pieces of code touch this:

- **`PATCH /api/user-management/set-current-location`** (`set_current_location.dfy`).
  It clears every current flag of the signed-in user. It then looks up the
  user's row for the requested location and resolves a role id, from the
  session or else from the user record. If no role id is found it fails.
  Otherwise it flags the found row current, or creates a new row that is
  current and not primary. The table is a class `UserLocationStore` whose
  `SetCurrentLocation` method mutates its rows. The method is proved equal to
  the pure specification `Patch`. `Patch` validates the request and `Commit`
  performs the writes; the lemmas are proved about these two functions.
- **`/api/user-management/locations`** (`locations_route.dfy`).
  - The role classifier `isCorporateRole`.
  - `GET`: scope to the caller's assignments unless the role is corporate,
    apply an optional case-insensitive name search, count, sort by name,
    then page with skip/take. This is a pure function over the location and
    assignment tables.
  - `POST`: a validated append to a `LocationTable` class.
- **`LocationProvider`** (`location_context.dfy`). The `currentLocation`
  state, as a class. Its selection effect picks the first current entry,
  else the first primary entry, else nothing, and it fires only while no
  location is set. The `availableLocations` projection is also modelled.
- **`LocationPicker`** (`location_picker.dfy`).
  - The component's own copy of the classifier.
  - The merge that decorates every fetched location with the user's flags.
  - The choice between all locations and the assigned ones.
  - The empty/loading guard.
  - `handleSelect`: it sends the PATCH to the store, ignores the response,
    and sets the context's location. The new location is the first current
    entry of the refreshed session, or else the location just selected.

Shared pieces:

- `text.dfy`: JavaScript truthiness of optional strings, ASCII
  `toLowerCase`, and `includes`. `includes` is proved equivalent to an
  independent definition of substring occurrence.
- `seqs.dfy`: `Array.prototype.find` (as a first index) and `filter`.
- `session.dfy`: the session shapes.

A failed request might be expected to leave the previous current location
intact. It does not: the handler clears the user's current flags
(`set-current-location/route.ts` line 17) before it checks the role id
(line 36), so a `MissingRole` response leaves the user with no current row.
The model follows the code, and `CommitMissingRole` states this outcome.

The role id is checked on every request that gets past validation (line 36),
even when the user already has a row for the location and no row is created.
The model does the same.

The listing (`locations/route.ts` lines 52-65) applies no `isTrashed`
filter, so trashed locations are listed and counted like any other; the
model has no such filter either.

The picker ignores the PATCH response (`location-picker.tsx` lines 58-62).
After a `MissingRole` answer the refreshed session has no current entry, so
lines 76-77 make the refused location current in the picker anyway;
`LocationPicker.SelectAfterPatch` proves this. When `updateSession()`
yields nothing, line 68 falls back to the stale session user, whose old
current entry then wins over the selection (`LocationPicker.StaleSessionReverts`).

The comment at `location-context.tsx` line 37 mentions a fallback to the
first location. The code has no such fallback, and
`NoFirstLocationFallback` proves that none happens.

## Model

| member | source | states |
|---|---|---|
| SetCurrentLocation.UserLocationStore.SetCurrentLocation | app/api/user-management/set-current-location/route.ts:6-58 | The new table and the response are exactly `Patch` of the old table. Primary keys stay unique. On success the user has one current row, for the requested location. On `MissingRole` no row is added and the user has no current row. Existing rows change only in `isCurrent`. Other users' rows are untouched. |
| SetCurrentLocation.Patch | app/api/user-management/set-current-location/route.ts:6-14 | The response is 401 exactly without a session and 400 (missing location) exactly for a falsy `locationId`; both leave the table unchanged. Success answers with the requested location and needs a resolved role id. |
| SetCurrentLocation.Commit | app/api/user-management/set-current-location/route.ts:17-57 | The writes of a validated request: `MissingRole` exactly when no role id resolves, `Ok` with the location otherwise, and the table grows by at most one row. Its effect is stated by the `Commit*` lemmas below. |
| SetCurrentLocation.ClearCurrent | app/api/user-management/set-current-location/route.ts:17-20 | The bulk clear keeps the length. The user's rows lose only their current flag; other rows are unchanged. |
| SetCurrentLocation.MarkCurrent | app/api/user-management/set-current-location/route.ts:41-44 | The update by primary key flags exactly the row with that key as current and leaves every other row as it was. |
| SetCurrentLocation.FindAssignment | app/api/user-management/set-current-location/route.ts:23-25 | `findFirst` yields the first row of the user for the location, and yields nothing exactly when there is no such row. |
| SetCurrentLocation.ResolveRoleId | app/api/user-management/set-current-location/route.ts:28-35 | Uses the session's role id when it is non-empty, else the user record's. The result is present only if non-empty, and absent exactly when neither source has one. |
| SetCurrentLocation.PatchWithoutSession | app/api/user-management/set-current-location/route.ts:7-8 | With no session the response is 401 and the table is unchanged. |
| SetCurrentLocation.PatchWithoutLocation | app/api/user-management/set-current-location/route.ts:10-14 | A missing or empty `locationId` gives 400 and leaves the table unchanged. |
| SetCurrentLocation.PatchOutcome | app/api/user-management/set-current-location/route.ts:28-57 | With a session and a location, the request fails exactly when no role id resolves, and otherwise answers with the requested location. |
| SetCurrentLocation.CommitMissingRole | app/api/user-management/set-current-location/route.ts:17-38 | A missing role still leaves the bulk clear applied. No row is added, the user has no current row, and only the user's current flags differ. |
| SetCurrentLocation.CommitSoleCurrent | app/api/user-management/set-current-location/route.ts:17-55 | On success exactly one row of the user is current, and it is for the requested location. |
| SetCurrentLocation.CommitFrame | app/api/user-management/set-current-location/route.ts:17-44 | Existing rows keep `isPrimary`, `roleId`, `userId`, `locationId` and their key. Only `isCurrent` may change. Other users' rows do not change at all. |
| SetCurrentLocation.CommitInsertsOnlyWhenUnassigned | app/api/user-management/set-current-location/route.ts:23-54 | If the user already had a row for the location, the row count stays the same. Otherwise exactly one row is appended: current, not primary, with the resolved role id. |
| SetCurrentLocation.CommitIdempotentExisting | app/api/user-management/set-current-location/route.ts:17-44 | Repeating a request whose row already existed gives the same table and response. |
| SetCurrentLocation.CommitIdempotentNew | app/api/user-management/set-current-location/route.ts:17-54 | Repeating a request that created the row gives the same table and response; the second request creates nothing. |
| SetCurrentLocation.PatchIdempotent | app/api/user-management/set-current-location/route.ts:6-58 | Applying any request twice has the same effect as applying it once, including the 400 and 401 paths. |
| SetCurrentLocation.CommitWellFormed | app/api/user-management/set-current-location/route.ts:46-54 | A created row gets a fresh primary key, so keys stay unique. |
| SetCurrentLocation.PatchKeepsAtMostOneCurrent | app/api/user-management/set-current-location/route.ts:17-55 | If no user had two current rows before a request, none does after it. |
| SetCurrentLocation.SwitchBetweenTwoLocations | app/api/user-management/set-current-location/route.ts:17-55 | A user with no rows selects L1 and then L2. This creates two rows, and only the L2 row ends up current. |
| Text.Lower | app/api/user-management/locations/route.ts:12 | `toLowerCase` keeps the length and lower-cases each ASCII capital, leaving every other character as it is. |
| Text.Includes | app/api/user-management/locations/route.ts:16-17 | `includes` never holds for a pattern longer than the string and always holds for the empty pattern; `IncludesIffOccurs` proves it equivalent to occurrence at some position. |
| LocationsRoute.IsCorporateRole | app/api/user-management/locations/route.ts:10-19 | The role is corporate exactly when a name is present and its lower-cased form contains "owner" or "corporate". The absent and empty names are not corporate. The equality tests add nothing. |
| Text.IncludesIffOccurs | app/api/user-management/locations/route.ts:16-17 | The recursive `includes` holds exactly when the pattern occurs at some position. |
| LocationsRoute.CoOwnerIsCorporate | app/api/user-management/locations/route.ts:16 | The heuristic is loose: "Co-Owner" is classified as corporate. |
| LocationsRoute.UpperCaseCorporateIsCorporate | app/api/user-management/locations/route.ts:12 | Case is ignored: "CORPORATE" is corporate. |
| LocationsRoute.StaffIsNotCorporate | app/api/user-management/locations/route.ts:10-19 | "Staff" is not corporate. |
| LocationsRoute.ResolveRoleName | app/api/user-management/locations/route.ts:37-46 | Uses the session's role name when it is non-empty. Otherwise, when a role id is present, uses the name of that role (nothing if the role is unknown). Otherwise there is no name. |
| LocationsRoute.ParseQuery | app/api/user-management/locations/route.ts:24-28 | The defaults are page 1 and limit 100, with no search when the query is absent or empty. The direction is descending exactly when `dir` is "desc". |
| LocationsRoute.BuildWhere | app/api/user-management/locations/route.ts:52-65 | The clause restricts to the caller's assignments exactly when the role is not corporate. It searches by name exactly when the query is non-empty. |
| LocationsRoute.Select | app/api/user-management/locations/route.ts:55-63 | A location is selected exactly when it is in the table and satisfies the clause, and each satisfying row is kept as many times as the table holds it, so the count is the number of matching rows. |
| LocationsRoute.SortByName | app/api/user-management/locations/route.ts:69-75 | The result is a permutation of the input, sorted by name in the requested direction. |
| LocationsRoute.Paginate | app/api/user-management/locations/route.ts:73-74 | The page holds at most `take` elements: the run of the input that starts at `skip`. |
| LocationsRoute.ListLocations | app/api/user-management/locations/route.ts:22-103 | The `GET` handler: 401 exactly without a session, 500 exactly when `(page - 1) * limit` or `limit` is negative, and otherwise a listing whose total is the size of the caller's matching set. |
| LocationsRoute.PageOf | app/api/user-management/locations/route.ts:68-98 | The response built from the matching set is never 401; it is 500 exactly for negative paging, and otherwise reports the set's size and echoes page and limit. |
| LocationsRoute.PageFacts | app/api/user-management/locations/route.ts:68-98 | A successful page reports the total as the size of the whole matching set, echoes page and limit, and holds at most `limit` locations. Element i is element `skip + i` of the sorted matching set. Every element is in the matching set, and the page is sorted. |
| LocationsRoute.ListOutcome | app/api/user-management/locations/route.ts:22-103 | The listing is 401 exactly without a session. It is 500 exactly when `(page - 1) * limit` or `limit` is negative. |
| LocationsRoute.ListedMatch | app/api/user-management/locations/route.ts:52-75 | Every listed location is in the table and satisfies the caller's `where` clause. |
| LocationsRoute.ListedScopedToAssignments | app/api/user-management/locations/route.ts:53-58 | For a non-corporate caller, every listed location has an assignment row whose user id is the caller's. |
| LocationsRoute.ListedMatchQuery | app/api/user-management/locations/route.ts:60-65 | With a non-empty query, every listed name contains the query, ignoring case. |
| LocationsRoute.EmptyQueryFiltersNoName | app/api/user-management/locations/route.ts:60-65 | Without a query no name filter is applied. |
| LocationsRoute.CorporateListsEverything | app/api/user-management/locations/route.ts:49-68 | Without a query, a corporate caller matches every location, and the total is the size of the table, whatever the assignments. |
| LocationsRoute.TotalIgnoresPaging | app/api/user-management/locations/route.ts:68-97 | The total does not depend on page, limit or direction. It is the size of the matching set. |
| LocationsRoute.ListedPage | app/api/user-management/locations/route.ts:69-75 | The page has at most `limit` items. It is the slice of the sorted matching set that starts at `(page - 1) * limit`. |
| LocationsRoute.ListedSorted | app/api/user-management/locations/route.ts:69-75 | The page is sorted by name in the requested direction. |
| LocationsRoute.PostLocation | app/api/user-management/locations/route.ts:106-127 | A location is created exactly with a session and a non-empty name; otherwise the table is unchanged. A created location is appended with the generated id. |
| LocationsRoute.PostAppendsOne | app/api/user-management/locations/route.ts:106-124 | 401 exactly without a session; 400 exactly without a name. Neither changes the table. Otherwise exactly the new location is appended, with the given name and a null parent unless a non-empty one was given. |
| LocationsRoute.LocationTable.Post | app/api/user-management/locations/route.ts:106-127 | The in-place append produces exactly `PostLocation`'s response and table, and keeps location ids unique. |
| Session.FirstCurrent | app/context/location-context.tsx:42 | `find` on `isCurrent` gives the first flagged entry's location, and gives nothing exactly when no entry is flagged. |
| Session.FirstPrimary | app/context/location-context.tsx:47 | `find` on `isPrimary` gives the first flagged entry's location, and gives nothing exactly when no entry is flagged. |
| LocationContext.SelectInitial | app/context/location-context.tsx:40-49 | The first current entry's location if there is one. Otherwise the first primary entry's location. A location is selected exactly when some entry is current or primary. |
| LocationContext.SelectionStep | app/context/location-context.tsx:38-51 | The effect leaves a set location, or a missing session user, unchanged. Otherwise it applies the selection to the user's entries. |
| LocationContext.AvailableLocations | app/context/location-context.tsx:54-57 | Same length and order as the user's entries; element i is entry i's location. |
| LocationContext.SelectedIsAvailable | app/context/location-context.tsx:38-57 | Whatever the effect selects is one of the available locations. |
| LocationContext.NoFirstLocationFallback | app/context/location-context.tsx:37-49 | A user whose entries are neither current nor primary keeps no location, however many entries there are. |
| LocationContext.SelectionIdempotent | app/context/location-context.tsx:39-51 | Running the effect again after it has run changes nothing. |
| LocationContext.LocationProvider.RunSelectionEffect | app/context/location-context.tsx:38-51 | The state after the effect is `SelectionStep` of the state before. |
| LocationPicker.IsCorporate | app/components/layouts/demo3/components/location-picker.tsx:19-23 | The picker's copy agrees with the server's `isCorporateRole` on every input. |
| LocationPicker.Decorate | app/components/layouts/demo3/components/location-picker.tsx:38-41 | Id and name come from the fetched location. The flags are those of the first assigned entry with the same id, and absent when the location is not assigned. |
| LocationPicker.MergeAll | app/components/layouts/demo3/components/location-picker.tsx:38-42 | `allLocs` has the length and order of the fetched list (empty while not fetched), each element decorated. |
| LocationPicker.Source | app/components/layouts/demo3/components/location-picker.tsx:45 | A non-corporate user's source list is exactly the assigned entries; a corporate user's has one entry per fetched location. |
| LocationPicker.Render | app/components/layouts/demo3/components/location-picker.tsx:47-54 | A menu is never empty and never shown while loading; while loading the button is disabled with the loading caption. |
| LocationPicker.RenderGuard | app/components/layouts/demo3/components/location-picker.tsx:45-54 | The menu is offered exactly when not loading and the source list is non-empty. The disabled button reads "Loading..." exactly while loading. |
| LocationPicker.MenuEntries | app/components/layouts/demo3/components/location-picker.tsx:31-45 | A non-corporate user is offered exactly the assigned entries. A corporate user is offered every fetched location, in order, with the flags of its first assignment. |
| LocationPicker.NextCurrent | app/components/layouts/demo3/components/location-picker.tsx:64-78 | The first current entry of the refreshed user (or of the old session user when the refresh yields none). Without one, the location just selected, so never null. |
| LocationPicker.NextCurrentFollowsRefresh | app/components/layouts/demo3/components/location-picker.tsx:66-80 | When the refreshed session's only current entry is the selected location, that location becomes current. |
| LocationPicker.EntryOfRow | app/components/layouts/demo3/components/location-picker.tsx:64-69 | A row shown in the session that `updateSession()` returns (rebuilt by the session callback of `auth-options.ts`) keeps its location id and its current and primary flags. |
| LocationPicker.EntriesOfUser | app/components/layouts/demo3/components/location-picker.tsx:64-69 | The refreshed `userLocations` hold exactly the entries of the user's rows: every entry comes from a row of the user, and every row of the user appears. |
| LocationPicker.Refresh | app/components/layouts/demo3/components/location-picker.tsx:64-68 | The session user `updateSession()` returns keeps the id and carries the entries rebuilt from the table. |
| LocationPicker.SelectAfterPatch | app/components/layouts/demo3/components/location-picker.tsx:56-80 | PATCH then refresh from the table: after success the picker's next location is the selected id. After `MissingRole` the refreshed session has no current entry, so the refused location becomes current anyway. |
| LocationPicker.StaleSessionReverts | app/components/layouts/demo3/components/location-picker.tsx:64-74 | When the refresh yields nothing, the stale session's first current entry wins, and the selection reverts to it. |
| LocationPicker.HandleSelect | app/components/layouts/demo3/components/location-picker.tsx:56-82 | The store changes as `Patch` prescribes for the selected location's id, under the server's own session. The context's location becomes `NextCurrent` of the refreshed session, whatever the PATCH answered. |

## Left out

- Database and authentication I/O. Prisma queries, `getServerSession`,
  `useSession` and `updateSession` are replaced by values:
  - the tables are sequences held by classes;
  - the client session, the server's session for the PATCH (whose role id
    `auth-options.ts` reads afresh from the database) and the refreshed
    session are separate parameters;
  - the user record's role id (`users`) and the role names (`roles`) are maps;
  - generated primary keys are a counter (`nextId`) or a fresh-id parameter (`newId`).
- Transactions and concurrent requests. Requests run one at a time; two
  in-flight selections by the same user are not modelled.
- `parseInt` of a malformed number (NaN). `page` and `limit` are the
  integers parsed, or absent.
- Sort keys other than `name`. The `sort` parameter is ignored and names
  are compared by character code; database collation is not modelled.
- LocationsRoute.ListLocations: a negative `limit` is treated as a database
  error (500). The database's own meaning for a negative `take` is not
  modelled.
- The nested `parent`, `children` and `users` selections of `findMany` are
  not modelled. A listed location carries only its id, name and parent id.
- `toLowerCase` is modelled for ASCII letters only, and JSON bodies are
  already parsed into optional strings.
- The catch-all 500 responses for exceptions, and `console.error` logging.
- React rendering, `useTransition` and the pending state, the `useLocation`
  guard against use outside a provider, and `useAllLocations` caching. The
  fetched list and its loading flag are parameters.
- The order of rows the database returns. `findFirst` without `orderBy`
  (`set-current-location/route.ts` lines 23-25) is modelled as the row of
  lowest index, and locations with equal names keep table order after the
  sort; the database fixes neither.
- The session rebuild of `auth-options.ts` is modelled only for
  `userLocations`, in table order; location names come from a map, with ""
  for an unknown id.
- LocationContext.SelectionIdempotent: re-running the effect is only stated
  for a session that does not change between runs.
