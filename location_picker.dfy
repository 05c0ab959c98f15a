/**
 * The `LocationPicker` component: which entries it offers (all locations,
 * decorated with the user's flags, for corporate users; the assigned ones
 * otherwise), when it offers none, and what becomes current after a select.
 */
module LocationPicker {
  import opened Wrappers
  import opened Text
  import opened Seqs
  import opened Session
  import opened SetCurrentLocation
  import opened LocationsRoute
  import opened LocationContext

  /**
   * The picker's own copy of the corporate-role test. It decides exactly as
   * the server's classifier does, so the picker offers all locations to the
   * same users the listing route gives organisation-wide scope.
   */
  function IsCorporate(roleName: Option<string>): (r: bool)
    ensures r == IsCorporateRole(roleName)
  {
    if !Truthy(roleName) then false
    else
      var rn := Lower(roleName.value);
      rn == "owner" || rn == "corporate" || Includes(rn, "owner") || Includes(rn, "corporate")
  }

  predicate SameLocation(a: UserLocationEntry, l: LocRef) {
    a.location.id == l.id
  }

  /** Entry `j` is the first assigned entry for the location with id `id`. */
  ghost predicate IsFirstAssigned(userLocs: seq<UserLocationEntry>, id: string, j: int) {
    && 0 <= j < |userLocs| && userLocs[j].location.id == id
    && forall i :: 0 <= i < j ==> userLocs[i].location.id != id
  }

  /**
   * One element of `allLocs`: the fetched location, with the flags of the
   * first assigned entry for it, or no flags when it is not assigned.
   */
  function Decorate(l: LocRef, userLocs: seq<UserLocationEntry>): (e: UserLocationEntry)
    ensures e.location == l
    ensures (forall j :: 0 <= j < |userLocs| ==> userLocs[j].location.id != l.id) ==>
              e.isPrimary.None? && e.isCurrent.None?
    ensures forall j :: IsFirstAssigned(userLocs, l.id, j) ==>
              e.isPrimary == userLocs[j].isPrimary && e.isCurrent == userLocs[j].isCurrent
  {
    var found := FindFirst(userLocs, (a: UserLocationEntry) => SameLocation(a, l));
    UserLocationEntry(
      LocRef(l.id, l.name),
      if found.Some? then userLocs[found.value].isPrimary else None,
      if found.Some? then userLocs[found.value].isCurrent else None)
  }

  /** `allLocs`: `(allLocations || []).map(...)`; `None` is the list not yet fetched. */
  function MergeAll(allLocations: Option<seq<LocRef>>, userLocs: seq<UserLocationEntry>): (r: seq<UserLocationEntry>)
    ensures |r| == |allLocations.GetOr([])|
    ensures forall i :: 0 <= i < |r| ==> r[i] == Decorate(allLocations.GetOr([])[i], userLocs)
  {
    var all := allLocations.GetOr([]);
    seq(|all|, i requires 0 <= i < |all| => Decorate(all[i], userLocs))
  }

  /** What the picker renders: a disabled button with a label, or the menu of entries. */
  datatype Label = Loading | NoLocations
  datatype View = Disabled(caption: Label) | Menu(entries: seq<UserLocationEntry>)

  /** The entries the picker draws from: every location for corporate users, the assigned ones otherwise. */
  function Source(session: Option<SessionUser>, allLocations: Option<seq<LocRef>>): (r: seq<UserLocationEntry>)
    ensures !IsCorporateRole(RoleNameOf(session)) ==> r == EntriesOf(session)
    ensures IsCorporateRole(RoleNameOf(session)) ==> |r| == |allLocations.GetOr([])|
  {
    var userLocs := EntriesOf(session);
    if IsCorporate(RoleNameOf(session)) then MergeAll(allLocations, userLocs) else userLocs
  }

  /** `session?.user?.roleName`. */
  function RoleNameOf(session: Option<SessionUser>): (r: Option<string>)
    ensures session.None? ==> r.None?
  {
    if session.Some? then session.value.roleName else None
  }

  /** The render: disabled while loading or when there is nothing to offer, else the menu. */
  function Render(session: Option<SessionUser>, allLocations: Option<seq<LocRef>>, isLoading: bool): (v: View)
    ensures v.Menu? ==> |v.entries| > 0 && !isLoading
    ensures isLoading ==> v == Disabled(Loading)
  {
    var locations := Source(session, allLocations);
    if |locations| == 0 || isLoading then Disabled(if isLoading then Loading else NoLocations)
    else Menu(locations)
  }

  /**
   * The menu appears exactly when the list has loaded and is non-empty; a
   * disabled button says "Loading..." exactly while loading.
   */
  lemma RenderGuard(session: Option<SessionUser>, allLocations: Option<seq<LocRef>>, isLoading: bool)
    ensures var v := Render(session, allLocations, isLoading);
      && (v.Menu? <==> !isLoading && |Source(session, allLocations)| > 0)
      && (v.Disabled? ==> (v.caption == Loading <==> isLoading))
      && (v.Menu? ==> v.entries == Source(session, allLocations))
  {
  }

  /**
   * A non-corporate user is offered exactly the assigned entries; a
   * corporate user is offered every fetched location, in the fetched order,
   * flagged as the user's first assignment of it is.
   */
  lemma MenuEntries(session: Option<SessionUser>, allLocations: Option<seq<LocRef>>, isLoading: bool)
    requires Render(session, allLocations, isLoading).Menu?
    ensures var entries := Render(session, allLocations, isLoading).entries;
      && (!IsCorporateRole(RoleNameOf(session)) ==> entries == EntriesOf(session))
      && (IsCorporateRole(RoleNameOf(session)) ==>
            && allLocations.Some? && |entries| == |allLocations.value|
            && forall i :: 0 <= i < |entries| ==>
                 && entries[i].location == allLocations.value[i]
                 && forall j :: IsFirstAssigned(EntriesOf(session), allLocations.value[i].id, j) ==>
                      entries[i].isPrimary == EntriesOf(session)[j].isPrimary &&
                      entries[i].isCurrent == EntriesOf(session)[j].isCurrent)
  {
    var entries := Render(session, allLocations, isLoading).entries;
    if IsCorporateRole(RoleNameOf(session)) {
      assert |entries| > 0;
      forall i | 0 <= i < |entries|
        ensures entries[i].location == allLocations.value[i]
      {
        assert entries[i] == Decorate(allLocations.value[i], EntriesOf(session));
      }
    }
  }

  /**
   * After a select: the first current entry of the refreshed user, or of
   * the session user when the refresh yields none, or else the location
   * just selected.
   */
  function NextCurrent(updated: Option<SessionUser>, sessionUser: Option<SessionUser>,
                       selected: UserLocationEntry): (r: LocRef)
    ensures var entries := EntriesOf(if updated.Some? then updated else sessionUser);
      && (forall i :: IsFirstCurrent(entries, i) ==> r == entries[i].location)
      && ((forall i :: 0 <= i < |entries| ==> !IsCurrentEntry(entries[i])) ==> r == selected.location)
  {
    var updatedUser := if updated.Some? then updated else sessionUser;
    match FirstCurrent(EntriesOf(updatedUser))
    case Some(found) => found
    case None => selected.location
  }

  /**
   * If the refreshed user's only current entry is the selected location,
   * that is what becomes current; in particular a refresh that reflects a
   * successful PATCH leads to the selected location.
   */
  lemma NextCurrentFollowsRefresh(updated: SessionUser, sessionUser: Option<SessionUser>,
                                  selected: UserLocationEntry, k: nat)
    requires k < |updated.userLocations|
    requires updated.userLocations[k].location == selected.location
    requires forall i :: 0 <= i < |updated.userLocations| ==> (IsCurrentEntry(updated.userLocations[i]) <==> i == k)
    ensures NextCurrent(Some(updated), sessionUser, selected) == selected.location
  {
    assert IsFirstCurrent(updated.userLocations, k);
  }

  /**
   * A user's assignment row as the refreshed session shows it: the location's
   * id and name (`names` maps a location id to its name) and both flags.
   */
  function EntryOfRow(row: UserLocationRow, names: map<string, string>): (e: UserLocationEntry)
    ensures e.location.id == row.locationId
    ensures IsCurrentEntry(e) <==> row.isCurrent
    ensures IsPrimaryEntry(e) <==> row.isPrimary
  {
    UserLocationEntry(
      LocRef(row.locationId, if row.locationId in names then names[row.locationId] else ""),
      Some(row.isPrimary),
      Some(row.isCurrent))
  }

  /** The `userLocations` the session callback rebuilds from the user's rows of the table. */
  function EntriesOfUser(rows: seq<UserLocationRow>, userId: string, names: map<string, string>): (r: seq<UserLocationEntry>)
    ensures forall e :: e in r ==>
      exists i :: 0 <= i < |rows| && rows[i].userId == userId && e == EntryOfRow(rows[i], names)
    ensures forall i :: 0 <= i < |rows| && rows[i].userId == userId ==> EntryOfRow(rows[i], names) in r
    decreases |rows|
  {
    if rows == [] then []
    else
      var rest := EntriesOfUser(rows[1..], userId, names);
      assert forall i :: 1 <= i < |rows| ==> rows[i] == rows[1..][i - 1];
      if rows[0].userId == userId then [EntryOfRow(rows[0], names)] + rest else rest
  }

  /** The session user after `updateSession()`, with its locations read afresh from the table. */
  function Refresh(user: SessionUser, t: Table, names: map<string, string>): (u: SessionUser)
    ensures u.id == user.id
    ensures u.userLocations == EntriesOfUser(t.rows, user.id, names)
  {
    user.(userLocations := EntriesOfUser(t.rows, user.id, names))
  }

  /** After a successful commit the refreshed entries' first current one is the requested location. */
  lemma RefreshAfterSuccess(t: Table, userId: string, locationId: string, roleId: string, names: map<string, string>)
    requires WellFormed(t)
    ensures var entries := EntriesOfUser(Commit(t, userId, locationId, Some(roleId)).1.rows, userId, names);
      FirstCurrent(entries).Some? && FirstCurrent(entries).value.id == locationId
  {
    var rows := Commit(t, userId, locationId, Some(roleId)).1.rows;
    var entries := EntriesOfUser(rows, userId, names);
    CommitSoleCurrent(t, userId, locationId, roleId);
    var k :| SoleCurrent(rows, userId, k) && rows[k].locationId == locationId;
    assert IsCurrentEntry(EntryOfRow(rows[k], names));
    assert EntryOfRow(rows[k], names) in entries;
    match FindFirst(entries, IsCurrentEntry)
    case Some(f) =>
      assert IsFirstCurrent(entries, f);
      assert entries[f] in entries;
      var i :| 0 <= i < |rows| && rows[i].userId == userId && entries[f] == EntryOfRow(rows[i], names);
      assert i == k;
    case None =>
  }

  /** After a commit refused for a missing role the refreshed entries have no current one. */
  lemma RefreshAfterMissingRole(t: Table, userId: string, locationId: string, names: map<string, string>)
    ensures FirstCurrent(EntriesOfUser(Commit(t, userId, locationId, None).1.rows, userId, names)).None?
  {
    var rows := Commit(t, userId, locationId, None).1.rows;
    var entries := EntriesOfUser(rows, userId, names);
    CommitMissingRole(t, userId, locationId);
    forall j | 0 <= j < |entries| ensures !IsCurrentEntry(entries[j]) {
      assert entries[j] in entries;
    }
  }

  /**
   * The PATCH followed by the session refresh, end to end. On success the
   * picker makes the selected location current. On `MissingRole` the PATCH
   * has cleared every current flag of the user, so the refreshed session has
   * no current entry and the picker still makes the refused location current.
   */
  lemma SelectAfterPatch(t: Table, user: SessionUser, users: map<string, Option<string>>,
                         names: map<string, string>, selected: UserLocationEntry)
    requires WellFormed(t)
    ensures var (res, t') := Patch(t, Some(user), Some(selected.location.id), users);
      var next := NextCurrent(Some(Refresh(user, t', names)), Some(user), selected);
      && (res.Ok? ==> next.id == selected.location.id)
      && (res == MissingRole ==> next == selected.location)
  {
    var lid := selected.location.id;
    if lid != "" {
      var roleId := ResolveRoleId(user, users);
      if roleId.Some? {
        RefreshAfterSuccess(t, user.id, lid, roleId.value, names);
      } else {
        RefreshAfterMissingRole(t, user.id, lid, names);
      }
    }
  }

  /**
   * When the refresh yields no session, the stale session user's first
   * current entry wins over the location just selected.
   */
  lemma StaleSessionReverts(sessionUser: SessionUser, selected: UserLocationEntry, k: nat)
    requires IsFirstCurrent(sessionUser.userLocations, k)
    requires sessionUser.userLocations[k].location != selected.location
    ensures NextCurrent(None, Some(sessionUser), selected) == sessionUser.userLocations[k].location
    ensures NextCurrent(None, Some(sessionUser), selected) != selected.location
  {
  }

  /**
   * `handleSelect`: send the PATCH for the selected location, ignore its
   * response, then set the context's location from the refreshed session.
   * `serverSession` is the session the PATCH handler reads for itself;
   * `refreshed` is what `updateSession()` resolves to.
   */
  method HandleSelect(store: UserLocationStore, users: map<string, Option<string>>, provider: LocationProvider,
                      serverSession: Option<SessionUser>, session: Option<SessionUser>,
                      refreshed: Option<SessionUser>, selected: UserLocationEntry)
    requires store.Valid()
    modifies store, provider
    ensures store.Valid()
    ensures store.Snapshot() == Patch(old(store.Snapshot()), serverSession, Some(selected.location.id), users).1
    ensures provider.currentLocation == Some(NextCurrent(refreshed, session, selected))
  {
    var _ := store.SetCurrentLocation(serverSession, Some(selected.location.id), users);
    var nextCurrent: LocRef;
    var updatedUser := if refreshed.Some? then refreshed else session;
    var found := FirstCurrent(EntriesOf(updatedUser));
    if found.Some? {
      nextCurrent := found.value;
    } else {
      nextCurrent := selected.location;
    }
    provider.SetCurrentLocation(Some(nextCurrent));
  }
}
