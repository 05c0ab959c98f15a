/**
 * The `PATCH /api/user-management/set-current-location` handler: it makes the
 * requested location the signed-in user's current one in the `UserLocation`
 * join table, clearing the user's other current flags first and creating the
 * assignment when the user has none for that location.
 */
module SetCurrentLocation {
  import opened Wrappers
  import opened Text
  import opened Seqs
  import opened Session

  /** One row of the `UserLocation` join table. */
  datatype UserLocationRow = UserLocationRow(
    id: nat,
    userId: string,
    locationId: string,
    roleId: string,
    isPrimary: bool,
    isCurrent: bool)

  /**
   * The table's rows together with the next id the database hands out; row
   * ids stand for the database's generated primary keys.
   */
  datatype Table = Table(rows: seq<UserLocationRow>, nextId: nat)

  /** The handler's responses: 200, 401, and the two kinds of 400. */
  datatype PatchResult = Ok(locationId: string) | Unauthorized | MissingLocation | MissingRole

  /** Primary keys are unique and below the next one to be handed out. */
  ghost predicate WellFormed(t: Table) {
    && (forall i :: 0 <= i < |t.rows| ==> t.rows[i].id < t.nextId)
    && (forall i, j :: 0 <= i < j < |t.rows| ==> t.rows[i].id != t.rows[j].id)
  }

  /** Row `k` is the one and only current row of user `userId`. */
  ghost predicate SoleCurrent(rows: seq<UserLocationRow>, userId: string, k: int) {
    && 0 <= k < |rows|
    && rows[k].userId == userId && rows[k].isCurrent
    && forall j :: 0 <= j < |rows| && rows[j].userId == userId && rows[j].isCurrent ==> j == k
  }

  ghost predicate NoCurrent(rows: seq<UserLocationRow>, userId: string) {
    forall j :: 0 <= j < |rows| && rows[j].userId == userId ==> !rows[j].isCurrent
  }

  /** The table-wide invariant: no user has two current rows. */
  ghost predicate AtMostOneCurrentPerUser(rows: seq<UserLocationRow>) {
    forall i, j ::
      0 <= i < |rows| && 0 <= j < |rows| && rows[i].isCurrent && rows[j].isCurrent && rows[i].userId == rows[j].userId
      ==> i == j
  }

  /** The rows of `before` survive in `after`, with at most their `isCurrent` flag changed. */
  ghost predicate OnlyCurrentFlagsChanged(before: seq<UserLocationRow>, after: seq<UserLocationRow>) {
    |before| <= |after| &&
    forall i :: 0 <= i < |before| ==> after[i] == before[i].(isCurrent := after[i].isCurrent)
  }

  /** Rows of users other than `userId` are untouched. */
  ghost predicate OthersUntouched(before: seq<UserLocationRow>, after: seq<UserLocationRow>, userId: string) {
    |before| <= |after| &&
    forall i :: 0 <= i < |before| && before[i].userId != userId ==> after[i] == before[i]
  }

  /** `updateMany({ where: { userId }, data: { isCurrent: false } })`. */
  function ClearCurrent(rows: seq<UserLocationRow>, userId: string): (r: seq<UserLocationRow>)
    ensures |r| == |rows|
    ensures forall i :: 0 <= i < |rows| && rows[i].userId != userId ==> r[i] == rows[i]
    ensures forall i :: 0 <= i < |rows| && rows[i].userId == userId ==> r[i] == rows[i].(isCurrent := false)
  {
    if rows == [] then []
    else
      [if rows[0].userId == userId then rows[0].(isCurrent := false) else rows[0]]
      + ClearCurrent(rows[1..], userId)
  }

  /** `update({ where: { id }, data: { isCurrent: true } })`. */
  function MarkCurrent(rows: seq<UserLocationRow>, id: nat): (r: seq<UserLocationRow>)
    ensures |r| == |rows|
    ensures forall i :: 0 <= i < |rows| && rows[i].id != id ==> r[i] == rows[i]
    ensures forall i :: 0 <= i < |rows| && rows[i].id == id ==> r[i] == rows[i].(isCurrent := true)
  {
    if rows == [] then []
    else
      [if rows[0].id == id then rows[0].(isCurrent := true) else rows[0]]
      + MarkCurrent(rows[1..], id)
  }

  predicate IsAssignment(row: UserLocationRow, userId: string, locationId: string) {
    row.userId == userId && row.locationId == locationId
  }

  /** `findFirst({ where: { userId, locationId } })`, as a row index. */
  function FindAssignment(rows: seq<UserLocationRow>, userId: string, locationId: string): (r: Option<nat>)
    ensures r.Some? ==> r.value < |rows| && IsAssignment(rows[r.value], userId, locationId)
    ensures r.Some? ==> forall j :: 0 <= j < r.value ==> !IsAssignment(rows[j], userId, locationId)
    ensures r.None? <==> forall j :: 0 <= j < |rows| ==> !IsAssignment(rows[j], userId, locationId)
  {
    FindFirst(rows, (row: UserLocationRow) => IsAssignment(row, userId, locationId))
  }

  /**
   * The role id the handler settles on: the session's, or when that is
   * falsy the one stored on the user record (`users` maps a user id to its
   * `roleId` column); `None` when neither is a non-empty string.
   */
  function ResolveRoleId(user: SessionUser, users: map<string, Option<string>>): (r: Option<string>)
    ensures r.Some? ==> r.value != ""
    ensures Truthy(user.roleId) ==> r == user.roleId
    ensures !Truthy(user.roleId) ==> (r.Some? <==> user.id in users && Truthy(users[user.id]))
    ensures !Truthy(user.roleId) && r.Some? ==> r == users[user.id]
  {
    var roleId := if Truthy(user.roleId) then user.roleId
                  else if user.id in users then users[user.id] else None;
    if Truthy(roleId) then roleId else None
  }

  /** The row the handler creates when the user has no assignment for the location. */
  function NewAssignment(t: Table, userId: string, locationId: string, roleId: string): UserLocationRow {
    UserLocationRow(t.nextId, userId, locationId, roleId, false, true)
  }

  /**
   * The handler's response and the table afterwards: a request without a
   * session or without a location is refused before anything is written.
   */
  function Patch(t: Table, session: Option<SessionUser>, locationId: Option<string>,
                 users: map<string, Option<string>>): (r: (PatchResult, Table))
    ensures r.0.Unauthorized? <==> session.None?
    ensures r.0.MissingLocation? <==> session.Some? && !Truthy(locationId)
    ensures r.0.Unauthorized? || r.0.MissingLocation? ==> r.1 == t
    ensures r.0.Ok? ==> r.0 == Ok(locationId.value) && ResolveRoleId(session.value, users).Some?
  {
    if session.None? then (Unauthorized, t)
    else if !Truthy(locationId) then (MissingLocation, t)
    else Commit(t, session.value.id, locationId.value, ResolveRoleId(session.value, users))
  }

  /**
   * The writes of a validated request. The order follows the handler: the
   * user's current flags are cleared BEFORE the role id is checked, so a
   * missing role leaves the user with no current row.
   */
  function Commit(t: Table, userId: string, locationId: string, roleId: Option<string>): (r: (PatchResult, Table))
    ensures r.0 == if roleId.None? then MissingRole else Ok(locationId)
    ensures |t.rows| <= |r.1.rows| <= |t.rows| + 1
  {
    var cleared := ClearCurrent(t.rows, userId);
    var found := FindAssignment(cleared, userId, locationId);
    if roleId.None? then (MissingRole, Table(cleared, t.nextId))
    else
      match found
      case Some(k) =>
        (Ok(locationId), Table(MarkCurrent(cleared, cleared[k].id), t.nextId))
      case None =>
        (Ok(locationId), Table(cleared + [NewAssignment(t, userId, locationId, roleId.value)], t.nextId + 1))
  }

  // ---------------------------------------------------------------------
  // Properties of the handler
  // ---------------------------------------------------------------------

  /** Without a session the handler answers 401 and touches nothing. */
  lemma PatchWithoutSession(t: Table, locationId: Option<string>, users: map<string, Option<string>>)
    ensures Patch(t, None, locationId, users) == (Unauthorized, t)
  {
  }

  /** A missing or empty `locationId` is a 400 that touches nothing. */
  lemma PatchWithoutLocation(t: Table, user: SessionUser, locationId: Option<string>,
                             users: map<string, Option<string>>)
    requires !Truthy(locationId)
    ensures Patch(t, Some(user), locationId, users) == (MissingLocation, t)
  {
  }

  /**
   * With a session and a location the handler fails exactly when no role id
   * can be resolved, and otherwise succeeds with the requested location.
   */
  lemma PatchOutcome(t: Table, user: SessionUser, locationId: string, users: map<string, Option<string>>)
    requires locationId != ""
    ensures Patch(t, Some(user), Some(locationId), users).0 ==
            if ResolveRoleId(user, users).None? then MissingRole else Ok(locationId)
  {
  }

  /**
   * A missing role is reported only after the bulk clear: no row is created,
   * every row keeps its fields except the user's current flags, which are all
   * off.
   */
  lemma CommitMissingRole(t: Table, userId: string, locationId: string)
    ensures var (res, t') := Commit(t, userId, locationId, None);
      && res == MissingRole
      && |t'.rows| == |t.rows| && t'.nextId == t.nextId
      && NoCurrent(t'.rows, userId)
      && OnlyCurrentFlagsChanged(t.rows, t'.rows)
      && OthersUntouched(t.rows, t'.rows, userId)
  {
  }

  /**
   * On success the user has exactly one current row, and it is an assignment
   * to the requested location.
   */
  lemma CommitSoleCurrent(t: Table, userId: string, locationId: string, roleId: string)
    requires WellFormed(t)
    ensures var t' := Commit(t, userId, locationId, Some(roleId)).1;
      exists k :: SoleCurrent(t'.rows, userId, k) && t'.rows[k].locationId == locationId
  {
    var cleared := ClearCurrent(t.rows, userId);
    var t' := Commit(t, userId, locationId, Some(roleId)).1;
    match FindAssignment(cleared, userId, locationId)
    case Some(k) =>
      assert t'.rows == MarkCurrent(cleared, cleared[k].id);
      assert SoleCurrent(t'.rows, userId, k);
    case None =>
      assert t'.rows == cleared + [NewAssignment(t, userId, locationId, roleId)];
      assert SoleCurrent(t'.rows, userId, |cleared|);
  }

  /**
   * Existing rows keep every field but `isCurrent`, other users' rows are not
   * touched at all, and the only row that may be added is the new assignment.
   */
  lemma CommitFrame(t: Table, userId: string, locationId: string, roleId: Option<string>)
    requires WellFormed(t)
    ensures var t' := Commit(t, userId, locationId, roleId).1;
      && OnlyCurrentFlagsChanged(t.rows, t'.rows)
      && OthersUntouched(t.rows, t'.rows, userId)
      && t.nextId <= t'.nextId
  {
    var cleared := ClearCurrent(t.rows, userId);
    if roleId.Some? {
      match FindAssignment(cleared, userId, locationId)
      case Some(k) =>
        var t' := Commit(t, userId, locationId, roleId).1;
        assert t'.rows == MarkCurrent(cleared, cleared[k].id);
        forall i | 0 <= i < |t.rows| && t.rows[i].userId != userId
          ensures t'.rows[i] == t.rows[i]
        {
          assert cleared[i].id != cleared[k].id;
        }
      case None =>
    }
  }

  /**
   * On success the row count grows only when the user had no assignment for
   * the location, and then by exactly the new row: current, not primary,
   * with the resolved role id.
   */
  lemma CommitInsertsOnlyWhenUnassigned(t: Table, userId: string, locationId: string, roleId: string)
    ensures var t' := Commit(t, userId, locationId, Some(roleId)).1;
      if exists i :: 0 <= i < |t.rows| && IsAssignment(t.rows[i], userId, locationId) then
        |t'.rows| == |t.rows| && t'.nextId == t.nextId
      else
        && t'.rows == ClearCurrent(t.rows, userId) + [UserLocationRow(t.nextId, userId, locationId, roleId, false, true)]
        && t'.nextId == t.nextId + 1
  {
    var cleared := ClearCurrent(t.rows, userId);
    if exists i :: 0 <= i < |t.rows| && IsAssignment(t.rows[i], userId, locationId) {
      var i :| 0 <= i < |t.rows| && IsAssignment(t.rows[i], userId, locationId);
      assert IsAssignment(cleared[i], userId, locationId);
    }
  }

  /** Clearing a user's flags twice is clearing them once. */
  lemma ClearCurrentTwice(rows: seq<UserLocationRow>, userId: string)
    ensures ClearCurrent(ClearCurrent(rows, userId), userId) == ClearCurrent(rows, userId)
  {
  }

  /** Clearing a user's flags again after marking one of that user's rows undoes the mark. */
  lemma ClearAfterMark(cleared: seq<UserLocationRow>, userId: string, k: nat)
    requires k < |cleared| && cleared[k].userId == userId
    requires NoCurrent(cleared, userId)
    requires forall i :: 0 <= i < |cleared| && i != k ==> cleared[i].id != cleared[k].id
    ensures ClearCurrent(MarkCurrent(cleared, cleared[k].id), userId) == cleared
  {
    var marked := MarkCurrent(cleared, cleared[k].id);
    var again := ClearCurrent(marked, userId);
    forall i | 0 <= i < |cleared| ensures again[i] == cleared[i] {
      if i != k {
        assert marked[i] == cleared[i];
      }
    }
  }

  /** Clearing a table with a freshly appended current row of the user. */
  lemma ClearAfterAppend(cleared: seq<UserLocationRow>, row: UserLocationRow)
    requires NoCurrent(cleared, row.userId)
    ensures ClearCurrent(cleared + [row], row.userId) == cleared + [row.(isCurrent := false)]
  {
    var again := ClearCurrent(cleared + [row], row.userId);
    forall i | 0 <= i < |cleared| ensures again[i] == cleared[i] {
      assert (cleared + [row])[i] == cleared[i];
    }
  }

  /** Marking by a key no earlier row carries touches only the last row. */
  lemma MarkFreshRow(rows: seq<UserLocationRow>, row: UserLocationRow)
    requires row.isCurrent
    requires forall i :: 0 <= i < |rows| ==> rows[i].id < row.id
    ensures MarkCurrent(rows + [row.(isCurrent := false)], row.id) == rows + [row]
  {
    var marked := MarkCurrent(rows + [row.(isCurrent := false)], row.id);
    forall i | 0 <= i < |rows| ensures marked[i] == rows[i] {
      assert (rows + [row.(isCurrent := false)])[i] == rows[i];
    }
  }

  /** Idempotence when the user already had an assignment for the location. */
  lemma CommitIdempotentExisting(t: Table, userId: string, locationId: string, roleId: string, k: nat)
    requires WellFormed(t)
    requires FindAssignment(ClearCurrent(t.rows, userId), userId, locationId) == Some(k)
    ensures var (res, t') := Commit(t, userId, locationId, Some(roleId));
      Commit(t', userId, locationId, Some(roleId)) == (res, t')
  {
    var cleared := ClearCurrent(t.rows, userId);
    ClearAfterMark(cleared, userId, k);
  }

  /** Idempotence when the first request created the assignment. */
  lemma CommitIdempotentNew(t: Table, userId: string, locationId: string, roleId: string)
    requires WellFormed(t)
    requires FindAssignment(ClearCurrent(t.rows, userId), userId, locationId).None?
    ensures var (res, t') := Commit(t, userId, locationId, Some(roleId));
      Commit(t', userId, locationId, Some(roleId)) == (res, t')
  {
    var cleared := ClearCurrent(t.rows, userId);
    var row := NewAssignment(t, userId, locationId, roleId);
    var rows' := cleared + [row];
    ClearAfterAppend(cleared, row);
    var cleared' := ClearCurrent(rows', userId);
    assert IsAssignment(cleared'[|cleared|], userId, locationId);
    assert FindAssignment(cleared', userId, locationId) == Some(|cleared|);
    MarkFreshRow(cleared, row);
  }

  /** Repeating a request leaves the table as the first one left it, with the same response. */
  lemma PatchIdempotent(t: Table, session: Option<SessionUser>, locationId: Option<string>,
                        users: map<string, Option<string>>)
    requires WellFormed(t)
    ensures var (res, t') := Patch(t, session, locationId, users);
      Patch(t', session, locationId, users) == (res, t')
  {
    if session.Some? && Truthy(locationId) {
      var userId := session.value.id;
      var roleId := ResolveRoleId(session.value, users);
      var cleared := ClearCurrent(t.rows, userId);
      if roleId.None? {
        ClearCurrentTwice(t.rows, userId);
      } else {
        match FindAssignment(cleared, userId, locationId.value)
        case Some(k) => CommitIdempotentExisting(t, userId, locationId.value, roleId.value, k);
        case None => CommitIdempotentNew(t, userId, locationId.value, roleId.value);
      }
    }
  }

  /** The handler keeps primary keys unique. */
  lemma CommitWellFormed(t: Table, userId: string, locationId: string, roleId: Option<string>)
    requires WellFormed(t)
    ensures WellFormed(Commit(t, userId, locationId, roleId).1)
  {
    var cleared := ClearCurrent(t.rows, userId);
    assert WellFormed(Table(cleared, t.nextId));
    if roleId.Some? && FindAssignment(cleared, userId, locationId).None? {
      var rows' := cleared + [NewAssignment(t, userId, locationId, roleId.value)];
      assert forall i :: 0 <= i < |cleared| ==> rows'[i] == cleared[i];
    }
  }

  /** No user ever ends up with two current rows through this handler. */
  lemma PatchKeepsAtMostOneCurrent(t: Table, session: Option<SessionUser>,
                                   locationId: Option<string>, users: map<string, Option<string>>)
    requires WellFormed(t)
    requires AtMostOneCurrentPerUser(t.rows)
    ensures AtMostOneCurrentPerUser(Patch(t, session, locationId, users).1.rows)
  {
    if session.Some? && Truthy(locationId) {
      var userId := session.value.id;
      var roleId := ResolveRoleId(session.value, users);
      var t' := Commit(t, userId, locationId.value, roleId).1;
      CommitFrame(t, userId, locationId.value, roleId);
      if roleId.Some? {
        CommitSoleCurrent(t, userId, locationId.value, roleId.value);
        var k :| SoleCurrent(t'.rows, userId, k);
        forall i, j | 0 <= i < |t'.rows| && 0 <= j < |t'.rows| && t'.rows[i].isCurrent && t'.rows[j].isCurrent &&
          t'.rows[i].userId == t'.rows[j].userId
          ensures i == j
        {
          if t'.rows[i].userId != userId {
            assert t'.rows[i] == t.rows[i] && t'.rows[j] == t.rows[j];
          }
        }
      } else {
        CommitMissingRole(t, userId, locationId.value);
      }
    }
  }

  /**
   * A user without assignments selects L1 and then L2: each selection creates
   * one row, and afterwards only the L2 row is current.
   */
  lemma SwitchBetweenTwoLocations(userId: string, l1: string, l2: string, roleId: string)
    requires l1 != l2
    ensures var t1 := Commit(Table([], 0), userId, l1, Some(roleId)).1;
      var t2 := Commit(t1, userId, l2, Some(roleId)).1;
      && |t1.rows| == 1 && t1.rows[0].locationId == l1 && t1.rows[0].isCurrent && !t1.rows[0].isPrimary
      && |t2.rows| == 2 && t2.rows[0].locationId == l1 && !t2.rows[0].isCurrent
      && t2.rows[1].locationId == l2 && t2.rows[1].isCurrent && !t2.rows[1].isPrimary
  {
    var t1 := Commit(Table([], 0), userId, l1, Some(roleId)).1;
    assert FindAssignment(ClearCurrent(t1.rows, userId), userId, l2).None? by {
      assert !IsAssignment(ClearCurrent(t1.rows, userId)[0], userId, l2);
    }
  }

  // ---------------------------------------------------------------------
  // The handler as it runs against the table
  // ---------------------------------------------------------------------

  /** The `UserLocation` table, updated in place by the handler. */
  class UserLocationStore {
    var rows: seq<UserLocationRow>
    var nextId: nat

    ghost predicate Valid()
      reads this
    {
      WellFormed(Table(rows, nextId))
    }

    function Snapshot(): Table
      reads this
    {
      Table(rows, nextId)
    }

    constructor (initial: seq<UserLocationRow>, nextId: nat)
      requires WellFormed(Table(initial, nextId))
      ensures Valid() && rows == initial && this.nextId == nextId
    {
      rows := initial;
      this.nextId := nextId;
    }

    /** `PATCH /api/user-management/set-current-location` with body `{ locationId }`. */
    method SetCurrentLocation(session: Option<SessionUser>, locationId: Option<string>,
                              users: map<string, Option<string>>) returns (r: PatchResult)
      requires Valid()
      modifies this
      ensures Valid()
      ensures (r, Snapshot()) == Patch(old(Snapshot()), session, locationId, users)
      ensures r.Ok? ==> exists k :: SoleCurrent(rows, session.value.id, k) && rows[k].locationId == locationId.value
      ensures r == MissingRole ==> |rows| == |old(rows)| && NoCurrent(rows, session.value.id)
      ensures OnlyCurrentFlagsChanged(old(rows), rows)
      ensures session.Some? ==> OthersUntouched(old(rows), rows, session.value.id)
    {
      ghost var before := Snapshot();
      if session.None? {
        return Unauthorized;
      }
      if !Truthy(locationId) {
        return MissingLocation;
      }
      var userId := session.value.id;
      var lid := locationId.value;
      ghost var resolved := ResolveRoleId(session.value, users);
      CommitFrame(before, userId, lid, resolved);
      CommitWellFormed(before, userId, lid, resolved);

      rows := ClearCurrent(rows, userId);
      var userLocation := FindAssignment(rows, userId, lid);

      var roleId := session.value.roleId;
      if !Truthy(roleId) {
        roleId := if userId in users then users[userId] else None;
      }
      if !Truthy(roleId) {
        CommitMissingRole(before, userId, lid);
        return MissingRole;
      }

      match userLocation {
        case Some(k) =>
          rows := MarkCurrent(rows, rows[k].id);
        case None =>
          rows := rows + [UserLocationRow(nextId, userId, lid, roleId.value, false, true)];
          nextId := nextId + 1;
      }
      CommitSoleCurrent(before, userId, lid, roleId.value);
      r := Ok(lid);
    }
  }
}
