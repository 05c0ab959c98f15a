/**
 * The shapes of the signed-in session as the location code reads it: the
 * session user with its role and its assigned locations.
 */
module Session {
  import opened Wrappers
  import opened Seqs

  /** A location as the client sees it: `{ id, name }`. */
  datatype LocRef = LocRef(id: string, name: string)

  /**
   * One assigned location of the session user. The client code types both
   * flags as optional booleans; `None` is `undefined`.
   */
  datatype UserLocationEntry = UserLocationEntry(location: LocRef, isPrimary: Option<bool>, isCurrent: Option<bool>)

  /** JavaScript truthiness of an optional boolean flag. */
  predicate IsSet(flag: Option<bool>) {
    flag == Some(true)
  }

  predicate IsCurrentEntry(e: UserLocationEntry) {
    IsSet(e.isCurrent)
  }

  predicate IsPrimaryEntry(e: UserLocationEntry) {
    IsSet(e.isPrimary)
  }

  /** `session.user`; an absent `userLocations` is the empty list. */
  datatype SessionUser = SessionUser(
    id: string,
    roleId: Option<string>,
    roleName: Option<string>,
    userLocations: seq<UserLocationEntry>)

  /** `session?.user?.userLocations || []`. */
  function EntriesOf(user: Option<SessionUser>): (r: seq<UserLocationEntry>)
    ensures user.None? ==> r == []
  {
    match user
    case None => []
    case Some(u) => u.userLocations
  }

  /** Entry `i` is the first entry marked current. */
  ghost predicate IsFirstCurrent(entries: seq<UserLocationEntry>, i: int) {
    && 0 <= i < |entries| && IsCurrentEntry(entries[i])
    && forall j :: 0 <= j < i ==> !IsCurrentEntry(entries[j])
  }

  /** Entry `i` is the first entry marked primary. */
  ghost predicate IsFirstPrimary(entries: seq<UserLocationEntry>, i: int) {
    && 0 <= i < |entries| && IsPrimaryEntry(entries[i])
    && forall j :: 0 <= j < i ==> !IsPrimaryEntry(entries[j])
  }

  /** `entries.find(ul => ul.isCurrent)?.location`. */
  function FirstCurrent(entries: seq<UserLocationEntry>): (r: Option<LocRef>)
    ensures r.None? <==> forall i :: 0 <= i < |entries| ==> !IsCurrentEntry(entries[i])
    ensures forall i :: IsFirstCurrent(entries, i) ==> r == Some(entries[i].location)
  {
    match FindFirst(entries, IsCurrentEntry)
    case None => None
    case Some(k) => Some(entries[k].location)
  }

  /** `entries.find(ul => ul.isPrimary)?.location`. */
  function FirstPrimary(entries: seq<UserLocationEntry>): (r: Option<LocRef>)
    ensures r.None? <==> forall i :: 0 <= i < |entries| ==> !IsPrimaryEntry(entries[i])
    ensures forall i :: IsFirstPrimary(entries, i) ==> r == Some(entries[i].location)
  {
    match FindFirst(entries, IsPrimaryEntry)
    case None => None
    case Some(k) => Some(entries[k].location)
  }
}
