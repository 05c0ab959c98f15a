/**
 * The client-side `LocationProvider`: the `currentLocation` state, the effect
 * that picks an initial location from the session, and the
 * `availableLocations` projection.
 */
module LocationContext {
  import opened Wrappers
  import opened Seqs
  import opened Session

  /**
   * The location the effect selects from the session user's entries: the
   * first current one, else the first primary one, else none. There is no
   * fallback to the first entry.
   */
  function SelectInitial(entries: seq<UserLocationEntry>): (r: Option<LocRef>)
    ensures r.Some? <==> exists i :: 0 <= i < |entries| && (IsCurrentEntry(entries[i]) || IsPrimaryEntry(entries[i]))
    ensures forall i :: IsFirstCurrent(entries, i) ==> r == Some(entries[i].location)
    ensures (forall i :: 0 <= i < |entries| ==> !IsCurrentEntry(entries[i])) ==>
              forall i :: IsFirstPrimary(entries, i) ==> r == Some(entries[i].location)
  {
    var current := FirstCurrent(entries);
    if current.Some? then current else FirstPrimary(entries)
  }

  /**
   * One run of the effect on `[session, currentLocation]`: it fires only
   * while no location is set and a session user exists.
   */
  function SelectionStep(current: Option<LocRef>, session: Option<SessionUser>): (r: Option<LocRef>)
    ensures current.Some? || session.None? ==> r == current
    ensures current.None? && session.Some? ==> r == SelectInitial(session.value.userLocations)
  {
    if current.None? && session.Some? then SelectInitial(session.value.userLocations) else current
  }

  /** `userLocations.map(ul => ul.location)`. */
  function AvailableLocations(session: Option<SessionUser>): (r: seq<LocRef>)
    ensures |r| == |EntriesOf(session)|
    ensures forall i :: 0 <= i < |r| ==> r[i] == EntriesOf(session)[i].location
  {
    var entries := EntriesOf(session);
    seq(|entries|, i requires 0 <= i < |entries| => entries[i].location)
  }

  /** Whatever the effect selects is one of the available locations. */
  lemma SelectedIsAvailable(current: Option<LocRef>, session: Option<SessionUser>)
    requires current.None?
    ensures var r := SelectionStep(current, session);
      r.Some? ==> r.value in AvailableLocations(session)
  {
    if session.Some? {
      var entries := session.value.userLocations;
      var avail := AvailableLocations(session);
      match FindFirst(entries, IsCurrentEntry)
      case Some(k) =>
        assert avail[k] == entries[k].location;
      case None =>
        match FindFirst(entries, IsPrimaryEntry)
        case Some(k) =>
          assert avail[k] == entries[k].location;
        case None =>
    }
  }

  /**
   * A session user whose entries are neither current nor primary leaves the
   * location unset, however many entries there are.
   */
  lemma NoFirstLocationFallback(session: Option<SessionUser>)
    requires session.Some? && session.value.userLocations != []
    requires forall i :: 0 <= i < |session.value.userLocations| ==>
      !IsCurrentEntry(session.value.userLocations[i]) && !IsPrimaryEntry(session.value.userLocations[i])
    ensures SelectionStep(None, session) == None
  {
  }

  /** Once the effect has selected a location, running it again changes nothing. */
  lemma SelectionIdempotent(current: Option<LocRef>, session: Option<SessionUser>)
    ensures SelectionStep(SelectionStep(current, session), session) == SelectionStep(current, session)
  {
  }

  /** The `LocationProvider` state. */
  class LocationProvider {
    var currentLocation: Option<LocRef>

    /** `useState<Location | null>(null)`. */
    constructor ()
      ensures currentLocation.None?
    {
      currentLocation := None;
    }

    /** The `setCurrentLocation` setter the context exposes. */
    method SetCurrentLocation(location: Option<LocRef>)
      modifies this
      ensures currentLocation == location
    {
      currentLocation := location;
    }

    /** The selection effect, run with the session of the moment. */
    method RunSelectionEffect(session: Option<SessionUser>)
      modifies this
      ensures currentLocation == SelectionStep(old(currentLocation), session)
    {
      if currentLocation.None? && session.Some? {
        var userLocs := session.value.userLocations;
        var current := FirstCurrent(userLocs);
        if current.Some? {
          SetCurrentLocation(current);
        } else {
          var primary := FirstPrimary(userLocs);
          if primary.Some? {
            SetCurrentLocation(primary);
          }
        }
      }
    }
  }
}
