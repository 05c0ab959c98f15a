/**
 * The `/api/user-management/locations` route: the role classifier that decides
 * corporate (organisation-wide) scope, the scoped, searched, sorted and paged
 * listing of `GET`, and the validated creation of `POST`.
 */
module LocationsRoute {
  import opened Wrappers
  import opened Text
  import opened Seqs
  import opened Session
  import opened SetCurrentLocation

  /** A row of the `Location` table, as far as this route reads and writes it. */
  datatype Location = Location(id: string, name: string, parentId: Option<string>)

  // ---------------------------------------------------------------------
  // Role classifier
  // ---------------------------------------------------------------------

  /**
   * `isCorporateRole`: a role confers corporate scope when its lower-cased
   * name contains "owner" or "corporate". The handler also tests the two
   * names for equality; the contract shows those tests add nothing.
   */
  function IsCorporateRole(roleName: Option<string>): (r: bool)
    ensures r <==> roleName.Some? &&
                   (Occurs(Lower(roleName.value), "owner") || Occurs(Lower(roleName.value), "corporate"))
  {
    if !Truthy(roleName) then false
    else
      var name := Lower(roleName.value);
      IncludesIffOccurs(name, "owner");
      IncludesIffOccurs(name, "corporate");
      IncludesSelf(name);
      name == "owner" || name == "corporate" || Includes(name, "owner") || Includes(name, "corporate")
  }

  /** The heuristic is loose: a name merely containing "owner" confers corporate scope. */
  lemma CoOwnerIsCorporate()
    ensures IsCorporateRole(Some("Co-Owner"))
  {
    assert OccursAt(Lower("Co-Owner"), "owner", 3);
  }

  /** The match ignores case. */
  lemma UpperCaseCorporateIsCorporate()
    ensures IsCorporateRole(Some("CORPORATE"))
  {
    assert Lower("CORPORATE") == "corporate";
  }

  /** A name containing neither word confers no corporate scope. */
  lemma StaffIsNotCorporate()
    ensures !IsCorporateRole(Some("Staff"))
  {
    assert Lower("Staff") == "staff";
    assert !OccursAt("staff", "owner", 0);
  }

  /**
   * The role name the listing classifies: the session's, or when that is
   * falsy and the session carries a role id, the name of that role
   * (`roles` maps a role id to its name).
   */
  function ResolveRoleName(user: SessionUser, roles: map<string, string>): (r: Option<string>)
    ensures Truthy(user.roleName) ==> r == user.roleName
    ensures !Truthy(user.roleName) && Truthy(user.roleId) ==>
              r == (if user.roleId.value in roles then Some(roles[user.roleId.value]) else None)
    ensures !Truthy(user.roleName) && !Truthy(user.roleId) ==> !Truthy(r)
  {
    if !Truthy(user.roleName) && Truthy(user.roleId) then
      if user.roleId.value in roles then Some(roles[user.roleId.value]) else None
    else user.roleName
  }

  // ---------------------------------------------------------------------
  // GET: query parameters
  // ---------------------------------------------------------------------

  datatype Direction = Asc | Desc

  /**
   * The raw query string: `None` for an absent or empty parameter; `page`
   * and `limit` as the integers `parseInt` yields.
   */
  datatype SearchParams = SearchParams(page: Option<int>, limit: Option<int>, query: Option<string>, dir: Option<string>)

  datatype ListQuery = ListQuery(page: int, limit: int, query: string, dir: Direction)

  const DefaultPage: int := 1
  const DefaultLimit: int := 100

  /** The defaults: page 1, limit 100, no search, ascending unless `dir` is exactly "desc". */
  function ParseQuery(p: SearchParams): (q: ListQuery)
    ensures q.page == p.page.GetOr(DefaultPage)
    ensures q.limit == p.limit.GetOr(DefaultLimit)
    ensures q.query == "" <==> !Truthy(p.query)
    ensures Truthy(p.query) ==> q.query == p.query.value
    ensures q.dir == Desc <==> p.dir == Some("desc")
  {
    ListQuery(
      match p.page case Some(n) => n case None => DefaultPage,
      match p.limit case Some(n) => n case None => DefaultLimit,
      match p.query case Some(s) => s case None => "",
      if p.dir == Some("desc") then Desc else Asc)
  }

  // ---------------------------------------------------------------------
  // GET: the `where` clause
  // ---------------------------------------------------------------------

  /**
   * The `where` input: an optional restriction to the locations assigned to
   * a user, and an optional case-insensitive name search.
   */
  datatype Where = Where(assignedTo: Option<string>, nameContains: Option<string>)

  /** The clause as the handler builds it: start empty, restrict, then search. */
  function BuildWhere(isCorporate: bool, userId: string, query: string): (w: Where)
    ensures w.assignedTo.Some? <==> !isCorporate
    ensures w.assignedTo.Some? ==> w.assignedTo.value == userId
    ensures w.nameContains.Some? <==> query != ""
    ensures w.nameContains.Some? ==> w.nameContains.value == query
  {
    var w := Where(None, None);
    var w := if !isCorporate then w.(assignedTo := Some(userId)) else w;
    if query != "" then w.(nameContains := Some(query)) else w
  }

  /** `users: { some: { userId } }`: some assignment row links the location to the user. */
  predicate AssignedTo(l: Location, userId: string, assignments: seq<UserLocationRow>) {
    exists i :: 0 <= i < |assignments| && assignments[i].locationId == l.id && assignments[i].userId == userId
  }

  /** `name: { contains, mode: insensitive }`. */
  predicate NameMatches(l: Location, query: string) {
    Includes(Lower(l.name), Lower(query))
  }

  predicate Satisfies(w: Where, l: Location, assignments: seq<UserLocationRow>) {
    && (w.assignedTo.Some? ==> AssignedTo(l, w.assignedTo.value, assignments))
    && (w.nameContains.Some? ==> NameMatches(l, w.nameContains.value))
  }

  function Select(w: Where, locations: seq<Location>, assignments: seq<UserLocationRow>): (r: seq<Location>)
    ensures forall l :: l in r <==> l in locations && Satisfies(w, l, assignments)
    ensures forall l :: multiset(r)[l] == if Satisfies(w, l, assignments) then multiset(locations)[l] else 0
  {
    Filter(locations, (l: Location) => Satisfies(w, l, assignments))
  }

  // ---------------------------------------------------------------------
  // GET: ordering by name
  // ---------------------------------------------------------------------

  /** Lexicographic order of names, by character code. */
  predicate NameLe(a: string, b: string)
    decreases |a|
  {
    |a| == 0 || (|b| > 0 && (a[0] < b[0] || (a[0] == b[0] && NameLe(a[1..], b[1..]))))
  }

  lemma {:induction false} NameLeTotal(a: string, b: string)
    ensures NameLe(a, b) || NameLe(b, a)
    decreases |a|
  {
    if |a| > 0 && |b| > 0 && a[0] == b[0] {
      NameLeTotal(a[1..], b[1..]);
    }
  }

  lemma {:induction false} NameLeTrans(a: string, b: string, c: string)
    requires NameLe(a, b) && NameLe(b, c)
    ensures NameLe(a, c)
    decreases |a|
  {
    if |a| > 0 && a[0] == b[0] && b[0] == c[0] {
      NameLeTrans(a[1..], b[1..], c[1..]);
    }
  }

  predicate InOrder(a: Location, b: Location, dir: Direction) {
    if dir == Asc then NameLe(a.name, b.name) else NameLe(b.name, a.name)
  }

  lemma InOrderTotal(a: Location, b: Location, dir: Direction)
    ensures InOrder(a, b, dir) || InOrder(b, a, dir)
  {
    NameLeTotal(a.name, b.name);
  }

  lemma InOrderTrans(a: Location, b: Location, c: Location, dir: Direction)
    requires InOrder(a, b, dir) && InOrder(b, c, dir)
    ensures InOrder(a, c, dir)
  {
    if dir == Asc {
      NameLeTrans(a.name, b.name, c.name);
    } else {
      NameLeTrans(c.name, b.name, a.name);
    }
  }

  ghost predicate SortedBy(s: seq<Location>, dir: Direction) {
    forall i, j :: 0 <= i < j < |s| ==> InOrder(s[i], s[j], dir)
  }

  /** Putting in front an element that precedes every element keeps a sequence sorted. */
  lemma ConsSorted(h: Location, s: seq<Location>, dir: Direction)
    requires SortedBy(s, dir)
    requires forall y :: y in s ==> InOrder(h, y, dir)
    ensures SortedBy([h] + s, dir)
  {
    var r := [h] + s;
    forall i, j | 0 <= i < j < |r| ensures InOrder(r[i], r[j], dir) {
      if i == 0 {
        assert r[j] in s;
      } else {
        assert r[i] == s[i - 1] && r[j] == s[j - 1];
      }
    }
  }

  function Insert(x: Location, s: seq<Location>, dir: Direction): (r: seq<Location>)
    requires SortedBy(s, dir)
    ensures multiset(r) == multiset(s) + multiset{x}
    ensures SortedBy(r, dir)
    decreases |s|
  {
    if s == [] then [x]
    else if InOrder(x, s[0], dir) then
      InsertFront(x, s, dir);
      [x] + s
    else
      assert s == [s[0]] + s[1..];
      InOrderTotal(x, s[0], dir);
      var rest := Insert(x, s[1..], dir);
      InsertBehind(s[0], x, s[1..], rest, dir);
      [s[0]] + rest
  }

  lemma InsertFront(x: Location, s: seq<Location>, dir: Direction)
    requires s != [] && SortedBy(s, dir) && InOrder(x, s[0], dir)
    ensures SortedBy([x] + s, dir)
  {
    forall y | y in s ensures InOrder(x, y, dir) {
      if y != s[0] {
        InOrderTrans(x, s[0], y, dir);
      }
    }
    ConsSorted(x, s, dir);
  }

  lemma InsertBehind(h: Location, x: Location, tail: seq<Location>, rest: seq<Location>, dir: Direction)
    requires SortedBy([h] + tail, dir) && InOrder(h, x, dir)
    requires SortedBy(rest, dir) && multiset(rest) == multiset(tail) + multiset{x}
    ensures SortedBy([h] + rest, dir)
  {
    forall y | y in rest ensures InOrder(h, y, dir) {
      assert y in multiset(rest);
      if y != x {
        assert y in multiset(tail);
        assert y in tail;
        var k :| 0 <= k < |tail| && tail[k] == y;
        assert ([h] + tail)[0] == h && ([h] + tail)[k + 1] == y;
      }
    }
    ConsSorted(h, rest, dir);
  }

  /** `orderBy: { name: dir }`: a sorted permutation of the input. */
  function SortByName(s: seq<Location>, dir: Direction): (r: seq<Location>)
    ensures multiset(r) == multiset(s)
    ensures SortedBy(r, dir)
  {
    if s == [] then []
    else
      assert s == [s[0]] + s[1..];
      Insert(s[0], SortByName(s[1..], dir), dir)
  }

  // ---------------------------------------------------------------------
  // GET: paging and the response
  // ---------------------------------------------------------------------

  function Min(a: int, b: int): int {
    if a <= b then a else b
  }

  /** `skip` / `take`. */
  function Paginate(s: seq<Location>, skip: nat, take: nat): (r: seq<Location>)
    ensures |r| <= take
    ensures |r| == if skip >= |s| then 0 else Min(take, |s| - skip)
    ensures forall i :: 0 <= i < |r| ==> skip + i < |s| && r[i] == s[skip + i]
  {
    if skip >= |s| then [] else s[skip..skip + Min(take, |s| - skip)]
  }

  /** The responses of `GET`: 401, 200 with data and pagination, or 500. */
  datatype ListResponse =
    | ListUnauthorized
    | Listed(data: seq<Location>, total: nat, page: int, limit: int)
    | ListServerError

  /** The `where` clause the handler builds for this caller and query. */
  function WhereFor(user: SessionUser, roles: map<string, string>, q: ListQuery): Where {
    BuildWhere(IsCorporateRole(ResolveRoleName(user, roles)), user.id, q.query)
  }

  /** The locations `count` and `findMany` see: those satisfying the caller's `where` clause. */
  function Matching(user: SessionUser, roles: map<string, string>, q: ListQuery,
                    locations: seq<Location>, assignments: seq<UserLocationRow>): seq<Location> {
    Select(WhereFor(user, roles, q), locations, assignments)
  }

  /** `skip: (page - 1) * limit`. */
  function SkipOf(q: ListQuery): int {
    (q.page - 1) * q.limit
  }

  /**
   * The response built from the matching set: the requested page of it in
   * name order, with the total and the paging echoed. A negative `skip` or
   * `limit` is refused by the database and ends in the 500 response.
   */
  function PageOf(matching: seq<Location>, q: ListQuery): (r: ListResponse)
    ensures !r.ListUnauthorized?
    ensures r.ListServerError? <==> SkipOf(q) < 0 || q.limit < 0
    ensures r.Listed? ==> r.total == |matching| && r.page == q.page && r.limit == q.limit
  {
    if SkipOf(q) < 0 || q.limit < 0 then ListServerError
    else Listed(Paginate(SortByName(matching, q.dir), SkipOf(q), q.limit), |matching|, q.page, q.limit)
  }

  /** `GET`: no session is a 401; otherwise count the matching locations and fetch a page of them. */
  function ListLocations(session: Option<SessionUser>, params: SearchParams, roles: map<string, string>,
                         locations: seq<Location>, assignments: seq<UserLocationRow>): (r: ListResponse)
    ensures r.ListUnauthorized? <==> session.None?
    ensures r.ListServerError? <==> session.Some? && (SkipOf(ParseQuery(params)) < 0 || ParseQuery(params).limit < 0)
    ensures r.Listed? ==> r.total == |Matching(session.value, roles, ParseQuery(params), locations, assignments)|
  {
    if session.None? then ListUnauthorized
    else
      var q := ParseQuery(params);
      PageOf(Matching(session.value, roles, q, locations, assignments), q)
  }

  // ---------------------------------------------------------------------
  // GET: properties
  // ---------------------------------------------------------------------

  /**
   * A page is a run of at most `limit` locations of the matching set, in
   * name order, starting at `skip`; the total is the size of the whole set.
   */
  lemma PageFacts(matching: seq<Location>, q: ListQuery)
    requires PageOf(matching, q).Listed?
    ensures var res := PageOf(matching, q);
      var ordered := SortByName(matching, q.dir);
      && res.total == |matching| && res.page == q.page && res.limit == q.limit
      && |res.data| <= q.limit
      && (forall i :: 0 <= i < |res.data| ==> 0 <= SkipOf(q) + i < |ordered| && res.data[i] == ordered[SkipOf(q) + i])
      && (forall l :: l in res.data ==> l in matching)
      && SortedBy(res.data, q.dir)
  {
    var ordered := SortByName(matching, q.dir);
    var data := Paginate(ordered, SkipOf(q), q.limit);
    forall l | l in data ensures l in matching {
      assert l in multiset(ordered);
    }
    PaginateSorted(ordered, SkipOf(q), q.limit, q.dir);
  }

  /** The listing fails only without a session (401) or with negative paging (500). */
  lemma ListOutcome(session: Option<SessionUser>, params: SearchParams, roles: map<string, string>,
                    locations: seq<Location>, assignments: seq<UserLocationRow>)
    ensures var q := ParseQuery(params);
      var res := ListLocations(session, params, roles, locations, assignments);
      && (res.ListUnauthorized? <==> session.None?)
      && (res.ListServerError? <==> session.Some? && (SkipOf(q) < 0 || q.limit < 0))
  {
  }

  /** Every listed location is a location of the table that matches the `where` clause. */
  lemma ListedMatch(user: SessionUser, params: SearchParams, roles: map<string, string>,
                    locations: seq<Location>, assignments: seq<UserLocationRow>)
    requires ListLocations(Some(user), params, roles, locations, assignments).Listed?
    ensures var w := WhereFor(user, roles, ParseQuery(params));
      forall l :: l in ListLocations(Some(user), params, roles, locations, assignments).data ==>
        l in locations && Satisfies(w, l, assignments)
  {
    var q := ParseQuery(params);
    PageFacts(Matching(user, roles, q, locations, assignments), q);
  }

  /** A caller without corporate scope only sees locations assigned to them. */
  lemma ListedScopedToAssignments(user: SessionUser, params: SearchParams, roles: map<string, string>,
                                  locations: seq<Location>, assignments: seq<UserLocationRow>)
    requires !IsCorporateRole(ResolveRoleName(user, roles))
    requires ListLocations(Some(user), params, roles, locations, assignments).Listed?
    ensures forall l :: l in ListLocations(Some(user), params, roles, locations, assignments).data ==>
      exists i :: 0 <= i < |assignments| && assignments[i].locationId == l.id && assignments[i].userId == user.id
  {
    ListedMatch(user, params, roles, locations, assignments);
  }

  /** With a non-empty query every listed name contains it, ignoring case. */
  lemma ListedMatchQuery(user: SessionUser, params: SearchParams, roles: map<string, string>,
                         locations: seq<Location>, assignments: seq<UserLocationRow>)
    requires Truthy(params.query)
    requires ListLocations(Some(user), params, roles, locations, assignments).Listed?
    ensures forall l :: l in ListLocations(Some(user), params, roles, locations, assignments).data ==>
      Occurs(Lower(l.name), Lower(params.query.value))
  {
    ListedMatch(user, params, roles, locations, assignments);
    forall l | l in ListLocations(Some(user), params, roles, locations, assignments).data
      ensures Occurs(Lower(l.name), Lower(params.query.value))
    {
      IncludesIffOccurs(Lower(l.name), Lower(params.query.value));
    }
  }

  /** Without a query no name filter applies: the scope alone decides. */
  lemma EmptyQueryFiltersNoName(user: SessionUser, params: SearchParams, roles: map<string, string>)
    requires !Truthy(params.query)
    ensures WhereFor(user, roles, ParseQuery(params)).nameContains.None?
  {
  }

  /**
   * Without a query a corporate caller's total counts every location, and
   * the pages are drawn from all of them whatever the assignments are.
   */
  lemma CorporateListsEverything(user: SessionUser, params: SearchParams, roles: map<string, string>,
                                 locations: seq<Location>, assignments: seq<UserLocationRow>)
    requires IsCorporateRole(ResolveRoleName(user, roles))
    requires !Truthy(params.query)
    ensures Matching(user, roles, ParseQuery(params), locations, assignments) == locations
    ensures var res := ListLocations(Some(user), params, roles, locations, assignments);
      res.Listed? ==> res.total == |locations|
  {
    var q := ParseQuery(params);
    var w := WhereFor(user, roles, q);
    FilterAll(locations, (l: Location) => Satisfies(w, l, assignments));
    if ListLocations(Some(user), params, roles, locations, assignments).Listed? {
      PageFacts(Matching(user, roles, q, locations, assignments), q);
    }
  }

  /**
   * The total is the size of the whole matching set: it does not depend on
   * the page or the limit asked for, nor on the direction.
   */
  lemma TotalIgnoresPaging(user: SessionUser, p1: SearchParams, p2: SearchParams,
                           roles: map<string, string>, locations: seq<Location>, assignments: seq<UserLocationRow>)
    requires p1.query == p2.query
    requires ListLocations(Some(user), p1, roles, locations, assignments).Listed?
    requires ListLocations(Some(user), p2, roles, locations, assignments).Listed?
    ensures ListLocations(Some(user), p1, roles, locations, assignments).total ==
            ListLocations(Some(user), p2, roles, locations, assignments).total
            == |Matching(user, roles, ParseQuery(p1), locations, assignments)|
  {
    var q1, q2 := ParseQuery(p1), ParseQuery(p2);
    PageFacts(Matching(user, roles, q1, locations, assignments), q1);
    PageFacts(Matching(user, roles, q2, locations, assignments), q2);
    assert WhereFor(user, roles, q1) == WhereFor(user, roles, q2);
  }

  /**
   * The page holds at most `limit` locations and is the run of the sorted
   * matching set that starts at `(page - 1) * limit`.
   */
  lemma ListedPage(user: SessionUser, params: SearchParams, roles: map<string, string>,
                   locations: seq<Location>, assignments: seq<UserLocationRow>)
    requires ListLocations(Some(user), params, roles, locations, assignments).Listed?
    ensures var q := ParseQuery(params);
      var res := ListLocations(Some(user), params, roles, locations, assignments);
      var ordered := SortByName(Matching(user, roles, q, locations, assignments), q.dir);
      && res.page == q.page && res.limit == q.limit
      && |res.data| <= q.limit
      && forall i :: 0 <= i < |res.data| ==> res.data[i] == ordered[SkipOf(q) + i]
  {
    var q := ParseQuery(params);
    PageFacts(Matching(user, roles, q, locations, assignments), q);
  }

  /** A run of a sorted sequence is sorted. */
  lemma PaginateSorted(s: seq<Location>, skip: nat, take: nat, dir: Direction)
    requires SortedBy(s, dir)
    ensures SortedBy(Paginate(s, skip, take), dir)
  {
    var r := Paginate(s, skip, take);
    forall i, j | 0 <= i < j < |r| ensures InOrder(r[i], r[j], dir) {
      assert r[i] == s[skip + i] && r[j] == s[skip + j];
    }
  }

  /** The page is ordered by name in the direction asked for. */
  lemma ListedSorted(user: SessionUser, params: SearchParams, roles: map<string, string>,
                     locations: seq<Location>, assignments: seq<UserLocationRow>)
    requires ListLocations(Some(user), params, roles, locations, assignments).Listed?
    ensures SortedBy(ListLocations(Some(user), params, roles, locations, assignments).data, ParseQuery(params).dir)
  {
    var q := ParseQuery(params);
    PageFacts(Matching(user, roles, q, locations, assignments), q);
  }

  // ---------------------------------------------------------------------
  // POST
  // ---------------------------------------------------------------------

  /** The responses of `POST`: 401, 400 without a name, 200 with the created location. */
  datatype PostResponse = PostUnauthorized | NameRequired | Created(location: Location)

  /**
   * `POST` with body `{ name, parentId }`: the response and the table
   * afterwards. `newId` is the key the database generates.
   */
  function PostLocation(locations: seq<Location>, session: Option<SessionUser>, name: Option<string>,
                        parentId: Option<string>, newId: string): (r: (PostResponse, seq<Location>))
    ensures r.0.Created? <==> session.Some? && Truthy(name)
    ensures !r.0.Created? ==> r.1 == locations
    ensures r.0.Created? ==> r.1 == locations + [r.0.location] && r.0.location.id == newId
  {
    if session.None? then (PostUnauthorized, locations)
    else if !Truthy(name) then (NameRequired, locations)
    else
      var location := Location(newId, name.value, if Truthy(parentId) then parentId else None);
      (Created(location), locations + [location])
  }

  /**
   * Without a session or without a name nothing is created; otherwise
   * exactly the new location is appended, with no parent unless a non-empty
   * one was given.
   */
  lemma PostAppendsOne(locations: seq<Location>, session: Option<SessionUser>, name: Option<string>,
                       parentId: Option<string>, newId: string)
    ensures var (res, after) := PostLocation(locations, session, name, parentId, newId);
      && (res.PostUnauthorized? <==> session.None?)
      && (res.NameRequired? <==> session.Some? && !Truthy(name))
      && (!res.Created? ==> after == locations)
      && (res.Created? ==>
            && after == locations + [res.location]
            && res.location.id == newId && res.location.name == name.value && res.location.name != ""
            && (res.location.parentId.None? <==> !Truthy(parentId)))
  {
  }

  /** The `Location` table, appended to in place by `POST`. */
  class LocationTable {
    var locations: seq<Location>

    /** Location ids are unique. */
    ghost predicate Valid()
      reads this
    {
      forall i, j :: 0 <= i < j < |locations| ==> locations[i].id != locations[j].id
    }

    constructor ()
      ensures Valid() && locations == []
    {
      locations := [];
    }

    /** `POST /api/user-management/locations`; `newId` comes from the database's key generator. */
    method Post(session: Option<SessionUser>, name: Option<string>, parentId: Option<string>, newId: string)
      returns (r: PostResponse)
      requires Valid()
      requires forall i :: 0 <= i < |locations| ==> locations[i].id != newId
      modifies this
      ensures Valid()
      ensures (r, locations) == PostLocation(old(locations), session, name, parentId, newId)
    {
      if session.None? {
        return PostUnauthorized;
      }
      if !Truthy(name) {
        return NameRequired;
      }
      var location := Location(newId, name.value, if Truthy(parentId) then parentId else None);
      locations := locations + [location];
      r := Created(location);
    }
  }
}
