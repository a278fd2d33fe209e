/** The read-only endpoints: GET /scim/v2/users (filter, order, paginate) and
    GET /scim/v2/users/{id}, as queries over the Users table, and the replies
    every endpoint returns. */
module Endpoints {
  import opened Common
  import opened Strings
  import opened DataModels
  import opened ScimModels

  /** What a handler hands back to the host: 200, 201 with a location, the
      404 envelope, or an exception that escapes the handler (a 500). */
  datatype Reply =
    | Ok(resource: ScimUser)
    | Created(location: string, resource: ScimUser)
    | NotFound(error: ScimErrorResponse)
    | Unhandled(fault: Fault)

  /** The one error envelope the routes share. */
  const NotFoundResponse := ErrorResponse(404, "Resource Not Found")

  /** Where a created user lives, relative to the users route. */
  function Location(id: int): string {
    "users/" + IntToString(id)
  }

  // ---------------------------------------------------------------- GetUser

  function GetUser(users: map<int, User>, id: int): (r: Reply)
    ensures id !in users <==> r == NotFound(NotFoundResponse)
    ensures id in users ==> r.Ok? && r.resource == ToWire(users[id])
  {
    if id in users then Ok(ToWire(users[id])) else NotFound(NotFoundResponse)
  }

  // -------------------------------------------------------------- ListUsers

  const UsernameAttribute := "username"

  lemma SingleKey<K, V>(m: map<K, V>)
    requires |m| <= 1
    ensures forall a, b :: a in m && b in m ==> a == b
  {
    forall a, b | a in m && b in m ensures a == b {
      assert |m.Keys - {a}| == |m.Keys| - 1;
      assert b != a ==> b in m.Keys - {a};
    }
  }

  /** The filter value whose key lower-cases to "username", if any; the
      parsed filter has at most one entry, so SingleOrDefault cannot throw. */
  function FilterUsername(parsed: map<string, string>): (r: Option<string>)
    requires |parsed| <= 1
    ensures r.Some? <==> exists k :: k in parsed && ToLower(k) == UsernameAttribute
    ensures r.Some? ==> exists k :: k in parsed && ToLower(k) == UsernameAttribute && parsed[k] == r.value
  {
    if exists k :: k in parsed && ToLower(k) == UsernameAttribute then
      SingleKey(parsed);
      var k :| k in parsed && ToLower(k) == UsernameAttribute;
      Some(parsed[k])
    else None
  }

  /** The Where clause: no filtering when the value is absent or blank,
      otherwise an exact, case-sensitive UserName match. */
  predicate Selected(u: User, filterUsername: Option<string>) {
    IsNullOrWhiteSpace(filterUsername) || u.userName == filterUsername.value
  }

  function MatchingIds(users: map<int, User>, filterUsername: Option<string>): set<int> {
    set id | id in users && Selected(users[id], filterUsername)
  }

  /** A set other than the empty one has an element. */
  lemma NonEmpty(s: set<int>)
    requires s != {}
    ensures exists x :: x in s
  {
    if forall x :: x !in s {
      assert false;
    }
  }

  lemma {:induction false} MaxWitness(s: set<int>) returns (m: int)
    requires s != {}
    ensures m in s && forall x :: x in s ==> x <= m
    decreases |s|
  {
    NonEmpty(s);
    var y :| y in s;
    var rest := s - {y};
    if rest == {} {
      m := y;
    } else {
      var r := MaxWitness(rest);
      m := if y > r then y else r;
    }
    forall x | x in s ensures x <= m {
      if x != y { assert x in rest; }
    }
  }

  lemma MaxExists(s: set<int>)
    requires s != {}
    ensures exists m :: m in s && forall x :: x in s ==> x <= m
  {
    var m := MaxWitness(s);
  }

  function MaxOf(s: set<int>): (m: int)
    requires s != {}
    ensures m in s && forall x :: x in s ==> x <= m
  {
    MaxExists(s);
    var m :| m in s && forall x :: x in s ==> x <= m;
    m
  }

  /** OrderByDescending(u => u.Id) over distinct Ids. */
  function SortDescending(ids: set<int>): (r: seq<int>)
    ensures |r| == |ids|
    ensures forall i :: 0 <= i < |r| ==> r[i] in ids
    ensures forall x :: x in ids ==> x in r
    ensures forall i, j :: 0 <= i < j < |r| ==> r[i] > r[j]
    decreases |ids|
  {
    if ids == {} then []
    else
      var m := MaxOf(ids);
      [m] + SortDescending(ids - {m})
  }

  /** The users the query loads: the selected ones, newest Id first. */
  function Listed(users: map<int, User>, filterUsername: Option<string>): (rows: seq<User>)
    ensures |rows| == |MatchingIds(users, filterUsername)|
  {
    var ids := SortDescending(MatchingIds(users, filterUsername));
    seq(|ids|, i requires 0 <= i < |ids| => users[ids[i]])
  }

  /** Listed holds every selected user once, in strictly descending Id order,
      and nothing else. */
  lemma ListedSpec(users: map<int, User>, nextId: int, filterUsername: Option<string>)
    requires WellFormed(users, nextId)
    ensures var rows := Listed(users, filterUsername);
      && (forall i :: 0 <= i < |rows| ==> rows[i].id in users && users[rows[i].id] == rows[i])
      && (forall i :: 0 <= i < |rows| ==> Selected(rows[i], filterUsername))
      && (forall id :: id in users && Selected(users[id], filterUsername) ==>
            exists i :: 0 <= i < |rows| && rows[i].id == id)
      && (forall i, j :: 0 <= i < j < |rows| ==> rows[i].id > rows[j].id)
  {
    var matching := MatchingIds(users, filterUsername);
    var ids := SortDescending(matching);
    var rows := Listed(users, filterUsername);
    forall i | 0 <= i < |rows|
      ensures rows[i].id == ids[i] && ids[i] in users && users[ids[i]] == rows[i]
      ensures Selected(rows[i], filterUsername)
    {
      assert ids[i] in matching;
    }
    forall id | id in users && Selected(users[id], filterUsername)
      ensures exists i :: 0 <= i < |rows| && rows[i].id == id
    {
      assert id in matching;
      var i :| 0 <= i < |ids| && ids[i] == id;
      assert rows[i].id == id;
    }
  }

  /** With a non-blank value, the filter keeps at most one user: the one with
      exactly that UserName. */
  lemma FilterByUserName(users: map<int, User>, nextId: int, name: string)
    requires WellFormed(users, nextId)
    requires !IsNullOrWhiteSpace(Some(name))
    ensures forall id :: id in users && users[id].userName == name ==> Listed(users, Some(name)) == [users[id]]
    ensures (forall id :: id in users ==> users[id].userName != name) ==> Listed(users, Some(name)) == []
  {
    var ids := MatchingIds(users, Some(name));
    assert forall x :: x in ids <==> x in users && users[x].userName == name;
    forall id | id in users && users[id].userName == name
      ensures Listed(users, Some(name)) == [users[id]]
    {
      forall x | x in ids ensures x == id {
        assert users[x].userName == users[id].userName;
      }
      assert ids == {id};
      var sorted := SortDescending(ids);
      assert |sorted| == 1 && sorted[0] in ids;
      assert Listed(users, Some(name))[0] == users[id];
    }
    if forall id :: id in users ==> users[id].userName != name {
      assert ids == {};
    }
  }

  /** Enumerable.Skip: a non-positive count skips nothing. */
  function Skip<T>(xs: seq<T>, n: int): (r: seq<T>)
    ensures |r| == if n <= 0 then |xs| else if n >= |xs| then 0 else |xs| - n
    ensures forall i :: 0 <= i < |r| ==> r[i] == xs[i + (if n <= 0 then 0 else n)]
  {
    if n <= 0 then xs else if n >= |xs| then [] else xs[n..]
  }

  /** Enumerable.Take: a non-positive count takes nothing. */
  function Take<T>(xs: seq<T>, n: int): (r: seq<T>)
    ensures |r| == if n <= 0 then 0 else if n >= |xs| then |xs| else n
    ensures forall i :: 0 <= i < |r| ==> r[i] == xs[i]
  {
    if n <= 0 then [] else if n >= |xs| then xs else xs[..n]
  }

  /** Skip(startIndex - 1) as written: unchecked 32-bit subtraction, so
      int.MinValue wraps round to int.MaxValue. */
  function SkipCountAsWritten(startIndex: int32): (n: int32)
    ensures startIndex as int > -0x8000_0000 ==> n as int == startIndex as int - 1
    ensures startIndex as int == -0x8000_0000 ==> n as int == 0x7FFF_FFFF
  {
    Wrap32(startIndex as int - 1)
  }

  /** Skip(startIndex - 1) with the subtraction done without wrap-around, so
      that every startIndex below 1 behaves as 1 (RFC 7644 section 3.4.2.4). */
  function SkipCount(startIndex: int32): (n: int)
    ensures startIndex as int > -0x8000_0000 ==> n == SkipCountAsWritten(startIndex) as int
  {
    startIndex as int - 1
  }

  /** Page `startIndex` (1-based) of at most `count` entries of xs. */
  function Page<T>(xs: seq<T>, startIndex: int32, count: int32): (r: seq<T>)
    ensures |r| <= if count <= 0 then 0 else count as int
    ensures startIndex >= 1 ==>
              var left := |xs| - (startIndex as int - 1);
              |r| == if count <= 0 || left <= 0 then 0 else if count as int <= left then count as int else left
    ensures startIndex >= 1 ==>
              forall i :: 0 <= i < |r| ==> startIndex as int - 1 + i < |xs| && r[i] == xs[startIndex as int - 1 + i]
    ensures startIndex <= 1 ==> r == Take(xs, count as int)
  {
    Take(Skip(xs, SkipCount(startIndex)), count as int)
  }

  /** A page of one entry at startIndex k is the k-th entry. */
  lemma PageOfOne<T>(xs: seq<T>, k: int32)
    requires 1 <= k as int <= |xs|
    ensures Page(xs, k, 1) == [xs[k as int - 1]]
  {
    var s := Skip(xs, SkipCount(k));
    assert |s| >= 1 && s[0] == xs[k as int - 1];
  }

  /** The same page with the skip computed as written. */
  function PageAsWritten<T>(xs: seq<T>, startIndex: int32, count: int32): (r: seq<T>)
    ensures startIndex as int == -0x8000_0000 && |xs| <= 0x7FFF_FFFF ==> r == []
  {
    Take(Skip(xs, SkipCountAsWritten(startIndex) as int), count as int)
  }

  /** Only int.MinValue tells the two apart: as written it skips every row,
      so a list of any size answers with an empty page. */
  lemma MinStartIndexEmptiesPage<T>(xs: seq<T>, count: int32)
    requires 0 < |xs| < 0x7FFF_FFFF && count > 0
    ensures PageAsWritten(xs, -0x8000_0000, count) == []
    ensures Page(xs, -0x8000_0000, count) == Take(xs, count as int) != []
  {
  }

  lemma PageAgreesAwayFromMin<T>(xs: seq<T>, startIndex: int32, count: int32)
    requires startIndex as int > -0x8000_0000
    ensures PageAsWritten(xs, startIndex, count) == Page(xs, startIndex, count)
  {
  }

  function MapToWire(rows: seq<User>): (r: seq<ScimUser>)
    ensures |r| == |rows| && forall i :: 0 <= i < |rows| ==> r[i] == ToWire(rows[i])
  {
    seq(|rows|, i requires 0 <= i < |rows| => ToWire(rows[i]))
  }

  /** GET /scim/v2/users: totalResults counts every selected user before
      paging; startIndex and itemsPerPage echo the request; Resources is the
      requested page of the selected users, newest Id first, with the skip
      computed in unchecked 32-bit arithmetic as the handler does. */
  function ListUsers(users: map<int, User>, req: ScimListResourceRequest): (r: Result<ScimListResourceResponse, Fault>)
    ensures r.Failure? <==> ParsedFilter(req).Failure?
    ensures r.Success? ==>
              var fu := FilterUsername(ParsedFilter(req).value);
              var rows := Listed(users, fu);
              && r.value.schemas == [ListResponseSchema]
              && r.value.totalResults == |MatchingIds(users, fu)|
              && r.value.startIndex == ParsedStartIndex(req)
              && r.value.itemsPerPage == ParsedCount(req)
              && r.value.resources == MapToWire(PageAsWritten(rows, ParsedStartIndex(req), ParsedCount(req)))
              && (ParsedStartIndex(req) as int > -0x8000_0000 ==>
                    r.value.resources == MapToWire(Page(rows, ParsedStartIndex(req), ParsedCount(req))))
  {
    var parsed :- ParsedFilter(req);
    var rows := Listed(users, FilterUsername(parsed));
    var startIndex, count := ParsedStartIndex(req), ParsedCount(req);
    Success(ListResponse(|rows|, startIndex, count, MapToWire(PageAsWritten(rows, startIndex, count))))
  }

  /** As written, startIndex=int.MinValue answers every unfiltered list, of
      any size, with no resources, although totalResults counts the users. */
  lemma MinStartIndexListsNothing(users: map<int, User>, count: int32)
    requires 0 < |users| < 0x7FFF_FFFF && count > 0
    ensures ListUsers(users, ScimListResourceRequest(None, Some(-0x8000_0000), Some(count)))
            == Success(ListResponse(|users|, -0x8000_0000, count, []))
    ensures Page(Listed(users, None), -0x8000_0000, count) != []
  {
    var req := ScimListResourceRequest(None, Some(-0x8000_0000), Some(count));
    var rows := Listed(users, None);
    UnfilteredListing(users, req);
    MinStartIndexEmptiesPage(rows, count);
    assert MapToWire([]) == [];
  }

  /** startIndex=2, count=1 over at least two users answers with exactly the
      user with the second-highest Id, and totalResults still counts them all. */
  lemma SecondPageOfOne(users: map<int, User>, nextId: int) returns (top: int, second: int)
    requires WellFormed(users, nextId)
    requires |users| >= 2
    ensures second in users && top in users && top > second
    ensures forall id :: id in users && id != top ==> id <= second
    ensures ListUsers(users, ScimListResourceRequest(None, Some(2), Some(1)))
            == Success(ListResponse(|users|, 2, 1, [ToWire(users[second])]))
  {
    var rows := Listed(users, None);
    SecondHighest(users, nextId);
    UnfilteredPageOfOne(users, 2);
    top, second := rows[0].id, rows[1].id;
  }

  /** Without a filter, a page of one entry at startIndex k holds the k-th
      user listed. */
  lemma UnfilteredPageOfOne(users: map<int, User>, k: int32)
    requires 1 <= k as int <= |users|
    ensures |Listed(users, None)| == |users|
    ensures ListUsers(users, ScimListResourceRequest(None, Some(k), Some(1)))
            == Success(ListResponse(|users|, k, 1, [ToWire(Listed(users, None)[k as int - 1])]))
  {
    var req := ScimListResourceRequest(None, Some(k), Some(1));
    var rows := Listed(users, None);
    AllSelected(users);
    calc {
      ListUsers(users, req);
    == { UnfilteredListing(users, req); }
      Success(ListResponse(|users|, k, 1, MapToWire(PageAsWritten(rows, k, 1))));
    == { PageAgreesAwayFromMin(rows, k, 1); PageOfOne(rows, k); }
      Success(ListResponse(|users|, k, 1, MapToWire([rows[k as int - 1]])));
    == { assert MapToWire([rows[k as int - 1]]) == [ToWire(rows[k as int - 1])]; }
      Success(ListResponse(|users|, k, 1, [ToWire(rows[k as int - 1])]));
    }
  }

  /** With no filter, the second row listed is the user with the
      second-highest Id. */
  lemma SecondHighest(users: map<int, User>, nextId: int)
    requires WellFormed(users, nextId)
    requires |users| >= 2
    ensures var rows := Listed(users, None);
      && |rows| == |users|
      && rows[0].id in users && rows[1].id in users && rows[0].id > rows[1].id
      && users[rows[1].id] == rows[1]
      && forall id :: id in users && id != rows[0].id ==> id <= rows[1].id
  {
    var rows := Listed(users, None);
    AllSelected(users);
    ListedSpec(users, nextId, None);
    forall id | id in users && id != rows[0].id ensures id <= rows[1].id {
      assert Selected(users[id], None);
      var i :| 0 <= i < |rows| && rows[i].id == id;
      if i > 1 { assert rows[1].id > rows[i].id; }
    }
  }

  lemma AllSelected(users: map<int, User>)
    ensures MatchingIds(users, None) == users.Keys
  {
    forall id | id in users ensures id in MatchingIds(users, None) {
      assert Selected(users[id], None);
    }
  }

  /** Without a filter every user is selected and the reply pages them all. */
  lemma UnfilteredListing(users: map<int, User>, req: ScimListResourceRequest)
    requires req.filter.None?
    ensures MatchingIds(users, None) == users.Keys
    ensures ListUsers(users, req) ==
              Success(ListResponse(|users|, ParsedStartIndex(req), ParsedCount(req),
                                   MapToWire(PageAsWritten(Listed(users, None), ParsedStartIndex(req), ParsedCount(req)))))
  {
    assert ParsedFilter(req) == Success(map[]);
    assert FilterUsername(map[]) == None;
    AllSelected(users);
  }

  /** The filter Okta sends for one user names it by UserName. */
  lemma UserNameFilterParses(name: string)
    requires !Contains(name, FilterSeparator)
    ensures var req := ScimListResourceRequest(Some("userName eq \"" + name + "\""), None, None);
      && ParsedFilter(req) == Success(map["userName" := name])
      && FilterUsername(map["userName" := name]) == Some(name)
  {
    UserNameKeyClean();
    FilterClauseRoundTrip("userName", name);
    assert "userName eq \"" + name + "\"" == "userName" + " eq \"" + name + "\"";
  }

  /** "userName" holds no separator and lower-cases to "username". */
  lemma UserNameKeyClean()
    ensures !Contains("userName" + " eq", FilterSeparator)
    ensures ToLower("userName") == UsernameAttribute
  {
    var k := "userName" + " eq";
    forall j | 0 <= j <= |k| ensures !OccursAt(k, FilterSeparator, j) {
      if j + 4 <= |k| {
        assert k[j..j + 4][0] != ' ';
      }
    }
    ToLowerMatchesEitherCase("userName", UsernameAttribute);
  }

  /** The request `filter=userName eq "name"` with no paging parameters. */
  function UserNameQuery(name: string): ScimListResourceRequest {
    ScimListResourceRequest(Some("userName eq \"" + name + "\""), None, None)
  }

  /** Looking a user up by UserName, as a provisioning client does before
      creating it, answers with that user alone, or with an empty list when
      no user has that name. */
  lemma LookupByUserName(users: map<int, User>, nextId: int, name: string)
    requires WellFormed(users, nextId)
    requires !Contains(name, FilterSeparator) && !IsNullOrWhiteSpace(Some(name))
    ensures forall id :: id in users && users[id].userName == name ==>
              ListUsers(users, UserNameQuery(name)) == Success(ListResponse(1, 1, 100, [ToWire(users[id])]))
    ensures (forall id :: id in users ==> users[id].userName != name) ==>
              ListUsers(users, UserNameQuery(name)) == Success(ListResponse(0, 1, 100, []))
  {
    UserNameFilterParses(name);
    FilterByUserName(users, nextId, name);
    var rows := Listed(users, Some(name));
    forall id | id in users && users[id].userName == name
      ensures ListUsers(users, UserNameQuery(name)) == Success(ListResponse(1, 1, 100, [ToWire(users[id])]))
    {
      assert rows == [users[id]];
      assert |MatchingIds(users, Some(name))| == 1;
      assert PageAsWritten(rows, 1, 100) == rows;
      assert MapToWire(rows) == [ToWire(users[id])];
    }
  }

  /** The filter `userName eq "dslem@fake.domain"` over the seed rows finds
      Dan Slem alone. */
  lemma SeedFilterExample()
    ensures ListUsers(SeedUsers(), UserNameQuery("dslem@fake.domain"))
            == Success(ListResponse(1, 1, 100, [ToWire(SeedUsers()[2])]))
  {
    var name := "dslem@fake.domain";
    forall j | 0 <= j <= |name| ensures !OccursAt(name, FilterSeparator, j) {
      if j + 4 <= |name| {
        assert name[j..j + 4][0] != ' ';
      }
    }
    assert !IsWhiteSpace(name[0]);
    SeedIsWellFormed();
    LookupByUserName(SeedUsers(), 4, name);
  }
}
