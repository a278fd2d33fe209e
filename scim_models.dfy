/** The SCIM wire shapes (RFC 7643 section 4.1 User, RFC 7644 list and error
    envelopes), the list-request parameters, and the translation between the
    wire user and the persisted user. */
module ScimModels {
  import opened Common
  import opened Strings
  import opened DataModels

  const UserSchema := "urn:ietf:params:scim:schemas:core:2.0:User"
  const ListResponseSchema := "urn:ietf:params:scim:api:messages:2.0:ListResponse"
  const ErrorSchema := "urn:ietf:params:scim:api:messages:2.0:Error"

  datatype ScimName = ScimName(givenName: string, familyName: string, middleName: Option<string>)

  datatype ScimEmail = ScimEmail(value: string, emailType: string, primary: bool)

  /** A wire user. A request may leave out id, externalId and emails. */
  datatype ScimUser = ScimUser(
    schemas: seq<string>,
    id: Option<string>,
    externalId: Option<string>,
    userName: string,
    name: ScimName,
    displayName: string,
    emails: Option<seq<ScimEmail>>,
    active: bool)

  datatype ScimErrorResponse = ScimErrorResponse(schemas: seq<string>, status: int, detail: string)

  /** The error envelope of RFC 7644 section 3.12. */
  function ErrorResponse(status: int, detail: string): (r: ScimErrorResponse)
    ensures r.schemas == [ErrorSchema] && r.status == status && r.detail == detail
  {
    ScimErrorResponse([ErrorSchema], status, detail)
  }

  datatype ScimListResourceResponse = ScimListResourceResponse(
    schemas: seq<string>,
    totalResults: int,
    startIndex: int32,
    itemsPerPage: int32,
    resources: seq<ScimUser>)

  /** The list envelope of RFC 7644 section 3.4.2. */
  function ListResponse(totalResults: int, startIndex: int32, itemsPerPage: int32, resources: seq<ScimUser>)
    : (r: ScimListResourceResponse)
    ensures r.schemas == [ListResponseSchema]
    ensures r.totalResults == totalResults && r.startIndex == startIndex && r.itemsPerPage == itemsPerPage
    ensures r.resources == resources
  {
    ScimListResourceResponse([ListResponseSchema], totalResults, startIndex, itemsPerPage, resources)
  }

  /** The query parameters of a list request; each may be absent. */
  datatype ScimListResourceRequest = ScimListResourceRequest(
    filter: Option<string>,
    startIndex: Option<int32>,
    count: Option<int32>)

  const FilterSeparator := " eq "

  /** The single `attribute eq "value"` clause of a filter, keyed by the
      attribute text as written. The value loses its first and last character
      (the quotes); a value part shorter than two characters makes Substring
      throw. */
  function ParsedFilter(req: ScimListResourceRequest): (r: Result<map<string, string>, Fault>)
    ensures r.Success? ==> |r.value| <= 1
    ensures IsNullOrWhiteSpace(req.filter) ==> r == Success(map[])
    ensures !IsNullOrWhiteSpace(req.filter) && !Contains(req.filter.value, FilterSeparator) ==> r == Success(map[])
    ensures !IsNullOrWhiteSpace(req.filter) && Find(req.filter.value, FilterSeparator).Some? ==>
              var f, i := req.filter.value, Find(req.filter.value, FilterSeparator).value;
              var rest := f[i + |FilterSeparator|..];
              if Contains(rest, FilterSeparator) then r == Success(map[])
              else if |rest| < 2 then r == Failure(ArgumentOutOfRange)
              else r == Success(map[f[..i] := rest[1..|rest| - 1]])
  {
    if IsNullOrWhiteSpace(req.filter) then Success(map[])
    else
      var terms := Split(req.filter.value, FilterSeparator);
      SplitInTwo(req.filter.value, FilterSeparator);
      if |terms| == 2 then
        if |terms[1]| < 2 then Failure(ArgumentOutOfRange)
        else Success(map[terms[0] := terms[1][1..|terms[1]| - 1]])
      else Success(map[])
  }

  /** A filter written as `key eq "value"` parses back to {key: value} as long
      as the separator cannot be found inside either part (nor straddling the
      end of the key, as in a key ending with " eq"). */
  lemma FilterClauseRoundTrip(key: string, value: string)
    requires !Contains(key + " eq", FilterSeparator)
    requires !Contains(value, FilterSeparator)
    ensures ParsedFilter(ScimListResourceRequest(Some(key + " eq \"" + value + "\""), None, None))
            == Success(map[key := value])
  {
    var f := key + " eq \"" + value + "\"";
    var quoted := "\"" + value + "\"";
    assert f == key + FilterSeparator + quoted;
    SeparatorAfterKey(key, quoted);
    QuotedHasNoSeparator(value);
    assert !IsWhiteSpace(f[|key| + 1]);
    assert f[..|key|] == key;
    assert quoted[1..|quoted| - 1] == value;
  }

  /** The first separator of key + " eq " + rest is the one after the key. */
  lemma SeparatorAfterKey(key: string, rest: string)
    requires !Contains(key + " eq", FilterSeparator)
    ensures Find(key + FilterSeparator + rest, FilterSeparator) == Some(|key|)
    ensures (key + FilterSeparator + rest)[|key| + |FilterSeparator|..] == rest
  {
    var sep := FilterSeparator;
    var f := key + sep + rest;
    assert f[|key|..|key| + 4] == sep;
    assert OccursAt(f, sep, |key|);
    forall j | 0 <= j < |key| ensures !OccursAt(f, sep, j) {
      if OccursAt(f, sep, j) {
        assert f[j..j + 4] == (key + " eq")[j..j + 4];
        assert OccursAt(key + " eq", sep, j);
        assert false;
      }
    }
  }

  /** A quoted value holds a separator only where the value itself does. */
  lemma QuotedHasNoSeparator(value: string)
    requires !Contains(value, FilterSeparator)
    ensures !Contains("\"" + value + "\"", FilterSeparator)
  {
    var sep := FilterSeparator;
    var quoted := "\"" + value + "\"";
    forall j | 0 <= j <= |quoted| ensures !OccursAt(quoted, sep, j) {
      if j + 4 <= |quoted| {
        if j == 0 {
          assert quoted[j..j + 4][0] != sep[0];
        } else if j + 4 <= |value| + 1 {
          assert quoted[j..j + 4] == value[j - 1..j + 3];
          assert !OccursAt(value, sep, j - 1);
        } else {
          assert quoted[j..j + 4][3] != sep[3];
        }
      }
    }
  }

  /** startIndex, or 1 when the request left it out (RFC 7644 section 3.4.2.4). */
  function ParsedStartIndex(req: ScimListResourceRequest): (r: int32)
    ensures req.startIndex.Some? ==> r == req.startIndex.value
    ensures req.startIndex.None? ==> r == 1
  {
    if req.startIndex.Some? then req.startIndex.value else 1
  }

  /** count, or 100 when the request left it out. */
  function ParsedCount(req: ScimListResourceRequest): (r: int32)
    ensures req.count.Some? ==> r == req.count.value
    ensures req.count.None? ==> r == 100
  {
    if req.count.Some? then req.count.value else 100
  }

  function ToPersistedEmail(e: ScimEmail): Email {
    Email(e.emailType, e.value, e.primary, 0)
  }

  function ToWireEmail(e: Email): ScimEmail {
    ScimEmail(e.value, e.emailType, e.primary)
  }

  /** Wire to persisted: the name parts become FirstName, LastName and
      MiddleName, everything else is copied by name. The store assigns Id and
      the owning UserId, so both are left at 0; absent emails become none. */
  function ToPersisted(w: ScimUser): (u: User)
    ensures u.id == 0
    ensures u.firstName == w.name.givenName && u.lastName == w.name.familyName && u.middleName == w.name.middleName
    ensures u.externalId == w.externalId && u.userName == w.userName && u.displayName == w.displayName
    ensures u.active == w.active
    ensures w.emails.None? ==> u.emails == []
    ensures w.emails.Some? ==> |u.emails| == |w.emails.value|
    ensures w.emails.Some? ==> forall i :: 0 <= i < |u.emails| ==> ToWireEmail(u.emails[i]) == w.emails.value[i]
    ensures OwnedBy(u.emails, 0)
  {
    var es := if w.emails.Some? then w.emails.value else [];
    User(0, w.externalId, w.userName, w.name.givenName, w.name.familyName, w.name.middleName,
         w.displayName, w.active, seq(|es|, i requires 0 <= i < |es| => ToPersistedEmail(es[i])))
  }

  /** Persisted to wire: id is the decimal text of Id, schemas is the User
      schema alone, the name object is rebuilt from the three name columns. */
  function ToWire(u: User): (w: ScimUser)
    ensures w.schemas == [UserSchema]
    ensures w.id.Some? && IsIntText(w.id.value) && IntValue(w.id.value) == u.id
    ensures w.name == ScimName(u.firstName, u.lastName, u.middleName)
    ensures w.externalId == u.externalId && w.userName == u.userName && w.displayName == u.displayName
    ensures w.active == u.active
    ensures w.emails.Some? && |w.emails.value| == |u.emails|
    ensures forall i :: 0 <= i < |u.emails| ==>
              var e := w.emails.value[i];
              e.value == u.emails[i].value && e.emailType == u.emails[i].emailType && e.primary == u.emails[i].primary
  {
    IntToStringRoundTrip(u.id);
    ScimUser([UserSchema], Some(IntToString(u.id)), u.externalId, u.userName,
             ScimName(u.firstName, u.lastName, u.middleName), u.displayName,
             Some(seq(|u.emails|, i requires 0 <= i < |u.emails| => ToWireEmail(u.emails[i]))), u.active)
  }

  /** Persisted to wire to persisted: stored back under the same Id, a user
      whose email rows point at it comes back unchanged. */
  lemma PersistedRoundTrip(u: User)
    requires OwnedBy(u.emails, u.id)
    ensures Attach(ToPersisted(ToWire(u)), u.id) == u
  {
    var r := Attach(ToPersisted(ToWire(u)), u.id);
    assert r.emails == u.emails by {
      forall i | 0 <= i < |u.emails| ensures r.emails[i] == u.emails[i] { }
    }
  }

  /** Wire to persisted to wire: stored under a store-assigned Id, a wire user
      comes back unchanged except for id and schemas, and absent emails come
      back as an empty list. */
  lemma WireRoundTrip(w: ScimUser, id: int)
    ensures ToWire(Attach(ToPersisted(w), id)) ==
              w.(schemas := [UserSchema], id := Some(IntToString(id)),
                 emails := Some(if w.emails.Some? then w.emails.value else []))
  {
    var r := ToWire(Attach(ToPersisted(w), id));
    var es := if w.emails.Some? then w.emails.value else [];
    assert r.emails.value == es by {
      forall i | 0 <= i < |es| ensures r.emails.value[i] == es[i] { }
    }
  }
}
