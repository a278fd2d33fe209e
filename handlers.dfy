/** The handlers that change the database: POST, PUT and PATCH on
    /scim/v2/users. Each is specified by a function from the old tables to the
    new ones and the reply; the database object's methods carry them out and
    keep its constraints. */
module Handlers {
  import opened Common
  import opened Strings
  import opened DataModels
  import opened ScimModels
  import opened Endpoints
  import opened EmailReconciliation
  import opened PatchOperations

  /** Some user other than `except` already has the user name. */
  predicate NameTaken(users: map<int, User>, name: string, except: int) {
    exists id :: id in users && id != except && users[id].userName == name
  }

  /** The tables after a request, and the reply. */
  datatype Outcome = Outcome(users: map<int, User>, nextId: int, reply: Reply)

  // ------------------------------------------------------------- CreateUser

  /** POST: the mapped user is added under the next Id. Two inbound emails
      with one value clash on the email key when they are added; a taken user
      name fails the unique index when the change is saved; either way
      nothing is stored. */
  function Create(users: map<int, User>, nextId: int, w: ScimUser): Outcome {
    var u := Attach(ToPersisted(w), nextId);
    if !DistinctValues(u.emails) then Outcome(users, nextId, Unhandled(DuplicateKey))
    else if NameTaken(users, u.userName, nextId) then Outcome(users, nextId, Unhandled(UniqueViolation))
    else Outcome(users[nextId := u], nextId + 1, Created(Location(nextId), ToWire(u)))
  }

  /** POST keeps the constraints; on success the user sits under an Id no
      user had, the reply's id and location carry that Id, and the reply is
      the request with the id filled in; otherwise nothing changes. */
  lemma CreateSpec(users: map<int, User>, nextId: int, w: ScimUser)
    requires WellFormed(users, nextId)
    ensures var o := Create(users, nextId, w);
      && WellFormed(o.users, o.nextId)
      && (o.reply.Created? <==> DistinctValues(ToPersisted(w).emails) && !NameTaken(users, w.userName, nextId))
      && (!DistinctValues(ToPersisted(w).emails) ==> o == Outcome(users, nextId, Unhandled(DuplicateKey)))
      && (DistinctValues(ToPersisted(w).emails) && NameTaken(users, w.userName, nextId) ==>
            o == Outcome(users, nextId, Unhandled(UniqueViolation)))
      && (o.reply.Created? ==>
            && nextId !in users
            && o.users.Keys == users.Keys + {nextId}
            && (forall id :: id in users ==> o.users[id] == users[id])
            && o.users[nextId].userName == w.userName
            && o.reply.location == "users/" + IntToString(nextId)
            && o.reply.resource == ToWire(o.users[nextId])
            && IntValue(o.reply.resource.id.value) == nextId
            && o.reply.resource == w.(schemas := [UserSchema], id := Some(IntToString(nextId)),
                                      emails := Some(if w.emails.Some? then w.emails.value else [])))
  {
    var u := Attach(ToPersisted(w), nextId);
    assert DistinctValues(u.emails) <==> DistinctValues(ToPersisted(w).emails);
    WireRoundTrip(w, nextId);
  }

  // ------------------------------------------------------------- UpdateUser

  /** The user PUT leaves behind: every column of the mapped request except
      the key, and the reconciled email rows. */
  function Replaced(existing: User, w: ScimUser): User
    requires w.emails.Some?
  {
    ToPersisted(w).(id := existing.id, emails := Reconciled(existing.emails, w.emails.value, existing.id))
  }

  /** The exception a PUT without emails raises while reconciling: the first
      loop asks Any of the absent list for each existing row, which throws
      ArgumentNullException; with no rows the second loop enumerates the
      absent list and throws NullReferenceException. */
  function MissingEmailsFault(existing: User): Fault {
    if existing.emails != [] then ArgumentNull else NullReference
  }

  /** PUT: 404 for an unknown Id; a request without emails throws while
      reconciling; a user name another user has fails the unique index on
      save; otherwise the user is replaced. */
  function Update(users: map<int, User>, nextId: int, id: int, w: ScimUser): Outcome {
    if id !in users then Outcome(users, nextId, NotFound(NotFoundResponse))
    else if w.emails.None? then Outcome(users, nextId, Unhandled(MissingEmailsFault(users[id])))
    else
      var u := Replaced(users[id], w);
      if NameTaken(users, u.userName, id) then Outcome(users, nextId, Unhandled(UniqueViolation))
      else Outcome(users[id := u], nextId, Ok(ToWire(u)))
  }

  /** PUT keeps the constraints and changes the addressed user only: its Id
      stays, every other column comes from the request, and its email values
      become exactly the inbound values, each row taking the type and primary
      flag of the last inbound email with its value. */
  lemma UpdateSpec(users: map<int, User>, nextId: int, id: int, w: ScimUser)
    requires WellFormed(users, nextId)
    ensures var o := Update(users, nextId, id, w);
      && WellFormed(o.users, o.nextId)
      && o.nextId == nextId
      && (id !in users ==> o == Outcome(users, nextId, NotFound(NotFoundResponse)))
      && (id in users && w.emails.None? && users[id].emails != [] ==>
            o == Outcome(users, nextId, Unhandled(ArgumentNull)))
      && (id in users && w.emails.None? && users[id].emails == [] ==>
            o == Outcome(users, nextId, Unhandled(NullReference)))
      && (id in users && w.emails.Some? && NameTaken(users, w.userName, id) ==>
            o == Outcome(users, nextId, Unhandled(UniqueViolation)))
      && (o.reply.Ok? <==> id in users && w.emails.Some? && !NameTaken(users, w.userName, id))
      && (o.reply.Ok? ==>
            && id in users && w.emails.Some?
            && o.users.Keys == users.Keys
            && (forall other :: other in users && other != id ==> o.users[other] == users[other])
            && o.users[id].id == id
            && o.users[id].(id := 0, emails := []) == ToPersisted(w).(emails := [])
            && (forall v :: HasRow(o.users[id].emails, v) <==> HasValue(w.emails.value, v))
            && (forall k :: 0 <= k < |o.users[id].emails| ==>
                  LastWith(w.emails.value, o.users[id].emails[k].value) == Some(ToWireEmail(o.users[id].emails[k])))
            && o.reply == Ok(ToWire(o.users[id])))
  {
    if id in users && w.emails.Some? {
      ReconciledSpec(users[id].emails, w.emails.value, id);
    }
  }

  // ------------------------------------------------------ UpdateUserPartial

  /** PATCH: 404 for an unknown Id; a body without an Operations array throws
      before any change; otherwise the operations run in order and the user
      keeps the Active value reached, even when an operation throws. */
  function Patch(users: map<int, User>, nextId: int, id: int, body: Json): Outcome {
    if id !in users then Outcome(users, nextId, NotFound(NotFoundResponse))
    else
      match Operations(body)
      case Failure(f) => Outcome(users, nextId, Unhandled(f))
      case Success(ops) =>
        var out := Applied(users[id].active, ops);
        var u := users[id].(active := out.active);
        Outcome(users[id := u], nextId, if out.fault.Some? then Unhandled(out.fault.value) else Ok(ToWire(u)))
  }

  /** PATCH keeps the constraints and changes nothing but the addressed
      user's Active flag; with well-formed operations it answers with the
      user carrying the value of the last replace of active. */
  lemma PatchSpec(users: map<int, User>, nextId: int, id: int, body: Json)
    requires WellFormed(users, nextId)
    ensures var o := Patch(users, nextId, id, body);
      && WellFormed(o.users, o.nextId)
      && o.nextId == nextId
      && (id !in users ==> o == Outcome(users, nextId, NotFound(NotFoundResponse)))
      && (id in users && Operations(body).Failure? ==> o == Outcome(users, nextId, Unhandled(Operations(body).error)))
      && o.users.Keys == users.Keys
      && (forall other :: other in users && other != id ==> o.users[other] == users[other])
      && (id in users ==> o.users[id] == users[id].(active := o.users[id].active))
      && (id in users && Operations(body).Success? &&
          (forall i :: 0 <= i < |Operations(body).value| ==> !Faulty(Operations(body).value[i])) ==>
            && o.users[id].active == LastSet(users[id].active, Operations(body).value)
            && o.reply == Ok(ToWire(o.users[id])))
  {
    if id in users && Operations(body).Success? {
      var ops := Operations(body).value;
      if forall i :: 0 <= i < |ops| ==> !Faulty(ops[i]) {
        AppliedClean(users[id].active, ops);
      }
    }
  }

  /** The first faulty operation, at index j, ends PATCH with an exception;
      the user keeps the Active value reached before it. */
  lemma PatchStopsAtFault(users: map<int, User>, nextId: int, id: int, body: Json, j: nat)
    requires id in users && Operations(body).Success?
    requires j < |Operations(body).value| && Faulty(Operations(body).value[j])
    requires forall i :: 0 <= i < j ==> !Faulty(Operations(body).value[i])
    ensures var o := Patch(users, nextId, id, body);
      && o.users == users[id := users[id].(active := LastSet(users[id].active, Operations(body).value[..j]))]
      && o.reply.Unhandled?
  {
    AppliedStops(users[id].active, Operations(body).value, j);
  }

  // --------------------------------------------------------- the database

  /** The database: the Users table with each user's email rows, and the
      next Id the store will hand out. */
  class ScimDbContext {
    var users: map<int, User>
    var nextId: int

    ghost predicate Valid()
      reads this
    {
      WellFormed(users, nextId)
    }

    /** A fresh database holds the seed rows. */
    constructor ()
      ensures Valid()
      ensures users == SeedUsers() && nextId == 4
    {
      users := SeedUsers();
      nextId := 4;
      SeedIsWellFormed();
    }

    method CreateUser(w: ScimUser) returns (r: Reply)
      requires Valid()
      modifies this
      ensures Valid()
      ensures Outcome(users, nextId, r) == Create(old(users), old(nextId), w)
    {
      CreateSpec(users, nextId, w);
      var u := Attach(ToPersisted(w), nextId);
      if !DistinctValues(u.emails) {
        return Unhandled(DuplicateKey);
      }
      if NameTaken(users, u.userName, nextId) {
        return Unhandled(UniqueViolation);
      }
      users := users[nextId := u];
      r := Created(Location(nextId), ToWire(u));
      nextId := nextId + 1;
    }

    method UpdateUser(id: int, w: ScimUser) returns (r: Reply)
      requires Valid()
      modifies this
      ensures Valid()
      ensures Outcome(users, nextId, r) == Update(old(users), old(nextId), id, w)
    {
      UpdateSpec(users, nextId, id, w);
      if id !in users {
        return NotFound(NotFoundResponse);
      }
      var existing := users[id];
      if w.emails.None? {
        if existing.emails != [] {
          return Unhandled(ArgumentNull);
        }
        return Unhandled(NullReference);
      }
      var rows := ReconcileEmails(existing.emails, w.emails.value, existing.id);
      var u := ToPersisted(w).(id := existing.id, emails := rows);
      if NameTaken(users, u.userName, id) {
        return Unhandled(UniqueViolation);
      }
      users := users[id := u];
      r := Ok(ToWire(u));
    }

    method UpdateUserPartial(id: int, body: Json) returns (r: Reply)
      requires Valid()
      modifies this
      ensures Valid()
      ensures Outcome(users, nextId, r) == Patch(old(users), old(nextId), id, body)
    {
      PatchSpec(users, nextId, id, body);
      if id !in users {
        return NotFound(NotFoundResponse);
      }
      match Operations(body)
      case Failure(f) =>
        r := Unhandled(f);
      case Success(ops) =>
        var out := ApplyOperations(users[id].active, ops);
        var u := users[id].(active := out.active);
        users := users[id := u];
        r := if out.fault.Some? then Unhandled(out.fault.value) else Ok(ToWire(u));
    }
  }
}
