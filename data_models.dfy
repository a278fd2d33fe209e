/** The persisted shapes: the User and Email tables of the SCIM database, the
    constraints the store enforces on them, and the seed rows. */
module DataModels {
  import opened Common

  /** One row of the Emails table; its key is (value, userId). */
  datatype Email = Email(emailType: string, value: string, primary: bool, userId: int)

  /** One row of the Users table with the email rows that point at it.
      ExternalId and MiddleName are the only nullable columns. */
  datatype User = User(
    id: int,
    externalId: Option<string>,
    userName: string,
    firstName: string,
    lastName: string,
    middleName: Option<string>,
    displayName: string,
    active: bool,
    emails: seq<Email>)

  /** No two rows share a value: with a common userId, the (Value, UserId) key. */
  predicate DistinctValues(emails: seq<Email>) {
    forall i, j :: 0 <= i < j < |emails| ==> emails[i].value != emails[j].value
  }

  predicate OwnedBy(emails: seq<Email>, id: int) {
    forall i :: 0 <= i < |emails| ==> emails[i].userId == id
  }

  /** The constraints of the database: every user sits under its own Id, which
      the store drew below nextId; user names are unique; and every email row
      belongs to its user and is keyed by (Value, UserId). */
  ghost predicate WellFormed(users: map<int, User>, nextId: int) {
    && 1 <= nextId
    && (forall id :: id in users ==> users[id].id == id && 1 <= id < nextId)
    && (forall a, b :: a in users && b in users && a != b ==> users[a].userName != users[b].userName)
    && (forall id :: id in users ==> DistinctValues(users[id].emails) && OwnedBy(users[id].emails, id))
  }

  /** The Emails table as a set of rows. */
  ghost function EmailRows(users: map<int, User>): set<Email> {
    set id, i | id in users && 0 <= i < |users[id].emails| :: users[id].emails[i]
  }

  /** Each email row belongs to exactly one existing user through its UserId,
      a user's emails are exactly the rows carrying its Id, and no two rows
      share the key (Value, UserId). */
  lemma EmailRowsKeyed(users: map<int, User>, nextId: int)
    requires WellFormed(users, nextId)
    ensures forall e :: e in EmailRows(users) ==> e.userId in users
    ensures forall id, e :: id in users ==> (e in users[id].emails <==> e in EmailRows(users) && e.userId == id)
    ensures forall e1, e2 ::
              e1 in EmailRows(users) && e2 in EmailRows(users) && e1.value == e2.value && e1.userId == e2.userId
              ==> e1 == e2
  {
    forall id, e | id in users && e in users[id].emails
      ensures e in EmailRows(users) && e.userId == id
    {
      var i :| 0 <= i < |users[id].emails| && users[id].emails[i] == e;
    }
    forall e1, e2 | e1 in EmailRows(users) && e2 in EmailRows(users) && e1.value == e2.value && e1.userId == e2.userId
      ensures e1 == e2
    {
      var id1, i1 :| id1 in users && 0 <= i1 < |users[id1].emails| && users[id1].emails[i1] == e1;
      var id2, i2 :| id2 in users && 0 <= i2 < |users[id2].emails| && users[id2].emails[i2] == e2;
      assert id1 == id2;
      if i1 < i2 {
        assert false;
      } else if i2 < i1 {
        assert false;
      }
    }
  }

  /** The key a newly inserted user receives, with its email rows pointed at it. */
  function Attach(u: User, id: int): (r: User)
    ensures r.id == id && OwnedBy(r.emails, id) && |r.emails| == |u.emails|
    ensures forall i :: 0 <= i < |u.emails| ==> r.emails[i] == u.emails[i].(userId := id)
    ensures r.(id := u.id, emails := u.emails) == u
  {
    u.(id := id, emails := seq(|u.emails|, i requires 0 <= i < |u.emails| => u.emails[i].(userId := id)))
  }

  /** The three demo users and their emails. */
  function SeedUsers(): map<int, User> {
    map[1 := MickyDaldo(), 2 := DanSlem(), 3 := SarikaMahesh()]
  }

  function MickyDaldo(): User {
    User(1, None, "mdaldo@fake.domain", "Micky", "Daldo", None, "Micky Daldo", true,
         [Email("work", "mdaldo@fake.domain", true, 1), Email("personal", "mdaldo@personal.domain", false, 1)])
  }

  function DanSlem(): User {
    User(2, None, "dslem@fake.domain", "Dan", "Slem", None, "Dan Slem", true, [])
  }

  function SarikaMahesh(): User {
    User(3, None, "smahesh@fake.domain", "Sarika", "Mahesh", None, "Sarika Mahesh", true,
         [Email("work", "smahesh@fake.domain", true, 3)])
  }

  /** The seed rows satisfy every constraint, with Ids 1 to 3 already taken. */
  lemma SeedIsWellFormed()
    ensures WellFormed(SeedUsers(), 4)
    ensures SeedUsers().Keys == {1, 2, 3}
  {
    assert |MickyDaldo().userName| == 18 && |DanSlem().userName| == 17 && |SarikaMahesh().userName| == 19;
    assert |MickyDaldo().emails[0].value| == 18 && |MickyDaldo().emails[1].value| == 22;
  }
}
