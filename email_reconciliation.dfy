/** PUT /scim/v2/users/{id} reconciles a user's email rows with the inbound
    emails by value: rows whose value the request no longer carries are
    removed, rows whose value it carries are updated in place, and inbound
    emails with a new value are added as rows of the user. */
module EmailReconciliation {
  import opened Common
  import opened DataModels
  import opened ScimModels

  /** Some inbound email carries value v (Enumerable.Any on value). */
  predicate HasValue(inbound: seq<ScimEmail>, v: string) {
    exists i :: 0 <= i < |inbound| && inbound[i].value == v
  }

  /** Some row carries value v. */
  predicate HasRow(rows: seq<Email>, v: string) {
    exists k :: 0 <= k < |rows| && rows[k].value == v
  }

  /** The last inbound email carrying value v: the one whose type and primary
      flag a row with that value ends up with. */
  function LastWith(inbound: seq<ScimEmail>, v: string): (r: Option<ScimEmail>)
    ensures r.Some? ==> r.value.value == v
    decreases |inbound|
  {
    if inbound == [] then None
    else if inbound[|inbound| - 1].value == v then Some(inbound[|inbound| - 1])
    else LastWith(inbound[..|inbound| - 1], v)
  }

  lemma {:induction false} LastWithFound(inbound: seq<ScimEmail>, v: string)
    ensures LastWith(inbound, v).Some? <==> HasValue(inbound, v)
    decreases |inbound|
  {
    if inbound != [] {
      var init := inbound[..|inbound| - 1];
      LastWithFound(init, v);
      HasValueSnoc(inbound, v);
    }
  }

  /** The email row an inbound email becomes under user uid. */
  function Row(w: ScimEmail, uid: int): (e: Email)
    ensures ToWireEmail(e) == w && e.userId == uid
  {
    ToPersistedEmail(w).(userId := uid)
  }

  /** The first loop: the existing rows, in order, whose value some inbound
      email carries. */
  function Kept(existing: seq<Email>, inbound: seq<ScimEmail>): seq<Email>
    decreases |existing|
  {
    if existing == [] then []
    else
      var last := existing[|existing| - 1];
      Kept(existing[..|existing| - 1], inbound) + (if HasValue(inbound, last.value) then [last] else [])
  }

  /** Kept holds exactly the existing rows with an inbound value, and keeps
      both the key constraint and the owner of the rows. */
  lemma {:induction false} KeptSpec(existing: seq<Email>, inbound: seq<ScimEmail>, uid: int)
    ensures forall e :: e in Kept(existing, inbound) <==> e in existing && HasValue(inbound, e.value)
    ensures OwnedBy(existing, uid) ==> OwnedBy(Kept(existing, inbound), uid)
    ensures DistinctValues(existing) ==> DistinctValues(Kept(existing, inbound))
    decreases |existing|
  {
    if existing != [] {
      var init, last := existing[..|existing| - 1], existing[|existing| - 1];
      KeptSpec(init, inbound, uid);
      var k := Kept(init, inbound);
      assert existing == init + [last];
      if OwnedBy(existing, uid) {
        assert OwnedBy(init, uid) by {
          forall i | 0 <= i < |init| ensures init[i].userId == uid {
            assert init[i] == existing[i];
          }
        }
      }
      if DistinctValues(existing) {
        assert DistinctValues(init) by {
          forall i, j | 0 <= i < j < |init| ensures init[i].value != init[j].value {
            assert init[i] == existing[i] && init[j] == existing[j];
          }
        }
        forall e | e in k ensures e.value != last.value {
          var i :| 0 <= i < |init| && init[i] == e;
          assert existing[i] == e;
        }
      }
    }
  }

  /** The index of the row carrying value v, if any (Where(...).SingleOrDefault()
      over rows whose values are distinct). */
  function IndexOfValue(rows: seq<Email>, v: string): (r: Option<nat>)
    ensures r.None? <==> !HasRow(rows, v)
    ensures r.Some? ==> r.value < |rows| && rows[r.value].value == v
    decreases |rows|
  {
    if rows == [] then None
    else if rows[|rows| - 1].value == v then Some(|rows| - 1)
    else
      var r := IndexOfValue(rows[..|rows| - 1], v);
      if r.None? then
        assert !HasRow(rows, v) by {
          forall k | 0 <= k < |rows| ensures rows[k].value != v {
            if k < |rows| - 1 { assert rows[..|rows| - 1][k] == rows[k]; }
          }
        }
        None
      else r
  }

  /** One pass of the second loop: an existing row with the value takes the
      inbound type and primary flag; otherwise the email is appended as a row
      of user uid. */
  function Upsert(rows: seq<Email>, w: ScimEmail, uid: int): seq<Email> {
    match IndexOfValue(rows, w.value)
    case Some(k) => rows[k := rows[k].(emailType := w.emailType, primary := w.primary)]
    case None => rows + [Row(w, uid)]
  }

  /** The second loop over the inbound emails. */
  function UpsertAll(rows: seq<Email>, inbound: seq<ScimEmail>, uid: int): seq<Email>
    decreases |inbound|
  {
    if inbound == [] then rows
    else Upsert(UpsertAll(rows, inbound[..|inbound| - 1], uid), inbound[|inbound| - 1], uid)
  }

  /** The email rows PUT leaves the user with. */
  function Reconciled(existing: seq<Email>, inbound: seq<ScimEmail>, uid: int): seq<Email> {
    UpsertAll(Kept(existing, inbound), inbound, uid)
  }

  /** What one Upsert does: it keeps the rows' values in place, appends at
      most one row, and leaves every row of another value as it was. */
  lemma UpsertSpec(rows: seq<Email>, w: ScimEmail, uid: int)
    requires DistinctValues(rows)
    ensures var r := Upsert(rows, w, uid);
      && |rows| <= |r| <= |rows| + 1
      && (|r| == |rows| + 1 <==> !HasRow(rows, w.value))
      && (forall k :: 0 <= k < |rows| ==> r[k].value == rows[k].value && r[k].userId == rows[k].userId)
      && (forall k :: 0 <= k < |rows| && rows[k].value != w.value ==> r[k] == rows[k])
      && (forall k :: 0 <= k < |r| && r[k].value == w.value ==>
            r[k].emailType == w.emailType && r[k].primary == w.primary)
      && (|r| == |rows| + 1 ==> r[|rows|] == Row(w, uid))
  {
    match IndexOfValue(rows, w.value)
    case Some(k) =>
      forall j | 0 <= j < |rows| && j != k ensures rows[j].value != w.value {
        if j < k { assert rows[j].value != rows[k].value; }
        else { assert rows[k].value != rows[j].value; }
      }
    case None =>
  }

  /** An inbound list carries v when its front part or its last email does. */
  lemma HasValueSnoc(inbound: seq<ScimEmail>, v: string)
    requires inbound != []
    ensures HasValue(inbound, v) <==> HasValue(inbound[..|inbound| - 1], v) || inbound[|inbound| - 1].value == v
  {
    var init := inbound[..|inbound| - 1];
    if HasValue(inbound, v) && inbound[|inbound| - 1].value != v {
      var i :| 0 <= i < |inbound| && inbound[i].value == v;
      assert init[i].value == v;
    }
    if HasValue(init, v) {
      var i :| 0 <= i < |init| && init[i].value == v;
      assert inbound[i].value == v;
    }
  }

  /** Upsert keeps values distinct and adds exactly the inbound value. */
  lemma UpsertRows(p: seq<Email>, w: ScimEmail, uid: int)
    requires DistinctValues(p)
    ensures DistinctValues(Upsert(p, w, uid))
    ensures forall v :: HasRow(Upsert(p, w, uid), v) <==> HasRow(p, v) || w.value == v
  {
    var r := Upsert(p, w, uid);
    UpsertSpec(p, w, uid);
    forall i, j | 0 <= i < j < |r| ensures r[i].value != r[j].value {
      if j < |p| {
        assert p[i].value != p[j].value;
      } else {
        assert !HasRow(p, w.value);
        assert p[i].value != w.value;
      }
    }
    forall v ensures HasRow(r, v) <==> HasRow(p, v) || w.value == v {
      if HasRow(r, v) {
        var k :| 0 <= k < |r| && r[k].value == v;
        if k < |p| { assert p[k].value == v; }
      }
      if HasRow(p, v) {
        var k :| 0 <= k < |p| && p[k].value == v;
        assert r[k].value == v;
      }
      if w.value == v {
        match IndexOfValue(p, w.value)
        case Some(k) => assert r[k].value == v;
        case None => assert r[|p|].value == v;
      }
    }
  }

  /** What the second loop does to rows whose values are distinct: the values
      already present stay where they were, each value of the inbound list
      not yet present is appended once, and every row whose value the inbound
      list carries takes the type and primary flag of its last inbound email. */
  lemma {:induction false} UpsertAllSpec(rows: seq<Email>, inbound: seq<ScimEmail>, uid: int)
    requires DistinctValues(rows)
    ensures var r := UpsertAll(rows, inbound, uid);
      && DistinctValues(r)
      && |r| >= |rows|
      && (forall k :: 0 <= k < |rows| ==> r[k].value == rows[k].value && r[k].userId == rows[k].userId)
      && (forall k :: 0 <= k < |rows| && !HasValue(inbound, rows[k].value) ==> r[k] == rows[k])
      && (forall k :: |rows| <= k < |r| ==> r[k].userId == uid)
      && (forall v :: HasRow(r, v) <==> HasRow(rows, v) || HasValue(inbound, v))
      && (forall k :: 0 <= k < |r| && HasValue(inbound, r[k].value) ==>
            LastWith(inbound, r[k].value) == Some(ScimEmail(r[k].value, r[k].emailType, r[k].primary)))
    decreases |inbound|
  {
    if inbound != [] {
      var init, w := inbound[..|inbound| - 1], inbound[|inbound| - 1];
      UpsertAllSpec(rows, init, uid);
      var p := UpsertAll(rows, init, uid);
      var r := Upsert(p, w, uid);
      assert r == UpsertAll(rows, inbound, uid);
      UpsertSpec(p, w, uid);
      forall v ensures HasValue(inbound, v) <==> HasValue(init, v) || w.value == v {
        HasValueSnoc(inbound, v);
      }
      UpsertRows(p, w, uid);
      forall k | 0 <= k < |r| && HasValue(inbound, r[k].value)
        ensures LastWith(inbound, r[k].value) == Some(ScimEmail(r[k].value, r[k].emailType, r[k].primary))
      {
        if r[k].value != w.value {
          assert k < |p| && r[k] == p[k];
        }
      }
    }
  }

  /** The rows of a user after PUT: their values are exactly the inbound
      values, each once; each row is the last inbound email with its value,
      owned by the user; and the kept rows stay first, in their old order. */
  lemma ReconciledSpec(existing: seq<Email>, inbound: seq<ScimEmail>, uid: int)
    requires DistinctValues(existing) && OwnedBy(existing, uid)
    ensures var r := Reconciled(existing, inbound, uid);
      && DistinctValues(r)
      && OwnedBy(r, uid)
      && (forall v :: HasRow(r, v) <==> HasValue(inbound, v))
      && (forall k :: 0 <= k < |r| ==> LastWith(inbound, r[k].value) == Some(ToWireEmail(r[k])))
      && |Kept(existing, inbound)| <= |r|
      && (forall k :: 0 <= k < |Kept(existing, inbound)| ==> r[k].value == Kept(existing, inbound)[k].value)
  {
    var kept := Kept(existing, inbound);
    KeptSpec(existing, inbound, uid);
    UpsertAllSpec(kept, inbound, uid);
    var r := Reconciled(existing, inbound, uid);
    forall v | HasRow(kept, v) ensures HasValue(inbound, v) {
      var k :| 0 <= k < |kept| && kept[k].value == v;
      assert kept[k] in kept;
    }
    forall k | 0 <= k < |r| ensures r[k].userId == uid && HasValue(inbound, r[k].value) {
      if k < |kept| {
        assert kept[k] in kept;
      }
      assert HasRow(r, r[k].value);
    }
  }

  /** The two loops of the PUT handler over the user's rows. */
  method ReconcileEmails(existing: seq<Email>, inbound: seq<ScimEmail>, uid: int) returns (rows: seq<Email>)
    ensures rows == Reconciled(existing, inbound, uid)
  {
    rows := [];
    for i := 0 to |existing|
      invariant rows == Kept(existing[..i], inbound)
    {
      assert existing[..i + 1][..i] == existing[..i];
      if HasValue(inbound, existing[i].value) {
        rows := rows + [existing[i]];
      }
    }
    assert existing[..|existing|] == existing;
    for i := 0 to |inbound|
      invariant rows == UpsertAll(Kept(existing, inbound), inbound[..i], uid)
    {
      assert inbound[..i + 1][..i] == inbound[..i];
      var w := inbound[i];
      match IndexOfValue(rows, w.value)
      case Some(k) =>
        rows := rows[k := rows[k].(emailType := w.emailType, primary := w.primary)];
      case None =>
        rows := rows + [Row(w, uid)];
    }
    assert inbound[..|inbound|] == inbound;
  }

  /** A row whose value the request drops is removed and a new value is added
      under the user: [work a@x] with inbound [personal b@x] becomes the one
      row of b@x. */
  lemma ReplaceOneEmail(uid: int)
    ensures Reconciled([Email("work", "a@x", true, uid)], [ScimEmail("b@x", "personal", false)], uid)
            == [Email("personal", "b@x", false, uid)]
  {
    var existing, inbound := [Email("work", "a@x", true, uid)], [ScimEmail("b@x", "personal", false)];
    assert !HasValue(inbound, "a@x") by {
      assert "b@x"[0] != "a@x"[0];
    }
    assert Kept(existing, inbound) == [];
    assert IndexOfValue([], "b@x") == None;
    assert UpsertAll([], inbound, uid) == Upsert([], inbound[0], uid);
  }

  /** A row whose value the request repeats keeps its place and takes the
      inbound type and primary flag. */
  lemma UpdateOneEmailInPlace(uid: int)
    ensures Reconciled([Email("work", "a@x", true, uid), Email("home", "c@x", false, uid)],
                       [ScimEmail("a@x", "personal", false)], uid)
            == [Email("personal", "a@x", false, uid)]
  {
    var existing := [Email("work", "a@x", true, uid), Email("home", "c@x", false, uid)];
    var inbound := [ScimEmail("a@x", "personal", false)];
    assert inbound[0].value == "a@x";
    assert !HasValue(inbound, "c@x") by {
      assert "c@x"[0] != "a@x"[0];
    }
    assert existing[..1] == [existing[0]];
    assert Kept(existing[..1], inbound) == [existing[0]];
    assert Kept(existing, inbound) == [existing[0]];
    assert IndexOfValue([existing[0]], "a@x") == Some(0);
    assert UpsertAll([existing[0]], inbound, uid) == Upsert([existing[0]], inbound[0], uid);
  }
}
