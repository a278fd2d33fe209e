/** PATCH /scim/v2/users/{id} (RFC 7644 section 3.5.2) as the handler reads it
    from the JSON body: it walks the Operations array in order and acts only
    on a `replace` whose value object has an `active` member. */
module PatchOperations {
  import opened Common

  /** A JSON value as System.Text.Json presents it; an object's members are
      keyed by name. */
  datatype Json =
    | JNull
    | JBool(b: bool)
    | JNumber(n: int)
    | JString(s: string)
    | JArray(items: seq<Json>)
    | JObject(members: map<string, Json>)

  /** JsonElement.GetProperty: the member, a missing member throws
      KeyNotFoundException, a non-object throws InvalidOperationException. */
  function GetProperty(e: Json, name: string): (r: Result<Json, Fault>)
    ensures r.Success? <==> e.JObject? && name in e.members
    ensures r.Success? ==> r.value == e.members[name]
    ensures e.JObject? && name !in e.members ==> r == Failure(KeyNotFound(name))
    ensures !e.JObject? ==> r == Failure(InvalidOperation)
  {
    if !e.JObject? then Failure(InvalidOperation)
    else if name in e.members then Success(e.members[name])
    else Failure(KeyNotFound(name))
  }

  /** JsonElement.TryGetProperty: absent is not an error, a non-object is. */
  function TryGetProperty(e: Json, name: string): (r: Result<Option<Json>, Fault>)
    ensures !e.JObject? <==> r == Failure(InvalidOperation)
    ensures e.JObject? ==> r == Success(if name in e.members then Some(e.members[name]) else None)
  {
    if !e.JObject? then Failure(InvalidOperation)
    else if name in e.members then Success(Some(e.members[name]))
    else Success(None)
  }

  /** JsonElement.GetString: a string, null for JSON null, otherwise it throws. */
  function GetString(e: Json): (r: Result<Option<string>, Fault>)
    ensures e.JString? ==> r == Success(Some(e.s))
    ensures e.JNull? ==> r == Success(None)
    ensures !e.JString? && !e.JNull? ==> r == Failure(InvalidOperation)
  {
    match e
    case JString(s) => Success(Some(s))
    case JNull => Success(None)
    case _ => Failure(InvalidOperation)
  }

  /** JsonElement.GetBoolean: only true and false read as a bool. */
  function GetBoolean(e: Json): (r: Result<bool, Fault>)
    ensures e.JBool? <==> r.Success?
    ensures e.JBool? ==> r.value == e.b
    ensures !e.JBool? ==> r == Failure(InvalidOperation)
  {
    if e.JBool? then Success(e.b) else Failure(InvalidOperation)
  }

  /** RootElement.GetProperty("Operations").EnumerateArray(). */
  function Operations(body: Json): (r: Result<seq<Json>, Fault>)
    ensures r.Success? <==> body.JObject? && "Operations" in body.members && body.members["Operations"].JArray?
    ensures r.Success? ==> r.value == body.members["Operations"].items
  {
    var ops :- GetProperty(body, "Operations");
    if ops.JArray? then Success(ops.items) else Failure(InvalidOperation)
  }

  const ReplaceOp := "replace"
  const ActiveAttribute := "active"

  /** One iteration of the loop: the value of Active after the operation, or
      the exception it raises. `op` is compared ordinally, so "Replace" is not
      a replace; `value` is only read for a replace. */
  function Step(active: bool, op: Json): Result<bool, Fault> {
    var name :- GetProperty(op, "op");
    var kind :- GetString(name);
    if kind != Some(ReplaceOp) then Success(active)
    else
      var value :- GetProperty(op, "value");
      var member :- TryGetProperty(value, ActiveAttribute);
      if member.None? then Success(active)
      else GetBoolean(member.value)
  }

  /** Where the loop stops: the Active value it reached, and the exception
      that ended it early, if any. */
  datatype PatchOutcome = PatchOutcome(active: bool, fault: Option<Fault>)

  /** The loop over the operations, stopping at the first exception. */
  function Applied(active: bool, ops: seq<Json>): PatchOutcome
    decreases |ops|
  {
    if ops == [] then PatchOutcome(active, None)
    else
      match Step(active, ops[0])
      case Failure(f) => PatchOutcome(active, Some(f))
      case Success(a) => Applied(a, ops[1..])
  }

  // ------------------------------------------------------------------
  // An independent reading of the same operations, straight off their shape.

  /** The Active value a well-formed `replace` operation sets, if it sets one. */
  function SetValue(op: Json): Option<bool> {
    if op.JObject? && "op" in op.members && op.members["op"] == JString(ReplaceOp)
       && "value" in op.members && op.members["value"].JObject?
       && ActiveAttribute in op.members["value"].members
       && op.members["value"].members[ActiveAttribute].JBool?
    then Some(op.members["value"].members[ActiveAttribute].b)
    else None
  }

  /** The operations the handler cannot read: not an object; no `op`; an `op`
      that is neither a string nor null; or a `replace` whose `value` is
      missing, is not an object, or holds an `active` that is not a bool. */
  predicate Faulty(op: Json) {
    || !op.JObject?
    || "op" !in op.members
    || !(op.members["op"].JString? || op.members["op"].JNull?)
    || (op.members["op"] == JString(ReplaceOp) &&
        (|| "value" !in op.members
         || !op.members["value"].JObject?
         || (ActiveAttribute in op.members["value"].members &&
             !op.members["value"].members[ActiveAttribute].JBool?)))
  }

  /** Active after the operations: the value the last setting operation
      sets, or the starting value when none sets one. */
  function LastSet(active: bool, ops: seq<Json>): bool
    decreases |ops|
  {
    if ops == [] then active
    else if SetValue(ops[|ops| - 1]).Some? then SetValue(ops[|ops| - 1]).value
    else LastSet(active, ops[..|ops| - 1])
  }

  /** One operation: it faults exactly when it is Faulty (a missing `op` or
      `value` with KeyNotFoundException, anything else with
      InvalidOperationException), sets Active when it is a well-formed replace
      of active, and otherwise changes nothing. */
  lemma StepSpec(active: bool, op: Json)
    ensures Step(active, op).Failure? <==> Faulty(op)
    ensures op.JObject? && "op" !in op.members ==> Step(active, op) == Failure(KeyNotFound("op"))
    ensures op.JObject? && "op" in op.members && op.members["op"] == JString(ReplaceOp) && "value" !in op.members
            ==> Step(active, op) == Failure(KeyNotFound("value"))
    ensures Faulty(op) &&
            !(op.JObject? && ("op" !in op.members || (op.members["op"] == JString(ReplaceOp) && "value" !in op.members)))
            ==> Step(active, op) == Failure(InvalidOperation)
    ensures !Faulty(op) ==> Step(active, op) == Success(if SetValue(op).Some? then SetValue(op).value else active)
  {
  }

  /** LastSet read from the front: the first operation's effect, then the rest. */
  lemma {:induction false} LastSetCons(active: bool, ops: seq<Json>)
    requires ops != []
    ensures LastSet(active, ops) ==
              LastSet(if SetValue(ops[0]).Some? then SetValue(ops[0]).value else active, ops[1..])
    decreases |ops|
  {
    if |ops| > 1 {
      var init := ops[..|ops| - 1];
      LastSetCons(active, init);
      assert init[1..] == ops[1..][..|ops[1..]| - 1];
      assert init[0] == ops[0];
    }
  }

  /** With no faulty operation the loop ends with the value of the last
      replace of active, or the starting value if there is none. */
  lemma {:induction false} AppliedClean(active: bool, ops: seq<Json>)
    requires forall i :: 0 <= i < |ops| ==> !Faulty(ops[i])
    ensures Applied(active, ops) == PatchOutcome(LastSet(active, ops), None)
    decreases |ops|
  {
    if ops != [] {
      StepSpec(active, ops[0]);
      var a := if SetValue(ops[0]).Some? then SetValue(ops[0]).value else active;
      forall i | 0 <= i < |ops[1..]| ensures !Faulty(ops[1..][i]) {
        assert ops[1..][i] == ops[i + 1];
      }
      AppliedClean(a, ops[1..]);
      LastSetCons(active, ops);
    }
  }

  /** The first faulty operation, at index j, stops the loop with the value
      reached before it, which the handler has already saved. */
  lemma {:induction false} AppliedStops(active: bool, ops: seq<Json>, j: nat)
    requires j < |ops| && Faulty(ops[j])
    requires forall i :: 0 <= i < j ==> !Faulty(ops[i])
    ensures Applied(active, ops).active == LastSet(active, ops[..j])
    ensures Applied(active, ops).fault == Some(Step(LastSet(active, ops[..j]), ops[j]).error)
    decreases j
  {
    StepSpec(active, ops[0]);
    if j > 0 {
      var a := if SetValue(ops[0]).Some? then SetValue(ops[0]).value else active;
      forall i | 0 <= i < j - 1 ensures !Faulty(ops[1..][i]) {
        assert ops[1..][i] == ops[i + 1];
      }
      AppliedStops(a, ops[1..], j - 1);
      LastSetCons(active, ops[..j]);
      assert ops[..j][1..] == ops[1..][..j - 1];
    } else {
      assert ops[..0] == [];
    }
  }

  /** The loop as the handler runs it, without the saves in between. */
  method ApplyOperations(active: bool, ops: seq<Json>) returns (out: PatchOutcome)
    ensures out == Applied(active, ops)
  {
    var a := active;
    var i := 0;
    while i < |ops|
      invariant 0 <= i <= |ops|
      invariant Applied(active, ops) == Applied(a, ops[i..])
    {
      assert ops[i..][1..] == ops[i + 1..];
      match Step(a, ops[i])
      case Failure(f) =>
        return PatchOutcome(a, Some(f));
      case Success(next) =>
        a := next;
      i := i + 1;
    }
    return PatchOutcome(a, None);
  }

  /** The operation an identity provider sends to deactivate a user. */
  function Deactivate(): Json {
    JObject(map["op" := JString(ReplaceOp), "value" := JObject(map[ActiveAttribute := JBool(false)])])
  }

  /** Deactivation sets Active to false; a replace of another attribute and a
      "Replace" spelled with a capital letter are ignored. */
  lemma PatchExamples(active: bool)
    ensures Applied(active, [Deactivate()]) == PatchOutcome(false, None)
    ensures Applied(active, [JObject(map["op" := JString("Replace"),
                                         "value" := JObject(map[ActiveAttribute := JBool(false)])])])
            == PatchOutcome(active, None)
    ensures Applied(active, [JObject(map["op" := JString(ReplaceOp),
                                         "value" := JObject(map["displayName" := JString("x")])])])
            == PatchOutcome(active, None)
  {
    assert "Replace" != ReplaceOp by { assert "Replace"[0] != ReplaceOp[0]; }
    assert ActiveAttribute != "displayName" by { assert |ActiveAttribute| != |"displayName"|; }
  }
}
