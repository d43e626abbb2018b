/**
 * `validateParameters`: the check every request goes through before it is
 * encoded and after it is decoded. It looks the operation up in the registry,
 * makes sure each required name is present, then walks the properties in
 * order: an empty value is passed over, an ignored name is deleted, a name the
 * schema does not allow is refused, and the checked fields are validated. The
 * first failure ends the walk and leaves the properties not yet visited as
 * they were.
 */
module Validation {
  import opened Types
  import opened Strings
  import opened Records
  import opened Utils
  import opened Registry

  /** The per-field `switch`: the fields with a format, and the two mint names. */
  function CheckField(ext: Externals, op: string, key: string, value: string): (r: Outcome)
    ensures r.Fail? ==> key in ["recipient", "token", "amount", "expiresAt", "dueDate", "contractName", "functionName"]
    ensures value != "" ==> r != Fail(ContractNameRequired) && r != Fail(FunctionNameRequired)
  {
    if key == "recipient" then
      if ext.isStacksAddress(value) then Pass else Fail(InvalidRecipient)
    else if key == "token" then
      if IsValidToken(ext, value) then Pass else Fail(InvalidToken)
    else if key == "amount" then
      if IsValidAmount(value) then Pass else Fail(InvalidAmount)
    else if key == "expiresAt" || key == "dueDate" then
      if ext.isIsoDate(value) then Pass else Fail(InvalidDate(key))
    else if key == "contractName" then
      if op == "mint" && |value| == 0 then Fail(ContractNameRequired) else Pass
    else if key == "functionName" then
      if op == "mint" && |value| == 0 then Fail(FunctionNameRequired) else Pass
    else Pass
  }

  /**
   * What the walk decides about one property, on its own: passed over when
   * empty or ignored, refused when not allowed, otherwise its field check.
   */
  function EntryOutcome(ext: Externals, op: string, s: Schema, p: Entry): (r: Outcome)
    ensures r.Fail? ==> p.1 != "" && p.0 !in s.ignore
    ensures r.Fail? ==> r.error == NotAllowed(p.0, op) || r.error == InvalidRecipient || r.error == InvalidToken
                        || r.error == InvalidAmount || r.error == InvalidDate(p.0)
  {
    if p.1 == "" || p.0 in s.ignore then Pass
    else if p.0 !in s.Allowed() then Fail(NotAllowed(p.0, op))
    else CheckField(ext, op, p.0, p.1)
  }

  /** `required[i]` is absent from the record and every required name before it is present. */
  ghost predicate FirstAbsentAt(required: seq<string>, e: Entries, i: int) {
    && 0 <= i < |required| && Get(e, required[i]).None?
    && forall j :: 0 <= j < i ==> Get(e, required[j]).Some?
  }

  /** The first required name the record lacks, if any. */
  function FirstMissing(required: seq<string>, e: Entries): (r: Option<string>)
    ensures r.None? <==> forall p :: p in required ==> Get(e, p).Some?
    ensures r.Some? ==> exists i :: FirstAbsentAt(required, e, i) && required[i] == r.value
  {
    if required == [] then None
    else if Get(e, required[0]).None? then
      assert FirstAbsentAt(required, e, 0) && required[0] in required;
      Some(required[0])
    else
      var r := FirstMissing(required[1..], e);
      assert forall p :: p in required ==> p == required[0] || p in required[1..];
      assert forall p :: p in required[1..] ==> p in required;
      assert r.Some? ==> exists i :: FirstAbsentAt(required, e, i) && required[i] == r.value by {
        if r.Some? {
          var i :| FirstAbsentAt(required[1..], e, i) && required[1..][i] == r.value;
          assert forall j :: 1 <= j < i + 1 ==> required[j] == required[1..][j - 1];
          assert FirstAbsentAt(required, e, i + 1);
        }
      }
      r
  }

  /**
   * The `for ... in` walk over the properties: `kept` are the visited ones
   * that stay, `todo` the ones still to visit. A failure returns the record as
   * it stands at that moment.
   */
  function Sanitize(ext: Externals, op: string, s: Schema, kept: Entries, todo: Entries): (Outcome, Entries)
    decreases |todo|
  {
    if todo == [] then (Pass, kept)
    else
      var key := todo[0].0;
      var value := todo[0].1;
      if value == "" then Sanitize(ext, op, s, kept + [todo[0]], todo[1..])
      else if key in s.ignore then Sanitize(ext, op, s, kept, todo[1..])
      else if key !in s.Allowed() then (Fail(NotAllowed(key, op)), kept + todo)
      else match CheckField(ext, op, key, value)
        case Fail(err) => (Fail(err), kept + todo)
        case Pass => Sanitize(ext, op, s, kept + [todo[0]], todo[1..])
  }

  /** The position of the first property the walk refuses, if any. */
  function FirstRejected(ext: Externals, op: string, s: Schema, todo: Entries): (r: Option<nat>)
    ensures r.None? <==> forall i :: 0 <= i < |todo| ==> EntryOutcome(ext, op, s, todo[i]) == Pass
    ensures r.Some? ==> r.value < |todo| && EntryOutcome(ext, op, s, todo[r.value]).Fail?
                        && forall i :: 0 <= i < r.value ==> EntryOutcome(ext, op, s, todo[i]) == Pass
  {
    if todo == [] then None
    else if EntryOutcome(ext, op, s, todo[0]).Fail? then Some(0)
    else
      var r := FirstRejected(ext, op, s, todo[1..]);
      assert forall i :: 1 <= i < |todo| ==> todo[i] == todo[1..][i - 1];
      match r
      case None => None
      case Some(j) => Some(j + 1)
  }

  /** What `StripIgnored` keeps of a single property. */
  function KeptOf(ignore: seq<string>, t: Entry): Entries {
    if t.1 != "" && t.0 in ignore then [] else [t]
  }

  lemma StripCons(t: Entry, rest: Entries, ignore: seq<string>)
    ensures StripIgnored([t] + rest, ignore) == KeptOf(ignore, t) + StripIgnored(rest, ignore)
  {
    assert ([t] + rest)[0] == t && ([t] + rest)[1..] == rest;
  }

  /** A refused first property stops the walk with its own error and changes nothing. */
  lemma SanitizeHeadRefused(ext: Externals, op: string, s: Schema, kept: Entries, todo: Entries)
    requires todo != [] && EntryOutcome(ext, op, s, todo[0]).Fail?
    ensures Sanitize(ext, op, s, kept, todo) == (EntryOutcome(ext, op, s, todo[0]), kept + todo)
  {
  }

  /** An acceptable first property is kept or, when ignored, deleted; the walk goes on. */
  lemma SanitizeHeadAccepted(ext: Externals, op: string, s: Schema, kept: Entries, todo: Entries)
    requires todo != [] && EntryOutcome(ext, op, s, todo[0]) == Pass
    ensures Sanitize(ext, op, s, kept, todo) == Sanitize(ext, op, s, kept + KeptOf(s.ignore, todo[0]), todo[1..])
  {
    assert kept + [] == kept;
  }

  /**
   * The walk, stated without the loop: up to the first refused property every
   * ignored one is gone; the refused property's own check is the result and
   * it and everything after it stay as they were. With none refused, the
   * result is the record without its ignored properties.
   */
  function SanitizeSpec(ext: Externals, op: string, s: Schema, kept: Entries, todo: Entries): (Outcome, Entries) {
    match FirstRejected(ext, op, s, todo)
    case None => (Pass, kept + StripIgnored(todo, s.ignore))
    case Some(j) => (EntryOutcome(ext, op, s, todo[j]), kept + StripIgnored(todo[..j], s.ignore) + todo[j..])
  }

  lemma SpecHeadRefused(ext: Externals, op: string, s: Schema, kept: Entries, todo: Entries)
    requires todo != [] && EntryOutcome(ext, op, s, todo[0]).Fail?
    ensures SanitizeSpec(ext, op, s, kept, todo) == (EntryOutcome(ext, op, s, todo[0]), kept + todo)
  {
    assert FirstRejected(ext, op, s, todo) == Some(0);
    assert todo[..0] == [] && todo[0..] == todo;
    assert StripIgnored(todo[..0], s.ignore) == [];
    assert kept + StripIgnored(todo[..0], s.ignore) + todo[0..] == kept + todo;
  }

  lemma SpecHeadAcceptedNone(ext: Externals, op: string, s: Schema, kept: Entries, todo: Entries)
    requires todo != [] && EntryOutcome(ext, op, s, todo[0]) == Pass
    requires FirstRejected(ext, op, s, todo[1..]).None?
    ensures SanitizeSpec(ext, op, s, kept, todo) ==
      SanitizeSpec(ext, op, s, kept + KeptOf(s.ignore, todo[0]), todo[1..])
  {
    var t := todo[0];
    var rest := todo[1..];
    assert todo == [t] + rest;
    assert FirstRejected(ext, op, s, todo).None?;
    StripCons(t, rest, s.ignore);
    assert (kept + KeptOf(s.ignore, t)) + StripIgnored(rest, s.ignore) == kept + StripIgnored(todo, s.ignore);
  }

  lemma SpecHeadAcceptedSome(ext: Externals, op: string, s: Schema, kept: Entries, todo: Entries, j: nat)
    requires todo != [] && EntryOutcome(ext, op, s, todo[0]) == Pass
    requires FirstRejected(ext, op, s, todo[1..]) == Some(j)
    ensures SanitizeSpec(ext, op, s, kept, todo) ==
      SanitizeSpec(ext, op, s, kept + KeptOf(s.ignore, todo[0]), todo[1..])
  {
    var t := todo[0];
    var rest := todo[1..];
    var front := KeptOf(s.ignore, t);
    assert FirstRejected(ext, op, s, todo) == Some(j + 1);
    var head := todo[..j + 1];
    assert head == [t] + rest[..j];
    StripCons(t, rest[..j], s.ignore);
    assert todo[j + 1..] == rest[j..] && todo[j + 1] == rest[j];
    var stripped := StripIgnored(rest[..j], s.ignore);
    assert StripIgnored(head, s.ignore) == front + stripped;
    assert (kept + front) + stripped == kept + (front + stripped);
  }

  /** The walk computes its loop-free description. */
  lemma {:induction false} SanitizeReference(ext: Externals, op: string, s: Schema, kept: Entries, todo: Entries)
    ensures Sanitize(ext, op, s, kept, todo) == SanitizeSpec(ext, op, s, kept, todo)
    decreases |todo|
  {
    if todo == [] {
      assert kept + StripIgnored(todo, s.ignore) == kept;
    } else if EntryOutcome(ext, op, s, todo[0]).Fail? {
      SanitizeHeadRefused(ext, op, s, kept, todo);
      SpecHeadRefused(ext, op, s, kept, todo);
    } else {
      var kept' := kept + KeptOf(s.ignore, todo[0]);
      SanitizeHeadAccepted(ext, op, s, kept, todo);
      SanitizeReference(ext, op, s, kept', todo[1..]);
      match FirstRejected(ext, op, s, todo[1..])
      case None => SpecHeadAcceptedNone(ext, op, s, kept, todo);
      case Some(j) => SpecHeadAcceptedSome(ext, op, s, kept, todo, j);
    }
  }

  /** The walk keeps keys distinct and touches no property whose name is not ignored. */
  lemma {:induction false} SanitizeFrame(ext: Externals, op: string, s: Schema, kept: Entries, todo: Entries)
    ensures DistinctKeys(kept + todo) ==> DistinctKeys(Sanitize(ext, op, s, kept, todo).1)
    ensures forall k :: k !in s.ignore ==> Get(Sanitize(ext, op, s, kept, todo).1, k) == Get(kept + todo, k)
    decreases |todo|
  {
    if todo == [] {
      assert kept + todo == kept;
    } else if EntryOutcome(ext, op, s, todo[0]).Fail? {
      SanitizeHeadRefused(ext, op, s, kept, todo);
    } else {
      var t := todo[0];
      var rest := todo[1..];
      assert kept + todo == kept + [t] + rest;
      SanitizeHeadAccepted(ext, op, s, kept, todo);
      if t.1 != "" && t.0 in s.ignore {
        assert kept + KeptOf(s.ignore, t) == kept;
        SanitizeFrame(ext, op, s, kept, rest);
        if DistinctKeys(kept + todo) {
          DistinctDrop(kept, t, rest);
        }
        forall k | k !in s.ignore ensures Get(kept + rest, k) == Get(kept + todo, k) {
          GetAppend(kept, rest, k);
          GetAppend(kept, todo, k);
        }
      } else {
        SanitizeFrame(ext, op, s, kept + [t], rest);
      }
    }
  }

  /**
   * The checks a registry schema makes once the operation `op` is known: the
   * required names first, then the walk.
   */
  function ValidateSchema(ext: Externals, op: string, s: Schema, e: Entries): (Outcome, Entries) {
    match FirstMissing(s.required, e)
    case Some(p) => (Fail(MissingParameter(p, op)), e)
    case None => Sanitize(ext, op, s, [], e)
  }

  /**
   * `validateParameters(params)` as a function of the properties it is given:
   * the outcome and the properties it leaves behind.
   */
  function Validate(ext: Externals, e: Entries): (r: (Outcome, Entries))
    requires Get(e, "operation").Some?
    ensures DistinctKeys(e) ==> DistinctKeys(r.1)
    ensures Get(r.1, "operation") == Get(e, "operation")
  {
    var op := Get(e, "operation").value;
    match Lookup(op)
    case Absent => if IsCustom(op) then (Pass, e) else (Fail(UnknownOperation), e)
    case Inherited => (Fail(NotIterable), e)
    case Known(s) =>
      LookupWellFormed(op);
      Disjoint(s, "operation");
      assert "operation" in s.Allowed() && "operation" !in s.ignore;
      SanitizeFrame(ext, op, s, [], e);
      assert [] + e == e;
      ValidateSchema(ext, op, s, e)
  }

  /** The operation name of a record. */
  function OperationOf(e: Entries): string
    requires Get(e, "operation").Some?
  {
    Get(e, "operation").value
  }

  lemma KnownValidate(ext: Externals, e: Entries)
    requires Get(e, "operation").Some? && Lookup(OperationOf(e)).Known?
    ensures Validate(ext, e) == ValidateSchema(ext, OperationOf(e), Lookup(OperationOf(e)).schema, e)
  {
  }

  /** A schema's checks fail only for a missing name or a refused property. */
  lemma SchemaErrors(ext: Externals, op: string, s: Schema, e: Entries)
    ensures var r := ValidateSchema(ext, op, s, e);
      r.0.Fail? ==> r.0.error.MissingParameter? || r.0.error.NotAllowed? || r.0.error == InvalidRecipient
                    || r.0.error == InvalidToken || r.0.error == InvalidAmount || r.0.error.InvalidDate?
  {
    if FirstMissing(s.required, e).None? {
      SanitizeReference(ext, op, s, [], e);
    }
  }

  /**
   * Which operations are refused before any property is looked at: exactly
   * the names that are neither in the registry, nor `custom-`, nor inherited;
   * the inherited ones fail with the TypeError of iterating a missing list;
   * a `custom-` request passes untouched.
   */
  lemma OperationDispatch(ext: Externals, e: Entries)
    requires Get(e, "operation").Some?
    ensures Validate(ext, e).0 == Fail(UnknownOperation) <==>
      Lookup(OperationOf(e)).Absent? && !IsCustom(OperationOf(e))
    ensures Validate(ext, e).0 == Fail(NotIterable) <==> OperationOf(e) in PrototypeNames
    ensures IsCustom(OperationOf(e)) ==> Validate(ext, e) == (Pass, e)
  {
    var op := OperationOf(e);
    if IsCustom(op) {
      CustomIsAbsent(op);
    }
    if Lookup(op).Known? {
      KnownValidate(ext, e);
      SchemaErrors(ext, op, Lookup(op).schema, e);
    }
  }

  /**
   * The required names are checked before anything else: when one is absent,
   * the first absent one is reported and the record is left as it was; a
   * present property passes this check even when its value is empty.
   */
  lemma MissingParameterExactly(ext: Externals, op: string, s: Schema, e: Entries)
    ensures var r := ValidateSchema(ext, op, s, e);
      r.0.Fail? && r.0.error.MissingParameter? <==> exists p :: p in s.required && Get(e, p).None?
    ensures var r := ValidateSchema(ext, op, s, e);
      r.0.Fail? && r.0.error.MissingParameter? ==>
      r.1 == e && r.0.error.op == op && exists i :: FirstAbsentAt(s.required, e, i) && s.required[i] == r.0.error.param
  {
    if FirstMissing(s.required, e).None? {
      SanitizeReference(ext, op, s, [], e);
    }
  }

  /**
   * A schema accepts a record exactly when every required name is present
   * and no property is refused on its own; the accepted record is the given
   * one without its ignored properties.
   */
  lemma AcceptedExactly(ext: Externals, op: string, s: Schema, e: Entries)
    ensures ValidateSchema(ext, op, s, e).0 == Pass <==>
      (forall p :: p in s.required ==> Get(e, p).Some?) &&
      (forall i :: 0 <= i < |e| ==> EntryOutcome(ext, op, s, e[i]) == Pass)
    ensures ValidateSchema(ext, op, s, e).0 == Pass ==> ValidateSchema(ext, op, s, e).1 == StripIgnored(e, s.ignore)
  {
    if FirstMissing(s.required, e).None? {
      SanitizeReference(ext, op, s, [], e);
      assert [] + StripIgnored(e, s.ignore) == StripIgnored(e, s.ignore);
    }
  }

  /**
   * When every required name is present, the first refused property decides
   * the error, the ignored properties before it are already deleted and the
   * rest of the record is untouched.
   */
  lemma RejectedAt(ext: Externals, op: string, s: Schema, e: Entries, j: nat)
    requires forall p :: p in s.required ==> Get(e, p).Some?
    requires FirstRejected(ext, op, s, e) == Some(j)
    ensures ValidateSchema(ext, op, s, e).0 == EntryOutcome(ext, op, s, e[j])
    ensures ValidateSchema(ext, op, s, e).1 == StripIgnored(e[..j], s.ignore) + e[j..]
  {
    SanitizeReference(ext, op, s, [], e);
    assert [] + StripIgnored(e[..j], s.ignore) + e[j..] == StripIgnored(e[..j], s.ignore) + e[j..];
  }

  /**
   * After a well-formed schema accepts a record, every required name is
   * present, every property with a value is allowed by the schema, and every
   * property whose name is not ignored is as it was.
   */
  lemma AcceptedRecordIsClean(ext: Externals, op: string, s: Schema, e: Entries)
    requires WellFormed(s) && DistinctKeys(e) && ValidateSchema(ext, op, s, e).0 == Pass
    ensures forall p :: p in s.required ==> Get(ValidateSchema(ext, op, s, e).1, p).Some?
    ensures forall k :: Get(ValidateSchema(ext, op, s, e).1, k).Some? && Get(ValidateSchema(ext, op, s, e).1, k) != Some("") ==>
      k in s.Allowed()
    ensures forall k :: k !in s.ignore ==> Get(ValidateSchema(ext, op, s, e).1, k) == Get(e, k)
  {
    AcceptedExactly(ext, op, s, e);
    StripIgnoredLookups(e, s.ignore);
    var r := StripIgnored(e, s.ignore);
    forall p | p in s.required ensures Get(r, p).Some? {
      Disjoint(s, p);
    }
    forall k | Get(r, k).Some? && Get(r, k) != Some("") ensures k in s.Allowed() {
      var v := Get(r, k).value;
      assert k !in s.ignore;
      var i :| 0 <= i < |e| && e[i] == (k, v);
      assert EntryOutcome(ext, op, s, e[i]) == Pass;
    }
  }

  /**
   * The two mint checks on `contractName` and `functionName` never fire: the
   * walk passes over empty values before it reaches them.
   */
  lemma NameChecksUnreachable(ext: Externals, e: Entries)
    requires Get(e, "operation").Some?
    ensures Validate(ext, e).0 != Fail(ContractNameRequired)
    ensures Validate(ext, e).0 != Fail(FunctionNameRequired)
  {
    var op := OperationOf(e);
    if Lookup(op).Known? {
      KnownValidate(ext, e);
      SchemaErrors(ext, op, Lookup(op).schema, e);
    }
  }

  /**
   * With every required name present and every other property acceptable,
   * the one remaining property alone decides the outcome.
   */
  lemma SingleFieldDecides(ext: Externals, op: string, s: Schema, e: Entries, j: nat)
    requires j < |e| && forall p :: p in s.required ==> Get(e, p).Some?
    requires forall i :: 0 <= i < |e| && i != j ==> EntryOutcome(ext, op, s, e[i]) == Pass
    ensures ValidateSchema(ext, op, s, e).0 == EntryOutcome(ext, op, s, e[j])
  {
    SanitizeReference(ext, op, s, [], e);
  }

  /** `recipient` is checked as a Stacks address whenever the schema allows it and it has a value. */
  lemma RecipientRule(ext: Externals, op: string, s: Schema, v: string)
    requires WellFormed(s) && "recipient" in s.Allowed() && v != ""
    ensures EntryOutcome(ext, op, s, ("recipient", v)) == if ext.isStacksAddress(v) then Pass else Fail(InvalidRecipient)
  {
    Disjoint(s, "recipient");
  }

  /**
   * The other checked fields: a non-empty `token`, `amount`, `expiresAt` or
   * `dueDate` the schema allows fails exactly when its predicate is false.
   */
  lemma FieldRules(ext: Externals, op: string, s: Schema, k: string, v: string)
    requires WellFormed(s) && k in s.Allowed() && v != ""
    ensures k == "token" ==>
      EntryOutcome(ext, op, s, (k, v)) == if IsValidToken(ext, v) then Pass else Fail(InvalidToken)
    ensures k == "amount" ==>
      EntryOutcome(ext, op, s, (k, v)) == if IsValidAmount(v) then Pass else Fail(InvalidAmount)
    ensures k == "expiresAt" || k == "dueDate" ==>
      EntryOutcome(ext, op, s, (k, v)) == if ext.isIsoDate(v) then Pass else Fail(InvalidDate(k))
  {
    Disjoint(s, k);
  }

  /** The free-text fields are never refused by a schema that allows them. */
  lemma FreeTextRule(ext: Externals, op: string, s: Schema, k: string, v: string)
    requires WellFormed(s) && k in s.Allowed()
    requires k == "description" || k == "memo" || k == "invoiceNumber" || k == "operation"
    ensures EntryOutcome(ext, op, s, (k, v)) == Pass
  {
    Disjoint(s, k);
  }

  /** A `contractAddress` property is refused on an invoice: it is in none of the lists. */
  lemma InvoiceRefusesContractAddress(ext: Externals, v: string)
    requires v != ""
    ensures EntryOutcome(ext, "invoice", Invoice, ("contractAddress", v)) == Fail(NotAllowed("contractAddress", "invoice"))
  {
  }

  /** The rejected invoice of the test suite, with an address the address check refuses. */
  const InvalidInvoice: Entries := [("operation", "invoice"), ("recipient", "INVALID_ADDRESS"), ("token", "STX"),
                                    ("amount", "1000"), ("description", "Payment for services")]

  lemma InvalidInvoiceComplete()
    ensures forall p :: p in Invoice.required ==> Get(InvalidInvoice, p).Some?
  {
    var e := InvalidInvoice;
    assert Invoice.required == [e[0].0, e[1].0, e[2].0, e[3].0];
  }

  lemma InvalidInvoiceRejectedAt(ext: Externals)
    requires !ext.isStacksAddress("INVALID_ADDRESS")
    ensures FirstRejected(ext, "invoice", Invoice, InvalidInvoice) == Some(1)
  {
    var e := InvalidInvoice;
    assert EntryOutcome(ext, "invoice", Invoice, e[0]) == Pass;
    assert EntryOutcome(ext, "invoice", Invoice, e[1]) == Fail(InvalidRecipient);
  }

  /** The test suite's invalid invoice fails with the recipient error. */
  lemma InvalidRecipientInvoice(ext: Externals)
    requires !ext.isStacksAddress("INVALID_ADDRESS")
    ensures ValidateSchema(ext, "invoice", Invoice, InvalidInvoice).0 == Fail(InvalidRecipient)
  {
    InvalidInvoiceComplete();
    InvalidInvoiceRejectedAt(ext);
    RejectedAt(ext, "invoice", Invoice, InvalidInvoice, 1);
  }

  /** The `required` loop: the first required name `params` lacks, if any. */
  method CheckRequired(params: Params, required: seq<string>) returns (missing: Option<string>)
    ensures missing == FirstMissing(required, params.entries)
  {
    var j := 0;
    while j < |required|
      invariant 0 <= j <= |required|
      invariant FirstMissing(required, params.entries) == FirstMissing(required[j..], params.entries)
    {
      if params.Value(required[j]).None? {
        return Some(required[j]);
      }
      assert required[j..][1..] == required[j + 1..];
      j := j + 1;
    }
    return None;
  }

  /**
   * The `for (const key in params)` loop: visits the properties present when
   * it starts, in order, deleting the ignored ones in place.
   */
  method SanitizeParams(ext: Externals, op: string, s: Schema, params: Params) returns (res: Outcome)
    requires params.Valid()
    modifies params
    ensures params.Valid()
    ensures (res, params.entries) == Sanitize(ext, op, s, [], old(params.entries))
  {
    var keys := params.entries;
    ghost var kept: Entries := [];
    assert kept + keys[0..] == keys;
    var i := 0;
    while i < |keys|
      invariant 0 <= i <= |keys|
      invariant params.Valid()
      invariant params.entries == kept + keys[i..]
      invariant Sanitize(ext, op, s, kept, keys[i..]) == Sanitize(ext, op, s, [], keys)
    {
      var key := keys[i].0;
      var value := keys[i].1;
      ghost var todo := keys[i..];
      assert todo[0] == keys[i] && todo[1..] == keys[i + 1..];
      assert kept + todo == kept + [keys[i]] + keys[i + 1..];
      if value == "" {
        SanitizeHeadAccepted(ext, op, s, kept, todo);
        kept := kept + [keys[i]];
      } else if key in s.ignore {
        SanitizeHeadAccepted(ext, op, s, kept, todo);
        assert kept + KeptOf(s.ignore, keys[i]) == kept;
        RemoveBetween(kept, keys[i], keys[i + 1..]);
        params.Delete(key);
      } else if key !in s.Allowed() {
        SanitizeHeadRefused(ext, op, s, kept, todo);
        return Fail(NotAllowed(key, op));
      } else {
        var check := CheckField(ext, op, key, value);
        if check.Fail? {
          SanitizeHeadRefused(ext, op, s, kept, todo);
          return check;
        }
        SanitizeHeadAccepted(ext, op, s, kept, todo);
        kept := kept + [keys[i]];
      }
      i := i + 1;
    }
    assert keys[i..] == [] && kept + [] == kept;
    return Pass;
  }

  /**
   * `validateParameters(params)`: looks the operation up, checks the required
   * names, then walks the properties, deleting the ignored ones in place.
   */
  method ValidateParameters(ext: Externals, params: Params) returns (res: Outcome)
    requires params.Valid() && params.Value("operation").Some?
    modifies params
    ensures params.Valid()
    ensures (res, params.entries) == Validate(ext, old(params.entries))
  {
    var op := params.Value("operation").value;
    var found := Lookup(op);
    if found.Absent? {
      if !IsCustom(op) {
        return Fail(UnknownOperation);
      }
      return Pass;
    }
    if found.Inherited? {
      return Fail(NotIterable);
    }
    var s := found.schema;
    KnownValidate(ext, params.entries);
    var missing := CheckRequired(params, s.required);
    if missing.Some? {
      return Fail(MissingParameter(missing.value, op));
    }
    res := SanitizeParams(ext, op, s, params);
  }
}
