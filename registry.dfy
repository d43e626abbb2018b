/**
 * The operation schema registry (`operationParameters`): for `support`,
 * `invoice` and `mint`, the names a request must carry, may carry, and has
 * dropped. The registry is a plain object literal, so looking up a name it
 * inherits from `Object.prototype` (`toString`, `constructor`, ...) finds a
 * truthy value that has no lists.
 */
module Registry {
  import opened Types
  import opened Strings

  datatype Schema = Schema(required: seq<string>, optional: seq<string>, ignore: seq<string>) {
    /** `[...required, ...optional]`: the names a request may carry, in encoding order. */
    function Allowed(): seq<string> {
      required + optional
    }
  }

  /** What `operationParameters[op]` evaluates to. */
  datatype Found = Known(schema: Schema) | Inherited | Absent

  const Support := Schema(
    ["operation", "recipient"],
    ["token", "description", "expiresAt", "memo"],
    ["amount", "contractName", "dueDate", "functionName", "invoiceNumber"])

  const Invoice := Schema(
    ["operation", "recipient", "token", "amount"],
    ["description", "expiresAt", "invoiceNumber", "dueDate", "memo"],
    ["contractName", "functionName"])

  const Mint := Schema(
    ["operation", "contractName", "functionName", "token", "amount"],
    ["recipient", "description", "expiresAt", "invoiceNumber", "memo"],
    ["dueDate"])

  /** The properties of `Object.prototype`, all of which an object literal inherits. */
  const PrototypeNames: set<string> := {
    "constructor", "hasOwnProperty", "isPrototypeOf", "propertyIsEnumerable",
    "toLocaleString", "toString", "valueOf", "__proto__",
    "__defineGetter__", "__defineSetter__", "__lookupGetter__", "__lookupSetter__"}

  ghost predicate NoDuplicates(s: seq<string>) {
    forall i, j :: 0 <= i < j < |s| ==> s[i] != s[j]
  }

  /**
   * The three lists name every field once: no name repeats, none is in two
   * lists, and `operation` is the first required name.
   */
  ghost predicate WellFormed(s: Schema) {
    && NoDuplicates(s.required + s.optional + s.ignore)
    && |s.required| > 0 && s.required[0] == "operation"
  }

  lemma SupportWellFormed()
    ensures WellFormed(Support)
  {
  }

  lemma InvoiceWellFormed()
    ensures WellFormed(Invoice)
  {
  }

  lemma MintWellFormed()
    ensures WellFormed(Mint)
  {
  }

  /** `operationParameters[op]`. */
  function Lookup(op: string): (r: Found)
    ensures r.Known? <==> op == "support" || op == "invoice" || op == "mint"
    ensures r.Inherited? <==> op in PrototypeNames
  {
    if op == "support" then Known(Support)
    else if op == "invoice" then Known(Invoice)
    else if op == "mint" then Known(Mint)
    else if op in PrototypeNames then Inherited
    else Absent
  }

  /** Every schema in the registry is well formed. */
  lemma LookupWellFormed(op: string)
    requires Lookup(op).Known?
    ensures WellFormed(Lookup(op).schema)
  {
    if op == "support" {
      SupportWellFormed();
    } else if op == "invoice" {
      InvoiceWellFormed();
    } else {
      MintWellFormed();
    }
  }

  /** `op.startsWith("custom-")`. */
  predicate IsCustom(op: string) {
    StartsWith(op, "custom-")
  }

  /** In a well-formed schema the three lists are disjoint. */
  lemma Disjoint(s: Schema, k: string)
    requires WellFormed(s)
    ensures k in s.ignore ==> k !in s.Allowed()
    ensures k in s.required ==> k !in s.optional
    ensures NoDuplicates(s.Allowed())
  {
    var all := s.required + s.optional + s.ignore;
    var n := |s.Allowed()|;
    assert s.Allowed() == all[..n];
    if k in s.ignore {
      var j :| 0 <= j < |s.ignore| && s.ignore[j] == k;
      assert all[n + j] == k;
      forall i | 0 <= i < n ensures s.Allowed()[i] != k {
        assert all[i] == s.Allowed()[i];
      }
    }
    if k in s.required {
      var i :| 0 <= i < |s.required| && s.required[i] == k;
      assert all[i] == k;
      forall j | 0 <= j < |s.optional| ensures s.optional[j] != k {
        assert all[|s.required| + j] == s.optional[j];
      }
    }
  }

  /** No registry name and no `Object.prototype` name is a custom operation. */
  lemma CustomIsAbsent(op: string)
    requires IsCustom(op)
    ensures Lookup(op).Absent?
  {
    assert op[..7] == "custom-";
    assert op[0] == 'c' && op[1] == 'u';
    assert forall p :: p in PrototypeNames ==> |p| < 2 || p[0] != 'c' || p[1] != 'u';
  }
}
