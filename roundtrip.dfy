/**
 * What decoding makes of an encoded request, and the guards on the way in.
 * The bech32m library is assumed to decode what it encodes (`Lawful`).
 */
module RoundTrip {
  import opened Types
  import opened Strings
  import opened Records
  import opened FormEncoding
  import opened Utils
  import opened Registry
  import opened Validation
  import opened Codec

  // ---------------------------------------------------------------------------
  // The envelope

  /**
   * Unwrapping an envelope built from `op?query` gives back `op` and `query`,
   * provided `op` holds no `?` of its own.
   */
  lemma DecodeEnvelope(ext: Externals, op: string, query: string, b: string)
    requires Lawful(ext) && '?' !in op
    requires ext.bech32mEncode(Hrp, op + "?" + query) == Some(b)
    ensures Decode(ext, Scheme + b) == DecodeRequest(ext, op, query)
  {
    var full := Scheme + b;
    assert full[..|Scheme|] == Scheme && full[|Scheme|..] == b;
    ReplacePrefix(full, Scheme);
    Bech32mRoundTrip(ext, op + "?" + query);
    var url := op + "?" + query;
    IndexOfAfter(op, '?', query);
    assert url[..|op|] == op && url[|op| + 1..] == query;
  }

  /** A URL without the `web+stx:` scheme is refused before anything is decoded. */
  lemma ProtocolGuard(ext: Externals, full: string)
    requires !StartsWith(full, Scheme)
    ensures Decode(ext, full) == Err(InvalidProtocol)
  {
  }

  /** The two foreign schemes of the test suite are refused, whatever follows them. */
  lemma ForeignSchemes(ext: Externals, rest: string)
    ensures Decode(ext, "invalid+stx:" + rest) == Err(InvalidProtocol)
    ensures Decode(ext, "web+btc:" + rest) == Err(InvalidProtocol)
  {
    var a := "invalid+stx:" + rest;
    var b := "web+btc:" + rest;
    assert a[0] == 'i' && Scheme[0] == 'w';
    assert !StartsWith(a, Scheme) by {
      if |Scheme| <= |a| {
        assert a[..|Scheme|][0] != Scheme[0];
      }
    }
    assert b[4] == 'b' && Scheme[4] == 's';
    assert !StartsWith(b, Scheme) by {
      assert b[..|Scheme|][4] != Scheme[4];
    }
    ProtocolGuard(ext, a);
    ProtocolGuard(ext, b);
  }

  /** The test suite's invoice with a refused address makes the encoder throw the recipient error. */
  lemma EncodeRefusesInvalidRecipient(ext: Externals)
    requires !ext.isStacksAddress("INVALID_ADDRESS")
    ensures Get(InvalidInvoice, "operation") == Some("invoice")
    ensures Encode(ext, InvalidInvoice).0 == Err(InvalidRecipient)
  {
    assert InvalidInvoice[0] == ("operation", "invoice");
    InvalidRecipientInvoice(ext);
    KnownValidate(ext, InvalidInvoice);
  }

  /**
   * An operation holding a `?` does not survive the split: the decoder reads
   * only the text before its first `?` as the operation.
   */
  lemma MarkInOperation(op: string, query: string)
    requires '?' in op
    ensures |SplitUrl(op + "?" + query).0| < |op|
  {
    var url := op + "?" + query;
    var i := IndexOf(op, '?').value;
    assert url[i] == '?' && url[..i] == op[..i];
    assert IndexOf(url, '?') == Some(i);
  }

  /**
   * A query `operation` overrides the path operation in the rebuilt record
   * (the last one wins when the query repeats it).
   */
  lemma QueryOperationOverrides(op: string, query: string)
    ensures Get(DecodedRecord(op, query), "operation") ==
      if LastValue(Parse(query), "operation").Some? then LastValue(Parse(query), "operation") else Some(op)
  {
    var fromEntries := SetAll([], Parse(query));
    SetAllGet([("operation", op)], fromEntries, "operation");
    LastValueDistinct(fromEntries, "operation");
    SetAllGet([], Parse(query), "operation");
  }

  // ---------------------------------------------------------------------------
  // Registry operations

  /** The registry's operation names are non-empty and hold no `?`. */
  lemma KnownNames(op: string)
    requires Lookup(op).Known?
    ensures op != "" && '?' !in op
  {
  }

  /** After validation passes, the encoder's own unknown-operation branch cannot be reached. */
  lemma EncoderKeysAvailable(ext: Externals, e: Entries)
    requires Get(e, "operation").Some? && Validate(ext, e).0 == Pass
    ensures AllowedKeys(OperationOf(e), Validate(ext, e).1).Ok?
  {
    OperationDispatch(ext, e);
    if IsCustom(OperationOf(e)) {
      CustomIsAbsent(OperationOf(e));
    }
  }

  /** What survives the round trip of a property: its value, unless the name is ignored or the value empty. */
  function Kept(e: Entries, ignore: seq<string>, k: string): Option<string> {
    if k in ignore || Get(e, k) == Some("") then None else Get(e, k)
  }

  /** A successful encoding is the envelope built from the validated record. */
  lemma EncodeOk(ext: Externals, e: Entries)
    requires Get(e, "operation").Some? && Encode(ext, e).0.Ok?
    ensures Validate(ext, e).0 == Pass && Encode(ext, e).0 == BuildUrl(ext, Validate(ext, e).1)
  {
  }

  /** What a successful envelope is made of: the operation and the pairs of its allowed names. */
  lemma BuildUrlOk(ext: Externals, e: Entries)
    requires Get(e, "operation").Some? && BuildUrl(ext, e).Ok?
    ensures AllowedKeys(OperationOf(e), e).Ok?
    ensures var p := Payload(OperationOf(e), AllowedKeys(OperationOf(e), e).value, e);
      ext.bech32mEncode(Hrp, p).Some? && BuildUrl(ext, e).value == Scheme + ext.bech32mEncode(Hrp, p).value
  {
  }

  /** The same, for a registry operation: the pairs are those of the schema's names. */
  lemma EncodeKnown(ext: Externals, e: Entries)
    requires Get(e, "operation").Some? && Lookup(OperationOf(e)).Known? && Encode(ext, e).0.Ok?
    ensures Validate(ext, e).0 == Pass
    ensures var p := Payload(OperationOf(e), Lookup(OperationOf(e)).schema.Allowed(), Validate(ext, e).1);
      ext.bech32mEncode(Hrp, p).Some? && Encode(ext, e).0.value == Scheme + ext.bech32mEncode(Hrp, p).value
  {
    EncodeOk(ext, e);
    BuildUrlOk(ext, Validate(ext, e).1);
  }

  /**
   * The pairs a registry operation encodes: distinct names, `operation` first,
   * no ignored name, and every other name with the value the caller gave it,
   * unless that value is empty.
   */
  lemma KnownPairs(ext: Externals, e: Entries)
    requires DistinctKeys(e) && Get(e, "operation").Some? && Lookup(OperationOf(e)).Known?
    requires Validate(ext, e).0 == Pass
    ensures var s := Lookup(OperationOf(e)).schema;
      var ps := QueryPairs(s.Allowed(), Validate(ext, e).1);
      && DistinctKeys(ps)
      && ps != [] && ps[0] == ("operation", OperationOf(e))
      && (forall i :: 0 <= i < |ps| ==> ps[i].0 !in s.ignore)
      && (forall k :: Get(ps, k) == Kept(e, s.ignore, k))
  {
    var op := OperationOf(e);
    var s := Lookup(op).schema;
    var e1 := Validate(ext, e).1;
    var ps := QueryPairs(s.Allowed(), e1);
    LookupWellFormed(op);
    KnownNames(op);
    KnownValidate(ext, e);
    Disjoint(s, "operation");
    QueryPairsDistinct(s.Allowed(), e1);
    QueryPairsFrom(s.Allowed(), e1);
    assert s.Allowed()[0] == "operation";
    assert ps == PairOf(e1, "operation") + QueryPairs(s.Allowed()[1..], e1);
    assert PairOf(e1, "operation") == [("operation", op)];
    forall i | 0 <= i < |ps| ensures ps[i].0 !in s.ignore {
      Disjoint(s, ps[i].0);
    }
    AcceptedRecordIsClean(ext, op, s, e);
    StripIgnoredLookups(e, s.ignore);
    AcceptedExactly(ext, op, s, e);
    forall k ensures Get(ps, k) == Kept(e, s.ignore, k) {
      QueryPairsGet(s.Allowed(), e1, k);
      Disjoint(s, k);
    }
  }

  /**
   * Rebuilding a record from serialized pairs that start with the path
   * operation gives back exactly those pairs: the query `operation` overwrites
   * the equal path operation where it stands.
   */
  lemma DecodedRecordOfPairs(op: string, ps: Entries)
    requires DistinctKeys(ps) && ps != [] && ps[0] == ("operation", op)
    ensures DecodedRecord(op, Serialize(ps)) == ps
  {
    ParseSerialize(ps);
    assert [] + ps == ps;
    SetAllFresh([], ps);
    OverwriteFirst(("operation", op), ps);
  }

  /** Assigning, over a one-property record, pairs that start with that same property gives the pairs. */
  lemma OverwriteFirst(x: Entry, ps: Entries)
    requires DistinctKeys(ps) && ps != [] && ps[0] == x
    ensures SetAll([x], ps) == ps
  {
    assert SetKey([x], x.0, x.1) == [x];
    assert [x] + ps[1..] == ps;
    SetAllFresh([x], ps[1..]);
  }

  /** After the split, a registry operation's record loses its ignored names and is validated. */
  lemma DecodeRequestKnown(ext: Externals, op: string, s: Schema, query: string)
    requires Lookup(op) == Known(s)
    ensures Get(RemoveAll(DecodedRecord(op, query), s.ignore), "operation").Some?
    ensures DecodeRequest(ext, op, query) == Finish(ext, RemoveAll(DecodedRecord(op, query), s.ignore))
  {
    LookupWellFormed(op);
    Disjoint(s, "operation");
    assert "operation" in s.Allowed();
  }

  /** Deleting names no pair carries changes nothing. */
  lemma NothingIgnored(ps: Entries, ignore: seq<string>)
    requires forall i :: 0 <= i < |ps| ==> ps[i].0 !in ignore
    ensures RemoveAll(ps, ignore) == ps
  {
    forall k | k in ignore ensures Get(ps, k).None? {
    }
    RemoveAllAbsent(ps, ignore);
  }

  /** Decoding an encoded registry operation comes down to validating its pairs again. */
  lemma DecodeKnownEncoding(ext: Externals, e: Entries)
    requires Lawful(ext) && DistinctKeys(e) && Get(e, "operation").Some? && Lookup(OperationOf(e)).Known?
    requires Encode(ext, e).0.Ok?
    ensures Validate(ext, e).0 == Pass
    ensures var ps := QueryPairs(Lookup(OperationOf(e)).schema.Allowed(), Validate(ext, e).1);
      Get(ps, "operation").Some? && Decode(ext, Encode(ext, e).0.value) == Finish(ext, ps)
  {
    var op := OperationOf(e);
    var s := Lookup(op).schema;
    EncodeKnown(ext, e);
    KnownPairs(ext, e);
    KnownNames(op);
    var ps := QueryPairs(s.Allowed(), Validate(ext, e).1);
    var b := ext.bech32mEncode(Hrp, Payload(op, s.Allowed(), Validate(ext, e).1)).value;
    DecodeEnvelope(ext, op, Serialize(ps), b);
    DecodedRecordOfPairs(op, ps);
    DecodeRequestKnown(ext, op, s, Serialize(ps));
    NothingIgnored(ps, s.ignore);
  }

  /**
   * The pairs left of a record a schema accepts, carrying no ignored name and
   * every required one, pass the same schema again untouched.
   */
  lemma RevalidatePairs(ext: Externals, op: string, s: Schema, e: Entries, ps: Entries)
    requires WellFormed(s) && DistinctKeys(ps) && ValidateSchema(ext, op, s, e).0 == Pass
    requires forall p :: p in s.required ==> Get(e, p) != Some("")
    requires forall i :: 0 <= i < |ps| ==> ps[i].0 !in s.ignore
    requires forall k :: Get(ps, k) == Kept(e, s.ignore, k)
    ensures ValidateSchema(ext, op, s, ps) == (Pass, ps)
  {
    AcceptedExactly(ext, op, s, e);
    forall p | p in s.required ensures Get(ps, p).Some? {
      Disjoint(s, p);
    }
    forall i | 0 <= i < |ps| ensures EntryOutcome(ext, op, s, ps[i]) == Pass {
      PairsFrom(e, s.ignore, ps, i);
    }
    AcceptedExactly(ext, op, s, ps);
    StripIgnoredKeepsAll(ps, s.ignore);
  }

  /** A pair whose lookups follow `Kept` stands in the record it was taken from. */
  lemma PairsFrom(e: Entries, ignore: seq<string>, ps: Entries, i: nat)
    requires DistinctKeys(ps) && i < |ps|
    requires forall k :: Get(ps, k) == Kept(e, ignore, k)
    ensures ps[i] in e
  {
    GetAt(ps, i);
    assert Get(e, ps[i].0) == Some(ps[i].1);
  }

  /** With every required value non-empty, the re-validation of the pairs passes and changes nothing. */
  lemma KnownPairsAccepted(ext: Externals, e: Entries)
    requires DistinctKeys(e) && Get(e, "operation").Some? && Lookup(OperationOf(e)).Known?
    requires Validate(ext, e).0 == Pass
    requires forall p :: p in Lookup(OperationOf(e)).schema.required ==> Get(e, p) != Some("")
    ensures var ps := QueryPairs(Lookup(OperationOf(e)).schema.Allowed(), Validate(ext, e).1);
      Get(ps, "operation").Some? && Validate(ext, ps) == (Pass, ps)
  {
    var op := OperationOf(e);
    var s := Lookup(op).schema;
    var ps := QueryPairs(s.Allowed(), Validate(ext, e).1);
    KnownPairs(ext, e);
    KnownValidate(ext, e);
    assert Get(ps, "operation") == Some(op);
    KnownValidate(ext, ps);
    LookupWellFormed(op);
    RevalidatePairs(ext, op, s, e, ps);
  }

  /**
   * The round trip of a registry operation whose required values are not
   * empty: decoding gives back the encoded pairs, which hold every property
   * of the request except the ignored and the empty ones.
   */
  lemma KnownRoundTrip(ext: Externals, e: Entries, url: string)
    requires Lawful(ext) && DistinctKeys(e) && Get(e, "operation").Some? && Lookup(OperationOf(e)).Known?
    requires forall p :: p in Lookup(OperationOf(e)).schema.required ==> Get(e, p) != Some("")
    requires Encode(ext, e).0 == Ok(url)
    ensures Decode(ext, url) == Ok(QueryPairs(Lookup(OperationOf(e)).schema.Allowed(), Encode(ext, e).1))
    ensures forall k :: Get(Decode(ext, url).value, k) == Kept(e, Lookup(OperationOf(e)).schema.ignore, k)
  {
    DecodeKnownEncoding(ext, e);
    KnownPairsAccepted(ext, e);
    KnownPairs(ext, e);
  }

  /**
   * A request with no empty value decodes to itself without its ignored
   * names, as a dictionary.
   */
  lemma KnownRoundTripIgnored(ext: Externals, e: Entries, s: Schema, url: string)
    requires Lawful(ext) && DistinctKeys(e) && Get(e, "operation").Some? && Lookup(OperationOf(e)) == Known(s)
    requires forall k :: Get(e, k) != Some("")
    requires Encode(ext, e).0 == Ok(url)
    ensures Decode(ext, url).Ok? && ToMap(Decode(ext, url).value) == ToMap(RemoveAll(e, s.ignore))
  {
    KnownRoundTrip(ext, e, url);
    KeptMap(Decode(ext, url).value, e, s.ignore);
  }

  /** With no empty value, a record whose lookups follow `Kept` is the request without its ignored names. */
  lemma KeptMap(d: Entries, e: Entries, ignore: seq<string>)
    requires forall k :: Get(e, k) != Some("")
    requires forall k :: Get(d, k) == Kept(e, ignore, k)
    ensures ToMap(d) == ToMap(RemoveAll(e, ignore))
  {
    assert forall k :: Kept(e, ignore, k) == Get(RemoveAll(e, ignore), k);
    SameLookupsSameMap(d, RemoveAll(e, ignore));
  }

  /**
   * The tests' round trip: a request with no empty value and no ignored name
   * decodes to a record equal to it as a dictionary.
   */
  lemma KnownRoundTripEqual(ext: Externals, e: Entries, s: Schema, url: string)
    requires Lawful(ext) && DistinctKeys(e) && Get(e, "operation").Some? && Lookup(OperationOf(e)) == Known(s)
    requires forall k :: Get(e, k) != Some("")
    requires forall k :: k in s.ignore ==> Get(e, k).None?
    requires Encode(ext, e).0 == Ok(url)
    ensures Decode(ext, url).Ok? && ToMap(Decode(ext, url).value) == ToMap(e)
  {
    KnownRoundTripIgnored(ext, e, s, url);
    RemoveAllAbsent(e, s.ignore);
  }

  /**
   * An empty required value passes validation and is left out of the URL, so
   * the encoder's own output fails to decode with a missing parameter.
   */
  lemma EmptyRequiredBreaksRoundTrip(ext: Externals, e: Entries, p: string)
    requires Lawful(ext) && DistinctKeys(e) && Get(e, "operation").Some? && Lookup(OperationOf(e)).Known?
    requires p in Lookup(OperationOf(e)).schema.required && Get(e, p) == Some("")
    requires Encode(ext, e).0.Ok?
    ensures Decode(ext, Encode(ext, e).0.value).Err?
    ensures Decode(ext, Encode(ext, e).0.value).error.MissingParameter?
  {
    var op := OperationOf(e);
    var s := Lookup(op).schema;
    DecodeKnownEncoding(ext, e);
    KnownPairs(ext, e);
    LookupWellFormed(op);
    Disjoint(s, p);
    var ps := QueryPairs(s.Allowed(), Validate(ext, e).1);
    assert Get(ps, p).None?;
    KnownValidate(ext, ps);
    MissingParameterExactly(ext, op, s, ps);
  }

  // ---------------------------------------------------------------------------
  // Custom operations

  /**
   * For a `custom-` request the encoder's pairs are the record's own
   * properties in order, without `operation` and without empty values.
   */
  lemma {:induction false} CustomPairs(t: Entries, whole: Entries, x: string)
    requires forall i :: 0 <= i < |t| ==> Get(whole, t[i].0) == Some(t[i].1)
    ensures QueryPairs(Omit(KeysOf(t), x), whole) == DropEmpty(Remove(t, x))
  {
    if t != [] {
      var rest := t[1..];
      assert forall i :: 0 <= i < |rest| ==> rest[i] == t[i + 1];
      CustomPairs(rest, whole, x);
      var names := KeysOf(t);
      assert names[1..] == KeysOf(rest);
      var front := if t[0].0 == x then [] else [t[0].0];
      assert Omit(names, x) == front + Omit(KeysOf(rest), x);
      QueryPairsAppend(front, Omit(KeysOf(rest), x), whole);
      if t[0].0 != x {
        assert QueryPairs(front, whole) == PairOf(whole, t[0].0) + QueryPairs([], whole);
        var removed := [t[0]] + Remove(rest, x);
        assert removed[0] == t[0] && removed[1..] == Remove(rest, x);
      }
    }
  }

  /** What a `custom-` request is encoded as: the envelope of its non-empty properties. */
  lemma CustomEncoding(ext: Externals, e: Entries)
    requires DistinctKeys(e) && Get(e, "operation").Some? && IsCustom(OperationOf(e))
    requires Encode(ext, e).0.Ok?
    ensures var p := OperationOf(e) + "?" + Serialize(DropEmpty(Remove(e, "operation")));
      ext.bech32mEncode(Hrp, p).Some? && Encode(ext, e).0.value == Scheme + ext.bech32mEncode(Hrp, p).value
  {
    var op := OperationOf(e);
    OperationDispatch(ext, e);
    CustomIsAbsent(op);
    EncodeOk(ext, e);
    BuildUrlOk(ext, e);
    forall i | 0 <= i < |e| ensures Get(e, e[i].0) == Some(e[i].1) {
      GetAt(e, i);
    }
    CustomPairs(e, e, "operation");
  }

  /**
   * Rebuilding a record from serialized pairs without `operation` puts the path
   * operation first and the pairs after it.
   */
  lemma CustomDecodedRecord(op: string, ps: Entries)
    requires DistinctKeys(ps) && Get(ps, "operation").None?
    ensures DistinctKeys([("operation", op)] + ps)
    ensures DecodedRecord(op, Serialize(ps)) == [("operation", op)] + ps
  {
    ParseSerialize(ps);
    assert [] + ps == ps;
    SetAllFresh([], ps);
    DistinctCons(("operation", op), ps);
    SetAllFresh([("operation", op)], ps);
  }

  /** A `custom-` record passes validation as it is, so decoding returns it. */
  lemma CustomDecodeRequest(ext: Externals, op: string, ps: Entries)
    requires IsCustom(op) && DistinctKeys(ps) && Get(ps, "operation").None?
    ensures DecodeRequest(ext, op, Serialize(ps)) == Ok([("operation", op)] + ps)
  {
    CustomIsAbsent(op);
    CustomDecodedRecord(op, ps);
    var d := [("operation", op)] + ps;
    assert Get(d, "operation") == Some(op);
    OperationDispatch(ext, d);
  }

  /**
   * The round trip of a `custom-` request whose operation holds no `?`:
   * decoding gives the operation followed by every other non-empty property
   * in order, which equals the request without its empty values.
   */
  lemma CustomRoundTrip(ext: Externals, e: Entries)
    requires Lawful(ext) && DistinctKeys(e) && Get(e, "operation").Some?
    requires IsCustom(OperationOf(e)) && '?' !in OperationOf(e)
    requires Encode(ext, e).0.Ok?
    ensures Decode(ext, Encode(ext, e).0.value) ==
      Ok([("operation", OperationOf(e))] + DropEmpty(Remove(e, "operation")))
    ensures ToMap(Decode(ext, Encode(ext, e).0.value).value) == ToMap(DropEmpty(e))
  {
    var op := OperationOf(e);
    var ps := DropEmpty(Remove(e, "operation"));
    CustomEncoding(ext, e);
    var b := ext.bech32mEncode(Hrp, op + "?" + Serialize(ps)).value;
    DecodeEnvelope(ext, op, Serialize(ps), b);
    CustomDecodeRequest(ext, op, ps);
    CustomRecordMap(op, e);
  }

  /** As a dictionary, the decoded `custom-` record is the request without its empty values. */
  lemma CustomRecordMap(op: string, e: Entries)
    requires DistinctKeys(e) && Get(e, "operation") == Some(op) && op != ""
    ensures ToMap([("operation", op)] + DropEmpty(Remove(e, "operation"))) == ToMap(DropEmpty(e))
  {
    var d := [("operation", op)] + DropEmpty(Remove(e, "operation"));
    forall k ensures Get(d, k) == Get(DropEmpty(e), k) {
      GetAppend([("operation", op)], DropEmpty(Remove(e, "operation")), k);
    }
    SameLookupsSameMap(d, DropEmpty(e));
  }
}
