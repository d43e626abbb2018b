/**
 * `encodeStacksPayURL` and `decodeStacksPayURL`. A request is validated,
 * written as `operation?name=value&...` and wrapped as
 * `web+stx:<bech32m of that text>`; decoding unwraps, splits at the first `?`,
 * rebuilds the record with the path operation first, deletes the operation's
 * ignored names and validates the result.
 */
module Codec {
  import opened Types
  import opened Strings
  import opened Records
  import opened FormEncoding
  import opened Utils
  import opened Registry
  import opened Validation

  /** The URL scheme of a Stacks Pay request. */
  const Scheme: string := "web+stx:"

  // ---------------------------------------------------------------------------
  // Encoding

  /** The pair the encoder appends for `k`: only when the value is present and not empty. */
  function PairOf(e: Entries, k: string): Entries {
    match Get(e, k)
    case Some(v) => if v != "" then [(k, v)] else []
    case None => []
  }

  /** The pairs appended for the names `keys`, in that order. */
  function QueryPairs(keys: seq<string>, e: Entries): Entries {
    if keys == [] then [] else PairOf(e, keys[0]) + QueryPairs(keys[1..], e)
  }

  lemma {:induction false} QueryPairsAppend(a: seq<string>, b: seq<string>, e: Entries)
    ensures QueryPairs(a + b, e) == QueryPairs(a, e) + QueryPairs(b, e)
  {
    if a == [] {
      assert a + b == b;
    } else {
      assert (a + b)[0] == a[0] && (a + b)[1..] == a[1..] + b;
      QueryPairsAppend(a[1..], b, e);
    }
  }

  /** Every pair the encoder appends is named in `keys` and carries that name's non-empty value. */
  lemma {:induction false} QueryPairsFrom(keys: seq<string>, e: Entries)
    ensures forall i :: 0 <= i < |QueryPairs(keys, e)| ==>
      QueryPairs(keys, e)[i].0 in keys && QueryPairs(keys, e)[i].1 != "" &&
      Get(e, QueryPairs(keys, e)[i].0) == Some(QueryPairs(keys, e)[i].1)
  {
    if keys != [] {
      QueryPairsFrom(keys[1..], e);
      var front := PairOf(e, keys[0]);
      var tail := QueryPairs(keys[1..], e);
      var ps := front + tail;
      forall i | 0 <= i < |ps| ensures ps[i].0 in keys && ps[i].1 != "" && Get(e, ps[i].0) == Some(ps[i].1) {
        if i >= |front| {
          assert ps[i] == tail[i - |front|];
          assert ps[i].0 in keys[1..];
        }
      }
    }
  }

  lemma NoDuplicatesTail(keys: seq<string>)
    requires NoDuplicates(keys) && keys != []
    ensures NoDuplicates(keys[1..]) && keys[0] !in keys[1..]
  {
    var rest := keys[1..];
    forall i, j | 0 <= i < j < |rest| ensures rest[i] != rest[j] {
      assert rest[i] == keys[i + 1] && rest[j] == keys[j + 1];
    }
    forall i | 0 <= i < |rest| ensures rest[i] != keys[0] {
      assert rest[i] == keys[i + 1];
    }
  }

  /** Over names without repeats, the pairs have distinct names. */
  lemma {:induction false} QueryPairsDistinct(keys: seq<string>, e: Entries)
    requires NoDuplicates(keys)
    ensures DistinctKeys(QueryPairs(keys, e))
  {
    if keys != [] {
      NoDuplicatesTail(keys);
      QueryPairsDistinct(keys[1..], e);
      QueryPairsFrom(keys[1..], e);
      var front := PairOf(e, keys[0]);
      var tail := QueryPairs(keys[1..], e);
      var ps := front + tail;
      forall i, j | 0 <= i < j < |ps| ensures ps[i].0 != ps[j].0 {
        assert ps[j] == tail[j - |front|];
        if i >= |front| {
          assert ps[i] == tail[i - |front|];
        }
      }
    }
  }

  /**
   * Over names without repeats, looking a name up in the pairs finds its value
   * exactly when the name is listed and its value is present and not empty.
   */
  lemma {:induction false} QueryPairsGet(keys: seq<string>, e: Entries, k: string)
    requires NoDuplicates(keys)
    ensures Get(QueryPairs(keys, e), k) ==
      (if k in keys && Get(e, k).Some? && Get(e, k) != Some("") then Get(e, k) else None)
  {
    if keys != [] {
      NoDuplicatesTail(keys);
      QueryPairsGet(keys[1..], e, k);
      GetAppend(PairOf(e, keys[0]), QueryPairs(keys[1..], e), k);
      assert k in keys <==> k == keys[0] || k in keys[1..];
    }
  }

  /** `names.filter((k) => k !== x)`. */
  function Omit(names: seq<string>, x: string): (r: seq<string>)
    ensures forall k :: k in r <==> k in names && k != x
  {
    if names == [] then []
    else
      var rest := Omit(names[1..], x);
      assert forall k :: k in names <==> k == names[0] || k in names[1..];
      (if names[0] == x then [] else [names[0]]) + rest
  }

  /**
   * `allowedParams`: the schema's required and optional names for a registry
   * operation, every other name of the record for a `custom-` one.
   */
  function AllowedKeys(op: string, e: Entries): Result<seq<string>> {
    match Lookup(op)
    case Known(s) => Ok(s.Allowed())
    case Inherited => Err(NotIterable)
    case Absent => if IsCustom(op) then Ok(Omit(KeysOf(e), "operation")) else Err(UnknownOperation)
  }

  /** The text that is bech32m-encoded: `${operation}?${queryParams}`. */
  function Payload(op: string, keys: seq<string>, e: Entries): string {
    op + "?" + Serialize(QueryPairs(keys, e))
  }

  /**
   * What follows a successful validation: the allowed names, the pairs, and
   * the envelope `web+stx:<bech32m of op?query>`.
   */
  function BuildUrl(ext: Externals, e: Entries): (r: Result<string>)
    requires Get(e, "operation").Some?
    ensures r.Ok? ==> StartsWith(r.value, Scheme)
  {
    var op := Get(e, "operation").value;
    match AllowedKeys(op, e)
    case Err(x) => Err(x)
    case Ok(keys) =>
      match Bech32mEncode(ext, Payload(op, keys, e))
      case Err(x) => Err(x)
      case Ok(b) =>
        assert (Scheme + b)[..|Scheme|] == Scheme;
        Ok(Scheme + b)
  }

  /**
   * `encodeStacksPayURL(params)`: the URL or the error, and the record as
   * validation leaves it (the caller's object is edited in place).
   */
  function Encode(ext: Externals, e: Entries): (r: (Result<string>, Entries))
    requires Get(e, "operation").Some?
    ensures r.1 == Validate(ext, e).1
    ensures r.0.Ok? ==> Validate(ext, e).0 == Pass && StartsWith(r.0.value, Scheme)
  {
    var v := Validate(ext, e);
    if v.0.Fail? then (Err(v.0.error), v.1) else (BuildUrl(ext, v.1), v.1)
  }

  // ---------------------------------------------------------------------------
  // Decoding

  /** Splits at the first `?`: the operation, and the query (empty when there is no `?`). */
  function SplitUrl(url: string): (r: (string, string))
    ensures '?' !in r.0
    ensures '?' in url ==> url == r.0 + "?" + r.1
    ensures '?' !in url ==> r == (url, "")
  {
    match IndexOf(url, '?')
    case Some(i) =>
      assert url == url[..i] + [url[i]] + url[i + 1..];
      (url[..i], url[i + 1..])
    case None => (url, "")
  }

  /**
   * `{ operation, ...Object.fromEntries(new URLSearchParams(query).entries()) }`:
   * the path operation first, then every query name once with its last value;
   * a query `operation` overwrites the path operation where it stands.
   */
  function DecodedRecord(op: string, query: string): (e: Entries)
    ensures DistinctKeys(e) && Get(e, "operation").Some?
  {
    var fromEntries := SetAll([], Parse(query));
    SetAllGet([("operation", op)], fromEntries, "operation");
    SetAll([("operation", op)], fromEntries)
  }

  /** The final `validateParameters(params); return params`. */
  function Finish(ext: Externals, e: Entries): Result<Entries>
    requires Get(e, "operation").Some?
  {
    var v := Validate(ext, e);
    if v.0.Fail? then Err(v.0.error) else Ok(v.1)
  }

  /**
   * Everything after the split: rebuild the record, delete the ignored names
   * of the path operation, validate. An operation inherited from
   * `Object.prototype` has no `ignore` list to iterate.
   */
  function DecodeRequest(ext: Externals, op: string, query: string): (r: Result<Entries>)
    ensures r.Ok? ==> DistinctKeys(r.value) && Get(r.value, "operation").Some?
  {
    var e := DecodedRecord(op, query);
    match Lookup(op)
    case Inherited => Err(NotIterable)
    case Absent => Finish(ext, e)
    case Known(s) =>
      LookupWellFormed(op);
      Disjoint(s, "operation");
      assert "operation" in s.Allowed();
      Finish(ext, RemoveAll(e, s.ignore))
  }

  /** `decodeStacksPayURL(fullURL)`. */
  function Decode(ext: Externals, full: string): (r: Result<Entries>)
    ensures r.Ok? ==> DistinctKeys(r.value) && Get(r.value, "operation").Some?
  {
    if !StartsWith(full, Scheme) then Err(InvalidProtocol)
    else match Bech32mDecode(ext, ReplaceFirst(full, Scheme, ""))
      case Err(x) => Err(x)
      case Ok(url) => DecodeRequest(ext, SplitUrl(url).0, SplitUrl(url).1)
  }

  // ---------------------------------------------------------------------------
  // The two entry points, over the mutable parameter object

  /** The `for (const key of allowedParams)` loop: appends each present, non-empty value. */
  method BuildQuery(params: Params, keys: seq<string>) returns (query: SearchParams)
    ensures fresh(query)
    ensures query.pairs == QueryPairs(keys, params.entries)
  {
    query := new SearchParams();
    var i := 0;
    while i < |keys|
      invariant 0 <= i <= |keys|
      invariant query.pairs == QueryPairs(keys[..i], params.entries)
    {
      var value := params.Value(keys[i]);
      if value.Some? && value.value != "" {
        query.Append(keys[i], value.value);
      }
      assert keys[..i + 1] == keys[..i] + [keys[i]];
      QueryPairsAppend(keys[..i], [keys[i]], params.entries);
      assert QueryPairs([keys[i]], params.entries) == PairOf(params.entries, keys[i]) + QueryPairs([], params.entries);
      i := i + 1;
    }
    assert keys[..i] == keys;
  }

  /** `encodeStacksPayURL(params)`: validates `params` in place, then builds the URL. */
  method EncodeStacksPayUrl(ext: Externals, params: Params) returns (r: Result<string>)
    requires params.Valid() && params.Value("operation").Some?
    modifies params
    ensures params.Valid()
    ensures (r, params.entries) == Encode(ext, old(params.entries))
  {
    var outcome := ValidateParameters(ext, params);
    if outcome.Fail? {
      return Err(outcome.error);
    }
    var op := params.Value("operation").value;
    var found := Lookup(op);
    var keys: seq<string>;
    if found.Known? {
      keys := found.schema.Allowed();
    } else if found.Inherited? {
      return Err(NotIterable);
    } else if IsCustom(op) {
      keys := Omit(KeysOf(params.entries), "operation");
    } else {
      return Err(UnknownOperation);
    }
    assert AllowedKeys(op, params.entries) == Ok(keys);
    var query := BuildQuery(params, keys);
    var url := op + "?" + query.ToString();
    var encoded := Bech32mEncode(ext, url);
    if encoded.Err? {
      return Err(encoded.error);
    }
    return Ok(Scheme + encoded.value);
  }

  /** The `for (const param of opConfig.ignore)` loop: deletes each ignored name in turn. */
  method DeleteIgnored(params: Params, ignore: seq<string>)
    requires params.Valid()
    modifies params
    ensures params.Valid()
    ensures params.entries == RemoveAll(old(params.entries), ignore)
  {
    ghost var start := params.entries;
    var j := 0;
    while j < |ignore|
      invariant 0 <= j <= |ignore|
      invariant params.Valid()
      invariant params.entries == RemoveAll(start, ignore[..j])
    {
      assert ignore[..j + 1][..j] == ignore[..j] && ignore[..j + 1][j] == ignore[j];
      params.Delete(ignore[j]);
      j := j + 1;
    }
    assert ignore[..j] == ignore;
  }

  /** The part of `decodeStacksPayURL` after the split, on a fresh parameter object. */
  method DecodeParams(ext: Externals, op: string, query: string) returns (r: Result<Entries>)
    ensures r == DecodeRequest(ext, op, query)
  {
    var params := new Params(DecodedRecord(op, query));
    var found := Lookup(op);
    if found.Inherited? {
      return Err(NotIterable);
    }
    if found.Known? {
      LookupWellFormed(op);
      Disjoint(found.schema, "operation");
      assert "operation" in found.schema.Allowed();
      DeleteIgnored(params, found.schema.ignore);
    }
    var outcome := ValidateParameters(ext, params);
    if outcome.Fail? {
      return Err(outcome.error);
    }
    return Ok(params.entries);
  }

  /** `decodeStacksPayURL(fullURL)`. */
  method DecodeStacksPayUrl(ext: Externals, full: string) returns (r: Result<Entries>)
    ensures r == Decode(ext, full)
  {
    if !StartsWith(full, Scheme) {
      return Err(InvalidProtocol);
    }
    var decoded := Bech32mDecode(ext, ReplaceFirst(full, Scheme, ""));
    if decoded.Err? {
      return Err(decoded.error);
    }
    var url := decoded.value;
    var op: string;
    var query: string;
    var mark := IndexOf(url, '?');
    if mark.Some? {
      op := url[..mark.value];
      query := url[mark.value + 1..];
    } else {
      op := url;
      query := "";
    }
    r := DecodeParams(ext, op, query);
  }
}
