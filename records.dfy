/**
 * A parameter object (`CommonParameters`): string-valued own properties in
 * enumeration order. JavaScript objects never hold two properties of one name,
 * so the records the codec builds keep distinct keys; assignment updates a
 * property in place and appends a new one at the end.
 */
module Records {
  import opened Types

  type Entry = (string, string)
  type Entries = seq<Entry>

  ghost predicate DistinctKeys(e: Entries) {
    forall i, j :: 0 <= i < j < |e| ==> e[i].0 != e[j].0
  }

  /** `params[k]`: the value of the property named `k`, `None` when there is none. */
  function Get(e: Entries, k: string): (r: Option<string>)
    ensures r.None? <==> forall i :: 0 <= i < |e| ==> e[i].0 != k
    ensures r.Some? ==> exists i :: 0 <= i < |e| && e[i] == (k, r.value)
  {
    if e == [] then None
    else if e[0].0 == k then Some(e[0].1)
    else
      var r := Get(e[1..], k);
      assert r.Some? ==> exists i :: 1 <= i < |e| && e[i] == (k, r.value) by {
        if r.Some? {
          var i :| 0 <= i < |e[1..]| && e[1..][i] == (k, r.value);
          assert e[i + 1] == (k, r.value);
        }
      }
      r
  }

  /** In a record with distinct keys every entry is what `Get` finds under its key. */
  lemma {:induction false} GetAt(e: Entries, i: nat)
    requires DistinctKeys(e) && i < |e|
    ensures Get(e, e[i].0) == Some(e[i].1)
  {
    if i > 0 {
      assert e[0].0 != e[i].0;
      assert e[1..][i - 1] == e[i];
      GetAt(e[1..], i - 1);
    }
  }

  /** Lookup in a concatenation tries the left part first. */
  lemma {:induction false} GetAppend(a: Entries, b: Entries, k: string)
    ensures Get(a + b, k) == if Get(a, k).Some? then Get(a, k) else Get(b, k)
  {
    if a == [] {
      assert a + b == b;
    } else {
      assert (a + b)[1..] == a[1..] + b;
      GetAppend(a[1..], b, k);
    }
  }

  /** `Object.keys(params)`: the names in record order. */
  function KeysOf(e: Entries): (ks: seq<string>)
    ensures |ks| == |e| && forall i :: 0 <= i < |e| ==> ks[i] == e[i].0
  {
    seq(|e|, i requires 0 <= i < |e| => e[i].0)
  }

  /** A name is listed by `Object.keys` exactly when the record holds it, and never twice. */
  lemma KeysOfNames(e: Entries)
    ensures forall k :: k in KeysOf(e) <==> Get(e, k).Some?
    ensures DistinctKeys(e) ==> forall i, j :: 0 <= i < j < |KeysOf(e)| ==> KeysOf(e)[i] != KeysOf(e)[j]
  {
  }

  /** Lookup in a record that starts with `x`. */
  lemma GetCons(x: Entry, rest: Entries)
    ensures forall k :: Get([x] + rest, k) == if x.0 == k then Some(x.1) else Get(rest, k)
  {
    assert ([x] + rest)[0] == x && ([x] + rest)[1..] == rest;
  }

  /** The tail of a record with distinct keys has distinct keys and lacks the head's key. */
  lemma DistinctTail(e: Entries)
    requires DistinctKeys(e) && e != []
    ensures DistinctKeys(e[1..]) && Get(e[1..], e[0].0).None?
  {
    assert forall i :: 0 <= i < |e[1..]| ==> e[1..][i] == e[i + 1];
  }

  lemma ConsAppend(e: Entries, x: Entry)
    requires e != []
    ensures [e[0]] + (e[1..] + [x]) == e + [x]
  {
    assert e == [e[0]] + e[1..];
  }

  /** Putting a property with a new name in front keeps the keys distinct. */
  lemma DistinctCons(x: Entry, rest: Entries)
    requires DistinctKeys(rest) && Get(rest, x.0).None?
    ensures DistinctKeys([x] + rest)
  {
    var d := [x] + rest;
    forall i, j | 0 <= i < j < |d| ensures d[i].0 != d[j].0 {
      assert d[j] == rest[j - 1];
      if i > 0 {
        assert d[i] == rest[i - 1];
      }
    }
  }

  /**
   * `params[k] = v`: an existing property keeps its position and takes the new
   * value, a new one is appended.
   */
  function SetKey(e: Entries, k: string, v: string): Entries {
    if e == [] then [(k, v)]
    else if e[0].0 == k then [(k, v)] + e[1..]
    else [e[0]] + SetKey(e[1..], k, v)
  }

  /**
   * After `params[k] = v` the keys stay distinct, `k` maps to `v`, no other
   * name changes, and a new name goes at the end.
   */
  lemma {:induction false} SetKeyLookups(e: Entries, k: string, v: string)
    requires DistinctKeys(e)
    ensures DistinctKeys(SetKey(e, k, v))
    ensures Get(SetKey(e, k, v), k) == Some(v)
    ensures forall k' :: k' != k ==> Get(SetKey(e, k, v), k') == Get(e, k')
    ensures Get(e, k).None? ==> SetKey(e, k, v) == e + [(k, v)]
  {
    if e == [] {
      GetCons((k, v), []);
    } else {
      DistinctTail(e);
      var r := SetKey(e, k, v);
      if e[0].0 == k {
        GetCons((k, v), e[1..]);
        DistinctCons((k, v), e[1..]);
        forall k' | k' != k ensures Get(r, k') == Get(e, k') {
          assert Get(r, k') == Get(e[1..], k');
        }
      } else {
        SetKeyLookups(e[1..], k, v);
        var rest := SetKey(e[1..], k, v);
        assert r == [e[0]] + rest;
        GetCons(e[0], rest);
        DistinctCons(e[0], rest);
        forall k' | k' != k ensures Get(r, k') == Get(e, k') {
          if e[0].0 != k' {
            assert Get(r, k') == Get(rest, k') == Get(e[1..], k');
          }
        }
        if Get(e, k).None? {
          ConsAppend(e, (k, v));
        }
      }
    }
  }

  /** Assigning to an existing name changes that entry's value where it stands. */
  lemma {:induction false} SetKeyInPlace(e: Entries, k: string, v: string)
    requires DistinctKeys(e) && Get(e, k).Some?
    ensures |SetKey(e, k, v)| == |e|
    ensures forall i :: 0 <= i < |e| ==> SetKey(e, k, v)[i] == if e[i].0 == k then (k, v) else e[i]
  {
    DistinctTail(e);
    if e[0].0 != k {
      SetKeyInPlace(e[1..], k, v);
      var rest := SetKey(e[1..], k, v);
      var r := SetKey(e, k, v);
      assert r == [e[0]] + rest;
      forall i | 0 <= i < |e| ensures r[i] == if e[i].0 == k then (k, v) else e[i] {
        if i == 0 {
          assert r[0] == e[0];
        } else {
          assert r[i] == rest[i - 1] && e[i] == e[1..][i - 1];
        }
      }
    }
  }

  /**
   * Assigning `ps` one after another onto `base`, as `Object.fromEntries` and an
   * object spread do.
   */
  function SetAll(base: Entries, ps: Entries): (r: Entries)
    requires DistinctKeys(base)
    ensures DistinctKeys(r)
    decreases |ps|
  {
    if ps == [] then base
    else
      SetKeyLookups(base, ps[0].0, ps[0].1);
      SetAll(SetKey(base, ps[0].0, ps[0].1), ps[1..])
  }

  /** The value of the last entry named `k` in `ps`. */
  function LastValue(ps: Entries, k: string): Option<string> {
    if ps == [] then None
    else match LastValue(ps[1..], k)
      case Some(v) => Some(v)
      case None => if ps[0].0 == k then Some(ps[0].1) else None
  }

  /** When `ps` repeats a name, the last assignment wins. */
  lemma {:induction false} SetAllGet(base: Entries, ps: Entries, k: string)
    requires DistinctKeys(base)
    ensures Get(SetAll(base, ps), k) == if LastValue(ps, k).Some? then LastValue(ps, k) else Get(base, k)
    decreases |ps|
  {
    if ps != [] {
      SetKeyLookups(base, ps[0].0, ps[0].1);
      SetAllGet(SetKey(base, ps[0].0, ps[0].1), ps[1..], k);
    }
  }

  /** Without repeated names, the last entry named `k` is the only one. */
  lemma {:induction false} LastValueDistinct(e: Entries, k: string)
    requires DistinctKeys(e)
    ensures LastValue(e, k) == Get(e, k)
  {
    if e != [] {
      LastValueDistinct(e[1..], k);
      if e[0].0 == k {
        assert Get(e[1..], k).None?;
      }
    }
  }

  /** Assigning names the record does not have yet appends them in order. */
  lemma {:induction false} SetAllFresh(base: Entries, ps: Entries)
    requires DistinctKeys(base + ps)
    ensures DistinctKeys(base) && SetAll(base, ps) == base + ps
    decreases |ps|
  {
    assert DistinctKeys(base) by {
      forall i, j | 0 <= i < j < |base| ensures base[i].0 != base[j].0 {
        assert (base + ps)[i] == base[i] && (base + ps)[j] == base[j];
      }
    }
    if ps != [] {
      var p := ps[0];
      assert Get(base, p.0).None? by {
        forall i | 0 <= i < |base| ensures base[i].0 != p.0 {
          assert (base + ps)[i] == base[i] && (base + ps)[|base|] == p;
        }
      }
      SetKeyLookups(base, p.0, p.1);
      assert (base + [p]) + ps[1..] == base + ps;
      SetAllFresh(base + [p], ps[1..]);
    }
  }

  /** Leaving one entry out of a distinct-key record keeps the keys distinct. */
  lemma DistinctDrop(a: Entries, x: Entry, b: Entries)
    requires DistinctKeys(a + [x] + b)
    ensures DistinctKeys(a + b)
  {
    var whole := a + [x] + b;
    forall i, j | 0 <= i < j < |a + b| ensures (a + b)[i].0 != (a + b)[j].0 {
      var i' := if i < |a| then i else i + 1;
      var j' := if j < |a| then j else j + 1;
      assert (a + b)[i] == whole[i'] && (a + b)[j] == whole[j'];
    }
  }

  /** `delete params[k]`. */
  function Remove(e: Entries, k: string): (r: Entries)
    ensures forall i :: 0 <= i < |r| ==> r[i] in e
    ensures Get(r, k).None?
    ensures forall k' :: k' != k ==> Get(r, k') == Get(e, k')
    ensures DistinctKeys(e) ==> DistinctKeys(r)
  {
    if e == [] then []
    else if e[0].0 == k then Remove(e[1..], k)
    else
      var rest := Remove(e[1..], k);
      assert forall i :: 0 <= i < |rest| ==> rest[i] in e;
      assert DistinctKeys(e) ==> forall i :: 0 <= i < |rest| ==> rest[i].0 != e[0].0;
      [e[0]] + rest
  }

  /** Deleting a name the record does not have changes nothing. */
  lemma {:induction false} RemoveAbsent(e: Entries, k: string)
    requires Get(e, k).None?
    ensures Remove(e, k) == e
  {
    if e != [] {
      RemoveAbsent(e[1..], k);
    }
  }

  /** Deleting the name of entry `i` of a distinct-key record removes that entry and only it. */
  lemma {:induction false} RemoveAt(e: Entries, i: nat)
    requires DistinctKeys(e) && i < |e|
    ensures Remove(e, e[i].0) == e[..i] + e[i + 1..]
  {
    if i == 0 {
      assert Get(e[1..], e[0].0).None?;
      RemoveAbsent(e[1..], e[0].0);
    } else {
      assert e[1..][i - 1] == e[i];
      RemoveAt(e[1..], i - 1);
      assert e[..i] + e[i + 1..] == [e[0]] + (e[1..][..i - 1] + e[1..][i..]);
    }
  }

  /** Deleting the property between `a` and `b` leaves `a` followed by `b`. */
  lemma RemoveBetween(a: Entries, x: Entry, b: Entries)
    requires DistinctKeys(a + [x] + b)
    ensures Remove(a + [x] + b, x.0) == a + b
  {
    var e := a + [x] + b;
    RemoveAt(e, |a|);
    assert e[..|a|] == a && e[|a| + 1..] == b;
  }

  /** Deleting every name of `ks` in turn. */
  function RemoveAll(e: Entries, ks: seq<string>): (r: Entries)
    ensures forall k :: k in ks ==> Get(r, k).None?
    ensures forall k :: k !in ks ==> Get(r, k) == Get(e, k)
    ensures DistinctKeys(e) ==> DistinctKeys(r)
  {
    if ks == [] then e else Remove(RemoveAll(e, ks[..|ks| - 1]), ks[|ks| - 1])
  }

  /** Deleting names the record does not have changes nothing. */
  lemma {:induction false} RemoveAllAbsent(e: Entries, ks: seq<string>)
    requires forall k :: k in ks ==> Get(e, k).None?
    ensures RemoveAll(e, ks) == e
  {
    if ks != [] {
      RemoveAllAbsent(e, ks[..|ks| - 1]);
      RemoveAbsent(e, ks[|ks| - 1]);
    }
  }

  /** The record without its empty-valued properties. */
  function DropEmpty(e: Entries): (r: Entries)
    ensures forall i :: 0 <= i < |r| ==> r[i] in e && r[i].1 != ""
    ensures DistinctKeys(e) ==> DistinctKeys(r)
    ensures DistinctKeys(e) ==> forall k :: Get(r, k) == if Get(e, k) != Some("") then Get(e, k) else None
  {
    if e == [] then []
    else
      var rest := DropEmpty(e[1..]);
      assert DistinctKeys(e) ==> Get(e[1..], e[0].0).None? && Get(rest, e[0].0).None?;
      if e[0].1 == "" then rest else [e[0]] + rest
  }

  /**
   * The record without its ignored properties: a property goes when its name is
   * in `ignore` and its value is not empty.
   */
  function StripIgnored(e: Entries, ignore: seq<string>): Entries {
    if e == [] then []
    else (if e[0].1 != "" && e[0].0 in ignore then [] else [e[0]]) + StripIgnored(e[1..], ignore)
  }

  /**
   * Stripping keeps only entries of the record, keeps keys distinct, leaves
   * every name outside `ignore` as it was, and leaves a name in `ignore` only
   * when its value is empty.
   */
  lemma {:induction false} StripIgnoredLookups(e: Entries, ignore: seq<string>)
    ensures forall i :: 0 <= i < |StripIgnored(e, ignore)| ==> StripIgnored(e, ignore)[i] in e
    ensures DistinctKeys(e) ==> DistinctKeys(StripIgnored(e, ignore))
    ensures forall k :: k !in ignore ==> Get(StripIgnored(e, ignore), k) == Get(e, k)
    ensures DistinctKeys(e) ==> forall k :: k in ignore ==>
      Get(StripIgnored(e, ignore), k) == if Get(e, k) == Some("") then Get(e, k) else None
  {
    if e != [] {
      StripIgnoredLookups(e[1..], ignore);
      var rest := StripIgnored(e[1..], ignore);
      assert forall i :: 0 <= i < |rest| ==> rest[i] in e;
      assert DistinctKeys(e) ==> Get(e[1..], e[0].0).None? && Get(rest, e[0].0).None?;
      if !(e[0].1 != "" && e[0].0 in ignore) {
        var r := [e[0]] + rest;
        assert r[0] == e[0] && r[1..] == rest;
      } else {
        assert StripIgnored(e, ignore) == rest;
      }
    }
  }

  /** Stripping a record none of whose names is ignored changes nothing. */
  lemma {:induction false} StripIgnoredKeepsAll(e: Entries, ignore: seq<string>)
    requires forall i :: 0 <= i < |e| ==> e[i].0 !in ignore
    ensures StripIgnored(e, ignore) == e
  {
    if e != [] {
      StripIgnoredKeepsAll(e[1..], ignore);
      assert [e[0]] + e[1..] == e;
    }
  }

  /** The record as a dictionary: what `toEqual` compares, ignoring property order. */
  function ToMap(e: Entries): (m: map<string, string>)
    ensures forall k :: k in m <==> Get(e, k).Some?
    ensures forall k :: k in m ==> Get(e, k) == Some(m[k])
  {
    if e == [] then map[] else ToMap(e[1..])[e[0].0 := e[0].1]
  }

  /** Records that agree on every lookup are equal as dictionaries. */
  lemma SameLookupsSameMap(a: Entries, b: Entries)
    requires forall k :: Get(a, k) == Get(b, k)
    ensures ToMap(a) == ToMap(b)
  {
    var ma, mb := ToMap(a), ToMap(b);
    assert forall k :: k in ma <==> k in mb;
    assert forall k :: k in ma ==> ma[k] == mb[k] by {
      forall k | k in ma ensures ma[k] == mb[k] {
        assert Get(a, k) == Some(ma[k]) && Get(b, k) == Some(mb[k]);
      }
    }
  }

  /** A parameter object that the validator edits in place. */
  class Params {
    var entries: Entries

    ghost predicate Valid()
      reads this
    {
      DistinctKeys(entries)
    }

    constructor (init: Entries)
      requires DistinctKeys(init)
      ensures Valid() && entries == init
    {
      entries := init;
    }

    /** `params[k]`. */
    function Value(k: string): Option<string>
      reads this
    {
      Get(entries, k)
    }

    /** `delete params[k]`: only that property goes, the others keep their order. */
    method Delete(k: string)
      requires Valid()
      modifies this
      ensures Valid()
      ensures entries == Remove(old(entries), k)
    {
      entries := Remove(entries, k);
    }
  }
}
