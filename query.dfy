/**
 * `update_url_qs` and the `UTM` helpers (apps/utils.py:45-105), at the level
 * of the parsed URL: the query is the insertion-ordered dictionary that
 * `parse_qs` builds (a key with its list of values), `dict.update` merges the
 * new parameters into it, and the other URL components pass through.
 */
module QueryString {
  import opened Wrappers

  /** One dictionary entry: a parameter name and its values. */
  datatype Param = Param(key: string, values: seq<string>)

  /** An insertion-ordered dictionary from name to values. */
  type Query = seq<Param>

  /** The six components of `urlparse`, with the query already parsed. */
  datatype ParsedUrl = ParsedUrl(scheme: string, netloc: string, path: string,
                                 params: string, query: Query, fragment: string)

  /** Dictionary keys are distinct. */
  ghost predicate UniqueKeys(q: Query)
  {
    forall i, j :: 0 <= i < j < |q| ==> q[i].key != q[j].key
  }

  /** The keys, in order. */
  function Keys(q: Query): seq<string>
  {
    seq(|q|, i requires 0 <= i < |q| => q[i].key)
  }

  /** The position of `key`, searching from the end. */
  function IndexOf(q: Query, key: string): (r: Option<nat>)
    ensures r.None? ==> forall i :: 0 <= i < |q| ==> q[i].key != key
    ensures r.Some? ==> r.value < |q| && q[r.value].key == key
  {
    if q == [] then None
    else if q[|q| - 1].key == key then Some(|q| - 1)
    else IndexOf(q[..|q| - 1], key)
  }

  /** `d.get(key)`. */
  function Lookup(q: Query, key: string): (r: Option<seq<string>>)
  {
    match IndexOf(q, key)
    case None => None
    case Some(i) => Some(q[i].values)
  }

  lemma KeysMember(q: Query, key: string)
    ensures key in Keys(q) <==> IndexOf(q, key).Some?
  {
    if IndexOf(q, key).Some? {
      assert Keys(q)[IndexOf(q, key).value] == key;
    }
  }

  /** With distinct keys, the entry at position `i` is what a lookup of its key finds. */
  lemma LookupAt(q: Query, i: nat)
    requires UniqueKeys(q) && i < |q|
    ensures Lookup(q, q[i].key) == Some(q[i].values)
  {
  }

  /** `d[p.key] = p.values` on an ordered dictionary: an existing key keeps its place, a new one goes last. */
  function Assign(q: Query, p: Param): (r: Query)
    ensures |r| == |q| + (if p.key in Keys(q) then 0 else 1)
    ensures forall i :: 0 <= i < |q| ==> r[i] == (if q[i].key == p.key then p else q[i])
    ensures p.key !in Keys(q) ==> r[|q|] == p
  {
    if p.key in Keys(q) then seq(|q|, i requires 0 <= i < |q| => if q[i].key == p.key then p else q[i])
    else
      assert forall i :: 0 <= i < |q| ==> Keys(q)[i] == q[i].key;
      q + [p]
  }

  lemma AssignUnique(q: Query, p: Param)
    requires UniqueKeys(q)
    ensures UniqueKeys(Assign(q, p))
  {
    KeysMember(q, p.key);
  }

  /** `d.update(extra)`: each new entry assigned in turn, in the order of `extra`. */
  function Update(q: Query, extra: Query): (r: Query)
    requires UniqueKeys(q)
    ensures UniqueKeys(r)
  {
    if extra == [] then q
    else
      var r := Assign(Update(q, extra[..|extra| - 1]), extra[|extra| - 1]);
      AssignUnique(Update(q, extra[..|extra| - 1]), extra[|extra| - 1]);
      r
  }

  /** The entries of `extra` whose key `q` does not have, in their order. */
  function Appended(q: Query, extra: Query): (r: Query)
    ensures |r| <= |extra|
  {
    if extra == [] then []
    else Appended(q, extra[..|extra| - 1]) + (if extra[|extra| - 1].key in Keys(q) then [] else [extra[|extra| - 1]])
  }

  /**
   * Reference description of the merge: `q` with the values of the keys that
   * `extra` also has replaced in place, followed by the entries of `extra` whose
   * keys are new, in the order of `extra`.
   */
  function Merged(q: Query, extra: Query): Query
  {
    seq(|q|, i requires 0 <= i < |q| => Param(q[i].key, Lookup(extra, q[i].key).GetOr(q[i].values)))
    + Appended(q, extra)
  }

  /** Every appended entry comes from `extra` and has a key `q` lacks; and each such entry of `extra` is appended. */
  lemma {:induction false} AppendedMembers(q: Query, extra: Query)
    ensures forall k :: 0 <= k < |Appended(q, extra)| ==>
      Appended(q, extra)[k] in extra && Appended(q, extra)[k].key !in Keys(q)
    ensures forall j :: 0 <= j < |extra| && extra[j].key !in Keys(q) ==> extra[j] in Appended(q, extra)
  {
    if extra != [] {
      var init := extra[..|extra| - 1];
      AppendedMembers(q, init);
      forall j | 0 <= j < |init| ensures init[j] == extra[j] { }
    }
  }

  /** Merging one more entry whose key `q` already has: it overrides in place. */
  lemma MergedSnocOld(q: Query, init: Query, p: Param)
    requires UniqueKeys(init + [p]) && p.key in Keys(q)
    ensures Assign(Merged(q, init), p) == Merged(q, init + [p])
  {
    var extra := init + [p];
    assert extra[..|extra| - 1] == init;
    var m := Merged(q, init);
    var a := Appended(q, init);
    assert Appended(q, extra) == a;
    AppendedMembers(q, init);
    assert p.key in Keys(m) by { KeysMember(q, p.key); assert Keys(m)[IndexOf(q, p.key).value] == p.key; }
    var r := Assign(m, p);
    assert |r| == |Merged(q, extra)|;
    forall i | 0 <= i < |r| ensures r[i] == Merged(q, extra)[i] {
      if i < |q| {
        LookupSnoc(init, p, q[i].key);
      } else {
        assert m[i] == a[i - |q|];
        assert m[i].key != p.key;
      }
    }
  }

  /** Looking up in `init + [p]`. */
  lemma LookupSnoc(init: Query, p: Param, key: string)
    ensures Lookup(init + [p], key) == if key == p.key then Some(p.values) else Lookup(init, key)
  {
    assert (init + [p])[..|init|] == init;
  }

  /** Merging one more entry with a new key: it is appended. */
  lemma MergedSnocNew(q: Query, init: Query, p: Param)
    requires UniqueKeys(init + [p]) && p.key !in Keys(q)
    ensures Assign(Merged(q, init), p) == Merged(q, init + [p])
  {
    var extra := init + [p];
    assert extra[..|extra| - 1] == init;
    var m := Merged(q, init);
    var a := Appended(q, init);
    AppendedMembers(q, init);
    forall k | 0 <= k < |m| ensures Keys(m)[k] != p.key {
      if k < |q| {
        assert Keys(q)[k] == q[k].key;
      } else {
        assert m[k] == a[k - |q|];
        var j :| 0 <= j < |init| && init[j] == a[k - |q|];
        assert extra[j] == init[j] && extra[|init|] == p;
      }
    }
    forall i | 0 <= i < |q| ensures Lookup(extra, q[i].key) == Lookup(init, q[i].key) {
      LookupSnoc(init, p, q[i].key);
      assert Keys(q)[i] == q[i].key;
    }
  }

  /** `dict.update` is the reference merge: overridden keys keep their place and new keys are appended in order. */
  lemma {:induction false} UpdateIsMerged(q: Query, extra: Query)
    requires UniqueKeys(q) && UniqueKeys(extra)
    ensures Update(q, extra) == Merged(q, extra)
  {
    if extra == [] {
      assert Merged(q, extra) == q;
    } else {
      var init, p := extra[..|extra| - 1], extra[|extra| - 1];
      assert init + [p] == extra;
      UpdateIsMerged(q, init);
      if p.key in Keys(q) {
        MergedSnocOld(q, init, p);
      } else {
        MergedSnocNew(q, init, p);
      }
    }
  }

  /**
   * After `d.update(extra)` every key of `extra` carries exactly the new values
   * and every other key keeps what `d` had for it (no value, if it had none).
   */
  lemma UpdateLookup(q: Query, extra: Query, key: string)
    requires UniqueKeys(q) && UniqueKeys(extra)
    ensures Lookup(Update(q, extra), key) == if key in Keys(extra) then Lookup(extra, key) else Lookup(q, key)
  {
    UpdateIsMerged(q, extra);
    KeysMember(q, key);
    KeysMember(extra, key);
    if key in Keys(q) {
      LookupMergedOld(q, extra, IndexOf(q, key).value);
    } else if key in Keys(extra) {
      LookupMergedNew(q, extra, IndexOf(extra, key).value);
    } else {
      LookupMergedAbsent(q, extra, key);
    }
  }

  lemma LookupMergedOld(q: Query, extra: Query, i: nat)
    requires UniqueKeys(q) && UniqueKeys(extra) && i < |q|
    ensures Lookup(Merged(q, extra), q[i].key) == Some(Lookup(extra, q[i].key).GetOr(q[i].values))
  {
    UpdateIsMerged(q, extra);
    var r := Merged(q, extra);
    assert r[i].key == q[i].key;
    LookupAt(r, i);
  }

  lemma LookupMergedNew(q: Query, extra: Query, j: nat)
    requires UniqueKeys(q) && UniqueKeys(extra) && j < |extra| && extra[j].key !in Keys(q)
    ensures Lookup(Merged(q, extra), extra[j].key) == Some(extra[j].values)
  {
    UpdateIsMerged(q, extra);
    var r := Merged(q, extra);
    var a := Appended(q, extra);
    AppendedMembers(q, extra);
    var k :| 0 <= k < |a| && a[k] == extra[j];
    assert r[|q| + k] == extra[j];
    LookupAt(r, |q| + k);
  }

  lemma LookupMergedAbsent(q: Query, extra: Query, key: string)
    requires key !in Keys(q) && key !in Keys(extra)
    ensures Lookup(Merged(q, extra), key) == None
  {
    var r := Merged(q, extra);
    var a := Appended(q, extra);
    AppendedMembers(q, extra);
    forall i | 0 <= i < |r| ensures r[i].key != key {
      if i < |q| {
        assert Keys(q)[i] == q[i].key;
      } else {
        assert r[i] == a[i - |q|];
        var j :| 0 <= j < |extra| && extra[j] == a[i - |q|];
        assert Keys(extra)[j] == extra[j].key;
      }
    }
  }

  /** `update_url_qs(url, extra)`: the query merged with `extra`, every other component as it was. */
  function UpdateUrlQs(u: ParsedUrl, extra: Query): (r: ParsedUrl)
    requires UniqueKeys(u.query) && UniqueKeys(extra)
    ensures r.(query := u.query) == u
    ensures r.query == Merged(u.query, extra)
    ensures forall key :: Lookup(r.query, key) == if key in Keys(extra) then Lookup(extra, key) else Lookup(u.query, key)
  {
    var r := u.(query := Update(u.query, extra));
    UpdateIsMerged(u.query, extra);
    forall key ensures Lookup(r.query, key) == if key in Keys(extra) then Lookup(extra, key) else Lookup(u.query, key) {
      UpdateLookup(u.query, extra, key);
    }
    r
  }

  /** The three UTM parameters in the order of the source's dictionary literal. */
  function UtmParams(source: string, medium: string, campaign: string): (q: Query)
    ensures UniqueKeys(q)
  {
    [Param("utm_source", [source]), Param("utm_medium", [medium]), Param("utm_campaign", [campaign])]
  }

  /** The UTM keys as a set. */
  function UtmKeys(): set<string>
  {
    {"utm_source", "utm_medium", "utm_campaign"}
  }

  /**
   * `UTM.add_to_url`: the three UTM keys carry exactly the given values, every
   * other parameter keeps its values, and the other components are unchanged.
   */
  function AddToUrl(u: ParsedUrl, source: string, medium: string, campaign: string): (r: ParsedUrl)
    requires UniqueKeys(u.query)
    ensures r.(query := u.query) == u
    ensures Lookup(r.query, "utm_source") == Some([source])
    ensures Lookup(r.query, "utm_medium") == Some([medium])
    ensures Lookup(r.query, "utm_campaign") == Some([campaign])
    ensures forall key :: key !in UtmKeys() ==> Lookup(r.query, key) == Lookup(u.query, key)
  {
    var params := UtmParams(source, medium, campaign);
    assert Keys(params) == ["utm_source", "utm_medium", "utm_campaign"];
    assert params[..2] == [params[0], params[1]] && params[..2][..1] == [params[0]];
    assert Lookup(params, "utm_source") == Some([source]);
    assert Lookup(params, "utm_medium") == Some([medium]);
    assert Lookup(params, "utm_campaign") == Some([campaign]);
    UpdateUrlQs(u, params)
  }

  /** `UTM.add_to_external_url`: always `utm_source=pythonz`, `utm_medium=referral`, `utm_campaign=item`. */
  function AddToExternalUrl(u: ParsedUrl): (r: ParsedUrl)
    requires UniqueKeys(u.query)
    ensures r.(query := u.query) == u
    ensures Lookup(r.query, "utm_source") == Some(["pythonz"])
    ensures Lookup(r.query, "utm_medium") == Some(["referral"])
    ensures Lookup(r.query, "utm_campaign") == Some(["item"])
    ensures forall key :: key !in UtmKeys() ==> Lookup(r.query, key) == Lookup(u.query, key)
  {
    AddToUrl(u, "pythonz", "referral", "item")
  }

  /** `UTM.add_to_internal_url`: the given source, `utm_medium=link`, `utm_campaign=promo`. */
  function AddToInternalUrl(u: ParsedUrl, source: string): (r: ParsedUrl)
    requires UniqueKeys(u.query)
    ensures r.(query := u.query) == u
    ensures Lookup(r.query, "utm_source") == Some([source])
    ensures Lookup(r.query, "utm_medium") == Some(["link"])
    ensures Lookup(r.query, "utm_campaign") == Some(["promo"])
    ensures forall key :: key !in UtmKeys() ==> Lookup(r.query, key) == Lookup(u.query, key)
  {
    AddToUrl(u, source, "link", "promo")
  }
}
