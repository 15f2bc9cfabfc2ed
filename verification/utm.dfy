/**
 * `add_or_update_utm(url, utm_params)`: parse the query of a URL into a map,
 * overwrite the entry of every UTM key whose value is not empty with a
 * one-element list, serialise the map again and put it back as the query.
 *
 * The overrides are the `utm_params` dict as a sequence of (key, value)
 * pairs in its iteration order.
 */
module Utm {
  import opened Wrappers
  import opened QueryString
  import opened UrlParse

  type Overrides = seq<(string, string)>

  /** `query[key] = values`: the entry keeps its place, or a new one goes at the end. */
  function Assign(m: QueryMap, key: string, values: seq<string>): (r: QueryMap)
    ensures Get(r, key) == Some(values)
    ensures forall k | k != key :: Get(r, k) == Get(m, k)
    ensures Keys(r) == if IndexOf(m, key) < |m| then Keys(m) else Keys(m) + [key]
  {
    var i := IndexOf(m, key);
    if i < |m| then
      ReplaceEntry(m, i, key, values);
      m[i := Entry(key, values)]
    else
      AppendEntry(m, key, values);
      m + [Entry(key, values)]
  }

  lemma {:induction false} ReplaceEntry(m: QueryMap, i: nat, key: string, values: seq<string>)
    requires i == IndexOf(m, key) && i < |m|
    ensures var r := m[i := Entry(key, values)];
      && Get(r, key) == Some(values)
      && (forall k | k != key :: Get(r, k) == Get(m, k))
      && Keys(r) == Keys(m)
  {
    var r := m[i := Entry(key, values)];
    assert forall j | 0 <= j < |m| :: r[j].key == m[j].key;
    assert forall j | 0 <= j < |m| :: Keys(r)[j] == Keys(m)[j];
    IndexOfSameKeys(r, m);
  }

  lemma {:induction false} AppendEntry(m: QueryMap, key: string, values: seq<string>)
    requires IndexOf(m, key) == |m|
    ensures var r := m + [Entry(key, values)];
      && Get(r, key) == Some(values)
      && (forall k | k != key :: Get(r, k) == Get(m, k))
      && Keys(r) == Keys(m) + [key]
  {
    var r := m + [Entry(key, values)];
    assert forall j | 0 <= j < |m| :: r[j] == m[j];
    assert r[|m|].key == key;
    IndexOfIs(r, key, |m|);
    forall k | k != key ensures Get(r, k) == Get(m, k) {
      var j := IndexOf(m, k);
      if j < |m| {
        IndexOfIs(r, k, j);
      } else {
        IndexOfIs(r, k, |m| + 1);
      }
    }
    assert Keys(r) == Keys(m) + [key] by {
      assert forall j | 0 <= j < |m| :: Keys(r)[j] == Keys(m)[j];
    }
  }

  /** Maps with the same keys in the same places find every key in the same place. */
  lemma {:induction false} IndexOfSameKeys(a: QueryMap, b: QueryMap)
    requires |a| == |b| && forall j | 0 <= j < |a| :: a[j].key == b[j].key
    ensures forall k :: IndexOf(a, k) == IndexOf(b, k)
  {
    forall k ensures IndexOf(a, k) == IndexOf(b, k) {
      IndexOfIs(a, k, IndexOf(b, k));
    }
  }

  /** The first entry for `k` is determined by the keys before it. */
  lemma {:induction false} IndexOfIs(m: QueryMap, k: string, i: nat)
    requires i <= |m| && (i < |m| ==> m[i].key == k)
    requires forall j | 0 <= j < i :: m[j].key != k
    ensures IndexOf(m, k) == i
  {
  }

  /**
   * One pass of the loop body: a non-empty value replaces the key's list.
   * No key is lost or moved; at most the overridden key is added at the end.
   */
  function Step(m: QueryMap, o: (string, string)): (r: QueryMap)
    ensures Keys(r) == Keys(m) || Keys(r) == Keys(m) + [o.0]
  {
    if o.1 != "" then Assign(m, o.0, [o.1]) else m
  }

  /** The map after the loop has run over all of `os`: the old keys stay where they were. */
  function Apply(m: QueryMap, os: Overrides): (r: QueryMap)
    ensures Keys(m) <= Keys(r)
    decreases |os|
  {
    if os == [] then m else Step(Apply(m, os[..|os| - 1]), os[|os| - 1])
  }

  /** The value the last override with a non-empty value gives `k`, if any. */
  function OverrideValue(os: Overrides, k: string): (r: Option<string>)
    ensures r.Some? ==> r.value != ""
    decreases |os|
  {
    if os == [] then None
    else if os[|os| - 1].0 == k && os[|os| - 1].1 != "" then Some(os[|os| - 1].1)
    else OverrideValue(os[..|os| - 1], k)
  }

  /** The position of the first override with a non-empty value for `k`; |os| when none. */
  function FirstOverride(os: Overrides, k: string): (i: nat)
    ensures i <= |os|
    ensures i < |os| ==> os[i].0 == k && os[i].1 != ""
    ensures forall j | 0 <= j < i :: !(os[j].0 == k && os[j].1 != "")
  {
    if os == [] then 0
    else if os[0].0 == k && os[0].1 != "" then 0
    else 1 + FirstOverride(os[1..], k)
  }

  // ---- the map after the overrides ----

  /**
   * The list of every key after the loop: `[v]` for a key whose last
   * non-empty override is `v` (earlier values are discarded, not appended
   * to), and the list it had before for every other key, including a key
   * whose overrides are all empty.
   */
  lemma {:induction false} ApplyGet(m: QueryMap, os: Overrides, k: string)
    ensures Get(Apply(m, os), k) == match OverrideValue(os, k)
      case Some(v) => Some([v])
      case None => Get(m, k)
    decreases |os|
  {
    if os != [] {
      ApplyGet(m, os[..|os| - 1], k);
    }
  }

  lemma {:induction false} FirstOverrideSnoc(os: Overrides, o: (string, string), k: string)
    ensures FirstOverride(os + [o], k) ==
      if FirstOverride(os, k) < |os| then FirstOverride(os, k)
      else if o.0 == k && o.1 != "" then |os| else |os| + 1
  {
    var s := os + [o];
    var i := FirstOverride(os, k);
    assert forall j | 0 <= j < |os| :: s[j] == os[j];
    assert s[|os|] == o;
    var f := FirstOverride(s, k);
    if i < |os| {
      FirstOverrideIs(s, k, i);
    } else if o.0 == k && o.1 != "" {
      FirstOverrideIs(s, k, |os|);
    } else {
      FirstOverrideIs(s, k, |os| + 1);
    }
  }

  lemma {:induction false} FirstOverrideIs(os: Overrides, k: string, i: nat)
    requires i <= |os| && (i < |os| ==> os[i].0 == k && os[i].1 != "")
    requires forall j | 0 <= j < i :: !(os[j].0 == k && os[j].1 != "")
    ensures FirstOverride(os, k) == i
  {
  }

  /** A key has some non-empty override exactly when it has a first one. */
  lemma {:induction false} OverrideValueFirst(os: Overrides, k: string)
    ensures OverrideValue(os, k).Some? <==> FirstOverride(os, k) < |os|
    decreases |os|
  {
    if os != [] {
      var init, o := os[..|os| - 1], os[|os| - 1];
      assert os == init + [o];
      OverrideValueFirst(init, k);
      FirstOverrideSnoc(init, o, k);
    }
  }

  /**
   * Where the entries of `r` are, after the overrides `os` on `m`: an
   * existing key keeps its position; the new keys come after all existing
   * ones, each of them overridden, in the order of their first non-empty
   * override; every overridden key is present; no key appears twice.
   */
  ghost predicate Placed(m: QueryMap, os: Overrides, r: QueryMap) {
    && DistinctKeys(r)
    && |m| <= |r|
    && (forall i | 0 <= i < |m| :: r[i].key == m[i].key)
    && (forall i | |m| <= i < |r| :: r[i].key !in Keys(m) && FirstOverride(os, r[i].key) < |os|)
    && (forall i, j | |m| <= i < j < |r| :: FirstOverride(os, r[i].key) < FirstOverride(os, r[j].key))
    && (forall k | FirstOverride(os, k) < |os| :: k in Keys(r))
  }

  /** The overrides place the keys of the map as `Placed` says. */
  lemma {:induction false} ApplyOrder(m: QueryMap, os: Overrides)
    requires DistinctKeys(m)
    ensures Placed(m, os, Apply(m, os))
    decreases |os|
  {
    if os == [] {
      assert forall i | 0 <= i < |m| :: Keys(m)[i] == m[i].key;
    } else {
      var init, o := os[..|os| - 1], os[|os| - 1];
      assert os == init + [o];
      ApplyOrder(m, init);
      var r0 := Apply(m, init);
      if o.1 == "" {
        StepSkip(m, init, r0, o);
      } else if IndexOf(r0, o.0) < |r0| {
        StepExisting(m, init, r0, o);
      } else {
        StepNew(m, init, r0, o);
      }
    }
  }

  lemma {:induction false} StepSkip(m: QueryMap, init: Overrides, r0: QueryMap, o: (string, string))
    requires Placed(m, init, r0) && o.1 == ""
    ensures Placed(m, init + [o], r0)
  {
    forall k ensures FirstOverride(init + [o], k) == if FirstOverride(init, k) < |init| then FirstOverride(init, k) else |init| + 1 {
      FirstOverrideSnoc(init, o, k);
    }
  }

  lemma {:induction false} StepExisting(m: QueryMap, init: Overrides, r0: QueryMap, o: (string, string))
    requires Placed(m, init, r0) && o.1 != "" && IndexOf(r0, o.0) < |r0|
    ensures Placed(m, init + [o], Assign(r0, o.0, [o.1]))
  {
    var r := Assign(r0, o.0, [o.1]);
    var os := init + [o];
    assert Keys(r) == Keys(r0);
    forall i | 0 <= i < |r0| ensures r[i].key == r0[i].key {
      assert r[i].key == Keys(r)[i];
    }
    assert o.0 in Keys(r0) by {
      assert Keys(r0)[IndexOf(r0, o.0)] == o.0;
    }
    forall i | |m| <= i < |r0| ensures FirstOverride(os, r0[i].key) == FirstOverride(init, r0[i].key) {
      FirstOverrideSnoc(init, o, r0[i].key);
    }
    forall k | FirstOverride(os, k) < |os| ensures k in Keys(r) {
      FirstOverrideSnoc(init, o, k);
    }
    SameKeysPlaced(m, init, os, r0, r);
  }

  /** A map with the keys of a placed one, in the same places, is placed when no key moves in the order. */
  lemma {:induction false} SameKeysPlaced(m: QueryMap, init: Overrides, os: Overrides, r0: QueryMap, r: QueryMap)
    requires Placed(m, init, r0) && |r| == |r0|
    requires forall i | 0 <= i < |r0| :: r[i].key == r0[i].key
    requires forall i | |m| <= i < |r0| :: FirstOverride(os, r0[i].key) == FirstOverride(init, r0[i].key)
    requires forall k | FirstOverride(os, k) < |os| :: k in Keys(r)
    requires |init| <= |os|
    ensures Placed(m, os, r)
  {
    forall i, j | 0 <= i < j < |r| ensures r[i].key != r[j].key {
      assert r0[i].key != r0[j].key;
    }
    forall i | |m| <= i < |r| ensures r[i].key !in Keys(m) && FirstOverride(os, r[i].key) < |os| {
      assert FirstOverride(init, r0[i].key) < |init|;
    }
    forall i, j | |m| <= i < j < |r| ensures FirstOverride(os, r[i].key) < FirstOverride(os, r[j].key) {
      assert FirstOverride(init, r0[i].key) < FirstOverride(init, r0[j].key);
    }
  }

  lemma {:induction false} StepNew(m: QueryMap, init: Overrides, r0: QueryMap, o: (string, string))
    requires Placed(m, init, r0) && o.1 != "" && IndexOf(r0, o.0) == |r0|
    ensures Placed(m, init + [o], Assign(r0, o.0, [o.1]))
  {
    var r := Assign(r0, o.0, [o.1]);
    var os := init + [o];
    var k0 := o.0;
    assert r == r0 + [Entry(k0, [o.1])];
    assert k0 !in Keys(r0) by {
      forall i | 0 <= i < |r0| ensures Keys(r0)[i] != k0 {
        assert Keys(r0)[i] == r0[i].key;
      }
    }
    FirstOverrideSnoc(init, o, k0);
    assert FirstOverride(os, k0) == |init|;
    forall i | |m| <= i < |r0| ensures FirstOverride(os, r0[i].key) == FirstOverride(init, r0[i].key) {
      FirstOverrideSnoc(init, o, r0[i].key);
    }
    forall k | FirstOverride(os, k) < |os| ensures k in Keys(r) {
      FirstOverrideSnoc(init, o, k);
      assert Keys(r) == Keys(r0) + [k0];
    }
    assert k0 !in Keys(m) by {
      assert forall i | 0 <= i < |m| :: Keys(m)[i] == m[i].key == r0[i].key == Keys(r0)[i];
    }
    StepNewPlaced(m, os, r0, r, k0, [o.1]);
  }

  lemma {:induction false} StepNewPlaced(m: QueryMap, os: Overrides, r0: QueryMap, r: QueryMap, k0: string, vs: seq<string>)
    requires DistinctKeys(r0) && |m| <= |r0| && r == r0 + [Entry(k0, vs)]
    requires forall i | 0 <= i < |m| :: r0[i].key == m[i].key
    requires forall i | 0 <= i < |r0| :: r0[i].key != k0
    requires k0 !in Keys(m) && FirstOverride(os, k0) < |os|
    requires forall i | |m| <= i < |r0| :: r0[i].key !in Keys(m) && FirstOverride(os, r0[i].key) < FirstOverride(os, k0)
    requires forall i, j | |m| <= i < j < |r0| :: FirstOverride(os, r0[i].key) < FirstOverride(os, r0[j].key)
    requires forall k | FirstOverride(os, k) < |os| :: k in Keys(r)
    ensures Placed(m, os, r)
  {
    assert r[|r0|].key == k0;
    forall i, j | 0 <= i < j < |r| ensures r[i].key != r[j].key {
      assert r[i] == r0[i];
      if j < |r0| {
        assert r[j] == r0[j];
      }
    }
    forall i | 0 <= i < |m| ensures r[i].key == m[i].key {
      assert r[i] == r0[i];
    }
    forall i | |m| <= i < |r| ensures r[i].key !in Keys(m) && FirstOverride(os, r[i].key) < |os| {
      if i < |r0| {
        assert r[i] == r0[i];
      }
    }
    forall i, j | |m| <= i < j < |r| ensures FirstOverride(os, r[i].key) < FirstOverride(os, r[j].key) {
      assert r[i] == r0[i];
      if j < |r0| {
        assert r[j] == r0[j];
      }
    }
  }

  /** Overrides whose keys are all present change no key and no position. */
  lemma {:induction false} ApplyKeysPresent(m: QueryMap, os: Overrides)
    requires forall i | 0 <= i < |os| && os[i].1 != "" :: os[i].0 in Keys(m)
    ensures Keys(Apply(m, os)) == Keys(m)
    decreases |os|
  {
    if os != [] {
      var init, o := os[..|os| - 1], os[|os| - 1];
      assert forall i | 0 <= i < |init| :: init[i] == os[i];
      ApplyKeysPresent(m, init);
      if o.1 != "" {
        var r0 := Apply(m, init);
        assert o.0 in Keys(r0);
        var i :| 0 <= i < |r0| && Keys(r0)[i] == o.0;
        assert IndexOf(r0, o.0) <= i;
      }
    }
  }

  /** Maps with distinct keys are equal when their keys and their lookups are. */
  lemma {:induction false} MapsEqual(a: QueryMap, b: QueryMap)
    requires DistinctKeys(a) && |a| == |b|
    requires forall i | 0 <= i < |a| :: a[i].key == b[i].key
    requires forall k :: Get(a, k) == Get(b, k)
    ensures a == b
  {
    forall i | 0 <= i < |a| ensures a[i] == b[i] {
      var k := a[i].key;
      IndexOfIs(a, k, i);
      IndexOfIs(b, k, i);
      assert Get(a, k) == Get(b, k);
    }
  }

  /** Applying the same overrides twice gives the map that applying them once gives. */
  lemma {:induction false} ApplyIdempotent(m: QueryMap, os: Overrides)
    requires DistinctKeys(m)
    ensures Apply(Apply(m, os), os) == Apply(m, os)
  {
    var r := Apply(m, os);
    var r2 := Apply(r, os);
    ApplyOrder(m, os);
    forall i | 0 <= i < |os| && os[i].1 != "" ensures os[i].0 in Keys(r) {
      assert FirstOverride(os, os[i].0) <= i;
    }
    ApplyKeysPresent(r, os);
    assert forall i | 0 <= i < |r| :: r[i].key == Keys(r)[i] == Keys(r2)[i] == r2[i].key;
    forall k ensures Get(r2, k) == Get(r, k) {
      ApplyGet(m, os, k);
      ApplyGet(r, os, k);
    }
    MapsEqual(r, r2);
  }

  /** The overrides keep a map `parse_qs` can produce such a map. */
  lemma {:induction false} ApplyCanonical(m: QueryMap, os: Overrides)
    requires Canonical(m)
    ensures Canonical(Apply(m, os))
  {
    var r := Apply(m, os);
    ApplyOrder(m, os);
    forall i | 0 <= i < |r| ensures r[i].values != [] && forall v | v in r[i].values :: v != "" {
      var k := r[i].key;
      IndexOfIs(r, k, i);
      ApplyGet(m, os, k);
      match OverrideValue(os, k)
      case Some(v) =>
      case None =>
        var j := IndexOf(m, k);
        assert m[j].values == r[i].values;
    }
  }

  // ---- the URL ----

  /** `add_or_update_utm(url, utm_params)`, or the error `urlparse` raises. */
  function Rewrite(url: string, os: Overrides): (r: Result<string, ParseError>)
    ensures r.Err? <==> Parse(url).Err?
  {
    match Parse(url)
    case Err(e) => Err(e)
    case Ok(c) => Ok(Unparse(c.(query := UrlEncode(Apply(ParseQs(c.query), os)))))
  }

  /**
   * The loop of `add_or_update_utm`: the query dict is updated in place,
   * one override at a time, skipping the empty values.
   */
  method Merge(query: QueryMap, utmParams: Overrides) returns (merged: QueryMap)
    ensures merged == Apply(query, utmParams)
  {
    merged := query;
    var i := 0;
    while i < |utmParams|
      invariant 0 <= i <= |utmParams|
      invariant merged == Apply(query, utmParams[..i])
    {
      var key, value := utmParams[i].0, utmParams[i].1;
      if value != "" {
        merged := Assign(merged, key, [value]);
      }
      assert utmParams[..i + 1][..i] == utmParams[..i];
      i := i + 1;
    }
    assert utmParams[..i] == utmParams;
  }

  /** `add_or_update_utm(url, utm_params)`: parse, merge the query, serialise, reassemble. */
  method AddOrUpdateUtm(url: string, utmParams: Overrides) returns (r: Result<string, ParseError>)
    ensures r == Rewrite(url, utmParams)
  {
    var parsed := Parse(url);
    if parsed.Err? {
      return Err(parsed.error);
    }
    var merged := Merge(ParseQs(parsed.value.query), utmParams);
    r := Ok(Unparse(parsed.value.(query := UrlEncode(merged))));
  }

  /** A serialised query holds no tab, line break or `#`. */
  lemma {:induction false} EncodedQueryClean(m: QueryMap)
    ensures NoneIn(UrlEncode(m), Unsafe) && '#' !in UrlEncode(m)
  {
    UrlEncodeChars(m);
    EncodedCharsClean(UrlEncode(m));
  }

  lemma {:induction false} EncodedCharsClean(q: string)
    requires AllEncodedQueryChars(q)
    ensures NoneIn(q, Unsafe) && '#' !in q
  {
    forall x | x in q ensures x !in Unsafe && x != '#' {
      var k :| 0 <= k < |q| && q[k] == x;
      assert IsEncodedQueryChar(q[k]);
    }
  }

  /**
   * Only the query is replaced: reading the new URL gives the scheme,
   * netloc, path, params and fragment of the old one, and as its query the
   * serialised map.
   */
  lemma {:induction false} RewriteComponents(url: string, os: Overrides)
    requires Parse(url).Ok?
    ensures var c := Parse(url).value;
      Rewrite(url, os).Ok?
      && Parse(Rewrite(url, os).value) == Ok(c.(query := UrlEncode(Apply(ParseQs(c.query), os))))
  {
    var c := Parse(url).value;
    var m := Apply(ParseQs(c.query), os);
    ParseWellFormed(url);
    EncodedQueryClean(m);
    assert WellFormed(c.(query := UrlEncode(m)));
    ParseUnparse(c.(query := UrlEncode(m)));
  }

  /** The merged map survives serialisation and parsing unchanged. */
  lemma {:induction false} MergedQueryRoundTrip(m: QueryMap, os: Overrides)
    requires Canonical(m)
    ensures ParseQs(UrlEncode(Apply(m, os))) == Apply(m, os)
  {
    ApplyCanonical(m, os);
    ParseQsUrlEncode(Apply(m, os));
  }

  /** The new URL's query reads back as the old query's map with the overrides applied. */
  lemma {:induction false} RewriteQuery(url: string, os: Overrides)
    requires Parse(url).Ok?
    ensures var c := Parse(url).value;
      Rewrite(url, os).Ok? && Parse(Rewrite(url, os).value).Ok?
      && ParseQs(Parse(Rewrite(url, os).value).value.query) == Apply(ParseQs(c.query), os)
  {
    var c := Parse(url).value;
    RewriteComponents(url, os);
    MergedQueryRoundTrip(ParseQs(c.query), os);
  }

  /** Overrides whose values are all empty leave the map as it was. */
  lemma {:induction false} ApplyNoValues(m: QueryMap, os: Overrides)
    requires forall j | 0 <= j < |os| :: os[j].1 == ""
    ensures Apply(m, os) == m
    decreases |os|
  {
    if os != [] {
      var init := os[..|os| - 1];
      assert forall j | 0 <= j < |init| :: init[j] == os[j];
      ApplyNoValues(m, init);
    }
  }

  /**
   * With every value empty, the rewritten URL keeps every component but the
   * query, and its query reads back as the same map: only the spelling of
   * the query may change.
   */
  lemma {:induction false} RewriteNoValues(url: string, os: Overrides)
    requires Parse(url).Ok?
    requires forall j | 0 <= j < |os| :: os[j].1 == ""
    ensures var c := Parse(url).value;
      Rewrite(url, os).Ok?
      && Parse(Rewrite(url, os).value) == Ok(c.(query := UrlEncode(ParseQs(c.query))))
      && ParseQs(UrlEncode(ParseQs(c.query))) == ParseQs(c.query)
  {
    var c := Parse(url).value;
    ApplyNoValues(ParseQs(c.query), os);
    RewriteComponents(url, os);
    ParseQsUrlEncode(ParseQs(c.query));
  }

  /** Rewriting a rewritten URL with the same overrides changes nothing. */
  lemma {:induction false} RewriteIdempotent(url: string, os: Overrides)
    requires Rewrite(url, os).Ok?
    ensures Rewrite(Rewrite(url, os).value, os) == Rewrite(url, os)
  {
    var c := Parse(url).value;
    var m := Apply(ParseQs(c.query), os);
    var c1 := c.(query := UrlEncode(m));
    RewriteComponents(url, os);
    ApplyCanonical(ParseQs(c.query), os);
    ParseQsUrlEncode(m);
    ApplyIdempotent(ParseQs(c.query), os);
    assert c1.(query := UrlEncode(Apply(m, os))) == c1;
  }

  /** The last non-empty override of a key that occurs once is its value. */
  lemma {:induction false} OverrideValueOnce(os: Overrides, i: nat)
    requires i < |os| && os[i].1 != ""
    requires forall j | 0 <= j < |os| && j != i :: os[j].0 != os[i].0
    ensures OverrideValue(os, os[i].0) == Some(os[i].1)
    decreases |os|
  {
    if i < |os| - 1 {
      var init := os[..|os| - 1];
      assert forall j | 0 <= j < |init| :: init[j] == os[j];
      OverrideValueOnce(init, i);
    }
  }

  /** A key none of whose overrides has a value has no override value. */
  lemma {:induction false} OverrideValueAbsent(os: Overrides, k: string)
    requires forall j | 0 <= j < |os| :: os[j].0 != k || os[j].1 == ""
    ensures OverrideValue(os, k) == None
    decreases |os|
  {
    if os != [] {
      var init := os[..|os| - 1];
      assert forall j | 0 <= j < |init| :: init[j] == os[j];
      OverrideValueAbsent(init, k);
    }
  }

  /**
   * For overrides with distinct keys (the keys of a dict): in the new URL's
   * query, an override with a value holds exactly that value, and the key
   * of an override with an empty value keeps the values it had.
   */
  lemma {:induction false} RewriteOverride(url: string, os: Overrides, i: nat)
    requires Parse(url).Ok? && i < |os|
    requires forall j | 0 <= j < |os| && j != i :: os[j].0 != os[i].0
    ensures Rewrite(url, os).Ok? && Parse(Rewrite(url, os).value).Ok?
    ensures var after := ParseQs(Parse(Rewrite(url, os).value).value.query);
      var before := ParseQs(Parse(url).value.query);
      Get(after, os[i].0) == if os[i].1 != "" then Some([os[i].1]) else Get(before, os[i].0)
  {
    RewriteQuery(url, os);
    ApplyGet(ParseQs(Parse(url).value.query), os, os[i].0);
    if os[i].1 != "" {
      OverrideValueOnce(os, i);
    } else {
      OverrideValueAbsent(os, os[i].0);
    }
  }
}
