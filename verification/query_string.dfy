/**
 * The query parameter map and the two `urllib.parse` functions that convert
 * it: `parse_qs(qs)` (with keep_blank_values false, as app.py calls it) and
 * `urlencode(query, doseq=True)`.
 *
 * A map is a sequence of entries with distinct keys, in the insertion order
 * of the Python dict it stands for.
 */
module QueryString {
  import opened Wrappers
  import opened Text
  import opened FormCodec

  datatype Entry = Entry(key: string, values: seq<string>)

  type QueryMap = seq<Entry>

  function Keys(m: QueryMap): (ks: seq<string>)
    ensures |ks| == |m|
    ensures forall i | 0 <= i < |m| :: ks[i] == m[i].key
  {
    if m == [] then [] else [m[0].key] + Keys(m[1..])
  }

  /** Position of the entry for `k`; |m| when there is none. */
  function IndexOf(m: QueryMap, k: string): (i: nat)
    ensures i <= |m|
    ensures i < |m| ==> m[i].key == k
    ensures forall j | 0 <= j < i :: m[j].key != k
  {
    if m == [] then 0 else if m[0].key == k then 0 else 1 + IndexOf(m[1..], k)
  }

  /** `query.get(k)`. */
  function Get(m: QueryMap, k: string): Option<seq<string>> {
    var i := IndexOf(m, k);
    if i < |m| then Some(m[i].values) else None
  }

  predicate DistinctKeys(m: QueryMap) {
    forall i, j | 0 <= i < j < |m| :: m[i].key != m[j].key
  }

  /**
   * The maps `parse_qs` produces: distinct keys, and every key with at least
   * one value, none of them empty.
   */
  predicate Canonical(m: QueryMap) {
    && DistinctKeys(m)
    && forall i | 0 <= i < |m| :: m[i].values != [] && forall v | v in m[i].values :: v != ""
  }

  // ---- parse_qs ----

  /**
   * The name-value pairs of `parse_qsl` from the `&`-separated fields: an
   * empty field, a field without `=` and a field whose value is empty are
   * dropped; the name and the value are split at the first `=` and decoded.
   */
  function FieldPairs(fields: seq<string>): (ps: seq<(string, string)>)
    ensures |ps| <= |fields|
    ensures forall i | 0 <= i < |ps| :: ps[i].1 != ""
  {
    if fields == [] then [] else FieldPair(fields[0]) + FieldPairs(fields[1..])
  }

  /** The pair of one field: none, or the decoded name and value. */
  function FieldPair(f: string): (ps: seq<(string, string)>)
    ensures |ps| <= 1 && forall i | 0 <= i < |ps| :: ps[i].1 != ""
  {
    var i := Find(f, '=');
    if f == "" || i == |f| || i + 1 == |f| then []
    else [(UnquotePlus(f[..i]), UnquotePlus(f[i + 1..]))]
  }

  /** `parse_qsl(qs)`: at most one pair per `&`-separated field, none with a blank value. */
  function ParseQsl(qs: string): (ps: seq<(string, string)>)
    ensures |ps| <= |Split(qs, '&')|
    ensures forall i | 0 <= i < |ps| :: ps[i].1 != ""
  {
    FieldPairs(Split(qs, '&'))
  }

  /** `parsed_result[name].append(value)` when the name is known, `parsed_result[name] = [value]` otherwise. */
  function AddValue(m: QueryMap, name: string, value: string): (r: QueryMap)
    ensures Keys(r) == if IndexOf(m, name) < |m| then Keys(m) else Keys(m) + [name]
  {
    var i := IndexOf(m, name);
    if i < |m| then m[i := Entry(name, m[i].values + [value])] else m + [Entry(name, [value])]
  }

  /** The loop of `parse_qs` over the pairs, from the map `acc`. */
  function Collect(acc: QueryMap, ps: seq<(string, string)>): QueryMap
    decreases |ps|
  {
    if ps == [] then acc else Collect(AddValue(acc, ps[0].0, ps[0].1), ps[1..])
  }

  lemma {:induction false} AddValueCanonical(m: QueryMap, name: string, value: string)
    requires Canonical(m) && value != ""
    ensures Canonical(AddValue(m, name, value))
  {
    var r := AddValue(m, name, value);
    assert forall i | 0 <= i < |r| :: r[i].key == Keys(r)[i];
    assert forall i | 0 <= i < |m| :: m[i].key == Keys(m)[i];
  }

  lemma {:induction false} CollectCanonical(acc: QueryMap, ps: seq<(string, string)>)
    requires Canonical(acc)
    requires forall i | 0 <= i < |ps| :: ps[i].1 != ""
    ensures Canonical(Collect(acc, ps))
    decreases |ps|
  {
    if ps != [] {
      AddValueCanonical(acc, ps[0].0, ps[0].1);
      CollectCanonical(AddValue(acc, ps[0].0, ps[0].1), ps[1..]);
    }
  }

  /** `parse_qs(qs)`: every key once, in first-seen order, with its values in order. */
  function ParseQs(qs: string): (m: QueryMap)
    ensures Canonical(m)
  {
    CollectCanonical([], ParseQsl(qs));
    Collect([], ParseQsl(qs))
  }

  // ---- urlencode(doseq=True) ----

  function EntryPairs(k: string, vs: seq<string>): (ps: seq<(string, string)>)
    ensures |ps| == |vs|
    ensures forall i | 0 <= i < |vs| :: ps[i] == (k, vs[i])
  {
    if vs == [] then [] else [(k, vs[0])] + EntryPairs(k, vs[1..])
  }

  /** The doseq expansion: one pair per value, in map order and then list order. */
  function Pairs(m: QueryMap): seq<(string, string)> {
    if m == [] then [] else EntryPairs(m[0].key, m[0].values) + Pairs(m[1..])
  }

  function EncodePair(p: (string, string)): string {
    QuotePlus(p.0) + "=" + QuotePlus(p.1)
  }

  function EncodePairs(ps: seq<(string, string)>): (fields: seq<string>)
    ensures |fields| == |ps|
    ensures forall i | 0 <= i < |ps| :: fields[i] == EncodePair(ps[i])
  {
    if ps == [] then [] else [EncodePair(ps[0])] + EncodePairs(ps[1..])
  }

  /** `urlencode(m, doseq=True)`: the encoded pairs joined by `&`. */
  function UrlEncode(m: QueryMap): string {
    Join(EncodePairs(Pairs(m)), '&')
  }

  /** The characters a `urlencode` result is made of. */
  predicate IsEncodedQueryChar(c: char) {
    IsQuotedChar(c) || c == '=' || c == '&'
  }

  predicate AllEncodedQueryChars(s: string) {
    forall k | 0 <= k < |s| :: IsEncodedQueryChar(s[k])
  }

  lemma {:induction false} EncodePairChars(p: (string, string))
    ensures AllEncodedQueryChars(EncodePair(p)) && '&' !in EncodePair(p)
  {
    QuotedPairChars(QuotePlus(p.0), QuotePlus(p.1));
  }

  lemma {:induction false} QuotedPairChars(a: string, b: string)
    requires forall k | 0 <= k < |a| :: IsQuotedChar(a[k])
    requires forall k | 0 <= k < |b| :: IsQuotedChar(b[k])
    ensures AllEncodedQueryChars(a + "=" + b) && '&' !in a + "=" + b
  {
    var f := a + "=" + b;
    forall k | 0 <= k < |f| ensures IsQuotedChar(f[k]) || f[k] == '=' {
      if k < |a| { assert f[k] == a[k]; }
      else if k > |a| { assert f[k] == b[k - |a| - 1]; }
    }
  }

  lemma {:induction false} JoinEncodedChars(parts: seq<string>)
    requires forall i | 0 <= i < |parts| :: AllEncodedQueryChars(parts[i])
    ensures AllEncodedQueryChars(Join(parts, '&'))
    decreases |parts|
  {
    if |parts| > 1 {
      JoinEncodedChars(parts[1..]);
      var s := Join(parts, '&');
      var a, t := parts[0], Join(parts[1..], '&');
      assert s == a + ['&'] + t;
      forall k | 0 <= k < |s| ensures IsEncodedQueryChar(s[k]) {
        if k < |a| { assert s[k] == a[k]; }
        else if k > |a| { assert s[k] == t[k - |a| - 1]; }
      }
    }
  }

  /**
   * A serialised query holds only letters, digits and `_.-~%+=&`: in
   * particular no `#`, so it cannot run into the fragment, and no tab or
   * line break.
   */
  lemma {:induction false} UrlEncodeChars(m: QueryMap)
    ensures AllEncodedQueryChars(UrlEncode(m))
  {
    var fields := EncodePairs(Pairs(m));
    forall i | 0 <= i < |fields| ensures AllEncodedQueryChars(fields[i]) {
      EncodePairChars(Pairs(m)[i]);
    }
    JoinEncodedChars(fields);
  }

  // ---- parse_qs reads back what urlencode writes ----

  lemma {:induction false} FieldPairOfEncoded(p: (string, string))
    requires p.1 != ""
    ensures FieldPair(EncodePair(p)) == [p]
  {
    var f := EncodePair(p);
    var a, b := QuotePlus(p.0), QuotePlus(p.1);
    assert f[|a|] == '=';
    forall k | 0 <= k < |a| ensures f[k] != '=' {
      assert f[k] == a[k];
    }
    assert Find(f, '=') == |a|;
    assert f[..|a|] == a;
    assert f[|a| + 1..] == b;
    UnquotePlusQuotePlus(p.0);
    UnquotePlusQuotePlus(p.1);
  }

  lemma {:induction false} FieldPairsOfEncoded(ps: seq<(string, string)>)
    requires forall i | 0 <= i < |ps| :: ps[i].1 != ""
    ensures FieldPairs(EncodePairs(ps)) == ps
    decreases |ps|
  {
    if ps != [] {
      var fields := EncodePairs(ps);
      assert fields[0] == EncodePair(ps[0]);
      assert fields[1..] == EncodePairs(ps[1..]);
      FieldPairOfEncoded(ps[0]);
      FieldPairsOfEncoded(ps[1..]);
      assert [ps[0]] + ps[1..] == ps;
    }
  }

  lemma {:induction false} CollectAppend(acc: QueryMap, a: seq<(string, string)>, b: seq<(string, string)>)
    ensures Collect(acc, a + b) == Collect(Collect(acc, a), b)
    decreases |a|
  {
    if a == [] {
      assert a + b == b;
    } else {
      assert (a + b)[1..] == a[1..] + b;
      assert (a + b)[0] == a[0];
      CollectAppend(AddValue(acc, a[0].0, a[0].1), a[1..], b);
    }
  }

  lemma {:induction false} IndexOfAppended(acc: QueryMap, e: Entry)
    requires forall j | 0 <= j < |acc| :: acc[j].key != e.key
    ensures IndexOf(acc + [e], e.key) == |acc|
  {
    var m := acc + [e];
    assert m[|acc|] == e;
    assert forall j | 0 <= j < |acc| :: m[j] == acc[j];
  }

  /** Adding a value for the key of the last entry extends that entry's list. */
  lemma {:induction false} AddValueToLast(acc: QueryMap, k: string, pre: seq<string>, v: string)
    requires forall j | 0 <= j < |acc| :: acc[j].key != k
    ensures AddValue(acc + [Entry(k, pre)], k, v) == acc + [Entry(k, pre + [v])]
  {
    var m := acc + [Entry(k, pre)];
    IndexOfAppended(acc, Entry(k, pre));
    assert m[|acc| := Entry(k, m[|acc|].values + [v])] == acc + [Entry(k, pre + [v])];
  }

  /** Collecting the pairs of one key that is the last entry extends that entry's list. */
  lemma {:induction false} CollectEntryPairs(acc: QueryMap, k: string, pre: seq<string>, vs: seq<string>)
    requires forall j | 0 <= j < |acc| :: acc[j].key != k
    ensures Collect(acc + [Entry(k, pre)], EntryPairs(k, vs)) == acc + [Entry(k, pre + vs)]
    decreases |vs|
  {
    if vs == [] {
      assert pre + vs == pre;
    } else {
      var ps := EntryPairs(k, vs);
      assert ps[0] == (k, vs[0]);
      assert ps[1..] == EntryPairs(k, vs[1..]);
      AddValueToLast(acc, k, pre, vs[0]);
      CollectEntryPairs(acc, k, pre + [vs[0]], vs[1..]);
      assert pre + [vs[0]] + vs[1..] == pre + vs;
    }
  }

  /** Collecting the pairs of one entry whose key is new appends that entry. */
  lemma {:induction false} CollectEntry(acc: QueryMap, e: Entry)
    requires e.values != []
    requires forall j | 0 <= j < |acc| :: acc[j].key != e.key
    ensures Collect(acc, EntryPairs(e.key, e.values)) == acc + [e]
  {
    var k, vs := e.key, e.values;
    var ps := EntryPairs(k, vs);
    assert ps[0] == (k, vs[0]);
    assert ps[1..] == EntryPairs(k, vs[1..]);
    AddValueNew(acc, k, vs[0]);
    CollectEntryPairs(acc, k, [vs[0]], vs[1..]);
    assert [vs[0]] + vs[1..] == vs;
  }

  lemma {:induction false} AddValueNew(acc: QueryMap, k: string, v: string)
    requires forall j | 0 <= j < |acc| :: acc[j].key != k
    ensures AddValue(acc, k, v) == acc + [Entry(k, [v])]
  {
    assert IndexOf(acc, k) == |acc|;
  }

  predicate KeysDisjoint(a: QueryMap, b: QueryMap) {
    forall i, j | 0 <= i < |a| && 0 <= j < |b| :: a[i].key != b[j].key
  }

  lemma {:induction false} KeysDisjointShift(acc: QueryMap, m: QueryMap)
    requires m != [] && DistinctKeys(m) && KeysDisjoint(acc, m)
    ensures KeysDisjoint(acc + [m[0]], m[1..])
    ensures forall j | 0 <= j < |acc| :: acc[j].key != m[0].key
    ensures DistinctKeys(m[1..])
  {
    var acc', rest := acc + [m[0]], m[1..];
    forall i, j | 0 <= i < |acc'| && 0 <= j < |rest| ensures acc'[i].key != rest[j].key {
      assert rest[j] == m[j + 1];
      if i < |acc| { assert acc'[i] == acc[i]; } else { assert acc'[i] == m[0]; }
    }
  }

  /** Collecting the pairs of a map whose first key is new appends its first entry. */
  lemma {:induction false} CollectFirstEntry(acc: QueryMap, m: QueryMap)
    requires m != [] && m[0].values != []
    requires forall j | 0 <= j < |acc| :: acc[j].key != m[0].key
    ensures Collect(acc, Pairs(m)) == Collect(acc + [m[0]], Pairs(m[1..]))
  {
    var first := EntryPairs(m[0].key, m[0].values);
    assert Pairs(m) == first + Pairs(m[1..]);
    CollectEntry(acc, m[0]);
    CollectAppend(acc, first, Pairs(m[1..]));
  }

  lemma {:induction false} CollectPairs(acc: QueryMap, m: QueryMap)
    requires DistinctKeys(m) && KeysDisjoint(acc, m)
    requires forall i | 0 <= i < |m| :: m[i].values != []
    ensures Collect(acc, Pairs(m)) == acc + m
    decreases |m|
  {
    if m == [] {
      assert acc + m == acc;
    } else {
      var rest := m[1..];
      KeysDisjointShift(acc, m);
      CollectFirstEntry(acc, m);
      assert forall i | 0 <= i < |rest| :: rest[i].values == m[i + 1].values;
      CollectPairs(acc + [m[0]], rest);
      AppendFirst(acc, m);
    }
  }

  lemma {:induction false} AppendFirst(acc: QueryMap, m: QueryMap)
    requires m != []
    ensures acc + [m[0]] + m[1..] == acc + m
  {
    assert m == [m[0]] + m[1..];
  }

  lemma {:induction false} PairsValuesNonEmpty(m: QueryMap)
    requires Canonical(m)
    ensures forall i | 0 <= i < |Pairs(m)| :: Pairs(m)[i].1 != ""
    decreases |m|
  {
    if m != [] {
      var head := EntryPairs(m[0].key, m[0].values);
      assert Canonical(m[1..]) by {
        forall i | 0 <= i < |m[1..]| ensures m[1..][i] == m[i + 1] {}
      }
      PairsValuesNonEmpty(m[1..]);
      forall i | 0 <= i < |Pairs(m)| ensures Pairs(m)[i].1 != "" {
        if i < |head| {
          assert Pairs(m)[i] == head[i];
          assert m[0].values[i] in m[0].values;
        } else {
          assert Pairs(m)[i] == Pairs(m[1..])[i - |head|];
        }
      }
    }
  }

  /** How `parse_qsl` splits a serialised query at `&`. */
  lemma {:induction false} SplitUrlEncode(m: QueryMap)
    ensures var fields := EncodePairs(Pairs(m));
      Split(UrlEncode(m), '&') == if fields == [] then [""] else fields
  {
    var fields := EncodePairs(Pairs(m));
    if fields == [] {
      assert UrlEncode(m) == "";
    } else {
      forall f | f in fields ensures '&' !in f {
        var i :| 0 <= i < |fields| && fields[i] == f;
        EncodePairChars(Pairs(m)[i]);
      }
      SplitJoin(fields, '&');
    }
  }

  /**
   * `parse_qs(urlencode(m, doseq=True)) == m` for every map `parse_qs` can
   * produce: serialising loses nothing, not the key order, not the value
   * order, not a repeated value.
   */
  lemma {:induction false} ParseQsUrlEncode(m: QueryMap)
    requires Canonical(m)
    ensures ParseQs(UrlEncode(m)) == m
  {
    var ps := Pairs(m);
    PairsValuesNonEmpty(m);
    SplitUrlEncode(m);
    if EncodePairs(ps) == [] {
      assert FieldPairs([""]) == [];
      assert ps == [];
    }
    FieldPairsOfEncoded(ps);
    assert ParseQsl(UrlEncode(m)) == ps;
    assert KeysDisjoint([], m);
    CollectPairs([], m);
    assert [] + m == m;
  }
}
