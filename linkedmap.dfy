/**
 * An insertion-ordered map, as Kotlin's `LinkedHashMap` (what `mapOf`,
 * `toMap`, `mutableMapOf` and `toMutableMap` build): a sequence of entries
 * with distinct keys, in the order the keys were first inserted.
 */
module LinkedMap {
  import opened Results

  type Entries = seq<(string, string)>

  function Keys(m: Entries): (r: seq<string>)
    ensures |r| == |m| && forall i :: 0 <= i < |m| ==> r[i] == m[i].0
  {
    seq(|m|, i requires 0 <= i < |m| => m[i].0)
  }

  predicate DistinctKeys(m: Entries) {
    forall i, j :: 0 <= i < j < |m| ==> m[i].0 != m[j].0
  }

  /** The entries as a mathematical map: what `Map.equals` compares. */
  function AsMap(m: Entries): (r: map<string, string>)
    ensures r.Keys == set i | 0 <= i < |m| :: m[i].0
    decreases |m|
  {
    if m == [] then map[] else AsMap(m[..|m| - 1])[m[|m| - 1].0 := m[|m| - 1].1]
  }

  /** `get(k)`: the value stored under `k`, if any. */
  function Get(m: Entries, k: string): (r: Option<string>)
    ensures r.Some? <==> k in Keys(m)
    decreases |m|
  {
    if m == [] then None
    else if m[0].0 == k then Some(m[0].1)
    else Get(m[1..], k)
  }

  /** `put(k, v)`: overwrite in place when `k` is present, append otherwise. */
  function Put(m: Entries, k: string, v: string): (r: Entries)
    decreases |m|
  {
    if m == [] then [(k, v)]
    else if m[0].0 == k then [(k, v)] + m[1..]
    else [m[0]] + Put(m[1..], k, v)
  }

  /** `remove(k)`: drop the entry of `k`, keeping the order of the others. */
  function Remove(m: Entries, k: string): (r: Entries)
    ensures |r| <= |m|
    decreases |m|
  {
    if m == [] then []
    else if m[0].0 == k then Remove(m[1..], k)
    else [m[0]] + Remove(m[1..], k)
  }

  /** `pairs.toMap()` / `mapOf(*pairs)`: put every pair in order, later pairs overwriting. */
  function FromPairs(ps: Entries): Entries
    decreases |ps|
  {
    if ps == [] then [] else Put(FromPairs(ps[..|ps| - 1]), ps[|ps| - 1].0, ps[|ps| - 1].1)
  }

  lemma {:induction false} GetPut(m: Entries, k: string, v: string, x: string)
    ensures Get(Put(m, k, v), x) == if x == k then Some(v) else Get(m, x)
    decreases |m|
  {
    if m != [] && m[0].0 != k {
      GetPut(m[1..], k, v, x);
    }
  }

  lemma {:induction false} KeysPut(m: Entries, k: string, v: string)
    ensures Keys(Put(m, k, v)) == if k in Keys(m) then Keys(m) else Keys(m) + [k]
    decreases |m|
  {
    if m != [] {
      if m[0].0 == k {
        assert Keys(Put(m, k, v)) == [k] + Keys(m[1..]);
        assert Keys(m) == [m[0].0] + Keys(m[1..]);
      } else {
        KeysPut(m[1..], k, v);
        assert Keys(Put(m, k, v)) == [m[0].0] + Keys(Put(m[1..], k, v));
        assert Keys(m) == [m[0].0] + Keys(m[1..]);
      }
    }
  }

  lemma {:induction false} DistinctPut(m: Entries, k: string, v: string)
    requires DistinctKeys(m)
    ensures DistinctKeys(Put(m, k, v))
  {
    KeysPut(m, k, v);
    var r := Put(m, k, v);
    forall i, j | 0 <= i < j < |r| ensures r[i].0 != r[j].0 {
      assert Keys(r)[i] == r[i].0 && Keys(r)[j] == r[j].0;
      if k in Keys(m) {
        assert Keys(m)[i] == m[i].0 && Keys(m)[j] == m[j].0;
      } else if j < |m| {
        assert Keys(m)[i] == m[i].0 && Keys(m)[j] == m[j].0;
      } else {
        assert Keys(m)[i] == m[i].0;
      }
    }
  }

  lemma {:induction false} GetRemove(m: Entries, k: string, x: string)
    ensures Get(Remove(m, k), x) == if x == k then None else Get(m, x)
    decreases |m|
  {
    if m != [] {
      GetRemove(m[1..], k, x);
    }
  }

  lemma {:induction false} RemoveSub(m: Entries, k: string)
    ensures forall e :: e in Remove(m, k) ==> e in m && e.0 != k
    decreases |m|
  {
    if m != [] {
      RemoveSub(m[1..], k);
    }
  }

  lemma {:induction false} DistinctRemove(m: Entries, k: string)
    requires DistinctKeys(m)
    ensures DistinctKeys(Remove(m, k))
    decreases |m|
  {
    if m != [] {
      DistinctRemove(m[1..], k);
      RemoveSub(m[1..], k);
      var r := Remove(m, k);
      if m[0].0 != k {
        forall j | 0 < j < |r| ensures r[0].0 != r[j].0 {
          assert r[j] in Remove(m[1..], k);
          var i :| 0 <= i < |m[1..]| && m[1..][i] == r[j];
          assert m[i + 1] == r[j];
        }
      }
    }
  }

  /** An entry of another key does not change a lookup in the entries from it on. */
  lemma GetSkip(m: Entries, k: int, x: string)
    requires 0 <= k < |m| && m[k].0 != x
    ensures Get(m[k..], x) == Get(m[k + 1..], x)
  {
    assert m[k..][0] == m[k] && m[k..][1..] == m[k + 1..];
  }

  /** The value a key maps to is the one stored under its entry. */
  lemma {:induction false} GetAt(m: Entries, i: int)
    requires DistinctKeys(m) && 0 <= i < |m|
    ensures Get(m, m[i].0) == Some(m[i].1)
    decreases |m|
  {
    if i > 0 {
      assert m[0].0 != m[i].0;
      GetAt(m[1..], i - 1);
    }
  }

  lemma {:induction false} AsMapGet(m: Entries, k: string)
    requires DistinctKeys(m)
    ensures k in AsMap(m) <==> Get(m, k).Some?
    ensures k in AsMap(m) ==> AsMap(m)[k] == Get(m, k).value
    decreases |m|
  {
    if m != [] {
      var n := |m| - 1;
      AsMapGet(m[..n], k);
      if k == m[n].0 {
        GetAt(m, n);
      } else {
        GetInit(m, k);
      }
    }
  }

  /** Looking up a key other than the last entry's ignores the last entry. */
  lemma {:induction false} GetInit(m: Entries, k: string)
    requires m != [] && m[|m| - 1].0 != k
    ensures Get(m, k) == Get(m[..|m| - 1], k)
    decreases |m|
  {
    if |m| > 1 && m[0].0 != k {
      assert m[1..][..|m| - 2] == m[..|m| - 1][1..];
      GetInit(m[1..], k);
    }
  }

  /** `toMap` over pairs whose keys are already distinct keeps them as they are. */
  lemma {:induction false} FromDistinct(ps: Entries)
    requires DistinctKeys(ps)
    ensures FromPairs(ps) == ps
    decreases |ps|
  {
    if ps != [] {
      var n := |ps| - 1;
      FromDistinct(ps[..n]);
      PutAbsent(ps[..n], ps[n].0, ps[n].1);
      assert ps[..n] + [ps[n]] == ps;
    }
  }

  lemma {:induction false} PutAbsent(m: Entries, k: string, v: string)
    requires forall i :: 0 <= i < |m| ==> m[i].0 != k
    ensures Put(m, k, v) == m + [(k, v)]
    decreases |m|
  {
    if m != [] {
      PutAbsent(m[1..], k, v);
      assert [m[0]] + (m[1..] + [(k, v)]) == m + [(k, v)];
    }
  }

  /** The value the last pair with key `k` gives, if any: a reference definition of `toMap`'s lookups. */
  function LastValue(ps: Entries, k: string): Option<string>
    decreases |ps|
  {
    if ps == [] then None
    else if ps[|ps| - 1].0 == k then Some(ps[|ps| - 1].1)
    else LastValue(ps[..|ps| - 1], k)
  }

  /** The last pair with a key, when no later pair repeats it, gives that key's value. */
  lemma {:induction false} LastValueAt(ps: Entries, m: int)
    requires 0 <= m < |ps| && forall j :: m < j < |ps| ==> ps[j].0 != ps[m].0
    ensures LastValue(ps, ps[m].0) == Some(ps[m].1)
    decreases |ps|
  {
    var n := |ps| - 1;
    if m < n {
      assert ps[..n][m] == ps[m];
      LastValueAt(ps[..n], m);
    }
  }

  /** A key no pair carries has no value. */
  lemma {:induction false} LastValueAbsent(ps: Entries, k: string)
    requires forall j :: 0 <= j < |ps| ==> ps[j].0 != k
    ensures LastValue(ps, k) == None
    decreases |ps|
  {
    if ps != [] {
      LastValueAbsent(ps[..|ps| - 1], k);
    }
  }

  /** `toMap` keeps the last value given for each key: later duplicates overwrite earlier ones. */
  lemma {:induction false} GetFromPairs(ps: Entries, k: string)
    ensures Get(FromPairs(ps), k) == LastValue(ps, k)
    decreases |ps|
  {
    if ps != [] {
      var n := |ps| - 1;
      GetFromPairs(ps[..n], k);
      GetPut(FromPairs(ps[..n]), ps[n].0, ps[n].1, k);
    }
  }

  lemma DistinctFromPairs(ps: Entries)
    ensures DistinctKeys(FromPairs(ps))
    decreases |ps|
  {
    if ps != [] {
      DistinctFromPairs(ps[..|ps| - 1]);
      DistinctPut(FromPairs(ps[..|ps| - 1]), ps[|ps| - 1].0, ps[|ps| - 1].1);
    }
  }

  /** Every key looks up the same value, or none, in both. */
  ghost predicate SameGets(m1: Entries, m2: Entries) {
    forall k :: Get(m1, k) == Get(m2, k)
  }

  /** Entries that look every key up alike are the same map. */
  lemma SameLookups(m1: Entries, m2: Entries)
    requires DistinctKeys(m1) && DistinctKeys(m2)
    requires SameGets(m1, m2)
    ensures AsMap(m1) == AsMap(m2)
  {
    var a, b := AsMap(m1), AsMap(m2);
    forall k ensures (k in a <==> k in b) && (k in a ==> a[k] == b[k]) {
      assert Get(m1, k) == Get(m2, k);
      AsMapGet(m1, k);
      AsMapGet(m2, k);
    }
  }

  /** Entries that are the same map look every key up alike. */
  lemma SameMapLookups(m1: Entries, m2: Entries)
    requires DistinctKeys(m1) && DistinctKeys(m2)
    requires AsMap(m1) == AsMap(m2)
    ensures SameGets(m1, m2)
  {
    forall k ensures Get(m1, k) == Get(m2, k) {
      AsMapGet(m1, k);
      AsMapGet(m2, k);
    }
  }
}
