/** PHP arrays with string keys: entries in insertion order. */
module OrderedMap {
  import opened Optional

  /** The entries of an array, first to last. */
  type Entries<V> = seq<(string, V)>

  /** The first components of a list of pairs: the keys of an array, in order. */
  function KeysOf<K, V>(m: seq<(K, V)>): (ks: seq<K>)
    ensures |ks| == |m| && forall i :: 0 <= i < |m| ==> ks[i] == m[i].0
  {
    seq(|m|, i requires 0 <= i < |m| => m[i].0)
  }

  /** `array_key_exists`. */
  predicate HasKey<V>(m: Entries<V>, k: string) {
    k in KeysOf(m)
  }

  predicate DistinctKeys<V>(m: Entries<V>) {
    forall i, j :: 0 <= i < j < |m| ==> m[i].0 != m[j].0
  }

  /** No key of `b` is a key of `a`. */
  predicate Disjoint<V>(a: Entries<V>, b: Entries<V>) {
    forall i, j :: 0 <= i < |a| && 0 <= j < |b| ==> a[i].0 != b[j].0
  }

  /** `$m[$k]`, or None when the key is absent. */
  function Lookup<V>(m: Entries<V>, k: string): Option<V> {
    if |m| == 0 then None
    else if m[0].0 == k then Some(m[0].1)
    else Lookup(m[1..], k)
  }

  /** `$m[$k] = $v`: an existing key keeps its position, a new one goes last. */
  function Put<V>(m: Entries<V>, k: string, v: V): Entries<V> {
    if |m| == 0 then [(k, v)]
    else if m[0].0 == k then [(k, v)] + m[1..]
    else [m[0]] + Put(m[1..], k, v)
  }

  /** `array_merge($m, $extra)` for string keys: each entry of `extra` in turn
      overwrites or is appended. */
  function Merge<V>(m: Entries<V>, extra: Entries<V>): Entries<V>
    decreases |extra|
  {
    if |extra| == 0 then m else Merge(Put(m, extra[0].0, extra[0].1), extra[1..])
  }

  lemma {:induction false} LookupFindsKey<V>(m: Entries<V>, k: string)
    ensures Lookup(m, k).Some? <==> HasKey(m, k)
    ensures HasKey(m, k) ==> exists i :: 0 <= i < |m| && m[i] == (k, Lookup(m, k).value)
  {
    if |m| > 0 {
      KeysOfCons(m);
      if m[0].0 != k {
        LookupFindsKey(m[1..], k);
        assert HasKey(m, k) == HasKey(m[1..], k);
        if HasKey(m, k) {
          var i :| 0 <= i < |m[1..]| && m[1..][i] == (k, Lookup(m[1..], k).value);
          assert m[i + 1] == m[1..][i];
        }
      } else {
        assert KeysOf(m)[0] == k;
        assert m[0] == (k, Lookup(m, k).value);
      }
    }
  }

  /** With distinct keys, the entry at position i is what a lookup of its key finds. */
  lemma {:induction false} LookupDistinct<V>(m: Entries<V>, i: nat)
    requires DistinctKeys(m) && i < |m|
    ensures Lookup(m, m[i].0) == Some(m[i].1)
  {
    if i > 0 {
      LookupDistinct(m[1..], i - 1);
    }
  }

  /** Put stores the value under its key and leaves every other key alone. */
  lemma {:induction false} PutLookup<V>(m: Entries<V>, k: string, v: V, j: string)
    ensures Lookup(Put(m, k, v), j) == if j == k then Some(v) else Lookup(m, j)
  {
    if |m| > 0 && m[0].0 != k {
      PutLookup(m[1..], k, v, j);
      assert Put(m, k, v)[1..] == Put(m[1..], k, v);
    }
  }

  /** Put keeps the order of the keys, appending a new key at the end. */
  lemma {:induction false} KeysOfCons<V>(m: Entries<V>)
    requires |m| > 0
    ensures KeysOf(m) == [m[0].0] + KeysOf(m[1..])
  {
  }

  lemma {:induction false} PutKeys<V>(m: Entries<V>, k: string, v: V)
    ensures KeysOf(Put(m, k, v)) == if HasKey(m, k) then KeysOf(m) else KeysOf(m) + [k]
  {
    if |m| > 0 {
      KeysOfCons(m);
      var p := Put(m, k, v);
      KeysOfCons(p);
      if m[0].0 != k {
        assert HasKey(m, k) == HasKey(m[1..], k);
        PutKeys(m[1..], k, v);
        assert p[1..] == Put(m[1..], k, v);
      } else {
        assert p[1..] == m[1..];
      }
    }
  }

  /** Putting a new key appends it. */
  lemma {:induction false} PutAbsent<V>(m: Entries<V>, k: string, v: V)
    requires !HasKey(m, k)
    ensures Put(m, k, v) == m + [(k, v)]
  {
    if |m| > 0 {
      KeysOfCons(m);
      assert !HasKey(m[1..], k);
      PutAbsent(m[1..], k, v);
      ConsAppend(m, [(k, v)]);
    }
  }

  lemma {:induction false} ConsAppend<V>(m: Entries<V>, x: Entries<V>)
    requires |m| > 0
    ensures [m[0]] + (m[1..] + x) == m + x
  {
    assert m == [m[0]] + m[1..];
  }

  /** Putting an existing key replaces its entry in place. */
  lemma {:induction false} PutPresent<V>(m: Entries<V>, i: nat, v: V)
    requires DistinctKeys(m) && i < |m|
    ensures Put(m, m[i].0, v) == m[i := (m[i].0, v)]
  {
    if i > 0 {
      PutPresent(m[1..], i - 1, v);
      assert m[i := (m[i].0, v)] == [m[0]] + m[1..][i - 1 := (m[i].0, v)];
    }
  }

  /** Merging keeps earlier entries and appends those with fresh keys, in order. */
  lemma {:induction false} MergeDisjoint<V>(m: Entries<V>, extra: Entries<V>)
    requires DistinctKeys(extra) && Disjoint(m, extra)
    ensures Merge(m, extra) == m + extra
    decreases |extra|
  {
    if |extra| > 0 {
      assert !HasKey(m, extra[0].0);
      PutAbsent(m, extra[0].0, extra[0].1);
      var m' := m + [extra[0]];
      MergeDisjoint(m', extra[1..]);
      assert m' + extra[1..] == m + extra;
    }
  }

  /** After a merge a key maps to the merged-in value when `extra` has it,
      and to its old value otherwise. */
  lemma {:induction false} MergeLookup<V>(m: Entries<V>, extra: Entries<V>, j: string)
    requires DistinctKeys(extra)
    ensures Lookup(Merge(m, extra), j) == if HasKey(extra, j) then Lookup(extra, j) else Lookup(m, j)
    decreases |extra|
  {
    if |extra| > 0 {
      var (k, v) := extra[0];
      assert KeysOf(extra) == [k] + KeysOf(extra[1..]);
      MergeLookup(Put(m, k, v), extra[1..], j);
      PutLookup(m, k, v, j);
      if j == k {
        assert !HasKey(extra[1..], k);
      }
    }
  }

  /** The keys after a merge are the keys of both arrays. */
  lemma {:induction false} MergeKeys<V>(m: Entries<V>, extra: Entries<V>)
    ensures forall k :: HasKey(Merge(m, extra), k) <==> HasKey(m, k) || HasKey(extra, k)
    decreases |extra|
  {
    if |extra| > 0 {
      var (k, v) := extra[0];
      assert KeysOf(extra) == [k] + KeysOf(extra[1..]);
      PutKeys(m, k, v);
      MergeKeys(Put(m, k, v), extra[1..]);
    }
  }

  lemma {:induction false} DistinctSplit<V>(x: Entries<V>, y: Entries<V>)
    requires DistinctKeys(x + y)
    ensures DistinctKeys(x) && DistinctKeys(y) && Disjoint(x, y)
  {
    forall i, j | 0 <= i < j < |y| ensures y[i].0 != y[j].0 {
      assert (x + y)[|x| + i] == y[i] && (x + y)[|x| + j] == y[j];
    }
    forall i, j | 0 <= i < j < |x| ensures x[i].0 != x[j].0 {
      assert (x + y)[i] == x[i] && (x + y)[j] == x[j];
    }
    forall i, j | 0 <= i < |x| && 0 <= j < |y| ensures x[i].0 != y[j].0 {
      assert (x + y)[i] == x[i] && (x + y)[|x| + j] == y[j];
    }
  }

  lemma {:induction false} DisjointSplitLeft<V>(x: Entries<V>, y: Entries<V>, z: Entries<V>)
    ensures Disjoint(x + y, z) <==> Disjoint(x, z) && Disjoint(y, z)
  {
    if Disjoint(x, z) && Disjoint(y, z) {
      forall i, j | 0 <= i < |x + y| && 0 <= j < |z| ensures (x + y)[i].0 != z[j].0 {
        if i >= |x| {
          assert (x + y)[i] == y[i - |x|];
        }
      }
    }
    if Disjoint(x + y, z) {
      forall i, j | 0 <= i < |x| && 0 <= j < |z| ensures x[i].0 != z[j].0 {
        assert (x + y)[i] == x[i];
      }
      forall i, j | 0 <= i < |y| && 0 <= j < |z| ensures y[i].0 != z[j].0 {
        assert (x + y)[|x| + i] == y[i];
      }
    }
  }

  /** A key missing from an array is neither its first key nor in its tail. */
  lemma {:induction false} HasKeyTail<V>(m: Entries<V>, k: string)
    requires |m| > 0 && !HasKey(m, k)
    ensures m[0].0 != k && !HasKey(m[1..], k)
  {
    KeysOfCons(m);
  }

  lemma {:induction false} SameKeysDistinct<V>(x: Entries<V>, y: Entries<V>)
    requires KeysOf(x) == KeysOf(y) && DistinctKeys(x)
    ensures DistinctKeys(y)
  {
    forall i, j | 0 <= i < j < |y| ensures y[i].0 != y[j].0 {
      assert KeysOf(x)[i] == KeysOf(y)[i] && KeysOf(x)[j] == KeysOf(y)[j];
    }
  }

  lemma {:induction false} DistinctTail<V>(m: Entries<V>)
    requires DistinctKeys(m) && |m| > 0
    ensures DistinctKeys(m[1..]) && !HasKey(m[1..], m[0].0)
  {
    forall i | 0 <= i < |m| - 1 ensures KeysOf(m[1..])[i] != m[0].0 {
      assert m[1..][i] == m[i + 1];
    }
  }

  /** The position of key `k` in `m`, or `|m|` when `m` does not have it. */
  function KeyIndex<V>(m: Entries<V>, k: string): (i: nat)
    ensures i <= |m| && (i < |m| <==> HasKey(m, k))
    ensures i < |m| ==> m[i].0 == k
    ensures forall j :: 0 <= j < i ==> m[j].0 != k
  {
    if |m| == 0 then 0
    else
      KeysOfCons(m);
      if m[0].0 == k then 0 else 1 + KeyIndex(m[1..], k)
  }

  /** In an array with distinct keys, the key at position `i` is found there. */
  lemma {:induction false} KeyAt<V>(m: Entries<V>, i: nat)
    requires DistinctKeys(m) && i < |m|
    ensures HasKey(m, m[i].0) && KeyIndex(m, m[i].0) == i
  {
    assert KeysOf(m)[i] == m[i].0;
  }

  /** Arrays with the same keys in the same order find a key at the same place. */
  lemma {:induction false} KeyIndexSameKeys<V>(a: Entries<V>, b: Entries<V>, k: string)
    requires KeysOf(a) == KeysOf(b)
    ensures KeyIndex(a, k) == KeyIndex(b, k)
  {
  }

  /** The entries of `m` as they stand once `other` is merged over them: each
      key keeps its place and takes the value `other` has for it, if any. */
  function Override<V>(m: Entries<V>, other: Entries<V>): (r: Entries<V>)
    ensures |r| == |m|
    ensures forall i :: 0 <= i < |m| ==> r[i] == (m[i].0, Lookup(other, m[i].0).GetOr(m[i].1))
  {
    if |m| == 0 then []
    else [(m[0].0, Lookup(other, m[0].0).GetOr(m[0].1))] + Override(m[1..], other)
  }

  /** The entries of `m` whose keys `other` does not have, in order. */
  function Unclaimed<V>(m: Entries<V>, other: Entries<V>): (r: Entries<V>)
    ensures |r| <= |m|
  {
    if |m| == 0 then []
    else (if HasKey(other, m[0].0) then [] else [m[0]]) + Unclaimed(m[1..], other)
  }

  lemma {:induction false} OverrideKeys<V>(m: Entries<V>, other: Entries<V>)
    ensures KeysOf(Override(m, other)) == KeysOf(m)
  {
    var r := Override(m, other);
    assert forall i :: 0 <= i < |m| ==> KeysOf(r)[i] == r[i].0 == m[i].0 == KeysOf(m)[i];
  }

  /** Merging in an array that shares no key with `m` leaves `m` as it is. */
  lemma {:induction false} OverrideNothing<V>(m: Entries<V>, other: Entries<V>)
    requires forall i :: 0 <= i < |m| ==> Lookup(other, m[i].0).None?
    ensures Override(m, other) == m
  {
    var r := Override(m, other);
    assert forall i :: 0 <= i < |m| ==> r[i] == m[i];
  }

  /** Only the values `other` has for the keys of `m` matter. */
  lemma {:induction false} OverrideAgree<V>(m: Entries<V>, a: Entries<V>, b: Entries<V>)
    requires forall i :: 0 <= i < |m| ==> Lookup(a, m[i].0) == Lookup(b, m[i].0)
    ensures Override(m, a) == Override(m, b)
  {
    var ra, rb := Override(m, a), Override(m, b);
    assert forall i :: 0 <= i < |m| ==> ra[i] == rb[i];
  }

  lemma {:induction false} OverrideAppend<V>(x: Entries<V>, y: Entries<V>, other: Entries<V>)
    ensures Override(x + y, other) == Override(x, other) + Override(y, other)
  {
    var r, rx, ry := Override(x + y, other), Override(x, other), Override(y, other);
    forall i | 0 <= i < |x + y| ensures r[i] == (rx + ry)[i] {
      if i < |x| {
        assert (x + y)[i] == x[i];
      } else {
        assert (x + y)[i] == y[i - |x|];
      }
    }
  }

  /** Only whether `a` and `b` have each key of `m` matters. */
  lemma {:induction false} UnclaimedAgree<V>(m: Entries<V>, a: Entries<V>, b: Entries<V>)
    requires forall i :: 0 <= i < |m| ==> HasKey(a, m[i].0) == HasKey(b, m[i].0)
    ensures Unclaimed(m, a) == Unclaimed(m, b)
    decreases |m|
  {
    if |m| > 0 {
      assert forall i :: 0 <= i < |m| - 1 ==> m[1..][i] == m[i + 1];
      UnclaimedAgree(m[1..], a, b);
    }
  }

  /** Nothing is unclaimed by an array that has every key. */
  lemma {:induction false} UnclaimedAll<V>(m: Entries<V>, other: Entries<V>)
    requires forall i :: 0 <= i < |m| ==> HasKey(other, m[i].0)
    ensures Unclaimed(m, other) == []
    decreases |m|
  {
    if |m| > 0 {
      assert forall i :: 0 <= i < |m| - 1 ==> m[1..][i] == m[i + 1];
      UnclaimedAll(m[1..], other);
    }
  }

  /** Everything is unclaimed by an array that has none of the keys. */
  lemma {:induction false} UnclaimedNone<V>(m: Entries<V>, other: Entries<V>)
    requires forall i :: 0 <= i < |m| ==> !HasKey(other, m[i].0)
    ensures Unclaimed(m, other) == m
    decreases |m|
  {
    if |m| > 0 {
      assert forall i :: 0 <= i < |m| - 1 ==> m[1..][i] == m[i + 1];
      UnclaimedNone(m[1..], other);
      assert m == [m[0]] + m[1..];
    }
  }

  /** The unclaimed entries are entries of `m`, in order, without those of `other`. */
  lemma {:induction false} UnclaimedHasKey<V>(m: Entries<V>, other: Entries<V>, k: string)
    ensures HasKey(Unclaimed(m, other), k) <==> HasKey(m, k) && !HasKey(other, k)
    decreases |m|
  {
    if |m| > 0 {
      KeysOfCons(m);
      UnclaimedHasKey(m[1..], other, k);
      var head: Entries<V> := if HasKey(other, m[0].0) then [] else [m[0]];
      KeysOfAppend(head, Unclaimed(m[1..], other));
    }
  }

  lemma {:induction false} UnclaimedDistinct<V>(m: Entries<V>, other: Entries<V>)
    requires DistinctKeys(m)
    ensures DistinctKeys(Unclaimed(m, other))
    decreases |m|
  {
    if |m| > 0 {
      DistinctTail(m);
      UnclaimedDistinct(m[1..], other);
      var rest := Unclaimed(m[1..], other);
      if !HasKey(other, m[0].0) {
        UnclaimedHasKey(m[1..], other, m[0].0);
        forall j | 0 <= j < |rest| ensures rest[j].0 != m[0].0 {
          assert KeysOf(rest)[j] == rest[j].0;
        }
        DistinctCons(m[0], rest);
      }
    }
  }

  lemma {:induction false} KeysOfAppend<V>(x: Entries<V>, y: Entries<V>)
    ensures KeysOf(x + y) == KeysOf(x) + KeysOf(y)
  {
    var l, r := KeysOf(x + y), KeysOf(x) + KeysOf(y);
    forall i | 0 <= i < |x + y| ensures l[i] == r[i] {
      if i < |x| {
        assert (x + y)[i] == x[i];
      } else {
        assert (x + y)[i] == y[i - |x|];
      }
    }
  }

  lemma {:induction false} DistinctCons<V>(e: (string, V), m: Entries<V>)
    requires DistinctKeys(m) && forall j :: 0 <= j < |m| ==> m[j].0 != e.0
    ensures DistinctKeys([e] + m)
  {
    var x := [e] + m;
    forall i, j | 0 <= i < j < |x| ensures x[i].0 != x[j].0 {
      assert x[j] == m[j - 1];
      if i > 0 {
        assert x[i] == m[i - 1];
      }
    }
  }

  /** Two arrays with distinct keys and none in common join into one. */
  lemma {:induction false} DistinctJoin<V>(x: Entries<V>, y: Entries<V>)
    requires DistinctKeys(x) && DistinctKeys(y) && Disjoint(x, y)
    ensures DistinctKeys(x + y)
  {
    var z := x + y;
    forall i, j | 0 <= i < j < |z| ensures z[i].0 != z[j].0 {
      if j < |x| {
        assert z[i] == x[i] && z[j] == x[j];
      } else if i >= |x| {
        assert z[i] == y[i - |x|] && z[j] == y[j - |x|];
      } else {
        assert z[i] == x[i] && z[j] == y[j - |x|];
      }
    }
  }

  /** `array_merge($m, $extra)` with string keys, laid out: the entries of `m`
      in place, taking the value `extra` has for a shared key, then the
      entries of `extra` with new keys, in order. */
  lemma {:induction false} MergeShape<V>(m: Entries<V>, extra: Entries<V>)
    requires DistinctKeys(m) && DistinctKeys(extra)
    ensures Merge(m, extra) == Override(m, extra) + Unclaimed(extra, m)
    decreases |extra|
  {
    if |extra| == 0 {
      OverrideNothing(m, extra);
    } else {
      var (k, v) := extra[0];
      DistinctTail(extra);
      if HasKey(m, k) {
        var i := KeyIndex(m, k);
        PutPresent(m, i, v);
        PutKeys(m, k, v);
        SameKeysDistinct(m, m[i := (k, v)]);
        MergeShape(m[i := (k, v)], extra[1..]);
        ShapeSharedStep(m, extra, i);
      } else {
        PutAbsent(m, k, v);
        forall j | 0 <= j < |m| ensures m[j].0 != k {
          assert KeysOf(m)[j] == m[j].0;
        }
        DistinctJoin(m, [(k, v)]);
        MergeShape(m + [(k, v)], extra[1..]);
        ShapeNewStep(m, extra);
      }
    }
  }

  /** One step of `MergeShape` for a key `m` already has, at position `i`. */
  lemma {:induction false} ShapeSharedStep<V>(m: Entries<V>, extra: Entries<V>, i: nat)
    requires DistinctKeys(m) && DistinctKeys(extra) && 0 < |extra| && i < |m| && m[i].0 == extra[0].0
    ensures var m' := m[i := extra[0]];
      Override(m', extra[1..]) + Unclaimed(extra[1..], m') == Override(m, extra) + Unclaimed(extra, m)
  {
    OverrideSharedStep(m, extra, i);
    UnclaimedSharedStep(m, extra, i);
  }

  lemma {:induction false} OverrideSharedStep<V>(m: Entries<V>, extra: Entries<V>, i: nat)
    requires DistinctKeys(m) && DistinctKeys(extra) && 0 < |extra| && i < |m| && m[i].0 == extra[0].0
    ensures Override(m[i := extra[0]], extra[1..]) == Override(m, extra)
  {
    var (k, v) := extra[0];
    var rest, m' := extra[1..], m[i := extra[0]];
    DistinctTail(extra);
    LookupFindsKey(rest, k);
    var o, o' := Override(m, extra), Override(m', rest);
    forall j | 0 <= j < |m| ensures o'[j] == o[j] {
      if m[j].0 != k {
        assert Lookup(rest, m[j].0) == Lookup(extra, m[j].0);
      } else {
        assert j == i;
        assert Lookup(extra, k) == Some(v) && Lookup(rest, k) == None;
      }
    }
  }

  lemma {:induction false} UnclaimedSharedStep<V>(m: Entries<V>, extra: Entries<V>, i: nat)
    requires 0 < |extra| && i < |m| && m[i].0 == extra[0].0
    ensures Unclaimed(extra[1..], m[i := extra[0]]) == Unclaimed(extra, m)
  {
    var k := extra[0].0;
    var rest, m' := extra[1..], m[i := extra[0]];
    KeysOfCons(m);
    assert HasKey(m, k) by {
      assert KeysOf(m)[i] == k;
    }
    assert KeysOf(m') == KeysOf(m);
    UnclaimedAgree(rest, m', m);
  }

  /** One step of `MergeShape` for a key `m` does not have yet. */
  lemma {:induction false} ShapeNewStep<V>(m: Entries<V>, extra: Entries<V>)
    requires DistinctKeys(extra) && 0 < |extra| && !HasKey(m, extra[0].0)
    ensures var m' := m + [extra[0]];
      Override(m', extra[1..]) + Unclaimed(extra[1..], m') == Override(m, extra) + Unclaimed(extra, m)
  {
    var (k, v) := extra[0];
    OverrideNewStep(m, extra);
    UnclaimedNewStep(m, extra);
    assert Override(m, extra) + [(k, v)] + Unclaimed(extra[1..], m)
        == Override(m, extra) + ([(k, v)] + Unclaimed(extra[1..], m));
  }

  lemma {:induction false} OverrideNewStep<V>(m: Entries<V>, extra: Entries<V>)
    requires DistinctKeys(extra) && 0 < |extra| && !HasKey(m, extra[0].0)
    ensures Override(m + [extra[0]], extra[1..]) == Override(m, extra) + [extra[0]]
  {
    var (k, v) := extra[0];
    var rest := extra[1..];
    DistinctTail(extra);
    LookupFindsKey(rest, k);
    forall j | 0 <= j < |m| ensures Lookup(rest, m[j].0) == Lookup(extra, m[j].0) {
      assert KeysOf(m)[j] == m[j].0;
    }
    OverrideAppend(m, [(k, v)], rest);
    OverrideAgree(m, rest, extra);
    assert Override([(k, v)], rest) == [(k, v)];
  }

  lemma {:induction false} UnclaimedNewStep<V>(m: Entries<V>, extra: Entries<V>)
    requires DistinctKeys(extra) && 0 < |extra| && !HasKey(m, extra[0].0)
    ensures Unclaimed(extra[1..], m + [extra[0]]) == Unclaimed(extra[1..], m)
    ensures Unclaimed(extra, m) == [extra[0]] + Unclaimed(extra[1..], m)
  {
    var (k, v) := extra[0];
    var rest := extra[1..];
    DistinctTail(extra);
    LookupFindsKey(rest, k);
    KeysOfAppend(m, [(k, v)]);
    forall j | 0 <= j < |rest| ensures HasKey(m + [(k, v)], rest[j].0) == HasKey(m, rest[j].0) {
      assert KeysOf(rest)[j] == rest[j].0;
    }
    UnclaimedAgree(rest, m + [(k, v)], m);
  }

  lemma {:induction false} PutDistinct<V>(m: Entries<V>, k: string, v: V)
    requires DistinctKeys(m)
    ensures DistinctKeys(Put(m, k, v))
  {
    PutKeys(m, k, v);
    if HasKey(m, k) {
      SameKeysDistinct(m, Put(m, k, v));
    } else {
      PutAbsent(m, k, v);
      forall i | 0 <= i < |m| ensures m[i].0 != k {
        assert KeysOf(m)[i] == m[i].0;
      }
      DistinctJoin(m, [(k, v)]);
    }
  }

  /** `array_merge` of an array with distinct keys has distinct keys. */
  lemma {:induction false} MergeDistinct<V>(m: Entries<V>, extra: Entries<V>)
    requires DistinctKeys(m)
    ensures DistinctKeys(Merge(m, extra))
    decreases |extra|
  {
    if |extra| > 0 {
      PutDistinct(m, extra[0].0, extra[0].1);
      MergeDistinct(Put(m, extra[0].0, extra[0].1), extra[1..]);
    }
  }
}
