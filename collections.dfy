/** Collections shared by the models: an option type, JavaScript plain
    objects used as dictionaries (insertion-ordered, distinct string keys),
    and the first-occurrence deduplication a `Set` performs. */
module Collections {

  datatype Option<+T> = None | Some(value: T)

  /** Element `i` of `s`. Distinctness is stated over it, so that the
      pairwise fact is only used where a proof names two positions. */
  function At<T>(s: seq<T>, i: nat): T
    requires i < |s|
  {
    s[i]
  }

  predicate Distinct<T(==)>(s: seq<T>) {
    forall i: nat, j: nat {:trigger At(s, i), At(s, j)} :: i < j < |s| ==> At(s, i) != At(s, j)
  }

  /** Two positions of a sequence without repetitions hold different elements. */
  lemma DistinctAt<T>(s: seq<T>, i: nat, j: nat)
    requires Distinct(s) && i < |s| && j < |s| && i != j
    ensures s[i] != s[j]
  {
    if i < j {
      assert At(s, i) != At(s, j);
    } else {
      assert At(s, j) != At(s, i);
    }
  }

  /** Appending a new element keeps a sequence without repetitions. */
  lemma DistinctSnoc<T>(s: seq<T>, x: T)
    requires Distinct(s) && x !in s
    ensures Distinct(s + [x])
  {
    var r := s + [x];
    forall i: nat, j: nat | i < j < |r| ensures At(r, i) != At(r, j) {
      if j < |s| {
        DistinctAt(s, i, j);
      }
    }
  }

  /** A prefix of a sequence without repetitions has none. */
  lemma DistinctPrefix<T>(s: seq<T>, n: nat)
    requires Distinct(s) && n <= |s|
    ensures Distinct(s[..n])
  {
    forall i: nat, j: nat | i < j < n ensures At(s[..n], i) != At(s[..n], j) {
      DistinctAt(s, i, j);
    }
  }

  /** The key of entry `i`. Distinct keys are stated over it, so that the
      pairwise fact is only used where a proof names two entries. */
  function KeyAt<V>(m: seq<(string, V)>, i: nat): string
    requires i < |m|
  {
    m[i].0
  }

  predicate DistinctKeys<V>(m: seq<(string, V)>) {
    forall i: nat, j: nat {:trigger KeyAt(m, i), KeyAt(m, j)} :: i < j < |m| ==> KeyAt(m, i) != KeyAt(m, j)
  }

  /** A JavaScript object used as a dictionary: its entries in insertion
      order; every key occurs once. */
  type Dict<V> = m: seq<(string, V)> | DistinctKeys(m) witness []

  /** Two entries of a dictionary have different keys. */
  lemma EntryKeysDiffer<V>(m: Dict<V>, i: nat, j: nat)
    requires i < |m| && j < |m| && i != j
    ensures m[i].0 != m[j].0
  {
    if i < j {
      assert KeyAt(m, i) != KeyAt(m, j);
    } else {
      assert KeyAt(m, j) != KeyAt(m, i);
    }
  }

  function Keys<V>(m: seq<(string, V)>): (ks: seq<string>)
    ensures |ks| == |m|
    ensures forall i :: 0 <= i < |m| ==> ks[i] == m[i].0
  {
    seq(|m|, i requires 0 <= i < |m| => m[i].0)
  }

  /** `m[k]`: the value of the first entry with key `k`, if any. */
  function Lookup<V>(m: seq<(string, V)>, k: string): (r: Option<V>)
    ensures r.None? <==> k !in Keys(m)
  {
    if |m| == 0 then None
    else if m[0].0 == k then Some(m[0].1)
    else
      assert Keys(m) == [m[0].0] + Keys(m[1..]);
      Lookup(m[1..], k)
  }

  /** A value found by a lookup is stored in an entry under that key. */
  lemma {:induction false} LookupFound<V>(m: seq<(string, V)>, k: string)
    requires Lookup(m, k).Some?
    ensures exists i :: 0 <= i < |m| && m[i] == (k, Lookup(m, k).value)
  {
    if m[0].0 != k {
      LookupFound(m[1..], k);
      var i :| 0 <= i < |m[1..]| && m[1..][i] == (k, Lookup(m[1..], k).value);
      assert m[i + 1] == (k, Lookup(m, k).value);
    }
  }

  /** In a dictionary, the entry at position `i` is what a lookup of its key finds. */
  lemma LookupAt<V>(m: Dict<V>, i: int)
    requires 0 <= i < |m|
    ensures Lookup(m, m[i].0) == Some(m[i].1)
  {
    var r := Lookup(m, m[i].0);
    assert Keys(m)[i] == m[i].0;
    LookupFound(m, m[i].0);
    var j :| 0 <= j < |m| && m[j] == (m[i].0, r.value);
    if j != i {
      EntryKeysDiffer(m, i, j);
    }
  }

  /** The position of the first entry with key `k`. */
  function IndexOfKey<V>(m: seq<(string, V)>, k: string): (i: nat)
    requires k in Keys(m)
    ensures i < |m| && m[i].0 == k
  {
    if m[0].0 == k then 0
    else
      assert k in Keys(m[1..]) by {
        var j :| 0 <= j < |m| && Keys(m)[j] == k;
        assert Keys(m[1..])[j - 1] == k;
      }
      1 + IndexOfKey(m[1..], k)
  }

  /** `m[k] = v`: an existing key keeps its position and takes the new value;
      a new key is appended. */
  function Put<V>(m: Dict<V>, k: string, v: V): (r: Dict<V>)
    ensures Lookup(r, k) == Some(v)
    ensures forall k' :: k' != k ==> Lookup(r, k') == Lookup(m, k')
  {
    if k in Keys(m) then
      var i := IndexOfKey(m, k);
      var r := m[i := (k, v)];
      assert DistinctKeys(r) by {
        forall a: nat, b: nat | a < b < |r| ensures KeyAt(r, a) != KeyAt(r, b) {
          assert KeyAt(r, a) == KeyAt(m, a) && KeyAt(r, b) == KeyAt(m, b);
        }
      }
      PutFrame(m, r, k, i);
      LookupAt(r, i);
      r
    else
      var r := m + [(k, v)];
      assert DistinctKeys(r) by {
        forall a: nat, b: nat | a < b < |r| ensures KeyAt(r, a) != KeyAt(r, b) {
          assert KeyAt(r, a) == Keys(m)[a];
          if b < |m| {
            assert KeyAt(r, b) == KeyAt(m, b) && KeyAt(r, a) == KeyAt(m, a);
          }
        }
      }
      PutFrame(m, r, k, |m|);
      LookupAt(r, |m|);
      r
  }

  /** Setting a key keeps the key order and appends a new key at the end. */
  lemma PutKeys<V>(m: Dict<V>, k: string, v: V)
    ensures Keys(Put(m, k, v)) == if k in Keys(m) then Keys(m) else Keys(m) + [k]
  {
    if k in Keys(m) {
      PutFrame(m, Put(m, k, v), k, IndexOfKey(m, k));
    } else {
      PutFrame(m, Put(m, k, v), k, |m|);
    }
  }

  /** The lookups of a dictionary that differs from `m` only at entry `i`,
      which holds key `k`, agree with those of `m` on every other key. */
  lemma PutFrame<V>(m: Dict<V>, r: Dict<V>, k: string, i: nat)
    requires i <= |m| && |r| == (if i < |m| then |m| else |m| + 1)
    requires i < |m| ==> m[i].0 == k
    requires r[i].0 == k
    requires forall j :: 0 <= j < |m| && j != i ==> r[j] == m[j]
    ensures Keys(r) == if i < |m| then Keys(m) else Keys(m) + [k]
    ensures forall k' :: k' != k ==> Lookup(r, k') == Lookup(m, k')
  {
    if i < |m| {
      assert Keys(r) == Keys(m);
    } else {
      assert Keys(r) == Keys(m) + [k];
    }
    forall k' | k' != k ensures Lookup(r, k') == Lookup(m, k') {
      if k' in Keys(m) {
        var j :| 0 <= j < |m| && m[j].0 == k';
        LookupAt(m, j);
        LookupAt(r, j);
      } else {
        assert k' !in Keys(r);
      }
    }
  }

  /** Two dictionaries with the same keys in the same order and the same
      value under every key are equal. */
  lemma DictExtensionality<V>(a: Dict<V>, b: Dict<V>)
    requires Keys(a) == Keys(b)
    requires forall k :: Lookup(a, k) == Lookup(b, k)
    ensures a == b
  {
    forall i | 0 <= i < |a| ensures a[i] == b[i] {
      assert Keys(a)[i] == Keys(b)[i];
      LookupAt(a, i);
      LookupAt(b, i);
    }
  }

  /** Setting a key twice keeps only the second value. */
  lemma PutTwice<V>(m: Dict<V>, k: string, v: V, w: V)
    ensures Put(Put(m, k, v), k, w) == Put(m, k, w)
  {
    PutKeys(m, k, v);
    PutKeys(Put(m, k, v), k, w);
    PutKeys(m, k, w);
    DictExtensionality(Put(Put(m, k, v), k, w), Put(m, k, w));
  }

  /** The dictionary built from `{}` by setting each entry's key in turn. */
  function PutAll<V>(entries: seq<(string, V)>): Dict<V>
    decreases |entries|
  {
    if entries == [] then []
    else
      var n := |entries| - 1;
      Put(PutAll(entries[..n]), entries[n].0, entries[n].1)
  }

  /** Every key that is set is a key, in order of first setting. */
  lemma {:induction false} PutAllKeys<V>(entries: seq<(string, V)>)
    ensures Keys(PutAll(entries)) == Dedup(Keys(entries))
    decreases |entries|
  {
    if entries != [] {
      var n := |entries| - 1;
      PutAllKeys(entries[..n]);
      PutKeys(PutAll(entries[..n]), entries[n].0, entries[n].1);
      KeysSnoc(entries);
      DedupSnoc(Keys(entries[..n]), entries[n].0);
      DedupMember(Keys(entries[..n]), entries[n].0);
    }
  }

  lemma KeysSnoc<V>(entries: seq<(string, V)>)
    requires entries != []
    ensures Keys(entries) == Keys(entries[..|entries| - 1]) + [entries[|entries| - 1].0]
  {
  }

  /** A key holds the value of the last entry that sets it. */
  lemma {:induction false} PutAllLookup<V>(entries: seq<(string, V)>, i: nat)
    requires i < |entries|
    requires forall j :: i < j < |entries| ==> entries[j].0 != entries[i].0
    ensures Lookup(PutAll(entries), entries[i].0) == Some(entries[i].1)
    decreases |entries|
  {
    var n := |entries| - 1;
    if i < n {
      var p := entries[..n];
      assert p[i] == entries[i];
      assert forall j :: i < j < |p| ==> p[j] == entries[j];
      PutAllLookup(p, i);
    }
  }

  /** The elements of `s` in order of first occurrence, each once: what
      `Array.from(new Set(s))` yields. */
  function Dedup<T(==)>(s: seq<T>): (r: seq<T>)
    ensures Distinct(r)
    ensures forall i :: 0 <= i < |r| ==> r[i] in s
    ensures |r| <= |s|
    decreases |s|
  {
    if |s| == 0 then []
    else
      var d := Dedup(s[..|s| - 1]);
      assert s == s[..|s| - 1] + [s[|s| - 1]];
      if s[|s| - 1] in d then d else DistinctSnoc(d, s[|s| - 1]); d + [s[|s| - 1]]
  }

  /** Deduplicating a sequence with one more element at its end. */
  lemma DedupSnoc<T>(s: seq<T>, x: T)
    ensures Dedup(s + [x]) == if x in s then Dedup(s) else Dedup(s) + [x]
  {
    assert (s + [x])[..|s + [x]| - 1] == s;
    DedupMember(s, x);
  }

  /** Deduplication keeps exactly the elements. */
  lemma {:induction false} DedupMember<T>(s: seq<T>, x: T)
    ensures x in Dedup(s) <==> x in s
    decreases |s|
  {
    if x in Dedup(s) {
      var i :| 0 <= i < |Dedup(s)| && Dedup(s)[i] == x;
    }
    if |s| > 0 {
      DedupMember(s[..|s| - 1], x);
      assert s == s[..|s| - 1] + [s[|s| - 1]];
    }
  }

  /** A sequence of distinct elements is its own deduplication. */
  lemma {:induction false} DedupOfDistinct<T>(s: seq<T>)
    requires Distinct(s)
    ensures Dedup(s) == s
    decreases |s|
  {
    if |s| > 0 {
      var p, x := s[..|s| - 1], s[|s| - 1];
      DistinctPrefix(s, |s| - 1);
      DedupOfDistinct(p);
      assert x !in p by {
        forall k | 0 <= k < |p| ensures p[k] != x {
          DistinctAt(s, k, |s| - 1);
        }
      }
      assert s == p + [x];
    }
  }

  /** The elements of `s` that satisfy `p`, in order. */
  function FilterSeq<T(==)>(s: seq<T>, p: T -> bool): (r: seq<T>)
    ensures forall i :: 0 <= i < |r| ==> r[i] in s && p(r[i])
    ensures |r| <= |s|
    decreases |s|
  {
    if |s| == 0 then []
    else
      assert s == s[..|s| - 1] + [s[|s| - 1]];
      FilterSeq(s[..|s| - 1], p) + (if p(s[|s| - 1]) then [s[|s| - 1]] else [])
  }

  /** Filtering keeps exactly the elements that satisfy the predicate. */
  lemma {:induction false} FilterSeqMember<T>(s: seq<T>, p: T -> bool, x: T)
    ensures x in FilterSeq(s, p) <==> x in s && p(x)
    decreases |s|
  {
    if |s| > 0 {
      FilterSeqMember(s[..|s| - 1], p, x);
      assert s == s[..|s| - 1] + [s[|s| - 1]];
    }
  }

  /** Filtering by a predicate every element meets changes nothing. */
  lemma {:induction false} FilterSeqAll<T>(s: seq<T>, p: T -> bool)
    requires forall i :: 0 <= i < |s| ==> p(s[i])
    ensures FilterSeq(s, p) == s
    decreases |s|
  {
    if |s| > 0 {
      FilterSeqAll(s[..|s| - 1], p);
      assert s == s[..|s| - 1] + [s[|s| - 1]];
    }
  }

  /** Filters by predicates that agree everywhere agree. */
  lemma {:induction false} FilterSeqCongruent<T>(s: seq<T>, p: T -> bool, q: T -> bool)
    requires forall x :: p(x) == q(x)
    ensures FilterSeq(s, p) == FilterSeq(s, q)
    decreases |s|
  {
    if |s| > 0 {
      FilterSeqCongruent(s[..|s| - 1], p, q);
    }
  }

  /** Filtering distributes over concatenation. */
  lemma {:induction false} FilterSeqAppend<T>(a: seq<T>, b: seq<T>, p: T -> bool)
    ensures FilterSeq(a + b, p) == FilterSeq(a, p) + FilterSeq(b, p)
    decreases |b|
  {
    if |b| == 0 {
      assert a + b == a;
    } else {
      var b' := b[..|b| - 1];
      assert (a + b)[..|a + b| - 1] == a + b';
      assert (a + b)[|a + b| - 1] == b[|b| - 1];
      FilterSeqAppend(a, b', p);
    }
  }
}
