/**
 * The hand-rolled dictionaries of both scripts (`d_0`, `word_dict`, `time_dict` and their
 * twins): `if k in d: d[k] += 1 else: d[k] = 1`. A Python `dict` remembers insertion order and
 * that order decides ties later on, so a dictionary is an insertion-ordered sequence of
 * `(key, count)` pairs: a new key goes at the end, an existing key is bumped where it stands.
 */
module Counting {

  type Counts<K> = seq<(K, nat)>

  /** `list(d.keys())`. */
  function Keys<K>(d: Counts<K>): (r: seq<K>)
    ensures |r| == |d|
  {
    seq(|d|, i requires 0 <= i < |d| => d[i].0)
  }

  /** Every key is stored once, as in a Python `dict`. */
  predicate DistinctKeys<K(==)>(d: Counts<K>)
  {
    forall i, j :: 0 <= i < j < |d| ==> d[i].0 != d[j].0
  }

  /** Where key `k` is stored, or -1 when `k not in d`. */
  function IndexOf<K(==)>(d: Counts<K>, k: K): (r: int)
    decreases |d|
    ensures -1 <= r < |d|
    ensures r >= 0 ==> d[r].0 == k
    ensures r < 0 ==> forall i :: 0 <= i < |d| ==> d[i].0 != k
  {
    if |d| == 0 then -1
    else if d[|d| - 1].0 == k then |d| - 1
    else IndexOf(d[..|d| - 1], k)
  }

  /** Python's `k in d`. */
  predicate HasKey<K(==)>(d: Counts<K>, k: K)
  {
    IndexOf(d, k) >= 0
  }

  /** The count stored for `k`, 0 when there is none (`d.get(k, 0)`). */
  function Get<K(==)>(d: Counts<K>, k: K): nat
  {
    var j := IndexOf(d, k);
    if j < 0 then 0 else d[j].1
  }

  /** One pass of the counting loop: `d[k] += 1` in place, or `d[k] = 1` at the end. */
  function Inc<K(==)>(d: Counts<K>, k: K): Counts<K>
  {
    var j := IndexOf(d, k);
    if j < 0 then d + [(k, 1)] else d[j := (k, d[j].1 + 1)]
  }

  /** The dictionary the counting loop builds from `xs`. */
  function Tally<K(==)>(xs: seq<K>): Counts<K>
    decreases |xs|
  {
    if |xs| == 0 then [] else Inc(Tally(xs[..|xs| - 1]), xs[|xs| - 1])
  }

  /** `sum(d.values())`. */
  function Total<K>(d: Counts<K>): nat
    decreases |d|
  {
    if |d| == 0 then 0 else Total(d[..|d| - 1]) + d[|d| - 1].1
  }

  /** The index of the first occurrence of `k` in `xs`. */
  function FirstIndex<K(==)>(xs: seq<K>, k: K): (r: nat)
    requires k in xs
    ensures r < |xs| && xs[r] == k
    ensures forall i :: 0 <= i < r ==> xs[i] != k
  {
    if xs[0] == k then 0 else 1 + FirstIndex(xs[1..], k)
  }

  // ---------------------------------------------------------------------------
  // Lookup
  // ---------------------------------------------------------------------------

  /** With distinct keys, the key stored at `j` is found at `j`. */
  lemma IndexOfUnique<K>(d: Counts<K>, j: nat)
    requires DistinctKeys(d) && j < |d|
    ensures IndexOf(d, d[j].0) == j
  {
  }

  /** Lookup depends only on the keys, not on the counts. */
  lemma {:induction false} IndexOfSameKeys<K>(d: Counts<K>, e: Counts<K>, k: K)
    requires |d| == |e| && forall i :: 0 <= i < |d| ==> d[i].0 == e[i].0
    decreases |d|
    ensures IndexOf(d, k) == IndexOf(e, k)
  {
    if |d| > 0 && d[|d| - 1].0 != k {
      IndexOfSameKeys(d[..|d| - 1], e[..|e| - 1], k);
    }
  }

  /** Replacing one count changes the sum by the difference. */
  lemma {:induction false} TotalUpdate<K>(d: Counts<K>, j: nat, k: K, v: nat)
    requires j < |d|
    decreases |d|
    ensures Total(d[j := (k, v)]) + d[j].1 == Total(d) + v
  {
    var e := d[j := (k, v)];
    if j < |d| - 1 {
      assert e[..|e| - 1] == d[..|d| - 1][j := (k, v)];
      TotalUpdate(d[..|d| - 1], j, k, v);
    } else {
      assert e[..|e| - 1] == d[..|d| - 1];
    }
  }

  // ---------------------------------------------------------------------------
  // One increment
  // ---------------------------------------------------------------------------

  /** Where a key is found after one increment: in place, or at the new last slot. */
  lemma IncIndex<K>(d: Counts<K>, k: K, k': K)
    ensures IndexOf(Inc(d, k), k') ==
      if HasKey(d, k) || k' != k then IndexOf(d, k') else |d|
  {
    var e := Inc(d, k);
    if HasKey(d, k) {
      IndexOfSameKeys(d, e, k');
    } else {
      assert e[..|d|] == d;
    }
  }

  /** One increment adds 1 to the count of `k` and leaves every other count alone. */
  lemma IncGet<K>(d: Counts<K>, k: K, k': K)
    ensures Get(Inc(d, k), k') == Get(d, k') + (if k' == k then 1 else 0)
  {
    IncIndex(d, k, k');
  }

  /** Keys keep their slots; a new key takes one more slot at the end. */
  lemma IncKeys<K>(d: Counts<K>, k: K)
    ensures |Inc(d, k)| == if HasKey(d, k) then |d| else |d| + 1
    ensures forall i :: 0 <= i < |d| ==> Inc(d, k)[i].0 == d[i].0
    ensures !HasKey(d, k) ==> Inc(d, k)[|d|].0 == k
  {
  }

  /** One increment keeps the keys distinct. */
  lemma IncDistinct<K>(d: Counts<K>, k: K)
    requires DistinctKeys(d)
    ensures DistinctKeys(Inc(d, k))
  {
    IncKeys(d, k);
  }

  /** One increment adds 1 to the sum of the counts. */
  lemma IncTotal<K>(d: Counts<K>, k: K)
    ensures Total(Inc(d, k)) == Total(d) + 1
  {
    var j := IndexOf(d, k);
    if j >= 0 {
      TotalUpdate(d, j, k, d[j].1 + 1);
    } else {
      var e := d + [(k, 1)];
      assert e[..|e| - 1] == d;
    }
  }

  // ---------------------------------------------------------------------------
  // The counting loop
  // ---------------------------------------------------------------------------

  /** Adding one element to the input: `Tally` of the extended sequence is one `Inc` more. */
  lemma TallySnoc<K>(xs: seq<K>, x: K)
    ensures Tally(xs + [x]) == Inc(Tally(xs), x)
  {
    assert (xs + [x])[..|xs|] == xs;
  }

  /** Each key is stored once. */
  lemma {:induction false} TallyDistinct<K>(xs: seq<K>)
    decreases |xs|
    ensures DistinctKeys(Tally(xs))
  {
    if |xs| > 0 {
      TallyDistinct(xs[..|xs| - 1]);
      IncDistinct(Tally(xs[..|xs| - 1]), xs[|xs| - 1]);
    }
  }

  /** The count of `k` is the number of times `k` occurs in `xs`. */
  lemma {:induction false} TallyGet<K>(xs: seq<K>, k: K)
    decreases |xs|
    ensures Get(Tally(xs), k) == multiset(xs)[k]
  {
    if |xs| > 0 {
      var pre, x := xs[..|xs| - 1], xs[|xs| - 1];
      assert xs == pre + [x];
      TallyGet(pre, k);
      IncGet(Tally(pre), x, k);
    }
  }

  /** Every count stored by the counting loop is at least 1. */
  lemma {:induction false} TallyStoresPositive<K>(xs: seq<K>)
    decreases |xs|
    ensures forall i :: 0 <= i < |Tally(xs)| ==> Tally(xs)[i].1 > 0
  {
    if |xs| > 0 {
      TallyStoresPositive(xs[..|xs| - 1]);
    }
  }

  /** The keys are exactly the elements of `xs`. */
  lemma TallyHasKey<K>(xs: seq<K>, k: K)
    ensures HasKey(Tally(xs), k) <==> k in xs
  {
    TallyGet(xs, k);
    TallyStoresPositive(xs);
  }

  /** The counts add up to the length of the input. */
  lemma {:induction false} TallyTotal<K>(xs: seq<K>)
    decreases |xs|
    ensures Total(Tally(xs)) == |xs|
  {
    if |xs| > 0 {
      TallyTotal(xs[..|xs| - 1]);
      IncTotal(Tally(xs[..|xs| - 1]), xs[|xs| - 1]);
    }
  }

  /**
   * The dictionary the counting loop builds holds each distinct element of `xs` once, with the
   * number of times it occurs; its counts are positive and add up to `|xs|`.
   */
  lemma TallyCounts<K>(xs: seq<K>)
    ensures DistinctKeys(Tally(xs))
    ensures forall k :: Get(Tally(xs), k) == multiset(xs)[k]
    ensures forall k :: HasKey(Tally(xs), k) <==> k in xs
    ensures forall i :: 0 <= i < |Tally(xs)| ==> Tally(xs)[i].1 > 0
    ensures Total(Tally(xs)) == |xs|
  {
    TallyDistinct(xs);
    forall k | true
      ensures Get(Tally(xs), k) == multiset(xs)[k]
      ensures HasKey(Tally(xs), k) <==> k in xs
    {
      TallyGet(xs, k);
      TallyHasKey(xs, k);
    }
    TallyStoresPositive(xs);
    TallyTotal(xs);
  }

  /**
   * The dictionary keeps its keys in the order of their first occurrence in `xs`: this is the
   * order in which `d.items()` visits them.
   */
  lemma {:induction false} TallyFirstSeen<K>(xs: seq<K>)
    decreases |xs|
    ensures forall i :: 0 <= i < |Tally(xs)| ==> Tally(xs)[i].0 in xs
    ensures forall i, j :: 0 <= i < j < |Tally(xs)| ==>
      FirstIndex(xs, Tally(xs)[i].0) < FirstIndex(xs, Tally(xs)[j].0)
  {
    if |xs| > 0 {
      var pre, x := xs[..|xs| - 1], xs[|xs| - 1];
      assert xs == pre + [x];
      TallyFirstSeen(pre);
      var d := Tally(pre);
      var e := Tally(xs);
      IncKeys(d, x);
      TallyHasKey(pre, x);
      forall i | 0 <= i < |d|
        ensures e[i].0 in xs && FirstIndex(xs, e[i].0) == FirstIndex(pre, d[i].0)
      {
        FirstIndexSnoc(pre, x, d[i].0);
      }
      if |e| > |d| {
        assert FirstIndex(xs, x) == |pre|;
      }
    }
  }

  /** The first occurrence of an element already in `pre` does not move when one is appended. */
  lemma FirstIndexSnoc<K>(pre: seq<K>, x: K, k: K)
    requires k in pre
    ensures FirstIndex(pre + [x], k) == FirstIndex(pre, k)
  {
    var r, r' := FirstIndex(pre, k), FirstIndex(pre + [x], k);
    assert (pre + [x])[r] == k;
    assert r' <= r;
    assert pre[r'] == k;
  }

  // ---------------------------------------------------------------------------
  // The largest count and the keys that reach it
  // ---------------------------------------------------------------------------

  /** The largest count, 0 for an empty dictionary. */
  function MaxCount<K>(d: Counts<K>): nat
    decreases |d|
  {
    if |d| == 0 then 0
    else
      var m := MaxCount(d[..|d| - 1]);
      if d[|d| - 1].1 > m then d[|d| - 1].1 else m
  }

  /** The keys stored with count `c`, in dictionary order. */
  function KeysWithCount<K>(d: Counts<K>, c: nat): seq<K>
    decreases |d|
  {
    if |d| == 0 then []
    else KeysWithCount(d[..|d| - 1], c) + (if d[|d| - 1].1 == c then [d[|d| - 1].0] else [])
  }

  /** `MaxCount` bounds every count and, for a non-empty dictionary, is one of them. */
  lemma {:induction false} MaxCountIsMax<K>(d: Counts<K>)
    decreases |d|
    ensures forall i :: 0 <= i < |d| ==> d[i].1 <= MaxCount(d)
    ensures |d| > 0 ==> exists i :: 0 <= i < |d| && d[i].1 == MaxCount(d)
  {
    if |d| > 0 {
      var pre := d[..|d| - 1];
      MaxCountIsMax(pre);
      assert forall i :: 0 <= i < |pre| ==> pre[i] == d[i];
      if |pre| > 0 && d[|d| - 1].1 <= MaxCount(pre) {
        var i :| 0 <= i < |pre| && pre[i].1 == MaxCount(pre);
        assert d[i].1 == MaxCount(d);
      }
    }
  }

  /** `KeysWithCount` lists exactly the keys of the slots holding `c`. */
  lemma {:induction false} KeysWithCountSlots<K>(d: Counts<K>, c: nat)
    decreases |d|
    ensures forall k :: k in KeysWithCount(d, c) ==> exists i :: 0 <= i < |d| && d[i] == (k, c)
    ensures forall i :: 0 <= i < |d| && d[i].1 == c ==> d[i].0 in KeysWithCount(d, c)
  {
    if |d| > 0 {
      var pre := d[..|d| - 1];
      KeysWithCountSlots(pre, c);
      var r0 := KeysWithCount(pre, c);
      assert KeysWithCount(d, c) == r0 + (if d[|d| - 1].1 == c then [d[|d| - 1].0] else []);
      forall k | k in KeysWithCount(d, c)
        ensures exists i :: 0 <= i < |d| && d[i] == (k, c)
      {
        if k in r0 {
          var i :| 0 <= i < |pre| && pre[i] == (k, c);
          assert d[i] == (k, c);
        } else {
          assert d[|d| - 1] == (k, c);
        }
      }
      forall i | 0 <= i < |d| && d[i].1 == c
        ensures d[i].0 in KeysWithCount(d, c)
      {
        if i < |pre| {
          assert pre[i] == d[i];
        }
      }
    }
  }

  /** No slot holds `c` when every count stays below it. */
  lemma {:induction false} KeysWithCountAbove<K>(d: Counts<K>, c: nat)
    requires forall i :: 0 <= i < |d| ==> d[i].1 < c
    decreases |d|
    ensures KeysWithCount(d, c) == []
  {
    if |d| > 0 {
      KeysWithCountAbove(d[..|d| - 1], c);
    }
  }

  /** Keys of distinct slots are distinct, so `KeysWithCount` holds no key twice. */
  lemma {:induction false} KeysWithCountDistinct<K>(d: Counts<K>, c: nat)
    requires DistinctKeys(d)
    decreases |d|
    ensures forall i, j :: 0 <= i < j < |KeysWithCount(d, c)| ==> KeysWithCount(d, c)[i] != KeysWithCount(d, c)[j]
  {
    if |d| > 0 {
      var pre := d[..|d| - 1];
      assert DistinctKeys(pre);
      KeysWithCountDistinct(pre, c);
      KeysWithCountSlots(pre, c);
      var r := KeysWithCount(d, c);
      var r0 := KeysWithCount(pre, c);
      if d[|d| - 1].1 == c {
        forall i | 0 <= i < |r0|
          ensures r0[i] != d[|d| - 1].0
        {
          assert r0[i] in r0;
          var p :| 0 <= p < |pre| && pre[p] == (r0[i], c);
          assert d[p].0 == r0[i];
        }
      }
    }
  }

  /** `KeysWithCount` keeps the keys in dictionary order: any order the slots follow, it follows. */
  lemma {:induction false} KeysWithCountKeepsOrder<K>(d: Counts<K>, c: nat, less: (K, K) -> bool)
    requires forall p, q :: 0 <= p < q < |d| ==> less(d[p].0, d[q].0)
    decreases |d|
    ensures forall i, j :: 0 <= i < j < |KeysWithCount(d, c)| ==> less(KeysWithCount(d, c)[i], KeysWithCount(d, c)[j])
  {
    if |d| > 0 {
      var pre := d[..|d| - 1];
      assert forall p :: 0 <= p < |pre| ==> pre[p] == d[p];
      KeysWithCountKeepsOrder(pre, c, less);
      KeysWithCountSlots(pre, c);
      var r0 := KeysWithCount(pre, c);
      if d[|d| - 1].1 == c {
        forall i | 0 <= i < |r0|
          ensures less(r0[i], d[|d| - 1].0)
        {
          assert r0[i] in r0;
          var p :| 0 <= p < |pre| && pre[p] == (r0[i], c);
        }
      }
    }
  }

  /** `a` and `b` both occur in `xs`, and `a` first occurs before `b` does. */
  predicate FirstSeenBefore<K(==)>(xs: seq<K>, a: K, b: K)
  {
    a in xs && b in xs && FirstIndex(xs, a) < FirstIndex(xs, b)
  }

  /** The counting loop: `if k in d: d[k] += 1 else: d[k] = 1` for each `k` in turn. */
  method CountEach<K(==)>(xs: seq<K>) returns (d: Counts<K>)
    ensures d == Tally(xs)
  {
    d := [];
    for i := 0 to |xs|
      invariant d == Tally(xs[..i])
    {
      assert xs[..i + 1] == xs[..i] + [xs[i]];
      TallySnoc(xs[..i], xs[i]);
      var k := xs[i];
      var j := IndexOf(d, k);
      if j >= 0 {
        d := d[j := (k, d[j].1 + 1)];
      } else {
        d := d + [(k, 1)];
      }
    }
    assert xs[..|xs|] == xs;
  }
}
