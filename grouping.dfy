/**
 * lodash `_.groupBy(...).values()` as the wage engine uses it: one group
 * per distinct key, groups in the order the object enumerates its keys,
 * and each group holding its members in input order.
 */
module Grouping {

  datatype Group<K, T> = Group(key: K, members: seq<T>)

  /** The elements of `xs` whose key is `k`, in input order. */
  function Select<T(!new), K(==)>(xs: seq<T>, key: T -> K, k: K): (r: seq<T>)
    ensures |r| <= |xs|
    ensures forall x :: x in r <==> x in xs && key(x) == k
  {
    if xs == [] then []
    else
      var init := Select(xs[..|xs| - 1], key, k);
      var x := xs[|xs| - 1];
      assert xs == xs[..|xs| - 1] + [x];
      if key(x) == k then init + [x] else init
  }

  /** A single element is kept exactly when its key is `k`. */
  lemma SelectOne<T(!new), K>(x: T, key: T -> K, k: K)
    ensures Select([x], key, k) == if key(x) == k then [x] else []
  {
    assert [x][..0] == [];
  }

  /**
   * Selection distributes over concatenation: the kept elements stay in
   * input order, and an element occurring twice is kept twice.
   */
  lemma {:induction false} SelectAppend<T(!new), K>(xs: seq<T>, ys: seq<T>, key: T -> K, k: K)
    ensures Select(xs + ys, key, k) == Select(xs, key, k) + Select(ys, key, k)
    decreases |ys|
  {
    if ys == [] {
      assert xs + ys == xs;
    } else {
      var init := ys[..|ys| - 1];
      assert (xs + ys)[..|xs + ys| - 1] == xs + init;
      assert (xs + ys)[|xs + ys| - 1] == ys[|ys| - 1];
      SelectAppend(xs, init, key, k);
    }
  }

  function Keys<K, T>(gs: seq<Group<K, T>>): seq<K> {
    seq(|gs|, i requires 0 <= i < |gs| => gs[i].key)
  }

  function KeysOf<T, K>(xs: seq<T>, key: T -> K): seq<K> {
    seq(|xs|, i requires 0 <= i < |xs| => key(xs[i]))
  }

  predicate Distinct<K(==)>(ks: seq<K>) {
    forall i, j :: 0 <= i < j < |ks| ==> ks[i] != ks[j]
  }

  lemma DistinctTail<K, T>(gs: seq<Group<K, T>>)
    requires gs != [] && Distinct(Keys(gs))
    ensures Keys(gs) == [gs[0].key] + Keys(gs[1..])
    ensures Distinct(Keys(gs[1..])) && gs[0].key !in Keys(gs[1..])
  {
    assert Keys(gs) == [gs[0].key] + Keys(gs[1..]);
    forall i, j | 0 <= i < j < |gs| - 1 ensures Keys(gs[1..])[i] != Keys(gs[1..])[j] {
      assert Keys(gs)[i + 1] != Keys(gs)[j + 1];
    }
    forall j | 0 <= j < |gs| - 1 ensures Keys(gs[1..])[j] != gs[0].key {
      assert Keys(gs)[0] != Keys(gs)[j + 1];
    }
  }

  /** The distinct elements of `ks` in order of first occurrence. */
  function Dedup<K(==,!new)>(ks: seq<K>): (r: seq<K>)
    ensures Distinct(r)
    ensures forall k :: k in r <==> k in ks
  {
    if ks == [] then []
    else
      var d := Dedup(ks[..|ks| - 1]);
      var k := ks[|ks| - 1];
      assert ks == ks[..|ks| - 1] + [k];
      if k in d then d else d + [k]
  }

  /** The key of every element is among the kept keys. */
  lemma KeyIndex<T, K(!new)>(xs: seq<T>, key: T -> K, x: T) returns (i: nat)
    requires x in xs
    ensures i < |Dedup(KeysOf(xs, key))| && Dedup(KeysOf(xs, key))[i] == key(x)
  {
    var n :| 0 <= n < |xs| && xs[n] == x;
    assert KeysOf(xs, key)[n] == key(x);
    assert key(x) in Dedup(KeysOf(xs, key));
    i :| 0 <= i < |Dedup(KeysOf(xs, key))| && Dedup(KeysOf(xs, key))[i] == key(x);
  }

  /** A single element makes a single group. */
  lemma SelectSingle<T(!new), K(!new)>(x: T, key: T -> K)
    ensures Dedup(KeysOf([x], key)) == [key(x)]
    ensures Select([x], key, key(x)) == [x]
  {
    var ks := KeysOf([x], key);
    assert ks == [key(x)];
    assert ks[..0] == [];
    assert [x][..0] == [];
  }

  /** The first key of a non-empty sequence is the first key kept. */
  lemma {:induction false} DedupHead<K(!new)>(ks: seq<K>)
    requires ks != []
    ensures Dedup(ks) != [] && Dedup(ks)[0] == ks[0]
  {
    if |ks| > 1 {
      DedupHead(ks[..|ks| - 1]);
    }
  }

  /**
   * Keys are kept in order of first occurrence: every occurrence of a later
   * key is preceded by an occurrence of each earlier one.
   */
  lemma {:induction false} DedupFirstOccurrence<K(!new)>(ks: seq<K>, i: nat, j: nat, b: nat)
    requires i < j < |Dedup(ks)| && b < |ks| && ks[b] == Dedup(ks)[j]
    ensures exists a :: 0 <= a < b && ks[a] == Dedup(ks)[i]
  {
    var init := ks[..|ks| - 1];
    var d := Dedup(init);
    var k := ks[|ks| - 1];
    assert ks == init + [k];
    if k in d {
      if b < |ks| - 1 {
        DedupFirstOccurrence(init, i, j, b);
        var a :| 0 <= a < b && init[a] == d[i];
        assert ks[a] == Dedup(ks)[i];
      } else {
        var b' :| 0 <= b' < |init| && init[b'] == d[j];
        DedupFirstOccurrence(init, i, j, b');
        var a :| 0 <= a < b' && init[a] == d[i];
        assert ks[a] == Dedup(ks)[i];
      }
    } else if j < |d| {
      assert b < |ks| - 1;
      DedupFirstOccurrence(init, i, j, b);
      var a :| 0 <= a < b && init[a] == d[i];
      assert ks[a] == Dedup(ks)[i];
    } else {
      assert b == |ks| - 1;
      assert d[i] in init;
      var a :| 0 <= a < |init| && init[a] == d[i];
      assert ks[a] == Dedup(ks)[i];
    }
  }

  /** No element is selected under two different keys. */
  lemma SelectDisjoint<T(!new), K>(xs: seq<T>, key: T -> K, k: K, k': K)
    requires k != k'
    ensures forall x :: !(x in Select(xs, key, k) && x in Select(xs, key, k'))
  {
  }

  /** The first element selected is the first element of `xs` with key `k`. */
  lemma {:induction false} SelectFirst<T(!new), K>(xs: seq<T>, key: T -> K, k: K)
    requires Select(xs, key, k) != []
    ensures exists n :: 0 <= n < |xs| && xs[n] == Select(xs, key, k)[0] && key(xs[n]) == k
              && forall m :: 0 <= m < n ==> key(xs[m]) != k
  {
    var init := xs[..|xs| - 1];
    var x := xs[|xs| - 1];
    var r := Select(xs, key, k);
    if Select(init, key, k) != [] {
      SelectFirst(init, key, k);
      var n :| 0 <= n < |init| && init[n] == Select(init, key, k)[0] && key(init[n]) == k
                && forall m :: 0 <= m < n ==> key(init[m]) != k;
      assert r[0] == Select(init, key, k)[0];
      assert xs[n] == init[n];
      assert forall m :: 0 <= m < n ==> xs[m] == init[m];
    } else {
      assert r == [x] && key(x) == k;
      forall m | 0 <= m < |xs| - 1 ensures key(xs[m]) != k {
        assert xs[m] == init[m] && init[m] in init;
      }
      assert xs[|xs| - 1] == r[0];
    }
  }

  /** Selecting by one key and then by another is selecting by the pair of keys. */
  lemma {:induction false} SelectBoth<T(!new), K1, K2>(
    xs: seq<T>, k1: T -> K1, a: K1, k2: T -> K2, b: K2, both: T -> (K1, K2))
    requires forall x :: both(x) == (k1(x), k2(x))
    ensures Select(Select(xs, k1, a), k2, b) == Select(xs, both, (a, b))
  {
    if xs != [] {
      var init := xs[..|xs| - 1];
      SelectBoth(init, k1, a, k2, b, both);
      var x := xs[|xs| - 1];
      if k1(x) == a {
        assert Select(xs, k1, a) == Select(init, k1, a) + [x];
        assert (Select(init, k1, a) + [x])[..|Select(init, k1, a)|] == Select(init, k1, a);
      }
    }
  }

  /** Files `x` under key `k`: appended to that group, or a new last group. */
  function AddTo<K(==), T>(gs: seq<Group<K, T>>, k: K, x: T): seq<Group<K, T>> {
    if gs == [] then [Group(k, [x])]
    else if gs[0].key == k then [Group(k, gs[0].members + [x])] + gs[1..]
    else [gs[0]] + AddTo(gs[1..], k, x)
  }

  lemma KeysCons<K, T>(g: Group<K, T>, gs: seq<Group<K, T>>)
    ensures Keys([g] + gs) == [g.key] + Keys(gs)
  {
    assert ([g] + gs)[1..] == gs;
  }

  lemma {:induction false} AddToKeys<K, T>(gs: seq<Group<K, T>>, k: K, x: T)
    requires Distinct(Keys(gs))
    ensures Keys(AddTo(gs, k, x)) == if k in Keys(gs) then Keys(gs) else Keys(gs) + [k]
  {
    if gs != [] {
      DistinctTail(gs);
      var rest := Keys(gs[1..]);
      if gs[0].key != k {
        AddToKeys(gs[1..], k, x);
        KeysCons(gs[0], AddTo(gs[1..], k, x));
        assert k in Keys(gs) <==> k in rest;
        if k !in rest {
          assert [gs[0].key] + (rest + [k]) == Keys(gs) + [k];
        }
      } else {
        KeysCons(Group(k, gs[0].members + [x]), gs[1..]);
      }
    }
  }

  lemma {:induction false} AddToMembers<K, T>(gs: seq<Group<K, T>>, k: K, x: T)
    requires Distinct(Keys(gs))
    ensures |AddTo(gs, k, x)| == if k in Keys(gs) then |gs| else |gs| + 1
    ensures forall i :: 0 <= i < |gs| ==>
              AddTo(gs, k, x)[i].members == gs[i].members + (if gs[i].key == k then [x] else [])
    ensures k !in Keys(gs) ==> AddTo(gs, k, x)[|gs|].members == [x]
  {
    if gs != [] {
      DistinctTail(gs);
      if gs[0].key != k {
        AddToMembers(gs[1..], k, x);
      } else {
        forall i | 1 <= i < |gs| ensures gs[i].key != k {
          assert Keys(gs)[0] != Keys(gs)[i];
        }
      }
    }
  }

  /** `_.groupBy(xs, key)` enumerated in insertion order of its keys. */
  function GroupBy<T(!new), K(==,!new)>(xs: seq<T>, key: T -> K): (gs: seq<Group<K, T>>)
    ensures Keys(gs) == Dedup(KeysOf(xs, key))
    ensures forall i :: 0 <= i < |gs| ==> gs[i].members == Select(xs, key, gs[i].key)
  {
    if xs == [] then []
    else
      var gs := GroupBy(xs[..|xs| - 1], key);
      GroupByStep(xs, key, gs);
      AddTo(gs, key(xs[|xs| - 1]), xs[|xs| - 1])
  }

  lemma GroupByStep<T(!new), K(!new)>(xs: seq<T>, key: T -> K, gs: seq<Group<K, T>>)
    requires xs != []
    requires Keys(gs) == Dedup(KeysOf(xs[..|xs| - 1], key))
    requires forall i :: 0 <= i < |gs| ==> gs[i].members == Select(xs[..|xs| - 1], key, gs[i].key)
    ensures Distinct(Keys(gs))
    ensures var r := AddTo(gs, key(xs[|xs| - 1]), xs[|xs| - 1]);
      && Keys(r) == Dedup(KeysOf(xs, key))
      && forall i :: 0 <= i < |r| ==> r[i].members == Select(xs, key, r[i].key)
  {
    var init := xs[..|xs| - 1];
    var x := xs[|xs| - 1];
    var k := key(x);
    assert KeysOf(xs, key) == KeysOf(init, key) + [k];
    var r := AddTo(gs, k, x);
    AddToKeys(gs, k, x);
    AddToMembers(gs, k, x);
    forall i | 0 <= i < |r| ensures r[i].members == Select(xs, key, r[i].key) {
      if i < |gs| {
        assert Keys(r)[i] == Keys(gs)[i];
      } else {
        assert k !in Keys(gs) && Keys(r)[i] == k;
        NoneSelected(init, key, k);
      }
    }
  }

  lemma {:induction false} NoneSelected<T(!new), K(!new)>(xs: seq<T>, key: T -> K, k: K)
    requires k !in KeysOf(xs, key)
    ensures Select(xs, key, k) == []
  {
    if xs != [] {
      assert KeysOf(xs, key) == KeysOf(xs[..|xs| - 1], key) + [key(xs[|xs| - 1])];
      NoneSelected(xs[..|xs| - 1], key, k);
    }
  }

  /** Every group is non-empty and its members are exactly the elements with its key. */
  lemma GroupByPartitions<T(!new), K(!new)>(xs: seq<T>, key: T -> K)
    ensures Distinct(Keys(GroupBy(xs, key)))
    ensures forall i :: 0 <= i < |GroupBy(xs, key)| ==> |GroupBy(xs, key)[i].members| > 0
    ensures forall x :: x in xs ==>
              exists i :: 0 <= i < |GroupBy(xs, key)| && x in GroupBy(xs, key)[i].members
    ensures forall x, i :: 0 <= i < |GroupBy(xs, key)| && x in GroupBy(xs, key)[i].members ==>
              x in xs && key(x) == GroupBy(xs, key)[i].key
  {
    var gs := GroupBy(xs, key);
    var ks := KeysOf(xs, key);
    forall i | 0 <= i < |gs| ensures |gs[i].members| > 0 {
      assert gs[i].key in ks by { assert Keys(gs)[i] == gs[i].key; }
      var j :| 0 <= j < |xs| && ks[j] == gs[i].key;
      assert xs[j] in gs[i].members;
    }
    forall x | x in xs ensures exists i :: 0 <= i < |gs| && x in gs[i].members {
      var j :| 0 <= j < |xs| && xs[j] == x;
      assert key(x) in Keys(gs) by { assert ks[j] == key(x); }
      var i :| 0 <= i < |gs| && Keys(gs)[i] == key(x);
      assert x in gs[i].members;
    }
  }

  /** A group's key is never shared by another group. */
  lemma GroupOfKey<T(!new), K(!new)>(xs: seq<T>, key: T -> K, i: nat, x: T)
    requires i < |GroupBy(xs, key)| && x in xs
    ensures x in GroupBy(xs, key)[i].members <==> key(x) == GroupBy(xs, key)[i].key
  {
  }

  /**
   * A JavaScript object enumerates the keys that are array indices
   * (canonical numerals below 2^32 - 1) first, in ascending numeric order,
   * and its other keys after them in insertion order.
   */
  const ArrayIndexLimit: nat := 4294967295

  predicate IsArrayIndex(n: nat) {
    n < ArrayIndexLimit
  }

  predicate StrictlyAscending(ks: seq<nat>) {
    forall i, j :: 0 <= i < j < |ks| ==> ks[i] < ks[j]
  }

  /** The array-index keys of `ks`, in their given order. */
  function IndexKeys(ks: seq<nat>): (r: seq<nat>)
    ensures forall k :: k in r <==> k in ks && IsArrayIndex(k)
  {
    if ks == [] then []
    else (if IsArrayIndex(ks[0]) then [ks[0]] else []) + IndexKeys(ks[1..])
  }

  /** The other keys of `ks`, in their given order. */
  function OtherKeys(ks: seq<nat>): (r: seq<nat>)
    ensures forall k :: k in r <==> k in ks && !IsArrayIndex(k)
    ensures Distinct(ks) ==> Distinct(r)
  {
    if ks == [] then []
    else
      var rest := OtherKeys(ks[1..]);
      assert Distinct(ks) ==> Distinct(ks[1..]) && ks[0] !in ks[1..];
      (if IsArrayIndex(ks[0]) then [] else [ks[0]]) + rest
  }

  /** Places `k` among ascending keys. */
  function Insert(k: nat, ks: seq<nat>): (r: seq<nat>)
    requires StrictlyAscending(ks)
    ensures StrictlyAscending(r)
    ensures forall x :: x in r <==> x == k || x in ks
  {
    if ks == [] || k < ks[0] then [k] + ks
    else if k == ks[0] then ks
    else
      var rest := Insert(k, ks[1..]);
      forall i | 0 <= i < |rest| ensures ks[0] < rest[i] {
        assert rest[i] in rest;
        if rest[i] != k {
          var j :| 1 <= j < |ks| && ks[j] == rest[i];
        }
      }
      [ks[0]] + rest
  }

  /** The keys of `ks` in ascending order. */
  function Sort(ks: seq<nat>): (r: seq<nat>)
    ensures StrictlyAscending(r)
    ensures forall x :: x in r <==> x in ks
  {
    if ks == [] then [] else Insert(ks[0], Sort(ks[1..]))
  }

  /** The order in which `_.values` visits an object whose keys are the numerals of `ks`. */
  function EnumerationOrder(ks: seq<nat>): (r: seq<nat>)
    requires Distinct(ks)
    ensures Distinct(r)
    ensures forall k :: k in r <==> k in ks
    ensures forall i, j :: 0 <= i < j < |r| && IsArrayIndex(r[j]) ==> IsArrayIndex(r[i]) && r[i] < r[j]
    ensures OtherKeys(r) == OtherKeys(ks)
  {
    var sorted := Sort(IndexKeys(ks));
    var others := OtherKeys(ks);
    var r := sorted + others;
    OtherKeysOfSorted(sorted, others);
    forall i, j | 0 <= i < j < |r| ensures r[i] != r[j] {
      if j < |sorted| {
        assert sorted[i] < sorted[j];
      } else if i >= |sorted| {
        assert others[i - |sorted|] != others[j - |sorted|];
      } else {
        assert r[i] in sorted && r[j] in others;
      }
    }
    r
  }

  lemma EnumerationSingle(k: nat)
    ensures EnumerationOrder([k]) == [k]
  {
    assert [k][1..] == [];
    if IsArrayIndex(k) {
      assert IndexKeys([k]) == [k] && OtherKeys([k]) == [];
      assert Sort([k]) == Insert(k, []) == [k];
    } else {
      assert IndexKeys([k]) == [];
      assert OtherKeys([k]) == [k] + OtherKeys([]);
    }
  }

  lemma {:induction false} OtherKeysOfSorted(sorted: seq<nat>, others: seq<nat>)
    requires forall k :: k in sorted ==> IsArrayIndex(k)
    requires forall k :: k in others ==> !IsArrayIndex(k)
    ensures OtherKeys(sorted + others) == others
  {
    if sorted == [] {
      assert sorted + others == others;
      OtherKeysOfOthers(others);
    } else {
      assert (sorted + others)[1..] == sorted[1..] + others;
      OtherKeysOfSorted(sorted[1..], others);
    }
  }

  lemma {:induction false} OtherKeysOfOthers(others: seq<nat>)
    requires forall k :: k in others ==> !IsArrayIndex(k)
    ensures OtherKeys(others) == others
  {
    if others != [] {
      OtherKeysOfOthers(others[1..]);
    }
  }
}
