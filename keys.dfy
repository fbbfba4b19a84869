/**
 * Enumeration order of a plain JavaScript object's keys. When every key is an
 * integer-like property name (a non-negative integer), `for (key in obj)`
 * visits the keys in ascending numeric order. The animation registry (keyed by
 * animation id) and the per-tick node hash (keyed by node `_id`) are both such
 * objects.
 */
module Keys {

  predicate StrictlyIncreasing(ks: seq<nat>) {
    forall i, j :: 0 <= i < j < |ks| ==> ks[i] < ks[j]
  }

  /** Every non-empty finite set of naturals has a least element. */
  lemma MinExists(s: set<nat>)
    requires s != {}
    ensures exists m :: m in s && forall y :: y in s ==> m <= y
  {
    var x :| x in s;
    LeastUpTo(s, x);
  }

  /** Descending from any member, a least member is found after finitely many
      steps, since each step moves to a smaller natural. */
  lemma {:induction false} LeastUpTo(s: set<nat>, x: nat)
    requires x in s
    ensures exists m :: m in s && forall y :: y in s ==> m <= y
    decreases x
  {
    if y :| y in s && y < x {
      LeastUpTo(s, y);
    } else {
      assert forall y :: y in s ==> x <= y;
    }
  }

  ghost function MinOf(s: set<nat>): (m: nat)
    requires s != {}
    ensures m in s && forall y :: y in s ==> m <= y
  {
    MinExists(s);
    var m :| m in s && forall y :: y in s ==> m <= y; m
  }

  /** The keys of `s` in the order a `for-in` loop visits them. */
  ghost function SortedKeys(s: set<nat>): seq<nat>
    decreases s
  {
    if s == {} then [] else var m := MinOf(s); [m] + SortedKeys(s - {m})
  }

  /** Taking the least remaining key first is exactly the enumeration order. */
  lemma SortedKeysUnfold(s: set<nat>, k: nat)
    requires k in s && forall j :: j in s ==> k <= j
    ensures SortedKeys(s) == [k] + SortedKeys(s - {k})
  {
    assert MinOf(s) == k;
  }

  /** A loop that repeatedly takes the least remaining key extends the prefix of
      the enumeration it has already produced by one key. */
  lemma EnumerationStep(all: set<nat>, done: seq<nat>, rest: set<nat>, k: nat)
    requires SortedKeys(all) == done + SortedKeys(rest)
    requires k in rest && forall j :: j in rest ==> k <= j
    ensures SortedKeys(all) == (done + [k]) + SortedKeys(rest - {k})
  {
    SortedKeysUnfold(rest, k);
  }

  /** The enumeration visits each key of `s` once, in ascending order, and nothing else. */
  lemma {:induction false} SortedKeysSpec(s: set<nat>)
    ensures StrictlyIncreasing(SortedKeys(s))
    ensures forall k :: k in SortedKeys(s) <==> k in s
    decreases s
  {
    if s != {} {
      var m := MinOf(s);
      var rest := SortedKeys(s - {m});
      SortedKeysSpec(s - {m});
      assert SortedKeys(s) == [m] + rest;
      forall j | 0 <= j < |rest|
        ensures m < rest[j]
      {
        assert rest[j] in s - {m};
      }
    }
  }

  /** In a strictly increasing sequence every element occurs exactly once. */
  lemma {:induction false} OccursOnce(ks: seq<nat>, x: nat)
    requires StrictlyIncreasing(ks)
    ensures multiset(ks)[x] == if x in ks then 1 else 0
    decreases |ks|
  {
    if ks != [] {
      var init := ks[..|ks| - 1];
      var last := ks[|ks| - 1];
      assert ks == init + [last];
      assert StrictlyIncreasing(init);
      OccursOnce(init, x);
      assert last !in init by {
        forall i | 0 <= i < |init| ensures init[i] < last {
          assert ks[i] == init[i];
        }
      }
      assert multiset(ks) == multiset(init) + multiset{last};
    }
  }
}
