/**
 * A group-by followed by a sum and a count, the shape of every aggregation in the pipeline
 * (`groupby([...]).sum()`, `groupby(...).mean()`, `value_counts()`). Items are (key, value)
 * pairs; each group holds a key, the sum of its items' values and the number of its items.
 * Groups appear in the order in which their keys first occur.
 */
module Grouping {

  datatype Group<K> = Group(key: K, sum: int, count: nat)

  // ---------------------------------------------------------------------------
  // Reference definitions over the items themselves
  // ---------------------------------------------------------------------------

  /** The sum of the values of the items whose key is k. */
  function SumOf<K(==)>(items: seq<(K, int)>, k: K): int
  {
    if items == [] then 0
    else
      var last := items[|items| - 1];
      SumOf(items[..|items| - 1], k) + (if last.0 == k then last.1 else 0)
  }

  /** How many items have key k. */
  function CountOf<K(==)>(items: seq<(K, int)>, k: K): nat
  {
    if items == [] then 0
    else CountOf(items[..|items| - 1], k) + (if items[|items| - 1].0 == k then 1 else 0)
  }

  /** The sum of all values. */
  function Total<K>(items: seq<(K, int)>): int
  {
    if items == [] then 0 else Total(items[..|items| - 1]) + items[|items| - 1].1
  }

  /** The distinct keys of the items. */
  function ItemKeys<K(==)>(items: seq<(K, int)>): set<K>
  {
    set i | 0 <= i < |items| :: items[i].0
  }

  /** The items whose key satisfies p, in their order. */
  function FilterItems<K>(items: seq<(K, int)>, p: K -> bool): seq<(K, int)>
  {
    if items == [] then []
    else
      var last := items[|items| - 1];
      FilterItems(items[..|items| - 1], p) + (if p(last.0) then [last] else [])
  }

  // ---------------------------------------------------------------------------
  // Groups
  // ---------------------------------------------------------------------------

  function KeySet<K(==)>(gs: seq<Group<K>>): set<K>
  {
    set g | g in gs :: g.key
  }

  /** No key names two groups. */
  ghost predicate DistinctKeys<K>(gs: seq<Group<K>>)
  {
    gs == [] || (gs[0].key !in KeySet(gs[1..]) && DistinctKeys(gs[1..]))
  }

  /** The sum of the first group with key k, 0 when there is none. */
  function SumAt<K(==)>(gs: seq<Group<K>>, k: K): int
  {
    if gs == [] then 0 else if gs[0].key == k then gs[0].sum else SumAt(gs[1..], k)
  }

  /** The count of the first group with key k, 0 when there is none. */
  function CountAt<K(==)>(gs: seq<Group<K>>, k: K): nat
  {
    if gs == [] then 0 else if gs[0].key == k then gs[0].count else CountAt(gs[1..], k)
  }

  /** The sum of every group's sum. */
  function GroupTotal<K>(gs: seq<Group<K>>): int
  {
    if gs == [] then 0 else gs[0].sum + GroupTotal(gs[1..])
  }

  /** The groups whose key satisfies p, in their order. */
  function FilterGroups<K>(gs: seq<Group<K>>, p: K -> bool): seq<Group<K>>
  {
    if gs == [] then []
    else (if p(gs[0].key) then [gs[0]] else []) + FilterGroups(gs[1..], p)
  }

  /** Adds one item to the group of its key, opening a new group at the end for a new key. */
  function AddItem<K(==)>(gs: seq<Group<K>>, k: K, v: int): seq<Group<K>>
  {
    if gs == [] then [Group(k, v, 1)]
    else if gs[0].key == k then [Group(k, gs[0].sum + v, gs[0].count + 1)] + gs[1..]
    else [gs[0]] + AddItem(gs[1..], k, v)
  }

  lemma {:induction false} AddItemProps<K>(gs: seq<Group<K>>, k: K, v: int)
    ensures KeySet(AddItem(gs, k, v)) == KeySet(gs) + {k}
    ensures DistinctKeys(gs) ==> DistinctKeys(AddItem(gs, k, v))
    ensures (forall g :: g in gs ==> g.count >= 1) ==> forall g :: g in AddItem(gs, k, v) ==> g.count >= 1
    ensures forall j :: SumAt(AddItem(gs, k, v), j) == SumAt(gs, j) + (if j == k then v else 0)
    ensures forall j :: CountAt(AddItem(gs, k, v), j) == CountAt(gs, j) + (if j == k then 1 else 0)
    ensures GroupTotal(AddItem(gs, k, v)) == GroupTotal(gs) + v
  {
    var r := AddItem(gs, k, v);
    if gs == [] {
      assert r == [Group(k, v, 1)];
      assert r[1..] == [];
    } else if gs[0].key == k {
      assert r[1..] == gs[1..];
      assert KeySet(r) == {k} + KeySet(gs[1..]);
      assert KeySet(gs) == {k} + KeySet(gs[1..]);
    } else {
      AddItemProps(gs[1..], k, v);
      assert r[1..] == AddItem(gs[1..], k, v);
      assert KeySet(r) == {gs[0].key} + KeySet(r[1..]);
      assert KeySet(gs) == {gs[0].key} + KeySet(gs[1..]);
    }
  }

  /**
   * The group-by-sum: one group per distinct key, in order of first occurrence, each holding
   * the sum and the number of its key's items; the group sums add up to the total of the items.
   */
  function GroupSum<K(==)>(items: seq<(K, int)>): (gs: seq<Group<K>>)
    ensures DistinctKeys(gs)
    ensures KeySet(gs) == ItemKeys(items)
    ensures forall g :: g in gs ==> g.count >= 1
    ensures GroupTotal(gs) == Total(items)
  {
    if items == [] then []
    else
      var prefix := items[..|items| - 1];
      var last := items[|items| - 1];
      var gs := GroupSum(prefix);
      AddItemProps(gs, last.0, last.1);
      assert ItemKeys(items) == ItemKeys(prefix) + {last.0} by {
        forall x | x in ItemKeys(items) ensures x in ItemKeys(prefix) + {last.0} {
          var i :| 0 <= i < |items| && items[i].0 == x;
          if i < |items| - 1 { assert prefix[i] == items[i]; }
        }
        forall x | x in ItemKeys(prefix) ensures x in ItemKeys(items) {
          var i :| 0 <= i < |prefix| && prefix[i].0 == x;
          assert items[i] == prefix[i];
        }
      }
      AddItem(gs, last.0, last.1)
  }

  /** Each key's group holds exactly the sum and the number of that key's items. */
  lemma {:induction false} GroupSumLookup<K>(items: seq<(K, int)>, k: K)
    ensures SumAt(GroupSum(items), k) == SumOf(items, k)
    ensures CountAt(GroupSum(items), k) == CountOf(items, k)
  {
    if items != [] {
      var prefix := items[..|items| - 1];
      var last := items[|items| - 1];
      GroupSumLookup(prefix, k);
      AddItemProps(GroupSum(prefix), last.0, last.1);
    }
  }

  // ---------------------------------------------------------------------------
  // Consequences
  // ---------------------------------------------------------------------------

  /** In groups with distinct keys, looking a group's key up finds that group. */
  lemma {:induction false} LookupMember<K>(gs: seq<Group<K>>, g: Group<K>)
    requires DistinctKeys(gs) && g in gs
    ensures SumAt(gs, g.key) == g.sum && CountAt(gs, g.key) == g.count
  {
    if gs[0] != g {
      assert g in gs[1..];
      assert g.key in KeySet(gs[1..]);
      LookupMember(gs[1..], g);
    }
  }

  /** A key with no group has sum and count 0. */
  lemma {:induction false} LookupAbsent<K>(gs: seq<Group<K>>, k: K)
    requires k !in KeySet(gs)
    ensures SumAt(gs, k) == 0 && CountAt(gs, k) == 0
  {
    if gs != [] {
      assert gs[0] in gs;
      assert KeySet(gs[1..]) <= KeySet(gs);
      LookupAbsent(gs[1..], k);
    }
  }

  /** A key that has a group, in groups that are all non-empty, has a non-zero count. */
  lemma {:induction false} LookupPresent<K>(gs: seq<Group<K>>, k: K)
    requires k in KeySet(gs) && forall g :: g in gs ==> g.count >= 1
    ensures CountAt(gs, k) >= 1
  {
    assert gs[0] in gs;
    if gs[0].key != k {
      var g :| g in gs && g.key == k;
      assert g in gs[1..];
      LookupPresent(gs[1..], k);
    }
  }

  /** A group of the group-by holds the sum and the number of its key's items. */
  lemma GroupSumMember<K>(items: seq<(K, int)>, g: Group<K>)
    requires g in GroupSum(items)
    ensures g.sum == SumOf(items, g.key) && g.count == CountOf(items, g.key)
  {
    LookupMember(GroupSum(items), g);
    GroupSumLookup(items, g.key);
  }

  /** The total of the groups, taken from the last group backwards. */
  lemma {:induction false} GroupTotalLast<K>(gs: seq<Group<K>>)
    requires gs != []
    ensures GroupTotal(gs) == GroupTotal(gs[..|gs| - 1]) + gs[|gs| - 1].sum
  {
    if |gs| > 1 {
      assert gs[1..][..|gs| - 2] == gs[..|gs| - 1][1..];
      GroupTotalLast(gs[1..]);
    }
  }

  /** Distinct keys: there are as many groups as keys. */
  lemma {:induction false} DistinctKeysCard<K>(gs: seq<Group<K>>)
    requires DistinctKeys(gs)
    ensures |KeySet(gs)| == |gs|
  {
    if gs != [] {
      DistinctKeysCard(gs[1..]);
      assert KeySet(gs) == {gs[0].key} + KeySet(gs[1..]);
    }
  }

  /** Distinct keys, stated by position: two different positions hold different keys. */
  lemma {:induction false} DistinctKeysAt<K>(gs: seq<Group<K>>, i: int, j: int)
    requires DistinctKeys(gs) && 0 <= i < j < |gs|
    ensures gs[i].key != gs[j].key
  {
    if i == 0 {
      assert gs[j] == gs[1..][j - 1];
      assert gs[j].key in KeySet(gs[1..]);
    } else {
      DistinctKeysAt(gs[1..], i - 1, j - 1);
    }
  }

  lemma {:induction false} FilterAddItem<K>(gs: seq<Group<K>>, k: K, v: int, p: K -> bool)
    ensures FilterGroups(AddItem(gs, k, v), p)
         == if p(k) then AddItem(FilterGroups(gs, p), k, v) else FilterGroups(gs, p)
  {
    if gs == [] {
    } else if gs[0].key == k {
      assert AddItem(gs, k, v)[1..] == gs[1..];
    } else {
      FilterAddItem(gs[1..], k, v, p);
      assert AddItem(gs, k, v)[1..] == AddItem(gs[1..], k, v);
      var rest := FilterGroups(gs[1..], p);
      if p(gs[0].key) {
        var f := [gs[0]] + rest;
        assert FilterGroups(gs, p) == f;
        assert f[0] == gs[0] && f[1..] == rest;
      } else {
        assert FilterGroups(gs, p) == rest;
      }
    }
  }

  /**
   * Grouping and then keeping the groups whose key satisfies p gives the same groups, in
   * the same order, as keeping the items whose key satisfies p and then grouping.
   */
  lemma {:induction false} GroupSumFilter<K>(items: seq<(K, int)>, p: K -> bool)
    ensures FilterGroups(GroupSum(items), p) == GroupSum(FilterItems(items, p))
  {
    if items != [] {
      var prefix := items[..|items| - 1];
      var last := items[|items| - 1];
      GroupSumFilter(prefix, p);
      FilterAddItem(GroupSum(prefix), last.0, last.1, p);
      var fp := FilterItems(prefix, p);
      if p(last.0) {
        assert FilterItems(items, p) == fp + [last];
        assert (fp + [last])[..|fp|] == fp;
      } else {
        assert FilterItems(items, p) == fp;
      }
    }
  }
}
