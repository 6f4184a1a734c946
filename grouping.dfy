/**
 * The `levels` dictionary: results grouped by level key, the keys in the
 * order a Python dict keeps them (first insertion first).
 */
module Grouping {
  import opened TnmData

  /** A dict from level key to results, with its insertion order. */
  datatype Levels = Levels(order: seq<string>, groups: map<string, seq<ReceiverResult>>)

  predicate Distinct(s: seq<string>)
  {
    forall i, j :: 0 <= i < j < |s| ==> s[i] != s[j]
  }

  /** The order and the dict have the same keys. */
  ghost predicate WellFormed(g: Levels)
  {
    forall k :: k in g.order <==> k in g.groups
  }

  /** The level keys of tagged results, in document order. */
  function Keys(ts: seq<Tagged>): seq<string>
  {
    seq(|ts|, i requires 0 <= i < |ts| => ts[i].key)
  }

  /** Each key once, at its first appearance; every key of `ks` is there. */
  function FirstSeen(ks: seq<string>): (order: seq<string>)
    ensures forall k :: k in order <==> k in ks
    ensures Distinct(order)
  {
    if ks == [] then []
    else
      var front := FirstSeen(ks[..|ks| - 1]);
      var k := ks[|ks| - 1];
      assert ks == ks[..|ks| - 1] + [k];
      if k in ks[..|ks| - 1] then front else front + [k]
  }

  /** The index of the first appearance of `k` in `ks`. */
  function IndexOf(ks: seq<string>, k: string): (i: nat)
    requires k in ks
    ensures i < |ks| && ks[i] == k && k !in ks[..i]
  {
    if k in ks[..|ks| - 1] then IndexOf(ks[..|ks| - 1], k) else |ks| - 1
  }

  /** The results with key `k`, in document order. */
  function Members(ts: seq<Tagged>, k: string): seq<ReceiverResult>
  {
    if ts == [] then []
    else
      var t := ts[|ts| - 1];
      Members(ts[..|ts| - 1], k) + (if t.key == k then [t.result] else [])
  }

  /**
   * The dict the reader ends with: one group per key that appears, holding
   * the results with that key in order; keys ordered by first appearance.
   */
  function GroupSpec(ts: seq<Tagged>): (g: Levels)
    ensures WellFormed(g) && Distinct(g.order)
  {
    Levels(FirstSeen(Keys(ts)), GroupsOf(ts))
  }

  /** One entry per key that appears: the results with that key. */
  function GroupsOf(ts: seq<Tagged>): (groups: map<string, seq<ReceiverResult>>)
    ensures forall k :: k in groups <==> k in Keys(ts)
  {
    map k | k in Keys(ts) :: Members(ts, k)
  }

  /** The Python step: create the list on first sight of the key, then append. */
  function Add(g: Levels, t: Tagged): Levels
  {
    if t.key in g.groups
    then Levels(g.order, g.groups[t.key := g.groups[t.key] + [t.result]])
    else Levels(g.order + [t.key], g.groups[t.key := [t.result]])
  }

  /** The sum of the group sizes, over the keys in order. */
  function SumSizes(order: seq<string>, groups: map<string, seq<ReceiverResult>>): nat
    requires forall k :: k in order ==> k in groups
  {
    if order == [] then 0
    else SumSizes(order[..|order| - 1], groups) + |groups[order[|order| - 1]]|
  }

  /** Appending one tagged result to the input is one step of the Python loop. */
  lemma GroupStep(ts: seq<Tagged>, t: Tagged)
    ensures GroupSpec(ts + [t]) == Add(GroupSpec(ts), t)
  {
    OrderStep(ts, t);
    GroupsStep(ts, t);
  }

  /** A key that never appears has an empty group. */
  lemma {:induction false} MembersAbsent(ts: seq<Tagged>, k: string)
    requires k !in Keys(ts)
    ensures Members(ts, k) == []
  {
    if ts != [] {
      var front := ts[..|ts| - 1];
      assert Keys(ts)[|ts| - 1] == ts[|ts| - 1].key;
      assert forall x :: x in Keys(front) ==> x in Keys(ts) by {
        forall x | x in Keys(front) ensures x in Keys(ts) {
          var i :| 0 <= i < |front| && Keys(front)[i] == x;
          assert Keys(ts)[i] == x;
        }
      }
      MembersAbsent(front, k);
    }
  }

  lemma KeysSnoc(ts: seq<Tagged>, t: Tagged)
    ensures Keys(ts + [t]) == Keys(ts) + [t.key]
  {
  }

  lemma OrderStep(ts: seq<Tagged>, t: Tagged)
    ensures FirstSeen(Keys(ts + [t])) ==
      if t.key in Keys(ts) then FirstSeen(Keys(ts)) else FirstSeen(Keys(ts)) + [t.key]
  {
    var ks := Keys(ts + [t]);
    KeysSnoc(ts, t);
    assert ks[..|ks| - 1] == Keys(ts);
  }

  lemma GroupsStep(ts: seq<Tagged>, t: Tagged)
    ensures GroupsOf(ts + [t]) ==
      if t.key in GroupsOf(ts) then GroupsOf(ts)[t.key := GroupsOf(ts)[t.key] + [t.result]]
      else GroupsOf(ts)[t.key := [t.result]]
  {
    var ts' := ts + [t];
    KeysSnoc(ts, t);
    assert ts'[..|ts'| - 1] == ts;
    var old_ := GroupsOf(ts);
    var new_ := GroupsOf(ts');
    var want := if t.key in old_ then old_[t.key := old_[t.key] + [t.result]] else old_[t.key := [t.result]];
    forall k ensures k in new_ <==> k in want {
      assert k in Keys(ts') <==> k in Keys(ts) || k == t.key;
    }
    forall k | k in new_ ensures new_[k] == want[k] {
      assert Members(ts', k) == Members(ts, k) + (if t.key == k then [t.result] else []);
      if k !in Keys(ts) {
        MembersAbsent(ts, k);
      }
    }
    assert new_ == want;
  }

  /** Keys come out in the order of their first appearance. */
  lemma {:induction false} FirstSeenOrder(ks: seq<string>)
    ensures forall a, b :: 0 <= a < b < |FirstSeen(ks)| ==>
      IndexOf(ks, FirstSeen(ks)[a]) < IndexOf(ks, FirstSeen(ks)[b])
  {
    if ks != [] {
      var front := ks[..|ks| - 1];
      var k := ks[|ks| - 1];
      FirstSeenOrder(front);
      var o := FirstSeen(ks);
      forall x | x in front ensures IndexOf(ks, x) == IndexOf(front, x) {
        assert ks[..|ks| - 1] == front;
      }
      forall a, b | 0 <= a < b < |o| ensures IndexOf(ks, o[a]) < IndexOf(ks, o[b]) {
        assert o[a] in front;
        if b < |FirstSeen(front)| {
          assert o[b] in front;
        } else {
          assert o[b] == k && k !in front;
        }
      }
    }
  }

  lemma {:induction false} SumFrame(order: seq<string>, g1: map<string, seq<ReceiverResult>>, g2: map<string, seq<ReceiverResult>>)
    requires forall k :: k in order ==> k in g1 && k in g2 && |g1[k]| == |g2[k]|
    ensures SumSizes(order, g1) == SumSizes(order, g2)
  {
    if order != [] {
      SumFrame(order[..|order| - 1], g1, g2);
    }
  }

  lemma {:induction false} SumUpdate(order: seq<string>, groups: map<string, seq<ReceiverResult>>, k: string, v: seq<ReceiverResult>)
    requires Distinct(order) && k in order
    requires forall x :: x in order ==> x in groups
    ensures SumSizes(order, groups[k := v]) == SumSizes(order, groups) - |groups[k]| + |v|
  {
    var front := order[..|order| - 1];
    var last := order[|order| - 1];
    if last == k {
      assert k !in front;
      SumFrame(front, groups[k := v], groups);
    } else {
      SumUpdate(front, groups, k, v);
    }
  }

  /** One Python step adds one to the sum of the group sizes. */
  lemma AddSum(g: Levels, t: Tagged)
    requires WellFormed(g) && Distinct(g.order)
    ensures WellFormed(Add(g, t))
    ensures SumSizes(Add(g, t).order, Add(g, t).groups) == SumSizes(g.order, g.groups) + 1
  {
    if t.key in g.groups {
      SumUpdate(g.order, g.groups, t.key, g.groups[t.key] + [t.result]);
    } else {
      var o := g.order + [t.key];
      assert o[..|o| - 1] == g.order;
      SumFrame(g.order, g.groups[t.key := [t.result]], g.groups);
    }
  }

  /** Every result lands in exactly one group: the group sizes add up to the number of results. */
  lemma {:induction false} GroupSizesSum(ts: seq<Tagged>)
    ensures SumSizes(GroupSpec(ts).order, GroupSpec(ts).groups) == |ts|
  {
    if ts != [] {
      var front := ts[..|ts| - 1];
      var t := ts[|ts| - 1];
      GroupSizesSum(front);
      assert ts == front + [t];
      GroupStep(front, t);
      AddSum(GroupSpec(front), t);
    }
  }

  /** Each result sits in the group of its own key, after the results with that key before it. */
  lemma {:induction false} MemberOfOwnGroup(ts: seq<Tagged>, i: nat)
    requires i < |ts|
    ensures ts[i].key in GroupSpec(ts).groups
    ensures Members(ts[..i + 1], ts[i].key) == Members(ts[..i], ts[i].key) + [ts[i].result]
    ensures ts[i].result in GroupSpec(ts).groups[ts[i].key]
  {
    assert Keys(ts)[i] == ts[i].key;
    var p := ts[..i + 1];
    assert p[..|p| - 1] == ts[..i] && p[|p| - 1] == ts[i];
    MembersPrefix(ts, i + 1, ts[i].key);
    var m := Members(p, ts[i].key);
    assert m[|m| - 1] == ts[i].result;
    assert Members(ts, ts[i].key)[|m| - 1] == ts[i].result;
  }

  /** The group of a prefix is a prefix of the group. */
  lemma {:induction false} MembersPrefix(ts: seq<Tagged>, n: nat, k: string)
    requires n <= |ts|
    ensures Members(ts[..n], k) <= Members(ts, k)
    decreases |ts|
  {
    if n < |ts| {
      MembersPrefix(ts[..|ts| - 1], n, k);
      assert ts[..|ts| - 1][..n] == ts[..n];
    } else {
      assert ts[..n] == ts;
    }
  }
}
