/**
 The order a carrier's SRV records are tried in (internal/edge/carrierdns.go):
 by priority, and within one priority by the weighted draw of RFC 2782. The
 random source is a stream of numbers, draw k being draws(k); Intn(n) is a draw
 modulo n.
 */
module Srv {
  import Index
  import opened Sequences
  import Sorting

  datatype Record = Record(target: string, port: nat, priority: nat, weight: nat)

  datatype Target = Target(host: string, port: nat)

  /** Neither "service unavailable" nor without a port. */
  predicate Usable(r: Record) {
    !(|r.target| == 1 && r.target[0] == '.') && r.port != 0
  }

  function UsableOnes(recs: seq<Record>): seq<Record> {
    if recs == [] then []
    else
      var init := UsableOnes(recs[..|recs| - 1]);
      if Usable(recs[|recs| - 1]) then init + [recs[|recs| - 1]] else init
  }

  function OfPriority(recs: seq<Record>, p: nat): seq<Record> {
    if recs == [] then []
    else
      var init := OfPriority(recs[..|recs| - 1], p);
      if recs[|recs| - 1].priority == p then init + [recs[|recs| - 1]] else init
  }

  /** The records whose weight is zero, or those whose weight is not. */
  function Weighing(recs: seq<Record>, zero: bool): seq<Record> {
    if recs == [] then []
    else
      var init := Weighing(recs[..|recs| - 1], zero);
      if (recs[|recs| - 1].weight == 0) == zero then init + [recs[|recs| - 1]] else init
  }

  function ZerosFirst(recs: seq<Record>): seq<Record> {
    Weighing(recs, true) + Weighing(recs, false)
  }

  function Total(group: seq<Record>): nat {
    if group == [] then 0 else Total(group[..|group| - 1]) + group[|group| - 1].weight
  }

  lemma {:induction false} TotalConcat(a: seq<Record>, b: seq<Record>)
    ensures Total(a + b) == Total(a) + Total(b)
    decreases |b|
  {
    if b == [] {
      assert a + b == a;
    } else {
      assert (a + b)[..|a + b| - 1] == a + b[..|b| - 1];
      TotalConcat(a, b[..|b| - 1]);
    }
  }

  lemma TotalGrows(group: seq<Record>, i: nat, j: nat)
    requires i <= j <= |group|
    ensures Total(group[..i]) <= Total(group[..j])
  {
    assert group[..j] == group[..i] + group[i..j];
    TotalConcat(group[..i], group[i..j]);
  }

  /** Record i is where the running sum of weights first reaches target. */
  ghost predicate Reaches(group: seq<Record>, target: nat, i: nat) {
    i < |group| && target <= Total(group[..i + 1]) && (i > 0 ==> Total(group[..i]) < target)
  }

  lemma ReachesOnce(group: seq<Record>, target: nat, i: nat, j: nat)
    requires Reaches(group, target, i) && Reaches(group, target, j)
    ensures i == j
  {
    if i < j {
      TotalGrows(group, i + 1, j);
    } else if j < i {
      TotalGrows(group, j + 1, i);
    }
  }

  function FirstReach(group: seq<Record>, target: nat, i: nat): (r: nat)
    requires i < |group| && target <= Total(group) && (i > 0 ==> Total(group[..i]) < target)
    ensures Reaches(group, target, r)
    decreases |group| - i
  {
    assert group[..|group|] == group;
    if target <= Total(group[..i + 1]) then i else FirstReach(group, target, i + 1)
  }

  /** The record a draw picks: any of them alike when none has a weight. */
  function PickOf(group: seq<Record>, draw: nat): (i: nat)
    requires group != []
    ensures i < |group|
  {
    if Total(group) == 0 then draw % |group| else FirstReach(group, draw % (Total(group) + 1), 0)
  }

  lemma TotalNext(group: seq<Record>, i: nat)
    requires i < |group|
    ensures Total(group[..i + 1]) == Total(group[..i]) + group[i].weight
  {
    assert group[..i + 1][..i] == group[..i];
  }

  lemma TotalEnds(group: seq<Record>)
    ensures Total(group[..0]) == 0 && Total(group[..|group|]) == Total(group)
  {
    assert group[..|group|] == group;
  }

  method Pick(group: seq<Record>, draw: nat) returns (pick: nat)
    requires group != []
    ensures pick == PickOf(group, draw)
  {
    hide Total, FirstReach;
    TotalEnds(group);
    var total := 0;
    for i := 0 to |group|
      invariant total == Total(group[..i])
    {
      TotalNext(group, i);
      total := total + group[i].weight;
    }
    if total == 0 {
      return draw % |group|;
    }
    var target := draw % (total + 1);
    pick := Reach(group, target);
    ReachesOnce(group, target, pick, PickOf(group, draw));
  }

  /** The running sum: the first record where it reaches target. */
  method Reach(group: seq<Record>, target: nat) returns (pick: nat)
    requires group != [] && target <= Total(group)
    ensures Reaches(group, target, pick)
  {
    hide Total;
    TotalEnds(group);
    var acc := 0;
    pick := 0;
    for i := 0 to |group|
      invariant acc == Total(group[..i]) && (i > 0 ==> acc < target)
    {
      TotalNext(group, i);
      acc := acc + group[i].weight;
      if acc >= target {
        return i;
      }
    }
  }

  function Without(group: seq<Record>, i: nat): seq<Record>
    requires i < |group|
  {
    group[..i] + group[i + 1..]
  }

  /** The group drawn empty, draw by draw from draw k on. */
  function Drawn(group: seq<Record>, draws: nat -> nat, k: nat): seq<Record>
    decreases |group|
  {
    if group == [] then []
    else
      var i := PickOf(group, draws(k));
      [group[i]] + Drawn(Without(group, i), draws, k + 1)
  }

  method DrawGroup(recs: seq<Record>, draws: nat -> nat, k: nat) returns (picked: seq<Record>)
    ensures picked == Drawn(recs, draws, k) && |picked| == |recs|
  {
    hide PickOf, Drawn, Total, Without;
    NothingDrawn(draws, k + |recs|);
    var group := recs;
    picked := [];
    while |group| > 0
      invariant |picked| + |group| == |recs|
      invariant Drawn(recs, draws, k) == picked + Drawn(group, draws, k + |picked|)
    {
      var pick := Pick(group, draws(k + |picked|));
      DrawnStep(group, draws, k + |picked|, picked, pick);
      WithoutIs(group, pick);
      picked := picked + [group[pick]];
      group := group[..pick] + group[pick + 1..];
    }
    assert picked + [] == picked;
  }

  lemma NothingDrawn(draws: nat -> nat, k: nat)
    ensures Drawn([], draws, k) == []
  {
  }

  lemma WithoutIs(group: seq<Record>, i: nat)
    requires i < |group|
    ensures Without(group, i) == group[..i] + group[i + 1..] && |Without(group, i)| == |group| - 1
  {
  }

  lemma DrawnStep(group: seq<Record>, draws: nat -> nat, k: nat, picked: seq<Record>, i: nat)
    requires group != [] && i == PickOf(group, draws(k))
    ensures picked + Drawn(group, draws, k) == picked + [group[i]] + Drawn(Without(group, i), draws, k + 1)
  {
    hide PickOf, Without;
    Assoc(picked, [group[i]], Drawn(Without(group, i), draws, k + 1));
  }

  // ---- The whole list ----------------------------------------------------------------

  ghost predicate Ascending(prios: seq<nat>) {
    forall i, j :: 0 <= i < j < |prios| ==> prios[i] < prios[j]
  }

  /** The priorities, which all differ, in order. */
  method SortPriorities(prios: seq<nat>) returns (sorted: seq<nat>)
    requires Index.Distinct(prios)
    ensures Ascending(sorted) && forall p :: p in sorted <==> p in prios
  {
    sorted := Sorting.Sort((a: nat, b: nat) => a <= b, prios);
    Index.SameMembers(prios, sorted);
    forall i, j | 0 <= i < j < |sorted| ensures sorted[i] < sorted[j] {
      assert ((a: nat, b: nat) => a <= b)(sorted[i], sorted[j]);
    }
  }

  /** The groups of prios drawn one after the other. */
  function Ordered(recs: seq<Record>, prios: seq<nat>, draws: nat -> nat, k: nat): seq<Record>
    decreases |prios|
  {
    if prios == [] then []
    else
      var group := ZerosFirst(OfPriority(recs, prios[0]));
      Drawn(group, draws, k) + Ordered(recs, prios[1..], draws, k + |group|)
  }

  function TrimDot(s: string): string {
    if s != "" && s[|s| - 1] == '.' then s[..|s| - 1] else s
  }

  function AsTarget(r: Record): Target {
    Target(TrimDot(r.target), r.port)
  }

  function AsTargets(recs: seq<Record>): seq<Target> {
    seq(|recs|, i requires 0 <= i < |recs| => AsTarget(recs[i]))
  }

  function GroupAt(byPrio: map<nat, seq<Record>>, p: nat): seq<Record> {
    if p in byPrio then byPrio[p] else []
  }

  ghost predicate GroupsBy(byPrio: map<nat, seq<Record>>, prios: seq<nat>, usable: seq<Record>) {
    && Index.Distinct(prios) && (forall p :: p in prios <==> p in byPrio)
    && (forall p <- byPrio :: byPrio[p] != [])
    && (forall p :: GroupAt(byPrio, p) == OfPriority(usable, p))
  }

  lemma OfPrioritySnoc(usable: seq<Record>, r: Record, p: nat)
    ensures OfPriority(usable + [r], p) ==
      if p == r.priority then OfPriority(usable, p) + [r] else OfPriority(usable, p)
  {
    assert (usable + [r])[..|usable|] == usable;
  }

  lemma GroupsMore(byPrio: map<nat, seq<Record>>, prios: seq<nat>, usable: seq<Record>, r: Record)
    requires GroupsBy(byPrio, prios, usable)
    ensures var p := r.priority;
      GroupsBy(byPrio[p := GroupAt(byPrio, p) + [r]], if p in byPrio then prios else prios + [p], usable + [r])
  {
    hide OfPriority;
    var p := r.priority;
    var next := byPrio[p := GroupAt(byPrio, p) + [r]];
    forall q ensures GroupAt(next, q) == OfPriority(usable + [r], q) {
      OfPrioritySnoc(usable, r, q);
      assert GroupAt(byPrio, q) == OfPriority(usable, q);
    }
  }

  lemma {:induction false} PriorityUsed(usable: seq<Record>, p: nat)
    ensures OfPriority(usable, p) != [] <==> exists r <- usable :: r.priority == p
    decreases |usable|
  {
    if usable != [] {
      var init, r := usable[..|usable| - 1], usable[|usable| - 1];
      PriorityUsed(init, p);
      assert usable == init + [r];
    }
  }

  method GroupByPriority(recs: seq<Record>) returns (byPrio: map<nat, seq<Record>>, prios: seq<nat>)
    ensures GroupsBy(byPrio, prios, UsableOnes(recs))
  {
    byPrio, prios := map[], [];
    ghost var usable: seq<Record> := [];
    for i := 0 to |recs|
      invariant usable == UsableOnes(recs[..i]) && GroupsBy(byPrio, prios, usable)
    {
      var r := recs[i];
      assert recs[..i + 1][..i] == recs[..i];
      if !Usable(r) {
        continue;
      }
      GroupsMore(byPrio, prios, usable, r);
      usable := usable + [r];
      if r.priority !in byPrio {
        prios := prios + [r.priority];
      }
      byPrio := byPrio[r.priority := GroupAt(byPrio, r.priority) + [r]];
    }
    assert recs[..|recs|] == recs;
  }

  method SplitZeros(recs: seq<Record>) returns (group: seq<Record>)
    ensures group == ZerosFirst(recs)
  {
    var zeros, nonzeros := [], [];
    for i := 0 to |recs|
      invariant zeros == Weighing(recs[..i], true) && nonzeros == Weighing(recs[..i], false)
    {
      assert recs[..i + 1][..i] == recs[..i];
      if recs[i].weight == 0 {
        zeros := zeros + [recs[i]];
      } else {
        nonzeros := nonzeros + [recs[i]];
      }
    }
    assert recs[..|recs|] == recs;
    return zeros + nonzeros;
  }

  lemma SmallestFirst(p: nat, rest: seq<nat>)
    requires Ascending(rest) && forall q <- rest :: p < q
    ensures Ascending([p] + rest)
  {
    var all := [p] + rest;
    forall i, j | 0 <= i < j < |all| ensures all[i] < all[j] {
      assert all[j] == rest[j - 1] && rest[j - 1] in rest;
    }
  }

  /** p put in its place in an ascending list. */
  function Inserted(prios: seq<nat>, p: nat): (r: seq<nat>)
    requires Ascending(prios)
    ensures Ascending(r) && forall q :: q in r <==> q == p || q in prios
  {
    if prios == [] || p < prios[0] then [p] + prios
    else if p == prios[0] then prios
    else
      var rest := Inserted(prios[1..], p);
      assert forall q <- prios[1..] :: prios[0] < q;
      SmallestFirst(prios[0], rest);
      [prios[0]] + rest
  }

  /** The priorities in use, in ascending order. */
  function Priorities(usable: seq<Record>): (r: seq<nat>)
    ensures Ascending(r)
  {
    if usable == [] then []
    else Inserted(Priorities(usable[..|usable| - 1]), usable[|usable| - 1].priority)
  }

  lemma {:induction false} PrioritiesUsed(usable: seq<Record>, p: nat)
    ensures p in Priorities(usable) <==> exists r <- usable :: r.priority == p
    decreases |usable|
  {
    if usable != [] {
      var init, r := usable[..|usable| - 1], usable[|usable| - 1];
      PrioritiesUsed(init, p);
      assert usable == init + [r];
    }
  }

  lemma {:induction false} AscendingOnce(a: seq<nat>, b: seq<nat>)
    requires Ascending(a) && Ascending(b) && forall p :: p in a <==> p in b
    ensures a == b
    decreases |a|
  {
    assert (a != [] ==> a[0] in b) && (b != [] ==> b[0] in a);
    if a != [] && b != [] {
      assert a[0] == b[0];
      forall p ensures p in a[1..] <==> p in b[1..] {
        assert p in a <==> p == a[0] || p in a[1..];
        assert p in b <==> p == b[0] || p in b[1..];
        assert a[0] !in a[1..] && b[0] !in b[1..];
      }
      AscendingOnce(a[1..], b[1..]);
    }
  }

  /** The records in the order orderSRV tries them. */
  function Order(recs: seq<Record>, draws: nat -> nat): seq<Record> {
    Ordered(UsableOnes(recs), Priorities(UsableOnes(recs)), draws, 0)
  }

  /** orderSRV. */
  method OrderSRV(recs: seq<Record>, draws: nat -> nat) returns (out: seq<Target>)
    ensures out == AsTargets(Order(recs, draws))
  {
    hide Ordered, OfPriority, ZerosFirst, UsableOnes, Drawn, Priorities, AsTargets, AsTarget;
    TargetsSize([]);
    var byPrio, found := GroupByPriority(recs);
    var sorted := SortPriorities(found);
    ghost var usable := UsableOnes(recs);
    ghost var picked: seq<Record> := [];
    SortedIs(byPrio, found, sorted, usable);
    out := [];
    assert sorted[0..] == sorted && [] + Ordered(usable, sorted, draws, 0) == Ordered(usable, sorted, draws, 0);
    for i := 0 to |sorted|
      invariant |out| == |picked| && out == AsTargets(picked)
      invariant picked + Ordered(usable, sorted[i..], draws, |picked|) == Ordered(usable, sorted, draws, 0)
    {
      assert sorted[i] in sorted;
      assert GroupAt(byPrio, sorted[i]) == OfPriority(usable, sorted[i]);
      var group := SplitZeros(byPrio[sorted[i]]);
      var drawn := DrawGroup(group, draws, |out|);
      OrderedTurn(usable, sorted, i, draws, picked, drawn);
      out := AppendTargets(out, picked, drawn);
      picked := picked + drawn;
      TargetsSize(picked);
    }
    OrderedEnd(usable, sorted, draws, |picked|);
    assert picked + [] == picked;
  }

  lemma SortedIs(byPrio: map<nat, seq<Record>>, found: seq<nat>, sorted: seq<nat>, usable: seq<Record>)
    requires GroupsBy(byPrio, found, usable) && Ascending(sorted) && forall p :: p in sorted <==> p in found
    ensures sorted == Priorities(usable) && forall p <- sorted :: p in byPrio
  {
    hide Priorities, OfPriority;
    forall p ensures p in sorted <==> p in Priorities(usable) {
      PriorityUsed(usable, p);
      PrioritiesUsed(usable, p);
      assert GroupAt(byPrio, p) == OfPriority(usable, p);
    }
    AscendingOnce(sorted, Priorities(usable));
  }

  lemma OrderedEnd(recs: seq<Record>, prios: seq<nat>, draws: nat -> nat, k: nat)
    ensures Ordered(recs, prios[|prios|..], draws, k) == []
  {
  }

  method AppendTargets(before: seq<Target>, ghost picked: seq<Record>, drawn: seq<Record>) returns (out: seq<Target>)
    requires before == AsTargets(picked)
    ensures out == AsTargets(picked + drawn)
  {
    hide AsTargets, AsTarget;
    out := before;
    assert picked + drawn[..0] == picked;
    for j := 0 to |drawn|
      invariant out == AsTargets(picked + drawn[..j])
    {
      TargetsNext(picked, drawn, j);
      out := out + [AsTarget(drawn[j])];
    }
    assert drawn[..|drawn|] == drawn;
  }

  lemma TargetsNext(picked: seq<Record>, drawn: seq<Record>, j: nat)
    requires j < |drawn|
    ensures AsTargets(picked + drawn[..j + 1]) == AsTargets(picked + drawn[..j]) + [AsTarget(drawn[j])]
  {
    var more := picked + drawn[..j + 1];
    assert more[..|more| - 1] == picked + drawn[..j];
  }

  lemma TargetsSize(picked: seq<Record>)
    ensures |AsTargets(picked)| == |picked|
  {
  }

  lemma OrderedTurn(recs: seq<Record>, prios: seq<nat>, i: nat, draws: nat -> nat, picked: seq<Record>,
    drawn: seq<Record>)
    requires i < |prios|
    requires var group := ZerosFirst(OfPriority(recs, prios[i]));
      drawn == Drawn(group, draws, |picked|) && |drawn| == |group|
    ensures picked + Ordered(recs, prios[i..], draws, |picked|) ==
      picked + drawn + Ordered(recs, prios[i + 1..], draws, |picked + drawn|)
  {
    hide Ordered, Drawn, ZerosFirst, OfPriority;
    var left := prios[i..];
    assert left[0] == prios[i] && left[1..] == prios[i + 1..];
    OrderedHead(recs, left, draws, |picked|);
    Assoc(picked, drawn, Ordered(recs, left[1..], draws, |picked| + |drawn|));
  }

  lemma OrderedHead(recs: seq<Record>, prios: seq<nat>, draws: nat -> nat, k: nat)
    requires prios != []
    ensures var group := ZerosFirst(OfPriority(recs, prios[0]));
      Ordered(recs, prios, draws, k) == Drawn(group, draws, k) + Ordered(recs, prios[1..], draws, k + |group|)
  {
    hide Drawn, ZerosFirst, OfPriority;
  }

  // ---- What the order is -----------------------------------------------------------------

  lemma {:induction false} DrawnPermutes(group: seq<Record>, draws: nat -> nat, k: nat)
    ensures multiset(Drawn(group, draws, k)) == multiset(group)
    decreases |group|
  {
    hide PickOf;
    if group != [] {
      var i := PickOf(group, draws(k));
      DrawnPermutes(Without(group, i), draws, k + 1);
      assert group == group[..i] + [group[i]] + group[i + 1..];
    }
  }

  lemma {:induction false} WeighingSplits(recs: seq<Record>)
    ensures multiset(Weighing(recs, true)) + multiset(Weighing(recs, false)) == multiset(recs)
    decreases |recs|
  {
    if recs != [] {
      var init, r := recs[..|recs| - 1], recs[|recs| - 1];
      WeighingSplits(init);
      WeighingLast(init, r);
      assert recs == init + [r];
    }
  }

  lemma WeighingLast(init: seq<Record>, r: Record)
    ensures multiset(Weighing(init + [r], true)) + multiset(Weighing(init + [r], false)) ==
      multiset(Weighing(init, true)) + multiset(Weighing(init, false)) + multiset{r}
  {
    var zeros, others := Weighing(init, true), Weighing(init, false);
    assert (init + [r])[..|init|] == init;
    if r.weight == 0 {
      assert Weighing(init + [r], true) == zeros + [r] && Weighing(init + [r], false) == others;
      assert multiset(zeros + [r]) == multiset(zeros) + multiset{r};
    } else {
      assert Weighing(init + [r], true) == zeros && Weighing(init + [r], false) == others + [r];
      assert multiset(others + [r]) == multiset(others) + multiset{r};
    }
  }

  lemma {:induction false} OfPriorityMembers(recs: seq<Record>, p: nat)
    ensures forall r: Record :: multiset(OfPriority(recs, p))[r] == if r.priority == p then multiset(recs)[r] else 0
    decreases |recs|
  {
    if recs != [] {
      OfPriorityMembers(recs[..|recs| - 1], p);
      assert recs == recs[..|recs| - 1] + [recs[|recs| - 1]];
    }
  }

  lemma GroupMembers(recs: seq<Record>, p: nat, draws: nat -> nat, k: nat)
    ensures var drawn := Drawn(ZerosFirst(OfPriority(recs, p)), draws, k);
      && (forall r: Record :: multiset(drawn)[r] == if r.priority == p then multiset(recs)[r] else 0)
      && forall r <- drawn :: r.priority == p
  {
    var group := OfPriority(recs, p);
    DrawnPermutes(ZerosFirst(group), draws, k);
    WeighingSplits(group);
    OfPriorityMembers(recs, p);
    var drawn := Drawn(ZerosFirst(group), draws, k);
    assert multiset(drawn) == multiset(group);
    forall r <- drawn ensures r.priority == p {
      assert r in multiset(drawn);
    }
  }

  ghost predicate ByPriority(recs: seq<Record>) {
    forall i, j :: 0 <= i < j < |recs| ==> recs[i].priority <= recs[j].priority
  }

  /** all are the records of these priorities, in ascending priority. */
  ghost predicate InOrder(all: seq<Record>, recs: seq<Record>, prios: seq<nat>) {
    && ByPriority(all) && (forall r <- all :: r.priority in prios)
    && forall r: Record :: multiset(all)[r] == if r.priority in prios then multiset(recs)[r] else 0
  }

  lemma {:induction false} OrderedGroups(recs: seq<Record>, prios: seq<nat>, draws: nat -> nat, k: nat)
    requires Ascending(prios)
    ensures InOrder(Ordered(recs, prios, draws, k), recs, prios)
    decreases |prios|
  {
    hide Ordered, Drawn, ZerosFirst, OfPriority, InOrder;
    if prios == [] {
      assert prios[|prios|..] == prios;
      OrderedEnd(recs, prios, draws, k);
      NothingInOrder(recs);
    } else {
      OrderedHead(recs, prios, draws, k);
      var group := ZerosFirst(OfPriority(recs, prios[0]));
      GroupMembers(recs, prios[0], draws, k);
      OrderedGroups(recs, prios[1..], draws, k + |group|);
      OrderedParts(recs, prios, Drawn(group, draws, k), Ordered(recs, prios[1..], draws, k + |group|));
    }
  }

  lemma NothingInOrder(recs: seq<Record>)
    ensures InOrder([], recs, [])
  {
  }

  lemma OrderedParts(recs: seq<Record>, prios: seq<nat>, drawn: seq<Record>, rest: seq<Record>)
    requires Ascending(prios) && prios != [] && InOrder(rest, recs, prios[1..])
    requires forall r: Record :: multiset(drawn)[r] == if r.priority == prios[0] then multiset(recs)[r] else 0
    requires forall r <- drawn :: r.priority == prios[0]
    ensures InOrder(drawn + rest, recs, prios)
  {
    var p, more := prios[0], prios[1..];
    forall q <- more ensures q > p {
      var i :| 0 <= i < |more| && more[i] == q;
      assert more[i] == prios[i + 1];
    }
    assert prios == [p] + more;
    TwoParts(drawn, rest, p);
    assert multiset(drawn + rest) == multiset(drawn) + multiset(rest);
  }

  lemma TwoParts(a: seq<Record>, b: seq<Record>, p: nat)
    requires (forall r <- a :: r.priority == p) && (forall r <- b :: r.priority > p) && ByPriority(b)
    ensures ByPriority(a + b)
  {
    var all := a + b;
    forall i, j | 0 <= i < j < |all| ensures all[i].priority <= all[j].priority {
      assert all[i] in if i < |a| then a else b;
      assert all[j] in if j < |a| then a else b;
    }
  }

  /** Every usable record once, in ascending priority, whatever is drawn. */
  lemma OrderPermutes(recs: seq<Record>, draws: nat -> nat)
    ensures multiset(Order(recs, draws)) == multiset(UsableOnes(recs)) && ByPriority(Order(recs, draws))
  {
    hide Ordered, Priorities, UsableOnes;
    var usable := UsableOnes(recs);
    OrderedGroups(usable, Priorities(usable), draws, 0);
    forall r: Record ensures multiset(Order(recs, draws))[r] == multiset(usable)[r] {
      PrioritiesUsed(usable, r.priority);
      assert r in multiset(usable) ==> r in usable;
    }
  }

  lemma {:induction false} UsableMembers(recs: seq<Record>)
    ensures forall r: Record :: multiset(UsableOnes(recs))[r] == if Usable(r) then multiset(recs)[r] else 0
    decreases |recs|
  {
    if recs != [] {
      UsableMembers(recs[..|recs| - 1]);
      assert recs == recs[..|recs| - 1] + [recs[|recs| - 1]];
    }
  }

  predicate Wins(group: seq<Record>, i: nat, t: nat)
    requires group != []
  {
    t <= Total(group) && PickOf(group, t) == i
  }

  /** The numbers from lo on, n of them. */
  function Interval(lo: nat, n: nat): (s: set<nat>)
    ensures |s| == n && forall t: nat :: t in s <==> lo <= t < lo + n
  {
    if n == 0 then {} else Interval(lo, n - 1) + {lo + n - 1}
  }

  /** The draws among 0..total that pick record i. */
  ghost function Winning(group: seq<Record>, i: nat): set<nat>
    requires group != []
  {
    set t | t in Interval(0, Total(group) + 1) && Wins(group, i, t)
  }

  lemma WinsBetween(group: seq<Record>, i: nat, t: nat)
    requires i < |group| && Total(group) > 0 && t <= Total(group)
    ensures Wins(group, i, t) <==> t <= Total(group[..i + 1]) && (i > 0 ==> Total(group[..i]) < t)
  {
    hide FirstReach, Total;
    assert t % (Total(group) + 1) == t;
    if Reaches(group, t, i) {
      ReachesOnce(group, t, i, PickOf(group, t));
    }
  }

  /** Among the draws 0..total a record wins exactly as many as its weight, and
      the first of the group one more. */
  lemma WinsByWeight(group: seq<Record>, i: nat)
    requires i < |group| && Total(group) > 0
    ensures |Winning(group, i)| == group[i].weight + if i == 0 then 1 else 0
  {
    hide PickOf, Wins, Interval;
    var lo, hi := Total(group[..i]), Total(group[..i + 1]);
    assert group[..i + 1][..i] == group[..i];
    assert group[..|group|] == group;
    TotalGrows(group, i + 1, |group|);
    var from := if i == 0 then 0 else lo + 1;
    var won := Interval(from, hi + 1 - from);
    forall t: nat ensures t in Winning(group, i) <==> t in won {
      if t <= Total(group) {
        WinsBetween(group, i, t);
      }
    }
    assert Winning(group, i) == won;
  }

  // ---- Within a priority -----------------------------------------------------------------

  /** Records of weight zero come before the others, each kind in the order it was
      listed. */
  lemma ZerosComeFirst(recs: seq<Record>)
    ensures forall i, j :: 0 <= i < j < |ZerosFirst(recs)| && ZerosFirst(recs)[j].weight == 0 ==> ZerosFirst(recs)[i].weight == 0
  {
    WeighingMembers(recs, true);
    WeighingMembers(recs, false);
    var zeros, others, all := Weighing(recs, true), Weighing(recs, false), ZerosFirst(recs);
    forall k | |zeros| <= k < |all| ensures all[k].weight != 0 {
      assert all[k] in others;
    }
    forall k | 0 <= k < |zeros| ensures all[k].weight == 0 {
      assert all[k] in zeros;
    }
  }

  lemma {:induction false} WeighingMembers(recs: seq<Record>, zero: bool)
    ensures forall r <- Weighing(recs, zero) :: (r.weight == 0) == zero
    decreases |recs|
  {
    if recs != [] {
      WeighingMembers(recs[..|recs| - 1], zero);
    }
  }

  /** With no weight at all every record of the group is drawn alike; else the first
      whose running sum reaches the draw. */
  lemma DrawnAlike(group: seq<Record>, draw: nat)
    requires group != []
    ensures Total(group) == 0 ==> PickOf(group, draw) == draw % |group|
    ensures Total(group) > 0 ==> Reaches(group, draw % (Total(group) + 1), PickOf(group, draw))
  {
  }

  /** A target loses the dot that ends it; "." alone, or no port, is no target. */
  lemma TargetsNamed(host: string, port: nat, priority: nat, weight: nat)
    ensures host != "" && port != 0 ==>
      Usable(Record(host + ".", port, priority, weight)) && AsTarget(Record(host + ".", port, priority, weight)) == Target(host, port)
    ensures !Usable(Record(".", port, priority, weight)) && !Usable(Record(host, 0, priority, weight))
  {
    assert (host + ".")[..|host|] == host;
  }
}
