/**
 Bindings leaving, records being made: the interleavings of
 internal/edge/location.go (removal under its lock, hand-over after it) with
 internal/edge/subscribe.go (insertion, then a second look at the binding).

 One step is one critical section of one goroutine. Any number of hand-overs
 may be in flight.
 */
module SubscriptionProtocol {
  import Index
  import opened Subscriptions

  /** How far beginSubscription has come with a record: inserted, inserted and
      found without a live binding, or done. */
  datatype Check = Unchecked | Doomed | Kept

  /** live are the tokens of the location table, queue those it removed and has
      not handed over, flights the hand-overs under way. The three logs are the
      tokens that entered the table, left it, and were handed over. */
  datatype System = System(
    live: set<Token>, queue: seq<Token>, flights: seq<seq<Token>>, recs: Subs, check: map<nat, Check>,
    arrived: seq<Token>, departed: seq<Token>, handed: seq<Token>)

  const INITIAL := System({}, [], [], map[], map[], [], [], [])

  datatype Step =
    | Register(t: Token)
    | Depart(gone: seq<Token>)            // bindings leave the table, by any of its methods
    | TakeQueue                           // flushRemoved takes what is queued
    | HandOver(i: nat)                    // hand-over i runs dropTokens
    | Insert(h: nat, r: Sub)              // begin admits a record
    | Recheck(h: nat, lapsed: bool)       // ByToken, which also hides a lapsed binding
    | EndRecord(h: nat)
    | PruneRecords(now: int)

  ghost function Next(s: System, step: Step): System {
    match step
    case Register(t) => if t in s.live then s else s.(live := s.live + {t}, arrived := s.arrived + [t])
    case Depart(gone) =>
      if Index.Distinct(gone) && forall t <- gone :: t in s.live then
        s.(live := s.live - Index.Elems(gone), queue := s.queue + gone, departed := s.departed + gone)
      else s
    case TakeQueue => s.(queue := [], flights := s.flights + [s.queue])
    case HandOver(i) =>
      if i < |s.flights| then
        s.(recs := EndSet(s.recs, Charged(s.recs, Index.Elems(s.flights[i]))),
          flights := s.flights[..i] + s.flights[i + 1..], handed := s.handed + s.flights[i])
      else s
    case Insert(h, r) =>
      if h in s.recs || r.ended then s else s.(recs := s.recs[h := r], check := s.check[h := Unchecked])
    case Recheck(h, lapsed) =>
      if h in s.recs && h in s.check && s.check[h] == Unchecked then
        s.(check := s.check[h := if s.recs[h].token in s.live && !lapsed then Kept else Doomed])
      else s
    case EndRecord(h) => s.(recs := EndOne(s.recs, h))
    case PruneRecords(now) => s.(recs := EndSet(s.recs, Overdue(s.recs, now)))
  }

  ghost function Exec(s: System, steps: seq<Step>): System
    decreases |steps|
  {
    if steps == [] then s else Exec(Next(s, steps[0]), steps[1..])
  }

  /** The removal of t has yet to reach dropTokens. */
  predicate Awaits(s: System, t: Token) {
    t in s.queue || exists i :: 0 <= i < |s.flights| && t in s.flights[i]
  }

  predicate IsOpen(s: System, h: nat) {
    h in s.recs && !s.recs[h].ended
  }

  /** Every open record past its second look names a live binding or one whose
      removal is on its way to it. */
  ghost predicate Inv(s: System) {
    forall h :: IsOpen(s, h) ==>
      h in s.check && (s.check[h] == Kept ==> s.recs[h].token in s.live || Awaits(s, s.recs[h].token))
  }

  lemma InvDepart(s: System, gone: seq<Token>)
    requires Inv(s)
    ensures Inv(Next(s, Depart(gone)))
  {
    var s' := Next(s, Depart(gone));
    forall h | IsOpen(s', h) && s'.check[h] == Kept && s'.recs[h].token !in s'.live
      ensures Awaits(s', s'.recs[h].token)
    {
      assert IsOpen(s, h);
    }
  }

  lemma InvTakeQueue(s: System)
    requires Inv(s)
    ensures Inv(Next(s, TakeQueue))
  {
    var s' := Next(s, TakeQueue);
    forall h | IsOpen(s', h) && s'.check[h] == Kept && s'.recs[h].token !in s'.live
      ensures Awaits(s', s'.recs[h].token)
    {
      assert IsOpen(s, h);
      var t := s.recs[h].token;
      var n := |s.flights|;
      assert s'.flights[n] == s.queue;
      if t !in s.queue {
        var i :| 0 <= i < |s.flights| && t in s.flights[i];
        assert s'.flights[i] == s.flights[i];
      }
    }
  }

  lemma InvHandOver(s: System, i: nat)
    requires Inv(s) && i < |s.flights|
    ensures Inv(Next(s, HandOver(i)))
  {
    var s' := Next(s, HandOver(i));
    forall h | IsOpen(s', h) && s'.check[h] == Kept && s'.recs[h].token !in s'.live
      ensures Awaits(s', s'.recs[h].token)
    {
      assert IsOpen(s, h);
      var t := s.recs[h].token;
      assert t !in s.flights[i];
      if t !in s.queue {
        var j :| 0 <= j < |s.flights| && t in s.flights[j];
        assert s'.flights[if j < i then j else j - 1] == s.flights[j];
      }
    }
  }

  lemma InvSameRemovals(s: System, s': System)
    requires Inv(s) && s.live <= s'.live && s'.queue == s.queue && s'.flights == s.flights
    requires forall h :: IsOpen(s', h) ==> h in s'.check
    requires forall h :: IsOpen(s', h) && s'.check[h] == Kept ==>
      s'.recs[h].token in s'.live || (IsOpen(s, h) && s.check[h] == Kept && s.recs[h].token == s'.recs[h].token)
    ensures Inv(s')
  {
    forall h | IsOpen(s', h) && s'.check[h] == Kept && s'.recs[h].token !in s'.live
      ensures Awaits(s', s'.recs[h].token)
    {
      assert IsOpen(s, h);
    }
  }

  lemma InvStep(s: System, step: Step)
    requires Inv(s)
    ensures Inv(Next(s, step))
  {
    match step
    case Depart(gone) => InvDepart(s, gone);
    case TakeQueue => InvTakeQueue(s);
    case HandOver(i) =>
      if i < |s.flights| {
        InvHandOver(s, i);
      }
    case _ =>
      var s' := Next(s, step);
      forall h | IsOpen(s', h) ensures h in s'.check {
        assert step.Insert? || IsOpen(s, h);
      }
      InvSameRemovals(s, s');
  }

  lemma {:induction false} InvExec(s: System, steps: seq<Step>)
    requires Inv(s)
    ensures Inv(Exec(s, steps))
    decreases |steps|
  {
    if steps != [] {
      InvStep(s, steps[0]);
      InvExec(Next(s, steps[0]), steps[1..]);
    }
  }

  // ---- Theorems over every interleaving ------------------------------------------

  /** In every interleaving an open record names a token of the table, unless the
      second look is still to come or its outcome to be acted on, or the removal
      is on its way. */
  lemma RecordsFollowBindings(steps: seq<Step>, h: nat)
    requires IsOpen(Exec(INITIAL, steps), h)
    ensures var s := Exec(INITIAL, steps);
      s.recs[h].token in s.live || Awaits(s, s.recs[h].token) || (h in s.check && s.check[h] != Kept)
  {
    InvExec(INITIAL, steps);
  }

  /** No step is in flight. */
  ghost predicate Quiescent(s: System) {
    && s.queue == [] && s.flights == []
    && forall h :: IsOpen(s, h) && h in s.check ==> s.check[h] == Kept
  }

  /** Once no step is in flight, every open record has its binding. */
  lemma NoOrphanRecords(steps: seq<Step>, h: nat)
    requires Quiescent(Exec(INITIAL, steps)) && IsOpen(Exec(INITIAL, steps), h)
    ensures Exec(INITIAL, steps).recs[h].token in Exec(INITIAL, steps).live
  {
    InvExec(INITIAL, steps);
    assert !Awaits(Exec(INITIAL, steps), Exec(INITIAL, steps).recs[h].token);
  }

  /** The second look is needed: the whole removal can pass between the moment
      the binding was read and the insertion, and then nothing is on its way. */
  lemma RemovalOvertakesInsertion(r: Sub)
    requires !r.ended
    ensures var s := Exec(INITIAL, [Register(r.token), Depart([r.token]), TakeQueue, HandOver(0), Insert(0, r)]);
      IsOpen(s, 0) && s.recs[0].token !in s.live && !Awaits(s, r.token)
  {
    var t := r.token;
    var s1 := Next(INITIAL, Register(t));
    assert forall u <- [t] :: u in s1.live;
    var s2 := Next(s1, Depart([t]));
    assert s2.live == {} && s2.queue == [t];
    var s3 := Next(s2, TakeQueue);
    var s4 := Next(s3, HandOver(0));
    assert s4.flights == [];
    var s5 := Next(s4, Insert(0, r));
    var steps := [Register(t), Depart([t]), TakeQueue, HandOver(0), Insert(0, r)];
    assert steps[1..][1..][1..][1..][1..] == [];
    calc {
      Exec(INITIAL, steps);
      Exec(s1, steps[1..]);
      Exec(s2, steps[1..][1..]);
      Exec(s3, steps[1..][1..][1..]);
      Exec(s4, steps[1..][1..][1..][1..]);
      Exec(s5, []);
      s5;
    }
  }

  /** What a hand-over cannot tell apart: a token that left the table and was
      stored again before the hand-over ran takes the records of its new binding
      along. */
  lemma StoredAgainLosesRecords(s: System, r: Sub, h: nat)
    requires s.live == {r.token} && s.queue == [] && s.flights == []
    requires h in s.recs && s.recs[h] == r && !r.ended && h in s.check && s.check[h] == Kept
    ensures var after := Exec(s, [Depart([r.token]), Register(r.token), TakeQueue, HandOver(0)]);
      r.token in after.live && h in after.recs && !IsOpen(after, h)
  {
    var t := r.token;
    var s1 := Next(s, Depart([t]));
    assert s1.queue == [t] && s1.live == {};
    var s2 := Next(s1, Register(t));
    var s3 := Next(s2, TakeQueue);
    assert s3.flights == [[t]];
    var s4 := Next(s3, HandOver(0));
    var steps := [Depart([t]), Register(t), TakeQueue, HandOver(0)];
    assert steps[1..][1..][1..][1..] == [];
    calc {
      Exec(s, steps);
      Exec(s1, steps[1..]);
      Exec(s2, steps[1..][1..]);
      Exec(s3, steps[1..][1..][1..]);
      Exec(s4, []);
      s4;
    }
  }

  // ---- Every removal is handed over exactly once ---------------------------------

  /** The tokens of the hand-overs under way, one hand-over after the other. */
  function Carried(flights: seq<seq<Token>>): seq<Token> {
    if flights == [] then [] else flights[0] + Carried(flights[1..])
  }

  lemma {:induction false} CarriedWithout(flights: seq<seq<Token>>, i: nat)
    requires i < |flights|
    ensures multiset(Carried(flights)) == multiset(Carried(flights[..i] + flights[i + 1..])) + multiset(flights[i])
  {
    var left := flights[..i] + flights[i + 1..];
    if i == 0 {
      assert left == flights[1..];
    } else {
      CarriedWithout(flights[1..], i - 1);
      assert left[1..] == flights[1..][..i - 1] + flights[1..][i..];
    }
  }

  lemma {:induction false} CarriedSnoc(flights: seq<seq<Token>>, last: seq<Token>)
    ensures Carried(flights + [last]) == Carried(flights) + last
  {
    if flights == [] {
      assert flights + [last] == [last] && [last][1..] == [];
      assert Carried([]) == [];
    } else {
      assert (flights + [last])[1..] == flights[1..] + [last];
      CarriedSnoc(flights[1..], last);
    }
  }

  /** What entered the table is in it or left it, and what left it was handed
      over or is on its way, each as often. */
  ghost predicate Balanced(s: System) {
    && multiset(s.arrived) == multiset(s.live) + multiset(s.departed)
    && multiset(s.departed) == multiset(s.handed) + multiset(s.queue) + multiset(Carried(s.flights))
  }

  lemma DistinctAsSet(list: seq<Token>)
    requires Index.Distinct(list)
    ensures multiset(list) == multiset(Index.Elems(list))
  {
    forall t ensures multiset(list)[t] == multiset(Index.Elems(list))[t] {
      if t in list {
        var i :| 0 <= i < |list| && list[i] == t;
        Once(list, i);
      }
    }
  }

  lemma Once(list: seq<Token>, i: nat)
    requires Index.Distinct(list) && i < |list|
    ensures multiset(list)[list[i]] == 1
  {
    assert list == list[..i] + [list[i]] + list[i + 1..];
    assert list[i] !in list[..i] && list[i] !in list[i + 1..];
  }

  lemma BalancedRegister(s: System, t: Token)
    requires Balanced(s) && t !in s.live
    ensures Balanced(Next(s, Register(t)))
  {
    assert multiset(s.live + {t}) == multiset(s.live) + multiset{t};
    assert multiset(s.arrived + [t]) == multiset(s.arrived) + multiset{t};
  }

  lemma LeavingSet(live: set<Token>, gone: seq<Token>)
    requires forall t <- gone :: t in live
    ensures multiset(live) == multiset(live - Index.Elems(gone)) + multiset(Index.Elems(gone))
  {
    assert live == (live - Index.Elems(gone)) + Index.Elems(gone);
  }

  lemma BalancedDepart(s: System, gone: seq<Token>)
    requires Balanced(s) && Index.Distinct(gone) && forall t <- gone :: t in s.live
    ensures Balanced(Next(s, Depart(gone)))
  {
    hide Carried, Index.Elems, Index.Distinct;
    DistinctAsSet(gone);
    LeavingSet(s.live, gone);
    assert multiset(s.departed + gone) == multiset(s.departed) + multiset(gone);
    assert multiset(s.queue + gone) == multiset(s.queue) + multiset(gone);
  }

  lemma BalancedFlush(s: System, step: Step)
    requires Balanced(s) && (step == TakeQueue || (step.HandOver? && step.i < |s.flights|))
    ensures Balanced(Next(s, step))
  {
    hide Carried;
    if step.HandOver? {
      CarriedWithout(s.flights, step.i);
      assert multiset(s.handed + s.flights[step.i]) == multiset(s.handed) + multiset(s.flights[step.i]);
    } else {
      CarriedSnoc(s.flights, s.queue);
      assert multiset(Carried(s.flights) + s.queue) == multiset(Carried(s.flights)) + multiset(s.queue);
    }
  }

  lemma BalancedStep(s: System, step: Step)
    requires Balanced(s)
    ensures Balanced(Next(s, step))
  {
    hide Carried;
    match step
    case Register(t) =>
      if t !in s.live {
        BalancedRegister(s, t);
      }
    case Depart(gone) =>
      if Index.Distinct(gone) && forall t <- gone :: t in s.live {
        BalancedDepart(s, gone);
      }
    case TakeQueue => BalancedFlush(s, step);
    case HandOver(i) =>
      if i < |s.flights| {
        BalancedFlush(s, step);
      }
    case _ =>
  }

  lemma {:induction false} BalancedExec(s: System, steps: seq<Step>)
    requires Balanced(s)
    ensures Balanced(Exec(s, steps))
    decreases |steps|
  {
    if steps != [] {
      BalancedStep(s, steps[0]);
      BalancedExec(Next(s, steps[0]), steps[1..]);
    }
  }

  /** However removals, flushes and hand-overs interleave: each departure of a
      token is handed over once or still on its way, and each arrival ends in one
      departure or in the table. */
  lemma HandedOverOnce(steps: seq<Step>, t: Token)
    ensures var s := Exec(INITIAL, steps);
      && (multiset(s.departed)[t] ==
        multiset(s.handed)[t] + multiset(s.queue)[t] + multiset(Carried(s.flights))[t])
      && (multiset(s.arrived)[t] == multiset(s.departed)[t] + (if t in s.live then 1 else 0))
      && (s.queue == [] && s.flights == [] ==> multiset(s.handed)[t] == multiset(s.departed)[t])
  {
    BalancedExec(INITIAL, steps);
  }

  // ---- What hand-overs cost a binding that is in the table -------------------------

  /** A hand-over ends an open record exactly when it carries its token, whether
      the binding is in the table or not. */
  lemma HandOverEndsIff(s: System, i: nat, h: nat)
    requires IsOpen(s, h) && i < |s.flights|
    ensures !IsOpen(Next(s, HandOver(i)), h) <==> s.recs[h].token in s.flights[i]
  {
  }

  lemma {:induction false} CarriedMembers(flights: seq<seq<Token>>, i: nat, t: Token)
    requires i < |flights| && t in flights[i]
    ensures t in Carried(flights)
  {
    if i > 0 {
      CarriedMembers(flights[1..], i - 1, t);
    }
  }

  /** On every run a token that is in the table while a removal of it has yet to
      reach dropTokens entered the table twice. */
  lemma AwaitedAndStored(steps: seq<Step>, t: Token)
    requires var s := Exec(INITIAL, steps); t in s.live && Awaits(s, t)
    ensures multiset(Exec(INITIAL, steps).arrived)[t] >= 2
  {
    hide Exec;
    var s := Exec(INITIAL, steps);
    StartBalanced();
    BalancedExec(INITIAL, steps);
    assert t in s.queue || t in Carried(s.flights) by {
      if t !in s.queue {
        var i :| 0 <= i < |s.flights| && t in s.flights[i];
        CarriedMembers(s.flights, i, t);
      }
    }
    assert multiset(s.departed)[t] >= 1 && multiset(s.live)[t] == 1;
  }

  lemma StartBalanced()
    ensures Balanced(INITIAL)
  {
  }

  /** On every run where no token enters the table twice, no hand-over ends a
      record whose binding is in the table. */
  lemma FreshTokensSpared(steps: seq<Step>, i: nat, h: nat)
    requires var s := Exec(INITIAL, steps);
      Index.Distinct(s.arrived) && IsOpen(s, h) && s.recs[h].token in s.live && i < |s.flights|
    ensures IsOpen(Next(Exec(INITIAL, steps), HandOver(i)), h)
  {
    hide Exec;
    var s := Exec(INITIAL, steps);
    var t := s.recs[h].token;
    HandOverEndsIff(s, i, h);
    Index.CountOnce(s.arrived, t);
    if t in s.flights[i] {
      AwaitedAndStored(steps, t);
    }
  }

  /** What is queued is taken up, and then some hand-over ends the record, exactly
      when a removal of its token has yet to reach dropTokens. */
  lemma LostIff(s: System, h: nat)
    requires IsOpen(s, h)
    ensures var next := Next(s, TakeQueue);
      (exists i: nat :: i < |next.flights| && !IsOpen(Next(next, HandOver(i)), h)) <==> Awaits(s, s.recs[h].token)
  {
    hide EndSet, Charged;
    var next, t := Next(s, TakeQueue), s.recs[h].token;
    forall i: nat | i < |next.flights|
      ensures !IsOpen(Next(next, HandOver(i)), h) <==> t in next.flights[i]
    {
      HandOverEndsIff(next, i, h);
    }
    assert next.flights[|s.flights|] == s.queue;
    if t !in s.queue && Awaits(s, t) {
      var i :| 0 <= i < |s.flights| && t in s.flights[i];
      assert next.flights[i] == s.flights[i];
    }
    if i: nat :| i < |next.flights| && t in next.flights[i] {
      assert i < |s.flights| ==> next.flights[i] == s.flights[i];
    }
  }

  /** The step is no end of record h by itself. */
  predicate LeavesAlone(step: Step, h: nat) {
    (step.EndRecord? ==> step.h != h) && !step.PruneRecords?
  }

  lemma OneStep(s: System, step: Step, h: nat)
    ensures s.handed <= Next(s, step).handed
    ensures h in s.recs ==> h in Next(s, step).recs && Next(s, step).recs[h].token == s.recs[h].token
    ensures h in s.recs && s.recs[h].ended ==> Next(s, step).recs[h].ended
    ensures IsOpen(s, h) && LeavesAlone(step, h) ==>
      (!IsOpen(Next(s, step), h) <==> s.recs[h].token in Next(s, step).handed[|s.handed|..])
  {
    hide Index.Elems, Index.Distinct, Overdue;
    if step.HandOver? && step.i < |s.flights| {
      assert Next(s, step).handed[|s.handed|..] == s.flights[step.i];
      if IsOpen(s, h) {
        HandOverEndsIff(s, step.i, h);
      }
    } else {
      assert Next(s, step).handed == s.handed && s.handed[|s.handed|..] == [];
    }
  }

  lemma {:induction false} LogAndEndsStay(s: System, steps: seq<Step>, h: nat)
    ensures s.handed <= Exec(s, steps).handed
    ensures h in s.recs && s.recs[h].ended ==> h in Exec(s, steps).recs && Exec(s, steps).recs[h].ended
    decreases |steps|
  {
    hide Next;
    if steps != [] {
      OneStep(s, steps[0], h);
      LogAndEndsStay(Next(s, steps[0]), steps[1..], h);
    }
  }

  /** Over any run that does not end the record otherwise, it is ended exactly when
      its token was handed over in the run. */
  lemma {:induction false} EndedIffHandedOver(s: System, steps: seq<Step>, h: nat)
    requires IsOpen(s, h) && forall step <- steps :: LeavesAlone(step, h)
    ensures var after := Exec(s, steps);
      s.handed <= after.handed && (!IsOpen(after, h) <==> s.recs[h].token in after.handed[|s.handed|..])
    decreases |steps|
  {
    hide Next;
    LogAndEndsStay(s, steps, h);
    if steps == [] {
      assert s.handed[|s.handed|..] == [];
    } else {
      var next, after := Next(s, steps[0]), Exec(s, steps);
      assert steps[0] in steps;
      OneStep(s, steps[0], h);
      LogAndEndsStay(next, steps[1..], h);
      assert after.handed[|s.handed|..] == next.handed[|s.handed|..] + after.handed[|next.handed|..];
      if IsOpen(next, h) {
        EndedIffHandedOver(next, steps[1..], h);
      }
    }
  }

  // ---- Records that stay ---------------------------------------------------------


  predicate Spares(step: Step, t: Token, h: nat) {
    && (step.Depart? ==> t !in step.gone)
    && (step.EndRecord? ==> step.h != h)
    && !step.PruneRecords?
  }

  lemma SpareStep(s: System, step: Step, t: Token, h: nat)
    requires IsOpen(s, h) && s.recs[h].token == t && !Awaits(s, t) && Spares(step, t, h)
    ensures var s' := Next(s, step); IsOpen(s', h) && s'.recs[h].token == t && !Awaits(s', t)
  {
    match step
    case HandOver(i) =>
      if i < |s.flights| {
        assert t !in s.flights[i];
        var flights := s.flights[..i] + s.flights[i + 1..];
        forall j | 0 <= j < |flights| ensures t !in flights[j] {
          assert flights[j] == s.flights[if j < i then j else j + 1];
        }
      }
    case _ =>
  }

  /** No hand-over ends a record whose own binding stays. */
  lemma {:induction false} OtherRemovalsSpare(s: System, steps: seq<Step>, t: Token, h: nat)
    requires IsOpen(s, h) && s.recs[h].token == t && !Awaits(s, t)
    requires forall step <- steps :: Spares(step, t, h)
    ensures IsOpen(Exec(s, steps), h)
    decreases |steps|
  {
    if steps != [] {
      SpareStep(s, steps[0], t, h);
      OtherRemovalsSpare(Next(s, steps[0]), steps[1..], t, h);
    }
  }
}
