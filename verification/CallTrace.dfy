/**
 A call's record told by what happened to it: each of its fields, over every
 interleaving, as a fact about the steps taken so far (internal/edge/dialog.go,
 invite.go).
 */
module CallTraces {
  import opened CallRecord
  import opened Options

  function StateAfter(steps: seq<Step>): System {
    Exec(INITIAL, steps)
  }

  /** Something that can happen: a step, after the steps before it. */
  type Moment = (seq<Step>, Step) -> bool

  ghost predicate Ever(steps: seq<Step>, m: Moment) {
    exists k :: 0 <= k < |steps| && m(steps[..k], steps[k])
  }

  lemma EverSnoc(steps: seq<Step>, step: Step, m: Moment)
    ensures Ever(steps + [step], m) <==> Ever(steps, m) || m(steps, step)
  {
    var all := steps + [step];
    assert all[..|steps|] == steps && all[|steps|] == step;
    forall k | 0 <= k < |steps| ensures all[..k] == steps[..k] && all[k] == steps[k] {
    }
    if Ever(steps, m) {
      var k :| 0 <= k < |steps| && m(steps[..k], steps[k]);
      assert m(all[..k], all[k]);
    }
    if m(steps, step) {
      assert m(all[..|steps|], all[|steps|]);
    }
  }

  // ---- What can happen ---------------------------------------------------------------------

  /** The caller or the backstop gives up, or an orphan CANCEL finds an INVITE in
      flight. */
  predicate GivesUp(before: seq<Step>, step: Step) {
    step == CancelCall(ByCaller) || step == CancelCall(Backstop)
    || (step == CancelCall(Orphan) && StateAfter(before).rec.inFlight.Some?)
  }

  /** A media session is attached to a call that was not torn down. */
  predicate GetsMedia(before: seq<Step>, step: Step) {
    step == AttachMedia && Teardown !in before
  }

  /** A 2xx comes to a call with media, not given up on and not torn down. */
  ghost predicate Answered(before: seq<Step>, step: Step) {
    step == Answer2xx && Ever(before, GetsMedia) && !Ever(before, GivesUp) && Teardown !in before
  }

  ghost predicate EverAnswered(steps: seq<Step>) {
    exists k :: 0 <= k < |steps| && Answered(steps[..k], steps[k])
  }

  /** Attempt a is in flight when someone cancels. */
  function Takes(a: nat): Moment {
    (before: seq<Step>, step: Step) => step.CancelCall? && StateAfter(before).rec.inFlight == Some(a)
  }

  /** The attempt in flight: the one tracked last, unless since then the handler
      returned, someone cancelled, or the call was torn down. A given-up call tracks
      none. */
  ghost function Flying(steps: seq<Step>): Option<nat> {
    if steps == [] then None
    else
      var before := steps[..|steps| - 1];
      var s := StateAfter(before);
      match steps[|steps| - 1]
      case TrackNext => if s.sender == Between && !Ever(before, GivesUp) then Some(|s.attempts|) else Flying(before)
      case Return => if s.sender.Between? || s.sender.Pumping? then None else Flying(before)
      case CancelCall(_) => None
      case Teardown => if Teardown in before then Flying(before) else None
      case _ => Flying(before)
  }

  // ---- Step by step ------------------------------------------------------------------------

  lemma {:induction false} ExecConcat(s: System, a: seq<Step>, b: seq<Step>)
    ensures Exec(s, a + b) == Exec(Exec(s, a), b)
    decreases |a|
  {
    hide Next;
    if a == [] {
      assert a + b == b;
    } else {
      assert (a + b)[0] == a[0] && (a + b)[1..] == a[1..] + b;
      ExecConcat(Next(s, a[0]), a[1..], b);
    }
  }

  lemma AfterSnoc(steps: seq<Step>, step: Step)
    ensures StateAfter(steps + [step]) == Next(StateAfter(steps), step)
  {
    hide Next;
    ExecConcat(INITIAL, steps, [step]);
    assert [step][1..] == [];
    assert Exec(Next(StateAfter(steps), step), []) == Next(StateAfter(steps), step);
  }

  /** The fields of the record after a step. */
  lemma RecordStep(s: System, step: Step)
    requires Inv(s)
    ensures var r, r' := s.rec, Next(s, step).rec;
      && r'.cancelled == (r.cancelled || (step.CancelCall? && (step.why != Orphan || r.inFlight.Some?)))
      && r'.callerGone == (r.callerGone || step == CancelCall(ByCaller))
      && r'.hasMedia == (r.hasMedia || (step == AttachMedia && r.state != Ended))
      && r'.state == (if step == Teardown then Ended
        else if step == Answer2xx && r.state == Early && r.hasMedia && !r.cancelled then Confirmed else r.state)
  {
    hide Counted, CancelsFollow;
  }

  lemma FlightStep(s: System, step: Step)
    requires Inv(s)
    ensures Next(s, step).rec.inFlight ==
      match step
      case TrackNext => if s.sender == Between && !s.rec.cancelled then Some(|s.attempts|) else s.rec.inFlight
      case Return => if s.sender.Between? || s.sender.Pumping? then None else s.rec.inFlight
      case CancelCall(_) => None
      case Teardown => if s.rec.state == Ended then s.rec.inFlight else None
      case _ => s.rec.inFlight
  {
    hide Counted, CancelsFollow;
  }

  lemma StartInv()
    ensures Inv(INITIAL)
  {
  }

  lemma AfterInv(steps: seq<Step>)
    ensures Inv(StateAfter(steps))
  {
    hide Inv, Exec;
    StartInv();
    InvExec(INITIAL, steps);
  }

  /** What the record says of the steps taken. */
  ghost predicate Tells(steps: seq<Step>, r: Record) {
    && (r.cancelled <==> Ever(steps, GivesUp))
    && (r.callerGone <==> CancelCall(ByCaller) in steps)
    && (r.hasMedia <==> Ever(steps, GetsMedia))
    && r.state == (if Teardown in steps then Ended else if EverAnswered(steps) then Confirmed else Early)
    && r.inFlight == Flying(steps)
  }

  lemma AnsweredSnoc(steps: seq<Step>, step: Step)
    ensures EverAnswered(steps + [step]) <==> EverAnswered(steps) || Answered(steps, step)
  {
    hide Answered;
    var all := steps + [step];
    assert all[..|steps|] == steps && all[|steps|] == step;
    forall k | 0 <= k < |steps| ensures all[..k] == steps[..k] && all[k] == steps[k] {
    }
    if EverAnswered(steps) {
      var k :| 0 <= k < |steps| && Answered(steps[..k], steps[k]);
      assert Answered(all[..k], all[k]);
    }
    if Answered(steps, step) {
      assert Answered(all[..|steps|], all[|steps|]);
    }
  }

  lemma TellsStart()
    ensures Tells([], INITIAL.rec)
  {
  }

  lemma TellsStep(steps: seq<Step>, step: Step)
    requires Inv(StateAfter(steps)) && Tells(steps, StateAfter(steps).rec)
    ensures Tells(steps + [step], Next(StateAfter(steps), step).rec)
  {
    hide Next, Inv, Ever, EverAnswered, StateAfter;
    var s := StateAfter(steps);
    assert (steps + [step])[..|steps|] == steps;
    RecordStep(s, step);
    FlightStep(s, step);
    EverSnoc(steps, step, GivesUp);
    EverSnoc(steps, step, GetsMedia);
    AnsweredSnoc(steps, step);
  }

  // ---- The record over every interleaving ----------------------------------------------------

  /** Over every interleaving: the call is marked given up exactly when the caller or
      the backstop gave up, or an orphan CANCEL found an INVITE in flight; the
      caller is gone exactly when it cancelled; there is media exactly when some was
      attached before any teardown; the call is ended exactly when it was torn down,
      else confirmed exactly when a 2xx came while it had media and nobody had given
      up; in flight is the attempt tracked last, if nothing took it. */
  lemma {:induction false} RecordTells(steps: seq<Step>)
    ensures Tells(steps, StateAfter(steps).rec)
    decreases |steps|
  {
    hide Next, Inv, Tells, Exec;
    if steps == [] {
      TellsStart();
      AfterNothing();
    } else {
      var init, last := steps[..|steps| - 1], steps[|steps| - 1];
      assert steps == init + [last];
      RecordTells(init);
      AfterInv(init);
      AfterSnoc(init, last);
      TellsStep(init, last);
    }
  }

  lemma AfterNothing()
    ensures StateAfter([]) == INITIAL
  {
  }

  /** An attempt is marked as taken exactly when someone cancelled while it was in
      flight. */
  lemma {:induction false} TakenIff(steps: seq<Step>, a: nat)
    requires a < |StateAfter(steps).attempts|
    ensures StateAfter(steps).attempts[a].cancelled <==> Ever(steps, Takes(a))
    decreases |steps|
  {
    hide Next, Inv, Ever, Exec, StateAfter;
    AfterNothing();
    if steps != [] {
      var init, last := steps[..|steps| - 1], steps[|steps| - 1];
      assert steps == init + [last];
      AfterInv(init);
      AfterSnoc(init, last);
      EverSnoc(init, last, Takes(a));
      TakenStep(StateAfter(init), last, a);
      if a < |StateAfter(init).attempts| {
        TakenIff(init, a);
      } else {
        NeverTaken(init, a);
      }
    }
  }

  lemma TakenStep(s: System, step: Step, a: nat)
    requires Inv(s) && a < |Next(s, step).attempts|
    ensures Next(s, step).attempts[a].cancelled <==>
      (a < |s.attempts| && s.attempts[a].cancelled) || (step.CancelCall? && s.rec.inFlight == Some(a))
    ensures |s.attempts| <= |Next(s, step).attempts|
    ensures s.rec.inFlight == Some(a) ==> a < |s.attempts|
  {
    hide Counted, CancelsFollow;
  }

  /** An attempt not yet made is never in flight. */
  lemma {:induction false} NeverTaken(steps: seq<Step>, a: nat)
    requires a >= |StateAfter(steps).attempts|
    ensures !Ever(steps, Takes(a))
    decreases |steps|
  {
    hide Next, Inv, Exec, StateAfter;
    AfterNothing();
    if steps != [] {
      var init, last := steps[..|steps| - 1], steps[|steps| - 1];
      assert steps == init + [last];
      AfterInv(init);
      AfterSnoc(init, last);
      EverSnoc(init, last, Takes(a));
      AttemptsGrow(StateAfter(init), last, a);
      NeverTaken(init, a);
    }
  }

  lemma AttemptsGrow(s: System, step: Step, a: nat)
    requires Inv(s)
    ensures |s.attempts| <= |Next(s, step).attempts|
    ensures s.rec.inFlight == Some(a) ==> a < |s.attempts|
  {
    hide Counted, CancelsFollow;
  }

  /** Once things settle an attempt has been CANCELled exactly once if its INVITE
      went out and someone cancelled while it was in flight, and never otherwise. */
  lemma CancelledExactlyWhenTaken(steps: seq<Step>, a: nat)
    requires Settled(StateAfter(steps))
    ensures Count(StateAfter(steps).wire, Cancel(a)) ==
      if Invite(a) in StateAfter(steps).wire && Ever(steps, Takes(a)) then 1 else 0
  {
    hide Ever, Exec, Inv;
    CancelExactlyOnce(steps, a);
    if a < |StateAfter(steps).attempts| {
      TakenIff(steps, a);
    } else {
      NeverTaken(steps, a);
    }
  }

  /** The next attempt is made exactly when nobody has given up on the call. */
  lemma TrackedIff(steps: seq<Step>)
    requires StateAfter(steps).sender == Between
    ensures var s := StateAfter(steps + [TrackNext]);
      if Ever(steps, GivesUp) then s.sender == Finished
      else s.sender == Tracking(|StateAfter(steps).attempts|) && s.rec.inFlight == Some(|StateAfter(steps).attempts|)
  {
    hide Ever, Inv, Exec;
    RecordTells(steps);
    AfterSnoc(steps, TrackNext);
  }

  /** An orphan CANCEL that finds nothing in flight changes nothing. */
  lemma OrphanFindsNothing(s: System)
    requires s.rec.inFlight.None?
    ensures Next(s, CancelCall(Orphan)) == s
  {
  }

  /** Whatever comes after someone has given up, no INVITE goes out but one already
      tracked, and a call that was not confirmed by then never is. */
  lemma GivenUpForGood(steps: seq<Step>, k: nat)
    requires k < |steps| && GivesUp(steps[..k], steps[k])
    ensures var s, t := StateAfter(steps[..k]), StateAfter(steps);
      && (forall a: nat :: Invite(a) in t.wire ==> Invite(a) in s.wire || s.sender == Tracking(a))
      && (s.rec.state != Confirmed ==> t.rec.state != Confirmed)
  {
    hide Exec, Inv, Ever;
    var before, after := steps[..k + 1], steps[k + 1..];
    assert before == steps[..k] + [steps[k]] && steps == before + after;
    AfterInv(steps[..k]);
    AfterInv(before);
    AfterSnoc(steps[..k], steps[k]);
    GivingUp(StateAfter(steps[..k]), steps[k]);
    ExecConcat(INITIAL, before, after);
    NothingAfterCancel(StateAfter(before), after);
    if StateAfter(steps[..k]).rec.state != Confirmed {
      CancelledNeverConfirmed(StateAfter(before), after);
    }
  }

  lemma GivingUp(s: System, step: Step)
    requires Inv(s) && step.CancelCall? && (step.why != Orphan || s.rec.inFlight.Some?)
    ensures var t := Next(s, step);
      t.rec.cancelled && t.wire == s.wire && t.sender == s.sender && t.rec.state == s.rec.state
  {
    hide Counted, CancelsFollow;
  }
}
