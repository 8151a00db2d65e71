/**
 The record of one call and the INVITE/CANCEL handshake on it
 (internal/edge/dialog.go, invite.go, invite_leg.go).

 Each critical section of the program is one function on values; `Dialog` is
 the program's object, its methods proved equal to those functions. `System`
 interleaves them: the sender of the INVITEs, any number of cancellers with any
 reason, the goroutines that put the CANCELs on the wire, a 2xx, a teardown.
 */
module CallRecord {
  import opened Options

  datatype State = Early | Confirmed | Ended

  datatype CancelReason = ByCaller | Orphan | Backstop

  /** The two flags of an attempt: its INVITE is on the wire; a canceller took
      it. */
  datatype Flags = Flags(sent: bool, cancelled: bool)

  /** A call's record, the INVITE in flight named by its number. */
  datatype Record = Record(
    state: State, inFlight: Option<nat>, cancelled: bool, callerGone: bool, hasMedia: bool)

  const NEW_RECORD := Record(Early, None, false, false, false)

  // ---- Critical sections ---------------------------------------------------

  function TrackIn(r: Record, a: nat): (Record, bool) {
    if r.cancelled then (r, false) else (r.(inFlight := Some(a)), true)
  }

  function MarkSentIn(fl: Flags): (Flags, bool) {
    (fl.(sent := true), fl.cancelled)
  }

  function UntrackIn(r: Record): Record {
    r.(inFlight := None)
  }

  datatype Taken = Nothing | Taken(a: nat, sendNow: bool)

  /** Gives up on the call and takes the INVITE in flight, whose flags are fl. */
  function CancelSeriesIn(r: Record, fl: Flags, why: CancelReason): (Record, Flags, Taken) {
    if r.inFlight.None? && why == Orphan then (r, fl, Nothing)
    else
      var r' := r.(cancelled := true, callerGone := r.callerGone || why == ByCaller);
      if r.inFlight.None? then (r', fl, Nothing)
      else (r'.(inFlight := None), fl.(cancelled := true), Taken(r.inFlight.value, fl.sent))
  }

  function ConfirmIn(r: Record): (Record, bool) {
    if r.state != Early || !r.hasMedia || r.cancelled then (r, false)
    else (r.(state := Confirmed), true)
  }

  /** endBy: the record after it, whether this call was the one that ended it,
      and whether the call was up. */
  function EndIn(r: Record): (Record, bool, bool) {
    if r.state == Ended then (r, false, false)
    else (r.(state := Ended, inFlight := None), true, r.state == Confirmed)
  }

  function AttachIn(r: Record, closed: bool): (Record, bool) {
    if closed || r.state == Ended then (r, false) else (r.(hasMedia := true), true)
  }

  // ---- The program's objects -------------------------------------------------

  class InviteAttempt {
    const number: nat
    var sent: bool
    var cancelled: bool

    function Abstract(): Flags
      reads this
    {
      Flags(sent, cancelled)
    }

    constructor (number: nat)
      ensures Abstract() == Flags(false, false) && this.number == number
    {
      this.number := number;
      sent, cancelled := false, false;
    }
  }

  class Dialog {
    var state: State
    var inFlight: InviteAttempt?
    var cancelled: bool
    var callerGone: bool
    var media: bool

    function Abstract(): Record
      reads this
    {
      Record(state, if inFlight == null then None else Some(inFlight.number), cancelled, callerGone, media)
    }

    constructor ()
      ensures Abstract() == NEW_RECORD
    {
      state, inFlight, cancelled, callerGone, media := Early, null, false, false, false;
    }

    method Track(a: InviteAttempt) returns (ok: bool)
      modifies this
      ensures (Abstract(), ok) == TrackIn(old(Abstract()), a.number)
      ensures ok ==> inFlight == a
    {
      if cancelled {
        return false;
      }
      inFlight := a;
      return true;
    }

    method MarkSent(a: InviteAttempt) returns (cancelNow: bool)
      modifies a`sent
      ensures (a.Abstract(), cancelNow) == MarkSentIn(old(a.Abstract()))
    {
      a.sent := true;
      return a.cancelled;
    }

    method Untrack()
      modifies this`inFlight
      ensures Abstract() == UntrackIn(old(Abstract()))
    {
      inFlight := null;
    }

    method CancelSeries(why: CancelReason) returns (a: InviteAttempt?, sendNow: bool)
      modifies this, inFlight
      ensures a == null || a == old(inFlight)
      ensures var fl := if old(inFlight) == null then Flags(false, false) else old(inFlight.Abstract());
        var (r, fl', taken) := CancelSeriesIn(old(Abstract()), fl, why);
        && Abstract() == r
        && (old(inFlight) != null ==> old(inFlight).Abstract() == fl')
        && taken == if a == null then Nothing else Taken(a.number, sendNow)
    {
      a := inFlight;
      if a == null && why == Orphan {
        return null, false;
      }
      cancelled := true;
      if why == ByCaller {
        callerGone := true;
      }
      if a == null {
        return null, false;
      }
      inFlight := null;
      a.cancelled := true;
      sendNow := a.sent;
    }

    method Confirm() returns (ok: bool)
      modifies this`state
      ensures (Abstract(), ok) == ConfirmIn(old(Abstract()))
    {
      if state != Early || !media || cancelled {
        return false;
      }
      state := Confirmed;
      return true;
    }

    method EndBy() returns (ended: bool, wasUp: bool)
      modifies this
      ensures (Abstract(), ended, wasUp) == EndIn(old(Abstract()))
    {
      if state == Ended {
        return false, false;
      }
      wasUp := state == Confirmed;
      state, inFlight := Ended, null;
      ended := true;
    }
  }

  // ---- The protocol ------------------------------------------------------------

  datatype Event = Invite(a: nat) | Cancel(a: nat)

  /** Where the goroutine that sends the call's INVITEs stands. */
  datatype Sender =
    | Between                 // no attempt of its own in progress
    | Tracking(a: nat)        // tracked, about to be sent
    | OnWire(a: nat)          // sent, not yet marked
    | Pumping(a: nat)         // marked, relaying its responses
    | Finished

  /** attempts are the flags of every attempt made so far; owed the CANCELs some
      goroutine was told to send and has not sent yet; wire what went out. */
  datatype System = System(
    rec: Record, attempts: seq<Flags>, sender: Sender, owed: multiset<nat>, wire: seq<Event>)

  const INITIAL := System(NEW_RECORD, [], Between, multiset{}, [])

  datatype Step =
    | TrackNext
    | SendFails
    | SendInvite
    | Mark
    | AttemptOver
    | Return                       // the INVITE handler returns: untrack
    | CancelCall(why: CancelReason)
    | SendCancel(a: nat)
    | AttachMedia
    | Answer2xx
    | Teardown

  /** One atomic step; a step that cannot happen changes nothing. */
  function Next(s: System, step: Step): System {
    match step
    case TrackNext =>
      if s.sender != Between then s
      else
        var a := |s.attempts|;
        var (r, ok) := TrackIn(s.rec, a);
        s.(rec := r, attempts := s.attempts + [Flags(false, false)], sender := if ok then Tracking(a) else Finished)
    case SendFails => if s.sender.Tracking? then s.(sender := Between) else s
    case SendInvite =>
      if s.sender.Tracking? then s.(sender := OnWire(s.sender.a), wire := s.wire + [Invite(s.sender.a)]) else s
    case Mark =>
      if !s.sender.OnWire? || s.sender.a >= |s.attempts| then s
      else
        var a := s.sender.a;
        var (fl, cancelNow) := MarkSentIn(s.attempts[a]);
        s.(attempts := s.attempts[a := fl], sender := Pumping(a), owed := if cancelNow then s.owed + multiset{a} else s.owed)
    case AttemptOver => if s.sender.Pumping? then s.(sender := Between) else s
    case Return =>
      if s.sender.Between? || s.sender.Pumping? then s.(rec := UntrackIn(s.rec), sender := Finished) else s
    case CancelCall(why) =>
      if s.rec.inFlight.Some? && s.rec.inFlight.value < |s.attempts| then
        var a := s.rec.inFlight.value;
        var (r, fl, taken) := CancelSeriesIn(s.rec, s.attempts[a], why);
        s.(rec := r, attempts := s.attempts[a := fl],
          owed := if taken.Taken? && taken.sendNow then s.owed + multiset{a} else s.owed)
      else s.(rec := CancelSeriesIn(s.rec, Flags(false, false), why).0)
    case SendCancel(a) =>
      if a in s.owed then s.(owed := s.owed - multiset{a}, wire := s.wire + [Cancel(a)]) else s
    case AttachMedia => s.(rec := AttachIn(s.rec, false).0)
    case Answer2xx => s.(rec := ConfirmIn(s.rec).0)
    case Teardown => s.(rec := EndIn(s.rec).0)
  }

  /** The system after a run. */
  function Exec(s: System, steps: seq<Step>): System
    decreases |steps|
  {
    if steps == [] then s else Exec(Next(s, steps[0]), steps[1..])
  }

  /** The INVITE of attempt a is on the wire. */
  predicate Wired(s: System, a: nat) {
    a < |s.attempts| && (s.attempts[a].sent || s.sender == OnWire(a))
  }

  /** Attempt a was taken by a canceller and its sender marked it sent. */
  predicate Due(s: System, a: nat) {
    a < |s.attempts| && s.attempts[a].cancelled && s.attempts[a].sent
  }

  /** Every CANCEL on the wire follows the INVITE it cancels. */
  ghost predicate CancelsFollow(wire: seq<Event>) {
    forall j :: 0 <= j < |wire| && wire[j].Cancel? ==> Invite(wire[j].a) in wire[..j]
  }

  ghost predicate Inv(s: System) {
    && (s.rec.inFlight.Some? ==> s.rec.inFlight.value < |s.attempts| && !s.attempts[s.rec.inFlight.value].cancelled)
    && (s.rec.cancelled ==> s.rec.inFlight.None?)
    && (s.sender.Tracking? ==> s.sender.a < |s.attempts| && !s.attempts[s.sender.a].sent)
    && (s.sender.OnWire? ==> s.sender.a < |s.attempts| && !s.attempts[s.sender.a].sent)
    && (s.sender.Tracking? ==> Invite(s.sender.a) !in s.wire)
    && Counted(s) && CancelsFollow(s.wire)
  }

  /** One INVITE per attempt that reached the wire; the CANCELs sent and owed are
      one per attempt taken and sent. */
  ghost predicate Counted(s: System) {
    && (forall a: nat :: multiset(s.wire)[Invite(a)] == if Wired(s, a) then 1 else 0)
    && (forall a: nat :: s.owed[a] + multiset(s.wire)[Cancel(a)] == if Due(s, a) then 1 else 0)
  }

  lemma WireAppend(wire: seq<Event>, e: Event)
    requires CancelsFollow(wire)
    requires e.Cancel? ==> Invite(e.a) in wire
    ensures CancelsFollow(wire + [e])
    ensures multiset(wire + [e]) == multiset(wire) + multiset{e}
  {
    var w := wire + [e];
    forall j | 0 <= j < |w| && w[j].Cancel? ensures Invite(w[j].a) in w[..j] {
      assert w[..j] == wire[..j];
      assert j == |wire| ==> wire[..j] == wire;
    }
  }

  lemma InvTrack(s: System)
    requires Inv(s)
    ensures Inv(Next(s, TrackNext))
  {
    var s' := Next(s, TrackNext);
    if s.sender == Between {
      var n := |s.attempts|;
      assert !Wired(s, n) && Invite(n) !in s.wire;
      assert forall a: nat :: Wired(s', a) == Wired(s, a) && Due(s', a) == Due(s, a);
    }
  }

  lemma InvSendInvite(s: System)
    requires Inv(s) && s.sender.Tracking?
    ensures Inv(Next(s, SendInvite))
  {
    var s' := Next(s, SendInvite);
    var b := s.sender.a;
    WireAppend(s.wire, Invite(b));
    assert forall a: nat :: Due(s', a) == Due(s, a) && Wired(s', a) == (Wired(s, a) || a == b);
  }

  lemma InvMark(s: System)
    requires Inv(s) && s.sender.OnWire?
    ensures Inv(Next(s, Mark))
  {
    var s' := Next(s, Mark);
    var b := s.sender.a;
    assert forall a: nat :: Wired(s', a) == Wired(s, a);
    assert forall a: nat :: a != b ==> Due(s', a) == Due(s, a) && s'.owed[a] == s.owed[a];
    assert !Due(s, b) && Due(s', b) == s.attempts[b].cancelled;
  }

  lemma InvCancelCall(s: System, why: CancelReason)
    requires Inv(s)
    ensures Inv(Next(s, CancelCall(why)))
  {
    hide CancelsFollow, Counted;
    var s' := Next(s, CancelCall(why));
    if s.rec.inFlight.Some? {
      TakenCounted(s, s', s.rec.inFlight.value);
    } else {
      InvSameWire(s, s');
    }
  }

  /** Attempt b is taken; its CANCEL is owed at once when its INVITE is out. */
  lemma TakenCounted(s: System, s': System, b: nat)
    requires Counted(s) && b < |s.attempts| && !s.attempts[b].cancelled
    requires s'.attempts == s.attempts[b := s.attempts[b].(cancelled := true)] && s'.sender == s.sender
    requires s'.wire == s.wire && s'.owed == if s.attempts[b].sent then s.owed + multiset{b} else s.owed
    ensures Counted(s')
  {
    forall a: nat
      ensures Wired(s', a) == Wired(s, a)
      ensures s'.owed[a] + multiset(s'.wire)[Cancel(a)] == if Due(s', a) then 1 else 0
    {
      assert a == b ==> !Due(s, b) && Due(s', b) == s.attempts[b].sent;
      assert a != b ==> Due(s', a) == Due(s, a) && s'.owed[a] == s.owed[a];
    }
  }

  lemma InvSendCancel(s: System, b: nat)
    requires Inv(s) && b in s.owed
    ensures Inv(Next(s, SendCancel(b)))
  {
    hide CancelsFollow, Counted;
    OwedWired(s, b);
    WireAppend(s.wire, Cancel(b));
    CancelCounted(s, Next(s, SendCancel(b)), b);
  }

  lemma OwedWired(s: System, b: nat)
    requires Counted(s) && b in s.owed
    ensures Invite(b) in s.wire
  {
    assert Due(s, b) && Wired(s, b) && multiset(s.wire)[Invite(b)] == 1;
  }

  lemma CancelCounted(s: System, s': System, b: nat)
    requires Counted(s) && b in s.owed && s'.attempts == s.attempts && s'.sender == s.sender
    requires s'.owed == s.owed - multiset{b} && multiset(s'.wire) == multiset(s.wire) + multiset{Cancel(b)}
    ensures Counted(s')
  {
    forall a: nat
      ensures Wired(s', a) == Wired(s, a) && multiset(s'.wire)[Invite(a)] == multiset(s.wire)[Invite(a)]
      ensures s'.owed[a] + multiset(s'.wire)[Cancel(a)] == if Due(s', a) then 1 else 0
    {
      assert Due(s', a) == Due(s, a);
    }
  }

  /** Steps that touch neither the wire nor an attempt. */
  lemma InvSameWire(s: System, s': System)
    requires Inv(s)
    requires s'.attempts == s.attempts && s'.owed == s.owed && s'.wire == s.wire
    requires s'.sender == s.sender || (!s.sender.OnWire? && (s'.sender.Between? || s'.sender.Finished?))
    requires s'.rec.inFlight == s.rec.inFlight || s'.rec.inFlight.None?
    requires s'.rec.cancelled ==> s'.rec.inFlight.None?
    ensures Inv(s')
  {
    assert forall a: nat :: Due(s', a) == Due(s, a) && Wired(s', a) == Wired(s, a);
  }

  lemma InvStep(s: System, step: Step)
    requires Inv(s)
    ensures Inv(Next(s, step))
  {
    hide Counted, CancelsFollow;
    match step
    case TrackNext => InvTrack(s);
    case SendInvite =>
      if s.sender.Tracking? {
        InvSendInvite(s);
      }
    case Mark =>
      if s.sender.OnWire? {
        InvMark(s);
      }
    case CancelCall(why) => InvCancelCall(s, why);
    case SendCancel(a) =>
      if a in s.owed {
        InvSendCancel(s, a);
      }
    case _ => InvSameWire(s, Next(s, step));
  }

  lemma {:induction false} InvExec(s: System, steps: seq<Step>)
    requires Inv(s)
    ensures Inv(Exec(s, steps))
    decreases |steps|
  {
    if steps != [] {
      InvStep(s, steps[0]);
      InvExec(Next(s, steps[0]), steps[1..]);
    }
  }

  // ---- Theorems over every interleaving -----------------------------------------

  function Count(wire: seq<Event>, e: Event): nat {
    multiset(wire)[e]
  }

  /** In every interleaving an INVITE goes out at most once, a CANCEL at most
      once, after the INVITE it cancels and only for an attempt a canceller
      took. */
  lemma CancelSafety(steps: seq<Step>, a: nat)
    ensures var s := Exec(INITIAL, steps);
      && Count(s.wire, Invite(a)) <= 1
      && Count(s.wire, Cancel(a)) <= 1
      && CancelsFollow(s.wire)
      && (Cancel(a) in s.wire ==> Due(s, a))
  {
    InvExec(INITIAL, steps);
  }

  /** Nobody still has a CANCEL to send, and no INVITE is on the wire unmarked. */
  predicate Settled(s: System) {
    s.owed == multiset{} && !s.sender.OnWire?
  }

  /** Once things settle, an attempt has been CANCELled exactly once if a
      canceller took it and its INVITE reached the wire, and never otherwise. */
  lemma CancelExactlyOnce(steps: seq<Step>, a: nat)
    requires Settled(Exec(INITIAL, steps))
    ensures var s := Exec(INITIAL, steps);
      Count(s.wire, Cancel(a)) ==
        if a < |s.attempts| && s.attempts[a].cancelled && Invite(a) in s.wire then 1 else 0
  {
    InvExec(INITIAL, steps);
    var s := Exec(INITIAL, steps);
    assert (Invite(a) in s.wire) == (multiset(s.wire)[Invite(a)] > 0);
    assert Wired(s, a) == (a < |s.attempts| && s.attempts[a].sent);
  }

  lemma NothingAfterCancelStep(s: System, step: Step)
    requires Inv(s) && s.rec.cancelled
    ensures var t := Next(s, step);
      && t.rec.cancelled && t.rec.inFlight.None?
      && (forall a: nat :: Invite(a) in t.wire ==> Invite(a) in s.wire || s.sender == Tracking(a))
      && (t.sender.Tracking? ==> t.sender == s.sender)
  {
    hide Wired, Due, CancelsFollow;
  }

  /** A given-up call keeps no attempt to cancel, makes no further one, and puts
      on the wire no INVITE but the one it had already tracked. */
  lemma {:induction false} NothingAfterCancel(s: System, steps: seq<Step>)
    requires Inv(s) && s.rec.cancelled
    ensures var t := Exec(s, steps);
      && t.rec.cancelled && t.rec.inFlight.None?
      && (forall a: nat :: Invite(a) in t.wire ==> Invite(a) in s.wire || s.sender == Tracking(a))
      && (t.sender.Tracking? ==> t.sender == s.sender)
    decreases |steps|
  {
    if steps != [] {
      InvStep(s, steps[0]);
      NothingAfterCancelStep(s, steps[0]);
      NothingAfterCancel(Next(s, steps[0]), steps[1..]);
    }
  }

  lemma StepState(s: System, step: Step)
    ensures Rank(s.rec.state) <= Rank(Next(s, step).rec.state)
    ensures s.rec.cancelled ==> Next(s, step).rec.cancelled
    ensures s.rec.cancelled && s.rec.state != Confirmed ==> Next(s, step).rec.state != Confirmed
  {
  }

  /** A call cancelled before it was confirmed never is. */
  lemma {:induction false} CancelledNeverConfirmed(s: System, steps: seq<Step>)
    requires s.rec.cancelled && s.rec.state != Confirmed
    ensures Exec(s, steps).rec.state != Confirmed
    decreases |steps|
  {
    if steps != [] {
      hide Next;
      StepState(s, steps[0]);
      CancelledNeverConfirmed(Next(s, steps[0]), steps[1..]);
    }
  }

  function Rank(s: State): nat {
    match s
    case Early => 0
    case Confirmed => 1
    case Ended => 2
  }

  /** The state only moves forward; a record that ended stays as it was. */
  lemma {:induction false} StateOnlyAdvances(s: System, steps: seq<Step>)
    ensures Rank(s.rec.state) <= Rank(Exec(s, steps).rec.state)
    decreases |steps|
  {
    if steps != [] {
      hide Next;
      StepState(s, steps[0]);
      StateOnlyAdvances(Next(s, steps[0]), steps[1..]);
    }
  }
}
