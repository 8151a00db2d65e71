/**
 The proxy's store of calls (internal/edge/dialog.go): records grouped by
 Call-ID, the session slots, and what is reported about calls starting and
 ending. A record is named by a handle; `recs` is every record made so far.

 Each critical section is a function on `Table`; the methods of `DialogTable`
 are the program's loops and updates, proved equal to those functions. The
 theorems are about every run of operations.
 */
module Dialogs {
  import Index
  import opened CallRecord
  import opened Options

  datatype Entry = Entry(callID: string, callerTag: string, rec: Record)

  datatype Table = Table(
    byCallID: map<string, seq<nat>>, recs: map<nat, Entry>, closed: bool, sessions: int,
    started: seq<nat>, ended: seq<nat>)

  const EMPTY := Table(map[], map[], false, 0, [], [])

  datatype BeginResult = BeginOK | BeginMerged | BeginClosed | BeginFull

  function CallIDOf(e: Entry): string {
    e.callID
  }

  /** The records that have not ended. */
  function Live(recs: map<nat, Entry>): map<nat, Entry> {
    map h | h in recs && recs[h].rec.state != Ended :: recs[h]
  }

  /** Record h is the early call a second INVITE with this tag merges with. */
  predicate IsMerge(recs: map<nat, Entry>, callerTag: string, h: nat) {
    h in recs && recs[h].rec.state == Early && recs[h].callerTag == callerTag
  }

  // ---- Critical sections ------------------------------------------------------

  function Begin(t: Table, h: nat, callID: string, callerTag: string, limit: int): (Table, BeginResult) {
    if t.closed then (t, BeginClosed)
    else if exists g <- Index.Group(t.byCallID, callID) :: IsMerge(t.recs, callerTag, g) then (t, BeginMerged)
    else if limit > 0 && t.sessions >= limit then (t, BeginFull)
    else
      (t.(byCallID := Index.Add(t.byCallID, callID, h),
        recs := t.recs[h := Entry(callID, callerTag, NEW_RECORD)],
        sessions := t.sessions + 1), BeginOK)
  }

  function SetRec(t: Table, h: nat, r: Record): Table
    requires h in t.recs
  {
    t.(recs := t.recs[h := t.recs[h].(rec := r)])
  }

  function ConfirmCall(t: Table, h: nat): Table
    requires h in t.recs
  {
    var (r, ok) := ConfirmIn(t.recs[h].rec);
    var t' := SetRec(t, h, r);
    if ok then t'.(started := t.started + [h]) else t'
  }

  function EndCall(t: Table, h: nat): Table
    requires h in t.recs
  {
    var e := t.recs[h];
    var (r, ended, wasUp) := EndIn(e.rec);
    if !ended then t
    else
      SetRec(t, h, r).(
        byCallID := Index.Drop(t.byCallID, e.callID, h),
        sessions := t.sessions - 1,
        ended := if wasUp && e.rec.hasMedia then t.ended + [h] else t.ended)
  }

  // ---- The program's table ------------------------------------------------------

  class DialogTable {
    var byCallID: map<string, seq<nat>>
    var recs: map<nat, Entry>
    var closed: bool
    var sessions: int
    ghost var started: seq<nat>
    ghost var ended: seq<nat>

    ghost function Abstract(): Table
      reads this
    {
      Table(byCallID, recs, closed, sessions, started, ended)
    }

    constructor ()
      ensures Abstract() == EMPTY
    {
      byCallID, recs, closed, sessions, started, ended := map[], map[], false, 0, [], [];
    }

    /** begin: h is the handle of the record to make. */
    method BeginDialog(h: nat, callID: string, callerTag: string, limit: int) returns (result: BeginResult)
      requires forall g <- Index.Group(byCallID, callID) :: g in recs
      modifies this
      ensures (Abstract(), result) == Begin(old(Abstract()), h, callID, callerTag, limit)
    {
      if closed {
        return BeginClosed;
      }
      var group := Index.Group(byCallID, callID);
      for i := 0 to |group|
        invariant forall j :: 0 <= j < i ==> !IsMerge(recs, callerTag, group[j])
      {
        assert group[i] in group;
        var o := recs[group[i]];
        if o.rec.state == Early && o.callerTag == callerTag {
          assert IsMerge(recs, callerTag, group[i]);
          return BeginMerged;
        }
      }
      if limit > 0 && sessions >= limit {
        return BeginFull;
      }
      byCallID := byCallID[callID := group + [h]];
      recs := recs[h := Entry(callID, callerTag, NEW_RECORD)];
      sessions := sessions + 1;
      return BeginOK;
    }

    /** removeLocked. */
    method Remove(h: nat, callID: string)
      modifies this`byCallID
      ensures byCallID == Index.Drop(old(byCallID), callID, h)
    {
      var list := Index.Group(byCallID, callID);
      ghost var whole := list;
      var i := 0;
      while i < |list|
        invariant 0 <= i <= |list| && list == whole && h !in list[..i]
      {
        if list[i] == h {
          Index.WithoutAt(list, i);
          list := list[..i] + list[i + 1..];
          break;
        }
        i := i + 1;
      }
      assert whole[..|whole|] == whole;
      if |list| == 0 {
        byCallID := byCallID - {callID};
      } else {
        byCallID := byCallID[callID := list];
      }
    }

    method Confirm(h: nat) returns (ok: bool)
      requires h in recs
      modifies this
      ensures Abstract() == ConfirmCall(old(Abstract()), h)
      ensures started == if ok then old(started) + [h] else old(started)
    {
      var d := recs[h].rec;
      if d.state != Early || !d.hasMedia || d.cancelled {
        assert recs[h := recs[h].(rec := d)] == recs;
        return false;
      }
      recs := recs[h := recs[h].(rec := d.(state := Confirmed))];
      started := started + [h];
      return true;
    }

    /** endBy: reports whether this call ended a confirmed dialog. */
    method EndBy(h: nat) returns (wasUp: bool)
      requires h in recs
      modifies this
      ensures Abstract() == EndCall(old(Abstract()), h)
      ensures wasUp == (old(recs)[h].rec.state == Confirmed)
    {
      var e := recs[h];
      if e.rec.state == Ended {
        return false;
      }
      wasUp := e.rec.state == Confirmed;
      recs := recs[h := e.(rec := e.rec.(state := Ended, inFlight := None))];
      Remove(h, e.callID);
      sessions := sessions - 1;
      if wasUp && e.rec.hasMedia {
        ended := ended + [h];
      }
    }

    /** Every record of the table, group by group in whatever order the map gives
        them. */
    method Records() returns (all: seq<nat>)
      requires Consistent(Abstract())
      ensures (forall h <- all :: h in recs) && forall h <- Live(recs) :: h in all
    {
      hide Consistent, Live;
      EveryLiveGrouped(Abstract());
      all := [];
      var rest := byCallID.Keys;
      while rest != {}
        invariant rest <= byCallID.Keys && forall h <- all :: h in recs
        invariant forall callID <- byCallID :: callID !in rest ==> forall h <- byCallID[callID] :: h in all
        decreases |rest|
      {
        var callID :| callID in rest;
        rest := rest - {callID};
        all := all + byCallID[callID];
      }
    }

    /** closeAll: the records are listed under the lock and ended after it. */
    method CloseAll()
      requires Consistent(Abstract())
      modifies this
      ensures Consistent(Abstract()) && Live(recs) == map[] && byCallID == map[] && sessions == 0
    {
      var all := Records();
      assert all[0..] == all;
      for i := 0 to |all|
        invariant Left(Abstract(), all, i)
      {
        hide Left, EndCall;
        EndTurn(Abstract(), all, i);
        var _ := EndBy(all[i]);
      }
      NobodyLive(Abstract());
    }
  }

  // ---- Invariant -------------------------------------------------------------------

  ghost predicate DistinctEarly(recs: map<nat, Entry>) {
    forall g <- recs, h <- recs :: g != h && recs[g].rec.state == Early && recs[h].rec.state == Early
      ==> recs[g].callID != recs[h].callID || recs[g].callerTag != recs[h].callerTag
  }

  /** What was reported: each confirmed call once as started, each ended one of
      them once as ended. */
  ghost predicate Reported(t: Table) {
    && Index.Distinct(t.started) && Index.Distinct(t.ended)
    && (forall h <- t.started :: h in t.recs && t.recs[h].rec.state != Early)
    && (forall h <- t.recs :: t.recs[h].rec.state == Confirmed ==> h in t.started && t.recs[h].rec.hasMedia)
    && (forall h <- t.recs :: h in t.ended <==> h in t.started && t.recs[h].rec.state == Ended)
    && (forall h <- t.ended :: h in t.recs)
  }

  ghost predicate Grouped(t: Table) {
    Index.Agrees(t.byCallID, Live(t.recs), CallIDOf) && t.sessions == |Live(t.recs)|
  }

  ghost predicate Consistent(t: Table) {
    Grouped(t) && DistinctEarly(t.recs) && Reported(t)
  }

  lemma GroupedIsLive(t: Table, callID: string, i: nat)
    requires Grouped(t) && callID in t.byCallID && i < |t.byCallID[callID]|
    ensures var h := t.byCallID[callID][i];
      h in t.recs && t.recs[h].rec.state != Ended && t.recs[h].callID == callID
  {
    var h := t.byCallID[callID][i];
    assert h in t.byCallID[callID];
    assert h in Live(t.recs);
  }

  lemma LiveIsGrouped(t: Table, h: nat)
    requires Grouped(t) && h in t.recs && t.recs[h].rec.state != Ended
    ensures h in Index.Group(t.byCallID, t.recs[h].callID)
  {
    assert h in Live(t.recs);
  }

  lemma EveryLiveGrouped(t: Table)
    requires Consistent(t)
    ensures forall h <- Live(t.recs) :: t.recs[h].callID in t.byCallID && h in t.byCallID[t.recs[h].callID]
    ensures forall callID <- t.byCallID, h <- t.byCallID[callID] :: h in t.recs
  {
    hide Grouped, DistinctEarly, Reported;
    forall h <- Live(t.recs) ensures t.recs[h].callID in t.byCallID && h in t.byCallID[t.recs[h].callID] {
      LiveIsGrouped(t, h);
    }
    forall callID <- t.byCallID, h <- t.byCallID[callID] ensures h in t.recs {
      var i :| 0 <= i < |t.byCallID[callID]| && t.byCallID[callID][i] == h;
      GroupedIsLive(t, callID, i);
    }
  }

  lemma EndCallEnds(t: Table, h: nat)
    requires h in t.recs
    ensures var t' := EndCall(t, h);
      t'.recs.Keys == t.recs.Keys && forall g <- Live(t'.recs) :: g in Live(t.recs) && g != h
  {
  }

  lemma GroupNotEmpty(t: Table, callID: string)
    requires Consistent(t) && callID in t.byCallID
    ensures t.byCallID[callID] != [] && t.byCallID[callID][0] in Live(t.recs)
  {
    GroupedIsLive(t, callID, 0);
  }

  lemma NobodyLive(t: Table)
    requires Consistent(t) && forall h :: h !in Live(t.recs)
    ensures Live(t.recs) == map[] && t.byCallID == map[] && t.sessions == 0
  {
    if t.byCallID != map[] {
      var callID :| callID in t.byCallID;
      GroupNotEmpty(t, callID);
    }
    assert |Live(t.recs)| == 0;
  }

  /** Of a list that holds every live record, the first one ends. */
  ghost predicate Left(t: Table, all: seq<nat>, i: nat)
    requires i <= |all|
  {
    Consistent(t) && (forall h <- all :: h in t.recs) && forall h <- Live(t.recs) :: h in all[i..]
  }

  lemma EndTurn(t: Table, all: seq<nat>, i: nat)
    requires i < |all| && Left(t, all, i)
    ensures all[i] in t.recs && Left(EndCall(t, all[i]), all, i + 1)
  {
    hide Consistent, Live, EndCall;
    assert all[i] in all && all[i..] == [all[i]] + all[i + 1..];
    InvEnd(t, all[i]);
    EndCallEnds(t, all[i]);
  }

  lemma LiveEnds(recs: map<nat, Entry>, h: nat, e: Entry)
    requires h in recs && recs[h].rec.state != Ended && e.rec.state == Ended
    ensures Live(recs[h := e]) == Live(recs) - {h}
    ensures |Live(recs) - {h}| == |Live(recs)| - 1
  {
    assert (Live(recs) - {h})[h := recs[h]] == Live(recs);
  }

  /** Early records may leave, not appear or change identity. */
  lemma DistinctEarlyStays(recs: map<nat, Entry>, h: nat, e: Entry)
    requires DistinctEarly(recs) && h in recs
    requires e.callID == recs[h].callID && e.callerTag == recs[h].callerTag
    requires e.rec.state == Early ==> recs[h].rec.state == Early
    ensures DistinctEarly(recs[h := e])
  {
  }

  lemma LiveBegins(recs: map<nat, Entry>, h: nat, e: Entry)
    requires h !in recs && e.rec.state != Ended
    ensures h !in Live(recs) && Live(recs[h := e]) == Live(recs)[h := e]
    ensures |Live(recs)[h := e]| == |Live(recs)| + 1
  {
    assert Live(recs[h := e]) == Live(recs)[h := e];
  }

  lemma GroupedBegin(t: Table, h: nat, callID: string, callerTag: string, limit: int)
    requires Grouped(t) && h !in t.recs
    ensures Grouped(Begin(t, h, callID, callerTag, limit).0)
  {
    hide Index.Agrees, IsMerge, Live;
    var (t', result) := Begin(t, h, callID, callerTag, limit);
    if result == BeginOK {
      var e := Entry(callID, callerTag, NEW_RECORD);
      LiveBegins(t.recs, h, e);
      Index.AddAgrees(t.byCallID, Live(t.recs), CallIDOf, h, e);
    }
  }

  /** The merge check sees every early record that matters. */
  lemma MergeIff(t: Table, callID: string, callerTag: string)
    requires Grouped(t)
    ensures (exists g <- Index.Group(t.byCallID, callID) :: IsMerge(t.recs, callerTag, g)) <==>
      exists g <- t.recs :: IsMerge(t.recs, callerTag, g) && t.recs[g].callID == callID
  {
    forall g <- t.recs | IsMerge(t.recs, callerTag, g) && t.recs[g].callID == callID
      ensures g in Index.Group(t.byCallID, callID)
    {
      LiveIsGrouped(t, g);
    }
    var group := Index.Group(t.byCallID, callID);
    forall i | 0 <= i < |group| ensures group[i] in t.recs && t.recs[group[i]].callID == callID {
      GroupedIsLive(t, callID, i);
    }
  }

  lemma DistinctEarlyBegin(recs: map<nat, Entry>, h: nat, callID: string, callerTag: string)
    requires DistinctEarly(recs) && h !in recs
    requires !(exists g <- recs :: IsMerge(recs, callerTag, g) && recs[g].callID == callID)
    ensures DistinctEarly(recs[h := Entry(callID, callerTag, NEW_RECORD)])
  {
    assert forall g <- recs :: recs[g].callID == callID ==> !IsMerge(recs, callerTag, g);
  }

  lemma ReportedBegin(t: Table, t': Table, h: nat, e: Entry)
    requires Reported(t) && h !in t.recs && e.rec.state == Early
    requires t'.recs == t.recs[h := e] && t'.started == t.started && t'.ended == t.ended
    ensures Reported(t')
  {
    assert h !in t.started && h !in t.ended;
  }

  lemma InvBegin(t: Table, h: nat, callID: string, callerTag: string, limit: int)
    requires Consistent(t) && h !in t.recs
    ensures Consistent(Begin(t, h, callID, callerTag, limit).0)
  {
    hide Grouped, DistinctEarly, Reported;
    GroupedBegin(t, h, callID, callerTag, limit);
    MergeIff(t, callID, callerTag);
    if Begin(t, h, callID, callerTag, limit).1 == BeginOK {
      DistinctEarlyBegin(t.recs, h, callID, callerTag);
      ReportedBegin(t, Begin(t, h, callID, callerTag, limit).0, h, Entry(callID, callerTag, NEW_RECORD));
    }
  }

  lemma GroupedSet(t: Table, h: nat, r: Record)
    requires Grouped(t) && h in t.recs && (r.state == Ended <==> t.recs[h].rec.state == Ended)
    ensures Grouped(SetRec(t, h, r))
  {
    hide Index.Agrees, Live;
    var e := t.recs[h].(rec := r);
    LiveSet(t.recs, h, e);
    if r.state != Ended {
      Index.UpdateAgrees(t.byCallID, Live(t.recs), CallIDOf, h, e);
    }
  }

  lemma LiveSet(recs: map<nat, Entry>, h: nat, e: Entry)
    requires h in recs && (e.rec.state == Ended <==> recs[h].rec.state == Ended)
    ensures e.rec.state == Ended ==> Live(recs[h := e]) == Live(recs)
    ensures e.rec.state != Ended ==> h in Live(recs) && Live(recs)[h] == recs[h]
    ensures e.rec.state != Ended ==> Live(recs[h := e]) == Live(recs)[h := e] && |Live(recs)[h := e]| == |Live(recs)|
  {
    if e.rec.state != Ended {
      assert Live(recs[h := e]) == Live(recs)[h := e];
      assert Live(recs)[h := e].Keys == Live(recs).Keys;
    }
  }

  lemma InvSet(t: Table, h: nat, r: Record)
    requires Consistent(t) && h in t.recs && r.state == t.recs[h].rec.state
    requires r.state == Confirmed ==> r.hasMedia
    ensures Consistent(SetRec(t, h, r))
  {
    hide Grouped, DistinctEarly, Reported;
    GroupedSet(t, h, r);
    DistinctEarlyStays(t.recs, h, t.recs[h].(rec := r));
    ReportedSet(t, h, r);
  }

  lemma ReportedSet(t: Table, h: nat, r: Record)
    requires Reported(t) && h in t.recs && r.state == t.recs[h].rec.state
    requires r.state == Confirmed ==> r.hasMedia
    ensures Reported(SetRec(t, h, r))
  {
    hide Index.Distinct;
  }

  lemma ReportedConfirm(t: Table, h: nat)
    requires Reported(t) && h in t.recs
    ensures Reported(ConfirmCall(t, h))
  {
    if ConfirmIn(t.recs[h].rec).1 {
      assert h !in t.started && h !in t.ended;
    }
  }

  lemma InvConfirm(t: Table, h: nat)
    requires Consistent(t) && h in t.recs
    ensures Consistent(ConfirmCall(t, h))
  {
    hide DistinctEarly, Reported, Index.Agrees;
    var (r, _) := ConfirmIn(t.recs[h].rec);
    GroupedSet(t, h, r);
    DistinctEarlyStays(t.recs, h, t.recs[h].(rec := r));
    ReportedConfirm(t, h);
  }

  lemma GroupedEnd(t: Table, h: nat)
    requires Grouped(t) && h in t.recs
    ensures Grouped(EndCall(t, h))
  {
    if t.recs[h].rec.state != Ended {
      var t' := EndCall(t, h);
      LiveEnds(t.recs, h, t'.recs[h]);
      Index.DropAgrees(t.byCallID, Live(t.recs), CallIDOf, h);
    }
  }

  lemma ReportedEnd(t: Table, h: nat)
    requires Reported(t) && h in t.recs
    ensures Reported(EndCall(t, h))
  {
    if t.recs[h].rec.state != Ended {
      assert h !in t.ended;
    }
  }

  lemma InvEnd(t: Table, h: nat)
    requires Consistent(t) && h in t.recs
    ensures Consistent(EndCall(t, h))
  {
    GroupedEnd(t, h);
    ReportedEnd(t, h);
    DistinctEarlyStays(t.recs, h, EndCall(t, h).recs[h]);
  }

  // ---- Runs ------------------------------------------------------------------------

  datatype Act = DoTrack(a: nat) | DoUntrack | DoCancel(why: CancelReason) | DoAttach | DoConfirm | DoEnd

  datatype Op = OpBegin(callID: string, callerTag: string, limit: int) | OpOn(h: nat, act: Act) | OpClose

  /** One operation of some goroutine on a record that was made. */
  function ApplyAct(t: Table, h: nat, act: Act): Table
    requires h in t.recs
  {
    var r := t.recs[h].rec;
    match act
    case DoTrack(a) => SetRec(t, h, TrackIn(r, a).0)
    case DoUntrack => SetRec(t, h, UntrackIn(r))
    case DoCancel(why) => SetRec(t, h, CancelSeriesIn(r, Flags(false, false), why).0)
    case DoAttach => SetRec(t, h, AttachIn(r, t.closed).0)
    case DoConfirm => ConfirmCall(t, h)
    case DoEnd => EndCall(t, h)
  }

  /** One operation; n is the handle a new record gets. */
  function Apply(t: Table, n: nat, op: Op): Table {
    match op
    case OpBegin(callID, callerTag, limit) => if n in t.recs then t else Begin(t, n, callID, callerTag, limit).0
    case OpOn(h, act) => if h in t.recs then ApplyAct(t, h, act) else t
    case OpClose => t.(closed := true)
  }

  function Exec(t: Table, n: nat, ops: seq<Op>): Table
    decreases |ops|
  {
    if ops == [] then t else Exec(Apply(t, n, ops[0]), n + 1, ops[1..])
  }

  lemma InvAct(t: Table, h: nat, act: Act)
    requires Consistent(t) && h in t.recs
    ensures Consistent(ApplyAct(t, h, act))
  {
    hide Grouped, DistinctEarly, Index.Distinct;
    var r := t.recs[h].rec;
    match act
    case DoTrack(a) => InvSet(t, h, TrackIn(r, a).0);
    case DoUntrack => InvSet(t, h, UntrackIn(r));
    case DoCancel(why) => InvSet(t, h, CancelSeriesIn(r, Flags(false, false), why).0);
    case DoAttach => InvSet(t, h, AttachIn(r, t.closed).0);
    case DoConfirm => InvConfirm(t, h);
    case DoEnd => InvEnd(t, h);
  }

  lemma InvApply(t: Table, n: nat, op: Op)
    requires Consistent(t)
    ensures Consistent(Apply(t, n, op))
  {
    match op
    case OpBegin(callID, callerTag, limit) =>
      if n !in t.recs {
        InvBegin(t, n, callID, callerTag, limit);
      }
    case OpOn(h, act) =>
      if h in t.recs {
        InvAct(t, h, act);
      }
    case OpClose =>
  }

  lemma {:induction false} InvExec(t: Table, n: nat, ops: seq<Op>)
    requires Consistent(t)
    ensures Consistent(Exec(t, n, ops))
    decreases |ops|
  {
    if ops != [] {
      InvApply(t, n, ops[0]);
      InvExec(Apply(t, n, ops[0]), n + 1, ops[1..]);
    }
  }

  // ---- Theorems ----------------------------------------------------------------------

  /** After any run: the session count is the number of records in the table;
      a record is in the table, once and under its Call-ID, exactly while it has
      not ended; no two early ones share Call-ID and caller tag. */
  lemma Conservation(ops: seq<Op>)
    ensures var t := Exec(EMPTY, 0, ops);
      && t.sessions == |Live(t.recs)|
      && Index.Agrees(t.byCallID, Live(t.recs), CallIDOf)
      && DistinctEarly(t.recs)
  {
    InvExec(EMPTY, 0, ops);
  }

  predicate IsConfirmed(t: Table, h: nat) {
    h in t.recs && t.recs[h].rec.state == Confirmed
  }

  /** At some point of the run the call was confirmed. */
  ghost predicate EverConfirmed(ops: seq<Op>, h: nat) {
    exists k :: 0 <= k <= |ops| && IsConfirmed(Exec(EMPTY, 0, ops[..k]), h)
  }

  lemma {:induction false} ExecSnoc(t: Table, n: nat, ops: seq<Op>, op: Op)
    ensures Exec(t, n, ops + [op]) == Apply(Exec(t, n, ops), n + |ops|, op)
    decreases |ops|
  {
    hide Apply;
    if ops == [] {
      assert ([] + [op])[0] == op && ([] + [op])[1..] == [];
      assert Exec(Apply(t, n, op), n + 1, []) == Apply(t, n, op);
    } else {
      assert (ops + [op])[1..] == ops[1..] + [op];
      ExecSnoc(Apply(t, n, ops[0]), n + 1, ops[1..], op);
    }
  }

  /** Only confirming a call reports it started, and nothing takes a report back. */
  lemma ReportsGrow(t: Table, n: nat, op: Op, h: nat)
    ensures h in t.started ==> h in Apply(t, n, op).started
    ensures h in Apply(t, n, op).started && h !in t.started ==> IsConfirmed(Apply(t, n, op), h)
  {
  }

  lemma EverSnoc(ops: seq<Op>, op: Op, h: nat)
    ensures EverConfirmed(ops + [op], h) <==> EverConfirmed(ops, h) || IsConfirmed(Exec(EMPTY, 0, ops + [op]), h)
  {
    hide Exec, IsConfirmed;
    var all := ops + [op];
    assert all[..|all|] == all;
    forall k | 0 <= k <= |ops| ensures all[..k] == ops[..k] {
    }
    if EverConfirmed(ops, h) {
      var k :| 0 <= k <= |ops| && IsConfirmed(Exec(EMPTY, 0, ops[..k]), h);
      assert IsConfirmed(Exec(EMPTY, 0, all[..k]), h);
    }
    if IsConfirmed(Exec(EMPTY, 0, all), h) {
      assert IsConfirmed(Exec(EMPTY, 0, all[..|all|]), h);
    }
  }

  lemma NeverAtFirst(h: nat)
    ensures !EverConfirmed([], h)
  {
    var none: seq<Op> := [];
    assert none[..0] == none;
    assert !IsConfirmed(Exec(EMPTY, 0, none[..0]), h);
  }

  /** A call was ever confirmed exactly when it is in the log of started ones. */
  lemma {:induction false} StartedIff(ops: seq<Op>, h: nat)
    ensures h in Exec(EMPTY, 0, ops).started <==> EverConfirmed(ops, h)
    decreases |ops|
  {
    hide Apply, EverConfirmed, Grouped, DistinctEarly;
    if ops == [] {
      NeverAtFirst(h);
    } else {
      var m := |ops| - 1;
      var init := ops[..m];
      assert init + [ops[m]] == ops;
      ExecSnoc(EMPTY, 0, init, ops[m]);
      ReportsGrow(Exec(EMPTY, 0, init), m, ops[m], h);
      StartedIff(init, h);
      EverSnoc(init, ops[m], h);
      ReportedStarted(ops, h);
    }
  }

  lemma ReportedStarted(ops: seq<Op>, h: nat)
    ensures IsConfirmed(Exec(EMPTY, 0, ops), h) ==> h in Exec(EMPTY, 0, ops).started
  {
    hide Exec;
    EmptyConsistent();
    InvExec(EMPTY, 0, ops);
  }

  lemma EmptyConsistent()
    ensures Consistent(EMPTY)
  {
  }

  /** After any run: a call is reported started exactly once if it was ever
      confirmed, else never, and ended exactly once if it then ended, however many
      operations tried to end it. */
  lemma StartedAndEndedOnce(ops: seq<Op>, h: nat)
    ensures var t := Exec(EMPTY, 0, ops);
      && multiset(t.started)[h] == (if EverConfirmed(ops, h) then 1 else 0)
      && multiset(t.ended)[h] == (if EverConfirmed(ops, h) && h in t.recs && t.recs[h].rec.state == Ended then 1 else 0)
  {
    InvExec(EMPTY, 0, ops);
    StartedIff(ops, h);
    var t := Exec(EMPTY, 0, ops);
    Index.CountOnce(t.started, h);
    Index.CountOnce(t.ended, h);
  }

  /** The session cap: a begin under a cap never leaves more sessions than the
      cap, and admits exactly when the table is open, no early record of the
      same Call-ID and tag is in it, and a slot is free. */
  lemma CapHolds(t: Table, h: nat, callID: string, callerTag: string, limit: int)
    requires Consistent(t) && h !in t.recs
    ensures var (t', result) := Begin(t, h, callID, callerTag, limit);
      && (result == BeginOK <==>
          && !t.closed
          && !(exists g <- t.recs :: IsMerge(t.recs, callerTag, g) && t.recs[g].callID == callID)
          && (limit <= 0 || |Live(t.recs)| < limit))
      && (result == BeginOK && limit > 0 ==> |Live(t'.recs)| <= limit)
      && (result != BeginOK ==> t' == t)
  {
    GroupedBegin(t, h, callID, callerTag, limit);
    MergeIff(t, callID, callerTag);
  }

  predicate Advances(t: Table, t': Table, h: nat)
    requires h in t.recs
  {
    && h in t'.recs && t'.recs[h].callID == t.recs[h].callID && t'.recs[h].callerTag == t.recs[h].callerTag
    && Rank(t.recs[h].rec.state) <= Rank(t'.recs[h].rec.state)
  }

  lemma ActAdvances(t: Table, h: nat, act: Act, g: nat)
    requires h in t.recs && g in t.recs
    ensures Advances(t, ApplyAct(t, h, act), g)
  {
  }

  lemma StepAdvances(t: Table, n: nat, op: Op, h: nat)
    requires h in t.recs
    ensures Advances(t, Apply(t, n, op), h)
  {
    hide ApplyAct;
    if op.OpOn? && op.h in t.recs {
      ActAdvances(t, op.h, op.act, h);
    }
  }

  /** Over any run a record keeps its identity and its state only advances. */
  lemma {:induction false} StateOnlyAdvances(t: Table, n: nat, ops: seq<Op>, h: nat)
    requires h in t.recs
    ensures Advances(t, Exec(t, n, ops), h)
    decreases |ops|
  {
    if ops != [] {
      hide Apply;
      StepAdvances(t, n, ops[0], h);
      StateOnlyAdvances(Apply(t, n, ops[0]), n + 1, ops[1..], h);
    }
  }

  // ---- Media -----------------------------------------------------------------------------

  /** Media is attached to a record that has not ended, and the table is not
      closed. */
  predicate Attaches(before: seq<Op>, op: Op, h: nat) {
    var t := Exec(EMPTY, 0, before);
    op == OpOn(h, DoAttach) && OpClose !in before && h in t.recs && t.recs[h].rec.state != Ended
  }

  ghost predicate EverAttached(ops: seq<Op>, h: nat) {
    exists k :: 0 <= k < |ops| && Attaches(ops[..k], ops[k], h)
  }

  lemma AttachedSnoc(ops: seq<Op>, op: Op, h: nat)
    ensures EverAttached(ops + [op], h) <==> EverAttached(ops, h) || Attaches(ops, op, h)
  {
    hide Attaches;
    var all := ops + [op];
    assert all[..|ops|] == ops && all[|ops|] == op;
    forall k | 0 <= k < |ops| ensures all[..k] == ops[..k] && all[k] == ops[k] {
    }
    if EverAttached(ops, h) {
      var k :| 0 <= k < |ops| && Attaches(ops[..k], ops[k], h);
      assert Attaches(all[..k], all[k], h);
    }
    if Attaches(ops, op, h) {
      assert Attaches(all[..|ops|], all[|ops|], h);
    }
  }

  lemma MediaStep(t: Table, n: nat, op: Op, h: nat)
    ensures var t' := Apply(t, n, op);
      && t'.closed == (t.closed || op == OpClose)
      && (HasMedia(t', h) <==>
        HasMedia(t, h) || (op == OpOn(h, DoAttach) && h in t.recs && !t.closed && t.recs[h].rec.state != Ended))
  {
    hide ApplyAct;
    if op.OpOn? && op.h in t.recs {
      ActMedia(t, op.h, op.act);
    }
  }

  lemma ActMedia(t: Table, g: nat, act: Act)
    requires g in t.recs
    ensures var t' := ApplyAct(t, g, act);
      && t'.closed == t.closed && t'.recs.Keys == t.recs.Keys
      && (forall h <- t.recs :: h != g ==> t'.recs[h] == t.recs[h])
      && (HasMedia(t', g) <==> HasMedia(t, g) || (act == DoAttach && !t.closed && t.recs[g].rec.state != Ended))
  {
    hide Index.Drop;
    match act
    case DoConfirm =>
    case DoEnd =>
    case _ =>
  }

  predicate HasMedia(t: Table, h: nat) {
    h in t.recs && t.recs[h].rec.hasMedia
  }

  /** After any run: the table is closed exactly when it was closed once, and a
      call has media exactly when some was attached while it had not ended and the
      table was open. */
  lemma {:induction false} MediaIff(ops: seq<Op>, h: nat)
    ensures Exec(EMPTY, 0, ops).closed <==> OpClose in ops
    ensures HasMedia(Exec(EMPTY, 0, ops), h) <==> EverAttached(ops, h)
    decreases |ops|
  {
    hide Apply, EverAttached, HasMedia;
    if ops == [] {
      NoMediaAtFirst(h);
    } else {
      var init, last := ops[..|ops| - 1], ops[|ops| - 1];
      assert ops == init + [last];
      MediaIff(init, h);
      AttachedSnoc(init, last, h);
      ExecSnoc(EMPTY, 0, init, last);
      MediaStep(Exec(EMPTY, 0, init), |init|, last, h);
    }
  }

  lemma NoMediaAtFirst(h: nat)
    ensures !HasMedia(EMPTY, h) && !EverAttached([], h)
  {
  }

  // ---- Shutdown ------------------------------------------------------------------------

  /** Somewhere in the run the record is ended. */
  predicate Ends(ops: seq<Op>, h: nat) {
    OpOn(h, DoEnd) in ops
  }

  lemma EndStep(t: Table, n: nat, h: nat)
    requires h in t.recs
    ensures h !in Live(Apply(t, n, OpOn(h, DoEnd)).recs)
  {
  }

  /** Whatever comes in between, a run that ends a record leaves it ended. */
  lemma {:induction false} RunEnds(t: Table, n: nat, ops: seq<Op>, h: nat)
    requires h in t.recs && Ends(ops, h)
    ensures h !in Live(Exec(t, n, ops).recs)
    decreases |ops|
  {
    hide Apply;
    StepAdvances(t, n, ops[0], h);
    var t' := Apply(t, n, ops[0]);
    if ops[0] == OpOn(h, DoEnd) {
      EndStep(t, n, h);
      StateOnlyAdvances(t', n + 1, ops[1..], h);
    } else {
      RunEnds(t', n + 1, ops[1..], h);
    }
  }

  lemma ClosedStep(t: Table, n: nat, op: Op)
    requires t.closed
    ensures Apply(t, n, op).closed && Apply(t, n, op).recs.Keys == t.recs.Keys
  {
  }

  lemma {:induction false} ClosedStays(t: Table, n: nat, ops: seq<Op>)
    requires t.closed
    ensures Exec(t, n, ops).closed && Exec(t, n, ops).recs.Keys == t.recs.Keys
    decreases |ops|
  {
    hide Apply;
    if ops != [] {
      ClosedStep(t, n, ops[0]);
      ClosedStays(Apply(t, n, ops[0]), n + 1, ops[1..]);
    }
  }

  /** closeAll with other goroutines at work between its listing and its ends:
      when the run ends all that was live at the listing, only records made since
      are live; none, if the table was closed before the listing. */
  lemma CloseAllInterleaved(t: Table, n: nat, ops: seq<Op>)
    requires Consistent(t) && forall h <- Live(t.recs) :: Ends(ops, h)
    ensures var t' := Exec(t, n, ops);
      && (forall h <- Live(t'.recs) :: h !in t.recs)
      && (t.closed ==> Live(t'.recs) == map[] && t'.byCallID == map[] && t'.sessions == 0)
  {
    hide Consistent;
    var t' := Exec(t, n, ops);
    forall h <- t.recs ensures h !in Live(t'.recs) {
      if h in Live(t.recs) {
        RunEnds(t, n, ops, h);
      } else {
        StateOnlyAdvances(t, n, ops, h);
      }
    }
    if t.closed {
      ClosedStays(t, n, ops);
      InvExec(t, n, ops);
      NobodyLive(t');
    }
  }

  lemma OthersUntouched(t: Table, n: nat, h: nat, g: nat)
    requires g in t.recs && g != h
    ensures var t' := Apply(t, n, OpOn(h, DoEnd)); g in t'.recs && t'.recs[g] == t.recs[g]
  {
  }

  /** Without the closing, a call begun right after the listing outlives it. */
  lemma BeginOutlivesListing(t: Table, n: nat, callID: string, callerTag: string, h: nat)
    requires Consistent(t) && !t.closed && n !in t.recs && h in t.recs
    requires forall g <- t.recs :: t.recs[g].callID != callID
    ensures n in Live(Exec(t, n, [OpBegin(callID, callerTag, 0), OpOn(h, DoEnd)]).recs)
  {
    hide Apply, Begin, Consistent, Grouped;
    var ops := [OpBegin(callID, callerTag, 0), OpOn(h, DoEnd)];
    assert ops[1..] == [OpOn(h, DoEnd)] && ops[1..][1..] == [];
    Admitted(t, n, callID, callerTag);
    var t1 := Apply(t, n, ops[0]);
    OthersUntouched(t1, n + 1, h, n);
    assert Exec(Apply(t1, n + 1, ops[1]), n + 2, []) == Apply(t1, n + 1, ops[1]);
  }

  lemma Admitted(t: Table, n: nat, callID: string, callerTag: string)
    requires Consistent(t) && !t.closed && n !in t.recs && forall g <- t.recs :: t.recs[g].callID != callID
    ensures var t' := Apply(t, n, OpBegin(callID, callerTag, 0)); n in t'.recs && t'.recs[n].rec.state == Early
  {
    MergeIff(t, callID, callerTag);
  }
}
