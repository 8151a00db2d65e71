/**
 The REGISTER circuit breaker of a switch node (internal/edge/cooldown.go).
 Times are in seconds; the clock is read once per call and never runs back.
 A node never heard of is as good as one with a new breaker.
 */
module Breakers {
  import opened Options

  const THRESHOLD: nat := 3
  const WARN_WINDOW: int := 30

  /** The open window of the next opening. */
  function Backoff(level: nat): int {
    if level == 0 then 30 else if level == 1 then 60 else 300
  }

  datatype Breaker = Breaker(
    fails: nat, level: nat, open: bool, openUntil: Option<int>, probeBy: Option<int>, lastWarn: Option<int>)

  const NEW := Breaker(0, 0, false, None, None, None)

  predicate Ahead(now: int, t: Option<int>) {
    t.Some? && now < t.value
  }

  // ---- One call -----------------------------------------------------------------

  function AllowIn(b: Breaker, now: int, budget: int): (Breaker, bool, bool) {
    if !b.open then (b, true, false)
    else if Ahead(now, b.openUntil) || Ahead(now, b.probeBy) then (b, false, false)
    else (b.(probeBy := Some(now + budget)), true, true)
  }

  function ReleaseIn(b: Breaker): Breaker {
    b.(probeBy := None)
  }

  function AnsweredIn(b: Breaker): Breaker {
    Breaker(0, 0, false, None, None, b.lastWarn)
  }

  predicate Opens(b: Breaker, probe: bool) {
    (b.open && probe) || (!b.open && b.fails + 1 >= THRESHOLD)
  }

  function UnansweredIn(b: Breaker, now: int, probe: bool): (Breaker, bool) {
    var tripped := Opens(b, probe);
    var c := b.(fails := b.fails + 1);
    var d := if tripped then c.(level := b.level + 1, open := true, openUntil := Some(now + Backoff(b.level)), probeBy := None)
      else c;
    var warn := tripped || b.lastWarn.None? || now - b.lastWarn.value >= WARN_WINDOW;
    (if warn then d.(lastWarn := Some(now)) else d, warn)
  }

  /** The breakers by node name. */
  class CooldownTable {
    var reg: map<string, Breaker>

    ghost function Of(name: string): Breaker
      reads this
    {
      if name in reg then reg[name] else NEW
    }

    /** Only the breaker of name may have changed. */
    twostate predicate OnlyOf(name: string)
      reads this
    {
      forall other :: other != name ==> Of(other) == old(Of(other))
    }

    constructor ()
      ensures forall name :: Of(name) == NEW
    {
      reg := map[];
    }

    method RegisterAllow(name: string, budget: int, now: int) returns (allow: bool, probe: bool)
      modifies this
      ensures (Of(name), allow, probe) == AllowIn(old(Of(name)), now, budget) && OnlyOf(name)
    {
      if name !in reg || !reg[name].open {
        return true, false;
      }
      var b := reg[name];
      if Ahead(now, b.openUntil) || Ahead(now, b.probeBy) {
        return false, false;
      }
      reg := reg[name := b.(probeBy := Some(now + budget))];
      return true, true;
    }

    method RegisterRelease(name: string)
      modifies this
      ensures Of(name) == ReleaseIn(old(Of(name))) && OnlyOf(name)
    {
      if name in reg {
        reg := reg[name := reg[name].(probeBy := None)];
      }
    }

    method RegisterAnswered(name: string)
      modifies this
      ensures Of(name) == AnsweredIn(old(Of(name))) && OnlyOf(name)
    {
      if name in reg {
        reg := reg[name := Breaker(0, 0, false, None, None, reg[name].lastWarn)];
      }
    }

    method RegisterUnanswered(name: string, probe: bool, now: int) returns (tripped: bool, window: int, warn: bool)
      modifies this
      ensures var b := old(Of(name));
        (Of(name), warn) == UnansweredIn(b, now, probe) && tripped == Opens(b, probe) && (tripped ==> window == Backoff(b.level))
      ensures OnlyOf(name)
    {
      var b := if name in reg then reg[name] else NEW;
      tripped, window, warn := false, 0, false;
      var level := b.level;
      b := b.(fails := b.fails + 1);
      if (b.open && probe) || (!b.open && b.fails >= THRESHOLD) {
        window := Backoff(if level < 2 then level else 2);
        tripped := true;
        b := b.(level := level + 1, open := true, openUntil := Some(now + window), probeBy := None);
      }
      if tripped || b.lastWarn.None? || now - b.lastWarn.value >= WARN_WINDOW {
        b := b.(lastWarn := Some(now));
        warn := true;
      }
      reg := reg[name := b];
    }
  }

  // ---- Runs ------------------------------------------------------------------------

  datatype Act = Allow(budget: int) | Release | Answered | Unanswered(probe: bool)

  datatype Call = Call(now: int, act: Act)

  function Next(b: Breaker, c: Call): Breaker {
    match c.act
    case Allow(budget) => AllowIn(b, c.now, budget).0
    case Release => ReleaseIn(b)
    case Answered => AnsweredIn(b)
    case Unanswered(probe) => UnansweredIn(b, c.now, probe).0
  }

  function Run(b: Breaker, calls: seq<Call>): Breaker
    decreases |calls|
  {
    if calls == [] then b else Next(Run(b, calls[..|calls| - 1]), calls[|calls| - 1])
  }

  /** The clock never runs back. */
  ghost predicate Monotone(calls: seq<Call>) {
    forall i, j :: 0 <= i < j < |calls| ==> calls[i].now <= calls[j].now
  }

  ghost predicate Inv(b: Breaker) {
    && (!b.open ==> b.level == 0 && b.fails < THRESHOLD && b.openUntil.None? && b.probeBy.None?)
    && (b.open ==> b.level > 0 && b.openUntil.Some?)
  }

  /** A closed breaker is at level 0 with fewer failures than the threshold. */
  lemma {:induction false} ClosedIsFresh(calls: seq<Call>)
    ensures Inv(Run(NEW, calls))
    decreases |calls|
  {
    if calls != [] {
      ClosedIsFresh(calls[..|calls| - 1]);
    }
  }

  predicate Admits(b: Breaker, c: Call) {
    c.act.Allow? && AllowIn(b, c.now, c.act.budget).1
  }

  predicate AdmitsProbe(b: Breaker, c: Call) {
    c.act.Allow? && AllowIn(b, c.now, c.act.budget).2
  }

  predicate OpensAt(b: Breaker, c: Call) {
    c.act.Unanswered? && Opens(b, c.act.probe)
  }

  /** The breaker before call i. */
  function At(calls: seq<Call>, i: nat): Breaker
    requires i <= |calls|
  {
    Run(NEW, calls[..i])
  }

  lemma AtNext(calls: seq<Call>, i: nat)
    requires i < |calls|
    ensures At(calls, i + 1) == Next(At(calls, i), calls[i])
  {
    assert calls[..i + 1][..i] == calls[..i];
  }

  lemma {:induction false} WindowBound(calls: seq<Call>, i: nat)
    requires Monotone(calls) && i < |calls|
    ensures var b := At(calls, i);
      b.open && b.openUntil.Some? ==> b.openUntil.value <= calls[i].now + Backoff(b.level)
    decreases i
  {
    if i == 0 {
      assert calls[..0] == [];
    } else {
      AtNext(calls, i - 1);
      WindowBound(calls, i - 1);
      assert calls[i - 1].now <= calls[i].now;
      ClosedIsFresh(calls[..i - 1]);
    }
  }

  /** While nothing is answered an open breaker stays open and its window only
      moves forward; no REGISTER is dialed before its end. */
  lemma {:induction false} OpenUntilOnlyGrows(calls: seq<Call>, i: nat, j: nat)
    requires Monotone(calls) && i <= j < |calls| && At(calls, i).open
    requires forall k :: i <= k < j ==> calls[k].act != Answered
    ensures var b, d := At(calls, i), At(calls, j);
      && d.open && b.openUntil.Some? && d.openUntil.Some? && b.openUntil.value <= d.openUntil.value
      && b.level <= d.level && (Admits(d, calls[j]) ==> b.openUntil.value <= calls[j].now)
    decreases j
  {
    ClosedIsFresh(calls[..i]);
    if i < j {
      OpenUntilOnlyGrows(calls, i, j - 1);
      AtNext(calls, j - 1);
      WindowBound(calls, j - 1);
      ClosedIsFresh(calls[..j - 1]);
    }
  }

  /** How many of the calls from i to j opened the breaker. */
  function Openings(calls: seq<Call>, i: nat, j: nat): nat
    requires i <= j <= |calls|
    decreases j - i
  {
    if i == j then 0 else Openings(calls, i, j - 1) + if OpensAt(At(calls, j - 1), calls[j - 1]) then 1 else 0
  }

  /** After a closed breaker, and until the next answer, the k-th opening (k from
      0) is at level k: it lasts 30 seconds, then a minute, then five. */
  lemma {:induction false} KthOpening(calls: seq<Call>, i: nat, j: nat)
    requires i <= j < |calls| && !At(calls, i).open
    requires forall k :: i <= k < j ==> calls[k].act != Answered
    ensures var b, k := At(calls, j), Openings(calls, i, j);
      && b.level == k
      && (OpensAt(b, calls[j]) ==>
        Next(b, calls[j]).openUntil == Some(calls[j].now + if k == 0 then 30 else if k == 1 then 60 else 300))
    decreases j
  {
    ClosedIsFresh(calls[..i]);
    if i < j {
      KthOpening(calls, i, j - 1);
      AtNext(calls, j - 1);
    }
  }

  /** An attempt that was not the probe and fails while the breaker is open
      changes neither its level nor its window nor the probe in flight. */
  lemma LateFailureOnlyCounted(b: Breaker, now: int)
    requires b.open
    ensures var n := Next(b, Call(now, Unanswered(false)));
      n.level == b.level && n.open && n.openUntil == b.openUntil && n.probeBy == b.probeBy && n.fails == b.fails + 1
  {
  }

  /** What makes room for another probe: the verdict on the one in flight. */
  predicate Settles(c: Call) {
    c.act == Answered || c.act == Release || c.act == Unanswered(true)
  }

  lemma {:induction false} ProbeKept(calls: seq<Call>, i: nat, j: nat)
    requires i < j <= |calls| && AdmitsProbe(At(calls, i), calls[i]) && Monotone(calls)
    requires forall k :: i < k < j ==> !Settles(calls[k]) && calls[k].now < calls[i].now + calls[i].act.budget
    ensures At(calls, j).open && At(calls, j).probeBy == Some(calls[i].now + calls[i].act.budget)
    decreases j
  {
    AtNext(calls, j - 1);
    if i + 1 < j {
      ProbeKept(calls, i, j - 1);
    }
  }

  /** One probe at a time: between two that are admitted the first was answered,
      failed or given up, or its budget ran out. */
  lemma OneProbeAtATime(calls: seq<Call>, i: nat, j: nat)
    requires Monotone(calls) && i < j < |calls|
    requires AdmitsProbe(At(calls, i), calls[i]) && AdmitsProbe(At(calls, j), calls[j])
    ensures (exists k :: i < k < j && Settles(calls[k])) || calls[i].now + calls[i].act.budget <= calls[j].now
  {
    if (forall k :: i < k < j ==> !Settles(calls[k])) && calls[j].now < calls[i].now + calls[i].act.budget {
      ProbeKept(calls, i, j);
    }
  }

  /** The REGISTERs that drew no response since the last one that did. */
  function Silences(calls: seq<Call>): nat {
    if calls == [] then 0
    else
      match calls[|calls| - 1].act
      case Answered => 0
      case Unanswered(_) => Silences(calls[..|calls| - 1]) + 1
      case _ => Silences(calls[..|calls| - 1])
  }

  /** Over every run a breaker is open exactly from the third silence on, until a
      response comes. */
  lemma {:induction false} OpenIff(calls: seq<Call>)
    ensures Run(NEW, calls).open <==> Silences(calls) >= 3
    ensures Run(NEW, calls).fails == Silences(calls)
    decreases |calls|
  {
    if calls != [] {
      OpenIff(calls[..|calls| - 1]);
    }
  }

  /** A closed breaker lets every REGISTER through; an open one, once its window has
      passed, a probe, and then none until the probe's time is up or it was settled. */
  lemma AdmitsIff(b: Breaker, now: int, budget: int)
    ensures var (after, allow, probe) := AllowIn(b, now, budget);
      && (allow <==> !b.open || ((b.openUntil.None? || b.openUntil.value <= now) && (b.probeBy.None? || b.probeBy.value <= now)))
      && (probe <==> allow && b.open)
      && after == if probe then b.(probeBy := Some(now + budget)) else b
  {
  }

  /** A probe given up without a verdict makes room for the next at once. */
  lemma ReleaseFrees(b: Breaker, now: int, budget: int)
    requires b.open && b.openUntil.Some? && b.openUntil.value <= now
    ensures AllowIn(ReleaseIn(b), now, budget).2
  {
  }

  /** When the last warning came, over a run. */
  function LastWarning(calls: seq<Call>): Option<int> {
    if calls == [] then None
    else if WarnedBy(calls[..|calls| - 1], calls[|calls| - 1]) then Some(calls[|calls| - 1].now)
    else LastWarning(calls[..|calls| - 1])
  }

  predicate WarnedBy(before: seq<Call>, c: Call) {
    c.act.Unanswered? && UnansweredIn(Run(NEW, before), c.now, c.act.probe).1
  }

  /** Over every run a silence is warned of exactly when it opens the breaker or no
      warning came in the last 30 seconds: it opens it as the third, or as a failed
      probe. */
  lemma {:induction false} WarnedIff(calls: seq<Call>, c: Call)
    requires c.act.Unanswered?
    ensures WarnedBy(calls, c) <==>
      || (Silences(calls) >= 3 && c.act.probe) || Silences(calls) == 2
      || LastWarning(calls).None? || c.now - LastWarning(calls).value >= 30
    decreases |calls|
  {
    OpenIff(calls);
    ClosedIsFresh(calls);
    LastWarningKept(calls);
  }

  lemma {:induction false} LastWarningKept(calls: seq<Call>)
    ensures Run(NEW, calls).lastWarn == LastWarning(calls)
    decreases |calls|
  {
    if calls != [] {
      LastWarningKept(calls[..|calls| - 1]);
    }
  }
}
