/**
 How a failover series ends, case by case (internal/edge/invite.go,
 invite_leg.go): after any number of nodes passed over, what the next one's
 responses come to for the caller, said of the responses themselves.
 */
module SeriesOutcomes {
  import opened Failover
  import opened Options
  import opened Sequences

  /** Nobody has given up. */
  predicate Going(v: View) {
    v.ctx == Running && !v.cancelled
  }

  /** The node's INVITE can be made out and the call still takes it. */
  predicate Ready(t: Try) {
    t.before.ctx == Running && t.forwarded && t.tracked
  }

  /** The node was passed over: its INVITE could not be sent, or it sent nothing but
      100s and its transaction failed below SIP. */
  predicate PassedOver(t: Try) {
    && Ready(t)
    && if !t.sent then t.after.ctx == Running
       else (forall a <- t.arrivals :: a.res.code == 100) && !t.end.callerGone && t.transportError && t.later.ctx == Running
  }

  /** A response that decides nothing: a relayed provisional, or one that is
      dropped. */
  predicate Passing(h: Heard) {
    Going(h.seen) && (h.relay == Dropped || (h.relay == Relayed && h.code < 200))
  }

  predicate ReplaysPass(a: Arrival) {
    a.res.code >= 200 ==> forall h <- a.replays :: Passing(h)
  }

  predicate PassingArrival(a: Arrival) {
    a.res.code == 100 || (ReplaysPass(a) && Passing(a.res))
  }

  /** The caller is told that nobody could be reached: not at all when its own CANCEL
      finalised it, else that time ran out, that the call was given up, or that no
      node answered. */
  predicate ToldInVain(finals: seq<nat>, last: View) {
    if last.callerGone then finals == []
    else if last.ctx == DeadlineExceeded then finals == [408]
    else if last.ctx == Cancelled || last.cancelled then finals == [487]
    else finals == [503]
  }

  // ---- Up to the node that matters -------------------------------------------------------

  lemma {:induction false} NothingHeard(arrivals: seq<Arrival>)
    requires forall a <- arrivals :: a.res.code == 100
    ensures Flat(arrivals) == []
    decreases |arrivals|
  {
    if arrivals != [] {
      assert arrivals[|arrivals| - 1] in arrivals;
      NothingHeard(arrivals[..|arrivals| - 1]);
    }
  }

  lemma PassedMoves(t: Try)
    requires PassedOver(t)
    ensures After(t) == NextNode
  {
    if t.sent {
      NothingHeard(t.arrivals);
    }
  }

  /** After the first i nodes were passed over the series is that of the others. */
  lemma {:induction false} AfterPassed(order: seq<string>, script: seq<Try>, last: View, i: nat)
    requires i <= |order| == |script| && forall t <- script[..i] :: PassedOver(t)
    ensures Series(order, script, last) == Ahead(order[..i], Series(order[i..], script[i..], last))
    decreases i
  {
    hide Series, PassedOver, After;
    if i == 0 {
      assert order[0..] == order && script[0..] == script && order[..0] == [];
      NothingAhead(Series(order, script, last));
    } else {
      var t := script[0];
      TailAt(script, i);
      TailAt(order, i);
      PassedMoves(t);
      PassedReady(t);
      SeriesStep(order, script, 0, last, []);
      assert order[0..] == order && script[0..] == script && [] + [order[0]] == [order[0]];
      NothingAhead(Series(order, script, last));
      AfterPassed(order[1..], script[1..], last, i - 1);
      AheadTwice([order[0]], order[1..][..i - 1], Series(order[i..], script[i..], last));
    }
  }

  lemma PassedReady(t: Try)
    requires PassedOver(t)
    ensures Ready(t)
  {
  }

  lemma AheadTwice(a: seq<string>, b: seq<string>, log: Log)
    ensures Ahead(a, Ahead(b, log)) == Ahead(a + b, log)
  {
    assert a + (b + log.dialed) == a + b + log.dialed && a + (b + log.cooled) == a + b + log.cooled;
  }

  // ---- What a node's responses come to ---------------------------------------------------------

  lemma {:induction false} FlatConcat(a: seq<Arrival>, b: seq<Arrival>)
    ensures Flat(a + b) == Flat(a) + Flat(b)
    decreases |b|
  {
    if b == [] {
      assert a + b == a;
    } else {
      var last := b[|b| - 1];
      assert (a + b)[..|a + b| - 1] == a + b[..|b| - 1];
      FlatConcat(a, b[..|b| - 1]);
    }
  }

  lemma FlatOne(a: Arrival)
    ensures Flat([a]) ==
      if a.res.code == 100 then [] else if a.res.code >= 200 then a.replays + [a.res] else [a.res]
  {
    assert [a][..0] == [];
    assert [] + [a.res] == [a.res];
  }

  /** What passes leaves the judgement to what follows. */
  lemma {:induction false} JudgePast(hs: seq<Heard>, more: seq<Heard>, responded: bool, end: View)
    requires forall h <- hs :: Passing(h)
    ensures Judge(hs + more, responded, end) == Judge(more, responded || hs != [], end)
    decreases |hs|
  {
    if hs == [] {
      assert hs + more == more;
    } else {
      assert hs[0] in hs;
      assert (hs + more)[0] == hs[0] && (hs + more)[1..] == hs[1..] + more;
      JudgePast(hs[1..], more, true, end);
    }
  }

  lemma {:induction false} PassingFlat(arrivals: seq<Arrival>)
    requires forall a <- arrivals :: PassingArrival(a)
    ensures forall h <- Flat(arrivals) :: Passing(h)
    ensures Flat(arrivals) == [] <==> forall a <- arrivals :: a.res.code == 100
    decreases |arrivals|
  {
    if arrivals != [] {
      assert arrivals[|arrivals| - 1] in arrivals;
      PassingFlat(arrivals[..|arrivals| - 1]);
      assert arrivals == arrivals[..|arrivals| - 1] + [arrivals[|arrivals| - 1]];
    }
  }

  /** The response that comes with arrival n, or replay k before it. */
  function HeardAt(arrivals: seq<Arrival>, n: nat, k: Option<nat>): Heard
    requires n < |arrivals| && (k.Some? ==> k.value < |arrivals[n].replays|)
  {
    if k.Some? then arrivals[n].replays[k.value] else arrivals[n].res
  }

  /** That response is come to: all before it pass. Replays come before a final. */
  ghost predicate Reached(arrivals: seq<Arrival>, n: nat, k: Option<nat>) {
    && n < |arrivals| && (forall a <- arrivals[..n] :: PassingArrival(a)) && arrivals[n].res.code != 100
    && match k
       case None => ReplaysPass(arrivals[n])
       case Some(j) =>
         arrivals[n].res.code >= 200 && j < |arrivals[n].replays| && forall h <- arrivals[n].replays[..j] :: Passing(h)
  }

  /** The judgement starts at the response come to. */
  lemma PumpAt(t: Try, n: nat, k: Option<nat>) returns (responded: bool, rest: seq<Heard>)
    requires Reached(t.arrivals, n, k)
    ensures Pump(t) == Judge([HeardAt(t.arrivals, n, k)] + rest, responded, t.end)
  {
    hide Judge, Flat, Passing;
    var ahead;
    ahead, rest := FlatAt(t.arrivals, n, k);
    JudgePast(ahead, [HeardAt(t.arrivals, n, k)] + rest, false, t.end);
    responded := ahead != [];
  }

  lemma FlatAt(arrivals: seq<Arrival>, n: nat, k: Option<nat>) returns (ahead: seq<Heard>, rest: seq<Heard>)
    requires Reached(arrivals, n, k)
    ensures Flat(arrivals) == ahead + ([HeardAt(arrivals, n, k)] + rest) && forall h <- ahead :: Passing(h)
  {
    hide Flat, Passing, PassingArrival;
    var a := arrivals[n];
    var first, later := Flat(arrivals[..n]), Flat(arrivals[n + 1..]);
    PassingFlat(arrivals[..n]);
    FlatParts(arrivals, n);
    match k {
      case None =>
        OwnPass(a);
        ahead, rest := first + Own(a), later;
        Assoc(first + Own(a), [a.res], later);
        Assoc(first, Own(a), [a.res]);
      case Some(j) =>
        assert Own(a) == a.replays;
        ahead, rest := first + a.replays[..j], a.replays[j + 1..] + [a.res] + later;
        Regrouped(first, a.replays, j, [a.res], later);
    }
  }

  lemma FlatParts(arrivals: seq<Arrival>, n: nat)
    requires n < |arrivals| && arrivals[n].res.code != 100
    ensures Flat(arrivals) == Flat(arrivals[..n]) + (Own(arrivals[n]) + [arrivals[n].res]) + Flat(arrivals[n + 1..])
  {
    hide Flat, Own;
    var before, a, after := arrivals[..n], arrivals[n], arrivals[n + 1..];
    SplitAt(arrivals, n);
    FlatConcat(before + [a], after);
    FlatConcat(before, [a]);
    FlatOwn(a);
  }

  function Own(a: Arrival): seq<Heard> {
    if a.res.code >= 200 then a.replays else []
  }

  lemma FlatOwn(a: Arrival)
    requires a.res.code != 100
    ensures Flat([a]) == Own(a) + [a.res]
  {
    hide Flat;
    FlatOne(a);
    assert [] + [a.res] == [a.res];
  }

  lemma SplitAt(arrivals: seq<Arrival>, n: nat)
    requires n < |arrivals|
    ensures arrivals == arrivals[..n] + [arrivals[n]] + arrivals[n + 1..]
  {
  }

  lemma OwnPass(a: Arrival)
    requires ReplaysPass(a)
    ensures forall h <- Own(a) :: Passing(h)
  {
  }

  lemma Regrouped(first: seq<Heard>, replays: seq<Heard>, j: nat, res: seq<Heard>, later: seq<Heard>)
    requires j < |replays|
    ensures first + (replays + res) + later ==
      first + replays[..j] + ([replays[j]] + (replays[j + 1..] + res + later))
  {
    assert replays == replays[..j] + ([replays[j]] + replays[j + 1..]);
  }

  lemma JudgeFirst(h: Heard, rest: seq<Heard>, responded: bool, end: View)
    ensures !Going(h.seen) ==> Judge([h] + rest, responded, end) == (Pumped(None, true, h.after.callerGone), [])
    ensures Going(h.seen) && h.relay == Relayed && h.code >= 200 ==>
      Judge([h] + rest, responded, end) == (Pumped(Some(h.code), true, true), [h.code])
    ensures Going(h.seen) && h.relay == Failed ==>
      Judge([h] + rest, responded, end) ==
        if h.after.cancelled then (Pumped(None, true, h.after.callerGone), []) else (Pumped(None, true, true), [488])
  {
    assert ([h] + rest)[0] == h;
  }

  /** The node at i, after those passed over. */
  lemma SeriesAt(order: seq<string>, script: seq<Try>, last: View, i: nat)
    requires i < |order| == |script| && (forall t <- script[..i] :: PassedOver(t)) && Ready(script[i])
    ensures var log := Series(order, script, last);
      match After(script[i])
      case Stop(finals) =>
        log == Log(order[..i + 1], finals, order[..i], if Pump(script[i]).0.final.Some? then [order[i]] else [])
      case Fallback => log == Log(order[..i + 1], GiveUp(last), order[..i], [])
      case NextNode => log == Ahead(order[..i + 1], Series(order[i + 1..], script[i + 1..], last))
  {
    hide Series, PassedOver, After, Pump, GiveUp;
    AfterPassed(order, script, last, i);
    SeriesStep(order, script, i, last, order[..i]);
    assert order[..i] + [order[i]] == order[..i + 1];
  }

  lemma GiveUpTells(last: View)
    ensures ToldInVain(GiveUp(last), last)
  {
  }

  // ---- The cases -------------------------------------------------------------------------------

  /** A final that is relayed is the caller's, the only one: no other node is dialed,
      and the node that sent it is taken out of cooldown. */
  lemma Answered(order: seq<string>, script: seq<Try>, last: View, i: nat, n: nat, k: Option<nat>)
    requires i < |order| == |script| && (forall t <- script[..i] :: PassedOver(t))
    requires Ready(script[i]) && script[i].sent && Reached(script[i].arrivals, n, k)
    requires var h := HeardAt(script[i].arrivals, n, k); h.code >= 200 && h.relay == Relayed && Going(h.seen)
    ensures Series(order, script, last) ==
      Log(order[..i + 1], [HeardAt(script[i].arrivals, n, k).code], order[..i], [order[i]])
  {
    hide Series, PassedOver, PassingArrival, ReplaysPass, Judge, Flat, GiveUp;
    SeriesAt(order, script, last, i);
    var responded, rest := PumpAt(script[i], n, k);
    JudgeFirst(HeardAt(script[i].arrivals, n, k), rest, responded, script[i].end);
  }

  /** A response whose media FreeSBC cannot relay ends the call with 488, unless it
      was given up meanwhile: then with what a call given up gets. */
  lemma MediaFailed(order: seq<string>, script: seq<Try>, last: View, i: nat, n: nat, k: Option<nat>)
    requires i < |order| == |script| && (forall t <- script[..i] :: PassedOver(t))
    requires Ready(script[i]) && script[i].sent && Reached(script[i].arrivals, n, k)
    requires var h := HeardAt(script[i].arrivals, n, k); h.relay == Failed && Going(h.seen)
    ensures var log, h := Series(order, script, last), HeardAt(script[i].arrivals, n, k);
      && log == Log(order[..i + 1], log.finals, order[..i], [])
      && if !h.after.cancelled then log.finals == [488]
         else if h.after.callerGone then log.finals == []
         else ToldInVain(log.finals, last)
  {
    hide Series, PassedOver, PassingArrival, ReplaysPass, Judge, Flat, GiveUp;
    SeriesAt(order, script, last, i);
    var responded, rest := PumpAt(script[i], n, k);
    JudgeFirst(HeardAt(script[i].arrivals, n, k), rest, responded, script[i].end);
    GiveUpTells(last);
  }

  /** A response that comes after the call was given up is not relayed, and no other
      node is dialed. */
  lemma TooLate(order: seq<string>, script: seq<Try>, last: View, i: nat, n: nat, k: Option<nat>)
    requires i < |order| == |script| && (forall t <- script[..i] :: PassedOver(t))
    requires Ready(script[i]) && script[i].sent && Reached(script[i].arrivals, n, k)
    requires !Going(HeardAt(script[i].arrivals, n, k).seen)
    ensures var log := Series(order, script, last);
      && log == Log(order[..i + 1], log.finals, order[..i], [])
      && if HeardAt(script[i].arrivals, n, k).after.callerGone then log.finals == [] else ToldInVain(log.finals, last)
  {
    hide Series, PassedOver, PassingArrival, ReplaysPass, Judge, Flat, GiveUp;
    SeriesAt(order, script, last, i);
    var responded, rest := PumpAt(script[i], n, k);
    JudgeFirst(HeardAt(script[i].arrivals, n, k), rest, responded, script[i].end);
    GiveUpTells(last);
  }

  /** A node that sent no final: the series ends there if it sent anything beyond
      100, if its transaction ended otherwise than below SIP, or if time is up. */
  lemma Unanswered(order: seq<string>, script: seq<Try>, last: View, i: nat)
    requires i < |order| == |script| && (forall t <- script[..i] :: PassedOver(t))
    requires Ready(script[i]) && script[i].sent && forall a <- script[i].arrivals :: PassingArrival(a)
    requires !PassedOver(script[i])
    ensures var log := Series(order, script, last);
      && log == Log(order[..i + 1], log.finals, order[..i], [])
      && if script[i].end.callerGone then log.finals == [] else ToldInVain(log.finals, last)
  {
    hide Series, PassingArrival, Judge, Flat, GiveUp;
    SeriesAt(order, script, last, i);
    NoFinal(script[i]);
    GiveUpTells(last);
  }

  lemma NoFinal(t: Try)
    requires forall a <- t.arrivals :: PassingArrival(a)
    ensures Pump(t) == (Pumped(None, Pump(t).0.responded, t.end.callerGone), [])
    ensures Pump(t).0.responded <==> exists a <- t.arrivals :: a.res.code != 100
  {
    hide Flat, Passing;
    PassingFlat(t.arrivals);
    JudgePast(Flat(t.arrivals), [], false, t.end);
    assert Flat(t.arrivals) + [] == Flat(t.arrivals);
  }

  /** The INVITE could not be sent and time is up, or nothing is left to send it to,
      or the call no longer takes an attempt. */
  lemma NotDialed(order: seq<string>, script: seq<Try>, last: View, i: nat)
    requires i < |order| == |script| && (forall t <- script[..i] :: PassedOver(t))
    requires !Ready(script[i]) || (!script[i].sent && script[i].after.ctx != Running)
    ensures var t, log := script[i], Series(order, script, last);
      && log == Log(if Ready(t) then order[..i + 1] else order[..i], log.finals, order[..i], [])
      && if t.before.ctx == Running && !t.forwarded then log.finals == [483] else ToldInVain(log.finals, last)
  {
    hide Series, PassedOver, GiveUp;
    AfterPassed(order, script, last, i);
    SeriesStep(order, script, i, last, order[..i]);
    assert order[..i] + [order[i]] == order[..i + 1];
    GiveUpTells(last);
  }

  /** Every node was passed over. */
  lemma NobodyReached(order: seq<string>, script: seq<Try>, last: View)
    requires |order| == |script| && forall t <- script :: PassedOver(t)
    ensures var log := Series(order, script, last);
      log == Log(order, log.finals, order, []) && ToldInVain(log.finals, last)
  {
    hide Series, PassedOver, GiveUp;
    assert script[..|order|] == script && order[..|order|] == order;
    AfterPassed(order, script, last, |order|);
    assert order[|order|..] == [] && script[|order|..] == [];
    SeriesEnd(last);
    GiveUpTells(last);
    assert order + [] == order;
  }
}
