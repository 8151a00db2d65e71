/**
 The failover series of a call to the switches (internal/edge/invite.go,
 invite_leg.go) and the order nodes are dialed in (internal/edge/topology.go).

 What the network and the other goroutines do is a script: what each attempt
 meets, and what the series reads of its context and of the call's record at
 each point where it looks. A script may read anything anywhere, so the
 theorems hold whatever the cancellers do and whenever they do it.
 */
module Failover {
  import Index
  import opened Options

  // ---- Dial order -----------------------------------------------------------------

  /** The names in s with the availability wanted, in the order of s. */
  function Filter(s: seq<string>, ok: string -> bool, want: bool): seq<string> {
    if s == [] then [] else Filter(s[..|s| - 1], ok, want) + if ok(s[|s| - 1]) == want then [s[|s| - 1]] else []
  }

  /** orderByAvailability: the available names, then the cooling ones; all of
      them as available when every one is cooling. */
  method OrderByAvailability(names: seq<string>, available: string -> bool) returns (pool: seq<string>, cooled: seq<string>)
    ensures pool == Pool(names, available)
    ensures cooled == if Filter(names, available, true) == [] then [] else Filter(names, available, false)
  {
    pool, cooled := [], [];
    for i := 0 to |names|
      invariant pool == Filter(names[..i], available, true) && cooled == Filter(names[..i], available, false)
    {
      assert names[..i + 1][..i] == names[..i];
      if available(names[i]) {
        pool := pool + [names[i]];
      } else {
        cooled := cooled + [names[i]];
      }
    }
    assert names[..|names|] == names;
    if |pool| == 0 {
      return names, [];
    }
  }

  lemma {:induction false} Filtered(s: seq<string>, ok: string -> bool)
    ensures multiset(Filter(s, ok, true)) + multiset(Filter(s, ok, false)) == multiset(s)
    ensures forall x <- Filter(s, ok, true) :: ok(x)
    ensures forall x <- Filter(s, ok, false) :: !ok(x)
    decreases |s|
  {
    hide Filter;
    if s == [] {
      NothingFiltered(ok);
    } else {
      var init, x := s[..|s| - 1], s[|s| - 1];
      Filtered(init, ok);
      FilteredLast(init, x, ok);
      assert init + [x] == s;
      assert multiset(init + [x]) == multiset(init) + multiset{x};
    }
  }

  lemma NothingFiltered(ok: string -> bool)
    ensures Filter([], ok, true) == [] && Filter([], ok, false) == []
  {
  }

  lemma FilteredLast(init: seq<string>, x: string, ok: string -> bool)
    ensures Filter(init + [x], ok, true) == Filter(init, ok, true) + if ok(x) then [x] else []
    ensures Filter(init + [x], ok, false) == Filter(init, ok, false) + if ok(x) then [] else [x]
    ensures multiset(Filter(init + [x], ok, true)) + multiset(Filter(init + [x], ok, false)) ==
      multiset(Filter(init, ok, true)) + multiset(Filter(init, ok, false)) + multiset{x}
  {
    assert (init + [x])[..|init|] == init;
    var yes, no := Filter(init, ok, true), Filter(init, ok, false);
    if ok(x) {
      assert multiset(yes + [x]) == multiset(yes) + multiset{x} && no + [] == no;
    } else {
      assert multiset(no + [x]) == multiset(no) + multiset{x} && yes + [] == yes;
    }
  }

  /** The nodes the hash picks from. */
  function Pool(names: seq<string>, available: string -> bool): seq<string> {
    if Filter(names, available, true) == [] then names else Filter(names, available, true)
  }

  function Rotated(pool: seq<string>, at: nat): (r: seq<string>)
    requires at <= |pool|
    ensures |r| == |pool|
  {
    pool[at..] + pool[..at]
  }

  /** upstreamDialOrder, for a user with this hash: every node once, none that
      is cooling before one that is available, and the node the hash picks among
      the available ones (among all when none is) first. */
  method UpstreamDialOrder(names: seq<string>, hash: nat, available: string -> bool) returns (order: seq<string>)
    ensures multiset(order) == multiset(names)
    ensures AvailableFirst(order, available)
    ensures names != [] ==>
      var pool := Pool(names, available);
      && 0 < |pool| <= |order| && (forall k :: 0 <= k < |pool| ==> order[k] == pool[Turn(hash % |pool|, k, |pool|)])
      && order[|pool|..] == if Filter(names, available, true) == [] then [] else Filter(names, available, false)
  {
    hide Filter, Pool, AvailableFirst, Turn;
    if |names| == 0 {
      NothingOrdered(available);
      return [];
    }
    var pool, cooled := OrderByAvailability(names, available);
    PoolSplit(names, available);
    var idx := hash % |pool|;
    order := pool[idx..] + pool[..idx] + cooled;
    OrderFacts(names, available, pool, cooled, idx);
    OrderAt(pool, cooled, idx);
  }

  lemma NothingOrdered(available: string -> bool)
    ensures AvailableFirst([], available)
  {
  }

  lemma OrderAt(pool: seq<string>, cooled: seq<string>, idx: nat)
    requires idx < |pool|
    ensures var order := pool[idx..] + pool[..idx] + cooled;
      && |order| == |pool| + |cooled| && order[|pool|..] == cooled
      && forall k :: 0 <= k < |pool| ==> order[k] == pool[Turn(idx, k, |pool|)]
  {
  }

  /** The place k after idx in a ring of n. */
  function Turn(idx: nat, k: nat, n: nat): (r: nat)
    requires idx < n && k < n
    ensures r < n
  {
    if idx + k < n then idx + k else idx + k - n
  }

  ghost predicate AvailableFirst(order: seq<string>, available: string -> bool) {
    forall i, j :: 0 <= i < j < |order| && available(order[j]) ==> available(order[i])
  }

  lemma PoolSplit(names: seq<string>, available: string -> bool)
    requires names != []
    ensures var pool, cooled := Pool(names, available), Filter(names, available, false);
      && pool != []
      && (Filter(names, available, true) == [] ==> forall x <- pool :: !available(x))
      && (Filter(names, available, true) != [] ==>
        multiset(pool) + multiset(cooled) == multiset(names) && (forall x <- pool :: available(x)) &&
        forall x <- cooled :: !available(x))
  {
    Filtered(names, available);
    if Filter(names, available, true) == [] {
      forall x <- names ensures !available(x) {
        assert x in multiset(names);
        assert x in multiset(Filter(names, available, false));
      }
    }
  }

  lemma RotatedSame(pool: seq<string>, at: nat)
    requires at <= |pool|
    ensures multiset(Rotated(pool, at)) == multiset(pool)
    ensures forall x :: x in Rotated(pool, at) <==> x in pool
  {
    assert pool == pool[..at] + pool[at..];
  }

  lemma OrderFacts(names: seq<string>, available: string -> bool, pool: seq<string>, cooled: seq<string>, idx: nat)
    requires names != [] && pool == Pool(names, available) && idx < |pool|
    requires cooled == if Filter(names, available, true) == [] then [] else Filter(names, available, false)
    ensures var order := pool[idx..] + pool[..idx] + cooled;
      multiset(order) == multiset(names) && AvailableFirst(order, available) && pool[idx..] <= order
  {
    hide Filter;
    var head := Rotated(pool, idx);
    var order := head + cooled;
    assert order == pool[idx..] + pool[..idx] + cooled;
    RotatedSame(pool, idx);
    PoolSplit(names, available);
    assert multiset(order) == multiset(head) + multiset(cooled);
    forall i, j | 0 <= i < j < |order| && available(order[j]) ensures available(order[i]) {
      assert order[j] in if j < |head| then head else cooled;
      assert order[i] in if i < |head| then head else cooled;
    }
  }

  // ---- One attempt ------------------------------------------------------------------

  datatype Ctx = Running | DeadlineExceeded | Cancelled

  /** What is read at one point: the series context, whether the call was given
      up on, and whether the caller's own CANCEL did it. */
  datatype View = View(ctx: Ctx, cancelled: bool, callerGone: bool)

  datatype Relay = Relayed | Dropped | Failed

  /** A response, what is read before it is relayed, how relaying it goes, and
      what is read after. */
  datatype Heard = Heard(code: nat, seen: View, relay: Relay, after: View)

  /** A response from the channel and the provisionals replayed before it if it
      is final. */
  datatype Arrival = Arrival(res: Heard, replays: seq<Heard>)

  datatype Pumped = Pumped(final: Option<nat>, responded: bool, finalised: bool)

  predicate Forwardable(h: Heard) {
    h.code != 100
  }

  /** One response: how the pump ends with it, if it does, and the finals the
      caller is sent. */
  function Step(h: Heard): (Option<Pumped>, seq<nat>) {
    if h.seen.ctx != Running || h.seen.cancelled then (Some(Pumped(None, true, h.after.callerGone)), [])
    else
      match h.relay
      case Dropped => (None, [])
      case Failed =>
        if h.after.cancelled then (Some(Pumped(None, true, h.after.callerGone)), [])
        else (Some(Pumped(None, true, true)), [488])
      case Relayed => if h.code >= 200 then (Some(Pumped(Some(h.code), true, true)), [h.code]) else (None, [])
  }

  /** The responses to relay, in order: replayed provisionals go before the final
      they precede, a 100 goes nowhere. */
  function Flat(arrivals: seq<Arrival>): seq<Heard> {
    if arrivals == [] then []
    else
      var a := arrivals[|arrivals| - 1];
      Flat(arrivals[..|arrivals| - 1]) +
        (if !Forwardable(a.res) then [] else (if a.res.code >= 200 then a.replays else []) + [a.res])
  }

  /** The outcome of responses hs when the wait ends with this view: the first
      one that decides, decides. */
  function Judge(hs: seq<Heard>, responded: bool, end: View): (Pumped, seq<nat>) {
    if hs == [] then (Pumped(None, responded, end.callerGone), [])
    else
      var (done, finals) := Step(hs[0]);
      if done.Some? then (done.value, finals) else Judge(hs[1..], true, end)
  }

  predicate Undecided(hs: seq<Heard>) {
    forall h <- hs :: Step(h).0.None?
  }

  lemma {:induction false} JudgeAfter(hs: seq<Heard>, more: seq<Heard>, responded: bool, end: View)
    requires Undecided(hs)
    ensures Judge(hs + more, responded, end) == Judge(more, responded || hs != [], end)
    decreases |hs|
  {
    if hs == [] {
      assert hs + more == more;
    } else {
      assert (hs + more)[1..] == hs[1..] + more;
      JudgeAfter(hs[1..], more, true, end);
    }
  }

  lemma JudgeAt(hs: seq<Heard>, h: Heard, rest: seq<Heard>, end: View)
    requires Undecided(hs) && Step(h).0.Some?
    ensures Judge(hs + [h] + rest, false, end) == (Step(h).0.value, Step(h).1)
  {
    assert hs + [h] + rest == hs + ([h] + rest);
    JudgeAfter(hs, [h] + rest, false, end);
  }

  lemma {:induction false} FlatSplit(arrivals: seq<Arrival>, i: nat)
    requires i <= |arrivals|
    ensures Flat(arrivals[..i]) <= Flat(arrivals)
    decreases |arrivals|
  {
    if i < |arrivals| {
      var init := arrivals[..|arrivals| - 1];
      FlatSplit(init, i);
      assert init[..i] == arrivals[..i];
    } else {
      assert arrivals[..i] == arrivals;
    }
  }

  /** The provisionals replayed before a final. */
  method Replay(replays: seq<Heard>, ghost heard: seq<Heard>, ghost rest: seq<Heard>, ghost end: View)
    returns (done: Option<Pumped>, sent: seq<nat>)
    requires Undecided(heard)
    ensures done.Some? ==> (done.value, sent) == Judge(heard + replays + rest, false, end)
    ensures done.None? ==> Undecided(heard + replays)
  {
    assert heard + replays[..0] == heard;
    for k := 0 to |replays|
      invariant Undecided(heard + replays[..k])
    {
      done, sent := Step(replays[k]).0, Step(replays[k]).1;
      assert heard + replays[..k + 1] == heard + replays[..k] + [replays[k]];
      if done.Some? {
        assert heard + replays + rest == heard + replays[..k] + [replays[k]] + (replays[k + 1..] + rest);
        JudgeAt(heard + replays[..k], replays[k], replays[k + 1..] + rest, end);
        return;
      }
    }
    assert replays[..|replays|] == replays;
    return None, [];
  }

  lemma Beginning(arrivals: seq<Arrival>, responded: bool, end: View)
    ensures Flat(arrivals[..0]) == [] && Undecided([])
    ensures Judge([], responded, end) == (Pumped(None, responded, end.callerGone), [])
  {
  }

  /** pumpInvite: relays what arrives until something decides, or the wait ends
      (the transaction's, or the series context's). */
  method PumpInvite(arrivals: seq<Arrival>, end: View) returns (r: Pumped, sent: seq<nat>)
    ensures (r, sent) == Judge(Flat(arrivals), false, end)
  {
    hide Judge, Undecided, Flat, Step;
    var responded := false;
    Beginning(arrivals, responded, end);
    ghost var heard: seq<Heard> := [];
    sent := [];
    for i := 0 to |arrivals|
      invariant heard == Flat(arrivals[..i]) && Undecided(heard) && responded == (heard != []) && sent == []
    {
      var a := arrivals[i];
      if !Forwardable(a.res) {
        FlatSkip(arrivals, i);
        continue;
      }
      ghost var before, rest := FlatStep(arrivals, i);
      assert Flat(arrivals) == heard + before + ([a.res] + rest);
      if a.res.code >= 200 {
        var done, finals := Replay(a.replays, heard, [a.res] + rest, end);
        if done.Some? {
          return done.value, finals;
        }
      }
      assert heard + [] == heard;
      responded := true;
      var (done, finals) := Step(a.res);
      if done.Some? {
        assert Flat(arrivals) == heard + before + [a.res] + rest;
        JudgeAt(heard + before, a.res, rest, end);
        return done.value, finals;
      }
      UndecidedSnoc(heard + before, a.res);
      heard := heard + before + [a.res];
    }
    assert arrivals[..|arrivals|] == arrivals;
    JudgeAfter(heard, [], false, end);
    Beginning(arrivals, responded, end);
    assert heard + [] == heard;
    return Pumped(None, responded, end.callerGone), [];
  }

  lemma UndecidedSnoc(hs: seq<Heard>, h: Heard)
    requires Undecided(hs) && Step(h).0.None?
    ensures Undecided(hs + [h])
  {
  }

  lemma FlatSkip(arrivals: seq<Arrival>, i: nat)
    requires i < |arrivals| && !Forwardable(arrivals[i].res)
    ensures Flat(arrivals[..i + 1]) == Flat(arrivals[..i])
  {
    assert arrivals[..i + 1][..i] == arrivals[..i];
  }

  lemma FlatStep(arrivals: seq<Arrival>, i: nat) returns (before: seq<Heard>, rest: seq<Heard>)
    requires i < |arrivals| && Forwardable(arrivals[i].res)
    ensures before == if arrivals[i].res.code >= 200 then arrivals[i].replays else []
    ensures Flat(arrivals[..i + 1]) == Flat(arrivals[..i]) + before + [arrivals[i].res]
    ensures Flat(arrivals) == Flat(arrivals[..i]) + before + ([arrivals[i].res] + rest)
  {
    var h := arrivals[i].res;
    before := if h.code >= 200 then arrivals[i].replays else [];
    assert arrivals[..i + 1][..i] == arrivals[..i];
    assert Flat(arrivals[..i + 1]) == Flat(arrivals[..i]) + (before + [h]);
    FlatSplit(arrivals, i + 1);
    rest := Flat(arrivals)[|Flat(arrivals[..i + 1])|..];
  }

  // ---- The series ----------------------------------------------------------------------

  /** What one attempt of the series meets: the context before it, whether the
      request can be forwarded, whether the call's record still takes an attempt,
      whether the INVITE gets out, what the far side answers, and whether the
      transaction failed at the transport. */
  datatype Try = Try(
    before: View, forwarded: bool, tracked: bool, sent: bool, after: View, arrivals: seq<Arrival>, end: View,
    transportError: bool, later: View)

  /** dialed are the nodes an INVITE was made out to, finals what the caller was
      sent, cooled the nodes penalised and recovered those taken out of it. */
  datatype Log = Log(dialed: seq<string>, finals: seq<nat>, cooled: seq<string>, recovered: seq<string>)

  /** giveUp. */
  function GiveUp(last: View): seq<nat> {
    if last.callerGone then []
    else if last.ctx == DeadlineExceeded then [408]
    else if last.ctx == Cancelled || last.cancelled then [487]
    else [503]
  }

  function Pump(t: Try): (Pumped, seq<nat>) {
    Judge(Flat(t.arrivals), false, t.end)
  }

  datatype Move = Stop(finals: seq<nat>) | NextNode | Fallback

  /** What attempt t leads to: the end of the series with these finals, the next
      node, or giving up. */
  function After(t: Try): Move {
    if !t.sent then if t.after.ctx != Running then Fallback else NextNode
    else
      var (r, finals) := Pump(t);
      if r.final.Some? || r.finalised then Stop(finals)
      else if r.responded || !t.transportError || t.later.ctx != Running then Fallback
      else NextNode
  }

  function Series(order: seq<string>, script: seq<Try>, last: View): Log
    requires |script| == |order|
  {
    if order == [] || script[0].before.ctx != Running then Log([], GiveUp(last), [], [])
    else if !script[0].forwarded then Log([], [483], [], [])
    else if !script[0].tracked then Log([], GiveUp(last), [], [])
    else
      match After(script[0])
      case Stop(finals) =>
        Log([order[0]], finals, [], if Pump(script[0]).0.final.Some? then [order[0]] else [])
      case Fallback => Log([order[0]], GiveUp(last), [], [])
      case NextNode =>
        var rest := Series(order[1..], script[1..], last);
        Log([order[0]] + rest.dialed, rest.finals, [order[0]] + rest.cooled, rest.recovered)
  }

  function Ahead(dialed: seq<string>, rest: Log): Log {
    Log(dialed + rest.dialed, rest.finals, dialed + rest.cooled, rest.recovered)
  }

  /** The attempt loop of inviteToUpstream. */
  method InviteSeries(order: seq<string>, script: seq<Try>, last: View) returns (log: Log)
    requires |script| == |order|
    ensures log == Series(order, script, last)
  {
    hide Series, After, Pump, Judge, Flat, GiveUp;
    var dialed: seq<string> := [];
    assert order[0..] == order && script[0..] == script;
    NothingAhead(Series(order, script, last));
    for i := 0 to |order|
      invariant Series(order, script, last) == Ahead(dialed, Series(order[i..], script[i..], last))
    {
      var t, name := script[i], order[i];
      SeriesStep(order, script, i, last, dialed);
      if t.before.ctx != Running {
        return Log(dialed, GiveUp(last), dialed, []);
      }
      if !t.forwarded {
        return Log(dialed, [483], dialed, []);
      }
      if !t.tracked {
        return Log(dialed, GiveUp(last), dialed, []);
      }
      var move, answered := Attempt(t);
      match move
      case Stop(finals) =>
        return Log(dialed + [name], finals, dialed, if answered then [name] else []);
      case Fallback =>
        return Log(dialed + [name], GiveUp(last), dialed, []);
      case NextNode =>
        dialed := dialed + [name];
    }
    SeriesEnd(last);
    assert order[|order|..] == [] && script[|order|..] == [];
    return Log(dialed, GiveUp(last), dialed, []);
  }

  /** One attempt: whether it ends the series, and with the far side's final. */
  method Attempt(t: Try) returns (move: Move, answered: bool)
    ensures move == After(t) && (move.Stop? ==> answered == Pump(t).0.final.Some?)
  {
    hide Judge, Flat;
    if !t.sent {
      return if t.after.ctx != Running then Fallback else NextNode, false;
    }
    var r, finals := PumpInvite(t.arrivals, t.end);
    if r.final.Some? || r.finalised {
      return Stop(finals), r.final.Some?;
    }
    if r.responded || !t.transportError || t.later.ctx != Running {
      return Fallback, false;
    }
    return NextNode, false;
  }

  lemma SeriesEnd(last: View)
    ensures Series([], [], last) == Log([], GiveUp(last), [], [])
  {
  }

  /** The series from node i on, after those dialed. */
  lemma SeriesStep(order: seq<string>, script: seq<Try>, i: nat, last: View, dialed: seq<string>)
    requires i < |order| == |script|
    ensures var t, name, s := script[i], order[i], Ahead(dialed, Series(order[i..], script[i..], last));
      if t.before.ctx != Running || (t.forwarded && !t.tracked) then s == Log(dialed, GiveUp(last), dialed, [])
      else if !t.forwarded then s == Log(dialed, [483], dialed, [])
      else
        match After(t)
        case Stop(finals) =>
          s == Log(dialed + [name], finals, dialed, if Pump(t).0.final.Some? then [name] else [])
        case Fallback => s == Log(dialed + [name], GiveUp(last), dialed, [])
        case NextNode => s == Ahead(dialed + [name], Series(order[i + 1..], script[i + 1..], last))
  {
    hide After, Pump, GiveUp;
    assert order[i..][1..] == order[i + 1..] && script[i..][1..] == script[i + 1..];
    assert dialed + [] == dialed;
    AheadMore(dialed, order[i], Series(order[i + 1..], script[i + 1..], last));
  }

  lemma NothingAhead(log: Log)
    ensures Ahead([], log) == log
  {
    assert [] + log.dialed == log.dialed && [] + log.cooled == log.cooled;
  }

  lemma AheadMore(dialed: seq<string>, name: string, rest: Log)
    ensures Ahead(dialed, Ahead([name], rest)) == Ahead(dialed + [name], rest)
  {
    assert dialed + ([name] + rest.dialed) == dialed + [name] + rest.dialed;
    assert dialed + ([name] + rest.cooled) == dialed + [name] + rest.cooled;
  }

  // ---- What the series guarantees ---------------------------------------------------

  /** Somewhere the series read that the caller's own CANCEL ended the call: its
      transaction has had its final then. */
  predicate CallerSeenGone(script: seq<Try>, last: View) {
    last.callerGone || exists t <- script :: t.end.callerGone || exists h <- Flat(t.arrivals) :: h.after.callerGone
  }

  lemma {:induction false} JudgeFinals(hs: seq<Heard>, responded: bool, end: View)
    ensures var (r, finals) := Judge(hs, responded, end);
      && |finals| <= 1
      && (r.final.Some? ==> finals == [r.final.value] && r.finalised)
      && (r.final.Some? ==> Answers(hs, r.final.value))
      && (finals != [] ==> r.finalised)
      && (r.final.None? && finals != [] ==> finals == [488])
      && (r.finalised && finals == [] ==> end.callerGone || exists h <- hs :: h.after.callerGone)
      && (r.responded <==> responded || hs != [])
    decreases |hs|
  {
    if hs != [] {
      JudgeFinals(hs[1..], true, end);
      assert hs[0] in hs;
      assert forall h <- hs[1..] :: h in hs;
    }
  }

  /** h is a final response relayed while nobody had given up on the call. */
  predicate Forwards(h: Heard, code: nat) {
    h.code == code >= 200 && h.relay == Relayed && h.seen.ctx == Running && !h.seen.cancelled
  }

  predicate Answers(hs: seq<Heard>, code: nat) {
    exists h <- hs :: Forwards(h, code)
  }

  /** The caller gets exactly one final response, whatever happens: none is sent
      only if its own CANCEL has had it answered. */
  lemma {:induction false} ExactlyOneFinal(order: seq<string>, script: seq<Try>, last: View)
    requires |script| == |order|
    ensures var finals := Series(order, script, last).finals;
      |finals| <= 1 && (finals == [] ==> CallerSeenGone(script, last))
    decreases |order|
  {
    if order != [] {
      var t := script[0];
      assert t in script;
      JudgeFinals(Flat(t.arrivals), false, t.end);
      ExactlyOneFinal(order[1..], script[1..], last);
      assert forall u <- script[1..] :: u in script;
    }
  }

  /** The attempt produced no response to forward and failed below SIP: the
      INVITE never got out, or its transaction broke. */
  predicate Silent(t: Try) {
    !t.sent || (Flat(t.arrivals) == [] && t.transportError)
  }

  lemma SilentNext(t: Try)
    ensures After(t) == NextNode ==> Silent(t)
  {
    JudgeFinals(Flat(t.arrivals), false, t.end);
  }

  /** Nodes are dialed in the order given, none skipped; another one is dialed
      only after silence, and exactly the silent ones before it are penalised. */
  lemma {:induction false} RetryOnlyAfterSilence(order: seq<string>, script: seq<Try>, last: View)
    requires |script| == |order|
    ensures var log := Series(order, script, last);
      && log.dialed <= order && log.cooled <= log.dialed && |log.dialed| <= |log.cooled| + 1
      && forall i :: 0 <= i < |log.cooled| ==> Silent(script[i])
    decreases |order|
  {
    hide After, Pump, GiveUp, Silent;
    if order != [] {
      var t := script[0];
      SilentNext(t);
      RetryOnlyAfterSilence(order[1..], script[1..], last);
      if After(t) == NextNode {
        var cooled := Series(order[1..], script[1..], last).cooled;
        forall i | 0 <= i < |cooled| + 1 ensures Silent(script[i]) {
          assert i > 0 ==> script[1..][i - 1] == script[i];
        }
      }
    }
  }

  /** No node is dialed twice. */
  lemma NoNodeTwice(names: seq<string>, order: seq<string>, script: seq<Try>, last: View)
    requires |script| == |order| && multiset(order) == multiset(names) && Index.Distinct(names)
    ensures Index.Distinct(Series(order, script, last).dialed)
  {
    RetryOnlyAfterSilence(order, script, last);
    Index.SameMembers(names, order);
  }

  /** The finals FreeSBC makes itself. */
  predicate OwnCode(code: nat) {
    code == 408 || code == 483 || code == 487 || code == 488 || code == 503
  }

  lemma OwnCodes(last: View)
    ensures forall code <- GiveUp(last) :: OwnCode(code)
    ensures OwnCode(483) && OwnCode(488)
  {
  }

  /** An attempt that ends the series sends the final it relayed, or at most one
      of FreeSBC's own. */
  lemma StopAnswers(t: Try)
    ensures After(t).Stop? ==>
      if Pump(t).0.final.Some? then |After(t).finals| == 1 && Answers(Flat(t.arrivals), After(t).finals[0])
      else forall code <- After(t).finals :: OwnCode(code)
  {
    JudgeFinals(Flat(t.arrivals), false, t.end);
  }

  /** A node is taken out of cooldown exactly when its final was relayed: it is
      the last one dialed and its response is the caller's. Otherwise the caller
      has one of FreeSBC's own. */
  lemma {:induction false} RecoveredAnswered(order: seq<string>, script: seq<Try>, last: View)
    requires |script| == |order|
    ensures var log := Series(order, script, last);
      if log.recovered != [] then
        && log.dialed != [] && log.recovered == [log.dialed[|log.dialed| - 1]] && |log.dialed| <= |script|
        && |log.finals| == 1 && Answers(Flat(script[|log.dialed| - 1].arrivals), log.finals[0])
      else forall code <- log.finals :: OwnCode(code)
    decreases |order|
  {
    hide Flat, Answers, After, Pump, OwnCode, GiveUp;
    OwnCodes(last);
    if order != [] {
      StopAnswers(script[0]);
      RecoveredAnswered(order[1..], script[1..], last);
      var rest := Series(order[1..], script[1..], last);
      assert rest.recovered != [] ==> script[1..][|rest.dialed| - 1] == script[|rest.dialed|];
    }
  }

  predicate Clear(v: View) {
    v.ctx == Running && !v.cancelled && !v.callerGone
  }

  /** Nothing but silence, and nobody gives up: every node is tried, then 503. */
  lemma {:induction false} EveryNodeTried(order: seq<string>, script: seq<Try>, last: View)
    requires |script| == |order| && Clear(last)
    requires forall t <- script :: t.forwarded && t.tracked && Silent(t)
    requires forall t <- script :: Clear(t.before) && Clear(t.after) && Clear(t.end) && Clear(t.later)
    ensures Series(order, script, last) == Log(order, [503], order, [])
    decreases |order|
  {
    if order != [] {
      assert script[0] in script;
      EveryNodeTried(order[1..], script[1..], last);
      assert order == [order[0]] + order[1..];
    }
  }
}
