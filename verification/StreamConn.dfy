/**
 A connection as its reading loop sees it (internal/edge/stream.go,
 streamConn): every read is framed, as SIP over TCP and TLS or as WebSocket
 frames, charged to the shield, and moves the clocks behind the slow and the idle
 bound. A unit is a SIP message or, over WebSocket, the upgrade request or a
 frame; what counts as a message there is a data frame.

 How many charges of a read the shield lets through, the time, and whether the
 connection is in use otherwise, are inputs.
 */
module StreamConns {
  import opened Bytes
  import opened Options
  import Tcp = SipFraming
  import Ws = WsFraming

  /** A read that brought bytes, the first budget charges of which pass the
      shield, or one that timed out. */
  datatype ConnRead = Got(data: seq<byte>, now: int, budget: nat, busy: bool) | TimedOut(busy: bool)

  datatype Closing = Alive | TooBig | BadData | OverRate | IdleTooLong | TooSlow

  type Violation = c: Closing | c == TooBig || c == BadData witness TooBig

  /** A framer and the state it is in. */
  datatype Line = OverTcp(f: Tcp.Framing, tcp: Tcp.Phase) | OverWs(max: nat, ws: Ws.Phase)

  /** What a framer makes of some bytes: where it is then, what they are charged,
      whether a unit began in them and whether a message did; or a violation. */
  datatype Fed = Fed(line: Line, charges: nat, began: bool, msg: bool) | Refused(why: Violation)

  ghost function FeedLine(l: Line, data: seq<byte>): Fed {
    match l
    case OverTcp(f, phase) => FeedTcp(f, phase, data)
    case OverWs(max, phase) => FeedWs(max, phase, data)
  }

  function FeedTcp(f: Tcp.Framing, phase: Tcp.Phase, data: seq<byte>): Fed {
    match Tcp.Run(f, phase, data, 0)
    case Stop(why, _) => Refused(if why == Tcp.Oversize then TooBig else BadData)
    case Go(next, starts) =>
      Fed(OverTcp(f, next), |starts| + Tcp.KeepAlive(phase, data), starts != [], starts != [])
  }

  ghost function FeedWs(max: nat, phase: Ws.Phase, data: seq<byte>): Fed {
    match Ws.Run(max, phase, data)
    case Stop(why, _) => Refused(if why == Ws.Oversize then TooBig else BadData)
    case Go(next, log) => Fed(OverWs(max, next), Ws.Charges(log), Ws.Began in log, Ws.HasData(log))
  }

  /** A unit has begun and not completed. */
  predicate Partial(l: Line) {
    match l
    case OverTcp(_, phase) => phase != Tcp.Idle
    case OverWs(_, Http(_, seen)) => seen > 0
    case OverWs(_, Header(h)) => h != []
    case OverWs(_, Payload(_)) => true
  }

  /** A framer before its first byte. */
  predicate AtStart(l: Line) {
    match l
    case OverTcp(_, phase) => phase == Tcp.Idle
    case OverWs(_, phase) => phase == Ws.Http(0, 0)
  }

  /** lastMsg is None before the first read. */
  datatype Clocks = Clocks(partial: bool, since: int, lastMsg: Option<int>)

  datatype Conn = Conn(line: Line, clocks: Clocks)

  const FRESH_CLOCKS := Clocks(false, 0, None)

  /** The clocks after a read at now. */
  function Clocked(c: Clocks, now: int, partial: bool, began: bool, msg: bool): Clocks {
    var lastMsg := if msg || c.lastMsg.None? then Some(now) else c.lastMsg;
    Clocks(partial, if partial && (!c.partial || began) then now else c.since, lastMsg)
  }

  /** What a read does to the connection, and whether it is closed for it. */
  ghost function Observed(idle: int, c: Conn, r: ConnRead): (Conn, Closing) {
    match r
    case TimedOut(busy) => (c, if c.clocks.partial then TooSlow else if busy then Alive else IdleTooLong)
    case Got(data, now, budget, busy) =>
      match FeedLine(c.line, data)
      case Refused(why) => (c, why)
      case Fed(line, charges, began, msg) =>
        if charges > budget then (Conn(line, c.clocks), OverRate)
        else
          var clocks := Clocked(c.clocks, now, Partial(line), began, msg);
          var quiet := !Partial(line) && now - clocks.lastMsg.value > idle && !busy;
          (Conn(line, clocks), if quiet then IdleTooLong else Alive)
  }

  /** arm: the deadline of the next read. */
  function Deadline(c: Clocks, now: int, idle: int, message: int): int {
    if c.partial then c.since + message else now + idle
  }

  /** A connection over a list of reads. Nothing is read once it is closed. */
  ghost function After(idle: int, start: Line, rs: seq<ConnRead>): (Conn, Closing) {
    if rs == [] then (Conn(start, FRESH_CLOCKS), Alive)
    else
      var (c, closing) := After(idle, start, rs[..|rs| - 1]);
      if closing != Alive then (c, closing) else Observed(idle, c, rs[|rs| - 1])
  }

  // ---- The program -----------------------------------------------------------------------

  datatype Framer = TcpFramer(tcp: Tcp.SipFramer) | WsFramer(ws: Ws.WsFramer)

  class StreamConn {
    const fr: Framer
    const idle: int
    var partial: bool
    var since: int
    var lastMsg: Option<int>

    ghost function Parts(): set<object> {
      match fr
      case TcpFramer(tcp) => {tcp}
      case WsFramer(ws) => {ws, ws.hdr}
    }

    ghost predicate Valid()
      reads Parts()
    {
      match fr
      case TcpFramer(tcp) => tcp.Valid()
      case WsFramer(ws) => ws.Valid()
    }

    ghost function AbstractLine(): Line
      requires Valid()
      reads Parts()
    {
      match fr
      case TcpFramer(tcp) => OverTcp(tcp.f, tcp.Abstract())
      case WsFramer(ws) => OverWs(ws.max, ws.Abstract())
    }

    ghost function Abstract(): Conn
      requires Valid()
      reads this, Parts()
    {
      Conn(AbstractLine(), Clocks(partial, since, lastMsg))
    }

    constructor (max: nat, ws: bool, idle: int)
      requires max <= MAX_INT
      ensures Valid() && fresh(Parts()) && this.idle == idle
      ensures Abstract() == Conn(if ws then OverWs(max, Ws.Http(0, 0))
        else OverTcp(Tcp.Framing(max, Tcp.DeclaredLength), Tcp.Idle), FRESH_CLOCKS)
    {
      if ws {
        var f := new Ws.WsFramer(max);
        fr := WsFramer(f);
      } else {
        var f := new Tcp.SipFramer(max);
        fr := TcpFramer(f);
      }
      this.idle := idle;
      partial, since, lastMsg := false, 0, None;
    }

    /** feed, partial and started of the framer there is. */
    method Feed(data: seq<byte>) returns (charges: nat, bad: Closing, open: bool, began: bool, msg: bool)
      requires Valid()
      modifies Parts()
      ensures match FeedLine(old(AbstractLine()), data)
        case Refused(why) => bad == why
        case Fed(line, cost, b, m) =>
          && bad == Alive && Valid() && AbstractLine() == line
          && charges == cost && open == Partial(line) && began == (b && open) && msg == m
    {
      hide Tcp.Run, Ws.Run, Ws.Charges, Ws.HasData, Tcp.KeepAlive, Tcp.DeclaredLength;
      bad := Alive;
      match fr
      case TcpFramer(tcp) =>
        var why;
        charges, why := tcp.Feed(data);
        open, msg := tcp.Partial(), tcp.began;
        began := msg && open;
        if why != Tcp.Open {
          bad := if why == Tcp.Oversize then TooBig else BadData;
        }
      case WsFramer(ws) =>
        var why;
        charges, why := ws.Feed(data);
        open, msg := ws.Partial(), ws.data;
        began := ws.began && open;
        if why != Ws.Open {
          bad := if why == Ws.Oversize then TooBig else BadData;
        }
    }

    /** observe: a violation closes first, then the shield, then the idle bound. */
    method Observe(data: seq<byte>, now: int, budget: nat, busy: bool) returns (closing: Closing)
      requires Valid()
      modifies this, Parts()
      ensures closing == Observed(idle, old(Abstract()), Got(data, now, budget, busy)).1
      ensures closing == Alive ==>
        Valid() && Abstract() == Observed(idle, old(Abstract()), Got(data, now, budget, busy)).0
    {
      hide FeedLine, Partial;
      var charges, bad, open, began, msg := Feed(data);
      if bad != Alive {
        return bad;
      }
      var refused := Charge(charges, budget);
      if refused {
        return OverRate;
      }
      var quiet := Tick(now, open, began, msg);
      return if quiet && !busy then IdleTooLong else Alive;
    }

    /** The clocks move on; quiet says that nothing is under way and the last
        message is too long ago. */
    method Tick(now: int, open: bool, began: bool, msg: bool) returns (quiet: bool)
      modifies this`partial, this`since, this`lastMsg
      ensures Clocks(partial, since, lastMsg) == Clocked(old(Clocks(partial, since, lastMsg)), now, open, began, msg)
      ensures lastMsg.Some? && quiet == (!open && now - lastMsg.value > idle)
    {
      if msg || lastMsg.None? {
        lastMsg := Some(now);
      }
      if open {
        if !partial || began {
          since := now;
        }
        partial := true;
        return false;
      }
      partial := false;
      return now - lastMsg.value > idle;
    }

    /** One AllowRate per charge, until one refuses. */
    method Charge(charges: nat, budget: nat) returns (refused: bool)
      ensures refused == (charges > budget)
    {
      for i := 0 to charges
        invariant i <= budget
      {
        if i >= budget {
          return true;
        }
      }
      return false;
    }

    /** Read: what comes of one read of the connection. */
    method Read(r: ConnRead) returns (closing: Closing)
      requires Valid()
      modifies this, Parts()
      ensures closing == Observed(idle, old(Abstract()), r).1
      ensures closing == Alive ==> Valid() && Abstract() == Observed(idle, old(Abstract()), r).0
    {
      match r
      case Got(data, now, budget, busy) =>
        closing := Observe(data, now, budget, busy);
      case TimedOut(busy) =>
        if partial {
          return TooSlow;
        }
        return if busy then Alive else IdleTooLong;
    }

    /** The reading loop. */
    method Serve(rs: seq<ConnRead>) returns (closing: Closing)
      requires Valid() && Abstract() == Conn(AbstractLine(), FRESH_CLOCKS)
      modifies this, Parts()
      ensures closing == After(idle, old(AbstractLine()), rs).1
      ensures closing == Alive ==> Valid() && Abstract() == After(idle, old(AbstractLine()), rs).0
    {
      hide Observed;
      ghost var start := AbstractLine();
      closing := Alive;
      for k := 0 to |rs|
        invariant closing == Alive && Valid() && After(idle, start, rs[..k]) == (Abstract(), Alive)
      {
        assert rs[..k + 1][..k] == rs[..k];
        closing := Read(rs[k]);
        if closing != Alive {
          ClosedForGood(idle, start, rs, k + 1);
          return;
        }
      }
      assert rs[..|rs|] == rs;
    }
  }

  lemma {:induction false} ClosedForGood(idle: int, start: Line, rs: seq<ConnRead>, k: nat)
    requires k <= |rs| && After(idle, start, rs[..k]).1 != Alive
    ensures After(idle, start, rs) == After(idle, start, rs[..k])
    decreases |rs|
  {
    if k == |rs| {
      assert rs[..k] == rs;
    } else {
      var init := rs[..|rs| - 1];
      assert init[..k] == rs[..k];
      ClosedForGood(idle, start, init, k);
    }
  }

  /** A connection is closed as too big exactly for its framer's size test, and as bad
      data for what the framer cannot read. */
  lemma RefusedFor(f: Tcp.Framing, tcp: Tcp.Phase, max: nat, ws: Ws.Phase, data: seq<byte>)
    ensures FeedLine(OverTcp(f, tcp), data) == Refused(TooBig) <==>
      Tcp.Run(f, tcp, data, 0).Stop? && Tcp.Run(f, tcp, data, 0).why == Tcp.Oversize
    ensures FeedLine(OverTcp(f, tcp), data) == Refused(BadData) <==>
      Tcp.Run(f, tcp, data, 0).Stop? && Tcp.Run(f, tcp, data, 0).why == Tcp.Malformed
    ensures FeedLine(OverWs(max, ws), data) == Refused(TooBig) <==>
      Ws.Run(max, ws, data).Stop? && Ws.Run(max, ws, data).why == Ws.Oversize
    ensures FeedLine(OverWs(max, ws), data) == Refused(BadData) <==>
      Ws.Run(max, ws, data).Stop? && Ws.Run(max, ws, data).why == Ws.Malformed
  {
    hide Tcp.Run, Ws.Run;
  }

  // ---- Bytes one after another -----------------------------------------------------------

  /** Bytes fed in two pieces come to what they come to in one. */
  lemma FedConcat(l: Line, p: seq<byte>, q: seq<byte>)
    requires FeedLine(l, p).Fed?
    ensures var a, b, all := FeedLine(l, p), FeedLine(FeedLine(l, p).line, q), FeedLine(l, p + q);
      && all.Fed? == b.Fed?
      && (b.Fed? ==> all.line == b.line && all.began == (a.began || b.began) && all.msg == (a.msg || b.msg))
  {
    hide Tcp.Run, Ws.Run, Ws.Charges, Ws.HasData, Tcp.KeepAlive;
    match l
    case OverTcp(f, phase) =>
      Tcp.RunConcat(f, phase, p, q, 0);
      Tcp.RunShift(f, Tcp.Run(f, phase, p, 0).phase, q, 0, |p|);
    case OverWs(max, phase) =>
      Ws.RunConcat(max, phase, p, q);
      Ws.LogAppend(Ws.Run(max, phase, p).log, Ws.Run(max, Ws.Run(max, phase, p).phase, q).log);
  }

  lemma FedNothing(l: Line)
    ensures FeedLine(l, []).Fed? && FeedLine(l, []).line == l && !FeedLine(l, []).began && !FeedLine(l, []).msg
  {
  }

  /** No part of CRLFCRLF is matched before the first byte. */
  predicate Sane(l: Line) {
    l.OverWs? && l.ws.Http? && l.ws.seen == 0 ==> l.ws.matched == 0
  }

  lemma FedSane(l: Line, p: seq<byte>)
    requires Sane(l) && FeedLine(l, p).Fed?
    ensures Sane(FeedLine(l, p).line)
  {
    if l.OverWs? {
      WsSane(l.max, l.ws, p);
    }
  }

  lemma {:induction false} WsSane(max: nat, phase: Ws.Phase, p: seq<byte>)
    requires Sane(OverWs(max, phase)) && Ws.Run(max, phase, p).Go?
    ensures Sane(OverWs(max, Ws.Run(max, phase, p).phase))
    decreases |p|
  {
    if p != [] {
      match Ws.Step(max, phase, p[0])
      case Go(next, _) => WsSane(max, next, p[1..]);
    }
  }

  /** A byte begins a unit exactly when none was open before it and one is after. */
  lemma OneByte(l: Line, b: byte)
    requires Sane(l) && FeedLine(l, [b]).Fed?
    ensures FeedLine(l, [b]).began <==> !Partial(l) && Partial(FeedLine(l, [b]).line)
  {
    hide Tcp.Run, Ws.Run;
    match l
    case OverTcp(f, phase) => TcpByte(f, phase, b);
    case OverWs(max, phase) => WsByte(max, phase, b);
  }

  lemma TcpByte(f: Tcp.Framing, phase: Tcp.Phase, b: byte)
    ensures var o := Tcp.Run(f, phase, [b], 0);
      o.Go? ==> (o.starts != [] <==> phase == Tcp.Idle && o.phase != Tcp.Idle)
  {
    assert [b][1..] == [];
    var o := Tcp.Step(f, phase, b, 0);
    if o.Go? {
      Tcp.NothingRun(f, o.phase, 1);
    }
  }

  lemma WsByte(max: nat, phase: Ws.Phase, b: byte)
    requires Sane(OverWs(max, phase))
    ensures var o := Ws.Run(max, phase, [b]);
      o.Go? ==> (Ws.Began in o.log <==> !Partial(OverWs(max, phase)) && Partial(OverWs(max, o.phase)))
  {
    hide Ws.StatedLength;
    assert [b][1..] == [];
    var o := Ws.Step(max, phase, b);
    if o.Go? {
      assert Ws.Run(max, o.phase, []) == Ws.Go(o.phase, []);
      assert o.log + [] == o.log;
    }
  }

  // ---- Where units and messages begin ------------------------------------------------------

  /** The framer after the first k bytes of p. */
  ghost function At(l: Line, p: seq<byte>, k: nat): Line
    requires k <= |p|
  {
    if FeedLine(l, p[..k]).Fed? then FeedLine(l, p[..k]).line else l
  }

  /** Byte k of p is the one that makes the framer report a message. */
  ghost predicate MsgAt(l: Line, p: seq<byte>, k: nat)
    requires k < |p|
  {
    FeedLine(At(l, p, k), [p[k]]).Fed? && FeedLine(At(l, p, k), [p[k]]).msg
  }

  /** Byte o of p is the first of the unit that is open at the end of p. */
  ghost predicate OpenSince(l: Line, p: seq<byte>, o: nat) {
    o < |p| && !Partial(At(l, p, o)) && forall k :: o < k <= |p| ==> Partial(At(l, p, k))
  }

  ghost predicate LastMsg(l: Line, p: seq<byte>, o: Option<nat>) {
    match o
    case Some(j) => j < |p| && MsgAt(l, p, j) && forall k :: j < k < |p| ==> !MsgAt(l, p, k)
    case None => forall k :: 0 <= k < |p| ==> !MsgAt(l, p, k)
  }

  lemma PrefixFed(l: Line, p: seq<byte>, k: nat)
    requires k <= |p| && FeedLine(l, p).Fed?
    ensures FeedLine(l, p[..k]).Fed? && At(l, p, |p|) == FeedLine(l, p).line
  {
    hide FeedLine;
    assert p == p[..k] + p[k..] && p[..|p|] == p;
    Splits(l, p[..k], p[k..]);
  }

  lemma Splits(l: Line, p: seq<byte>, q: seq<byte>)
    requires FeedLine(l, p + q).Fed?
    ensures FeedLine(l, p).Fed?
  {
    hide Tcp.Run, Ws.Run;
    match l
    case OverTcp(f, phase) => Tcp.RunConcat(f, phase, p, q, 0);
    case OverWs(max, phase) => Ws.RunConcat(max, phase, p, q);
  }

  /** Of bytes fed after p it does not matter that p came before. */
  lemma AtShift(l: Line, p: seq<byte>, q: seq<byte>, k: nat)
    requires FeedLine(l, p + q).Fed? && k <= |q|
    ensures FeedLine(l, p).Fed? && At(l, p + q, |p| + k) == At(FeedLine(l, p).line, q, k)
    ensures k < |q| ==> (MsgAt(l, p + q, |p| + k) <==> MsgAt(FeedLine(l, p).line, q, k))
  {
    hide FeedLine;
    Splits(l, p, q);
    FedConcat(l, p, q);
    assert (p + q)[..|p| + k] == p + q[..k];
    PrefixFed(FeedLine(l, p).line, q, k);
    FedConcat(l, p, q[..k]);
  }

  lemma AtPrefix(l: Line, p: seq<byte>, q: seq<byte>, k: nat)
    requires k <= |p|
    ensures At(l, p + q, k) == At(l, p, k)
    ensures k < |p| ==> (MsgAt(l, p + q, k) <==> MsgAt(l, p, k))
  {
    assert (p + q)[..k] == p[..k];
  }

  /** The bytes in which a unit begins: the last place with none open, when one is
      open at the end. */
  lemma {:induction false} BeganAt(l: Line, q: seq<byte>) returns (o: nat)
    requires Sane(l) && FeedLine(l, q).Fed? && Partial(FeedLine(l, q).line)
    ensures FeedLine(l, q).began ==> OpenSince(l, q, o)
    ensures !FeedLine(l, q).began ==> forall k :: 0 <= k <= |q| ==> Partial(At(l, q, k))
    decreases |q|
  {
    hide FeedLine, Partial, Sane;
    o := 0;
    FedNothing(l);
    PrefixFed(l, q, |q|);
    if q == [] {
      assert q[..0] == q;
    } else {
      var n := |q| - 1;
      var init := q[..n];
      assert q == init + [q[n]] && init[..n] == init;
      PrefixFed(l, q, n);
      FedConcat(l, init, [q[n]]);
      FedSane(l, init);
      OneByte(FeedLine(l, init).line, q[n]);
      assert At(l, q, n) == FeedLine(l, init).line;
      if !Partial(At(l, q, n)) {
        o := n;
      } else {
        o := BeganAt(l, init);
        forall k | 0 <= k <= n ensures At(l, q, k) == At(l, init, k) {
          AtPrefix(l, init, [q[n]], k);
        }
      }
    }
  }

  lemma {:induction false} MsgLast(l: Line, q: seq<byte>) returns (o: Option<nat>)
    requires FeedLine(l, q).Fed?
    ensures LastMsg(l, q, o) && (o.Some? <==> FeedLine(l, q).msg)
    decreases |q|
  {
    hide FeedLine;
    o := None;
    FedNothing(l);
    if q == [] {
      assert q[..0] == q;
    } else {
      var n := |q| - 1;
      var init := q[..n];
      assert q == init + [q[n]] && init[..n] == init;
      PrefixFed(l, q, n);
      FedConcat(l, init, [q[n]]);
      assert At(l, q, n) == FeedLine(l, init).line;
      o := MsgLast(l, init);
      forall k | 0 <= k < n ensures MsgAt(l, q, k) <==> MsgAt(l, init, k) {
        AtPrefix(l, init, [q[n]], k);
      }
      if MsgAt(l, q, n) {
        o := Some(n);
      }
    }
  }

  // ---- The clocks over a connection ----------------------------------------------------

  function Chunk(r: ConnRead): seq<byte> {
    if r.Got? then r.data else []
  }

  function Chunks(rs: seq<ConnRead>): seq<seq<byte>> {
    seq(|rs|, i requires 0 <= i < |rs| => Chunk(rs[i]))
  }

  /** The bytes of the stream so far. */
  function Data(rs: seq<ConnRead>): seq<byte> {
    Flatten(Chunks(rs))
  }

  /** When the byte at offset o of the stream was read. */
  function TimeOf(rs: seq<ConnRead>, o: nat): int {
    if rs == [] then 0
    else if o < |Data(rs[..|rs| - 1])| || rs[|rs| - 1].TimedOut? then TimeOf(rs[..|rs| - 1], o)
    else rs[|rs| - 1].now
  }

  /** When the connection was first read. */
  function FirstTime(rs: seq<ConnRead>): Option<int> {
    if rs == [] then None
    else if rs[0].Got? then Some(rs[0].now)
    else FirstTime(rs[1..])
  }

  lemma DataSnoc(rs: seq<ConnRead>, r: ConnRead)
    ensures Data([]) == [] && Data(rs + [r]) == Data(rs) + Chunk(r)
  {
    var all := Chunks(rs + [r]);
    assert all[..|rs|] == Chunks(rs) && all[|rs|] == Chunk(r);
    assert Chunks([]) == [];
  }

  lemma {:induction false} FirstTimeSnoc(rs: seq<ConnRead>, r: ConnRead)
    ensures FirstTime(rs + [r]) == if FirstTime(rs).Some? || r.TimedOut? then FirstTime(rs) else Some(r.now)
    decreases |rs|
  {
    var all := rs + [r];
    if rs == [] {
      assert all[1..] == [];
    } else {
      assert all[1..] == rs[1..] + [r];
      FirstTimeSnoc(rs[1..], r);
    }
  }

  lemma TimeSnoc(rs: seq<ConnRead>, r: ConnRead, o: nat)
    ensures o < |Data(rs)| || r.TimedOut? ==> TimeOf(rs + [r], o) == TimeOf(rs, o)
    ensures o >= |Data(rs)| && r.Got? ==> TimeOf(rs + [r], o) == r.now
  {
    assert (rs + [r])[..|rs|] == rs;
  }

  /** What the clocks of a connection stand for: a unit is open exactly when the
      stream so far ends inside one; the slow bound runs from the read that brought
      byte open, the first of that very unit; the idle bound from the one that
      brought the byte which made the last message known, or the first read when
      there was none. */
  ghost predicate Tells(start: Line, rs: seq<ConnRead>, c: Conn, open: nat, msg: Option<nat>) {
    var p := Data(rs);
    && FeedLine(start, p).Fed? && c.line == FeedLine(start, p).line
    && c.clocks.partial == Partial(c.line)
    && (Partial(c.line) ==> OpenSince(start, p, open) && c.clocks.since == TimeOf(rs, open))
    && LastMsg(start, p, msg)
    && c.clocks.lastMsg == if msg.Some? then Some(TimeOf(rs, msg.value)) else FirstTime(rs)
  }

  /** So it is on every connection that is still open, over either framing and
      however its bytes were cut into reads. */
  lemma {:induction false} ClocksPerMessage(idle: int, start: Line, rs: seq<ConnRead>)
    returns (open: nat, msg: Option<nat>)
    requires AtStart(start) && After(idle, start, rs).1 == Alive
    ensures Tells(start, rs, After(idle, start, rs).0, open, msg)
    decreases |rs|
  {
    hide Observed, Tells, FeedLine;
    if rs == [] {
      open, msg := 0, None;
      FreshTells(start);
    } else {
      var init, r := rs[..|rs| - 1], rs[|rs| - 1];
      assert init + [r] == rs;
      open, msg := ClocksPerMessage(idle, start, init);
      if r.Got? {
        open, msg := GotTells(idle, start, init, r, After(idle, start, init).0, open, msg);
      } else {
        TimedOutTells(idle, start, init, r, After(idle, start, init).0, open, msg);
      }
    }
  }

  lemma FreshTells(start: Line)
    requires AtStart(start)
    ensures Tells(start, [], Conn(start, FRESH_CLOCKS), 0, None)
  {
    DataSnoc([], TimedOut(true));
    FedNothing(start);
  }

  lemma TimedOutTells(idle: int, start: Line, rs: seq<ConnRead>, r: ConnRead, c: Conn, open: nat, msg: Option<nat>)
    requires r.TimedOut? && Tells(start, rs, c, open, msg)
    ensures Tells(start, rs + [r], Observed(idle, c, r).0, open, msg)
  {
    hide FeedLine, OpenSince, LastMsg;
    DataSnoc(rs, r);
    assert Data(rs) + [] == Data(rs);
    FirstTimeSnoc(rs, r);
    TimeSnoc(rs, r, open);
    if msg.Some? {
      TimeSnoc(rs, r, msg.value);
    }
  }

  /** Bytes q after p, during which no unit began: the one open stays the one. */
  lemma StillOpen(l: Line, p: seq<byte>, q: seq<byte>, o: nat)
    requires FeedLine(l, p + q).Fed? && OpenSince(l, p, o)
    requires FeedLine(l, p).Fed? && forall k :: 0 <= k <= |q| ==> Partial(At(FeedLine(l, p).line, q, k))
    ensures OpenSince(l, p + q, o)
  {
    hide FeedLine, Partial, At;
    AtPrefix(l, p, q, o);
    forall k | o < k <= |p + q| ensures Partial(At(l, p + q, k)) {
      if k <= |p| {
        AtPrefix(l, p, q, k);
      } else {
        AtShift(l, p, q, k - |p|);
      }
    }
  }

  lemma OpenShift(l: Line, p: seq<byte>, q: seq<byte>, o: nat)
    requires FeedLine(l, p + q).Fed? && FeedLine(l, p).Fed? && OpenSince(FeedLine(l, p).line, q, o)
    ensures OpenSince(l, p + q, |p| + o)
  {
    hide FeedLine, Partial, At;
    AtShift(l, p, q, o);
    forall k | |p| + o < k <= |p + q| ensures Partial(At(l, p + q, k)) {
      AtShift(l, p, q, k - |p|);
    }
  }

  lemma MsgShift(l: Line, p: seq<byte>, q: seq<byte>, was: Option<nat>, more: Option<nat>)
    requires FeedLine(l, p + q).Fed? && FeedLine(l, p).Fed?
    requires LastMsg(l, p, was) && LastMsg(FeedLine(l, p).line, q, more)
    ensures LastMsg(l, p + q, if more.Some? then Some(|p| + more.value) else was)
  {
    hide FeedLine, MsgAt;
    forall k | 0 <= k < |p + q|
      ensures MsgAt(l, p + q, k) <==> if k < |p| then MsgAt(l, p, k) else MsgAt(FeedLine(l, p).line, q, k - |p|)
    {
      if k < |p| {
        AtPrefix(l, p, q, k);
      } else {
        AtShift(l, p, q, k - |p|);
      }
    }
  }

  lemma GotTells(idle: int, start: Line, rs: seq<ConnRead>, r: ConnRead, c: Conn, open: nat, msg: Option<nat>)
    returns (open': nat, msg': Option<nat>)
    requires Sane(start)
    requires r.Got? && Tells(start, rs, c, open, msg) && Observed(idle, c, r).1 == Alive
    ensures Tells(start, rs + [r], Observed(idle, c, r).0, open', msg')
  {
    hide FeedLine, OpenSince, LastMsg, Partial, Sane;
    var p, q := Data(rs), r.data;
    FedSane(start, p);
    DataSnoc(rs, r);
    FedConcat(start, p, q);
    var fed := FeedLine(c.line, q);
    FirstTimeSnoc(rs, r);
    open', msg' := open, msg;
    if Partial(fed.line) {
      var o := BeganAt(c.line, q);
      if fed.began {
        OpenShift(start, p, q, o);
        open' := |p| + o;
      } else {
        OpenBefore(start, rs, c, q);
        StillOpen(start, p, q, open);
        assert open < |p| by {
          OpenWithin(start, p, open);
        }
      }
      TimeSnoc(rs, r, open');
    }
    var more := MsgLast(c.line, q);
    MsgShift(start, p, q, msg, more);
    if more.Some? {
      msg' := Some(|p| + more.value);
      TimeSnoc(rs, r, |p| + more.value);
    } else if msg.Some? {
      MsgWithin(start, p, msg);
      TimeSnoc(rs, r, msg.value);
    }
  }

  lemma OpenBefore(start: Line, rs: seq<ConnRead>, c: Conn, q: seq<byte>)
    requires forall k :: 0 <= k <= |q| ==> Partial(At(c.line, q, k))
    ensures Partial(c.line)
  {
    FedNothing(c.line);
    assert q[..0] == [];
    assert Partial(At(c.line, q, 0));
  }

  lemma OpenWithin(l: Line, p: seq<byte>, o: nat)
    requires OpenSince(l, p, o)
    ensures o < |p|
  {
  }

  lemma MsgWithin(l: Line, p: seq<byte>, o: Option<nat>)
    requires LastMsg(l, p, o)
    ensures o.Some? ==> o.value < |p|
  {
  }

  /** When the next read closes an open connection, in terms of the stream so far and of
      when its bytes came: for what the framer refuses; else when it is charged more
      than the shield lets through; else, once no unit is open, when the last message
      is more than the idle bound ago and the connection is not in use. A read that
      times out closes it as slow inside a unit, else as idle unless it is in use. */
  lemma ClosedIff(idle: int, start: Line, rs: seq<ConnRead>, r: ConnRead) returns (open: nat, msg: Option<nat>)
    requires AtStart(start) && After(idle, start, rs).1 == Alive
    ensures var p, c := Data(rs), After(idle, start, rs).0;
      && FeedLine(start, p).Fed? && c.line == FeedLine(start, p).line
      && match r
         case TimedOut(busy) =>
           After(idle, start, rs + [r]).1 == (if Partial(c.line) then TooSlow else if busy then Alive else IdleTooLong)
         case Got(data, now, budget, busy) =>
           && After(idle, start, rs + [r]).1 == Verdict(FeedLine(c.line, data), now, budget, busy, idle,
               if FeedLine(c.line, data).Fed? && FeedLine(c.line, data).msg then now
               else if msg.Some? then TimeOf(rs, msg.value)
               else if FirstTime(rs).Some? then FirstTime(rs).value
               else now)
           && LastMsg(start, p, msg)
  {
    hide FeedLine, Partial, OpenSince, LastMsg;
    open, msg := ClocksPerMessage(idle, start, rs);
    assert (rs + [r])[..|rs|] == rs;
  }

  /** The closing of a read, last being when the last message was made known, or the
      first read. */
  ghost function Verdict(fed: Fed, now: int, budget: nat, busy: bool, idle: int, last: int): Closing {
    match fed
    case Refused(why) => why
    case Fed(line, charges, _, _) =>
      if charges > budget then OverRate
      else if !Partial(line) && !busy && now - last > idle then IdleTooLong
      else Alive
  }

  /** A unit that trickles in gains no time: as long as it stays open, the deadline
      stays where its first byte put it. */
  lemma DeadlineStays(idle: int, start: Line, rs: seq<ConnRead>, more: seq<ConnRead>, message: int, now: int, later: int)
    requires AtStart(start) && After(idle, start, rs).1 == Alive && After(idle, start, rs + more).1 == Alive
    requires forall k :: |Data(rs)| <= k <= |Data(rs + more)| ==> Partial(At(start, Data(rs + more), k))
    ensures Deadline(After(idle, start, rs + more).0.clocks, later, idle, message) ==
      Deadline(After(idle, start, rs).0.clocks, now, idle, message)
  {
    hide FeedLine, Partial;
    var p, p' := Data(rs), Data(rs + more);
    var open, _ := ClocksPerMessage(idle, start, rs);
    var open', _ := ClocksPerMessage(idle, start, rs + more);
    var q := DataGrows(rs, more);
    AtPrefix(start, p, q, |p|);
    PrefixFed(start, p, |p|);
    PrefixFed(start, p', |p'|);
    SameOpen(start, p, q, open, open');
    SameTime(rs, more, open);
  }

  lemma {:induction false} DataGrows(rs: seq<ConnRead>, more: seq<ConnRead>) returns (q: seq<byte>)
    ensures Data(rs + more) == Data(rs) + q
    decreases |more|
  {
    q := [];
    if more == [] {
      assert rs + more == rs;
    } else {
      var init, last := more[..|more| - 1], more[|more| - 1];
      assert rs + more == rs + init + [last];
      q := DataGrows(rs, init);
      DataSnoc(rs + init, last);
      q := q + Chunk(last);
    }
  }

  lemma SameOpen(l: Line, p: seq<byte>, q: seq<byte>, o: nat, o': nat)
    requires OpenSince(l, p, o) && OpenSince(l, p + q, o')
    requires forall k :: |p| <= k <= |p + q| ==> Partial(At(l, p + q, k))
    ensures o == o'
  {
    hide FeedLine, Partial, At;
    AtPrefix(l, p, q, o);
    if o' < |p| {
      AtPrefix(l, p, q, o');
    }
  }

  lemma {:induction false} SameTime(rs: seq<ConnRead>, more: seq<ConnRead>, o: nat)
    requires o < |Data(rs)|
    ensures TimeOf(rs + more, o) == TimeOf(rs, o) && o < |Data(rs + more)|
    decreases |more|
  {
    if more == [] {
      assert rs + more == rs;
    } else {
      var init, last := more[..|more| - 1], more[|more| - 1];
      assert rs + more == rs + init + [last];
      SameTime(rs, init, o);
      DataSnoc(rs + init, last);
      TimeSnoc(rs + init, last, o);
    }
  }
}
