/**
 The WebSocket stream framer (internal/edge/stream.go): the HTTP upgrade
 request, then frames, whatever the reads.

 `Run` is the reference, one byte at a time; `WsFramer.Feed` is the program's
 algorithm on a 14-byte header buffer, proved equal to `Run` on every read.
 */
module WsFraming {
  import opened Bytes
  import opened Options

  datatype Close = Open | Oversize | Malformed
  type Violation = c: Close | c != Open witness Oversize

  datatype Phase = Http(matched: nat, seen: nat) | Header(hdr: seq<byte>) | Payload(left: nat)

  /** What the framer notices: a unit began (the upgrade request or a frame),
      a frame header was accepted. */
  datatype Event = Began | Framed(op: nat)

  datatype Outcome = Go(phase: Phase, log: seq<Event>) | Stop(why: Violation, log: seq<Event>)

  const UPGRADE_MAX := 8192
  const WS_HTTP := 0
  const WS_HEAD := 1
  const WS_PAYLOAD := 2

  predicate IsData(op: nat) {
    op == 1 || op == 2
  }

  /** The shield charge of what was noticed: one per continuation or control
      frame. */
  function Charges(log: seq<Event>): nat {
    if log == [] then 0
    else Charges(log[..|log| - 1]) + match log[|log| - 1]
      case Began => 0
      case Framed(op) => if IsData(op) then 0 else 1
  }

  lemma {:induction false} ChargesConcat(a: seq<Event>, b: seq<Event>)
    ensures Charges(a + b) == Charges(a) + Charges(b)
    decreases |b|
  {
    if b == [] {
      assert a + b == a;
    } else {
      assert (a + b)[..|a + b| - 1] == a + b[..|b| - 1];
      ChargesConcat(a, b[..|b| - 1]);
    }
  }

  ghost predicate HasData(log: seq<Event>) {
    exists op :: IsData(op) && Framed(op) in log
  }

  // ---- The upgrade request ----------------------------------------------------

  /** One step of the program's CRLFCRLF automaton. */
  function Match(m: nat, b: byte): nat {
    if b == CR && (m == 0 || m == 2) then m + 1
    else if b == LF && (m == 1 || m == 3) then m + 1
    else if b == CR then 1
    else 0
  }

  /** The last j bytes of u are the first j of CRLFCRLF. */
  ghost predicate Matched(u: seq<byte>, j: nat) {
    j <= |u| && forall i :: 0 <= i < j ==> Fits(u, j, i)
  }

  predicate Fits(u: seq<byte>, j: nat, i: nat)
    requires i < j <= |u|
  {
    u[|u| - j + i] == if i % 2 == 0 then CR else LF
  }

  /** The length of the longest suffix of u that is a prefix of CRLFCRLF. */
  function Longest(u: seq<byte>): (k: nat)
    ensures k <= 4
  {
    var n := |u|;
    if EndsWithTerm(u) then 4
    else if n >= 3 && u[n - 3] == CR && u[n - 2] == LF && u[n - 1] == CR then 3
    else if n >= 2 && u[n - 2] == CR && u[n - 1] == LF then 2
    else if n >= 1 && u[n - 1] == CR then 1
    else 0
  }

  lemma LongestIsLongest(u: seq<byte>)
    ensures Matched(u, Longest(u))
    ensures forall j: nat :: j <= 4 && Matched(u, j) ==> j <= Longest(u)
  {
    forall j: nat | j <= 4 && Matched(u, j) ensures j <= Longest(u) {
      assert j > 0 ==> Fits(u, j, 0);
      assert (j > 1 ==> Fits(u, j, 1)) && (j > 2 ==> Fits(u, j, 2)) && (j > 3 ==> Fits(u, j, 3));
    }
  }

  /** The automaton tracks that length until it reaches four. */
  lemma MatchIsLongest(u: seq<byte>, b: byte)
    requires Longest(u) < 4
    ensures Match(Longest(u), b) == Longest(u + [b])
  {
    var v := u + [b];
    assert forall i :: 0 <= i < |u| ==> v[i] == u[i];
    assert v[|u|] == b;
  }

  // ---- Frame headers ------------------------------------------------------------

  /** The size of the frame header that starts with h, as far as h tells. */
  function Need(h: seq<byte>): (n: nat)
    ensures 2 <= n <= 14
  {
    if |h| < 2 then 2
    else
      2 + (if h[1] % 128 == 126 then 2 else if h[1] % 128 == 127 then 8 else 0)
        + (if h[1] >= 128 then 4 else 0)
  }

  function BigEndian(s: seq<byte>): nat {
    if s == [] then 0 else BigEndian(s[..|s| - 1]) * 256 + s[|s| - 1]
  }

  /** The payload length a complete header states (section 5.2 of RFC 6455). */
  function StatedLength(h: seq<byte>): nat
    requires |h| >= Need(h) && |h| >= 2
  {
    if h[1] % 128 == 126 then BigEndian(h[2..4])
    else if h[1] % 128 == 127 then BigEndian(h[2..10])
    else h[1] % 128
  }

  const TWO64: int := 0x1_0000_0000_0000_0000

  /** The 64-bit signed reading of x. */
  function Signed64(x: int): (r: int)
    ensures MIN_INT <= r <= MAX_INT
  {
    (x - MIN_INT) % TWO64 + MIN_INT
  }

  /** Shifting in one more byte commutes with the wrap. */
  lemma Signed64Shift(x: int, b: byte)
    ensures Signed64(Signed64(x) * 256 + b) == Signed64(x * 256 + b)
  {
    var k := (x - MIN_INT) / TWO64;
    assert Signed64(x) == x - TWO64 * k;
    SameResidue(x * 256 + b - MIN_INT, 256 * k);
    assert Signed64(x) * 256 + b - MIN_INT == x * 256 + b - MIN_INT - TWO64 * (256 * k);
  }

  lemma SameResidue(x: int, k: int)
    ensures (x - TWO64 * k) % TWO64 == x % TWO64
  {
    var q, r := x / TWO64, x % TWO64;
    var y := x - TWO64 * k;
    assert y == TWO64 * (q - k) + r;
    var q', r' := y / TWO64, y % TWO64;
    assert y == TWO64 * q' + r';
    assert TWO64 * (q - k - q') == r' - r;
  }

  /** Below 2^64 the reading is negative exactly past 2^63 - 1. */
  lemma Signed64Small(x: int)
    requires 0 <= x < TWO64
    ensures Signed64(x) == if x <= MAX_INT then x else x - TWO64
  {
    if x <= MAX_INT {
      SameResidue(x - MIN_INT, 0);
    } else {
      SameResidue(x - MIN_INT, 1);
    }
  }

  lemma BigEndianNext(s: seq<byte>, i: nat)
    requires i < |s|
    ensures BigEndian(s[..i + 1]) == BigEndian(s[..i]) * 256 + s[i]
  {
    assert s[..i + 1][..i] == s[..i];
  }

  lemma {:induction false} BigEndianBound(s: seq<byte>)
    requires |s| <= 8
    ensures BigEndian(s) <
      [1, 0x100, 0x1_0000, 0x100_0000, 0x1_0000_0000, 0x100_0000_0000, 0x1_0000_0000_0000, 0x100_0000_0000_0000, TWO64][|s|]
  {
    if s != [] {
      BigEndianBound(s[..|s| - 1]);
    }
  }

  // ---- The reference automaton ----------------------------------------------------

  /** A complete frame header: the frame is accepted when the length it states
      is within the cap. */
  function Accept(max: nat, h: seq<byte>): Outcome
    requires |h| >= 2 && |h| == Need(h)
  {
    var n := StatedLength(h);
    if n > max then Stop(Oversize, [])
    else Go(if n == 0 then Header([]) else Payload(n), [Framed(h[0] % 16)])
  }

  function Step(max: nat, phase: Phase, b: byte): Outcome {
    match phase
    case Http(m, seen) =>
      var log := if seen == 0 then [Began] else [];
      if Match(m, b) == 4 then Go(Header([]), log)
      else if seen + 1 > UPGRADE_MAX then Stop(Malformed, log)
      else Go(Http(Match(m, b), seen + 1), log)
    case Header(h) =>
      var h' := h + [b];
      LogPrefix(if h == [] then [Began] else [], if |h'| >= 2 && |h'| == Need(h') then Accept(max, h') else Go(Header(h'), []))
    case Payload(left) => Go(if left <= 1 then Header([]) else Payload(left - 1), [])
  }

  function LogPrefix(log: seq<Event>, o: Outcome): Outcome {
    o.(log := log + o.log)
  }

  function Run(max: nat, phase: Phase, p: seq<byte>): Outcome
    decreases |p|, 0
  {
    if p == [] then Go(phase, []) else Then(max, Step(max, phase, p[0]), p[1..])
  }

  function Then(max: nat, o: Outcome, p: seq<byte>): Outcome
    decreases |p|, 1
  {
    match o
    case Stop(_, _) => o
    case Go(phase, log) => LogPrefix(log, Run(max, phase, p))
  }

  lemma LogPrefixTwice(a: seq<Event>, b: seq<Event>, o: Outcome)
    ensures LogPrefix(a, LogPrefix(b, o)) == LogPrefix(a + b, o)
  {
    assert a + (b + o.log) == a + b + o.log;
  }

  lemma {:induction false} RunConcat(max: nat, phase: Phase, p: seq<byte>, q: seq<byte>)
    ensures Run(max, phase, p + q) == Then(max, Run(max, phase, p), q)
    decreases |p|
  {
    if p == [] {
      assert p + q == q;
      assert forall o: Outcome :: LogPrefix([], o) == o;
    } else {
      assert (p + q)[0] == p[0] && (p + q)[1..] == p[1..] + q;
      match Step(max, phase, p[0])
      case Stop(_, _) =>
      case Go(next, log) =>
        RunConcat(max, next, p[1..], q);
        match Run(max, next, p[1..])
        case Stop(_, _) =>
        case Go(last, more) => LogPrefixTwice(log, more, Run(max, last, q));
    }
  }

  // ---- Bulk steps -------------------------------------------------------------------

  lemma {:induction false} PayloadRun(max: nat, left: nat, q: seq<byte>)
    requires left > 0
    ensures Run(max, Payload(left), q) ==
      if |q| < left then Go(Payload(left - |q|), []) else Run(max, Header([]), q[left..])
    decreases |q|
  {
    if q != [] {
      assert forall o: Outcome :: LogPrefix([], o) == o;
      if left > 1 {
        PayloadRun(max, left - 1, q[1..]);
        if |q| >= left {
          assert q[1..][left - 1..] == q[left..];
        }
      }
    }
  }

  /** The buffer size the program waits for when it holds h. */
  function Waiting(h: seq<byte>): nat {
    if |h| < 2 then 2 else Need(h)
  }

  /** Header bytes m that do not complete the header. */
  lemma {:induction false} HeaderGrows(max: nat, h: seq<byte>, m: seq<byte>, rest: seq<byte>)
    requires |h + m| < Waiting(h)
    ensures Run(max, Header(h), m + rest) ==
      LogPrefix(if h == [] && m != [] then [Began] else [], Run(max, Header(h + m), rest))
    decreases |m|
  {
    hide Accept, StatedLength;
    if m == [] {
      assert m + rest == rest && h + m == h;
      assert forall o: Outcome :: LogPrefix([], o) == o;
    } else {
      var q, h' := m + rest, h + [m[0]];
      assert h + m == h' + m[1..];
      assert q[0] == m[0] && q[1..] == m[1..] + rest;
      var log := if h == [] then [Began] else [];
      assert log + [] == log;
      assert Step(max, Header(h), q[0]) == Go(Header(h'), log);
      HeaderGrows(max, h', m[1..], rest);
      assert forall o: Outcome :: LogPrefix([], o) == o;
    }
  }

  /** The bytes that fill the buffer to the size waited for. */
  lemma HeaderFills(max: nat, h: seq<byte>, m: seq<byte>, rest: seq<byte>)
    requires |h| < |h + m| == Waiting(h)
    ensures |h + m| <= Need(h + m)
    ensures Run(max, Header(h), m + rest) ==
      LogPrefix(if h == [] then [Began] else [],
        if |h + m| == Need(h + m) then Then(max, Accept(max, h + m), rest) else Run(max, Header(h + m), rest))
  {
    var k := |m| - 1;
    var init, b := m[..k], m[k];
    var tail := [b] + rest;
    assert m + rest == init + tail && tail[0] == b && tail[1..] == rest;
    assert h + init + [b] == h + m;
    HeaderGrows(max, h, init, tail);
    HeaderLast(max, h + init, b, rest);
    var first := if h == [] && init != [] then [Began] else [];
    var last := if h + init == [] then [Began] else [];
    assert first + last == if h == [] then [Began] else [];
    LogPrefixTwice(first, last,
      if |h + m| == Need(h + m) then Then(max, Accept(max, h + m), rest) else Run(max, Header(h + m), rest));
  }

  lemma HeaderLast(max: nat, h: seq<byte>, b: byte, rest: seq<byte>)
    requires |h + [b]| >= 2
    ensures Run(max, Header(h), [b] + rest) ==
      LogPrefix(if h == [] then [Began] else [],
        if |h + [b]| == Need(h + [b]) then Then(max, Accept(max, h + [b]), rest) else Run(max, Header(h + [b]), rest))
  {
    var q, h', log := [b] + rest, h + [b], if h == [] then [Began] else [];
    assert q[0] == b && q[1..] == rest;
    if |h'| == Need(h') {
      match Accept(max, h')
      case Stop(_, _) =>
      case Go(next, more) => LogPrefixTwice(log, more, Run(max, next, rest));
    } else {
      assert log + [] == log;
    }
  }

  // ---- The program's framer ------------------------------------------------------------

  class WsFramer {
    const max: nat
    var state: int
    var matched: nat
    var seen: nat
    const hdr: array<byte>
    var hn: nat
    var need: nat
    var left: nat
    var began: bool
    var data: bool

    ghost predicate Valid()
      reads this, hdr
    {
      && hdr.Length == 14 && max <= MAX_INT
      && (state == WS_HTTP || state == WS_HEAD || state == WS_PAYLOAD)
      && (state == WS_HTTP ==> matched < 4)
      && (state == WS_HEAD ==> hn < need <= 14 && need == Waiting(hdr[..hn]))
      && (state == WS_PAYLOAD ==> left > 0 && hn == 0 && need == 2)
    }

    ghost function Abstract(): Phase
      requires Valid()
      reads this, hdr
    {
      if state == WS_HTTP then Http(matched, seen)
      else if state == WS_HEAD then Header(hdr[..hn])
      else Payload(left)
    }

    constructor (max: nat)
      requires max <= MAX_INT
      ensures Valid() && fresh(hdr) && Abstract() == Http(0, 0) && this.max == max
    {
      this.max := max;
      state, matched, seen, hn, need, left, began, data := WS_HTTP, 0, 0, 0, 0, 0, false, false;
      hdr := new byte[14](_ => 0);
    }

    /** partial: the upgrade request or a frame has begun and not completed. */
    predicate Partial()
      reads this
    {
      if state == WS_HTTP then seen > 0 else if state == WS_HEAD then hn > 0 else true
    }

    /** The length field of a complete header, read as the program reads it:
        into a signed 64-bit integer. */
    method ReadLength() returns (n: int)
      requires hdr.Length == 14 && 2 <= hn <= 14 && hn == Need(hdr[..hn])
      ensures 0 <= n ==> n == StatedLength(hdr[..hn])
      ensures n < 0 <==> StatedLength(hdr[..hn]) > MAX_INT
    {
      hide Signed64;
      ghost var h := hdr[..hn];
      n := hdr[1] % 128;
      if n == 126 {
        var hi: int, lo: int := hdr[2], hdr[3];
        n := hi * 256 + lo;
        assert h[2..4][..1] == [h[2]] && h[2..4][..1][..0] == [];
        assert BigEndian(h[2..4][..1]) == h[2];
      } else if n == 127 {
        n := 0;
        ghost var field := h[2..10];
        Signed64Small(0);
        assert BigEndian(field[..0]) == 0;
        for i := 2 to 10
          invariant n == Signed64(BigEndian(field[..i - 2]))
        {
          BigEndianNext(field, i - 2);
          assert hdr[i] == h[i] == field[i - 2];
          Signed64Shift(BigEndian(field[..i - 2]), hdr[i]);
          n := Signed64(n * 256 + hdr[i]);
        }
        assert field[..8] == field;
        BigEndianBound(field);
        Signed64Small(BigEndian(field));
      }
    }

    /** One byte of the upgrade request. */
    method FeedHttp(b: byte) returns (bad: Close)
      requires Valid() && state == WS_HTTP
      modifies this
      ensures began == (old(began) || old(seen) == 0) && data == old(data)
      ensures match Step(max, old(Abstract()), b)
        case Go(next, log) => bad == Open && Valid() && Abstract() == next
        case Stop(why, log) => bad == why
    {
      bad := Open;
      if seen == 0 {
        began := true;
      }
      seen := seen + 1;
      if b == CR && (matched == 0 || matched == 2) {
        matched := matched + 1;
      } else if b == LF && (matched == 1 || matched == 3) {
        matched := matched + 1;
      } else if b == CR {
        matched := 1;
      } else {
        matched := 0;
      }
      if matched == 4 {
        state, seen, hn, need := WS_HEAD, 0, 0, 2;
      } else if seen > UPGRADE_MAX {
        bad := Malformed;
      }
    }

    /** Buffers header bytes up to the size waited for. */
    method Buffer(q: seq<byte>) returns (rest: seq<byte>)
      requires Valid() && state == WS_HEAD && q != []
      modifies this`hn, this`began, hdr
      ensures hdr.Length == 14 && hn <= need
      ensures began == (old(began) || old(hn) == 0)
      ensures |rest| < |q| && rest == q[|q| - |rest|..]
      ensures hdr[..hn] == old(hdr[..hn]) + q[..|q| - |rest|]
      ensures hn < need ==> rest == []
    {
      if hn == 0 {
        began := true;
      }
      var take := if need - hn < |q| then need - hn else |q|;
      ghost var before := hdr[..hn];
      forall i | 0 <= i < take {
        hdr[hn + i] := q[i];
      }
      hn := hn + take;
      ghost var all := before + q[..take];
      assert |all| == hn;
      forall j | 0 <= j < hn ensures hdr[..hn][j] == all[j] {
        if |before| <= j {
          assert all[j] == q[j - |before|] == hdr[|before| + (j - |before|)];
        } else {
          assert all[j] == before[j] == hdr[j];
        }
      }
      return q[take..];
    }

    /** Two bytes in, the header's size is known: the extended length, then
        the mask key. */
    method Extend()
      requires hdr.Length == 14 && hn == need == 2
      modifies this`need
      ensures need == Need(hdr[..hn])
    {
      if hdr[1] % 128 == 126 {
        need := need + 2;
      } else if hdr[1] % 128 == 127 {
        need := need + 8;
      }
      if hdr[1] >= 128 {
        need := need + 4;
      }
    }

    /** A complete frame header: charges for a continuation or control frame
        and turns to the payload, unless the length is over the cap. */
    method AcceptFrame() returns (charge: nat, bad: Close)
      requires hdr.Length == 14 && max <= MAX_INT && 2 <= hn <= 14 && hn == Need(hdr[..hn])
      modifies this`state, this`hn, this`need, this`left, this`data
      ensures match Accept(max, old(hdr[..hn]))
        case Go(next, log) =>
          bad == Open && Valid() && Abstract() == next && charge == Charges(log) && (data <==> old(data) || HasData(log))
        case Stop(why, log) => bad == why && charge == 0 && data == old(data)
    {
      ghost var h := hdr[..hn];
      var n := ReadLength();
      if n < 0 || n > max {
        return 0, Oversize;
      }
      var op := hdr[0] % 16;
      OneFramed(op);
      charge, bad := 0, Open;
      if op == 1 || op == 2 {
        data := true;
      } else {
        charge := 1;
      }
      hn, need, left := 0, 2, n;
      state := if n == 0 then WS_HEAD else WS_PAYLOAD;
      assert n == 0 ==> hdr[..hn] == [];
    }

    /** One turn of the loop inside a frame header. */
    method FeedHeader(q: seq<byte>) returns (rest: seq<byte>, charge: nat, ghost log: seq<Event>, bad: Close)
      requires Valid() && state == WS_HEAD && q != []
      modifies this, hdr
      ensures |rest| < |q| && rest == q[|q| - |rest|..]
      ensures charge == Charges(log) && began == (old(began) || Began in log) && (data <==> old(data) || HasData(log))
      ensures bad != Open ==> Run(max, old(Abstract()), q) == Stop(bad, log)
      ensures bad == Open ==> Valid() && Run(max, old(Abstract()), q) == LogPrefix(log, Run(max, Abstract(), rest))
    {
      hide Run, Then, Accept, Charges, HasData, IsData, LogPrefix, BigEndian, StatedLength;
      ghost var h := hdr[..hn];
      rest := Buffer(q);
      ghost var m := q[..|q| - |rest|];
      assert q == m + rest;
      log := if h == [] then [Began] else [];
      BeganOnly(log);
      if hn < need {
        HeaderGrows(max, h, m, []);
        assert m + [] == m;
        return rest, 0, log, Open;
      }
      HeaderFills(max, h, m, rest);
      if need == 2 {
        Extend();
        if hn < need {
          return rest, 0, log, Open;
        }
      }
      var cost;
      cost, bad := AcceptFrame();
      ghost var accepted := Accept(max, h + m);
      AcceptedLog(max, h + m, log, rest);
      log := log + accepted.log;
      charge := cost;
    }

    method FeedPayload(q: seq<byte>) returns (rest: seq<byte>)
      requires Valid() && state == WS_PAYLOAD && q != []
      modifies this`state, this`left
      ensures Valid()
      ensures |rest| < |q| && rest == q[|q| - |rest|..]
      ensures Run(max, old(Abstract()), q) == Run(max, Abstract(), rest)
    {
      var take := if left < |q| then left else |q|;
      PayloadRun(max, left, q);
      left := left - take;
      rest := q[take..];
      if left == 0 {
        state := WS_HEAD;
        assert hdr[..hn] == [];
      }
    }

    /** One read: it follows the reference automaton. */
    method Feed(p: seq<byte>) returns (charges: nat, bad: Close)
      requires Valid()
      modifies this, hdr
      ensures match Run(max, old(Abstract()), p)
        case Go(phase, log) => bad == Open && Valid() && Abstract() == phase
        case Stop(why, log) => bad == why
      ensures var log := Run(max, old(Abstract()), p).log;
        charges == Charges(log) && began == (Began in log) && (data <==> HasData(log))
    {
      hide Charges, HasData, IsData;
      EmptyLog();
      charges, began, data, bad := 0, false, false, Open;
      var q := p;
      ghost var whole := Run(max, Abstract(), p);
      ghost var log: seq<Event> := [];
      while |q| > 0
        invariant Valid() && bad == Open
        invariant whole == LogPrefix(log, Run(max, Abstract(), q))
        invariant charges == Charges(log) && began == (Began in log) && (data <==> HasData(log))
        decreases |q|
      {
        if state == WS_HTTP {
          ghost var o := Step(max, Abstract(), q[0]);
          AfterStep(max, Abstract(), q, log);
          bad := FeedHttp(q[0]);
          q := q[1..];
          log := log + o.log;
        } else if state == WS_HEAD {
          ghost var more;
          var cost;
          q, cost, more, bad := FeedHeader(q);
          charges := charges + cost;
          LogAppend(log, more);
          LogPrefixTwice(log, more, if bad == Open then Run(max, Abstract(), q) else Stop(bad, []));
          log := log + more;
        } else {
          q := FeedPayload(q);
        }
        if bad != Open {
          return;
        }
      }
      assert log + [] == log;
    }
  }

  lemma EmptyLog()
    ensures Charges([]) == 0 && !HasData([])
  {
  }

  lemma LogAppend(log: seq<Event>, more: seq<Event>)
    ensures Charges(log + more) == Charges(log) + Charges(more)
    ensures Began in log + more <==> Began in log || Began in more
    ensures HasData(log + more) <==> HasData(log) || HasData(more)
  {
    ChargesConcat(log, more);
    assert forall e: Event :: e in log + more <==> e in log || e in more;
  }

  lemma AfterStep(max: nat, phase: Phase, q: seq<byte>, log: seq<Event>)
    requires q != [] && phase.Http?
    ensures var o := Step(max, phase, q[0]);
      && o.log == (if phase.seen == 0 then [Began] else [])
      && Charges(log + o.log) == Charges(log)
      && (Began in log + o.log <==> Began in log || phase.seen == 0)
      && (HasData(log + o.log) <==> HasData(log))
      && LogPrefix(log, Run(max, phase, q)) ==
        if o.Go? then LogPrefix(log + o.log, Run(max, o.phase, q[1..])) else Stop(o.why, log + o.log)
  {
    var o := Step(max, phase, q[0]);
    LogAppend(log, o.log);
    BeganOnly(o.log);
    if o.Go? {
      LogPrefixTwice(log, o.log, Run(max, o.phase, q[1..]));
    }
  }

  lemma OneFramed(op: nat)
    ensures Charges([Framed(op)]) == if IsData(op) then 0 else 1
    ensures HasData([Framed(op)]) <==> IsData(op)
  {
    var log := [Framed(op)];
    assert log[..0] == [] && Charges(log[..0]) == 0;
    assert Framed(op) in log;
  }

  lemma BeganOnly(log: seq<Event>)
    requires log == [] || log == [Began]
    ensures Charges(log) == 0 && !HasData(log)
  {
    assert log != [] ==> log[..0] == [];
  }

  lemma AcceptedLog(max: nat, h: seq<byte>, log: seq<Event>, rest: seq<byte>)
    requires |h| >= 2 && |h| == Need(h)
    requires log == [] || log == [Began]
    ensures var a := Accept(max, h);
      && Charges(log + a.log) == Charges(a.log)
      && (Began in log + a.log <==> Began in log)
      && (HasData(log + a.log) <==> HasData(a.log))
      && (a.Go? ==> LogPrefix(log, Then(max, a, rest)) == LogPrefix(log + a.log, Run(max, a.phase, rest)))
      && (a.Stop? ==> LogPrefix(log, Then(max, a, rest)) == Stop(a.why, log + a.log))
      && (a.Stop? ==> a.why != Open && Charges(a.log) == 0 && !HasData(a.log))
  {
    var a := Accept(max, h);
    BeganOnly(log);
    ChargesConcat(log, a.log);
    if a.Go? {
      LogPrefixTwice(log, a.log, Run(max, a.phase, rest));
    }
  }

  // ---- Theorems over whole streams -------------------------------------------------------

  /** The framer over the reads of a connection. */
  datatype Session = Session(outcome: Outcome, charges: nat)

  function Reads(max: nat, chunks: seq<seq<byte>>): Session {
    if chunks == [] then Session(Go(Http(0, 0), []), 0)
    else
      var before := Reads(max, chunks[..|chunks| - 1]);
      match before.outcome
      case Stop(_, _) => before
      case Go(phase, log) =>
        var o := Run(max, phase, chunks[|chunks| - 1]);
        Session(LogPrefix(log, o), before.charges + Charges(o.log))
  }

  /** Whatever the reads, a connection goes through what one read of all its
      bytes would, for the same total charge. */
  lemma {:induction false} ChunkIndependence(max: nat, chunks: seq<seq<byte>>)
    ensures Reads(max, chunks).outcome == Run(max, Http(0, 0), Flatten(chunks))
    ensures Reads(max, chunks).charges == Charges(Run(max, Http(0, 0), Flatten(chunks)).log)
    decreases |chunks|
  {
    if chunks != [] {
      var init, p := chunks[..|chunks| - 1], chunks[|chunks| - 1];
      ChunkIndependence(max, init);
      RunConcat(max, Http(0, 0), Flatten(init), p);
      match Run(max, Http(0, 0), Flatten(init))
      case Stop(_, _) =>
      case Go(phase, log) => ChargesConcat(log, Run(max, phase, p).log);
    }
  }

  /** The upgrade request ends at its first CRLFCRLF: as long as there is none
      the framer has counted every byte, and its progress is the longest suffix
      that is a prefix of CRLFCRLF. */
  lemma {:induction false} UpgradeProgress(max: nat, u: seq<byte>)
    requires NoTerm(u)
    ensures match Run(max, Http(0, 0), u)
      case Go(phase, log) => |u| <= UPGRADE_MAX && phase == Http(Longest(u), |u|) && Longest(u) < 4
      case Stop(why, log) => |u| > UPGRADE_MAX && why == Malformed
    decreases |u|
  {
    if u != [] {
      var v, b := u[..|u| - 1], u[|u| - 1];
      assert u == v + [b];
      assert forall i :: TermAt(v, i) ==> TermAt(u, i);
      UpgradeProgress(max, v);
      RunConcat(max, Http(0, 0), v, [b]);
      if |v| <= UPGRADE_MAX {
        MatchIsLongest(v, b);
        RunOne(max, Http(Longest(v), |v|), b);
      }
    }
  }

  /** An upgrade request without its end is refused from the 8193rd byte on. */
  lemma UpgradeRefusedIff(max: nat, u: seq<byte>)
    requires NoTerm(u)
    ensures Run(max, Http(0, 0), u).Stop? <==> |u| > 8192
    ensures |u| > 8192 ==> Run(max, Http(0, 0), u).why == Malformed
  {
    UpgradeProgress(max, u);
  }

  lemma RunOne(max: nat, phase: Phase, b: byte)
    ensures Run(max, phase, [b]) == Step(max, phase, b)
  {
    var p := [b];
    var o := Step(max, phase, b);
    assert p[0] == b && p[1..] == [] && o.log + [] == o.log;
    if o.Go? {
      assert Run(max, o.phase, p[1..]) == Go(o.phase, []);
    }
  }

  lemma UpgradeEnds(max: nat, u: seq<byte>)
    requires EndsAtFirstTerm(u) && |u| <= UPGRADE_MAX + 1
    ensures Run(max, Http(0, 0), u).Go? && Run(max, Http(0, 0), u).phase == Header([])
  {
    var v, b := u[..|u| - 1], u[|u| - 1];
    assert u == v + [b];
    assert forall i :: TermAt(v, i) ==> TermAt(u, i);
    UpgradeProgress(max, v);
    RunConcat(max, Http(0, 0), v, [b]);
    MatchIsLongest(v, b);
    RunOne(max, Http(Longest(v), |v|), b);
  }

  /** A frame on the wire: a complete header, then the payload it states. */
  datatype Frame = Frame(hdr: seq<byte>, payload: seq<byte>)

  ghost predicate Framable(max: nat, fr: Frame) {
    |fr.hdr| >= 2 && |fr.hdr| == Need(fr.hdr) && StatedLength(fr.hdr) == |fr.payload| <= max
  }

  function WireFrames(frs: seq<Frame>): seq<byte> {
    if frs == [] then [] else frs[0].hdr + frs[0].payload + WireFrames(frs[1..])
  }

  function Opcode(fr: Frame): nat {
    if fr.hdr == [] then 0 else fr.hdr[0] % 16
  }

  function FrameLog(frs: seq<Frame>): seq<Event> {
    if frs == [] then [] else [Began, Framed(Opcode(frs[0]))] + FrameLog(frs[1..])
  }

  lemma OneFrame(max: nat, fr: Frame, rest: seq<byte>)
    requires Framable(max, fr)
    ensures Run(max, Header([]), fr.hdr + fr.payload + rest) ==
      LogPrefix([Began, Framed(Opcode(fr))], Run(max, Header([]), rest))
  {
    var h, body := fr.hdr, fr.payload + rest;
    assert h + fr.payload + rest == h + body;
    HeaderRun(max, h, body);
    AcceptedLog(max, h, [Began], body);
    OnePayload(max, fr.payload, rest);
  }

  /** A whole header from between two frames, then body. */
  lemma HeaderRun(max: nat, h: seq<byte>, body: seq<byte>)
    requires |h| >= 2 && |h| == Need(h)
    ensures Run(max, Header([]), h + body) == LogPrefix([Began], Then(max, Accept(max, h), body))
  {
    hide Run, Then, Accept;
    var two, more := h[..2], h[2..];
    assert h + body == two + (more + body) && [] + two == two;
    HeaderFills(max, [], two, more + body);
    if |h| == 2 {
      assert two == h && more + body == body;
    } else {
      assert two + more == h && Need(two) == Need(h);
      HeaderFills(max, two, more, body);
      LogPrefixTwice([Began], [], Then(max, Accept(max, h), body));
    }
  }

  lemma OnePayload(max: nat, payload: seq<byte>, rest: seq<byte>)
    ensures Run(max, if payload == [] then Header([]) else Payload(|payload|), payload + rest) == Run(max, Header([]), rest)
  {
    if payload == [] {
      assert payload + rest == rest;
    } else {
      PayloadRun(max, |payload|, payload + rest);
      assert (payload + rest)[|payload|..] == rest;
    }
  }

  /** Frames within the cap are each noticed once, in order, and leave the
      framer between frames, whatever form their lengths take. */
  lemma {:induction false} FramesRoundTrip(max: nat, frs: seq<Frame>)
    requires forall fr <- frs :: Framable(max, fr)
    ensures Run(max, Header([]), WireFrames(frs)) == Go(Header([]), FrameLog(frs))
    decreases |frs|
  {
    if frs != [] {
      OneFrame(max, frs[0], WireFrames(frs[1..]));
      FramesRoundTrip(max, frs[1..]);
    }
  }

  /** A frame over the cap is refused as soon as its header is complete. */
  lemma FrameRefusedIff(max: nat, h: seq<byte>)
    requires |h| >= 2 && |h| == Need(h)
    ensures Run(max, Header([]), h).Stop? <==> StatedLength(h) > max
  {
    assert h + [] == h;
    HeaderRun(max, h, []);
  }

  // ---- Frames by their layout ---------------------------------------------------------

  /** How a payload length is written: in 7, 16 or 64 bits. */
  datatype LengthForm = Short | Medium | Long

  /** A frame as section 5.2 of RFC 6455 lays it out: the first byte, whose low
      four bits are the opcode, a mask key or none, the form of the length, and the
      payload. */
  datatype WireFrame = WireFrame(first: byte, key: Option<seq<byte>>, form: LengthForm, payload: seq<byte>)

  ghost predicate Sendable(max: nat, fr: WireFrame) {
    && (fr.key.Some? ==> |fr.key.value| == 4) && |fr.payload| <= max <= MAX_INT
    && match fr.form
       case Short => |fr.payload| < 126
       case Medium => |fr.payload| < 0x1_0000
       case Long => true
  }

  /** n in k bytes, the most significant first. */
  function InBytes(n: nat, k: nat): (s: seq<byte>)
    ensures |s| == k
  {
    if k == 0 then [] else InBytes(n / 256, k - 1) + [n % 256]
  }

  /** Mask bit and short length, then the length bytes there are, then the key
      there is. */
  function Head(fr: WireFrame): seq<byte> {
    var mask := if fr.key.Some? then 128 else 0;
    var length := match fr.form
      case Short => [mask + |fr.payload| % 128]
      case Medium => [mask + 126] + InBytes(|fr.payload|, 2)
      case Long => [mask + 127] + InBytes(|fr.payload|, 8);
    [fr.first] + length + if fr.key.Some? then fr.key.value else []
  }

  function Encode(frs: seq<WireFrame>): seq<byte> {
    if frs == [] then [] else Head(frs[0]) + frs[0].payload + Encode(frs[1..])
  }

  /** A frame begins, and its header is accepted, once each and in order. */
  function Noticed(frs: seq<WireFrame>): seq<Event> {
    if frs == [] then [] else [Began, Framed(frs[0].first % 16)] + Noticed(frs[1..])
  }

  /** The frames that are neither text (1) nor binary (2). */
  function Others(frs: seq<WireFrame>): nat {
    if frs == [] then 0 else (if frs[0].first % 16 == 1 || frs[0].first % 16 == 2 then 0 else 1) + Others(frs[1..])
  }

  lemma {:induction false} InBytesValue(n: nat, k: nat)
    requires n < Pow256(k)
    ensures BigEndian(InBytes(n, k)) == n
  {
    if k > 0 {
      InBytesValue(n / 256, k - 1);
      var s := InBytes(n, k);
      assert s[..k - 1] == InBytes(n / 256, k - 1) && s[k - 1] == n % 256;
    }
  }

  function Pow256(k: nat): nat {
    if k == 0 then 1 else 256 * Pow256(k - 1)
  }

  lemma PowersOf256()
    ensures Pow256(2) == 0x1_0000 && Pow256(8) == TWO64
  {
    assert Pow256(1) == 256 && Pow256(3) == 0x100_0000 && Pow256(4) == 0x1_0000_0000;
    assert Pow256(5) == 0x100_0000_0000 && Pow256(6) == 0x1_0000_0000_0000 && Pow256(7) == 0x100_0000_0000_0000;
  }

  /** The layout's header is as long as the framer takes it to be, and states the
      payload's length. */
  lemma HeadIs(max: nat, fr: WireFrame)
    requires Sendable(max, fr)
    ensures var h := Head(fr);
      |h| >= 2 && |h| == Need(h) && StatedLength(h) == |fr.payload| && h[0] == fr.first
  {
    hide BigEndian, InBytes, Pow256;
    var h, n := Head(fr), |fr.payload|;
    PowersOf256();
    match fr.form
    case Short =>
    case Medium =>
      InBytesValue(n, 2);
      assert h[2..4] == InBytes(n, 2);
    case Long =>
      InBytesValue(n, 8);
      assert h[2..10] == InBytes(n, 8);
  }

  /** Any frames within the cap, masked or not and whatever form their lengths
      take, are read one after another: each is noticed once, under its opcode,
      nothing of one is taken for the next, and the framer ends between frames. */
  lemma {:induction false} FramesDecode(max: nat, frs: seq<WireFrame>)
    requires forall fr <- frs :: Sendable(max, fr)
    ensures Run(max, Header([]), Encode(frs)) == Go(Header([]), Noticed(frs))
    decreases |frs|
  {
    hide Run, Head, StatedLength;
    if frs == [] {
      RunNothing(max);
    } else {
      assert frs[0] in frs;
      HeadIs(max, frs[0]);
      OneFrame(max, Frame(Head(frs[0]), frs[0].payload), Encode(frs[1..]));
      FramesDecode(max, frs[1..]);
    }
  }

  lemma RunNothing(max: nat)
    ensures Run(max, Header([]), []) == Go(Header([]), [])
  {
  }

  /** Of such frames just those that are neither text nor binary are charged. */
  lemma {:induction false} FramesCharged(frs: seq<WireFrame>)
    ensures Charges(Noticed(frs)) == Others(frs)
    ensures HasData(Noticed(frs)) <==> exists fr <- frs :: fr.first % 16 == 1 || fr.first % 16 == 2
    decreases |frs|
  {
    hide Charges, HasData;
    if frs == [] {
      EmptyLog();
    } else {
      var op := frs[0].first % 16;
      FramesCharged(frs[1..]);
      LogAppend([Began, Framed(op)], Noticed(frs[1..]));
      LogAppend([Began], [Framed(op)]);
      assert [Began] + [Framed(op)] == [Began, Framed(op)];
      BeganCostsNothing();
      OneFramed(op);
      assert frs == [frs[0]] + frs[1..];
    }
  }

  lemma BeganCostsNothing()
    ensures Charges([Began]) == 0 && !HasData([Began])
  {
    assert [Began][..0] == [];
  }

  /** Frames, then one whose payload exceeds the cap: the connection is closed at
      its header. */
  lemma FrameTooLong(max: nat, frs: seq<WireFrame>, fr: WireFrame, rest: seq<byte>)
    requires max <= MAX_INT && (forall f <- frs :: Sendable(max, f)) && Sendable(MAX_INT, fr) && |fr.payload| > max
    ensures Run(max, Header([]), Encode(frs) + (Head(fr) + rest)) == Stop(Oversize, Noticed(frs) + [Began])
  {
    hide Run, Head, Encode, Noticed, StatedLength;
    FramesDecode(max, frs);
    HeadIs(MAX_INT, fr);
    RunConcat(max, Header([]), Encode(frs), Head(fr) + rest);
    HeaderRun(max, Head(fr), rest);
  }

  /** A whole connection: the upgrade request, then frames. */
  lemma ConnectionDecodes(max: nat, u: seq<byte>, frs: seq<WireFrame>)
    requires EndsAtFirstTerm(u) && |u| <= 8193 && forall fr <- frs :: Sendable(max, fr)
    ensures Run(max, Http(0, 0), u + Encode(frs)) == Go(Header([]), [Began] + Noticed(frs))
  {
    hide Run, Encode, Noticed, EndsAtFirstTerm;
    UpgradeEnds(max, u);
    UpgradeLog(max, u);
    FramesDecode(max, frs);
    RunConcat(max, Http(0, 0), u, Encode(frs));
  }

  lemma UpgradeLog(max: nat, u: seq<byte>)
    requires EndsAtFirstTerm(u) && Run(max, Http(0, 0), u).Go? && Run(max, Http(0, 0), u).phase == Header([])
    ensures Run(max, Http(0, 0), u).log == [Began]
  {
    var v, b := u[..|u| - 1], u[|u| - 1];
    assert u == v + [b] && u[0] == v[0];
    assert forall i :: TermAt(v, i) ==> TermAt(u, i);
    UpgradeProgress(max, v);
    RunConcat(max, Http(0, 0), v, [b]);
    BeganFirst(max, v);
    RunOne(max, Run(max, Http(0, 0), v).phase, b);
  }

  lemma {:induction false} BeganFirst(max: nat, v: seq<byte>)
    requires NoTerm(v) && |v| <= UPGRADE_MAX
    ensures Run(max, Http(0, 0), v).Go? && Run(max, Http(0, 0), v).log == if v == [] then [] else [Began]
    decreases |v|
  {
    if v != [] {
      var init, b := v[..|v| - 1], v[|v| - 1];
      assert v == init + [b];
      assert forall i :: TermAt(init, i) ==> TermAt(v, i);
      UpgradeProgress(max, init);
      UpgradeProgress(max, v);
      BeganFirst(max, init);
      RunConcat(max, Http(0, 0), init, [b]);
      RunOne(max, Run(max, Http(0, 0), init).phase, b);
    }
  }
}
