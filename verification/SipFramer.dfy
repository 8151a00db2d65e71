/**
 The SIP stream framer (internal/edge/stream.go): it follows message
 boundaries in the bytes of a stream connection, whatever the reads.

 `Run` is the reference: a byte-at-a-time automaton. `SipFramer.Feed` is the
 program's bulk algorithm, proved equal to `Run` on every read; the theorems
 about whole streams are then statements about `Run`.
 */
module SipFraming {
  import opened Bytes
  import opened Options

  /** The violations a framer reports. */
  datatype Close = Open | Oversize | Malformed
  type Violation = c: Close | c != Open witness Oversize

  /** Where the framer stands between two bytes. */
  datatype Phase = Idle | Head(head: seq<byte>) | Body(left: nat)

  /** Outcome of feeding some bytes: the offsets at which messages started,
      and the phase reached or the first violation. */
  datatype Outcome =
    | Go(phase: Phase, starts: seq<nat>)
    | Stop(why: Violation, starts: seq<nat>)

  // ---- Content-Length -----------------------------------------------------

  /** `bytes.SplitSeq(s, "\r\n")`, the current line starting at `from`. */
  function SplitLines(s: seq<byte>, from: nat, at: nat): (r: seq<seq<byte>>)
    requires from <= at <= |s|
    ensures |r| >= 1
    decreases |s| - at
  {
    if at + 2 > |s| then [s[from..]]
    else if s[at] == CR && s[at + 1] == LF then [s[from..at]] + SplitLines(s, at + 2, at + 2)
    else SplitLines(s, from, at + 1)
  }

  /** What a line says about the body length: nothing when it is not a
      Content-Length line, else its number, or none when the framer accepts no
      such number. A continuation line says nothing. */
  function LengthField(line: seq<byte>): Option<Option<nat>> {
    if line == [] || line[0] == SP || line[0] == TAB then None
    else
      var colon := IndexByte(line, COLON, 0);
      if colon < 0 then None
      else if !IsLengthName(line[..colon]) then None
      else Some(LengthNumber(line[colon + 1..]))
  }

  predicate IsLengthName(name: seq<byte>) {
    var trimmed := TrimSpace(name);
    Named(trimmed, "content-length") || Named(trimmed, "l")
  }

  /** The number a Content-Length value spells, if the framer accepts it. */
  function LengthNumber(value: seq<byte>): Option<nat> {
    match Atoi(TrimSpace(value))
    case None => None
    case Some(v) => if v < 0 then None else Some(v)
  }

  type Field = seq<byte> -> Option<Option<nat>>

  /** The values a field has in the first k lines, in order. */
  function Values(field: Field, lines: seq<seq<byte>>, k: nat): (r: seq<Option<nat>>)
    requires k <= |lines|
  {
    if k == 0 then []
    else
      Values(field, lines, k - 1) +
      match field(lines[k - 1])
      case None => []
      case Some(v) => [v]
  }

  lemma {:induction false} ValuesPrefix(field: Field, lines: seq<seq<byte>>, j: nat, k: nat)
    requires j <= k <= |lines|
    ensures Values(field, lines, j) <= Values(field, lines, k)
  {
    if j < k {
      ValuesPrefix(field, lines, j, k - 1);
    }
  }

  /** What the values agree on: 0 when there is none, the common value when
      each is the same number. */
  function Agreed(vs: seq<Option<nat>>): Option<nat> {
    if vs == [] then Some(0)
    else if forall i | 0 <= i < |vs| :: vs[i].Some? && vs[i] == vs[0] then vs[0]
    else None
  }

  lemma AgreedSnoc(vs: seq<Option<nat>>, v: Option<nat>)
    ensures Agreed(vs + [v]) == if vs == [] || Agreed(vs) == v then v else None
  {
    var ws := vs + [v];
    assert ws[|vs|] == v;
    assert vs != [] ==> ws[0] == vs[0];
    assert forall i | 0 <= i < |vs| :: ws[i] == vs[i];
  }

  lemma AgreedClash(field: Field, lines: seq<seq<byte>>, k: nat)
    requires k <= |lines| && Agreed(Values(field, lines, k)) == None
    ensures Agreed(Values(field, lines, |lines|)) == None
  {
    ValuesPrefix(field, lines, k, |lines|);
    var vs, ws := Values(field, lines, k), Values(field, lines, |lines|);
    var i :| 0 <= i < |vs| && !(vs[i].Some? && vs[i] == vs[0]);
    assert ws[i] == vs[i] && ws[0] == vs[0];
  }

  /** The body length a header block declares. */
  function DeclaredLength(head: seq<byte>): Option<nat> {
    var lines := SplitLines(head, 0, 0);
    Agreed(Values(LengthField, lines, |lines|))
  }

  /** contentLength. */
  method ContentLength(head: seq<byte>) returns (n: nat, ok: bool)
    ensures DeclaredLength(head) == if ok then Some(n) else None
  {
    n, ok := AgreedValue(SplitLines(head, 0, 0), LengthField);
  }

  /** The loop of contentLength: one pass over the lines, remembering the
      value seen so far. */
  method AgreedValue(lines: seq<seq<byte>>, field: Field) returns (n: nat, ok: bool)
    ensures Agreed(Values(field, lines, |lines|)) == if ok then Some(n) else None
  {
    var seen := false;
    n := 0;
    for k := 0 to |lines|
      invariant seen <==> Values(field, lines, k) != []
      invariant Agreed(Values(field, lines, k)) == Some(n)
    {
      var value := field(lines[k]);
      if value.Some? {
        var v := value.value;
        AgreedSnoc(Values(field, lines, k), v);
        if v.None? || (seen && v.value != n) {
          AgreedClash(field, lines, k + 1);
          return 0, false;
        }
        n, seen := v.value, true;
      }
    }
    ok := true;
  }

  // ---- The reference automaton ---------------------------------------------

  /** A framer's settings: the largest message, and what a header block says
      about the length of the body (DeclaredLength, which ContentLength
      computes, for every framer the program makes). */
  datatype Framing = Framing(max: nat, length: seq<byte> -> Option<nat>)

  /** A header block has just been completed by its CRLFCRLF. The size test is
      on the 64-bit sum the program computes. */
  function Complete(f: Framing, head: seq<byte>): Outcome {
    match f.length(head)
    case None => Stop(Malformed, [])
    case Some(n) =>
      if Add64(|head|, n) > f.max then Stop(Oversize, [])
      else Go(if n == 0 then Idle else Body(n), [])
  }

  /** One more byte of a header block. */
  function Grow(f: Framing, head: seq<byte>): Outcome {
    if EndsWithTerm(head) then Complete(f, head)
    else if |head| >= f.max then Stop(Oversize, [])
    else Go(Head(head), [])
  }

  function Step(f: Framing, phase: Phase, b: byte, pos: nat): Outcome {
    match phase
    case Idle => if IsCrLf(b) then Go(Idle, []) else Grow(f, [b]).(starts := [pos])
    case Head(head) => Grow(f, head + [b])
    case Body(left) => Go(if left <= 1 then Idle else Body(left - 1), [])
  }

  /** Feed the bytes p, the first of which is at offset pos of the stream. */
  function Run(f: Framing, phase: Phase, p: seq<byte>, pos: nat): Outcome
    decreases |p|, 0
  {
    if p == [] then Go(phase, [])
    else Then(f, Step(f, phase, p[0], pos), p[1..], pos + 1)
  }

  /** Feed p after an outcome: nothing more happens after a violation. */
  function Then(f: Framing, o: Outcome, p: seq<byte>, pos: nat): Outcome
    decreases |p|, 1
  {
    match o
    case Stop(_, _) => o
    case Go(phase, starts) => Prefix(starts, Run(f, phase, p, pos))
  }

  function Prefix(starts: seq<nat>, o: Outcome): Outcome {
    o.(starts := starts + o.starts)
  }

  // ---- The program's framer -------------------------------------------------

  const SIP_IDLE := 0
  const SIP_HEAD := 1
  const SIP_BODY := 2

  class SipFramer {
    const f: Framing
    var state: int
    var head: seq<byte>
    var left: nat
    var began: bool

    ghost predicate Valid()
      reads this
    {
      && (state == SIP_IDLE || state == SIP_HEAD || state == SIP_BODY)
      && (state == SIP_HEAD ==> NoTerm(head) && 0 < |head| < f.max)
      && (state == SIP_BODY ==> left > 0)
    }

    ghost function Abstract(): Phase
      reads this
    {
      if state == SIP_IDLE then Idle else if state == SIP_HEAD then Head(head) else Body(left)
    }

    constructor (max: nat)
      ensures Valid() && Abstract() == Idle && f == Framing(max, DeclaredLength)
    {
      f := Framing(max, DeclaredLength);
      state, head, left, began := SIP_IDLE, [], 0, false;
    }

    /** partial: a message has started and not completed. */
    predicate Partial()
      reads this
    {
      state != SIP_IDLE
    }

    /** Between two messages: skips CR and LF. */
    method FeedIdle(q: seq<byte>, ghost pos: nat) returns (rest: seq<byte>)
      ensures |rest| <= |q| && rest == q[|q| - |rest|..]
      ensures Run(f, Idle, q, pos) == Run(f, Idle, rest, pos + |q| - |rest|)
      ensures rest != [] ==> !IsCrLf(rest[0])
    {
      var i := 0;
      while i < |q| && IsCrLf(q[i])
        invariant 0 <= i <= |q| && Blank(q[..i])
      {
        i := i + 1;
      }
      RunBlank(f, q, i, pos);
      return q[i..];
    }

    /** In a header block: takes what fits, and completes the block when its
        CRLFCRLF is in it. */
    method FeedHead(q: seq<byte>, ghost pos: nat) returns (rest: seq<byte>, bad: Close)
      requires q != [] && state == SIP_HEAD && NoTerm(head) && (head == [] || |head| < f.max)
      modifies this`state, this`head, this`left
      ensures |rest| < |q|
      ensures bad != Open ==> Run(f, old(Abstract()), q, pos) == Stop(bad, [])
      ensures bad == Open ==>
        && Valid() && rest == q[|q| - |rest|..]
        && Run(f, old(Abstract()), q, pos) == Run(f, Abstract(), rest, pos + |q| - |rest|)
        && (state == SIP_HEAD ==> rest == [])
    {
      hide Complete, Grow, NoTerm, Run, TermAt;
      ghost var before := head;
      var size := |head|;
      var take := if |q| < f.max - size then |q| else f.max - size;
      var block := head + q[..take];
      head := block;
      var from := if size - 3 > 0 then size - 3 else 0;
      var idx := IndexTerm(block, from);
      if idx < 0 {
        HeadNotFound(f, before, q, pos, take);
        NothingRun(f, Head(block), pos + |q|);
        return [], if take < |q| || |block| >= f.max then Oversize else Open;
      }
      var end := idx + 4;
      TermWithin(block, from);
      var length := f.length(block[..end]);
      HeadCompleted(f, before, q, pos, take, idx, length);
      if length.None? {
        return [], Malformed;
      }
      var n := length.value;
      if Add64(end, n) > f.max {
        return [], Oversize;
      }
      left := n;
      state := if n == 0 then SIP_IDLE else SIP_BODY;
      head := [];
      return q[end - size..], Open;
    }

    /** In a body: takes what belongs to it. */
    method FeedBody(q: seq<byte>, ghost pos: nat) returns (rest: seq<byte>)
      requires q != [] && state == SIP_BODY && Valid()
      modifies this`state, this`left
      ensures Valid() && state != SIP_HEAD
      ensures |rest| < |q| && rest == q[|q| - |rest|..]
      ensures Run(f, old(Abstract()), q, pos) == Run(f, Abstract(), rest, pos + |q| - |rest|)
    {
      var take := if left < |q| then left else |q|;
      RunBody(f, left, q, pos);
      left := left - take;
      rest := q[take..];
      if left == 0 {
        state := SIP_IDLE;
      }
    }

    /** One read. It follows the reference automaton; a read that carries no
        message byte at all costs one charge, any other one per message
        started. */
    method Feed(p: seq<byte>) returns (charges: nat, bad: Close)
      requires Valid()
      modifies this
      ensures match Run(f, old(Abstract()), p, 0)
        case Go(phase, starts) =>
          && bad == Open && Valid() && Abstract() == phase
          && charges == |starts| + KeepAlive(old(Abstract()), p)
          && began == (starts != [])
        case Stop(why, starts) =>
          bad == why && charges == |starts| && began == (starts != [])
    {
      hide Run;
      charges, began, bad := 0, false, Open;
      var content := state != SIP_IDLE;
      var q := p;
      ghost var start := Abstract();
      ghost var whole := Run(f, start, p, 0);
      ghost var starts: seq<nat>, pos: nat := [], 0;
      while |q| > 0
        invariant pos + |q| == |p| && bad == Open
        invariant (state == SIP_HEAD && head == [] && q != []) || Valid()
        invariant whole == Prefix(starts, Run(f, Abstract(), q, pos))
        invariant charges == |starts| && began == (starts != [])
        invariant content == (start != Idle || began)
        invariant !content ==> state == SIP_IDLE
        decreases |q|, if state == SIP_IDLE then 1 else 0
      {
        if state == SIP_IDLE {
          q := FeedIdle(q, pos);
          pos := |p| - |q|;
          if |q| > 0 {
            content, began, charges := true, true, charges + 1;
            state, head := SIP_HEAD, [];
            RunStarts(f, q, pos);
            PrefixPrefix(starts, [pos], Run(f, Head([]), q, pos));
            starts := starts + [pos];
          }
        } else if state == SIP_HEAD {
          q, bad := FeedHead(q, pos);
          pos := |p| - |q|;
          if bad != Open {
            return;
          }
        } else {
          q := FeedBody(q, pos);
          pos := |p| - |q|;
        }
      }
      assert q == [];
      NothingRun(f, Abstract(), pos);
      KeepAliveRead(f, p, 0);
      if !content {
        charges := charges + 1;
      }
    }
  }

  /** From an idle start, a read starts no message exactly when it is all
      CR and LF. */
  lemma {:induction false} KeepAliveRead(f: Framing, p: seq<byte>, pos: nat)
    ensures Run(f, Idle, p, pos).starts == [] <==> Blank(p)
    decreases |p|
  {
    if p != [] {
      if IsCrLf(p[0]) {
        KeepAliveRead(f, p[1..], pos + 1);
        assert p == [p[0]] + p[1..];
      } else {
        RunStarts(f, p, pos);
      }
    }
  }

  lemma PrefixPrefix(a: seq<nat>, b: seq<nat>, o: Outcome)
    ensures Prefix(a, Prefix(b, o)) == Prefix(a + b, o)
  {
    assert a + (b + o.starts) == a + b + o.starts;
  }

  lemma RunStarts(f: Framing, q: seq<byte>, pos: nat)
    requires q != [] && !IsCrLf(q[0])
    ensures Run(f, Idle, q, pos) == Prefix([pos], Run(f, Head([]), q, pos))
  {
    assert [] + [q[0]] == [q[0]];
  }

  /** The keep-alive charge of a read: one when it brings no message byte. */
  function KeepAlive(phase: Phase, p: seq<byte>): nat {
    if phase == Idle && Blank(p) then 1 else 0
  }

  lemma {:induction false} RunBlank(f: Framing, q: seq<byte>, i: nat, pos: nat)
    requires i <= |q| && Blank(q[..i])
    ensures Run(f, Idle, q, pos) == Run(f, Idle, q[i..], pos + i)
  {
    if i > 0 {
      assert q[..i][0] == q[0] && IsCrLf(q[0]);
      assert q[1..][..i - 1] == q[..i][1..];
      RunBlank(f, q[1..], i - 1, pos + 1);
      assert q[1..][i - 1..] == q[i..];
    }
  }

  lemma {:induction false} RunBody(f: Framing, left: nat, q: seq<byte>, pos: nat)
    requires left > 0
    ensures Run(f, Body(left), q, pos) ==
      if |q| < left then Go(Body(left - |q|), []) else Run(f, Idle, q[left..], pos + left)
  {
    if q != [] && left > 1 {
      RunBody(f, left - 1, q[1..], pos + 1);
      if |q| >= left {
        assert q[1..][left - 1..] == q[left..];
      }
    }
  }

  lemma {:induction false} HeadGrows(f: Framing, h: seq<byte>, m: seq<byte>, rest: seq<byte>, pos: nat)
    requires NoTerm(h + m) && |h + m| < f.max
    ensures Run(f, Head(h), m + rest, pos) == Run(f, Head(h + m), rest, pos + |m|)
    decreases |m|
  {
    if m == [] {
      assert m + rest == rest && h + m == h;
    } else {
      var q, h' := m + rest, h + [m[0]];
      assert h + m == h' + m[1..];
      assert forall i :: TermAt(h', i) ==> TermAt(h + m, i);
      assert q[0] == m[0] && q[1..] == m[1..] + rest;
      assert Step(f, Head(h), q[0], pos) == Go(Head(h'), []);
      HeadGrows(f, h', m[1..], rest, pos + 1);
    }
  }

  /** Bytes m that neither complete nor overfill the header block, then the
      byte b that does one or the other. */
  lemma HeadEnds(f: Framing, h: seq<byte>, m: seq<byte>, b: byte, rest: seq<byte>, pos: nat)
    requires NoTerm(h + m) && (h + m == [] || |h + m| < f.max)
    ensures Run(f, Head(h), m + [b] + rest, pos) == Then(f, Grow(f, h + m + [b]), rest, pos + |m| + 1)
  {
    var tail := [b] + rest;
    assert m + [b] + rest == m + tail && tail[0] == b && tail[1..] == rest;
    if m == [] {
      assert m + tail == tail && h + m == h;
    } else {
      HeadGrows(f, h, m, tail, pos);
    }
  }

  /** What one bulk read of a header block does when the search from three
      bytes before the old end finds the terminator at idx: the search missed
      no earlier one, because the old bytes hold none. */
  lemma HeadFound(f: Framing, h: seq<byte>, q: seq<byte>, pos: nat, take: nat, idx: int)
    requires NoTerm(h) && (h == [] || |h| < f.max) && take <= |q| && |h| + take <= f.max
    requires idx == IndexTerm(h + q[..take], if |h| - 3 > 0 then |h| - 3 else 0) >= 0
    ensures |h| < idx + 4 <= |h| + take
    ensures Run(f, Head(h), q, pos) ==
      Then(f, Complete(f, (h + q[..take])[..idx + 4]), q[idx + 4 - |h|..], pos + idx + 4 - |h|)
  {
    hide Run, Complete;
    HeadNotBefore(h, q[..take]);
    var k := idx + 4 - |h| - 1;
    HeadSplit(h, q, take, k);
    HeadEnds(f, h, q[..k], q[k], q[k + 1..], pos);
  }

  lemma TermWithin(s: seq<byte>, from: nat)
    requires IndexTerm(s, from) >= 0
    ensures IndexTerm(s, from) + 4 <= |s|
  {
  }

  lemma HeadCompleted(f: Framing, h: seq<byte>, q: seq<byte>, pos: nat, take: nat, idx: int, length: Option<nat>)
    requires NoTerm(h) && (h == [] || |h| < f.max) && take <= |q| && |h| + take <= f.max
    requires idx == IndexTerm(h + q[..take], if |h| - 3 > 0 then |h| - 3 else 0) >= 0
    requires length == f.length((h + q[..take])[..idx + 4])
    ensures |h| < idx + 4 <= |h| + take
    ensures length == None ==> Run(f, Head(h), q, pos) == Stop(Malformed, [])
    ensures length.Some? && Add64(idx + 4, length.value) > f.max ==> Run(f, Head(h), q, pos) == Stop(Oversize, [])
    ensures length.Some? && Add64(idx + 4, length.value) <= f.max ==>
      Run(f, Head(h), q, pos) ==
        Run(f, if length.value == 0 then Idle else Body(length.value), q[idx + 4 - |h|..], pos + idx + 4 - |h|)
  {
    HeadFound(f, h, q, pos, take, idx);
  }

  /** The same when the search finds nothing: the block overflows, or waits
      for the next read. */
  lemma HeadNotFound(f: Framing, h: seq<byte>, q: seq<byte>, pos: nat, take: nat)
    requires NoTerm(h) && |h| <= f.max && (h == [] || |h| < f.max) && q != []
    requires take == if |q| < f.max - |h| then |q| else f.max - |h|
    requires IndexTerm(h + q[..take], if |h| - 3 > 0 then |h| - 3 else 0) < 0
    ensures NoTerm(h + q[..take])
    ensures Run(f, Head(h), q, pos) ==
      if take < |q| || |h| + take >= f.max then Stop(Oversize, []) else Go(Head(h + q[..take]), [])
  {
    HeadNotBefore(h, q[..take]);
    if take < |q| || |h| + take >= f.max {
      var k: nat := if take == 0 then 0 else take - 1;
      HeadSplit(h, q, take, k);
      HeadEnds(f, h, q[..k], q[k], q[k + 1..], pos);
      assert take > 0 ==> h + q[..k] + [q[k]] == h + q[..take];
    } else {
      assert q[..take] == q && q + [] == q;
      HeadGrows(f, h, q, [], pos);
    }
  }

  lemma HeadNotBefore(h: seq<byte>, m: seq<byte>)
    requires NoTerm(h)
    ensures forall i :: TermAt(h + m, i) ==> i + 4 > |h|
  {
    assert forall i :: TermAt(h + m, i) && i + 4 <= |h| ==> TermAt(h, i);
  }

  lemma HeadSplit(h: seq<byte>, q: seq<byte>, take: nat, k: nat)
    requires take <= |q| && k < |q| && k <= take
    requires forall i :: TermAt(h + q[..take], i) ==> i + 4 > |h| + k
    ensures q == q[..k] + [q[k]] + q[k + 1..]
    ensures NoTerm(h + q[..k])
    ensures k < take ==> h + q[..k] + [q[k]] == (h + q[..take])[..|h| + k + 1]
  {
    forall i ensures !TermAt(h + q[..k], i) {
      if TermAt(h + q[..k], i) {
        assert TermAt(h + q[..take], i);
      }
    }
  }

  // ---- Chunk independence -----------------------------------------------------

  lemma {:induction false} RunConcat(f: Framing, phase: Phase, p: seq<byte>, q: seq<byte>, pos: nat)
    ensures Run(f, phase, p + q, pos) == Then(f, Run(f, phase, p, pos), q, pos + |p|)
    decreases |p|
  {
    if p == [] {
      assert p + q == q;
    } else {
      assert (p + q)[0] == p[0] && (p + q)[1..] == p[1..] + q;
      match Step(f, phase, p[0], pos)
      case Stop(_, _) =>
      case Go(next, starts) =>
        RunConcat(f, next, p[1..], q, pos + 1);
        match Run(f, next, p[1..], pos + 1)
        case Stop(_, _) =>
        case Go(last, more) => PrefixPrefix(starts, more, Run(f, last, q, pos + |p|));
    }
  }

  /** The framer over a connection: what a sequence of reads comes to, and
      what it is charged. A violation closes the connection. */
  datatype Session = Session(outcome: Outcome, charges: nat)

  function Reads(f: Framing, chunks: seq<seq<byte>>): Session {
    if chunks == [] then Session(Go(Idle, []), 0)
    else
      var before := Reads(f, chunks[..|chunks| - 1]);
      var p := chunks[|chunks| - 1];
      match before.outcome
      case Stop(_, _) => before
      case Go(phase, starts) =>
        var o := Run(f, phase, p, |Flatten(chunks[..|chunks| - 1])|);
        Session(Prefix(starts, o), before.charges + |o.starts| + if o.Go? then KeepAlive(phase, p) else 0)
  }

  /** How many of the reads found the stream so far between two messages and
      brought only CR and LF. */
  function KeepAliveReads(f: Framing, chunks: seq<seq<byte>>): nat {
    if chunks == [] then 0
    else
      KeepAliveReads(f, chunks[..|chunks| - 1]) +
      match Run(f, Idle, Flatten(chunks[..|chunks| - 1]), 0)
      case Go(Idle, _) => if Blank(chunks[|chunks| - 1]) then 1 else 0
      case _ => 0
  }

  /** Whatever the reads, a connection goes through what one read of all its
      bytes would: the same messages at the same offsets, the same phase, the
      same first violation. Only keep-alive reads are charged by the read. */
  lemma {:induction false} ChunkIndependence(f: Framing, chunks: seq<seq<byte>>)
    ensures Reads(f, chunks).outcome == Run(f, Idle, Flatten(chunks), 0)
    ensures Reads(f, chunks).charges == |Run(f, Idle, Flatten(chunks), 0).starts| + KeepAliveReads(f, chunks)
  {
    hide Run;
    NothingRun(f, Idle, 0);
    if chunks != [] {
      var init, p := chunks[..|chunks| - 1], chunks[|chunks| - 1];
      ChunkIndependence(f, init);
      RunConcat(f, Idle, Flatten(init), p, 0);
      match Run(f, Idle, Flatten(init), 0)
      case Stop(_, _) =>
      case Go(phase, starts) =>
        if phase == Idle {
          BlankGoes(f, p, |Flatten(init)|);
        }
    }
  }

  lemma NothingRun(f: Framing, phase: Phase, pos: nat)
    ensures Run(f, phase, [], pos) == Go(phase, [])
  {
  }

  lemma {:induction false} BlankGoes(f: Framing, p: seq<byte>, pos: nat)
    ensures Blank(p) ==> Run(f, Idle, p, pos) == Go(Idle, [])
  {
    if Blank(p) {
      assert p[..|p|] == p;
      RunBlank(f, p, |p|, pos);
    }
  }

  /** Two connections that carry the same bytes differ only in what their
      keep-alive reads are charged. */
  lemma SplitDoesNotMatter(f: Framing, a: seq<seq<byte>>, b: seq<seq<byte>>)
    requires Flatten(a) == Flatten(b)
    ensures Reads(f, a).outcome == Reads(f, b).outcome
    ensures Reads(f, a).charges - KeepAliveReads(f, a) == Reads(f, b).charges - KeepAliveReads(f, b)
  {
    ChunkIndependence(f, a);
    ChunkIndependence(f, b);
  }

  /** Only the offsets depend on where in the stream a read lies. */
  lemma {:induction false} RunShift(f: Framing, phase: Phase, p: seq<byte>, a: nat, b: nat)
    ensures var x, y := Run(f, phase, p, a), Run(f, phase, p, b);
      x.Go? == y.Go? && (if x.Go? then x.phase == y.phase else x.why == y.why) && |x.starts| == |y.starts|
    decreases |p|
  {
    if p != [] {
      match Step(f, phase, p[0], a)
      case Stop(_, _) =>
      case Go(next, _) => RunShift(f, next, p[1..], a + 1, b + 1);
    }
  }

  lemma {:induction false} StopsForGood(f: Framing, chunks: seq<seq<byte>>, k: nat)
    requires k <= |chunks| && Reads(f, chunks[..k]).outcome.Stop?
    ensures Reads(f, chunks) == Reads(f, chunks[..k])
    decreases |chunks|
  {
    if k == |chunks| {
      assert chunks[..k] == chunks;
    } else {
      var init := chunks[..|chunks| - 1];
      assert init[..k] == chunks[..k];
      StopsForGood(f, init, k);
    }
  }

  /** What the framer buffers: never a complete header block, never max bytes. */
  lemma {:induction false} BufferBounded(f: Framing, phase: Phase, p: seq<byte>, pos: nat)
    requires phase.Head? ==> NoTerm(phase.head) && |phase.head| < f.max
    requires phase.Body? ==> phase.left > 0
    ensures match Run(f, phase, p, pos)
      case Go(Head(head), _) => NoTerm(head) && |head| < f.max
      case Go(Body(left), _) => left > 0
      case _ => true
    decreases |p|
  {
    if p != [] {
      var head := if phase.Head? then phase.head + [p[0]] else [p[0]];
      if !EndsWithTerm(head) && !phase.Body? {
        assert phase.Head? ==> forall i :: TermAt(head, i) && i < |head| - 4 ==> TermAt(phase.head, i);
      }
      match Step(f, phase, p[0], pos)
      case Stop(_, _) =>
      case Go(next, _) => BufferBounded(f, next, p[1..], pos + 1);
    }
  }

  // ---- The size test -------------------------------------------------------------

  /** A header block by itself: it begins with a real byte and ends at its first
      CRLFCRLF. */
  ghost predicate Block(head: seq<byte>) {
    EndsAtFirstTerm(head) && !IsCrLf(head[0])
  }

  lemma Unterminated(s: seq<byte>)
    requires forall i :: !TermAt(s, i)
    ensures NoTerm(s)
  {
  }

  /** Part of a block holds no terminator. */
  lemma PartOfBlock(h: seq<byte>, k: nat)
    requires EndsAtFirstTerm(h) && k < |h|
    ensures NoTerm(h[..k]) && !EndsWithTerm(h[..k])
  {
    forall i ensures !TermAt(h[..k], i) {
      assert TermAt(h[..k], i) ==> TermAt(h, i);
    }
    Unterminated(h[..k]);
  }

  /** A block within the cap is completed by its last byte. */
  lemma OneBlock(f: Framing, h: seq<byte>, tail: seq<byte>, pos: nat)
    requires Block(h) && |h| <= f.max
    ensures Run(f, Idle, h + tail, pos) == Prefix([pos], Then(f, Grow(f, h), tail, pos + |h|))
  {
    hide Run, Grow, Then, NoTerm, Prefix;
    var n := |h| - 1;
    var init := h[..n];
    RunStarts(f, h + tail, pos);
    PartOfBlock(h, n);
    assert [] + init == init && init + [h[n]] == h;
    assert h + tail == init + [h[n]] + tail;
    HeadEnds(f, [], init, h[n], tail, pos);
    assert [] + init + [h[n]] == h;
  }

  lemma BlockStarts(h: seq<byte>)
    requires Block(h)
    ensures |h| >= 4 && !IsCrLf(h[0]) && EndsAtFirstTerm(h)
  {
  }

  /** A longer one is refused at the cap. */
  lemma LongBlock(f: Framing, h: seq<byte>, tail: seq<byte>, pos: nat)
    requires Block(h) && |h| > f.max
    ensures Run(f, Idle, h + tail, pos) == Stop(Oversize, [pos])
  {
    hide Run, NoTerm, Complete, EndsWithTerm, EndsAtFirstTerm;
    BlockStarts(h);
    var k: nat := if f.max == 0 then 0 else f.max - 1;
    var init, rest := h[..k], h[k + 1..] + tail;
    RunStarts(f, h + tail, pos);
    PartOfBlock(h, k);
    PartOfBlock(h, k + 1);
    assert [] + init == init && init + [h[k]] == h[..k + 1];
    assert h + tail == init + [h[k]] + rest;
    HeadEnds(f, [], init, h[k], rest, pos);
    assert [] + init + [h[k]] == h[..k + 1];
  }

  /** A message is refused for size exactly when its header block alone exceeds
      the cap, or with its body exceeds it and the sum still fits 64 bits: past
      that the sum is negative and the message is let through. */
  lemma OversizeIff(f: Framing, head: seq<byte>, n: nat, pos: nat)
    requires Block(head) && |head| <= MAX_INT && f.max <= MAX_INT
    requires f.length(head) == Some(n) && n <= MAX_INT
    ensures Run(f, Idle, head, pos) == Stop(Oversize, [pos]) <==> |head| > f.max || f.max < |head| + n <= MAX_INT
  {
    hide Run;
    assert head + [] == head;
    if |head| > f.max {
      LongBlock(f, head, [], pos);
    } else {
      OneBlock(f, head, [], pos);
      AfterBlock(f, Grow(f, head), pos, pos + |head|);
    }
  }

  lemma AfterBlock(f: Framing, o: Outcome, first: nat, pos: nat)
    ensures Prefix([first], Then(f, o, [], pos)) == Prefix([first], o)
  {
    if o.Go? {
      NothingRun(f, o.phase, pos);
      assert o.starts + [] == o.starts;
    }
  }

  // ---- Framing round trip ------------------------------------------------------

  datatype Message = Message(head: seq<byte>, body: seq<byte>)

  /** A message the framer must carry: a header block that begins with a real
      byte, ends at its first CRLFCRLF and declares the body's length, within
      the cap. */
  ghost predicate Framable(f: Framing, m: Message) {
    && Block(m.head)
    && f.length(m.head) == Some(|m.body|)
    && |m.head| + |m.body| <= f.max
  }

  /** The messages on the wire, message k preceded by the keep-alive gap
      gaps[k], the last gap closing the stream. */
  function Wire(ms: seq<Message>, gaps: seq<seq<byte>>): seq<byte>
    requires |gaps| == |ms| + 1
  {
    if ms == [] then gaps[0]
    else gaps[0] + ms[0].head + ms[0].body + Wire(ms[1..], gaps[1..])
  }

  /** The offsets at which the messages of Wire(ms, gaps) begin. */
  function Offsets(ms: seq<Message>, gaps: seq<seq<byte>>, pos: nat): seq<nat>
    requires |gaps| == |ms| + 1
  {
    if ms == [] then []
    else
      var at := pos + |gaps[0]|;
      [at] + Offsets(ms[1..], gaps[1..], at + |ms[0].head| + |ms[0].body|)
  }

  lemma OneMessage(f: Framing, m: Message, rest: seq<byte>, pos: nat)
    requires Framable(f, m) && f.max <= MAX_INT
    ensures Run(f, Idle, m.head + m.body + rest, pos) ==
      Prefix([pos], Run(f, Idle, rest, pos + |m.head| + |m.body|))
  {
    hide Run, TermAt;
    var tail := m.body + rest;
    assert m.head + m.body + rest == m.head + tail;
    OneBlock(f, m.head, tail, pos);
    assert Grow(f, m.head) == Go(if m.body == [] then Idle else Body(|m.body|), []);
    OneBody(f, m.body, rest, pos + |m.head|);
    assert forall o: Outcome :: Prefix([], o) == o;
  }

  lemma OneBody(f: Framing, body: seq<byte>, rest: seq<byte>, pos: nat)
    ensures Run(f, if body == [] then Idle else Body(|body|), body + rest, pos) == Run(f, Idle, rest, pos + |body|)
  {
    if body == [] {
      assert body + rest == rest;
    } else {
      RunBody(f, |body|, body + rest, pos);
      assert (body + rest)[|body|..] == rest;
    }
  }

  lemma OneMore(f: Framing, gap: seq<byte>, m: Message, tail: seq<byte>, pos: nat)
    requires f.max <= MAX_INT && Framable(f, m) && Blank(gap)
    ensures Run(f, Idle, gap + (m.head + m.body + tail), pos) ==
      Prefix([pos + |gap|], Run(f, Idle, tail, pos + |gap| + |m.head| + |m.body|))
  {
    hide Run, Framable, Blank;
    var q := m.head + m.body + tail;
    RunConcat(f, Idle, gap, q, pos);
    BlankGoes(f, gap, pos);
    OneMessage(f, m, tail, pos + |gap|);
    assert forall o: Outcome :: Prefix([], o) == o;
  }

  lemma NoMessages(gaps: seq<seq<byte>>)
    requires |gaps| == 1
    ensures Wire([], gaps) == gaps[0]
  {
  }

  lemma WireStep(ms: seq<Message>, gaps: seq<seq<byte>>)
    requires |gaps| == |ms| + 1 && ms != []
    ensures Wire(ms, gaps) == gaps[0] + (ms[0].head + ms[0].body + Wire(ms[1..], gaps[1..]))
  {
  }

  /** Framable messages with any CR/LF between them are accepted, start where
      they were put, and leave the framer idle. */
  lemma {:induction false} FramingRoundTrip(f: Framing, ms: seq<Message>, gaps: seq<seq<byte>>, pos: nat)
    requires f.max <= MAX_INT && |gaps| == |ms| + 1
    requires forall m <- ms :: Framable(f, m)
    requires forall g <- gaps :: Blank(g)
    ensures Run(f, Idle, Wire(ms, gaps), pos) == Go(Idle, Offsets(ms, gaps, pos))
    decreases |ms|
  {
    hide Run, Framable, Blank, Wire;
    if ms == [] {
      NoMessages(gaps);
      BlankGoes(f, gaps[0], pos);
    } else {
      var m, tail := ms[0], Wire(ms[1..], gaps[1..]);
      assert m in ms && gaps[0] in gaps;
      OneMore(f, gaps[0], m, tail, pos);
      WireStep(ms, gaps);
      FramingRoundTrip(f, ms[1..], gaps[1..], pos + |gaps[0]| + |m.head| + |m.body|);
    }
  }

  /** The same for any way the wire is cut into reads. */
  lemma FramingRoundTripInReads(f: Framing, ms: seq<Message>, gaps: seq<seq<byte>>, chunks: seq<seq<byte>>)
    requires f.max <= MAX_INT && |gaps| == |ms| + 1
    requires forall m <- ms :: Framable(f, m)
    requires forall g <- gaps :: Blank(g)
    requires Flatten(chunks) == Wire(ms, gaps)
    ensures Reads(f, chunks).outcome == Go(Idle, Offsets(ms, gaps, 0))
    ensures Reads(f, chunks).charges == |ms| + KeepAliveReads(f, chunks)
  {
    ChunkIndependence(f, chunks);
    FramingRoundTrip(f, ms, gaps, 0);
    OffsetsCount(ms, gaps, 0);
  }

  lemma {:induction false} OffsetsCount(ms: seq<Message>, gaps: seq<seq<byte>>, pos: nat)
    requires |gaps| == |ms| + 1
    ensures |Offsets(ms, gaps, pos)| == |ms|
    decreases |ms|
  {
    if ms != [] {
      OffsetsCount(ms[1..], gaps[1..], pos + |gaps[0]| + |ms[0].head| + |ms[0].body|);
    }
  }
}
