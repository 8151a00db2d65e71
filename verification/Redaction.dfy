/**
 Redaction of the credentials of a mirrored message
 (internal/edge/hepmirror.go).

 The program copies the message around the pieces it leaves out, with a cursor
 into it. Here a header section is also read as a list of lines, each with its
 terminator; on that list the result is a plain rewriting, and it is the list
 the theorems are about.
 */
module Redaction {
  import opened Bytes
  import opened Sequences

  /** A line and what ends it: CRLF, LF, or at the end of the data a CR or
      nothing. */
  datatype Line = Line(text: seq<byte>, term: seq<byte>)

  // ---- Reading lines --------------------------------------------------------------

  /** Length of the first line of s with its terminator. */
  function RawLen(s: seq<byte>): (n: nat)
    ensures n <= |s| && (s != [] ==> n > 0)
  {
    var lf := IndexByte(s, LF, 0);
    if lf < 0 then |s| else lf + 1
  }

  /** Length of its text: the LF goes, and one CR before it. */
  function TextLen(s: seq<byte>): (n: nat)
    ensures n <= RawLen(s)
  {
    var lf := IndexByte(s, LF, 0);
    var e := if lf < 0 then |s| else lf;
    if e > 0 && s[e - 1] == CR then e - 1 else e
  }

  function FirstLine(s: seq<byte>): Line {
    Line(s[..TextLen(s)], s[TextLen(s)..RawLen(s)])
  }

  /** The lines of s before its empty line. */
  function Lines(s: seq<byte>): (lines: seq<Line>)
    ensures forall l <- lines :: l.text != []
    decreases |s|
  {
    if s == [] || TextLen(s) == 0 then [] else [FirstLine(s)] + Lines(s[RawLen(s)..])
  }

  /** s from its empty line on. */
  function Rest(s: seq<byte>): seq<byte>
    decreases |s|
  {
    if s == [] || TextLen(s) == 0 then s else Rest(s[RawLen(s)..])
  }

  /** The bytes of a list of lines. */
  function Join(lines: seq<Line>): seq<byte> {
    if lines == [] then [] else Join(lines[..|lines| - 1]) + (lines[|lines| - 1].text + lines[|lines| - 1].term)
  }

  lemma {:induction false} JoinConcat(a: seq<Line>, b: seq<Line>)
    ensures Join(a + b) == Join(a) + Join(b)
    decreases |b|
  {
    if b == [] {
      assert a + b == a;
    } else {
      var l := b[|b| - 1];
      assert (a + b)[..|a + b| - 1] == a + b[..|b| - 1];
      JoinConcat(a, b[..|b| - 1]);
      Assoc(Join(a), Join(b[..|b| - 1]), l.text + l.term);
    }
  }

  lemma JoinOne(l: Line)
    ensures Join([l]) == l.text + l.term
  {
    assert [l][..0] == [];
  }

  lemma NothingJoined()
    ensures Join([]) == []
  {
  }

  lemma {:induction false} Reassembled(s: seq<byte>)
    ensures s == Join(Lines(s)) + Rest(s)
    decreases |s|
  {
    hide TextLen, RawLen, Join;
    NothingJoined();
    if s != [] && TextLen(s) > 0 {
      var l, tail := FirstLine(s), s[RawLen(s)..];
      Reassembled(tail);
      JoinConcat([l], Lines(tail));
      JoinOne(l);
      assert s == l.text + l.term + tail;
    }
  }

  // ---- The rewriting ----------------------------------------------------------------

  predicate IsFold(l: Line) {
    l.text != [] && (l.text[0] == SP || l.text[0] == TAB)
  }

  predicate IsAuthName(name: seq<byte>) {
    Named(TrimSpace(name), "authorization") || Named(TrimSpace(name), "proxy-authorization")
  }

  /** The line is an Authorization or Proxy-Authorization header. */
  predicate IsAuth(l: Line) {
    l.text != [] && !IsFold(l) && IndexByte(l.text, COLON, 0) >= 0 && IsAuthName(l.text[..IndexByte(l.text, COLON, 0)])
  }

  // " REDACTED"
  const REDACTED: seq<byte> := [32, 82, 69, 68, 65, 67, 84, 69, 68]

  /** The header with its value replaced. */
  function Masked(l: Line): seq<byte>
    requires IsAuth(l)
  {
    l.text[..IndexByte(l.text, COLON, 0) + 1] + REDACTED
  }

  /** The last line belongs to a header being masked. The first one is the start
      line, never a header. */
  predicate Masking(lines: seq<Line>) {
    |lines| > 1 &&
    var l := lines[|lines| - 1];
    if IsFold(l) then Masking(lines[..|lines| - 1]) else IsAuth(l)
  }

  /** Each masked header keeps its name and ends as its last fold did. */
  function Redact(lines: seq<Line>): seq<Line> {
    if |lines| <= 1 then lines
    else
      var init, l := lines[..|lines| - 1], lines[|lines| - 1];
      var r := Redact(init);
      if IsFold(l) && Masking(init) then
        (if r == [] then [] else r[..|r| - 1] + [r[|r| - 1].(term := l.term)])
      else if IsAuth(l) then r + [Line(Masked(l), l.term)]
      else r + [l]
  }

  // ---- The program ---------------------------------------------------------------------

  datatype Found = Found(off: nat, text: seq<byte>)

  function Lead(data: seq<byte>): (n: nat)
    ensures n <= |data| && (n < |data| ==> !IsCrLf(data[n]))
    ensures Blank(data[..n])
  {
    LeadFrom(data, 0)
  }

  function LeadFrom(data: seq<byte>, i: nat): (n: nat)
    requires i <= |data| && Blank(data[..i])
    ensures i <= n <= |data| && Blank(data[..n]) && (n < |data| ==> !IsCrLf(data[n]))
    decreases |data| - i
  {
    if i < |data| && IsCrLf(data[i]) then
      assert data[..i + 1] == data[..i] + [data[i]];
      LeadFrom(data, i + 1)
    else i
  }

  /** Each line of the header section with its place in the data. */
  ghost predicate Places(data: seq<byte>, found: seq<Found>, lines: seq<Line>) {
    |found| == |lines| &&
    forall k :: 0 <= k < |found| ==>
      found[k].text == lines[k].text && found[k].off == Lead(data) + |Join(lines[..k])|
  }

  /** What a callback of headerLines answers to a line: whether to go on. */
  type Visitor = (nat, Found) -> bool

  predicate GoesOn(found: seq<Found>, more: Visitor, n: nat)
    requires n <= |found|
  {
    forall k :: 0 <= k < n ==> more(k, found[k])
  }

  /** headerLines: the lines shown to the callback, each with its place, and where
      it says the body starts: after the line the callback stopped at, or after
      the empty line, which may be missing. */
  method HeaderLines(data: seq<byte>, more: Visitor) returns (found: seq<Found>, body: nat)
    ensures var s := data[Lead(data)..];
      && |found| <= |Lines(s)| && Places(data, found, Lines(s)[..|found|])
      && (found != [] ==> GoesOn(found, more, |found| - 1))
      && (GoesOn(found, more, |found|) ==> |found| == |Lines(s)| && body + |Rest(s)| == |data| + RawLen(Rest(s)))
      && (!GoesOn(found, more, |found|) ==> body == Lead(data) + |Join(Lines(s)[..|found|])|)
  {
    hide TextLen, RawLen, Lead, Join, Places, Lines, Rest, Visited;
    VisitStart(data);
    var pos := Lead(data);
    found := [];
    ghost var lines: seq<Line> := [];
    while pos < |data|
      invariant pos <= |data| && Visited(data, found, lines, pos) && GoesOn(found, more, |found|)
    {
      var s := data[pos..];
      var text := s[..TextLen(s)];
      if |text| == 0 {
        VisitEnd(data, found, lines, pos);
        return found, pos + RawLen(s);
      }
      VisitNext(data, found, lines, pos);
      found := found + [Found(pos, text)];
      lines := lines + [FirstLine(s)];
      pos := pos + RawLen(s);
      if !more(|found| - 1, found[|found| - 1]) {
        VisitPart(data, found, lines, pos);
        return found, pos;
      }
    }
    VisitEnd(data, found, lines, pos);
    return found, |data|;
  }

  /** The lines found so far stop at pos. */
  ghost predicate Visited(data: seq<byte>, found: seq<Found>, lines: seq<Line>, pos: nat)
    requires pos <= |data|
  {
    var whole := data[Lead(data)..];
    && Lead(data) <= pos && pos == Lead(data) + |Join(lines)|
    && Lines(whole) == lines + Lines(data[pos..]) && Rest(whole) == Rest(data[pos..])
    && Places(data, found, lines) && |found| == |lines|
  }

  lemma VisitStart(data: seq<byte>)
    ensures Visited(data, [], [], Lead(data))
  {
    NothingJoined();
    NothingPlaced(data);
  }

  lemma VisitNext(data: seq<byte>, found: seq<Found>, lines: seq<Line>, pos: nat)
    requires pos < |data| && Visited(data, found, lines, pos) && TextLen(data[pos..]) > 0
    ensures var s := data[pos..];
      Visited(data, found + [Found(pos, s[..TextLen(s)])], lines + [FirstLine(s)], pos + RawLen(s))
  {
    hide TextLen, RawLen, Lead, Join, Places, Lines, Rest;
    var s := data[pos..];
    var l := FirstLine(s);
    LinesStep(s);
    PlacesMore(data, found, lines, l, pos);
    assert data[pos + RawLen(s)..] == s[RawLen(s)..];
    assert lines + ([l] + Lines(s[RawLen(s)..])) == lines + [l] + Lines(s[RawLen(s)..]);
  }

  lemma VisitPart(data: seq<byte>, found: seq<Found>, lines: seq<Line>, pos: nat)
    requires pos <= |data| && Visited(data, found, lines, pos)
    ensures var all := Lines(data[Lead(data)..]);
      |found| <= |all| && all[..|found|] == lines && Places(data, found, lines) && pos == Lead(data) + |Join(lines)|
  {
    hide Lines, Lead, Join, Rest, Places;
  }

  lemma VisitEnd(data: seq<byte>, found: seq<Found>, lines: seq<Line>, pos: nat)
    requires pos <= |data| && Visited(data, found, lines, pos)
    requires pos == |data| || TextLen(data[pos..]) == 0
    ensures var all := Lines(data[Lead(data)..]);
      && |found| == |all| && all[..|found|] == all == lines && Places(data, found, lines)
      && Rest(data[Lead(data)..]) == data[pos..] && (pos == |data| ==> RawLen(data[pos..]) == 0)
  {
    hide Lines, Lead, Join, Rest, Places;
    var s := data[pos..];
    if s == [] {
      EmptyRest();
    } else {
      LinesStep(s);
    }
    assert lines + [] == lines;
  }

  lemma LinesStep(s: seq<byte>)
    requires s != []
    ensures TextLen(s) == 0 ==> Lines(s) == [] && Rest(s) == s
    ensures TextLen(s) > 0 ==> Lines(s) == [FirstLine(s)] + Lines(s[RawLen(s)..]) && Rest(s) == Rest(s[RawLen(s)..])
  {
  }

  lemma EmptyRest()
    ensures Rest([]) == [] && RawLen([]) == 0 && Lines([]) == []
  {
  }

  lemma NothingPlaced(data: seq<byte>)
    ensures Places(data, [], [])
  {
  }

  lemma PlacesMore(data: seq<byte>, found: seq<Found>, lines: seq<Line>, l: Line, pos: nat)
    requires Places(data, found, lines) && pos == Lead(data) + |Join(lines)|
    ensures Places(data, found + [Found(pos, l.text)], lines + [l])
    ensures |Join(lines + [l])| == |Join(lines)| + |l.text| + |l.term|
  {
    var all := lines + [l];
    assert all[..|lines|] == lines;
    forall k | 0 <= k < |lines| ensures all[..k] == lines[..k] {
    }
  }

  /** What redactAuthHeaders makes of a message. */
  function Redacted(data: seq<byte>): seq<byte> {
    var s := data[Lead(data)..];
    data[..Lead(data)] + Join(Redact(Lines(s))) + Rest(s)
  }

  /** Copied so far: out, and the data from last on. */
  ghost predicate Copied(data: seq<byte>, lines: seq<Line>, k: nat, out: seq<byte>, last: nat, masking: bool)
    requires k <= |lines|
  {
    var at := Lead(data) + |Join(lines[..k])|;
    && last <= at <= |data|
    && out + data[last..at] == data[..Lead(data)] + Join(Redact(lines[..k]))
    && masking == Masking(lines[..k])
    && (masking ==> k > 0 && last == at - |lines[k - 1].term| && EndsAs(Redact(lines[..k]), lines[k - 1].term))
  }

  predicate EndsAs(lines: seq<Line>, term: seq<byte>) {
    lines != [] && lines[|lines| - 1].term == term
  }

  /** Line i of the section as it stands in the data. */
  ghost predicate Stands(data: seq<byte>, lines: seq<Line>, i: nat, at: nat)
    requires i < |lines|
  {
    var l := lines[i];
    && at == Lead(data) + |Join(lines[..i])| && at + |l.text| + |l.term| <= |data|
    && data[at..at + |l.text|] == l.text && data[at + |l.text|..at + |l.text| + |l.term|] == l.term
    && lines[..i + 1] == lines[..i] + [l] && Join(lines[..i + 1]) == Join(lines[..i]) + (l.text + l.term)
  }

  lemma LineIn(data: seq<byte>, lines: seq<Line>, rest: seq<byte>, i: nat)
    requires i < |lines| && data == data[..Lead(data)] + (Join(lines) + rest)
    ensures Stands(data, lines, i, Lead(data) + |Join(lines[..i])|)
  {
    hide Lead, Join;
    var l, at := lines[i], Lead(data) + |Join(lines[..i])|;
    JoinSnoc(lines[..i], l);
    assert lines[..i + 1] == lines[..i] + [l] && lines == lines[..i + 1] + lines[i + 1..];
    JoinConcat(lines[..i + 1], lines[i + 1..]);
    var tail := Join(lines[i + 1..]) + rest;
    assert Join(lines) == Join(lines[..i]) + (l.text + l.term) + Join(lines[i + 1..]);
    assert Join(lines) + rest == Join(lines[..i]) + (l.text + l.term) + tail;
    Slices(data, data[..Lead(data)], Join(lines[..i]), l.text, l.term, tail);
  }

  lemma Slices(data: seq<byte>, p: seq<byte>, q: seq<byte>, x: seq<byte>, y: seq<byte>, z: seq<byte>)
    requires data == p + (q + (x + y) + z)
    ensures var at := |p| + |q|;
      && at + |x| + |y| <= |data|
      && data[at..at + |x|] == x && data[at + |x|..at + |x| + |y|] == y
  {
    assert data == (p + q) + x + (y + z);
    assert data == (p + q + x) + y + z;
  }

  /** The rewriting, one line further. */
  lemma RedactStep(lines: seq<Line>, i: nat)
    requires i < |lines|
    ensures var before, l, r := lines[..i], lines[i], Redact(lines[..i]);
      && (i > 0 && IsFold(l) && Masking(before) ==> Masking(lines[..i + 1]))
      && (i > 0 && IsFold(l) && Masking(before) && r != [] ==>
        Redact(lines[..i + 1]) == r[..|r| - 1] + [r[|r| - 1].(term := l.term)])
      && (i > 0 && IsAuth(l) ==>
        Masking(lines[..i + 1]) && Redact(lines[..i + 1]) == r + [Line(Masked(l), l.term)])
      && (i == 0 || (IsFold(l) && !Masking(before)) || (!IsFold(l) && !IsAuth(l)) ==>
        !Masking(lines[..i + 1]) && Redact(lines[..i + 1]) == r + [l])
  {
    hide IsFold, IsAuth, Masked;
    assert lines[..i + 1][..i] == lines[..i];
    AuthIsNoFold(lines[i]);
    assert [] + [lines[i]] == [lines[i]];
  }

  lemma AuthIsNoFold(l: Line)
    ensures IsAuth(l) ==> !IsFold(l)
  {
  }

  /** A line copied as it is. */
  lemma CopyPlain(data: seq<byte>, lines: seq<Line>, i: nat, at: nat, out: seq<byte>, last: nat)
    requires i < |lines| && Stands(data, lines, i, at) && Copied(data, lines, i, out, last, Masking(lines[..i]))
    requires Redact(lines[..i + 1]) == Redact(lines[..i]) + [lines[i]] && !Masking(lines[..i + 1])
    ensures Copied(data, lines, i + 1, out, last, false)
  {
    hide Lead, Redact, Masking, Join;
    var l := lines[i];
    var next := at + |l.text| + |l.term|;
    SliceSplit(data, at, at + |l.text|, next);
    SliceSplit(data, last, at, next);
    JoinSnoc(Redact(lines[..i]), l);
    Assoc(out, data[last..at], l.text + l.term);
    Assoc(data[..Lead(data)], Join(Redact(lines[..i])), l.text + l.term);
  }

  lemma SliceSplit(data: seq<byte>, a: nat, b: nat, c: nat)
    requires a <= b <= c <= |data|
    ensures data[a..c] == data[a..b] + data[b..c]
  {
  }

  lemma JoinSnoc(lines: seq<Line>, l: Line)
    ensures Join(lines + [l]) == Join(lines) + (l.text + l.term)
  {
    assert (lines + [l])[..|lines|] == lines;
  }

  /** A fold of a masked header left out up to its terminator. */
  lemma CopyFold(data: seq<byte>, lines: seq<Line>, i: nat, at: nat, out: seq<byte>, last: nat)
    requires 0 < i < |lines| && Stands(data, lines, i, at) && Copied(data, lines, i, out, last, true)
    requires var r := Redact(lines[..i]);
      r != [] && Redact(lines[..i + 1]) == r[..|r| - 1] + [r[|r| - 1].(term := lines[i].term)]
    requires Masking(lines[..i + 1])
    ensures Copied(data, lines, i + 1, out, at + |lines[i].text|, true)
  {
    hide Lead, Redact, Masking, Join;
    var l, r := lines[i], Redact(lines[..i]);
    var front, h := r[..|r| - 1], r[|r| - 1];
    var pre := data[..Lead(data)];
    assert r == front + [h];
    JoinSnoc(front, h);
    JoinSnoc(front, h.(term := l.term));
    var kept := data[last..at];
    assert |kept| == |h.term|;
    assert out + kept == pre + (Join(front) + (h.text + h.term));
    assert out + kept == (pre + Join(front) + h.text) + h.term;
    SameFront(out, kept, pre + Join(front) + h.text, h.term);
    assert out + l.term == pre + (Join(front) + (h.text + l.term));
  }

  lemma SameFront(a: seq<byte>, b: seq<byte>, c: seq<byte>, d: seq<byte>)
    requires a + b == c + d && |b| == |d|
    ensures a == c
  {
    assert a == (a + b)[..|a|] && c == (c + d)[..|c|];
  }

  /** A header written as another text that begins like its own. */
  lemma CopyAsEnds(lines: seq<Line>, l: Line)
    ensures EndsAs(lines + [l], l.term)
  {
  }

  lemma Glued(a: seq<byte>, b: seq<byte>, c: seq<byte>, d: seq<byte>, e: seq<byte>)
    ensures a + (b + c) + d + e == a + b + (c + d + e)
  {
  }

  lemma CopyAs(data: seq<byte>, lines: seq<Line>, i: nat, at: nat, out: seq<byte>, last: nat, c: nat, end: seq<byte>)
    requires i < |lines| && Stands(data, lines, i, at) && Copied(data, lines, i, out, last, Masking(lines[..i]))
    requires c < |lines[i].text|
    requires Redact(lines[..i + 1]) == Redact(lines[..i]) + [Line(lines[i].text[..c + 1] + end, lines[i].term)]
    requires Masking(lines[..i + 1])
    ensures Copied(data, lines, i + 1, out + data[last..at + c + 1] + end, at + |lines[i].text|, true)
  {
    hide Lead, Redact, Masking, Join, EndsAs;
    var l := lines[i];
    var text := l.text[..c + 1] + end;
    CopyAsEnds(Redact(lines[..i]), Line(text, l.term));
    JoinSnoc(Redact(lines[..i]), Line(text, l.term));
    SliceSplit(data, last, at, at + c + 1);
    assert data[at..at + c + 1] == data[at..at + |l.text|][..c + 1];
    Glued(out, data[last..at], l.text[..c + 1], end, l.term);
    Assoc(data[..Lead(data)], Join(Redact(lines[..i])), text + l.term);
  }

  lemma FinishCopy(data: seq<byte>, lines: seq<Line>, rest: seq<byte>, out: seq<byte>, last: nat, masking: bool)
    requires data == data[..Lead(data)] + (Join(lines) + rest) && Copied(data, lines, |lines|, out, last, masking)
    ensures out + data[last..] == data[..Lead(data)] + Join(Redact(lines)) + rest
  {
    hide Lead, Redact, Masking, Join;
    assert lines[..|lines|] == lines;
    var at := Lead(data) + |Join(lines)|;
    Assoc(data[..Lead(data)], Join(lines), rest);
    TailOf(data, data[..Lead(data)] + Join(lines), rest);
    SliceSplit(data, last, at, |data|);
    Assoc(out, data[last..at], rest);
  }

  lemma TailOf(data: seq<byte>, front: seq<byte>, rest: seq<byte>)
    requires data == front + rest
    ensures |front| <= |data| && data[|front|..] == rest
  {
  }

  lemma CopyStart(data: seq<byte>, lines: seq<Line>)
    ensures Copied(data, lines, 0, [], 0, false)
  {
    assert lines[..0] == [] && data[0..Lead(data)] == data[..Lead(data)];
  }

  lemma MaskedIs(l: Line)
    requires IsAuth(l)
    ensures Masked(l) == l.text[..IndexByte(l.text, COLON, 0) + 1] + REDACTED
  {
  }

  lemma CopiedMasking(data: seq<byte>, lines: seq<Line>, i: nat, out: seq<byte>, last: nat, masking: bool)
    requires i < |lines| && Copied(data, lines, i, out, last, masking)
    ensures masking == Masking(lines[..i]) && (masking ==> i > 0 && Redact(lines[..i]) != [])
  {
    hide Redact, Masking, Join, Lead;
  }

  /** The callback of redactAuthHeaders: line i, at off. */
  method CopyLine(data: seq<byte>, i: nat, off: nat, line: seq<byte>, out: seq<byte>, last: nat, masking: bool,
    ghost lines: seq<Line>)
    returns (out': seq<byte>, last': nat, masking': bool)
    requires i < |lines| && Copied(data, lines, i, out, last, masking) && Stands(data, lines, i, off)
    requires line == lines[i].text != [] && last <= |data|
    ensures Copied(data, lines, i + 1, out', last', masking') && last' <= |data|
  {
    hide Redact, Masking, Join, Lead, Copied, IsAuthName, IndexByte, Masked;
    RedactStep(lines, i);
    CopiedMasking(data, lines, i, out, last, masking);
    out', last', masking' := out, last, masking;
    if i == 0 {
      CopyPlain(data, lines, i, off, out, last);
    } else if line[0] == SP || line[0] == TAB {
      if masking {
        CopyFold(data, lines, i, off, out, last);
        last' := off + |line|;
      } else {
        CopyPlain(data, lines, i, off, out, last);
      }
    } else {
      masking' := false;
      var c := IndexByte(line, COLON, 0);
      if c >= 0 && IsAuthName(line[..c]) {
        masking' := true;
        MaskedIs(lines[i]);
        CopyAs(data, lines, i, off, out, last, c, REDACTED);
        CopiedLast(data, lines, i, out, last, masking);
        out' := out + data[last..off + c + 1] + REDACTED;
        last' := off + |line|;
      } else {
        CopyPlain(data, lines, i, off, out, last);
      }
    }
  }

  lemma CopiedLast(data: seq<byte>, lines: seq<Line>, i: nat, out: seq<byte>, last: nat, masking: bool)
    requires i < |lines| && Copied(data, lines, i, out, last, masking)
    ensures last <= Lead(data) + |Join(lines[..i])|
  {
    hide Redact, Masking, Join, Lead;
  }

  /** redactAuthHeaders: data[..last] is already in out, or left out of it. */
  method RedactAuthHeaders(data: seq<byte>) returns (out: seq<byte>)
    ensures out == Redacted(data)
  {
    hide Redact, Masking, Join, Lead, Copied, Rest, Lines, Stands;
    var found, _ := HeaderLines(data, (i, f) => true);
    assert Lines(data[Lead(data)..])[..|found|] == Lines(data[Lead(data)..]);
    ghost var s := data[Lead(data)..];
    ghost var lines := Lines(s);
    Reassembled(s);
    assert data == data[..Lead(data)] + (Join(lines) + Rest(s));
    out := [];
    var last: nat := 0;
    var masking := false;
    CopyStart(data, lines);
    for i := 0 to |found|
      invariant Copied(data, lines, i, out, last, masking) && last <= |data|
    {
      LineIn(data, lines, Rest(s), i);
      assert lines[i] in lines;
      out, last, masking := CopyLine(data, i, found[i].off, found[i].text, out, last, masking, lines);
    }
    FinishCopy(data, lines, Rest(s), out, last, masking);
    out := out + data[last..];
  }

  // ---- Meaning of the rewriting ---------------------------------------------------------

  /** A masked header is still that header, and masks to itself. */
  lemma MaskedAuth(l: Line, term: seq<byte>)
    requires IsAuth(l)
    ensures var m := Line(Masked(l), term);
      IsAuth(m) && Masked(m) == m.text && m.text[|m.text| - 1] == 68
  {
    hide IsAuthName, IndexByte;
    var c := IndexByte(l.text, COLON, 0);
    var name := l.text[..c];
    assert l.text[0..c] == name && l.text[..c + 1] == name + [COLON];
    FirstByte(COLON, name, REDACTED);
    var text := Masked(l);
    Pieces(name, [COLON], REDACTED);
    assert text[..c + 1] == l.text[..c + 1] && text[0] == l.text[0];
  }

  /** The line is a masked header. */
  predicate IsMasked(l: Line) {
    IsAuth(l) && l.text == Masked(l)
  }

  lemma {:induction false} MaskingLast(lines: seq<Line>)
    ensures lines != [] ==> Redact(lines) != []
    ensures Masking(lines) ==> IsMasked(Redact(lines)[|Redact(lines)| - 1]) && |Redact(lines)| > 1
    decreases |lines|
  {
    hide IsAuth, Masked, IsFold;
    if |lines| > 1 {
      var init, l := lines[..|lines| - 1], lines[|lines| - 1];
      MaskingLast(init);
      AuthIsNoFold(l);
      if IsAuth(l) {
        MaskedAuth(l, l.term);
      } else if IsFold(l) && Masking(init) {
        var m := Redact(init)[|Redact(init)| - 1];
        SameText(m, l.term);
      }
    }
  }

  lemma SameText(m: Line, term: seq<byte>)
    ensures IsMasked(m) ==> IsMasked(m.(term := term))
    ensures IsAuth(m) <==> IsAuth(m.(term := term))
    ensures IsAuth(m) ==> Masked(m.(term := term)) == Masked(m)
  {
  }

  /** Redacting twice is redacting once. */
  lemma {:induction false} RedactTwice(lines: seq<Line>)
    ensures Redact(Redact(lines)) == Redact(lines) && Masking(Redact(lines)) == Masking(lines)
    decreases |lines|
  {
    hide IsAuth, Masked, IsFold;
    if |lines| > 1 {
      var init, l := lines[..|lines| - 1], lines[|lines| - 1];
      var r := Redact(init);
      RedactTwice(init);
      MaskingLast(init);
      AuthIsNoFold(l);
      if IsFold(l) && Masking(init) {
        var front, m := r[..|r| - 1], r[|r| - 1];
        SameText(m, l.term);
        assert r == front + [m];
        RedactHeader(front, m);
        RedactHeader(front, m.(term := l.term));
      } else if IsAuth(l) {
        MaskedAuth(l, l.term);
        RedactHeader(r, Line(Masked(l), l.term));
      } else {
        RedactPlain(r, l);
      }
    }
  }

  lemma RedactHeader(front: seq<Line>, m: Line)
    requires front != [] && IsMasked(m)
    ensures Redact(front + [m]) == Redact(front) + [m] && Masking(front + [m])
  {
    var all := front + [m];
    AuthIsNoFold(m);
    assert all[..|all| - 1] == front;
  }

  lemma RedactPlain(front: seq<Line>, l: Line)
    requires front != [] && !IsAuth(l) && (IsFold(l) ==> !Masking(front))
    ensures Redact(front + [l]) == Redact(front) + [l] && !Masking(front + [l])
  {
    var all := front + [l];
    assert all[..|all| - 1] == front;
  }

  /** The lines that belong to no masked header. */
  function Others(lines: seq<Line>): seq<Line> {
    if |lines| <= 1 then lines
    else
      var init, l := lines[..|lines| - 1], lines[|lines| - 1];
      if Masking(lines) then Others(init) else Others(init) + [l]
  }

  lemma OthersSnoc(front: seq<Line>, l: Line)
    requires front != []
    ensures Others(front + [l]) == if Masking(front + [l]) then Others(front) else Others(front) + [l]
  {
    assert (front + [l])[..|front|] == front;
  }

  /** Every other line stays as it is. */
  lemma {:induction false} OthersKept(lines: seq<Line>)
    ensures Others(Redact(lines)) == Others(lines)
    decreases |lines|
  {
    hide IsAuth, Masked, IsFold, Others, Redact, Masking;
    if |lines| > 1 {
      var init, l := lines[..|lines| - 1], lines[|lines| - 1];
      var r := Redact(init);
      assert lines[..|lines| - 1 + 1] == lines;
      RedactStep(lines, |lines| - 1);
      OthersKept(init);
      MaskingLast(init);
      RedactTwice(init);
      AuthIsNoFold(l);
      assert lines == init + [l];
      OthersSnoc(init, l);
      if IsFold(l) && Masking(init) {
        var front, m := r[..|r| - 1], r[|r| - 1];
        SameText(m, l.term);
        assert r == front + [m];
        RedactHeader(front, m);
        RedactHeader(front, m.(term := l.term));
        OthersSnoc(front, m);
        OthersSnoc(front, m.(term := l.term));
      } else if IsAuth(l) {
        MaskedAuth(l, l.term);
        RedactHeader(r, Line(Masked(l), l.term));
        OthersSnoc(r, Line(Masked(l), l.term));
      } else {
        RedactPlain(r, l);
        OthersSnoc(r, l);
      }
    } else {
      FewLines(lines);
    }
  }

  lemma FewLines(lines: seq<Line>)
    requires |lines| <= 1
    ensures Redact(lines) == lines
  {
  }

  /** Nothing of a credential is left: every header of that name in the result
      reads REDACTED, and no fold follows it. */
  lemma {:induction false} NothingLeft(lines: seq<Line>)
    ensures forall i :: 0 < i < |Redact(lines)| && IsAuth(Redact(lines)[i]) ==> IsMasked(Redact(lines)[i])
    ensures forall i :: 0 < i < |Redact(lines)| && IsFold(Redact(lines)[i]) ==> !IsAuth(Redact(lines)[i - 1]) || i == 1
    decreases |lines|
  {
    hide IsAuth, Masked, IsFold;
    if |lines| > 1 {
      var init, l := lines[..|lines| - 1], lines[|lines| - 1];
      NothingLeft(init);
      MaskingLast(init);
      AuthIsNoFold(l);
      if IsAuth(l) {
        MaskedAuth(l, l.term);
        AuthIsNoFold(Line(Masked(l), l.term));
      } else if IsFold(l) && Masking(init) {
        var m := Redact(init)[|Redact(init)| - 1];
        SameText(m, l.term);
        AuthIsNoFold(m);
        AuthIsNoFold(m.(term := l.term));
      } else if |init| > 1 && IsFold(l) {
        PlainLast(init);
      }
    }
  }

  /** When no header is being masked, the last line of the result is none. */
  lemma {:induction false} PlainLast(lines: seq<Line>)
    requires !Masking(lines) && |lines| > 1
    ensures !IsAuth(Redact(lines)[|Redact(lines)| - 1])
  {
  }

  // ---- No leak ------------------------------------------------------------------------------

  function LastTerm(h: Line, folds: seq<Line>): seq<byte> {
    if folds == [] then h.term else folds[|folds| - 1].term
  }

  /** A header to mask and its folds become one line. */
  lemma {:induction false} HeaderGroup(a: seq<Line>, h: Line, folds: seq<Line>)
    requires a != [] && IsAuth(h) && forall f <- folds :: IsFold(f)
    ensures Redact(a + [h] + folds) == Redact(a) + [Line(Masked(h), LastTerm(h, folds))]
    ensures Masking(a + [h] + folds)
    decreases |folds|
  {
    hide IsAuth, Masked, IsFold, Redact, Masking;
    var all := a + [h] + folds;
    var n := |all| - 1;
    AuthIsNoFold(h);
    RedactStep(all, n);
    assert all[..n + 1] == all;
    if folds == [] {
      assert all[..n] == a && all[n] == h;
    } else {
      var init := folds[..|folds| - 1];
      HeaderGroup(a, h, init);
      assert all[..n] == a + [h] + init;
      assert all[n] == folds[|folds| - 1] && folds[|folds| - 1] in folds;
    }
  }

  lemma ContinueOne(x: seq<Line>, y: seq<Line>, l: Line)
    requires x != [] && y != [] && Redact(x) == Redact(y) && Masking(x) == Masking(y)
    ensures Redact(x + [l]) == Redact(y + [l]) && Masking(x + [l]) == Masking(y + [l])
  {
    hide IsAuth, Masked, IsFold;
    assert (x + [l])[..|x|] == x && (y + [l])[..|y|] == y;
    AuthIsNoFold(l);
  }

  lemma {:induction false} Continues(x: seq<Line>, y: seq<Line>, b: seq<Line>)
    requires x != [] && y != [] && Redact(x) == Redact(y) && Masking(x) == Masking(y)
    ensures Redact(x + b) == Redact(y + b) && Masking(x + b) == Masking(y + b)
    decreases |b|
  {
    hide Redact, Masking;
    if b == [] {
      assert x + b == x && y + b == y;
    } else {
      var init, l := b[..|b| - 1], b[|b| - 1];
      Continues(x, y, init);
      ContinueOne(x + init, y + init, l);
      assert x + b == x + init + [l] && y + b == y + init + [l];
    }
  }

  /** Two header sections that differ only in the value and the folds of a masked
      header read the same when redacted. */
  lemma SecretIrrelevant(a: seq<Line>, h: Line, folds: seq<Line>, h': Line, folds': seq<Line>, b: seq<Line>)
    requires a != [] && IsAuth(h) && IsAuth(h') && Masked(h) == Masked(h')
    requires (forall f <- folds :: IsFold(f)) && (forall f <- folds' :: IsFold(f))
    requires LastTerm(h, folds) == LastTerm(h', folds')
    ensures Redact(a + [h] + folds + b) == Redact(a + [h'] + folds' + b)
  {
    hide IsAuth, Masked, IsFold, Redact, Masking, LastTerm;
    HeaderGroup(a, h, folds);
    HeaderGroup(a, h', folds');
    Continues(a + [h] + folds, a + [h'] + folds', b);
  }

  /** The same for messages. */
  lemma NoLeak(data: seq<byte>, data': seq<byte>, a: seq<Line>, h: Line, folds: seq<Line>, h': Line, folds': seq<Line>,
    b: seq<Line>)
    requires a != [] && IsAuth(h) && IsAuth(h') && Masked(h) == Masked(h')
    requires (forall f <- folds :: IsFold(f)) && (forall f <- folds' :: IsFold(f))
    requires LastTerm(h, folds) == LastTerm(h', folds')
    requires Lines(data[Lead(data)..]) == a + [h] + folds + b && Lines(data'[Lead(data')..]) == a + [h'] + folds' + b
    requires data[..Lead(data)] == data'[..Lead(data')] && Rest(data[Lead(data)..]) == Rest(data'[Lead(data')..])
    ensures Redacted(data) == Redacted(data')
  {
    hide IsAuth, Masked, IsFold, Redact, Lead, Lines, Rest, LastTerm;
    SecretIrrelevant(a, h, folds, h', folds', b);
  }

  // ---- The result read back -------------------------------------------------------------------

  predicate PlainEnd(text: seq<byte>) {
    text != [] && text[|text| - 1] != CR
  }

  /** l reads back as itself when followed by more data, or by none. */
  predicate Ended(l: Line, more: bool) {
    && l.text != [] && LF !in l.text
    && ((|l.term| == 2 && l.term[0] == CR && l.term[1] == LF)
      || (|l.term| == 1 && l.term[0] == LF && PlainEnd(l.text))
      || (!more && |l.term| == 1 && l.term[0] == CR)
      || (!more && l.term == [] && PlainEnd(l.text)))
  }

  ghost predicate Clean(lines: seq<Line>, more: bool) {
    forall i :: 0 <= i < |lines| ==> Ended(lines[i], more || i + 1 < |lines|)
  }

  lemma FirstLf(a: seq<byte>, b: seq<byte>)
    requires LF !in a
    ensures IndexByte(a + [LF] + b, LF, 0) == |a|
  {
    var s := a + [LF] + b;
    var r := IndexByte(s, LF, 0);
    assert s[|a|] == LF && s[0..] == s;
    forall i | 0 <= i < |a| ensures s[i] != LF {
      assert s[i] == a[i] && a[i] in a;
    }
    forall i | 0 <= i < r ensures s[i] != LF {
      assert s[0..r][i] == s[i];
    }
  }

  lemma NoLf(a: seq<byte>)
    requires LF !in a
    ensures IndexByte(a, LF, 0) < 0
  {
    assert a[0..] == a;
  }

  /** A line whose LF, if it has one, is at e. */
  /** The first line of s ends at e, its LF or the end of s. */
  lemma Lengths(s: seq<byte>, e: nat)
    requires e <= |s| && (IndexByte(s, LF, 0) == e < |s| || (IndexByte(s, LF, 0) < 0 && e == |s|))
    ensures TextLen(s) == if e > 0 && s[e - 1] == CR then e - 1 else e
    ensures RawLen(s) == if e < |s| then e + 1 else e
  {
    hide IndexByte;
  }

  lemma ReadsTo(s: seq<byte>, l: Line, tail: seq<byte>, e: nat)
    requires s == l.text + l.term + tail && l.text != []
    requires e <= |s| && (IndexByte(s, LF, 0) == e < |s| || (IndexByte(s, LF, 0) < 0 && e == |s|))
    requires (if e < |s| then e + 1 else e) == |l.text| + |l.term|
    requires |l.text| == if e > 0 && s[e - 1] == CR then e - 1 else e
    ensures TextLen(s) == |l.text| && RawLen(s) == |l.text| + |l.term| && FirstLine(s) == l && s[RawLen(s)..] == tail
  {
    hide IndexByte, TextLen, RawLen;
    Lengths(s, e);
    Pieces(l.text, l.term, tail);
  }

  lemma LineReads(l: Line, tail: seq<byte>)
    requires Ended(l, tail != [])
    ensures var s := l.text + l.term + tail;
      TextLen(s) == |l.text| && RawLen(s) == |l.text| + |l.term| && FirstLine(s) == l && s[RawLen(s)..] == tail
  {
    hide IndexByte, TextLen, RawLen, FirstLine;
    var s := l.text + l.term + tail;
    if |l.term| == 2 {
      assert l.term == [CR] + [LF];
      assert s == (l.text + [CR]) + [LF] + tail;
      FirstLf(l.text + [CR], tail);
      ReadsTo(s, l, tail, |l.text| + 1);
    } else if |l.term| == 1 && l.term[0] == LF {
      assert l.term == [LF];
      FirstLf(l.text, tail);
      ReadsTo(s, l, tail, |l.text|);
    } else {
      assert s == l.text + l.term;
      NoLf(s);
      ReadsTo(s, l, tail, |s|);
    }
  }

  /** Clean lines read back as they were written. */
  lemma {:induction false} ReadBack(lines: seq<Line>, rest: seq<byte>)
    requires Clean(lines, rest != []) && (rest == [] || TextLen(rest) == 0)
    ensures Lines(Join(lines) + rest) == lines && Rest(Join(lines) + rest) == rest
    decreases |lines|
  {
    hide TextLen, RawLen, Join, Ended;
    NothingJoined();
    if lines == [] {
      assert Join(lines) + rest == rest;
    } else {
      var l, more := lines[0], lines[1..];
      var tail := Join(more) + rest;
      assert lines == [l] + more;
      JoinConcat([l], more);
      JoinOne(l);
      assert Join(lines) + rest == l.text + l.term + tail;
      ReadBack(more, rest);
      EndedBefore(l, more, rest);
      LineReads(l, tail);
      EndedText(l, tail != []);
    }
  }

  lemma EndedText(l: Line, more: bool)
    requires Ended(l, more)
    ensures l.text != []
  {
  }

  lemma EndedBefore(l: Line, more: seq<Line>, rest: seq<byte>)
    requires Ended(l, rest != [] || more != [])
    ensures Ended(l, Join(more) + rest != [])
  {
    if more == [] {
      assert Join(more) + rest == rest;
    }
  }

  /** What is read is clean. */
  lemma {:induction false} ReadsClean(s: seq<byte>)
    ensures Clean(Lines(s), Rest(s) != []) && (Rest(s) == [] || TextLen(Rest(s)) == 0)
    decreases |s|
  {
    hide TextLen, RawLen, Ended, FirstLine;
    if s != [] && TextLen(s) > 0 {
      var tail := s[RawLen(s)..];
      ReadsClean(tail);
      FirstEnded(s);
      if Lines(tail) == [] && Rest(tail) == [] {
        assert tail == [];
      } else {
        assert tail != [];
      }
    }
  }

  lemma FirstEnded(s: seq<byte>)
    requires s != [] && TextLen(s) > 0
    ensures Ended(FirstLine(s), s[RawLen(s)..] != [])
    ensures Ended(FirstLine(s), false)
  {
    var lf := IndexByte(s, LF, 0);
    assert s[0..] == s;
    if lf >= 0 {
      assert s[0..lf] == s[..lf];
    }
  }

  lemma EndedMasked(l: Line, term: seq<byte>, other: Line, more: bool)
    requires IsMasked(l) && LF !in l.text && Ended(other, more)
    ensures Ended(l.(term := other.term), more)
  {
    MaskedAuth(l, l.term);
  }

  lemma EndedAuth(l: Line, more: bool)
    requires IsAuth(l) && Ended(l, more)
    ensures Ended(Line(Masked(l), l.term), more)
  {
    hide IsAuth, Masked;
    MaskedAuth(l, l.term);
    MaskedNoLf(l);
  }

  lemma MaskedNoLf(l: Line)
    requires IsAuth(l) && LF !in l.text
    ensures LF !in Masked(l) && Masked(l) != []
  {
    var c := IndexByte(l.text, COLON, 0);
    assert forall b <- l.text[..c + 1] :: b in l.text;
    assert forall b <- REDACTED :: b != LF;
  }

  /** Redacting keeps lines clean. */
  lemma {:induction false} RedactClean(lines: seq<Line>, more: bool)
    requires Clean(lines, more)
    ensures Clean(Redact(lines), more)
    decreases |lines|
  {
    hide IsAuth, Masked, IsFold, Ended, Clean;
    if |lines| > 1 {
      var init, l := lines[..|lines| - 1], lines[|lines| - 1];
      CleanSplit(lines, more);
      RedactClean(init, true);
      MaskingLast(init);
      var r := Redact(init);
      if IsFold(l) && Masking(init) {
        CleanSplit(r, true);
        EndedNoLf(r[|r| - 1], true);
        EndedMasked(r[|r| - 1], l.term, l, more);
        CleanSnoc(r[..|r| - 1], r[|r| - 1].(term := l.term), more);
      } else if IsAuth(l) {
        EndedAuth(l, more);
        CleanSnoc(r, Line(Masked(l), l.term), more);
      } else {
        CleanSnoc(r, l, more);
      }
    }
  }

  lemma CleanSplit(lines: seq<Line>, more: bool)
    requires Clean(lines, more) && lines != []
    ensures Clean(lines[..|lines| - 1], true) && Ended(lines[|lines| - 1], more)
  {
    hide Ended;
    var init := lines[..|lines| - 1];
    forall i | 0 <= i < |init| ensures Ended(init[i], true) {
      assert Ended(lines[i], more || i + 1 < |lines|);
    }
    assert Ended(lines[|init|], more || |init| + 1 < |lines|);
  }

  lemma CleanSnoc(init: seq<Line>, l: Line, more: bool)
    requires Clean(init, true) && Ended(l, more)
    ensures Clean(init + [l], more)
  {
    hide Ended;
    var lines := init + [l];
    forall i | 0 <= i < |lines| ensures Ended(lines[i], more || i + 1 < |lines|) {
      assert i < |init| ==> Ended(init[i], true || i + 1 < |init|);
    }
  }

  lemma EndedNoLf(l: Line, more: bool)
    requires Ended(l, more)
    ensures LF !in l.text
  {
  }

  lemma LeadKept(data: seq<byte>, out: seq<byte>)
    requires data[..Lead(data)] <= out && (|out| == Lead(data) || !IsCrLf(out[Lead(data)]))
    ensures Lead(out) == Lead(data)
  {
    var n, m := Lead(data), Lead(out);
    assert out[..n] == data[..n];
    forall i | 0 <= i < n ensures IsCrLf(out[i]) {
      assert out[i] == data[..n][i] && data[..n][i] in data[..n];
    }
    forall i | 0 <= i < m ensures IsCrLf(out[i]) {
      assert out[..m][i] == out[i] && out[..m][i] in out[..m];
    }
  }

  lemma {:induction false} StartLineKept(lines: seq<Line>)
    ensures lines != [] ==> Redact(lines) != [] && Redact(lines)[0].text == lines[0].text
    decreases |lines|
  {
    if |lines| > 1 {
      StartLineKept(lines[..|lines| - 1]);
      MaskingLast(lines[..|lines| - 1]);
    }
  }

  lemma {:induction false} JoinStarts(lines: seq<Line>)
    requires lines != [] && lines[0].text != []
    ensures Join(lines) != [] && Join(lines)[0] == lines[0].text[0]
    decreases |lines|
  {
    if |lines| == 1 {
      JoinOne(lines[0]);
      assert lines == [lines[0]];
    } else {
      JoinStarts(lines[..|lines| - 1]);
    }
  }

  /** The result read line by line: the same bytes before the start line, the
      redacted header section, the same empty line and body. */
  lemma ReadsRedacted(data: seq<byte>)
    ensures var s, out := data[Lead(data)..], Redacted(data);
      && Lead(out) == Lead(data) && out[..Lead(out)] == data[..Lead(data)]
      && Lines(out[Lead(out)..]) == Redact(Lines(s)) && Rest(out[Lead(out)..]) == Rest(s)
  {
    hide Redact, Lines, Rest, Lead, Join, Clean;
    var s, out := data[Lead(data)..], Redacted(data);
    var lines, rest := Lines(s), Rest(s);
    var kept := Join(Redact(lines)) + rest;
    ReadsClean(s);
    RedactClean(lines, rest != []);
    ReadBack(Redact(lines), rest);
    assert out == data[..Lead(data)] + kept;
    Reassembled(s);
    StartsPlain(data, lines, rest);
    LeadKept(data, out);
  }

  lemma StartsPlain(data: seq<byte>, lines: seq<Line>, rest: seq<byte>)
    requires data[Lead(data)..] == Join(lines) + rest && (forall l <- lines :: l.text != [])
    ensures var kept := Join(Redact(lines)) + rest; kept == [] || !IsCrLf(kept[0])
  {
    StartLineKept(lines);
    if lines != [] {
      assert lines[0] in lines;
      JoinStarts(lines);
      JoinStarts(Redact(lines));
    }
  }

  /** The body, the empty line, the start line and every line of another header
      come out as they went in. */
  lemma OnlyCredentialsChange(data: seq<byte>)
    ensures var s, out := data[Lead(data)..], Redacted(data);
      && out[..Lead(out)] == data[..Lead(data)]
      && Others(Lines(out[Lead(out)..])) == Others(Lines(s)) && Rest(out[Lead(out)..]) == Rest(s)
  {
    ReadsRedacted(data);
    OthersKept(Lines(data[Lead(data)..]));
  }

  /** Redacting a message twice is redacting it once. */
  lemma Idempotent(data: seq<byte>)
    ensures Redacted(Redacted(data)) == Redacted(data)
  {
    ReadsRedacted(data);
    RedactTwice(Lines(data[Lead(data)..]));
  }
}
