/**
 Redaction of a message as it is written on the wire (internal/edge/hepmirror.go):
 start line, headers with any folds, empty line, body.
 */
module RedactionWire {
  import opened Bytes
  import opened Redaction
  import opened Sequences

  /** A header: its name, spaces before the colon, what follows the colon on the
      line, and the continuation lines. */
  datatype HeaderText = HeaderText(name: seq<byte>, gap: nat, value: seq<byte>, folds: seq<seq<byte>>)

  predicate Credential(name: seq<byte>) {
    Spells(name, "authorization") || Spells(name, "proxy-authorization")
  }

  ghost predicate WellFormed(h: HeaderText) {
    && h.name != [] && (forall b <- h.name :: Graphic(b) && b != 58) && 10 !in h.value
    && forall f <- h.folds :: f != [] && (f[0] == 32 || f[0] == 9) && 10 !in f
  }

  function NameLine(h: HeaderText): seq<byte> {
    h.name + Repeat(32, h.gap) + [58] + h.value
  }

  const CRLF: seq<byte> := [13, 10]

  function FoldsOnWire(folds: seq<seq<byte>>): seq<byte> {
    if folds == [] then [] else FoldsOnWire(folds[..|folds| - 1]) + (folds[|folds| - 1] + CRLF)
  }

  function HeadersOnWire(hs: seq<HeaderText>): seq<byte> {
    if hs == [] then []
    else
      var h := hs[|hs| - 1];
      HeadersOnWire(hs[..|hs| - 1]) + (NameLine(h) + CRLF + FoldsOnWire(h.folds))
  }

  /** A message: blank lines that may precede it, its lines each ended by CRLF, the
      empty line, the body. */
  function OnWire(lead: seq<byte>, start: seq<byte>, hs: seq<HeaderText>, body: seq<byte>): seq<byte> {
    lead + (start + CRLF + HeadersOnWire(hs) + (CRLF + body))
  }

  /** The credential is gone: the name stays, the value reads REDACTED, and no
      continuation is left. */
  function Blanked(h: HeaderText): HeaderText {
    if Credential(h.name) then h.(value := [32, 82, 69, 68, 65, 67, 84, 69, 68], folds := []) else h
  }

  function AllBlanked(hs: seq<HeaderText>): seq<HeaderText> {
    if hs == [] then [] else AllBlanked(hs[..|hs| - 1]) + [Blanked(hs[|hs| - 1])]
  }

  // ---- Lines -------------------------------------------------------------------------------

  function FoldLines(folds: seq<seq<byte>>): seq<Line> {
    if folds == [] then [] else FoldLines(folds[..|folds| - 1]) + [Line(folds[|folds| - 1], CRLF)]
  }

  function HeaderLinesOf(hs: seq<HeaderText>): seq<Line> {
    if hs == [] then []
    else
      var h := hs[|hs| - 1];
      HeaderLinesOf(hs[..|hs| - 1]) + [Line(NameLine(h), CRLF)] + FoldLines(h.folds)
  }

  lemma CredentialNames(name: seq<byte>)
    ensures Credential(name) <==> Named(name, "authorization") || Named(name, "proxy-authorization")
  {
    SpellsNamed(name, "authorization");
    SpellsNamed(name, "proxy-authorization");
  }

  lemma NameTrimmed(h: HeaderText)
    requires WellFormed(h)
    ensures TrimSpace(h.name + Repeat(32, h.gap)) == h.name
  {
    assert h.name[0] in h.name && h.name[|h.name| - 1] in h.name;
    assert Repeat(32, 0) + h.name + Repeat(32, h.gap) == h.name + Repeat(32, h.gap);
    TrimPadded(0, h.name, h.gap);
  }

  /** A header line is one of a credential exactly by its name, whatever its case. */
  lemma NameLineIs(h: HeaderText)
    requires WellFormed(h)
    ensures var l := Line(NameLine(h), CRLF);
      && l.text != [] && !IsFold(l) && (IsAuth(l) <==> Credential(h.name))
      && (IsAuth(l) ==> Masked(l) == h.name + Repeat(32, h.gap) + [58] + [32, 82, 69, 68, 65, 67, 84, 69, 68])
  {
    hide TrimSpace, Named, Credential;
    var front, l := h.name + Repeat(32, h.gap), Line(NameLine(h), CRLF);
    assert h.name[0] in h.name && l.text[0] == h.name[0];
    forall b | b in front ensures b != 58 {
      assert b in h.name || b in Repeat(32, h.gap);
    }
    FirstByte(58, front, h.value);
    assert l.text[..|front|] == front && l.text[..|front| + 1] == front + [58];
    NameTrimmed(h);
    CredentialNames(h.name);
  }

  lemma {:induction false} FoldLinesAre(folds: seq<seq<byte>>)
    requires forall f <- folds :: f != [] && (f[0] == 32 || f[0] == 9) && 10 !in f
    ensures forall l <- FoldLines(folds) :: IsFold(l) && !IsAuth(l) && Ended(l, true)
    ensures Join(FoldLines(folds)) == FoldsOnWire(folds)
    decreases |folds|
  {
    NothingJoined();
    if folds != [] {
      var init, f := folds[..|folds| - 1], folds[|folds| - 1];
      assert f in folds && folds == init + [f];
      FoldLinesAre(init);
      FoldIs(f);
      JoinSnoc(FoldLines(init), Line(f, CRLF));
    }
  }

  lemma FoldIs(f: seq<byte>)
    requires f != [] && (f[0] == 32 || f[0] == 9) && 10 !in f
    ensures IsFold(Line(f, CRLF)) && !IsAuth(Line(f, CRLF)) && Ended(Line(f, CRLF), true)
  {
  }

  lemma NameLineEnded(h: HeaderText)
    requires WellFormed(h)
    ensures Ended(Line(NameLine(h), CRLF), true)
  {
    forall b | b in NameLine(h) ensures b != 10 {
      assert b in h.name || b in Repeat(32, h.gap) || b == 58 || b in h.value;
    }
  }

  lemma {:induction false} HeaderLinesAre(hs: seq<HeaderText>)
    requires forall h <- hs :: WellFormed(h)
    ensures forall l <- HeaderLinesOf(hs) :: Ended(l, true)
    ensures Join(HeaderLinesOf(hs)) == HeadersOnWire(hs)
    decreases |hs|
  {
    hide Ended, WellFormed, FoldLines, FoldsOnWire, NameLine, Join;
    NothingJoined();
    if hs != [] {
      var init, h := hs[..|hs| - 1], hs[|hs| - 1];
      assert h in hs;
      HeaderLinesAre(init);
      OneHeader(h);
      NameLineEnded(h);
      var own := Line(NameLine(h), CRLF);
      JoinConcat(HeaderLinesOf(init) + [own], FoldLines(h.folds));
      JoinSnoc(HeaderLinesOf(init), own);
      Assoc(HeadersOnWire(init), NameLine(h) + CRLF, FoldsOnWire(h.folds));
    }
  }

  lemma OneHeader(h: HeaderText)
    requires WellFormed(h)
    ensures forall l <- FoldLines(h.folds) :: IsFold(l) && !IsAuth(l) && Ended(l, true)
    ensures Join(FoldLines(h.folds)) == FoldsOnWire(h.folds)
  {
    FoldLinesAre(h.folds);
  }

  // ---- The rewriting -------------------------------------------------------------------------

  /** The folds of a header that is no credential stay. */
  lemma {:induction false} PlainFolds(front: seq<Line>, folds: seq<Line>)
    requires front != [] && !Masking(front) && forall l <- folds :: IsFold(l) && !IsAuth(l)
    ensures Redact(front + folds) == Redact(front) + folds && !Masking(front + folds)
    decreases |folds|
  {
    hide IsFold, IsAuth, Redact, Masking;
    if folds == [] {
      assert front + folds == front && Redact(front) + folds == Redact(front);
    } else {
      var init, l := folds[..|folds| - 1], folds[|folds| - 1];
      assert l in folds && folds == init + [l];
      PlainFolds(front, init);
      RedactPlain(front + init, l);
      assert front + folds == front + init + [l];
      assert Redact(front) + folds == Redact(front) + init + [l];
    }
  }

  lemma HeaderRedacted(front: seq<Line>, h: HeaderText)
    requires front != [] && WellFormed(h)
    ensures var own := Line(NameLine(h), CRLF);
      Redact(front + [own] + FoldLines(h.folds)) ==
        Redact(front) + [Line(NameLine(Blanked(h)), CRLF)] + FoldLines(Blanked(h).folds)
  {
    hide WellFormed, Redact, Masking, IsAuth, IsFold, NameLine, Masked, Ended, Credential, FoldLines;
    var own, folds := Line(NameLine(h), CRLF), FoldLines(h.folds);
    OneHeader(h);
    NameLineIs(h);
    NothingFolded();
    if Credential(h.name) {
      HeaderGroup(front, own, folds);
      LastIsCrlf(h.folds, own);
      BlankedLine(h);
      assert Redact(front) + [Line(Masked(own), CRLF)] + [] == Redact(front) + [Line(Masked(own), CRLF)];
    } else {
      RedactPlain(front, own);
      PlainFolds(front + [own], folds);
    }
  }

  lemma NothingFolded()
    ensures FoldLines([]) == []
  {
  }

  lemma BlankedLine(h: HeaderText)
    requires Credential(h.name)
    ensures NameLine(Blanked(h)) == h.name + Repeat(32, h.gap) + [58] + [32, 82, 69, 68, 65, 67, 84, 69, 68]
    ensures Blanked(h).folds == []
  {
  }

  lemma LastIsCrlf(folds: seq<seq<byte>>, own: Line)
    requires own.term == CRLF
    ensures LastTerm(own, FoldLines(folds)) == CRLF
  {
  }

  lemma {:induction false} HeadersRedacted(start: Line, hs: seq<HeaderText>)
    requires forall h <- hs :: WellFormed(h)
    ensures Redact([start] + HeaderLinesOf(hs)) == [start] + HeaderLinesOf(AllBlanked(hs))
    decreases |hs|
  {
    hide WellFormed, NameLine, FoldLines, Blanked, Redact, HeaderLinesOf, AllBlanked;
    if hs == [] {
      StartStays(start);
    } else {
      var init, h := hs[..|hs| - 1], hs[|hs| - 1];
      assert h in hs;
      HeadersRedacted(start, init);
      HeaderRedacted([start] + HeaderLinesOf(init), h);
      LastLines(start, hs);
      BlankedLast(hs);
      LastLines(start, AllBlanked(hs));
    }
  }

  lemma LastLines(start: Line, hs: seq<HeaderText>)
    requires hs != []
    ensures var h := hs[|hs| - 1];
      [start] + HeaderLinesOf(hs) ==
        [start] + HeaderLinesOf(hs[..|hs| - 1]) + [Line(NameLine(h), CRLF)] + FoldLines(h.folds)
  {
    hide NameLine, FoldLines;
    var h, init := hs[|hs| - 1], HeaderLinesOf(hs[..|hs| - 1]);
    var own, folds := [Line(NameLine(h), CRLF)], FoldLines(h.folds);
    assert HeaderLinesOf(hs) == init + own + folds;
    Assoc([start], init + own, folds);
    Assoc([start], init, own);
  }

  lemma BlankedLast(hs: seq<HeaderText>)
    requires hs != []
    ensures var all := AllBlanked(hs);
      all != [] && all[..|all| - 1] == AllBlanked(hs[..|hs| - 1]) && all[|all| - 1] == Blanked(hs[|hs| - 1])
  {
    hide Blanked;
  }

  lemma StartStays(start: Line)
    ensures Redact([start] + HeaderLinesOf([])) == [start] + HeaderLinesOf(AllBlanked([]))
  {
    assert [start] + [] == [start];
  }

  // ---- The message -----------------------------------------------------------------------------

  lemma LeadIs(lead: seq<byte>, rest: seq<byte>)
    requires (forall b <- lead :: b == 13 || b == 10) && rest != [] && rest[0] != 13 && rest[0] != 10
    ensures Lead(lead + rest) == |lead| && (lead + rest)[..|lead|] == lead && (lead + rest)[|lead|..] == rest
  {
    var data := lead + rest;
    var n := Lead(data);
    assert data[|lead|] == rest[0];
    forall j | 0 <= j < |lead| ensures IsCrLf(data[j]) {
      assert data[j] == lead[j] && lead[j] in lead;
    }
    forall j | 0 <= j < n ensures IsCrLf(data[j]) {
      assert data[..n][j] == data[j] && data[..n][j] in data[..n];
    }
  }

  lemma EmptyLineFirst(body: seq<byte>)
    ensures TextLen(CRLF + body) == 0
  {
    assert CRLF + body == [13] + [10] + body;
    FirstByte(LF, [13], body);
    assert (CRLF + body)[0] == 13;
  }

  /** A message redacted is the message with each Authorization and
      Proxy-Authorization header, in whatever case, blanked, and every other byte as
      it was. */
  lemma MessageRedacted(lead: seq<byte>, start: seq<byte>, hs: seq<HeaderText>, body: seq<byte>)
    requires (forall b <- lead :: b == 13 || b == 10) && forall h <- hs :: WellFormed(h)
    requires start != [] && start[0] != 13 && 10 !in start
    ensures Redacted(OnWire(lead, start, hs, body)) == OnWire(lead, start, AllBlanked(hs), body)
  {
    hide WellFormed, Redact, Lead, Lines, Rest, TextLen, HeadersOnWire, HeaderLinesOf, AllBlanked, Join;
    var first, rest := Line(start, CRLF), CRLF + body;
    var lines := [first] + HeaderLinesOf(hs);
    var s := start + CRLF + HeadersOnWire(hs) + rest;
    LinesJoined(start, hs);
    LinesClean(start, hs);
    EmptyLineFirst(body);
    ReadBack(lines, rest);
    assert start[0] in start && s[0] == start[0];
    LeadIs(lead, s);
    HeadersRedacted(first, hs);
    BlankedWellFormed(hs);
    LinesJoined(start, AllBlanked(hs));
    Assoc(lead, start + CRLF + HeadersOnWire(AllBlanked(hs)), rest);
  }

  lemma LinesJoined(start: seq<byte>, hs: seq<HeaderText>)
    requires forall h <- hs :: WellFormed(h)
    ensures Join([Line(start, CRLF)] + HeaderLinesOf(hs)) == start + CRLF + HeadersOnWire(hs)
  {
    hide WellFormed, HeaderLinesOf, HeadersOnWire, Join;
    HeaderLinesAre(hs);
    JoinConcat([Line(start, CRLF)], HeaderLinesOf(hs));
    JoinOne(Line(start, CRLF));
  }

  lemma LinesClean(start: seq<byte>, hs: seq<HeaderText>)
    requires start != [] && 10 !in start && forall h <- hs :: WellFormed(h)
    ensures Clean([Line(start, CRLF)] + HeaderLinesOf(hs), true)
  {
    hide WellFormed, HeaderLinesOf;
    HeaderLinesAre(hs);
    var lines := [Line(start, CRLF)] + HeaderLinesOf(hs);
    forall i | 0 <= i < |lines| ensures Ended(lines[i], true) {
      assert i > 0 ==> lines[i] in HeaderLinesOf(hs);
    }
  }

  lemma {:induction false} BlankedWellFormed(hs: seq<HeaderText>)
    requires forall h <- hs :: WellFormed(h)
    ensures forall h <- AllBlanked(hs) :: WellFormed(h)
    decreases |hs|
  {
    if hs != [] {
      assert hs[|hs| - 1] in hs;
      BlankedWellFormed(hs[..|hs| - 1]);
    }
  }
}
