/**
 Whole header blocks, line by line, and what the stream framer makes of them
 (internal/edge/stream.go): which lines state a body length, in whatever spelling,
 and what a block of such and other lines comes to.
 */
module HeaderBlocks {
  import opened Bytes
  import opened Options
  import opened SipFraming

  datatype Sign = Plain | Plus | Minus

  /** A line that states a length: its name, spaces before the colon, spaces, sign
      and leading zeros before the number, and spaces after it. One whose value is no
      number. Any other line. */
  datatype HeadLine =
    | LengthLine(name: seq<byte>, gap: nat, pad: nat, sign: Sign, zeros: nat, n: nat, tail: nat)
    | BadLength(name: seq<byte>, gap: nat, value: seq<byte>)
    | OtherLine(text: seq<byte>)

  predicate IsLength(name: seq<byte>) {
    Spells(name, "content-length") || Spells(name, "l")
  }

  /** n in decimal digits. */
  function Digits(n: nat): (v: seq<byte>)
    ensures v != [] && forall b <- v :: IsDigit(b)
  {
    if n < 10 then [n + 48] else Digits(n / 10) + [n % 10 + 48]
  }

  function Value(l: HeadLine): seq<byte>
    requires l.LengthLine?
  {
    var sign: seq<byte> := match l.sign
      case Plain => []
      case Plus => [43]
      case Minus => [45];
    sign + (Repeat(48, l.zeros) + Digits(l.n))
  }

  function Text(l: HeadLine): seq<byte> {
    match l
    case LengthLine(name, gap, pad, _, _, _, tail) =>
      name + Repeat(32, gap) + [58] + (Repeat(32, pad) + Value(l) + Repeat(32, tail))
    case BadLength(name, gap, value) => name + Repeat(32, gap) + [58] + value
    case OtherLine(text) => text
  }

  /** The byte can be part of a number. */
  predicate InNumber(b: byte) {
    48 <= b <= 57 || b == 43 || b == 45
  }

  /** The line is what its case says: another line is a continuation, or has no
      colon, or another name before it. */
  ghost predicate WellFormed(l: HeadLine) {
    match l
    case LengthLine(name, _, _, _, _, _, _) => IsLength(name)
    case BadLength(name, _, value) =>
      && IsLength(name) && 13 !in value
      && (value == [] || (Graphic(value[0]) && Graphic(value[|value| - 1]) && exists b <- value :: !InNumber(b)))
    case OtherLine(text) =>
      && text != [] && 13 !in text
      && (text[0] == 32 || text[0] == 9
        || forall c :: 0 <= c < |text| && text[c] == 58 && 58 !in text[..c] ==> !IsLength(TrimSpace(text[..c])))
  }

  /** The lines, each ended by CRLF, and the empty line. */
  function HeadBlock(lines: seq<HeadLine>): seq<byte> {
    if lines == [] then [13, 10] else Text(lines[0]) + [13, 10] + HeadBlock(lines[1..])
  }

  /** The numbers stated, none for a value the framer accepts no number in: one past
      64 bits, or a negative one. */
  function Stated(lines: seq<HeadLine>): seq<Option<nat>> {
    if lines == [] then []
    else
      Stated(lines[..|lines| - 1]) +
      match lines[|lines| - 1]
      case LengthLine(_, _, _, sign, _, n, _) =>
        [if n > 0x7FFF_FFFF_FFFF_FFFF || (sign == Minus && n > 0) then None else Some(n)]
      case BadLength(_, _, _) => [None]
      case OtherLine(_) => []
  }

  /** The lines state n: none states anything and n is 0, or each that does states
      n. */
  predicate Declare(lines: seq<HeadLine>, n: nat) {
    if Stated(lines) == [] then n == 0 else forall i :: 0 <= i < |Stated(lines)| ==> Stated(lines)[i] == Some(n)
  }

  // ---- Names and numbers ---------------------------------------------------------------

  lemma LengthNames(name: seq<byte>)
    ensures IsLength(name) <==> Named(name, "content-length") || Named(name, "l")
  {
    SpellsNamed(name, "content-length");
    SpellsNamed(name, "l");
  }

  lemma LengthGraphic(name: seq<byte>)
    requires IsLength(name)
    ensures name != [] && 13 !in name && 10 !in name && 58 !in name && forall b <- name :: Graphic(b)
  {
    forall i | 0 <= i < |name| ensures name[i] != 58 && Graphic(name[i]) {
    }
  }

  lemma {:induction false} DecimalDigits(n: nat)
    ensures Decimal(Digits(n)) == n
  {
    var v := Digits(n);
    assert v[..|v| - 1] == if n < 10 then [] else Digits(n / 10);
    if n >= 10 {
      DecimalDigits(n / 10);
    }
  }

  lemma {:induction false} DecimalZeros(k: nat, v: seq<byte>)
    requires forall b <- v :: IsDigit(b)
    ensures forall b <- Repeat(48, k) + v :: IsDigit(b)
    ensures Decimal(Repeat(48, k) + v) == Decimal(v)
    decreases |v|
  {
    var all := Repeat(48, k) + v;
    if v == [] {
      assert all == Repeat(48, k);
      DecimalNought(k);
    } else {
      assert all[..|all| - 1] == Repeat(48, k) + v[..|v| - 1];
      DecimalZeros(k, v[..|v| - 1]);
    }
  }

  lemma {:induction false} DecimalNought(k: nat)
    ensures forall b <- Repeat(48, k) :: IsDigit(b)
    ensures Decimal(Repeat(48, k)) == 0
  {
    if k > 0 {
      RepeatSnoc(48, k);
      var s := Repeat(48, k);
      assert s[..k - 1] == Repeat(48, k - 1);
      DecimalNought(k - 1);
    }
  }

  lemma ValueNumber(l: HeadLine)
    requires l.LengthLine?
    ensures var v := Value(l);
      && v != [] && Graphic(v[0]) && Graphic(v[|v| - 1]) && 13 !in v
      && match Atoi(v)
         case None => l.n > MAX_INT
         case Some(x) => x == if l.sign == Minus then 0 - l.n else l.n
  {
    hide Decimal, Digits;
    var digits := Repeat(48, l.zeros) + Digits(l.n);
    DecimalZeros(l.zeros, Digits(l.n));
    DecimalDigits(l.n);
    assert digits != [] && digits[0] in digits;
    match l.sign
    case Plain =>
      assert Value(l) == digits;
      PlainNumber(digits);
    case Plus => SignedNumber(43, digits);
    case Minus => SignedNumber(45, digits);
  }

  lemma PlainNumber(digits: seq<byte>)
    requires digits != [] && forall b <- digits :: IsDigit(b)
    ensures Graphic(digits[0]) && Graphic(digits[|digits| - 1]) && 13 !in digits
    ensures Atoi(digits) == if Decimal(digits) <= MAX_INT then Some(Decimal(digits)) else None
  {
    hide Decimal;
    assert digits[0] in digits && digits[|digits| - 1] in digits;
  }

  lemma SignedNumber(sign: byte, digits: seq<byte>)
    requires (sign == 43 || sign == 45) && digits != [] && forall b <- digits :: IsDigit(b)
    ensures var v := [sign] + digits;
      && Graphic(v[0]) && Graphic(v[|v| - 1]) && 13 !in v
      && match Atoi(v)
         case None => Decimal(digits) > MAX_INT
         case Some(x) => x == if sign == 45 then 0 - Decimal(digits) else Decimal(digits)
  {
    hide Decimal;
    var v := [sign] + digits;
    assert v[1..] == digits && v[|v| - 1] == digits[|digits| - 1];
    assert digits[|digits| - 1] in digits;
  }

  lemma BadNumber(value: seq<byte>)
    requires value == [] || exists b <- value :: !InNumber(b)
    ensures Atoi(value) == None
  {
    if value != [] {
      var b :| b in value && !InNumber(b);
      assert value == [value[0]] + value[1..];
      assert !IsDigit(b) && (value[0] == 43 || value[0] == 45 ==> b in value[1..]);
    }
  }

  // ---- One line ------------------------------------------------------------------------

  /** A line with a length's name says what its value says. */
  lemma NamedLine(name: seq<byte>, gap: nat, value: seq<byte>)
    requires IsLength(name)
    ensures LengthField(name + Repeat(32, gap) + [58] + value) == Some(LengthNumber(value))
  {
    hide IsLength, LengthField, Graphic, Repeat;
    var front := name + Repeat(32, gap);
    LengthGraphic(name);
    forall b | b in front ensures b != 58 {
      assert b in name || b in Repeat(32, gap);
    }
    assert front[0] == name[0] && name[0] in name && name[|name| - 1] in name;
    NothingBefore(name, gap);
    TrimPadded(0, name, gap);
    LengthNames(name);
    GraphicByte(name[0]);
    ColonLine(front, value);
  }

  lemma GraphicByte(b: byte)
    requires Graphic(b)
    ensures b != 32 && b != 9
  {
  }

  lemma NothingBefore(name: seq<byte>, gap: nat)
    ensures Repeat(32, 0) + name + Repeat(32, gap) == name + Repeat(32, gap)
  {
  }

  lemma ColonLine(front: seq<byte>, value: seq<byte>)
    requires 58 !in front && front != [] && front[0] != 32 && front[0] != 9
    ensures LengthField(front + [58] + value) == if IsLengthName(front) then Some(LengthNumber(value)) else None
  {
    hide IsLengthName, LengthNumber, IndexByte;
    var line := front + [58] + value;
    FirstByte(58, front, value);
    assert line[0] == front[0] && line[..|front|] == front && line[|front| + 1..] == value;
  }

  /** What the framer takes from a line. */
  function Says(l: HeadLine): Option<Option<nat>> {
    match l
    case LengthLine(_, _, _, sign, _, n, _) =>
      Some(if n > 0x7FFF_FFFF_FFFF_FFFF || (sign == Minus && n > 0) then None else Some(n))
    case BadLength(_, _, _) => Some(None)
    case OtherLine(_) => None
  }

  lemma LineSays(l: HeadLine)
    requires WellFormed(l)
    ensures LengthField(Text(l)) == Says(l)
  {
    hide TrimSpace, Value, Atoi, Repeat, LengthField, Graphic, IsLength;
    match l
    case LengthLine(name, gap, pad, sign, _, n, tail) =>
      ValueNumber(l);
      TrimPadded(pad, Value(l), tail);
      NamedLine(name, gap, Repeat(32, pad) + Value(l) + Repeat(32, tail));
    case BadLength(name, gap, value) =>
      if value == [] {
        NothingTrimmed();
      } else {
        TrimNothing(value);
      }
      BadNumber(value);
      NamedLine(name, gap, value);
    case OtherLine(text) => OtherSays(text);
  }

  lemma NothingTrimmed()
    ensures TrimSpace([]) == []
  {
  }

  lemma OtherSays(text: seq<byte>)
    requires WellFormed(OtherLine(text))
    ensures LengthField(text) == None
  {
    hide TrimSpace, IsLength, Named;
    var c := IndexByte(text, COLON, 0);
    if text[0] != 32 && text[0] != 9 && c >= 0 {
      assert text[0..c] == text[..c];
      LengthNames(TrimSpace(text[..c]));
    }
  }

  lemma TextPlain(l: HeadLine)
    requires WellFormed(l)
    ensures Text(l) != [] && 13 !in Text(l) && (!l.OtherLine? ==> Text(l)[0] != 10)
  {
    hide Value;
    match l
    case LengthLine(name, gap, pad, _, _, _, tail) =>
      LengthGraphic(name);
      ValueNumber(l);
      assert Text(l)[0] == name[0] && name[0] in name;
      forall b | b in Text(l) ensures b != 13 {
        assert b in name || b in Repeat(32, gap) || b == 58 || b in Repeat(32, pad) || b in Value(l) || b in Repeat(32, tail);
      }
    case BadLength(name, gap, value) =>
      LengthGraphic(name);
      assert Text(l)[0] == name[0] && name[0] in name;
      forall b | b in Text(l) ensures b != 13 {
        assert b in name || b in Repeat(32, gap) || b == 58 || b in value;
      }
    case OtherLine(_) =>
  }

  // ---- All lines -----------------------------------------------------------------------

  function Texts(lines: seq<HeadLine>): seq<seq<byte>> {
    if lines == [] then [] else [Text(lines[0])] + Texts(lines[1..])
  }

  lemma SliceShift(p: seq<byte>, s: seq<byte>, from: nat, at: nat)
    requires from <= at <= |s|
    ensures (p + s)[|p| + from..|p| + at] == s[from..at] && (p + s)[|p| + from..] == s[from..]
  {
  }

  /** Where a line lies does not matter to how it is split. */
  lemma {:induction false} SplitShift(p: seq<byte>, s: seq<byte>, from: nat, at: nat)
    requires from <= at <= |s|
    ensures SplitLines(p + s, |p| + from, |p| + at) == SplitLines(s, from, at)
    decreases |s| - at
  {
    hide Repeat, SplitLines;
    var all := p + s;
    SliceShift(p, s, from, at);
    SplitStep(all, |p| + from, |p| + at);
    SplitStep(s, from, at);
    if at + 2 <= |s| {
      assert all[|p| + at] == s[at] && all[|p| + at + 1] == s[at + 1];
      if s[at] == CR && s[at + 1] == LF {
        SplitShift(p, s, at + 2, at + 2);
      } else {
        SplitShift(p, s, from, at + 1);
      }
    }
  }

  lemma SplitStep(s: seq<byte>, from: nat, at: nat)
    requires from <= at <= |s|
    ensures SplitLines(s, from, at) ==
      if at + 2 > |s| then [s[from..]]
      else if s[at] == CR && s[at + 1] == LF then [s[from..at]] + SplitLines(s, at + 2, at + 2)
      else SplitLines(s, from, at + 1)
  {
  }

  lemma {:induction false} SplitFirst(text: seq<byte>, rest: seq<byte>, at: nat)
    requires 13 !in text && at <= |text|
    ensures SplitLines(text + [13, 10] + rest, 0, at) == [text] + SplitLines(rest, 0, 0)
    decreases |text| - at
  {
    var s := text + [13, 10] + rest;
    if at < |text| {
      assert s[at] == text[at] && text[at] in text;
      SplitFirst(text, rest, at + 1);
    } else {
      var front := text + [13, 10];
      assert s == front + rest && s[0..at] == text;
      SplitShift(front, rest, 0, 0);
    }
  }

  lemma {:induction false} BlockLines(lines: seq<HeadLine>)
    requires forall l <- lines :: WellFormed(l)
    ensures SplitLines(HeadBlock(lines), 0, 0) == Texts(lines) + [[], []]
    decreases |lines|
  {
    hide Text, WellFormed;
    if lines == [] {
      SplitEmpty();
      var none: seq<seq<byte>> := [];
      assert none + [[], []] == [[], []];
    } else {
      var l, more := lines[0], lines[1..];
      assert l in lines;
      TextPlain(l);
      SplitFirst(Text(l), HeadBlock(more), 0);
      BlockLines(more);
      assert [Text(l)] + (Texts(more) + [[], []]) == Texts(lines) + [[], []];
    }
  }

  lemma SplitEmpty()
    ensures SplitLines([13, 10], 0, 0) == [[], []]
  {
    var s: seq<byte> := [13, 10];
    assert s[0..0] == [] && s[2..] == [];
    assert SplitLines(s, 2, 2) == [[]];
  }

  lemma {:induction false} TextsAt(lines: seq<HeadLine>)
    ensures |Texts(lines)| == |lines|
    ensures forall i :: 0 <= i < |lines| ==> Texts(lines)[i] == Text(lines[i])
    decreases |lines|
  {
    hide Text;
    if lines != [] {
      var rest := lines[1..];
      TextsAt(rest);
      forall i | 0 <= i < |lines| ensures Texts(lines)[i] == Text(lines[i]) {
        if i > 0 {
          assert Texts(lines)[i] == Texts(rest)[i - 1] == Text(rest[i - 1]);
        }
      }
    }
  }

  lemma {:induction false} ValuesAre(lines: seq<HeadLine>, k: nat)
    requires k <= |lines| && forall l <- lines :: WellFormed(l)
    ensures |Texts(lines)| == |lines|
    ensures Values(LengthField, Texts(lines) + [[], []], k) == Stated(lines[..k])
    decreases k
  {
    hide LengthField, Text, WellFormed;
    TextsAt(lines);
    if k > 0 {
      var l := lines[k - 1];
      assert l in lines;
      ValuesAre(lines, k - 1);
      LineSays(l);
      assert lines[..k][..k - 1] == lines[..k - 1];
      assert (Texts(lines) + [[], []])[k - 1] == Text(l);
    }
  }

  lemma EmptyLines(lines: seq<seq<byte>>)
    ensures Values(LengthField, lines + [[], []], |lines| + 2) == Values(LengthField, lines + [[], []], |lines|)
  {
    var all := lines + [[], []];
    assert all[|lines|] == [] && all[|lines| + 1] == [];
    SilentLine(all, |lines|);
    SilentLine(all, |lines| + 1);
  }

  lemma SilentLine(lines: seq<seq<byte>>, k: nat)
    requires k < |lines| && lines[k] == []
    ensures Values(LengthField, lines, k + 1) == Values(LengthField, lines, k)
  {
    assert LengthField([]) == None;
  }

  // ---- What a block declares -------------------------------------------------------------

  /** A block declares n exactly when its lines do: Content-Length or its compact
      form in any case is read wherever it stands, other lines say nothing, two
      numbers that differ or a value that is no number leave none. */
  lemma BlockDeclares(lines: seq<HeadLine>, n: nat)
    requires forall l <- lines :: WellFormed(l)
    ensures DeclaredLength(HeadBlock(lines)) == Some(n) <==> Declare(lines, n)
  {
    hide LengthField, HeadBlock, Texts, Values, SplitLines, WellFormed, Stated;
    BlockLines(lines);
    ValuesAre(lines, |lines|);
    EmptyLines(Texts(lines));
    assert lines[..|lines|] == lines;
    AgreedIff(Stated(lines), n);
  }

  lemma AgreedIff(vs: seq<Option<nat>>, n: nat)
    ensures Agreed(vs) == Some(n) <==> if vs == [] then n == 0 else forall i :: 0 <= i < |vs| ==> vs[i] == Some(n)
  {
  }

  /** Header lines, the first of which does not begin with an LF. */
  ghost predicate Starts(lines: seq<HeadLine>) {
    && lines != [] && (forall l <- lines :: WellFormed(l))
    && (lines[0].OtherLine? && lines[0].text != [] ==> lines[0].text[0] != 10)
  }

  lemma {:induction false} TermOnlyAtEnd(lines: seq<HeadLine>, i: int)
    requires (forall l <- lines :: WellFormed(l)) && TermAt(HeadBlock(lines), i)
    ensures i == |HeadBlock(lines)| - 4
    decreases |lines|
  {
    hide Text, WellFormed;
    if lines != [] {
      var l, more := lines[0], lines[1..];
      assert l in lines;
      TextPlain(l);
      TermAfter(Text(l), HeadBlock(more), i);
      if more != [] {
        BlockBegins(more);
        TermOnlyAtEnd(more, i - |Text(l)| - 2);
      }
    }
  }

  /** A terminator does not begin in a line, and begins at its end only when an
      empty line follows. */
  lemma TermAfter(text: seq<byte>, rest: seq<byte>, i: int)
    requires 13 !in text && TermAt(text + [13, 10] + rest, i) && rest != []
    ensures if rest[0] != 13 then TermAt(rest, i - |text| - 2) else i == |text| || TermAt(rest, i - |text| - 2)
  {
    var s := text + [13, 10] + rest;
    forall j | 0 <= j < |text| ensures s[j] != 13 {
      assert text[j] in text;
    }
    assert s[|text|] == 13 && s[|text| + 1] == 10 && s[|text| + 2] == rest[0];
    assert forall j :: 0 <= j < |rest| ==> s[|text| + 2 + j] == rest[j];
  }

  lemma BlockBegins(lines: seq<HeadLine>)
    requires lines != [] && forall l <- lines :: WellFormed(l)
    ensures HeadBlock(lines) != [] && HeadBlock(lines)[0] != 13
    ensures Text(lines[0]) != [] && HeadBlock(lines)[0] == Text(lines[0])[0]
  {
    assert lines[0] in lines;
    TextPlain(lines[0]);
    assert Text(lines[0])[0] in Text(lines[0]);
  }

  lemma {:induction false} BlockLong(lines: seq<HeadLine>) returns (front: seq<byte>)
    ensures HeadBlock(lines) == front + if lines == [] then [13, 10] else [13, 10, 13, 10]
    decreases |lines|
  {
    hide Text;
    front := [];
    if lines != [] {
      var text, more := Text(lines[0]), lines[1..];
      if more == [] {
        front := text;
        assert text + [13, 10] + [13, 10] == text + [13, 10, 13, 10];
      } else {
        var rest := BlockLong(more);
        front := text + [13, 10] + rest;
      }
    }
  }

  lemma IsBlock(lines: seq<HeadLine>)
    requires Starts(lines)
    ensures Block(HeadBlock(lines))
  {
    hide HeadBlock, WellFormed, Text;
    var s := HeadBlock(lines);
    var front := BlockLong(lines);
    BlockBegins(lines);
    assert lines[0] in lines;
    TextPlain(lines[0]);
    FirstText(lines[0]);
    assert TermAt(s, |front|);
    forall i | TermAt(s, i) ensures i == |s| - 4 {
      TermOnlyAtEnd(lines, i);
    }
  }

  lemma FirstText(l: HeadLine)
    ensures l.OtherLine? ==> Text(l) == l.text
  {
  }

  /** What the framer makes of a message's header block that arrives between two
      messages: it closes the connection for a block that declares no number, or for
      a size past the cap that fits 64 bits, and else waits for exactly the body
      declared. */
  lemma BlockOutcome(max: nat, lines: seq<HeadLine>, pos: nat)
    requires Starts(lines) && |HeadBlock(lines)| <= max <= MAX_INT
    ensures var size, o := |HeadBlock(lines)|, Run(Framing(max, DeclaredLength), Idle, HeadBlock(lines), pos);
      && (forall n: nat :: Declare(lines, n) && (size + n <= max || size + n > 0x7FFF_FFFF_FFFF_FFFF) ==>
        o == Go(if n == 0 then Idle else Body(n), [pos]))
      && (forall n: nat :: Declare(lines, n) && max < size + n <= 0x7FFF_FFFF_FFFF_FFFF ==> o == Stop(Oversize, [pos]))
      && ((forall n: nat :: !Declare(lines, n)) ==> o == Stop(Malformed, [pos]))
  {
    hide Run, HeadBlock, DeclaredLength, Declare, Starts, Stated;
    var f, block := Framing(max, DeclaredLength), HeadBlock(lines);
    IsBlock(lines);
    assert block + [] == block;
    OneBlock(f, block, [], pos);
    AfterBlock(f, Grow(f, block), pos, pos + |block|);
    forall n: nat ensures DeclaredLength(block) == Some(n) <==> Declare(lines, n) {
      WellFormedLines(lines);
      BlockDeclares(lines, n);
    }
    forall n: nat | Declare(lines, n) ensures n <= MAX_INT {
      DeclaredFits(lines, n);
    }
    if DeclaredLength(block).Some? {
      assert Declare(lines, DeclaredLength(block).value);
    }
  }

  /** The sum of the size test wraps: the block of the one line "l: n" that fits the
      cap is let through for every n so large that 64 bits do not hold the sum, and
      the framer waits for that body. */
  lemma OversizeMissed(max: nat, n: nat, pos: nat)
    requires var block := HeadBlock([LengthLine([108], 0, 1, Plain, 0, n, 0)]);
      |block| <= max <= MAX_INT && MAX_INT - |block| < n <= MAX_INT
    ensures Run(Framing(max, DeclaredLength), Idle, HeadBlock([LengthLine([108], 0, 1, Plain, 0, n, 0)]), pos) ==
      Go(Body(n), [pos])
  {
    hide Run, HeadBlock, DeclaredLength;
    var l := LengthLine([108], 0, 1, Plain, 0, n, 0);
    assert [l][..0] == [];
    assert Stated([l]) == [Some(n)];
    assert Declare([l], n);
    BlockOutcome(max, [l], pos);
  }

  lemma WellFormedLines(lines: seq<HeadLine>)
    requires Starts(lines)
    ensures forall l <- lines :: WellFormed(l)
  {
  }

  lemma DeclaredFits(lines: seq<HeadLine>, n: nat)
    requires Declare(lines, n)
    ensures n <= MAX_INT
  {
    if Stated(lines) != [] {
      assert Stated(lines)[0] == Some(n);
      StatedFits(lines, 0);
    }
  }

  lemma {:induction false} StatedFits(lines: seq<HeadLine>, i: nat)
    requires i < |Stated(lines)|
    ensures Stated(lines)[i].Some? ==> Stated(lines)[i].value <= MAX_INT
    decreases |lines|
  {
    if i < |Stated(lines[..|lines| - 1])| {
      StatedFits(lines[..|lines| - 1], i);
    }
  }

  // ---- Messages ------------------------------------------------------------------------

  datatype LinedMessage = LinedMessage(lines: seq<HeadLine>, body: seq<byte>)

  function OnWire(m: LinedMessage): Message {
    Message(HeadBlock(m.lines), m.body)
  }

  function AllOnWire(ms: seq<LinedMessage>): seq<Message> {
    if ms == [] then [] else [OnWire(ms[0])] + AllOnWire(ms[1..])
  }

  /** Its lines declare its body's length, and it fits the cap. */
  ghost predicate Carried(max: nat, m: LinedMessage) {
    Starts(m.lines) && Declare(m.lines, |m.body|) && |HeadBlock(m.lines)| + |m.body| <= max
  }

  /** Messages whose lines declare their bodies, with any CR and LF between them,
      are told apart in any reads: each starts where it was put, and the framer ends
      between messages. */
  lemma MessagesFramed(max: nat, ms: seq<LinedMessage>, gaps: seq<seq<byte>>, chunks: seq<seq<byte>>)
    requires max <= MAX_INT && |gaps| == |ms| + 1 && forall m <- ms :: Carried(max, m)
    requires forall g <- gaps, b <- g :: b == 13 || b == 10
    requires |AllOnWire(ms)| == |ms| && Flatten(chunks) == Wire(AllOnWire(ms), gaps)
    ensures var f := Framing(max, DeclaredLength);
      && Reads(f, chunks).outcome == Go(Idle, Offsets(AllOnWire(ms), gaps, 0))
      && Reads(f, chunks).charges == |ms| + KeepAliveReads(f, chunks)
  {
    hide Run, Wire, Offsets, Carried, DeclaredLength, Reads;
    AllFramable(max, ms);
    FramingRoundTripInReads(Framing(max, DeclaredLength), AllOnWire(ms), gaps, chunks);
  }

  lemma {:induction false} AllFramable(max: nat, ms: seq<LinedMessage>)
    requires forall m <- ms :: Carried(max, m)
    ensures |AllOnWire(ms)| == |ms| && forall m <- AllOnWire(ms) :: Framable(Framing(max, DeclaredLength), m)
    decreases |ms|
  {
    hide Framable, Carried, OnWire, DeclaredLength;
    if ms != [] {
      assert ms[0] in ms;
      OneFramable(max, ms[0]);
      AllFramable(max, ms[1..]);
    }
  }

  lemma OneFramable(max: nat, m: LinedMessage)
    requires Carried(max, m)
    ensures Framable(Framing(max, DeclaredLength), OnWire(m))
  {
    hide HeadBlock, DeclaredLength, Declare, Block;
    IsBlock(m.lines);
    BlockDeclares(m.lines, |m.body|);
  }
}
