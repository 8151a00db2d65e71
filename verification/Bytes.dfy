/**
 Byte strings, and the few library routines the text-handling files rely on:
 Go's `bytes.TrimSpace`, ASCII case folding and `strconv.Atoi`.
 */
module Bytes {
  import opened Options

  type byte = x: int | 0 <= x < 256

  const CR: byte := 13
  const LF: byte := 10
  const SP: byte := 32
  const TAB: byte := 9
  const COLON: byte := 58

  /** The bytes of a sequence of reads. */
  function Flatten(chunks: seq<seq<byte>>): seq<byte> {
    if chunks == [] then [] else Flatten(chunks[..|chunks| - 1]) + chunks[|chunks| - 1]
  }

  predicate IsCrLf(b: byte) {
    b == CR || b == LF
  }

  predicate Blank(s: seq<byte>) {
    forall b <- s :: IsCrLf(b)
  }

  // ---- CRLFCRLF -----------------------------------------------------------

  predicate TermAt(s: seq<byte>, i: int) {
    0 <= i && i + 4 <= |s| && s[i] == CR && s[i + 1] == LF && s[i + 2] == CR && s[i + 3] == LF
  }

  ghost predicate NoTerm(s: seq<byte>) {
    forall i :: !TermAt(s, i)
  }

  predicate EndsWithTerm(s: seq<byte>) {
    TermAt(s, |s| - 4)
  }

  /** The header block s is complete, and only now: its one CRLFCRLF ends it. */
  ghost predicate EndsAtFirstTerm(s: seq<byte>) {
    EndsWithTerm(s) && forall i :: TermAt(s, i) ==> i == |s| - 4
  }

  /** `bytes.Index(s[from:], crlfcrlf)`, as an index into s. */
  function IndexTerm(s: seq<byte>, from: nat): (r: int)
    ensures r < 0 ==> forall i :: from <= i ==> !TermAt(s, i)
    ensures r >= 0 ==> from <= r && TermAt(s, r) && forall i :: from <= i < r ==> !TermAt(s, i)
    decreases |s| - from
  {
    if from + 4 > |s| then -1
    else if TermAt(s, from) then from
    else IndexTerm(s, from + 1)
  }

  /** Index of the first `b` at or after `from`, -1 when there is none. */
  function IndexByte(s: seq<byte>, b: byte, from: nat): (r: int)
    requires from <= |s|
    ensures -1 <= r < |s|
    ensures r < 0 <==> b !in s[from..]
    ensures r >= 0 ==> from <= r && s[r] == b && b !in s[from..r]
    decreases |s| - from
  {
    if from == |s| then -1
    else if s[from] == b then from
    else
      assert s[from..] == [s[from]] + s[from + 1..];
      var r := IndexByte(s, b, from + 1);
      assert r >= 0 ==> s[from..r] == [s[from]] + s[from + 1..r];
      r
  }

  function Lower(b: byte): byte {
    if 65 <= b <= 90 then b + 32 else b
  }

  /** s is the given lower-case ASCII name, compared without ASCII case. */
  predicate Named(s: seq<byte>, name: string) {
    |s| == |name| && forall i | 0 <= i < |s| :: Lower(s[i]) == name[i] as int
  }

  predicate Graphic(b: byte) {
    33 <= b < 127
  }

  /** Length of the white-space rune (Unicode White_Space, in UTF-8) that
      starts s, 0 when s does not start with one. */
  function SpaceAt(s: seq<byte>): (n: nat)
    ensures n <= |s|
    ensures n > 0 ==> !Graphic(s[0]) && !Graphic(s[n - 1])
  {
    if |s| >= 1 && (9 <= s[0] <= 13 || s[0] == 32) then 1
    else if |s| >= 2 && s[0] == 0xC2 && (s[1] == 0x85 || s[1] == 0xA0) then 2
    else if |s| >= 3 && s[0] == 0xE1 && s[1] == 0x9A && s[2] == 0x80 then 3
    else if |s| >= 3 && s[0] == 0xE2 && s[1] == 0x80
      && (0x80 <= s[2] <= 0x8A || s[2] == 0xA8 || s[2] == 0xA9 || s[2] == 0xAF) then 3
    else if |s| >= 3 && s[0] == 0xE2 && s[1] == 0x81 && s[2] == 0x9F then 3
    else if |s| >= 3 && s[0] == 0xE3 && s[1] == 0x80 && s[2] == 0x80 then 3
    else 0
  }

  function TrimLeft(s: seq<byte>): seq<byte> {
    var n := SpaceAt(s);
    if n == 0 then s else TrimLeft(s[n..])
  }

  /** Length of the white-space rune that ends s, 0 when none does. */
  function SpaceBefore(s: seq<byte>): (n: nat)
    ensures n <= |s|
    ensures n > 0 ==> !Graphic(s[|s| - 1])
  {
    if |s| >= 1 && SpaceAt(s[|s| - 1..]) == 1 then 1
    else if |s| >= 2 && SpaceAt(s[|s| - 2..]) == 2 then 2
    else if |s| >= 3 && SpaceAt(s[|s| - 3..]) == 3 then 3
    else 0
  }

  function TrimRight(s: seq<byte>): seq<byte> {
    var n := SpaceBefore(s);
    if n == 0 then s else TrimRight(s[..|s| - n])
  }

  function TrimSpace(s: seq<byte>): seq<byte> {
    TrimRight(TrimLeft(s))
  }

  lemma TrimNothing(s: seq<byte>)
    requires s != [] && Graphic(s[0]) && Graphic(s[|s| - 1])
    ensures TrimSpace(s) == s
  {
    assert TrimLeft(s) == s;
  }

  const MAX_INT: int := 0x7FFF_FFFF_FFFF_FFFF
  const MIN_INT: int := -0x8000_0000_0000_0000

  /** The 64-bit signed sum of two non-negative 64-bit integers. */
  function Add64(a: int, b: int): (r: int)
    ensures a + b <= MAX_INT ==> r == a + b
    ensures 0 <= a <= MAX_INT && 0 <= b <= MAX_INT < a + b ==> MIN_INT <= r < 0
  {
    if a + b > MAX_INT then a + b - 0x1_0000_0000_0000_0000 else a + b
  }

  predicate IsDigit(b: byte) {
    48 <= b <= 57
  }

  function Decimal(s: seq<byte>): (n: nat)
    requires forall b <- s :: IsDigit(b)
  {
    if s == [] then 0
    else
      assert IsDigit(s[|s| - 1]);
      var last: int := s[|s| - 1];
      Decimal(s[..|s| - 1]) * 10 + (last - 48)
  }

  /** `strconv.Atoi`: an optional sign, then decimal digits, in int64 range. */
  function Atoi(s: seq<byte>): (r: Option<int>)
    ensures r.Some? ==> MIN_INT <= r.value <= MAX_INT
  {
    var neg := s != [] && s[0] == 45;
    var digits := if s != [] && (s[0] == 43 || s[0] == 45) then s[1..] else s;
    if digits == [] || exists b <- digits :: !IsDigit(b) then None
    else
      var v: int := if neg then 0 - Decimal(digits) else Decimal(digits);
      if MIN_INT <= v <= MAX_INT then Some(v) else None
  }

  lemma FirstByte(x: byte, a: seq<byte>, b: seq<byte>)
    requires x !in a
    ensures IndexByte(a + [x] + b, x, 0) == |a|
  {
    var s := a + [x] + b;
    var r := IndexByte(s, x, 0);
    assert s[|a|] == x && s[0..] == s;
    forall i | 0 <= i < |a| ensures s[i] != x {
      assert s[i] == a[i] && a[i] in a;
    }
    forall i | 0 <= i < r ensures s[i] != x {
      assert s[0..r][i] == s[i];
    }
  }

  /** The word, which is in lower case, in any ASCII case. */
  predicate Spells(name: seq<byte>, word: string) {
    |name| == |word| && forall i :: 0 <= i < |name| ==>
      name[i] == word[i] as int || ('a' <= word[i] <= 'z' && name[i] == word[i] as int - 32)
  }

  lemma SpellsNamed(name: seq<byte>, word: string)
    requires forall i :: 0 <= i < |word| ==> !('A' <= word[i] <= 'Z')
    ensures Spells(name, word) <==> Named(name, word)
  {
    if |name| == |word| {
      forall i | 0 <= i < |name|
        ensures Lower(name[i]) == word[i] as int <==>
          name[i] == word[i] as int || ('a' <= word[i] <= 'z' && name[i] == word[i] as int - 32)
      {
      }
    }
  }

  function Repeat(b: byte, k: nat): (s: seq<byte>)
    ensures |s| == k && forall x <- s :: x == b
  {
    if k == 0 then [] else [b] + Repeat(b, k - 1)
  }

  lemma {:induction false} TrimLeftPadded(k: nat, s: seq<byte>)
    requires s != [] && Graphic(s[0])
    ensures TrimLeft(Repeat(32, k) + s) == s
  {
    var all := Repeat(32, k) + s;
    if k == 0 {
      assert all == s;
    } else {
      assert all[0] == 32 && all[1..] == Repeat(32, k - 1) + s;
      TrimLeftPadded(k - 1, s);
    }
  }

  lemma RepeatSnoc(b: byte, k: nat)
    requires k > 0
    ensures Repeat(b, k) == Repeat(b, k - 1) + [b]
  {
    var s, t := Repeat(b, k), Repeat(b, k - 1) + [b];
    forall i | 0 <= i < k ensures s[i] == t[i] {
      assert s[i] in s && t[i] in t;
    }
  }

  lemma {:induction false} TrimRightPadded(s: seq<byte>, k: nat)
    requires s != [] && Graphic(s[|s| - 1])
    ensures TrimRight(s + Repeat(32, k)) == s
  {
    hide SpaceAt, SpaceBefore;
    var all := s + Repeat(32, k);
    if k == 0 {
      assert all == s;
      GraphicEnds(s);
    } else {
      var less := s + Repeat(32, k - 1);
      RepeatSnoc(32, k);
      assert all == less + [32];
      SpaceEnds(less);
      TrimRightPadded(s, k - 1);
    }
  }

  lemma GraphicEnds(s: seq<byte>)
    requires s != [] && Graphic(s[|s| - 1])
    ensures SpaceBefore(s) == 0
  {
  }

  lemma SpaceEnds(s: seq<byte>)
    ensures SpaceBefore(s + [32]) == 1 && (s + [32])[..|s|] == s
  {
    assert (s + [32])[|s|..] == [32];
  }

  /** Spaces around a text are trimmed, and nothing else of it. */
  lemma TrimPadded(k: nat, s: seq<byte>, j: nat)
    requires s != [] && Graphic(s[0]) && Graphic(s[|s| - 1])
    ensures TrimSpace(Repeat(32, k) + s + Repeat(32, j)) == s
  {
    hide TrimLeft, TrimRight, Graphic;
    assert Repeat(32, k) + s + Repeat(32, j) == Repeat(32, k) + (s + Repeat(32, j));
    TrimLeftPadded(k, s + Repeat(32, j));
    TrimRightPadded(s, j);
  }
}
