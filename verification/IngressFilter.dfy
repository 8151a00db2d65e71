/**
 The receive filter of the private socket
 (internal/edge/privatefilter_linux.go): a list of interface indexes compiled
 to a classic BPF program whose jumps are relative and eight bits wide, and an
 interpreter of such programs.
 */
module IngressFilter {
  const WORD: int := 0x1_0000_0000
  const ACCEPT: int := 0xFFFF_FFFF

  datatype Insn =
    | LoadIfindex
    | JumpIfEqual(val: int, skipTrue: nat, skipFalse: nat)
    | Ret(value: int)

  // ---- The machine -----------------------------------------------------------------

  datatype Outcome = Returned(value: int) | FellOff

  /** Runs prog from pc with acc in the accumulator, on a packet that arrived on
      interface x. Jumps only go forward, so it ends. */
  function Run(prog: seq<Insn>, pc: nat, acc: int, x: int): Outcome
    decreases |prog| - pc
  {
    if pc >= |prog| then FellOff
    else
      match prog[pc]
      case LoadIfindex => Run(prog, pc + 1, x, x)
      case JumpIfEqual(val, skipTrue, skipFalse) =>
        Run(prog, pc + 1 + if acc == val then skipTrue else skipFalse, acc, x)
      case Ret(value) => Returned(value)
  }

  // ---- The compiler ------------------------------------------------------------------

  /** An index as the 32-bit word the program compares with. */
  function Word(index: int): (w: int)
    ensures 0 <= w < WORD
  {
    index % WORD
  }

  /** Test i of n: a match skips to the accept, the last miss to the drop. The
      skip is cut to eight bits. */
  function Test(indexes: seq<int>, i: nat): Insn
    requires i < |indexes|
  {
    JumpIfEqual(Word(indexes[i]), (|indexes| - i - 1) % 256, if i == |indexes| - 1 then 1 else 0)
  }

  predicate IsFilter(prog: seq<Insn>, indexes: seq<int>) {
    var n := |indexes|;
    && |prog| == n + 3 && prog[0] == LoadIfindex
    && (forall i :: 0 <= i < n ==> prog[1 + i] == Test(indexes, i))
    && prog[n + 1] == Ret(ACCEPT) && prog[n + 2] == Ret(0)
  }

  /** ifindexFilter. */
  method IfindexFilter(indexes: seq<int>) returns (prog: seq<Insn>)
    ensures IsFilter(prog, indexes)
  {
    prog := [LoadIfindex];
    for i := 0 to |indexes|
      invariant |prog| == i + 1 && prog[0] == LoadIfindex
      invariant forall j :: 0 <= j < i ==> prog[1 + j] == Test(indexes, j)
    {
      var skipFalse := 0;
      if i == |indexes| - 1 {
        skipFalse := 1;
      }
      prog := prog + [JumpIfEqual(Word(indexes[i]), (|indexes| - i - 1) % 256, skipFalse)];
    }
    prog := prog + [Ret(ACCEPT), Ret(0)];
  }

  // ---- What the filter does ----------------------------------------------------------

  /** x is one of the indexes from place from on. */
  predicate Listed(indexes: seq<int>, from: nat, x: int) {
    exists i :: from <= i < |indexes| && Word(indexes[i]) == x
  }

  /** The first of the tests a jump of eight bits can reach the accept from. */
  function LastTests(indexes: seq<int>): nat {
    if |indexes| <= 256 then 0 else |indexes| - 256
  }

  function Max(a: nat, b: nat): nat {
    if a < b then b else a
  }

  /** From test i on: a match too far from the accept only skips to another test,
      and never over one of the last 256. */
  lemma {:induction false} FromTest(prog: seq<Insn>, indexes: seq<int>, i: nat, x: int)
    requires IsFilter(prog, indexes) && i < |indexes|
    ensures Run(prog, 1 + i, x, x) ==
      Returned(if Listed(indexes, Max(i, LastTests(indexes)), x) then ACCEPT else 0)
    decreases |indexes| - i
  {
    var n := |indexes|;
    assert prog[1 + i] == Test(indexes, i);
    if Word(indexes[i]) == x {
      var skip := (n - i - 1) % 256;
      if n - i - 1 < 256 {
        assert skip == n - i - 1;
        assert Run(prog, n + 1, x, x) == Returned(ACCEPT);
      } else {
        var next := i + 1 + skip;
        assert next <= n - 256;
        FromTest(prog, indexes, next, x);
      }
    } else if i == n - 1 {
      assert Run(prog, n + 2, x, x) == Returned(0);
    } else {
      FromTest(prog, indexes, i + 1, x);
      assert Listed(indexes, Max(i, LastTests(indexes)), x) <==> Listed(indexes, Max(i + 1, LastTests(indexes)), x);
    }
  }

  predicate Accepts(prog: seq<Insn>, x: int) {
    Run(prog, 0, 0, x) == Returned(ACCEPT)
  }

  /** A filter of at least one index always returns, and accepts exactly the
      packets that arrived on one of the last 256 of them. */
  lemma FilterAccepts(prog: seq<Insn>, indexes: seq<int>, x: int)
    requires IsFilter(prog, indexes) && indexes != []
    ensures Run(prog, 0, 0, x) == Returned(if Listed(indexes, LastTests(indexes), x) then ACCEPT else 0)
  {
    FromTest(prog, indexes, 0, x);
  }

  /** With up to 256 indexes that is all of them. */
  lemma SmallFilterExact(prog: seq<Insn>, indexes: seq<int>, x: int)
    requires IsFilter(prog, indexes) && 0 < |indexes| <= 256
    ensures Accepts(prog, x) <==> Listed(indexes, 0, x)
  {
    FilterAccepts(prog, indexes, x);
  }

  /** The filter lets exactly the listed interfaces through if and only if there
      is an index and each one stands among the last 256. */
  lemma FilterCorrectIff(prog: seq<Insn>, indexes: seq<int>)
    requires IsFilter(prog, indexes)
    ensures (forall x :: 0 <= x < WORD ==> (Accepts(prog, x) <==> Listed(indexes, 0, x))) <==>
      indexes != [] && forall i :: 0 <= i < |indexes| ==> Listed(indexes, LastTests(indexes), Word(indexes[i]))
  {
    if indexes == [] {
      EmptyAcceptsAll(prog, 0);
      assert Accepts(prog, 0) && !Listed(indexes, 0, 0);
    } else {
      forall x ensures Accepts(prog, x) <==> Listed(indexes, LastTests(indexes), x) {
        FilterAccepts(prog, indexes, x);
      }
      if forall x :: 0 <= x < WORD ==> (Accepts(prog, x) <==> Listed(indexes, 0, x)) {
        forall i | 0 <= i < |indexes| ensures Listed(indexes, LastTests(indexes), Word(indexes[i])) {
          assert Listed(indexes, 0, Word(indexes[i]));
        }
      }
      if forall i :: 0 <= i < |indexes| ==> Listed(indexes, LastTests(indexes), Word(indexes[i])) {
        forall x ensures Listed(indexes, 0, x) <==> Listed(indexes, LastTests(indexes), x) {
        }
      }
    }
  }

  /** A filter of no index lets everything through. */
  lemma EmptyAcceptsAll(prog: seq<Insn>, x: int)
    requires IsFilter(prog, [])
    ensures Accepts(prog, x)
  {
    assert prog[1] == Ret(ACCEPT);
    assert Run(prog, 1, x, x) == Returned(ACCEPT);
  }

  /** The interfaces 1 to 257: the filter drops what arrives on the first. */
  lemma FirstOf257Dropped(prog: seq<Insn>)
    requires IsFilter(prog, seq(257, i => i + 1))
    ensures !Accepts(prog, 1)
  {
    var indexes := seq(257, i => i + 1);
    FilterAccepts(prog, indexes, 1);
    assert forall i :: 1 <= i < 257 ==> Word(indexes[i]) == i + 1;
  }
}
