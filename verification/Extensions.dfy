/**
 The Allow header of a forwarded message (internal/edge/extensions.go): its
 tokens, from all the headers of that name however spelled, are reduced to the
 methods the proxy carries. Which those are is an input.
 */
module Extensions {
  import opened Headers
  import opened Sequences
  import opened Text

  const ALLOW := "Allow"

  /** White space as Unicode has it. */
  predicate IsSpace(c: char) {
    || c == ' ' || '\U{9}' <= c <= '\U{D}' || c == '\U{85}' || c == '\U{A0}' || c == '\U{1680}'
    || '\U{2000}' <= c <= '\U{200A}' || c == '\U{2028}' || c == '\U{2029}' || c == '\U{202F}' || c == '\U{205F}'
    || c == '\U{3000}'
  }

  /** TrimSpace. */
  function Trim(s: string): string {
    if s != "" && IsSpace(s[0]) then Trim(s[1..])
    else if s != "" && IsSpace(s[|s| - 1]) then Trim(s[..|s| - 1])
    else s
  }

  /** Split at the commas. */
  function Parts(s: string): (r: seq<string>)
    ensures r != [] && forall p <- r :: ',' !in p
  {
    if s == "" then [""]
    else if s[0] == ',' then [""] + Parts(s[1..])
    else
      var r := Parts(s[1..]);
      [[s[0]] + r[0]] + r[1..]
  }

  function Trimmed(parts: seq<string>): seq<string> {
    if parts == [] then []
    else (if Trim(parts[0]) == "" then [] else [Trim(parts[0])]) + Trimmed(parts[1..])
  }

  /** The tokens of a list of headers, in order. */
  function Tokens(hs: seq<Header>): seq<string> {
    if hs == [] then []
    else (if hs[0].Other? then Trimmed(Parts(hs[0].value)) else []) + Tokens(hs[1..])
  }

  function Accepted(toks: seq<string>, keep: string -> bool): seq<string> {
    if toks == [] then []
    else (if keep(toks[0]) then [toks[0]] else []) + Accepted(toks[1..], keep)
  }

  function Join(toks: seq<string>): string {
    if toks == [] then "" else if |toks| == 1 then toks[0] else toks[0] + ", " + Join(toks[1..])
  }

  function AllowTokens(hs: seq<Header>): seq<string> {
    Tokens(Keep(hs, NotUnder(ALLOW)))
  }

  /** The headers afterwards: as they were when every token is accepted, else
      with one Allow header for them all, or none. */
  function Sanitized(hs: seq<Header>, keep: string -> bool): seq<Header> {
    var toks := AllowTokens(hs);
    if Accepted(toks, keep) == toks then hs
    else
      Keep(hs, Under(ALLOW)) + if Accepted(toks, keep) == [] then [] else [Other(ALLOW, Join(Accepted(toks, keep)))]
  }

  // ---- Tokens --------------------------------------------------------------------------

  lemma {:induction false} AcceptedConcat(a: seq<string>, b: seq<string>, keep: string -> bool)
    ensures Accepted(a + b, keep) == Accepted(a, keep) + Accepted(b, keep)
    decreases |a|
  {
    if a == [] {
      assert a + b == b;
    } else {
      assert (a + b)[0] == a[0] && (a + b)[1..] == a[1..] + b;
      AcceptedConcat(a[1..], b, keep);
      Assoc(if keep(a[0]) then [a[0]] else [], Accepted(a[1..], keep), Accepted(b, keep));
    }
  }

  lemma {:induction false} AcceptedFewer(toks: seq<string>, keep: string -> bool)
    ensures |Accepted(toks, keep)| <= |toks|
    ensures Accepted(toks, keep) == toks <==> forall tok <- toks :: keep(tok)
    ensures forall tok <- Accepted(toks, keep) :: tok in toks && keep(tok)
    decreases |toks|
  {
    if toks != [] {
      AcceptedFewer(toks[1..], keep);
      if keep(toks[0]) {
        assert Accepted(toks, keep)[1..] == Accepted(toks[1..], keep);
      } else {
        assert toks[0] in toks;
      }
    }
  }

  lemma {:induction false} TokensConcat(a: seq<Header>, b: seq<Header>)
    ensures Tokens(a + b) == Tokens(a) + Tokens(b)
    decreases |a|
  {
    if a == [] {
      assert a + b == b;
    } else {
      assert (a + b)[1..] == a[1..] + b;
      TokensConcat(a[1..], b);
    }
  }

  lemma {:induction false} TrimmedConcat(a: seq<string>, b: seq<string>)
    ensures Trimmed(a + b) == Trimmed(a) + Trimmed(b)
    decreases |a|
  {
    if a == [] {
      assert a + b == b;
    } else {
      assert (a + b)[1..] == a[1..] + b;
      TrimmedConcat(a[1..], b);
    }
  }

  /** A token: no comma, and no space at either end. */
  predicate Proper(tok: string) {
    tok != "" && ',' !in tok && !IsSpace(tok[0]) && !IsSpace(tok[|tok| - 1])
  }

  lemma {:induction false} TrimProper(s: string)
    requires ',' !in s
    ensures Trim(s) == "" || Proper(Trim(s))
    decreases |s|
  {
    if s != "" && IsSpace(s[0]) {
      TrimProper(s[1..]);
    } else if s != "" && IsSpace(s[|s| - 1]) {
      TrimProper(s[..|s| - 1]);
    }
  }

  lemma {:induction false} TrimmedProper(parts: seq<string>)
    requires forall p <- parts :: ',' !in p
    ensures forall tok <- Trimmed(parts) :: Proper(tok)
    decreases |parts|
  {
    if parts != [] {
      TrimProper(parts[0]);
      TrimmedProper(parts[1..]);
    }
  }

  lemma {:induction false} TokensProper(hs: seq<Header>)
    ensures forall tok <- Tokens(hs) :: Proper(tok)
    decreases |hs|
  {
    if hs != [] {
      if hs[0].Other? {
        TrimmedProper(Parts(hs[0].value));
      }
      TokensProper(hs[1..]);
    }
  }

  /** A part without a comma ends at the first comma. */
  lemma {:induction false} PartsAt(tok: string, rest: string)
    requires ',' !in tok
    ensures Parts(tok) == [tok]
    ensures Parts(tok + "," + rest) == [tok] + Parts(rest)
    decreases |tok|
  {
    var s := tok + "," + rest;
    if tok == "" {
      assert s[1..] == rest;
    } else {
      assert s[1..] == tok[1..] + "," + rest;
      PartsAt(tok[1..], rest);
      assert [tok[0]] + tok[1..] == tok;
    }
  }

  lemma SpaceBefore(s: string)
    ensures Trimmed(Parts(" " + s)) == Trimmed(Parts(s))
  {
    assert (" " + s)[1..] == s;
    var r := Parts(s);
    var first := [' '] + r[0];
    assert Parts(" " + s) == [first] + r[1..];
    assert first[1..] == r[0] && Trim(first) == Trim(r[0]);
    assert ([first] + r[1..])[1..] == r[1..];
  }

  /** Joined and split again, tokens come back as they were. */
  lemma {:induction false} JoinSplits(toks: seq<string>)
    requires forall tok <- toks :: Proper(tok)
    ensures Trimmed(Parts(Join(toks))) == toks
    decreases |toks|
  {
    if toks == [] {
      assert Trimmed([""]) == [];
    } else {
      var tok, rest := toks[0], " " + Join(toks[1..]);
      assert Proper(tok) && Trim(tok) == tok;
      PartsAt(tok, rest);
      if |toks| == 1 {
        assert Trimmed([tok]) == [tok] == toks;
      } else {
        assert tok + ", " + Join(toks[1..]) == tok + "," + rest;
        SpaceBefore(Join(toks[1..]));
        JoinSplits(toks[1..]);
        assert ([tok] + Parts(rest))[1..] == Parts(rest);
      }
    }
  }

  /** A token as it may be written: with white space around it. */
  datatype Written = Written(before: string, tok: string, after: string)

  function AsPart(w: Written): string {
    w.before + w.tok + w.after
  }

  /** Written tokens, with a comma between any two. */
  function AsValue(ws: seq<Written>): string {
    if ws == [] then ""
    else if |ws| == 1 then AsPart(ws[0])
    else AsPart(ws[0]) + "," + AsValue(ws[1..])
  }

  function TokensOf(ws: seq<Written>): seq<string> {
    if ws == [] then [] else [ws[0].tok] + TokensOf(ws[1..])
  }

  predicate WellWritten(w: Written) {
    && Proper(w.tok) && (forall c <- w.before :: IsSpace(c) && c != ',') && forall c <- w.after :: IsSpace(c) && c != ','
  }

  lemma {:induction false} TrimBefore(before: string, s: string)
    requires forall c <- before :: IsSpace(c)
    ensures Trim(before + s) == Trim(s)
    decreases |before|
  {
    if before == "" {
      assert before + s == s;
    } else {
      assert before[0] in before && (before + s)[1..] == before[1..] + s;
      TrimBefore(before[1..], s);
    }
  }

  lemma {:induction false} TrimAfter(tok: string, after: string)
    requires Proper(tok) && forall c <- after :: IsSpace(c)
    ensures Trim(tok + after) == tok
    decreases |after|
  {
    var s := tok + after;
    if after == "" {
      assert s == tok;
    } else {
      var n := |after| - 1;
      assert after[n] in after && s[..|s| - 1] == tok + after[..n] && s[|s| - 1] == after[n];
      TrimAfter(tok, after[..n]);
    }
  }

  lemma PartTrims(w: Written)
    requires WellWritten(w)
    ensures Trim(AsPart(w)) == w.tok && ',' !in AsPart(w)
  {
    assert AsPart(w) == w.before + (w.tok + w.after);
    TrimBefore(w.before, w.tok + w.after);
    TrimAfter(w.tok, w.after);
    forall c | c in AsPart(w) ensures c != ',' {
      assert c in w.before || c in w.tok || c in w.after;
    }
  }

  /** However a value is spaced, its tokens are read back. */
  lemma {:induction false} WrittenReads(ws: seq<Written>)
    requires forall w <- ws :: WellWritten(w)
    ensures Trimmed(Parts(AsValue(ws))) == TokensOf(ws)
    decreases |ws|
  {
    hide Trim, IsSpace, AsPart, WellWritten, Parts;
    if ws == [] {
      NothingWritten();
    } else {
      var w := ws[0];
      assert w in ws;
      PartTrims(w);
      ProperIs(w);
      if |ws| == 1 {
        PartsAt(AsPart(w), "");
        assert Trimmed([AsPart(w)]) == [w.tok] + Trimmed([]);
      } else {
        PartsAt(AsPart(w), AsValue(ws[1..]));
        WrittenReads(ws[1..]);
        assert ([AsPart(w)] + Parts(AsValue(ws[1..])))[1..] == Parts(AsValue(ws[1..]));
      }
    }
  }

  lemma ProperIs(w: Written)
    requires WellWritten(w)
    ensures w.tok != ""
  {
  }

  lemma NothingWritten()
    ensures Trimmed(Parts("")) == []
  {
    assert Trim("") == "";
    assert Trimmed([""]) == [] + Trimmed([]);
  }

  // ---- What is left --------------------------------------------------------------------

  lemma AllowSplit(hs: seq<Header>, value: string)
    ensures var after := Keep(hs, Under(ALLOW)) + [Other(ALLOW, value)];
      && Keep(after, Under(ALLOW)) == Keep(hs, Under(ALLOW))
      && Keep(after, NotUnder(ALLOW)) == [Other(ALLOW, value)]
  {
    var left, own := Keep(hs, Under(ALLOW)), [Other(ALLOW, value)];
    AllowGone(hs);
    KeepConcat(left, own, Under(ALLOW));
    KeepConcat(left, own, NotUnder(ALLOW));
    KeepNone(own, Under(ALLOW));
    KeepAll(own, NotUnder(ALLOW));
  }

  lemma AllowGone(hs: seq<Header>)
    ensures var left := Keep(hs, Under(ALLOW));
      Keep(left, Under(ALLOW)) == left && Keep(left, NotUnder(ALLOW)) == []
  {
    var left := Keep(hs, Under(ALLOW));
    KeepMembers(hs, Under(ALLOW));
    KeepAll(left, Under(ALLOW));
    KeepNone(left, NotUnder(ALLOW));
  }

  /** The endpoints read exactly the accepted tokens, in their order, and every
      other header as it was. */
  lemma SanitizedTokens(hs: seq<Header>, keep: string -> bool)
    ensures AllowTokens(Sanitized(hs, keep)) == Accepted(AllowTokens(hs), keep)
    ensures Keep(Sanitized(hs, keep), Under(ALLOW)) == Keep(hs, Under(ALLOW))
  {
    hide Keep, Under, NotUnder, Parts, Trimmed, Join;
    var toks := AllowTokens(hs);
    var accepted := Accepted(toks, keep);
    if accepted != toks {
      AllowGone(hs);
      if accepted != [] {
        AllowSplit(hs, Join(accepted));
        TokensProper(Keep(hs, NotUnder(ALLOW)));
        AcceptedFewer(toks, keep);
        JoinSplits(accepted);
        assert Tokens([Other(ALLOW, Join(accepted))]) == accepted + Tokens([]);
      } else {
        assert Keep(hs, Under(ALLOW)) + [] == Keep(hs, Under(ALLOW));
      }
    }
  }

  /** A second pass changes nothing. */
  lemma SanitizedTwice(hs: seq<Header>, keep: string -> bool)
    ensures Sanitized(Sanitized(hs, keep), keep) == Sanitized(hs, keep)
  {
    hide Sanitized, AllowTokens;
    SanitizedTokens(hs, keep);
    var accepted := Accepted(AllowTokens(hs), keep);
    AcceptedFewer(AllowTokens(hs), keep);
    AcceptedFewer(accepted, keep);
    Unchanged(Sanitized(hs, keep), keep);
  }

  lemma Unchanged(hs: seq<Header>, keep: string -> bool)
    requires Accepted(AllowTokens(hs), keep) == AllowTokens(hs)
    ensures Sanitized(hs, keep) == hs
  {
  }

  /** Headers named Allow in any case are read, others not; what replaces them is named
      Allow. */
  lemma AllowRead(name: string, value: string, keep: string -> bool)
    ensures EqualFold(name, "Allow") ==> AllowTokens([Other(name, value)]) == Trimmed(Parts(value))
    ensures !EqualFold(name, "Allow") ==> AllowTokens([Other(name, value)]) == []
    ensures forall h <- Sanitized([Other(name, value)], keep) :: h == Other(name, value) || (h.Other? && h.name == "Allow")
  {
    hide Parts, Trimmed, Join, Accepted;
    var hs := [Other(name, value)];
    assert hs[1..] == [];
    assert Tokens(hs) == Trimmed(Parts(value)) + [];
    assert Keep(hs[1..], Under(ALLOW)) == [] && Keep(hs[1..], NotUnder(ALLOW)) == [];
  }

  // ---- In place ------------------------------------------------------------------------

  lemma NothingTrimmed(keep: string -> bool)
    ensures Trimmed([]) == [] && Accepted([], keep) == []
  {
  }

  lemma TrimmedNext(parts: seq<string>, i: nat, keep: string -> bool)
    requires i < |parts|
    ensures var was, is_, tok := Trimmed(parts[..i]), Trimmed(parts[..i + 1]), Trim(parts[i]);
      && is_ == was + (if tok == "" then [] else [tok])
      && Accepted(is_, keep) == Accepted(was, keep) + (if tok != "" && keep(tok) then [tok] else [])
  {
    hide Trim;
    assert parts[..i + 1] == parts[..i] + [parts[i]];
    TrimmedConcat(parts[..i], [parts[i]]);
    AcceptedConcat(Trimmed(parts[..i]), Trimmed([parts[i]]), keep);
    assert Trimmed([parts[i]]) == if Trim(parts[i]) == "" then [] else [Trim(parts[i])];
    assert Accepted(Trimmed([parts[i]]), keep) ==
      if Trim(parts[i]) != "" && keep(Trim(parts[i])) then [Trim(parts[i])] else [];
  }

  /** The accepted ones among the tokens of value. */
  method Filter(value: string, keep: string -> bool) returns (kept: seq<string>, dropped: bool)
    ensures kept == Accepted(Trimmed(Parts(value)), keep)
    ensures dropped <==> exists tok <- Trimmed(Parts(value)) :: !keep(tok)
  {
    hide Trim, Parts, Trimmed, Accepted;
    kept, dropped := [], false;
    var parts := Parts(value);
    NothingTrimmed(keep);
    for i := 0 to |parts|
      invariant kept == Accepted(Trimmed(parts[..i]), keep)
      invariant dropped <==> exists tok <- Trimmed(parts[..i]) :: !keep(tok)
    {
      TrimmedNext(parts, i, keep);
      var tok := Trim(parts[i]);
      if tok == "" {
        continue;
      }
      if keep(tok) {
        kept := kept + [tok];
      } else {
        dropped := true;
      }
    }
    assert parts[..|parts|] == parts;
  }

  /** The accepted ones among the tokens of all the headers. */
  method Collect(found: seq<Header>, keep: string -> bool) returns (kept: seq<string>, dropped: bool)
    requires forall h <- found :: h.Other?
    ensures kept == Accepted(Tokens(found), keep)
    ensures dropped <==> exists tok <- Tokens(found) :: !keep(tok)
  {
    hide Tokens, Parts, Trimmed, Accepted;
    kept, dropped := [], false;
    NoTokens(keep);
    for i := 0 to |found|
      invariant kept == Accepted(Tokens(found[..i]), keep)
      invariant dropped <==> exists tok <- Tokens(found[..i]) :: !keep(tok)
    {
      assert found[i] in found;
      NextTokens(found, i);
      AcceptedConcat(Tokens(found[..i]), Trimmed(Parts(found[i].value)), keep);
      var some, lost := Filter(found[i].value, keep);
      kept, dropped := kept + some, dropped || lost;
    }
    assert found[..|found|] == found;
  }

  lemma NoTokens(keep: string -> bool)
    ensures Tokens([]) == [] && Accepted([], keep) == []
  {
  }

  lemma NextTokens(found: seq<Header>, i: nat)
    requires i < |found| && found[i].Other?
    ensures Tokens(found[..i + 1]) == Tokens(found[..i]) + Trimmed(Parts(found[i].value))
  {
    hide Parts, Trimmed;
    assert found[..i + 1] == found[..i] + [found[i]];
    TokensConcat(found[..i], [found[i]]);
    assert Tokens([found[i]]) == Trimmed(Parts(found[i].value)) + Tokens([]);
  }

  /** sanitizeExtensions, that is filterTokenHeader for Allow. */
  method SanitizeExtensions(m: Message, keep: string -> bool)
    modifies m
    ensures m.Generic() == Sanitized(old(m.Generic()), keep)
    ensures forall k :: Typed(k) ==> m.Named(k) == old(m.Named(k))
  {
    hide Keep, Of, Tokens, Accepted, Join;
    KeepWithin(m.headers, Typed, NotUnder(ALLOW));
    KeepMembers(m.headers, NotUnder(ALLOW));
    NoTokens(keep);
    var found := m.Kept(NotUnder(ALLOW));
    if found == [] {
      return;
    }
    var kept, dropped := Collect(found, keep);
    AcceptedFewer(Tokens(found), keep);
    if !dropped {
      return;
    }
    m.RemoveCollected(Under(ALLOW));
    if kept != [] {
      m.Append(Other(ALLOW, Join(kept)));
    } else {
      assert Keep(old(m.Generic()), Under(ALLOW)) + [] == Keep(old(m.Generic()), Under(ALLOW));
    }
  }
}
