/**
 The identity headers of a message to a public party (internal/edge/hide.go,
 maskIdentity): in each, the hosts that are the switch's are rewritten. Headers
 of a name are collected in any spelling, but taken out by the spelling of the
 first. What rewriting a value comes to is an input: nothing, when the value
 names no switch.
 */
module Identities {
  import opened Headers
  import opened Options
  import opened Text

  function IdentityNames(): seq<string> {
    ["P-Asserted-Identity", "P-Preferred-Identity", "Remote-Party-ID", "Diversion", "History-Info", "Referred-By",
      "Refer-To", "Call-Info", "Alert-Info", "Error-Info"]
  }

  /** Which headers are identity headers. */
  lemma TenNames(k: Kind)
    ensures (exists n <- IdentityNames() :: Folds(k, n)) <==>
      Folds(k, "P-Asserted-Identity") || Folds(k, "P-Preferred-Identity") || Folds(k, "Remote-Party-ID") ||
      Folds(k, "Diversion") || Folds(k, "History-Info") || Folds(k, "Referred-By") || Folds(k, "Refer-To") ||
      Folds(k, "Call-Info") || Folds(k, "Alert-Info") || Folds(k, "Error-Info")
  {
    hide Folds, IdentityNames;
    NamesAre();
    SomeOfTen(k, IdentityNames());
  }

  lemma NamesAre()
    ensures var n := IdentityNames();
      && |n| == 10 && n[0] == "P-Asserted-Identity" && n[1] == "P-Preferred-Identity" && n[2] == "Remote-Party-ID"
      && n[3] == "Diversion" && n[4] == "History-Info" && n[5] == "Referred-By" && n[6] == "Refer-To"
      && n[7] == "Call-Info" && n[8] == "Alert-Info" && n[9] == "Error-Info"
  {
  }

  lemma SomeOfTen(k: Kind, n: seq<string>)
    requires |n| == 10
    ensures (exists x <- n :: Folds(k, x)) <==>
      Folds(k, n[0]) || Folds(k, n[1]) || Folds(k, n[2]) || Folds(k, n[3]) || Folds(k, n[4]) || Folds(k, n[5]) ||
      Folds(k, n[6]) || Folds(k, n[7]) || Folds(k, n[8]) || Folds(k, n[9])
  {
    hide Folds;
    if x :| x in n && Folds(k, x) {
      var i :| 0 <= i < |n| && n[i] == x;
    }
    assert forall i :: 0 <= i < 10 ==> n[i] in n;
  }

  type Rewrite = string -> Option<string>

  predicate NamesSwitch(h: Header, rewrite: Rewrite) {
    h.Other? && rewrite(h.value).Some?
  }

  /** The header under the spelling given, its value rewritten. */
  function Respelled(h: Header, name: string, rewrite: Rewrite): Header {
    match h
    case Other(_, value) => Other(name, if rewrite(value).Some? then rewrite(value).value else value)
    case _ => h
  }

  function AllRespelled(hs: seq<Header>, name: string, rewrite: Rewrite): seq<Header> {
    if hs == [] then [] else [Respelled(hs[0], name, rewrite)] + AllRespelled(hs[1..], name, rewrite)
  }

  function Group(hs: seq<Header>, name: string): seq<Header> {
    Keep(hs, NotUnder(name))
  }

  /** The first spelling of a name among the headers. */
  function Spelling(hs: seq<Header>, name: string): string {
    var g := Group(hs, name);
    if g != [] && g[0].Other? then g[0].name else name
  }

  predicate AnyNames(hs: seq<Header>, rewrite: Rewrite) {
    exists h <- hs :: NamesSwitch(h, rewrite)
  }

  /** The headers after the pass for one name. */
  function MaskedName(hs: seq<Header>, name: string, rewrite: Rewrite): seq<Header> {
    var g := Group(hs, name);
    if AnyNames(g, rewrite) then
      Keep(hs, Only(KOther(Spelling(hs, name)))) + AllRespelled(g, Spelling(hs, name), rewrite)
    else hs
  }

  function MaskedNames(hs: seq<Header>, names: seq<string>, rewrite: Rewrite): seq<Header>
    decreases |names|
  {
    if names == [] then hs else MaskedNames(MaskedName(hs, names[0], rewrite), names[1..], rewrite)
  }

  /** No two of the names are one in another case. */
  ghost predicate Apart(names: seq<string>) {
    forall i, j :: 0 <= i < j < |names| ==> !EqualFold(names[i], names[j])
  }

  /** Rewriting leaves no switch. */
  ghost predicate Thorough(rewrite: Rewrite) {
    forall v :: rewrite(v).Some? ==> rewrite(rewrite(v).value).None?
  }

  ghost predicate CleanName(hs: seq<Header>, name: string, rewrite: Rewrite) {
    forall h <- hs :: Folds(KindOf(h), name) ==> !NamesSwitch(h, rewrite)
  }

  /** Every header of the name that names a switch is spelled as the first one. */
  ghost predicate SpelledAsFirst(hs: seq<Header>, name: string, rewrite: Rewrite) {
    forall h <- hs :: Folds(KindOf(h), name) && NamesSwitch(h, rewrite) ==> h.name == Spelling(hs, name)
  }

  // ---- One name ------------------------------------------------------------------------

  lemma {:induction false} RespelledMembers(hs: seq<Header>, name: string, rewrite: Rewrite)
    ensures |AllRespelled(hs, name, rewrite)| == |hs|
    ensures forall i :: 0 <= i < |hs| ==> AllRespelled(hs, name, rewrite)[i] == Respelled(hs[i], name, rewrite)
    decreases |hs|
  {
    if hs != [] {
      RespelledMembers(hs[1..], name, rewrite);
    }
  }

  lemma GroupMembers(hs: seq<Header>, name: string)
    ensures forall h :: h in Group(hs, name) <==> h in hs && Folds(KindOf(h), name)
    ensures Group(hs, name) != [] ==> EqualFold(Spelling(hs, name), name)
  {
    KeepMembers(hs, NotUnder(name));
    var g := Group(hs, name);
    if g != [] {
      assert g[0] in g;
    }
  }

  lemma RespelledUnder(hs: seq<Header>, name: string, spelling: string, rewrite: Rewrite)
    requires EqualFold(spelling, name) && forall h <- hs :: Folds(KindOf(h), name)
    ensures forall h <- AllRespelled(hs, spelling, rewrite) :: Folds(KindOf(h), name)
    ensures Thorough(rewrite) ==> forall h <- AllRespelled(hs, spelling, rewrite) :: !NamesSwitch(h, rewrite)
  {
    RespelledMembers(hs, spelling, rewrite);
    var r := AllRespelled(hs, spelling, rewrite);
    forall h | h in r ensures Folds(KindOf(h), name) && (Thorough(rewrite) ==> !NamesSwitch(h, rewrite)) {
      var i :| 0 <= i < |r| && r[i] == h;
      assert hs[i] in hs;
    }
  }

  /** A pass for one name leaves the headers of other names alone, in their
      order. */
  lemma MaskedOthers(hs: seq<Header>, name: string, rewrite: Rewrite, drop: Kind -> bool)
    requires forall k :: Folds(k, name) ==> drop(k)
    ensures Keep(MaskedName(hs, name, rewrite), drop) == Keep(hs, drop)
  {
    var g, spelling := Group(hs, name), Spelling(hs, name);
    if AnyNames(g, rewrite) {
      GroupMembers(hs, name);
      RespelledUnder(g, name, spelling, rewrite);
      var kept, own := Keep(hs, Only(KOther(spelling))), AllRespelled(g, spelling, rewrite);
      KeepConcat(kept, own, drop);
      KeepNone(own, drop);
      KeepWithin(hs, Only(KOther(spelling)), drop);
      assert Keep(hs, drop) + [] == Keep(hs, drop);
    }
  }

  /** Where all are spelled alike, the headers of the name keep their order and
      get their rewritten values. */
  lemma MaskedGroup(hs: seq<Header>, name: string, rewrite: Rewrite)
    requires AnyNames(Group(hs, name), rewrite)
    requires forall h <- Group(hs, name) :: KindOf(h) == KOther(Spelling(hs, name))
    ensures Group(MaskedName(hs, name, rewrite), name) == AllRespelled(Group(hs, name), Spelling(hs, name), rewrite)
  {
    var g, spelling := Group(hs, name), Spelling(hs, name);
    var kept, own := Keep(hs, Only(KOther(spelling))), AllRespelled(g, spelling, rewrite);
    GroupMembers(hs, name);
    RespelledUnder(g, name, spelling, rewrite);
    KeepConcat(kept, own, NotUnder(name));
    KeepAll(own, NotUnder(name));
    KeepTwice(hs, Only(KOther(spelling)), NotUnder(name));
    KeepNone(g, Only(KOther(spelling)));
  }

  /** A pass cleans its name exactly when each header that names a switch is
      spelled as the first. */
  lemma MaskedClean(hs: seq<Header>, name: string, rewrite: Rewrite)
    requires Thorough(rewrite)
    ensures CleanName(MaskedName(hs, name, rewrite), name, rewrite) <==> SpelledAsFirst(hs, name, rewrite)
  {
    var g, spelling := Group(hs, name), Spelling(hs, name);
    GroupMembers(hs, name);
    if AnyNames(g, rewrite) {
      RespelledUnder(g, name, spelling, rewrite);
      var own := AllRespelled(g, spelling, rewrite);
      KeepMembers(hs, Only(KOther(spelling)));
      assert forall h :: h in MaskedName(hs, name, rewrite) <==> h in Keep(hs, Only(KOther(spelling))) || h in own;
    }
  }

  /** Of two headers under a name in different cases the second stays as it was. */
  lemma MixedCaseStays(value: string, second: string, rewrite: Rewrite)
    requires rewrite(second).Some?
    ensures Other("diversion", second) in MaskedName([Other("Diversion", value), Other("diversion", second)], "Diversion",
      rewrite)
  {
    var a, b := Other("Diversion", value), Other("diversion", second);
    assert EqualFold("diversion", "Diversion");
    var hs := [a, b];
    GroupMembers(hs, "Diversion");
    KeepAll(hs, NotUnder("Diversion"));
    KeepMembers(hs, Only(KOther("Diversion")));
    assert NamesSwitch(b, rewrite) && b in hs;
    assert KindOf(b) != KOther("Diversion");
  }

  // ---- All of them ---------------------------------------------------------------------

  lemma GroupKept(hs: seq<Header>, name: string, rewrite: Rewrite, other: string)
    requires !EqualFold(name, other)
    ensures Group(MaskedName(hs, name, rewrite), other) == Group(hs, other)
  {
    MaskedOthers(hs, name, rewrite, NotUnder(other));
  }

  lemma SameGroup(a: seq<Header>, b: seq<Header>, name: string, rewrite: Rewrite)
    requires Group(a, name) == Group(b, name)
    ensures CleanName(a, name, rewrite) <==> CleanName(b, name, rewrite)
    ensures SpelledAsFirst(a, name, rewrite) <==> SpelledAsFirst(b, name, rewrite)
  {
    GroupMembers(a, name);
    GroupMembers(b, name);
    assert forall h :: (h in a && Folds(KindOf(h), name)) <==> (h in b && Folds(KindOf(h), name));
  }

  lemma {:induction false} GroupKeptByAll(hs: seq<Header>, names: seq<string>, rewrite: Rewrite, other: string)
    requires forall n <- names :: !EqualFold(n, other)
    ensures Group(MaskedNames(hs, names, rewrite), other) == Group(hs, other)
    decreases |names|
  {
    if names != [] {
      assert names[0] in names;
      GroupKept(hs, names[0], rewrite, other);
      GroupKeptByAll(MaskedName(hs, names[0], rewrite), names[1..], rewrite, other);
    }
  }

  /** A header that is none of the names' stays, in its place among its kind. */
  lemma {:induction false} MaskedNamesOthers(hs: seq<Header>, names: seq<string>, rewrite: Rewrite, drop: Kind -> bool)
    requires forall k, n <- names :: Folds(k, n) ==> drop(k)
    ensures Keep(MaskedNames(hs, names, rewrite), drop) == Keep(hs, drop)
    decreases |names|
  {
    if names != [] {
      assert names[0] in names;
      MaskedOthers(hs, names[0], rewrite, drop);
      MaskedNamesOthers(MaskedName(hs, names[0], rewrite), names[1..], rewrite, drop);
    }
  }

  lemma {:induction false} MaskedNamesClean(hs: seq<Header>, names: seq<string>, rewrite: Rewrite, name: string)
    requires Thorough(rewrite) && Apart(names) && name in names
    ensures CleanName(MaskedNames(hs, names, rewrite), name, rewrite) <==> SpelledAsFirst(hs, name, rewrite)
    decreases |names|
  {
    hide MaskedName, CleanName, SpelledAsFirst, Thorough, Group;
    var next, rest := MaskedName(hs, names[0], rewrite), names[1..];
    if name == names[0] {
      MaskedClean(hs, name, rewrite);
      forall n <- rest ensures !EqualFold(n, name) {
        var j :| 0 <= j < |rest| && rest[j] == n;
        assert names[j + 1] == n;
      }
      GroupKeptByAll(next, rest, rewrite, name);
      SameGroup(MaskedNames(next, rest, rewrite), next, name, rewrite);
    } else {
      var j :| 0 < j < |names| && names[j] == name;
      assert rest[j - 1] == name;
      MaskedNamesClean(next, rest, rewrite, name);
      GroupKept(hs, names[0], rewrite, name);
      SameGroup(next, hs, name, rewrite);
    }
  }

  lemma NamesApart()
    ensures Apart(IdentityNames())
  {
    hide EqualFold;
    forall i, j | 0 <= i < j < |IdentityNames()| ensures !EqualFold(IdentityNames()[i], IdentityNames()[j]) {
      TwoApart(i, j);
    }
  }

  /** The names differ in length or, folded, in the first letter. */
  lemma TwoApart(i: nat, j: nat)
    requires i < j < |IdentityNames()|
    ensures !EqualFold(IdentityNames()[i], IdentityNames()[j])
  {
    var a, b := IdentityNames()[i], IdentityNames()[j];
    assert |Lower(a)| == |a| > 0 && |Lower(b)| == |b| > 0;
    assert |a| != |b| || Lower(a)[0] != Lower(b)[0];
  }

  /** No identity header names a switch after masking, exactly when under each
      name those that did were spelled as its first header. */
  lemma IdentityCleanIff(hs: seq<Header>, rewrite: Rewrite)
    requires Thorough(rewrite)
    ensures (forall n <- IdentityNames() :: CleanName(MaskedNames(hs, IdentityNames(), rewrite), n, rewrite)) <==>
      (forall n <- IdentityNames() :: SpelledAsFirst(hs, n, rewrite))
  {
    hide IdentityNames, CleanName, SpelledAsFirst, MaskedNames;
    NamesApart();
    forall n <- IdentityNames()
      ensures CleanName(MaskedNames(hs, IdentityNames(), rewrite), n, rewrite) <==> SpelledAsFirst(hs, n, rewrite)
    {
      MaskedNamesClean(hs, IdentityNames(), rewrite, n);
    }
  }

  // ---- In place ------------------------------------------------------------------------

  /** The values of a name's headers, and whether one named a switch. */
  method Values(hs: seq<Header>, name: string, rewrite: Rewrite) returns (vals: seq<Header>, changed: bool)
    requires forall h <- hs :: h.Other?
    ensures vals == AllRespelled(hs, name, rewrite) && (changed <==> AnyNames(hs, rewrite))
  {
    hide AllRespelled, AnyNames, NamesSwitch;
    vals, changed := [], false;
    NothingNamed(rewrite);
    RespelledMembers([], name, rewrite);
    for i := 0 to |hs|
      invariant vals == AllRespelled(hs[..i], name, rewrite) && (changed <==> AnyNames(hs[..i], rewrite))
    {
      assert hs[i] in hs;
      RespelledNext(hs, i, name, rewrite);
      var masked := rewrite(hs[i].value);
      if masked.Some? {
        changed := true;
      }
      vals := vals + [Other(name, if masked.Some? then masked.value else hs[i].value)];
    }
    assert hs[..|hs|] == hs;
  }

  lemma RespelledNext(hs: seq<Header>, i: nat, name: string, rewrite: Rewrite)
    requires i < |hs| && hs[i].Other?
    ensures AllRespelled(hs[..i + 1], name, rewrite) ==
      AllRespelled(hs[..i], name, rewrite) + [Respelled(hs[i], name, rewrite)]
    ensures AnyNames(hs[..i + 1], rewrite) <==> AnyNames(hs[..i], rewrite) || rewrite(hs[i].value).Some?
  {
    var was, is_ := hs[..i], hs[..i + 1];
    assert is_ == was + [hs[i]];
    assert forall h :: h in is_ <==> h in was || h == hs[i];
    assert NamesSwitch(hs[i], rewrite) <==> rewrite(hs[i].value).Some?;
    assert hs[i] in is_;
    RespelledMembers(was, name, rewrite);
    RespelledMembers(is_, name, rewrite);
  }

  /** The pass of maskIdentity for one name. */
  method MaskName(m: Message, name: string, rewrite: Rewrite)
    modifies m
    ensures m.Generic() == MaskedName(old(m.Generic()), name, rewrite)
    ensures forall k :: Typed(k) ==> m.Named(k) == old(m.Named(k))
  {
    hide Keep, Of, AllRespelled, AnyNames;
    KeepWithin(m.headers, Typed, NotUnder(name));
    KeepMembers(m.headers, NotUnder(name));
    NothingNamed(rewrite);
    var hs := m.Kept(NotUnder(name));
    if hs == [] {
      return;
    }
    assert hs[0] in hs;
    var spelling := hs[0].name;
    var vals, changed := Values(hs, spelling, rewrite);
    if !changed {
      return;
    }
    m.RemoveHeaders(KOther(spelling));
    RespelledMembers(hs, spelling, rewrite);
    forall i | 0 <= i < |vals| ensures KindOf(vals[i]) == KOther(spelling) {
      assert hs[i] in hs;
    }
    AppendAll(m, vals, KOther(spelling));
  }

  lemma NothingNamed(rewrite: Rewrite)
    ensures !AnyNames([], rewrite)
  {
  }

  method AppendAll(m: Message, hs: seq<Header>, k: Kind)
    requires k.KOther? && forall i :: 0 <= i < |hs| ==> KindOf(hs[i]) == k
    modifies m
    ensures m.Generic() == old(m.Generic()) + hs
    ensures forall k :: Typed(k) ==> m.Named(k) == old(m.Named(k))
  {
    hide Keep, Of;
    assert m.Generic() + [] == m.Generic();
    for i := 0 to |hs|
      invariant m.Generic() == old(m.Generic()) + hs[..i]
      invariant forall k :: Typed(k) ==> m.Named(k) == old(m.Named(k))
    {
      assert old(m.Generic()) + hs[..i] + [hs[i]] == old(m.Generic()) + hs[..i + 1];
      m.Append(hs[i]);
    }
    assert hs[..|hs|] == hs;
  }

  /** maskIdentity's loop over the names. */
  method MaskIdentityHeaders(m: Message, rewrite: Rewrite)
    modifies m
    ensures m.Generic() == MaskedNames(old(m.Generic()), IdentityNames(), rewrite)
    ensures forall k :: Typed(k) ==> m.Named(k) == old(m.Named(k))
  {
    hide Keep, Of, MaskedName, IdentityNames;
    var names := IdentityNames();
    for i := 0 to |names|
      invariant MaskedNames(m.Generic(), names[i..], rewrite) == MaskedNames(old(m.Generic()), names, rewrite)
      invariant forall k :: Typed(k) ==> m.Named(k) == old(m.Named(k))
    {
      assert names[i..][1..] == names[i + 1..];
      MaskName(m, names[i], rewrite);
    }
    assert names[|names|..] == [];
  }
}
