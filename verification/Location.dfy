/**
 The table of registration bindings (internal/edge/location.go): bindings by
 token, indexed by address-of-record, by source address and counted by IP.

 A binding is named by its token, which it keeps while it is in the table: the
 lists of the program hold pointers, the lists here hold tokens. What the
 indexes must agree on is stated about the value `Tables`; the methods of
 `Location` are the program's loops and updates on its fields.
 */
module Locations {
  import Index
  import opened Net
  import opened Options

  type Token = string

  datatype Binding = Binding(
    token: Token, aor: string, user: string, transport: string, source: AddrPort, expiresAt: int, callID: string)

  predicate Expired(b: Binding, now: int) {
    now >= b.expiresAt
  }

  function AorOf(b: Binding): string { b.aor }
  function SourceOf(b: Binding): AddrPort { b.source }
  function IpOf(b: Binding): Addr { Unmap(b.source.addr) }

  /** The four maps. */
  datatype Tables = Tables(
    byToken: map<Token, Binding>, byAOR: map<string, seq<Token>>, bySource: map<AddrPort, seq<Token>>,
    byIP: map<Addr, nat>)

  // ---- Agreement ---------------------------------------------------------------

  /** The bindings registered from ip. */
  function FromIP(bs: map<Token, Binding>, ip: Addr): set<Token> {
    set t | t in bs && IpOf(bs[t]) == ip
  }

  ghost predicate CountsIPs(byIP: map<Addr, nat>, bs: map<Token, Binding>) {
    forall ip: Addr :: |FromIP(bs, ip)| == if ip in byIP then byIP[ip] else 0
  }

  ghost predicate NoZeroCount(byIP: map<Addr, nat>) {
    forall ip <- byIP :: byIP[ip] > 0
  }

  ghost predicate SourcesAgree(x: Tables, bs: map<Token, Binding>) {
    Index.Agrees(x.bySource, bs, SourceOf) && CountsIPs(x.byIP, bs) && NoZeroCount(x.byIP)
  }

  ghost predicate Agree(x: Tables) {
    && (forall t <- x.byToken :: x.byToken[t].token == t)
    && Index.Agrees(x.byAOR, x.byToken, AorOf)
    && SourcesAgree(x, x.byToken)
  }

  /** One binding per registration flow: an (AoR, Call-ID) pair occurs once. */
  ghost predicate OnePerFlow(bs: map<Token, Binding>) {
    forall t <- bs, u <- bs :: t != u ==> bs[t].aor != bs[u].aor || bs[t].callID != bs[u].callID
  }

  // ---- The elementary updates -----------------------------------------------------

  function IndexSourceIn(x: Tables, t: Token, b: Binding): Tables {
    var ip := IpOf(b);
    x.(bySource := Index.Add(x.bySource, b.source, t), byIP := x.byIP[ip := (if ip in x.byIP then x.byIP[ip] else 0) + 1])
  }

  function UnindexSourceIn(x: Tables, t: Token, b: Binding): Tables {
    var ip := IpOf(b);
    var n := if ip in x.byIP then x.byIP[ip] else 0;
    x.(bySource := Index.Drop(x.bySource, b.source, t), byIP := if n <= 1 then x.byIP - {ip} else x.byIP[ip := n - 1])
  }

  function DeleteIn(x: Tables, t: Token): Tables
    requires t in x.byToken
  {
    var b := x.byToken[t];
    UnindexSourceIn(x, t, b).(byToken := x.byToken - {t}, byAOR := Index.Drop(x.byAOR, b.aor, t))
  }

  lemma IndexSourceAgrees(x: Tables, bs: map<Token, Binding>, t: Token, b: Binding)
    requires SourcesAgree(x, bs) && t !in bs
    ensures SourcesAgree(IndexSourceIn(x, t, b), bs[t := b])
  {
    hide Index.Agrees, FromIP;
    Index.AddAgrees(x.bySource, bs, SourceOf, t, b);
    var x' := IndexSourceIn(x, t, b);
    forall ip: Addr ensures |FromIP(bs[t := b], ip)| == if ip in x'.byIP then x'.byIP[ip] else 0 {
      FromIPAdd(bs, t, b, ip);
    }
  }

  lemma FromIPAdd(bs: map<Token, Binding>, t: Token, b: Binding, ip: Addr)
    requires t !in bs
    ensures |FromIP(bs[t := b], ip)| == |FromIP(bs, ip)| + if IpOf(b) == ip then 1 else 0
  {
    if IpOf(b) == ip {
      assert FromIP(bs[t := b], ip) == FromIP(bs, ip) + {t};
    } else {
      assert FromIP(bs[t := b], ip) == FromIP(bs, ip);
    }
  }

  lemma UnindexSourceAgrees(x: Tables, bs: map<Token, Binding>, t: Token)
    requires SourcesAgree(x, bs) && t in bs
    ensures SourcesAgree(UnindexSourceIn(x, t, bs[t]), bs - {t})
  {
    hide Index.Agrees, FromIP;
    var b := bs[t];
    Index.DropAgrees(x.bySource, bs, SourceOf, t);
    var x' := UnindexSourceIn(x, t, b);
    assert (bs - {t})[t := b] == bs;
    forall ip: Addr ensures |FromIP(bs - {t}, ip)| == if ip in x'.byIP then x'.byIP[ip] else 0 {
      FromIPAdd(bs - {t}, t, b, ip);
    }
  }

  lemma DeleteAgrees(x: Tables, t: Token)
    requires Agree(x) && t in x.byToken
    ensures Agree(DeleteIn(x, t))
  {
    UnindexSourceAgrees(x, x.byToken, t);
    Index.DropAgrees(x.byAOR, x.byToken, AorOf, t);
  }

  lemma ReindexAgrees(x: Tables, bs: map<Token, Binding>, t: Token, b: Binding)
    requires SourcesAgree(x, bs) && t in bs
    ensures SourcesAgree(IndexSourceIn(UnindexSourceIn(x, t, bs[t]), t, b), bs[t := b])
  {
    UnindexSourceAgrees(x, bs, t);
    PutBack(UnindexSourceIn(x, t, bs[t]), bs, t, b);
  }

  lemma PutBack(y: Tables, bs: map<Token, Binding>, t: Token, b: Binding)
    requires SourcesAgree(y, bs - {t})
    ensures SourcesAgree(IndexSourceIn(y, t, b), bs[t := b])
  {
    hide SourcesAgree, IndexSourceIn;
    IndexSourceAgrees(y, bs - {t}, t, b);
    assert (bs - {t})[t := b] == bs[t := b];
  }

  function RefreshIn(x: Tables, b: Binding): Tables
    requires b.token in x.byToken
  {
    IndexSourceIn(UnindexSourceIn(x, b.token, x.byToken[b.token]), b.token, b).(byToken := x.byToken[b.token := b])
  }

  /** A refresh in place: the binding leaves the source index under its old
      address and enters it under the new one. */
  lemma RefreshAgrees(x: Tables, b: Binding)
    requires Agree(x) && b.token in x.byToken && x.byToken[b.token].aor == b.aor
    ensures Agree(RefreshIn(x, b))
  {
    ReindexAgrees(x, x.byToken, b.token, b);
    Index.UpdateAgrees(x.byAOR, x.byToken, AorOf, b.token, b);
  }

  function InsertIn(x: Tables, b: Binding): Tables {
    IndexSourceIn(x, b.token, b).(byToken := x.byToken[b.token := b], byAOR := Index.Add(x.byAOR, b.aor, b.token))
  }

  lemma InsertAgrees(x: Tables, b: Binding)
    requires Agree(x) && b.token !in x.byToken
    ensures Agree(InsertIn(x, b))
  {
    IndexSourceAgrees(x, x.byToken, b.token, b);
    Index.AddAgrees(x.byAOR, x.byToken, AorOf, b.token, b);
  }

  // ---- Reading the indexes ----------------------------------------------------------

  /** A list of the AoR index holds each binding of the AoR once. */
  lemma GroupOfAor(x: Tables, aor: string)
    requires Agree(x)
    ensures var list := Index.Group(x.byAOR, aor);
      && Index.Distinct(list)
      && (forall t :: t in list <==> t in x.byToken && x.byToken[t].aor == aor)
      && (forall t <- list :: x.byToken[t].token == t)
      && |list| == |BindingsOf(x.byToken, aor)|
  {
    var list := Index.Group(x.byAOR, aor);
    forall t ensures t in list <==> t in x.byToken && x.byToken[t].aor == aor {
      if t in x.byToken && x.byToken[t].aor == aor {
        assert AorOf(x.byToken[t]) in x.byAOR;
      }
    }
    Index.SetSize(list);
    assert Index.Elems(list) == BindingsOf(x.byToken, aor);
  }

  lemma GroupOfSource(x: Tables, src: AddrPort)
    requires Agree(x)
    ensures var list := Index.Group(x.bySource, src);
      && Index.Distinct(list)
      && (forall t :: t in list <==> t in x.byToken && x.byToken[t].source == src)
      && (forall t <- list :: x.byToken[t].token == t)
  {
    var list := Index.Group(x.bySource, src);
    forall t ensures t in list <==> t in x.byToken && x.byToken[t].source == src {
      if t in x.byToken && x.byToken[t].source == src {
        assert SourceOf(x.byToken[t]) in x.bySource;
      }
    }
  }

  function BindingsOf(bs: map<Token, Binding>, aor: string): set<Token> {
    set t | t in bs && bs[t].aor == aor
  }

  // ---- The program's table ----------------------------------------------------------

  datatype PutResult = Stored(token: Token) | FullPerAOR | FullTotal

  /** How text is lower-cased, and compared without regard to case. */
  datatype Folding = Folding(lower: string -> string, equal: (string, string) -> bool)

  class Location {
    const fo: Folding
    var byToken: map<Token, Binding>
    var byAOR: map<string, seq<Token>>
    var bySource: map<AddrPort, seq<Token>>
    var byIP: map<Addr, nat>
    const maxTotal: nat
    const maxPerAOR: nat
    /** Whether a removal hook is set; removed are the tokens it has yet to be
        told, handed those it was told. */
    const hook: bool
    var removed: seq<Token>
    ghost var handed: seq<Token>
    /** Every token that ever left the table, in order. */
    ghost var departed: seq<Token>

    ghost function X(): Tables
      reads this
    {
      Tables(byToken, byAOR, bySource, byIP)
    }

    ghost predicate Valid()
      reads this
    {
      && Agree(X()) && Bounded(byToken, maxPerAOR, maxTotal)
      && removed == [] && (hook ==> handed == departed)
    }

    constructor (fo: Folding, hook: bool, maxTotal: nat, maxPerAOR: nat)
      ensures Valid() && byToken == map[] && departed == [] && this.hook == hook
      ensures this.fo == fo && this.maxTotal == maxTotal && this.maxPerAOR == maxPerAOR
    {
      byToken, byAOR, bySource, byIP := map[], map[], map[], map[];
      this.fo, this.hook, this.maxTotal, this.maxPerAOR := fo, hook, maxTotal, maxPerAOR;
      removed, handed, departed := [], [], [];
    }

    method IndexSource(t: Token, b: Binding)
      modifies this`bySource, this`byIP
      ensures X() == IndexSourceIn(old(X()), t, b)
    {
      bySource := bySource[b.source := Index.Group(bySource, b.source) + [t]];
      var ip := Unmap(b.source.addr);
      byIP := byIP[ip := (if ip in byIP then byIP[ip] else 0) + 1];
    }

    method UnindexSource(t: Token, b: Binding)
      modifies this`bySource, this`byIP
      ensures X() == UnindexSourceIn(old(X()), t, b)
    {
      var ip := Unmap(b.source.addr);
      if ip !in byIP || byIP[ip] <= 1 {
        byIP := byIP - {ip};
      } else {
        byIP := byIP[ip := byIP[ip] - 1];
      }
      var list := Index.Group(bySource, b.source);
      ghost var whole := list;
      var i := 0;
      while i < |list|
        invariant 0 <= i <= |list| && list == whole && t !in list[..i]
      {
        if list[i] == t {
          Index.WithoutAt(list, i);
          list := list[..i] + list[i + 1..];
          break;
        }
        i := i + 1;
      }
      assert whole[..|whole|] == whole;
      if |list| == 0 {
        bySource := bySource - {b.source};
      } else {
        bySource := bySource[b.source := list];
      }
    }

    /** deleteLocked: removes entry i of an AoR's list, from every index. */
    method Delete(aor: string, i: nat)
      requires aor in byAOR && i < |byAOR[aor]| && Index.Distinct(byAOR[aor])
      requires byAOR[aor][i] in byToken && byToken[byAOR[aor][i]].aor == aor
      modifies this`byToken, this`byAOR, this`bySource, this`byIP, this`removed, this`departed
      ensures X() == DeleteIn(old(X()), old(byAOR[aor][i]))
      ensures removed == if hook then old(removed) + [old(byAOR[aor][i])] else old(removed)
      ensures departed == old(departed) + [old(byAOR[aor][i])]
    {
      hide Index.Distinct, Index.Drop;
      EarlierDiffer(byAOR[aor], i);
      var t := byAOR[aor][i];
      var b := byToken[t];
      byToken := byToken - {t};
      departed := departed + [t];
      if hook {
        removed := removed + [t];
      }
      UnindexSource(t, b);
      CutAOR(aor, i);
    }

    method CutAOR(aor: string, i: nat)
      requires aor in byAOR && i < |byAOR[aor]| && byAOR[aor][i] !in byAOR[aor][..i]
      modifies this`byAOR
      ensures byAOR == Index.Drop(old(byAOR), aor, old(byAOR[aor][i]))
    {
      var list := byAOR[aor];
      Index.WithoutAt(list, i);
      list := list[..i] + list[i + 1..];
      if |list| == 0 {
        byAOR := byAOR - {aor};
      } else {
        byAOR := byAOR[aor := list];
      }
    }

    /** deleteLocked on a table whose indexes agree. */
    method DeleteEntry(aor: string, i: nat)
      requires Agree(X()) && i < |Index.Group(byAOR, aor)|
      modifies this`byToken, this`byAOR, this`bySource, this`byIP, this`removed, this`departed
      ensures Agree(X())
      ensures var list := old(Index.Group(byAOR, aor));
        && list[i] in old(byToken) && byToken == old(byToken) - {list[i]}
        && Index.Group(byAOR, aor) == list[..i] + list[i + 1..]
      ensures Leaves([old(Index.Group(byAOR, aor)[i])])
    {
      hide Agree, Bounded;
      AtIndex(X(), aor, i);
      Delete(aor, i);
    }

    /** What a removal does to the hook's queue and the log: each binding that
        left the table is entered, once. */
    twostate predicate Leaves(gone: seq<Token>)
      reads this
    {
      && Index.Distinct(gone) && Index.Elems(gone) == old(byToken).Keys - byToken.Keys
      && removed == old(removed) + (if hook then gone else [])
      && departed == old(departed) + gone
    }

    /** One turn of pruneAORLocked: entry i of the AoR's list goes if it lapsed. */
    method PruneEntry(aor: string, i: nat, now: int, ghost bs: map<Token, Binding>, ghost all: seq<Token>,
      ghost gone: seq<Token>)
      returns (dropped: bool)
      requires Agree(X()) && Sweeps(bs, byToken, Index.Group(byAOR, aor), all, gone, i + 1, now)
      modifies this`byToken, this`byAOR, this`bySource, this`byIP, this`removed, this`departed
      ensures Agree(X())
      ensures dropped ==> Leaves([all[i]]) && Sweeps(bs, byToken, Index.Group(byAOR, aor), all, gone + [all[i]], i, now)
      ensures !dropped ==>
        removed == old(removed) && departed == old(departed) && byToken == old(byToken) &&
        Sweeps(bs, byToken, Index.Group(byAOR, aor), all, gone, i, now)
    {
      hide Agree, Expired, LapsedIn, Index.Distinct, Sweeps;
      SweepStep(bs, byToken, Index.Group(byAOR, aor), all, gone, i, now);
      var list := Index.Group(byAOR, aor);
      dropped := Expired(byToken[list[i]], now);
      if dropped {
        DeleteEntry(aor, i);
      }
    }

    /** pruneAORLocked. */
    method PruneAOR(aor: string, now: int) returns (n: nat, ghost gone: seq<Token>)
      requires Agree(X())
      modifies this`byToken, this`byAOR, this`bySource, this`byIP, this`removed, this`departed
      ensures Agree(X())
      ensures byToken == Pruned(old(byToken), aor, now)
      ensures Leaves(gone) && n == |gone|
    {
      hide Agree, Expired, Pruned, Sweeps, Index.Distinct;
      ghost var bs, all := byToken, Index.Group(byAOR, aor);
      GroupOfAor(X(), aor);
      n, gone := 0, [];
      var i := |Index.Group(byAOR, aor)|;
      SweepStart(bs, all, now);
      assert removed + [] == removed && departed + [] == departed;
      while i > 0
        invariant 0 <= i <= |all| && |gone| == n && Agree(X())
        invariant Sweeps(bs, byToken, Index.Group(byAOR, aor), all, gone, i, now)
        invariant removed == old(removed) + (if hook then gone else []) && departed == old(departed) + gone
      {
        i := i - 1;
        var dropped := PruneEntry(aor, i, now, bs, all, gone);
        if dropped {
          gone, n := gone + [all[i]], n + 1;
        }
      }
      SweepEnd(bs, byToken, Index.Group(byAOR, aor), all, gone, aor, now);
    }

    /** All the bindings gone, and no others, are entered in the log; with a hook
        each was handed over, and nothing waits. */
    twostate predicate Handed(gone: seq<Token>)
      reads this
    {
      Index.Distinct(gone) && departed == old(departed) + gone && removed == [] && (hook ==> handed == departed)
    }

    /** Remove: an explicit un-REGISTER. */
    method Remove(aor: string, callID: string) returns (found: Option<Token>)
      requires Valid()
      modifies this
      ensures match found
        case Some(t) => IsFlow(old(byToken), t, aor, callID) && byToken == old(byToken) - {t} && Handed([t])
        case None => byToken == old(byToken) && NoFlow(byToken, aor, callID) && Handed([])
      ensures Valid()
    {
      hide Agree, Bounded;
      found := None;
      var list := Index.Group(byAOR, aor);
      GroupOfAor(X(), aor);
      for i := 0 to |list|
        invariant found.None? && X() == old(X()) && departed == old(departed) && removed == old(removed)
        invariant forall j :: 0 <= j < i ==> byToken[list[j]].callID != callID
      {
        assert list[i] in list;
        if byToken[list[i]].callID == callID {
          DeleteEntry(aor, i);
          FewerBindings(old(byToken), byToken);
          found := Some(list[i]);
          break;
        }
      }
      FlushRemoved();
    }

    /** Prune: drops the lapsed bindings of every AoR, in whatever order the map
        gives them. */
    method Prune(now: int) returns (n: nat, ghost gone: seq<Token>)
      requires Valid()
      modifies this
      ensures Valid()
      ensures byToken == Alive(old(byToken), now)
      ensures Handed(gone) && n == |gone| && Index.Elems(gone) == old(byToken).Keys - byToken.Keys
    {
      hide Agree, Bounded, Expired, OnePerFlow, Index.Distinct, Pruned, AliveExcept, Alive;
      n, gone := 0, [];
      ghost var bs := byToken;
      EveryAorIndexed(X());
      var rest := byAOR.Keys;
      AliveStart(bs, rest, now);
      NoneGone(byToken.Keys);
      while rest != {}
        invariant Agree(X()) && Leaves(gone) && n == |gone| && handed == old(handed)
        invariant byToken == AliveExcept(bs, rest, now)
        decreases |rest|
      {
        var aor :| aor in rest;
        ghost var reached := rest;
        rest := rest - {aor};
        assert rest + {aor} == reached;
        var k;
        ghost var lost;
        ghost var between := byToken;
        k, lost := PruneAOR(aor, now);
        AliveStep(bs, rest, aor, now);
        Joined(gone, lost, bs.Keys, between.Keys, byToken.Keys);
        n, gone := n + k, gone + lost;
      }
      AliveEnd(bs, now);
      FewerBindings(bs, byToken);
      assert Bounded(byToken, maxPerAOR, maxTotal);
      assert removed == if hook then gone else [];
      FlushRemoved();
    }

    /** One turn of removeBySource: the victim is looked up in its AoR's list and
        goes. */
    method RemoveVictim(t: Token)
      requires Agree(X()) && t in byToken
      modifies this`byToken, this`byAOR, this`bySource, this`byIP, this`removed, this`departed
      ensures Agree(X()) && byToken == old(byToken) - {t}
      ensures removed == old(removed) + (if hook then [t] else []) && departed == old(departed) + [t]
    {
      hide Agree;
      var i := EntryOf(t);
      DeleteEntry(byToken[t].aor, i);
    }

    /** removeBySource: with transport "" every binding from src, else those
        registered over that transport. */
    method RemoveBySource(transport: string, src: AddrPort) returns (n: nat, ghost gone: seq<Token>)
      requires Valid()
      modifies this
      ensures Valid()
      ensures byToken == NotFrom(fo, old(byToken), transport, src)
      ensures Handed(gone) && n == |gone| && Index.Elems(gone) == old(byToken).Keys - byToken.Keys
    {
      hide Agree, Bounded, Index.Distinct, IsFrom;
      ghost var bs := byToken;
      var victims := Victims(transport, src);
      VictimsStart(bs, victims);
      assert removed + [] == removed && departed + [] == departed;
      for k := 0 to |victims|
        invariant Agree(X()) && handed == old(handed)
        invariant removed == old(removed) + (if hook then victims[..k] else [])
        invariant departed == old(departed) + victims[..k] && byToken == bs - Index.Elems(victims[..k])
      {
        VictimNext(bs, victims, k);
        RemoveVictim(victims[k]);
      }
      assert victims[..|victims|] == victims;
      n, gone := |victims|, victims;
      VictimsGone(fo, bs, victims, transport, src);
      FewerBindings(bs, byToken);
      assert Bounded(byToken, maxPerAOR, maxTotal);
      assert removed == if hook then gone else [];
      FlushRemoved();
    }

    method Victims(transport: string, src: AddrPort) returns (victims: seq<Token>)
      requires Agree(X())
      ensures Index.Distinct(victims)
      ensures forall t :: t in victims <==> t in byToken && IsFrom(fo, byToken[t], transport, src)
    {
      hide Agree, Bounded;
      victims := [];
      var list := Index.Group(bySource, src);
      GroupOfSource(X(), src);
      for i := 0 to |list|
        invariant Index.Distinct(victims)
        invariant forall t :: t in victims <==> t in list[..i] && IsFrom(fo, byToken[t], transport, src)
      {
        assert list[i] in list && list[i] !in list[..i] && list[..i + 1] == list[..i] + [list[i]];
        if transport == "" || fo.equal(byToken[list[i]].transport, transport) {
          victims := victims + [list[i]];
        }
      }
      assert list[..|list|] == list;
    }

    /** Where the list of its AoR holds t. */
    method EntryOf(t: Token) returns (i: nat)
      requires Agree(X()) && t in byToken
      ensures var list := Index.Group(byAOR, byToken[t].aor);
        i < |list| && list[i] == t
    {
      hide Agree, Bounded;
      var list := Index.Group(byAOR, byToken[t].aor);
      GroupOfAor(X(), byToken[t].aor);
      i := 0;
      while list[i] != t
        invariant i < |list| && t !in list[..i]
        decreases |list| - i
      {
        assert list[..i + 1] == list[..i] + [list[i]];
        i := i + 1;
        assert t in list && (t in list <==> t in list[..i] || t in list[i..]);
      }
    }

    // ---- Lookups: each gives what a scan of the whole set of bindings would ----

    method ByToken(t: Token, now: int) returns (b: Option<Binding>)
      requires Valid()
      ensures b == if t in byToken && !Expired(byToken[t], now) then Some(byToken[t]) else None
      ensures b.Some? ==> b.value.token == t
    {
      if t !in byToken || Expired(byToken[t], now) {
        return None;
      }
      return Some(byToken[t]);
    }

    method ByAOR(aor: string, now: int) returns (live: seq<Binding>)
      requires Valid()
      ensures forall b ::
        b in live <==> b.token in byToken && byToken[b.token] == b && b.aor == fo.lower(aor) && !Expired(b, now)
      ensures forall i, j :: 0 <= i < j < |live| ==> live[i].token != live[j].token
    {
      hide Agree, Bounded;
      live := [];
      var list := Index.Group(byAOR, fo.lower(aor));
      GroupOfAor(X(), fo.lower(aor));
      for i := 0 to |list|
        invariant forall b ::
          b in live <==> b.token in byToken && byToken[b.token] == b && b.token in list[..i] && !Expired(b, now)
        invariant forall i, j :: 0 <= i < j < |live| ==> live[i].token != live[j].token
      {
        assert list[i] in list && list[i] !in list[..i] && list[..i + 1] == list[..i] + [list[i]];
        var b := byToken[list[i]];
        if !Expired(b, now) {
          live := live + [b];
        }
      }
      assert list[..|list|] == list;
    }

    method HasSource(transport: string, src: AddrPort, now: int) returns (has: bool)
      requires Valid()
      ensures has <==> exists t :: t in byToken && Serves(fo, byToken[t], transport, src, now)
    {
      hide Agree, Bounded;
      var list := Index.Group(bySource, src);
      GroupOfSource(X(), src);
      for i := 0 to |list|
        invariant forall j :: 0 <= j < i ==> !Serves(fo, byToken[list[j]], transport, src, now)
      {
        assert list[i] in list;
        if fo.equal(byToken[list[i]].transport, transport) && !Expired(byToken[list[i]], now) {
          assert Serves(fo, byToken[list[i]], transport, src, now);
          return true;
        }
      }
      return false;
    }

    method HasIP(ip: Addr) returns (has: bool)
      requires Valid()
      ensures has <==> exists t :: t in byToken && IpOf(byToken[t]) == Unmap(ip)
    {
      has := Unmap(ip) in byIP && byIP[Unmap(ip)] > 0;
      ghost var here := FromIP(byToken, Unmap(ip));
      assert has <==> |here| > 0;
      if has {
        ghost var t :| t in here;
        assert t in byToken && IpOf(byToken[t]) == Unmap(ip);
      } else {
        assert here == {};
        assert forall t :: t in byToken && IpOf(byToken[t]) == Unmap(ip) ==> t in here;
      }
    }

    /** SourceBinding: the source's first live binding of the named user, or else
        its first live one. */
    method SourceBinding(transport: string, src: AddrPort, user: string, now: int)
      returns (found: Option<Binding>, ghost at: nat)
      requires Valid()
      ensures found.None? <==> forall t :: t in byToken ==> !Serves(fo, byToken[t], transport, src, now)
      ensures found.Some? ==>
        && found.value.token in byToken && byToken[found.value.token] == found.value
        && Serves(fo, found.value, transport, src, now)
      ensures found.Some? && user != "" && !fo.equal(found.value.user, user) ==>
        forall t :: t in byToken && Serves(fo, byToken[t], transport, src, now) ==> !fo.equal(byToken[t].user, user)
      ensures found.Some? ==> FirstAt(fo, byToken, Index.Group(bySource, src), at, found.value, transport, src, user, now)
    {
      hide Agree, Bounded, Passed, Serves, Expired;
      var list := Index.Group(bySource, src);
      GroupOfSource(X(), src);
      NonePassed(fo, byToken, transport, src, now);
      found, at := None, 0;
      for i := 0 to |list|
        invariant found.None? ==> Passed(fo, byToken, list[..i], transport, src, "", now)
        invariant found.Some? ==>
          && found.value.token in byToken && byToken[found.value.token] == found.value
          && Serves(fo, found.value, transport, src, now)
        invariant found.Some? ==>
          at < i && list[at] == found.value.token && Passed(fo, byToken, list[..at], transport, src, "", now)
        invariant user != "" ==> Passed(fo, byToken, list[..i], transport, src, user, now)
      {
        assert list[i] in list && list[..i + 1] == list[..i] + [list[i]];
        var b := byToken[list[i]];
        PassedNext(fo, byToken, list[..i], b, transport, src, "", now);
        PassedNext(fo, byToken, list[..i], b, transport, src, user, now);
        if !fo.equal(b.transport, transport) || Expired(b, now) {
          continue;
        }
        if user != "" && fo.equal(b.user, user) {
          SomeServes(fo, byToken, b, transport, src, now);
          return Some(b), i;
        }
        if found.None? {
          found, at := Some(b), i;
        }
      }
      assert list[..|list|] == list;
      PassedAll(fo, byToken, list, transport, src, user, now);
      if found.Some? {
        SomeServes(fo, byToken, found.value, transport, src, now);
      }
    }

    /** flushRemoved: hands the tokens collected to the hook. */
    method FlushRemoved()
      modifies this`removed, this`handed
      ensures removed == []
      ensures handed == if hook then old(handed) + old(removed) else old(handed)
    {
      if hook {
        handed := handed + removed;
      }
      removed := [];
    }

    /** Put: installs or refreshes a binding. A refresh keeps the token stored,
        whatever token b brings; a new binding gets the token it brings or, when
        it brings none, the fresh one, which names no other binding. Just the
        AoR's lapsed bindings are handed over. */
    method Put(b: Binding, fresh_: Token, now: int) returns (result: PutResult, ghost gone: seq<Token>)
      requires Valid()
      requires var left := Pruned(byToken, b.aor, now);
        NoFlow(left, b.aor, b.callID) ==> NewToken(b, fresh_) !in left
      modifies this
      ensures Valid()
      ensures Placed(Pruned(old(byToken), b.aor, now), b, NewToken(b, fresh_), maxPerAOR, maxTotal, byToken, result)
      ensures Handed(gone) && Index.Elems(gone) == Lapsing(old(byToken), b.aor, now)
    {
      hide Agree, Bounded;
      LapsingGone(byToken, b.aor, now);
      var n;
      n, gone := PruneAOR(b.aor, now);
      FewerBindings(old(byToken), byToken);
      result := PutPruned(b, NewToken(b, fresh_));
      FlushRemoved();
    }

    /** The rest of Put, once the AoR's lapsed bindings are gone. */
    method PutPruned(b: Binding, tok: Token) returns (result: PutResult)
      requires Agree(X()) && Bounded(byToken, maxPerAOR, maxTotal)
      requires NoFlow(byToken, b.aor, b.callID) ==> tok !in byToken
      modifies this`byToken, this`byAOR, this`bySource, this`byIP
      ensures Agree(X()) && Bounded(byToken, maxPerAOR, maxTotal)
      ensures Placed(old(byToken), b, tok, maxPerAOR, maxTotal, byToken, result)
    {
      hide Agree, Bounded;
      GroupOfAor(X(), b.aor);
      var e := FindFlow(b.aor, b.callID);
      if e.Some? {
        var b' := b.(token := e.value);
        RefreshAgrees(X(), b');
        RefreshKeeps(byToken, b', maxPerAOR, maxTotal);
        Refresh(b');
        return Stored(e.value);
      }
      if |Index.Group(byAOR, b.aor)| >= maxPerAOR {
        return FullPerAOR;
      }
      if |byToken| >= maxTotal {
        return FullTotal;
      }
      var nb := b.(token := tok);
      InsertAgrees(X(), nb);
      InsertKeeps(byToken, nb, maxPerAOR, maxTotal);
      Insert(nb);
      return Stored(tok);
    }

    method FindFlow(aor: string, callID: string) returns (found: Option<Token>)
      requires Agree(X())
      ensures match found
        case Some(t) => IsFlow(byToken, t, aor, callID)
        case None => NoFlow(byToken, aor, callID)
    {
      hide Agree, Bounded;
      var existing := Index.Group(byAOR, aor);
      GroupOfAor(X(), aor);
      for i := 0 to |existing|
        invariant forall j :: 0 <= j < i ==> byToken[existing[j]].callID != callID
      {
        assert existing[i] in existing;
        if byToken[existing[i]].callID == callID {
          return Some(existing[i]);
        }
      }
      return None;
    }

    /** A refresh in place; it may come from a new source. */
    method Refresh(b: Binding)
      requires b.token in byToken
      modifies this`byToken, this`bySource, this`byIP
      ensures X() == RefreshIn(old(X()), b)
    {
      UnindexSource(b.token, byToken[b.token]);
      byToken := byToken[b.token := b];
      IndexSource(b.token, b);
    }

    method Insert(b: Binding)
      modifies this`byToken, this`byAOR, this`bySource, this`byIP
      ensures X() == InsertIn(old(X()), b)
    {
      byToken := byToken[b.token := b];
      byAOR := byAOR[b.aor := Index.Group(byAOR, b.aor) + [b.token]];
      IndexSource(b.token, b);
    }
  }

  // ---- What the methods do to the set of bindings ------------------------------------

  /** One binding per flow, and both caps. */
  ghost predicate Bounded(bs: map<Token, Binding>, maxPerAOR: nat, maxTotal: nat) {
    OnePerFlow(bs) && |bs| <= maxTotal && forall aor :: |BindingsOf(bs, aor)| <= maxPerAOR
  }

  predicate IsFrom(fo: Folding, b: Binding, transport: string, src: AddrPort) {
    b.source == src && (transport == "" || fo.equal(b.transport, transport))
  }

  /** b is live and was registered over transport from src. */
  predicate Serves(fo: Folding, b: Binding, transport: string, src: AddrPort, now: int) {
    b.source == src && fo.equal(b.transport, transport) && !Expired(b, now)
  }

  /** No live binding of the transport is in the list, or with a user none of
      that user's. */
  ghost predicate Passed(fo: Folding, bs: map<Token, Binding>, list: seq<Token>, transport: string, src: AddrPort,
    user: string, now: int)
  {
    forall t <- list ::
      t in bs && (Serves(fo, bs[t], transport, src, now) ==> user != "" && !fo.equal(bs[t].user, user))
  }

  /** Entry k of the source's list is b. A live binding of the transport comes
      before it only when b is the named user's and that one is not. */
  ghost predicate FirstAt(fo: Folding, bs: map<Token, Binding>, list: seq<Token>, k: nat, b: Binding, transport: string,
    src: AddrPort, user: string, now: int)
  {
    && k < |list| && list[k] == b.token
    && Passed(fo, bs, list[..k], transport, src, if fo.equal(b.user, user) then user else "", now)
  }

  lemma NonePassed(fo: Folding, bs: map<Token, Binding>, transport: string, src: AddrPort, now: int)
    ensures forall user :: Passed(fo, bs, [], transport, src, user, now)
  {
  }

  lemma PassedNext(fo: Folding, bs: map<Token, Binding>, list: seq<Token>, b: Binding, transport: string, src: AddrPort,
    user: string, now: int)
    requires b.token in bs && bs[b.token] == b && b.source == src
    ensures Passed(fo, bs, list, transport, src, user, now) && !Serves(fo, b, transport, src, now) ==>
      Passed(fo, bs, list + [b.token], transport, src, user, now)
    ensures Passed(fo, bs, list, transport, src, user, now) && user != "" && !fo.equal(b.user, user) ==>
      Passed(fo, bs, list + [b.token], transport, src, user, now)
    ensures Serves(fo, b, transport, src, now) <==> fo.equal(b.transport, transport) && !Expired(b, now)
  {
  }

  lemma SomeServes(fo: Folding, bs: map<Token, Binding>, b: Binding, transport: string, src: AddrPort, now: int)
    requires b.token in bs && bs[b.token] == b && Serves(fo, b, transport, src, now)
    ensures exists t <- bs :: Serves(fo, bs[t], transport, src, now)
  {
  }

  lemma PassedAll(fo: Folding, bs: map<Token, Binding>, list: seq<Token>, transport: string, src: AddrPort,
    user: string, now: int)
    requires forall t :: t in list <==> t in bs && bs[t].source == src
    ensures Passed(fo, bs, list, transport, src, "", now) ==> forall t <- bs :: !Serves(fo, bs[t], transport, src, now)
    ensures Passed(fo, bs, list, transport, src, user, now) ==>
      forall t <- bs :: Serves(fo, bs[t], transport, src, now) ==> !fo.equal(bs[t].user, user)
  {
  }

  function NotFrom(fo: Folding, bs: map<Token, Binding>, transport: string, src: AddrPort): map<Token, Binding> {
    map t | t in bs && !IsFrom(fo, bs[t], transport, src) :: bs[t]
  }

  /** What a source's end leaves: the bindings of other sources and, when a transport
      is named, those over others. */
  lemma LeftBySource(fo: Folding, bs: map<Token, Binding>, transport: string, src: AddrPort, t: Token)
    requires t in bs
    ensures t in NotFrom(fo, bs, transport, src) <==>
      bs[t].source != src || (transport != "" && !fo.equal(bs[t].transport, transport))
    ensures t in NotFrom(fo, bs, transport, src) ==> NotFrom(fo, bs, transport, src)[t] == bs[t]
  {
  }

  function Alive(bs: map<Token, Binding>, now: int): map<Token, Binding> {
    map t | t in bs && !Expired(bs[t], now) :: bs[t]
  }

  /** The sweep has not reached the AoRs in rest yet. */
  function AliveExcept(bs: map<Token, Binding>, rest: set<string>, now: int): map<Token, Binding> {
    map t | t in bs && !(Expired(bs[t], now) && bs[t].aor !in rest) :: bs[t]
  }

  lemma AliveStart(bs: map<Token, Binding>, all: set<string>, now: int)
    requires forall t <- bs :: bs[t].aor in all
    ensures AliveExcept(bs, all, now) == bs
  {
  }

  lemma AliveStep(bs: map<Token, Binding>, rest: set<string>, aor: string, now: int)
    requires aor !in rest
    ensures var before, after := AliveExcept(bs, rest + {aor}, now), AliveExcept(bs, rest, now);
      Pruned(before, aor, now) == after && after.Keys <= before.Keys <= bs.Keys
  {
  }

  lemma AliveEnd(bs: map<Token, Binding>, now: int)
    ensures AliveExcept(bs, {}, now) == Alive(bs, now)
    ensures Within(Alive(bs, now), bs)
  {
  }

  lemma NoneGone(keys: set<Token>)
    ensures Index.Distinct<Token>([]) && Index.Elems<Token>([]) == keys - keys
  {
  }

  lemma EveryAorIndexed(x: Tables)
    requires Agree(x)
    ensures forall t <- x.byToken :: x.byToken[t].aor in x.byAOR.Keys
  {
    forall t <- x.byToken ensures x.byToken[t].aor in x.byAOR.Keys {
      assert AorOf(x.byToken[t]) in x.byAOR;
    }
  }

  predicate IsFlow(bs: map<Token, Binding>, t: Token, aor: string, callID: string) {
    t in bs && bs[t].aor == aor && bs[t].callID == callID
  }

  predicate NoFlow(bs: map<Token, Binding>, aor: string, callID: string) {
    forall t <- bs :: !IsFlow(bs, t, aor, callID)
  }

  function NewToken(b: Binding, fresh_: Token): Token {
    if b.token == "" then fresh_ else b.token
  }

  function Pruned(bs: map<Token, Binding>, aor: string, now: int): map<Token, Binding> {
    map t | t in bs && !(bs[t].aor == aor && Expired(bs[t], now)) :: bs[t]
  }

  /** The binding of the same flow is replaced under its own token, or b is
      added under tok, or a cap refuses it. */
  ghost predicate Placed(bs: map<Token, Binding>, b: Binding, tok: Token, maxPerAOR: nat, maxTotal: nat,
    after: map<Token, Binding>, result: PutResult)
  {
    match result
    case Stored(t) =>
      && after == bs[t := b.(token := t)]
      && if NoFlow(bs, b.aor, b.callID) then t == tok && |BindingsOf(bs, b.aor)| < maxPerAOR && |bs| < maxTotal
         else IsFlow(bs, t, b.aor, b.callID)
    case FullPerAOR => after == bs && NoFlow(bs, b.aor, b.callID) && |BindingsOf(bs, b.aor)| >= maxPerAOR
    case FullTotal =>
      after == bs && NoFlow(bs, b.aor, b.callID) && |BindingsOf(bs, b.aor)| < maxPerAOR && |bs| >= maxTotal
  }

  /** The bindings of the AoR that a Put at now takes out. */
  function Lapsing(bs: map<Token, Binding>, aor: string, now: int): set<Token> {
    set t | t in bs && bs[t].aor == aor && Expired(bs[t], now)
  }

  lemma LapsingGone(bs: map<Token, Binding>, aor: string, now: int)
    ensures bs.Keys - Pruned(bs, aor, now).Keys == Lapsing(bs, aor, now)
  {
  }

  // ---- A token handed over while it is stored -----------------------------------------

  /** b is a new binding there is room for. */
  ghost predicate Admits(bs: map<Token, Binding>, b: Binding, maxPerAOR: nat, maxTotal: nat) {
    NoFlow(bs, b.aor, b.callID) && |BindingsOf(bs, b.aor)| < maxPerAOR && |bs| < maxTotal
  }

  /** A REGISTER reads the token of its flow while the binding is live; by the
      time the registrar has answered and Put runs, the binding may have lapsed,
      and Put takes it out and stores it again under the same token. Of the tokens
      that departed, in this Put or before it, one is in the table afterwards
      exactly when Put admits a new binding under such a token. */
  lemma DepartedTokenStoredIff(bs: map<Token, Binding>, departed: set<Token>, b: Binding, tok: Token, now: int,
    maxPerAOR: nat, maxTotal: nat, after: map<Token, Binding>, result: PutResult)
    requires departed !! bs.Keys
    requires Placed(Pruned(bs, b.aor, now), b, tok, maxPerAOR, maxTotal, after, result)
    ensures (exists t <- departed + Lapsing(bs, b.aor, now) :: t in after) <==>
      Admits(Pruned(bs, b.aor, now), b, maxPerAOR, maxTotal) && tok in departed + Lapsing(bs, b.aor, now)
  {
    var left, gone := Pruned(bs, b.aor, now), departed + Lapsing(bs, b.aor, now);
    assert gone !! left.Keys;
    if Admits(left, b, maxPerAOR, maxTotal) {
      assert after == left[tok := b.(token := tok)];
    } else {
      assert after.Keys == left.Keys;
    }
  }

  /** Within one Put on a bounded table the caps never stand in the way: a token
      the Put hands over is stored exactly when the token it brings is that of a
      lapsed binding of the AoR and the flow has no live one. */
  lemma HandedTokenStoredIff(bs: map<Token, Binding>, b: Binding, tok: Token, now: int, maxPerAOR: nat, maxTotal: nat,
    after: map<Token, Binding>, result: PutResult)
    requires Bounded(bs, maxPerAOR, maxTotal)
    requires Placed(Pruned(bs, b.aor, now), b, tok, maxPerAOR, maxTotal, after, result)
    ensures (exists t <- Lapsing(bs, b.aor, now) :: t in after) <==>
      tok in Lapsing(bs, b.aor, now) && NoFlow(Pruned(bs, b.aor, now), b.aor, b.callID)
  {
    DepartedTokenStoredIff(bs, {}, b, tok, now, maxPerAOR, maxTotal, after, result);
    assert {} + Lapsing(bs, b.aor, now) == Lapsing(bs, b.aor, now);
    if tok in Lapsing(bs, b.aor, now) {
      RoomMade(bs, b.aor, tok, now);
    }
  }

  lemma RoomMade(bs: map<Token, Binding>, aor: string, t: Token, now: int)
    requires t in Lapsing(bs, aor, now)
    ensures var left := Pruned(bs, aor, now);
      |left| < |bs| && |BindingsOf(left, aor)| < |BindingsOf(bs, aor)|
  {
    var left := Pruned(bs, aor, now);
    SubsetSize(left.Keys, bs.Keys - {t});
    SubsetSize(BindingsOf(left, aor), BindingsOf(bs, aor) - {t});
  }

  /** The flow's own token, read while it was live, is such an input. */
  lemma LapsedRefreshHandsOverItsToken(bs: map<Token, Binding>, b: Binding, now: int, maxPerAOR: nat, maxTotal: nat,
    after: map<Token, Binding>, result: PutResult)
    requires Bounded(bs, maxPerAOR, maxTotal) && IsFlow(bs, b.token, b.aor, b.callID) && Expired(bs[b.token], now)
    requires Placed(Pruned(bs, b.aor, now), b, b.token, maxPerAOR, maxTotal, after, result)
    ensures b.token in after && b.token in Lapsing(bs, b.aor, now)
  {
    var left := Pruned(bs, b.aor, now);
    forall t <- left ensures !IsFlow(left, t, b.aor, b.callID) {
      assert t != b.token;
    }
    RoomMade(bs, b.aor, b.token, now);
  }

  lemma EarlierDiffer(list: seq<Token>, i: nat)
    requires Index.Distinct(list) && i < |list|
    ensures list[i] !in list[..i] && list[i] !in list[i + 1..]
  {
  }

  lemma AtIndex(x: Tables, aor: string, i: nat)
    requires Agree(x) && i < |Index.Group(x.byAOR, aor)|
    ensures var list := Index.Group(x.byAOR, aor);
      && aor in x.byAOR && list[i] in x.byToken && x.byToken[list[i]].aor == aor && Index.Distinct(list)
      && Agree(DeleteIn(x, list[i]))
      && Index.Group(DeleteIn(x, list[i]).byAOR, aor) == list[..i] + list[i + 1..]
  {
    var list := Index.Group(x.byAOR, aor);
    assert list[i] in list;
    DeleteAgrees(x, list[i]);
    Index.WithoutAt(list, i);
  }

  function LapsedIn(bs: map<Token, Binding>, list: seq<Token>, now: int): set<Token> {
    set t | t in list && t in bs && Expired(bs[t], now)
  }

  /** The sweep of an AoR's list has come down to entry i: the lapsed ones from
      there on are gone, those before it stand. */
  ghost predicate Sweeps(bs: map<Token, Binding>, left: map<Token, Binding>, list: seq<Token>, all: seq<Token>,
    gone: seq<Token>, i: nat, now: int)
  {
    && Index.Distinct(all) && (forall t <- all :: t in bs)
    && i <= |all| && i <= |list| && list[..i] == all[..i]
    && Index.Distinct(gone) && Index.Elems(gone) == LapsedIn(bs, all[i..], now)
    && left == bs - LapsedIn(bs, all[i..], now)
  }

  lemma SweepStart(bs: map<Token, Binding>, all: seq<Token>, now: int)
    requires Index.Distinct(all) && forall t <- all :: t in bs
    ensures Sweeps(bs, bs, all, all, [], |all|, now)
  {
    assert all[|all|..] == [] && bs - {} == bs;
  }

  lemma SweepStep(bs: map<Token, Binding>, left: map<Token, Binding>, list: seq<Token>, all: seq<Token>,
    gone: seq<Token>, i: nat, now: int)
    requires Sweeps(bs, left, list, all, gone, i + 1, now)
    ensures i < |all| && i < |list| && list[i] == all[i] && all[i] in left && left[all[i]] == bs[all[i]]
    ensures !Expired(left[all[i]], now) ==> Sweeps(bs, left, list, all, gone, i, now)
    ensures Expired(left[all[i]], now) ==>
      Sweeps(bs, left - {all[i]}, list[..i] + list[i + 1..], all, gone + [all[i]], i, now)
  {
    assert list[i] == list[..i + 1][i] == all[i];
    assert all[i] in all;
    EarlierDiffer(all, i);
    LapsedStep(bs, all, i, now);
    assert list[..i] == list[..i + 1][..i] == all[..i];
    var after := list[..i] + list[i + 1..];
    assert after[..i] == list[..i];
    Index.ElemsSnoc(gone, all[i]);
  }

  lemma SweepEnd(bs: map<Token, Binding>, left: map<Token, Binding>, list: seq<Token>, all: seq<Token>,
    gone: seq<Token>, aor: string, now: int)
    requires Sweeps(bs, left, list, all, gone, 0, now) && forall t :: t in all <==> t in bs && bs[t].aor == aor
    ensures left == Pruned(bs, aor, now) && Index.Distinct(gone) && Index.Elems(gone) == bs.Keys - left.Keys
  {
    assert all[0..] == all;
  }

  lemma LapsedStep(bs: map<Token, Binding>, all: seq<Token>, i: nat, now: int)
    requires i < |all| && all[i] !in all[i + 1..]
    ensures all[i] !in LapsedIn(bs, all[i + 1..], now)
    ensures LapsedIn(bs, all[i..], now) ==
      LapsedIn(bs, all[i + 1..], now) + (if all[i] in bs && Expired(bs[all[i]], now) then {all[i]} else {})
  {
    assert all[i..] == [all[i]] + all[i + 1..];
  }

  ghost predicate Within(fewer: map<Token, Binding>, bs: map<Token, Binding>) {
    forall t <- fewer :: t in bs && fewer[t] == bs[t]
  }

  /** A part of a bounded table is bounded. */
  lemma FewerBindings(bs: map<Token, Binding>, fewer: map<Token, Binding>)
    requires Within(fewer, bs)
    ensures forall maxPerAOR, maxTotal :: Bounded(bs, maxPerAOR, maxTotal) ==> Bounded(fewer, maxPerAOR, maxTotal)
  {
    SubsetSize(fewer.Keys, bs.Keys);
    forall aor ensures |BindingsOf(fewer, aor)| <= |BindingsOf(bs, aor)| {
      SubsetSize(BindingsOf(fewer, aor), BindingsOf(bs, aor));
    }
  }

  lemma SubsetSize(a: set<Token>, b: set<Token>)
    requires a <= b
    ensures |a| <= |b|
  {
    assert b == a + (b - a);
  }

  lemma RefreshKeeps(bs: map<Token, Binding>, b: Binding, maxPerAOR: nat, maxTotal: nat)
    requires Bounded(bs, maxPerAOR, maxTotal) && IsFlow(bs, b.token, b.aor, b.callID)
    ensures Bounded(bs[b.token := b], maxPerAOR, maxTotal)
  {
    var t := b.token;
    var after := bs[t := b];
    assert after.Keys == bs.Keys;
    assert forall u <- bs :: u != t ==> bs[u].aor != bs[t].aor || bs[u].callID != bs[t].callID;
    assert OnePerFlow(after);
    forall aor ensures |BindingsOf(after, aor)| <= maxPerAOR {
      assert BindingsOf(after, aor) == BindingsOf(bs, aor);
    }
  }

  lemma InsertKeeps(bs: map<Token, Binding>, b: Binding, maxPerAOR: nat, maxTotal: nat)
    requires Bounded(bs, maxPerAOR, maxTotal) && b.token !in bs && NoFlow(bs, b.aor, b.callID)
    requires |BindingsOf(bs, b.aor)| < maxPerAOR && |bs| < maxTotal
    ensures Bounded(bs[b.token := b], maxPerAOR, maxTotal)
  {
    hide OnePerFlow, NoFlow;
    var after := bs[b.token := b];
    InsertOnePerFlow(bs, b);
    forall aor ensures |BindingsOf(after, aor)| <= maxPerAOR {
      BindingsOfInsert(bs, b, aor);
    }
  }

  lemma BindingsOfInsert(bs: map<Token, Binding>, b: Binding, aor: string)
    requires b.token !in bs
    ensures |BindingsOf(bs[b.token := b], aor)| == |BindingsOf(bs, aor)| + if aor == b.aor then 1 else 0
  {
    var after := bs[b.token := b];
    assert BindingsOf(after, aor) == BindingsOf(bs, aor) + if aor == b.aor then {b.token} else {};
  }

  lemma InsertOnePerFlow(bs: map<Token, Binding>, b: Binding)
    requires OnePerFlow(bs) && b.token !in bs && NoFlow(bs, b.aor, b.callID)
    ensures OnePerFlow(bs[b.token := b])
  {
    forall t <- bs ensures bs[t].aor != b.aor || bs[t].callID != b.callID {
      assert !IsFlow(bs, t, b.aor, b.callID);
    }
  }

  lemma VictimsStart(bs: map<Token, Binding>, victims: seq<Token>)
    ensures victims[..0] == [] && bs - Index.Elems(victims[..0]) == bs
  {
  }

  lemma VictimNext(bs: map<Token, Binding>, victims: seq<Token>, k: nat)
    requires Index.Distinct(victims) && k < |victims| && forall t <- victims :: t in bs
    ensures victims[k] in bs - Index.Elems(victims[..k]) && victims[..k + 1] == victims[..k] + [victims[k]]
    ensures bs - Index.Elems(victims[..k]) - {victims[k]} == bs - Index.Elems(victims[..k + 1])
  {
    assert victims[k] in victims && victims[..k + 1] == victims[..k] + [victims[k]];
    Index.ElemsSnoc(victims[..k], victims[k]);
  }

  lemma VictimsGone(fo: Folding, bs: map<Token, Binding>, victims: seq<Token>, transport: string, src: AddrPort)
    requires forall t :: t in victims <==> t in bs && IsFrom(fo, bs[t], transport, src)
    ensures bs - Index.Elems(victims) == NotFrom(fo, bs, transport, src)
    ensures Index.Elems(victims) == bs.Keys - NotFrom(fo, bs, transport, src).Keys
    ensures Within(NotFrom(fo, bs, transport, src), bs)
  {
  }

  /** Two lists of what left, one after the other. */
  lemma Joined(gone: seq<Token>, lost: seq<Token>, before: set<Token>, between: set<Token>, after: set<Token>)
    requires Index.Distinct(gone) && Index.Elems(gone) == before - between && between <= before
    requires Index.Distinct(lost) && Index.Elems(lost) == between - after && after <= between
    ensures Index.Distinct(gone + lost) && Index.Elems(gone + lost) == before - after
  {
    forall t ensures t in gone + lost <==> t in before - after {
      assert t in gone <==> t in before - between;
      assert t in lost <==> t in between - after;
    }
    var all := gone + lost;
    forall i, j | 0 <= i < j < |all| ensures all[i] != all[j] {
      if i < |gone| <= j {
        assert all[i] in gone && all[j] in lost;
        assert all[i] in before - between && all[j] in between - after;
      }
    }
  }
}
