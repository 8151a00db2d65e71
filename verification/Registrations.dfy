/**
 A registration from its REGISTER on (internal/edge/location.go, register.go): what
 the lookups find of it until it lapses, and what a refresh does to it.
 */
module Registrations {
  import opened Locations
  import opened Options

  /** A binding is put and looked for later. Stored, it is found by its token, under
      its AoR and by its source exactly as long as it has not expired, and its address
      is known until it is swept. */
  method PutThenFind(loc: Location, b: Binding, fresh_: Token, now: int, later: int)
    returns (result: PutResult, found: Option<Binding>, live: seq<Binding>, served: bool, here: bool)
    requires loc.Valid()
    requires var left := Pruned(loc.byToken, b.aor, now);
      NoFlow(left, b.aor, b.callID) ==> NewToken(b, fresh_) !in left
    modifies loc
    ensures loc.Valid()
    ensures match result
      case Stored(t) =>
        var nb := b.(token := t);
        && (NoFlow(Pruned(old(loc.byToken), b.aor, now), b.aor, b.callID) ==> t == if b.token == "" then fresh_ else b.token)
        && found == (if later < b.expiresAt then Some(nb) else None)
        && (loc.fo.lower(b.aor) == b.aor ==> (nb in live <==> later < b.expiresAt))
        && (later < b.expiresAt && loc.fo.equal(b.transport, b.transport) ==> served)
        && (later >= b.expiresAt && (forall u <- loc.byToken :: u != t ==> loc.byToken[u].source != b.source) ==> !served)
        && here
      case _ => found.None? && live == []
  {
    hide Agree, Bounded, NoFlow, Pruned;
    ghost var gone;
    result, gone := loc.Put(b, fresh_, now);
    found, live, served, here := None, [], false, false;
    match result
    case Stored(t) =>
      StoredIs(Pruned(old(loc.byToken), b.aor, now), b, NewToken(b, fresh_), loc.maxPerAOR, loc.maxTotal, loc.byToken, t);
      found := loc.ByToken(t, later);
      live := loc.ByAOR(b.aor, later);
      served := loc.HasSource(b.transport, b.source, later);
      here := loc.HasIP(b.source.addr);
    case _ =>
  }

  lemma StoredIs(bs: map<Token, Binding>, b: Binding, tok: Token, maxPerAOR: nat, maxTotal: nat,
    after: map<Token, Binding>, t: Token)
    requires Placed(bs, b, tok, maxPerAOR, maxTotal, after, Stored(t))
    ensures t in after && after[t] == b.(token := t)
  {
  }

  /** The same flow registers again: before its binding expires the binding keeps its
      token and takes everything else from the new REGISTER; after that it is a new
      binding under the token the REGISTER brings. */
  lemma RefreshKeepsToken(bs: map<Token, Binding>, b: Binding, tok: Token, mid: map<Token, Binding>, t: Token,
    again: Binding, tok2: Token, later: int, after: map<Token, Binding>, result: PutResult, maxPerAOR: nat, maxTotal: nat)
    requires OnePerFlow(bs) && Placed(bs, b, tok, maxPerAOR, maxTotal, mid, Stored(t))
    requires NoFlow(bs, b.aor, b.callID) ==> tok !in bs
    requires again.aor == b.aor && again.callID == b.callID
    requires Placed(Pruned(mid, b.aor, later), again, tok2, maxPerAOR, maxTotal, after, result)
    ensures later < b.expiresAt ==> result == Stored(t) && after == Pruned(mid, b.aor, later)[t := again.(token := t)]
    ensures later >= b.expiresAt && result.Stored? ==> result == Stored(tok2)
  {
    var left := Pruned(mid, b.aor, later);
    if later < b.expiresAt {
      assert IsFlow(left, t, b.aor, b.callID);
      OnlyFlow(bs, b, tok, maxPerAOR, maxTotal, mid, t);
    } else {
      OnlyFlow(bs, b, tok, maxPerAOR, maxTotal, mid, t);
      assert forall u <- left :: !IsFlow(left, u, b.aor, b.callID);
    }
  }

  /** The stored binding is the only one of its flow. */
  lemma OnlyFlow(bs: map<Token, Binding>, b: Binding, tok: Token, maxPerAOR: nat, maxTotal: nat,
    mid: map<Token, Binding>, t: Token)
    requires OnePerFlow(bs) && Placed(bs, b, tok, maxPerAOR, maxTotal, mid, Stored(t))
    ensures forall u <- mid :: IsFlow(mid, u, b.aor, b.callID) ==> u == t
  {
    forall u <- mid | IsFlow(mid, u, b.aor, b.callID) ensures u == t {
      if u != t {
        assert IsFlow(bs, u, b.aor, b.callID);
      }
    }
  }
}
