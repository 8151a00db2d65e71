/**
 Calls message by message (internal/edge/forward.go, hide.go): what the switch and a
 public party see of a call through FreeSBC, either of them calling.
 */
module Calls {
  import opened Extensions
  import opened Headers
  import opened Identities
  import opened Net
  import opened Options
  import opened RouteSets
  import opened Sequences

  /** The client header allowlist, the methods the proxy carries, and the
      rewriting of an identity header. */
  datatype Policies = Policies(allow: string -> bool, carried: string -> bool, rewrite: Rewrite)

  /** The INVITE of the switch as it leaves FreeSBC for a public party. */
  method SendOut(t: Topology, invite: Message, to: Side, source: Source, branch: string, client: bool, p: Policies)
    returns (ok: bool, sent: Message)
    requires to in t.public
    ensures fresh(sent)
    ensures ok == (Hops(invite.Named(KMaxForwards)) != Some(0))
    ensures ok ==>
      && sent.Named(KVia) == [ViaOf(t, to, branch)] && sent.Named(KRecordRoute) == [RecordRouteOf(t, to)]
      && sent.Named(KRoute) == [] && sent.Named(KFrom) == MaskFirst(t, invite.Named(KFrom), to.advIP)
      && sent.Named(KTo) == MaskFirst(t, invite.Named(KTo), to.advIP)
      && sent.Named(KMaxForwards) == OneHopLess(invite.Named(KMaxForwards))
      && sent.Named(KContact) == (if invite.Named(KContact) == [] then [] else [Contact(SideUri(t, to))])
      && sent.Generic() == HiddenGeneric(PreparedGeneric(invite.Generic(), p.carried), p.rewrite, client, p.allow)
  {
    hide Of, MaskFirst, OneHopLess, Hops, DropOwn, Keep, PreparedGeneric, HiddenGeneric, AnnotateFirst;
    sent := new Message(invite.headers);
    ok := PrepareForward(t, sent, t.private, to, source, true, branch, p.carried);
    if ok {
      HideToPublic(t, sent, to, true, false, client, p.allow, p.rewrite);
    }
  }

  /** The far end's answer: it echoes what it was sent. */
  method Answer(sent: Message, rrs: seq<Header>, tos: seq<Header>) returns (res: Message)
    requires (forall h <- rrs :: KindOf(h) == KRecordRoute) && forall h <- tos :: KindOf(h) == KTo
    ensures fresh(res)
    ensures res.Named(KVia) == sent.Named(KVia) && res.Named(KFrom) == sent.Named(KFrom)
    ensures res.Named(KRecordRoute) == rrs && res.Named(KTo) == tos
  {
    hide Of, Keep;
    res := new Message([]);
    NothingOf();
    var vias := sent.All(KVia);
    res.PrependAll(vias, KVia);
    var froms := sent.All(KFrom);
    res.PrependAll(froms, KFrom);
    res.PrependAll(rrs, KRecordRoute);
    res.PrependAll(tos, KTo);
    assert vias + [] == vias && froms + [] == froms && rrs + [] == rrs && tos + [] == tos;
  }

  lemma NothingOf()
    ensures forall k :: Of([], k) == []
  {
  }

  /** The answer as the switch gets it. */
  method BringBack(t: Topology, invite: Message, res: Message, p: Policies) returns (ok: bool)
    requires res != invite
    modifies res
    ensures ok <==> old(res.Named(KVia)) != [] && old(res.Named(KVia)[0]).Via? && IsSelfVia(t, old(res.Named(KVia)[0]))
    ensures ok ==>
      && res.Named(KVia) == invite.Named(KVia)
      && res.Named(KFrom) == Readdressed(old(res.Named(KFrom)), invite.Named(KFrom))
      && res.Named(KTo) == Readdressed(old(res.Named(KTo)), invite.Named(KTo))
      && res.Named(KRecordRoute) == WithPrivate(t, old(res.Named(KRecordRoute)))
      && res.Generic() == PreparedGeneric(old(res.Generic()), p.carried)
  {
    hide Of, Readdressed, WithPrivate, IsSelfVia, Keep, Sanitized;
    ok := PopOwnVia(t, res, true);
    if ok {
      SanitizeExtensions(res, p.carried);
      FilterNames(res, false, p.allow);
      ResponseToSwitch(res, invite);
      AddPrivateRecordRoute(t, res);
    }
  }

  lemma OwnViaPops(t: Topology, to: Side, branch: string)
    requires WellFormed(t) && to in t.public
    ensures IsSelfVia(t, ViaOf(t, to, branch))
  {
  }

  lemma EchoedFromRestored(t: Topology, froms: seq<Header>, pub: Addr)
    requires forall h <- froms :: KindOf(h) == KFrom
    ensures Readdressed(MaskFirst(t, froms, pub), froms) == froms
  {
    if froms != [] {
      assert KindOf(froms[0]) == KFrom;
      var masked := MaskFirst(t, froms, pub);
      assert masked[1..] == froms[1..];
    }
  }

  /** A switch's call to a public party across any hops, and a later request of
      the switch in the dialog. The far end sees one Via, FreeSBC's; the switch
      gets its own Vias and its own From back, a route set that starts at the
      private socket, and along that route set its request leaves with exactly
      the hops to go if and only if the first of them is not FreeSBC again. */
  method SwitchCall(t: Topology, invite: Message, to: Side, hops: seq<Header>, tos: seq<Header>, source: Source,
    branch: string, client: bool, p: Policies)
    returns (ok: bool, answer: Message, later: Message)
    requires WellFormed(t) && to in t.public
    requires Recorded(hops) && forall h <- tos :: KindOf(h) == KTo
    ensures ok == (Hops(invite.Named(KMaxForwards)) != Some(0))
    ensures ok ==>
      && answer.Named(KVia) == invite.Named(KVia) && answer.Named(KFrom) == invite.Named(KFrom)
      && answer.Named(KTo) == Readdressed(tos, invite.Named(KTo))
      && Reverse(answer.Named(KRecordRoute)) == [RecordRouteOf(t, t.private), RecordRouteOf(t, to)] + hops
      && (later.Named(KRoute) == AsRoutes(hops) <==> FirstIsBeyond(t, hops))
  {
    hide Of, MaskFirst, Readdressed, WithPrivate, DropOwn, AsRoutes, Reverse, IsSelfVia, RecordRouteOf, Keep;
    hide HiddenGeneric, PreparedGeneric;
    var sent;
    ok, sent := SendOut(t, invite, to, source, branch, client, p);
    ReverseMembers(hops);
    OwnKind(t);
    answer := Answer(sent, Reverse(hops) + [RecordRouteOf(t, to)], tos);
    later := new Message([]);
    if !ok {
      return;
    }
    OwnViaPops(t, to, branch);
    var back := BringBack(t, invite, answer, p);
    EchoedFromRestored(t, invite.Named(KFrom), to.advIP);
    RouteSetRoundTrip(t, to, hops);
    NothingOf();
    var rrs := answer.All(KRecordRoute);
    var routes := AsRoutes(Reverse(rrs));
    later.PrependAll(routes, KRoute);
    assert routes + [] == routes;
    StripOwnRoutes(t, later);
  }

  // ---- A call of a client -------------------------------------------------------------------

  /** The INVITE of a client as it leaves FreeSBC for the switch: nothing is hidden. */
  method SendIn(t: Topology, invite: Message, from: Side, source: Source, branch: string, p: Policies)
    returns (ok: bool, sent: Message)
    ensures fresh(sent)
    ensures ok == (Hops(invite.Named(KMaxForwards)) != Some(0))
    ensures ok ==>
      && sent.Named(KVia) == [ViaOf(t, t.private, branch)] + AnnotateFirst(invite.Named(KVia), source)
      && sent.Named(KRecordRoute) ==
        [RecordRouteOf(t, t.private), RecordRouteOf(t, from)] + invite.Named(KRecordRoute)
      && sent.Named(KFrom) == invite.Named(KFrom) && sent.Named(KTo) == invite.Named(KTo)
      && sent.Named(KMaxForwards) == OneHopLess(invite.Named(KMaxForwards))
  {
    hide Of, OneHopLess, Hops, DropOwn, Keep, PreparedGeneric, AnnotateFirst, RecordRouteOf, ViaOf;
    sent := new Message(invite.headers);
    ok := PrepareForward(t, sent, from, t.private, source, true, branch, p.carried);
    OwnPair(RecordRouteOf(t, t.private), RecordRouteOf(t, from), invite.Named(KRecordRoute));
  }

  lemma OwnPair(a: Header, b: Header, rest: seq<Header>)
    ensures [a] + ([b] + rest) == [a, b] + rest
  {
  }

  /** hideResponse toward a client, for a response to another request than a
      REGISTER: own Record-Routes but the public one go, the switch's identity and
      Contact, and what is not on the list. */
  method ResponseToClient(t: Topology, res: Message, from: Side, p: Policies)
    modifies res
    ensures res.Named(KRecordRoute) == Staying(t, true, old(res.Named(KRecordRoute)))
    ensures res.Named(KFrom) == MaskFirst(t, old(res.Named(KFrom)), from.advIP)
    ensures res.Named(KTo) == MaskFirst(t, old(res.Named(KTo)), from.advIP)
    ensures res.Named(KContact) == if old(res.Named(KContact)) == [] then [] else [Contact(SideUri(t, from))]
    ensures res.Named(KVia) == old(res.Named(KVia))
    ensures res.Generic() ==
      Keep(MaskedNames(old(res.Generic()), IdentityNames(), p.rewrite), Disallowed(p.allow))
  {
    hide Of, MaskFirst, Keep, MaskedNames, IdentityNames, Staying;
    HideRecordRoutes(t, res, true);
    HideIdentity(t, res, from, p.rewrite);
    OnlyAllowed(res, p.allow);
  }

  /** filterToClient. */
  method OnlyAllowed(m: Message, allow: string -> bool)
    modifies m
    ensures forall k :: Typed(k) ==> m.Named(k) == old(m.Named(k))
    ensures m.Generic() == Keep(old(m.Generic()), Disallowed(allow))
  {
    hide Of, Keep;
    m.RemoveCollected(Disallowed(allow));
  }

  /** What is done to every response that is relayed. */
  method CleanResponse(res: Message, p: Policies)
    modifies res
    ensures forall k :: Typed(k) ==> res.Named(k) == old(res.Named(k))
  {
    hide Of, Keep, Sanitized;
    SanitizeExtensions(res, p.carried);
    StripInternal(res);
  }

  /** The switch's answer as the client gets it; it must still have a Via to go by. */
  method RelayToClient(t: Topology, res: Message, from: Side, p: Policies) returns (ok: bool)
    modifies res
    ensures var vias := old(res.Named(KVia));
      && (ok <==> vias != [] && vias[0].Via? && IsSelfVia(t, vias[0]) && |vias| > 1)
      && (ok ==> res.Named(KVia) == vias[1..])
    ensures ok ==>
      && res.Named(KRecordRoute) == Staying(t, true, old(res.Named(KRecordRoute)))
      && res.Named(KFrom) == MaskFirst(t, old(res.Named(KFrom)), from.advIP)
      && res.Named(KTo) == MaskFirst(t, old(res.Named(KTo)), from.advIP)
  {
    hide Of, Keep, Staying, MaskFirst, IsSelfVia, MaskedNames, Disallowed, SideUri;
    ok := PopOwnVia(t, res, false);
    if ok {
      CleanResponse(res, p);
      ResponseToClient(t, res, from, p);
    }
  }

  lemma PrivateViaPops(t: Topology, branch: string)
    requires WellFormed(t)
    ensures IsSelfVia(t, ViaOf(t, t.private, branch)) && ViaOf(t, t.private, branch).Via?
  {
  }

  /** A client's call to the switch, across proxies of its own that record-routed, and
      later requests both ways. The switch sees FreeSBC's private entry first, which
      faces it, then the public one; the client gets its own Vias back, the top one
      saying where it came from. The switch's later request leaves with exactly the
      client's proxies to go, and the client's leaves FreeSBC with none, as the
      theorems on route sets say. */
  method ClientCall(t: Topology, invite: Message, from: Side, source: Source, branch: string, p: Policies,
    tos: seq<Header>)
    returns (ok: bool, seen: Message, answer: Message, later: Message)
    requires WellFormed(t) && from in t.public && !IsPrivate(t, RecordRouteOf(t, from).uri)
    requires Recorded(invite.Named(KRecordRoute)) && invite.Named(KVia) != [] && forall h <- tos :: KindOf(h) == KTo
    ensures ok == (Hops(invite.Named(KMaxForwards)) != Some(0))
    ensures ok ==>
      && seen.Named(KRecordRoute) ==
        [RecordRouteOf(t, t.private), RecordRouteOf(t, from)] + invite.Named(KRecordRoute)
      && seen.Named(KFrom) == invite.Named(KFrom) && seen.Named(KTo) == invite.Named(KTo)
      && answer.Named(KVia) == AnnotateFirst(invite.Named(KVia), source)
      && (later.Named(KRoute) == AsRoutes(invite.Named(KRecordRoute)) <==> FirstIsBeyond(t, invite.Named(KRecordRoute)))
      && (answer.Named(KRecordRoute) == [RecordRouteOf(t, from)] + invite.Named(KRecordRoute) <==>
        forall h <- invite.Named(KRecordRoute) ::
          !IsPrivate(t, h.uri) && (IsPublic(t, h.uri) || !IsSwitchHost(t, h.uri.host)))
  {
    hide Of, MaskFirst, DropOwn, AsRoutes, IsSelfVia, RecordRouteOf, ViaOf, Keep, Staying, AnnotateFirst, IsPrivate, IsPublic;
    hide OneHopLess, Hops, IsSwitchHost;
    var hops := invite.All(KRecordRoute);
    ok, seen := SendIn(t, invite, from, source, branch, p);
    var rrs := seen.All(KRecordRoute);
    answer := Answer(seen, rrs, tos);
    later := new Message([]);
    if !ok {
      return;
    }
    PrivateViaPops(t, branch);
    AnnotatedSome(invite.Named(KVia), source);
    var back := RelayToClient(t, answer, from, p);
    ClientRouteSet(t, from, hops);
    NothingOf();
    var routes := AsRoutes(rrs);
    later.PrependAll(routes, KRoute);
    assert routes + [] == routes;
    StripOwnRoutes(t, later);
  }

  lemma AnnotatedSome(vias: seq<Header>, source: Source)
    requires forall h <- vias :: KindOf(h) == KVia
    ensures |AnnotateFirst(vias, source)| == |vias|
  {
  }
}
