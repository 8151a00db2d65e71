/**
 Record-Route, Route, Via and identity rewriting (internal/edge/forward.go,
 hide.go, topology.go): what a message gets on its way out, and what has to be
 undone on the way back for the route set of a dialog to work from both ends
 while nothing private shows (sections 12.1.1, 12.1.2 and 16 of RFC 3261;
 RFC 5658).
 */
module RouteSets {
  import opened Extensions
  import opened Headers
  import opened Identities
  import opened Net
  import opened Options
  import opened Sequences
  import opened Text

  /** One of FreeSBC's own signaling addresses. */
  datatype Side = Side(advIP: Addr, advPort: nat, transport: string)

  /** The addresses of the proxy and of the switches. print and parse are the
      textual form of an address and its reader. */
  datatype Topology = Topology(
    private: Side, public: seq<Side>, switches: seq<Addr>, parse: string -> Option<Addr>, print_: Addr -> string)

  /** What configuration ensures: addresses print as text that reads back, the
      sides advertise plain addresses and real ports. */
  ghost predicate WellFormed(t: Topology) {
    && (forall a :: t.parse(t.print_(a)) == Some(a) && TrimBrackets(t.print_(a)) == t.print_(a))
    && Advertised(t.private) && forall s <- t.public :: Advertised(s)
  }

  predicate Advertised(s: Side) {
    Unmap(s.advIP) == s.advIP && s.advPort != 0
  }

  function SideUri(t: Topology, s: Side): Uri {
    Uri("", t.print_(s.advIP), s.advPort, if s.transport == "udp" then "" else s.transport)
  }

  function RecordRouteOf(t: Topology, s: Side): Header {
    RecordRoute(Uri("", t.print_(s.advIP), s.advPort, if s.transport == "udp" then "lr" else s.transport + ";lr"))
  }

  /** The Via FreeSBC adds: it asks for rport on UDP alone (RFC 3581). */
  function ViaOf(t: Topology, s: Side, branch: string): Header {
    Via(Upper(s.transport), t.print_(s.advIP), s.advPort, branch, None, if s.transport == "udp" then Some("") else None)
  }

  /** What FreeSBC writes of itself: a URI at its advertised address, with the
      transport where it is not UDP, the Record-Route one with lr (section 16.6 of RFC
      3261), and a Via that asks for rport on UDP. */
  lemma OwnHeaders(t: Topology, s: Side, branch: string)
    ensures SideUri(t, s) == Uri("", t.print_(s.advIP), s.advPort, if s.transport == "udp" then "" else s.transport)
    ensures RecordRouteOf(t, s) ==
      RecordRoute(SideUri(t, s).(params := if s.transport == "udp" then "lr" else s.transport + ";lr"))
    ensures var v := ViaOf(t, s, branch);
      && v.Via? && v.transport == Upper(s.transport) && v.host == t.print_(s.advIP) && v.port == s.advPort && v.branch == branch
      && v.received.None? && (v.rport == if s.transport == "udp" then Some("") else None)
  {
  }

  predicate Matches(t: Topology, s: Side, host: string, port: nat) {
    t.parse(host).Some? && s.advIP == Unmap(t.parse(host).value) && s.advPort == port
  }

  function PortOf(u: Uri): nat {
    if u.port == 0 then 5060 else u.port
  }

  predicate IsPrivate(t: Topology, u: Uri) {
    Matches(t, t.private, u.host, PortOf(u))
  }

  predicate IsPublic(t: Topology, u: Uri) {
    exists s <- t.public :: Matches(t, s, u.host, PortOf(u))
  }

  predicate IsSelf(t: Topology, u: Uri) {
    IsPrivate(t, u) || IsPublic(t, u)
  }

  function DefaultPort(transport: string): nat {
    var lower := Lower(transport);
    if lower == "tls" then 5061 else if lower == "ws" then 80 else if lower == "wss" then 443 else 5060
  }

  function ViaPort(h: Header): nat
    requires h.Via?
  {
    if h.port == 0 then DefaultPort(h.transport) else h.port
  }

  predicate IsSelfVia(t: Topology, h: Header)
    requires h.Via?
  {
    Matches(t, t.private, h.host, ViaPort(h)) || exists s <- t.public :: Matches(t, s, h.host, ViaPort(h))
  }

  /** host without the brackets around it. */
  function TrimBrackets(host: string): string {
    if host != "" && (host[0] == '[' || host[0] == ']') then TrimBrackets(host[1..])
    else if host != "" && (host[|host| - 1] == '[' || host[|host| - 1] == ']') then TrimBrackets(host[..|host| - 1])
    else host
  }

  predicate IsSwitchHost(t: Topology, host: string) {
    var ip := t.parse(TrimBrackets(host));
    ip.Some? && (t.private.advIP == Unmap(ip.value) || exists a <- t.switches :: Unmap(a) == Unmap(ip.value))
  }

  lemma OwnRecordRoute(t: Topology, s: Side)
    requires WellFormed(t)
    ensures s == t.private ==> IsPrivate(t, RecordRouteOf(t, s).uri)
    ensures s in t.public ==> IsPublic(t, RecordRouteOf(t, s).uri)
    ensures RecordRouteOf(t, s).RecordRoute?
  {
  }

  /** Without a port a URI names FreeSBC at 5060, a Via at its transport's port. */
  lemma OwnWithoutPort(t: Topology, s: Side, user: string, params: string, transport: string, h: Header)
    requires WellFormed(t) && (s == t.private || s in t.public) && h.Via?
    ensures s.advPort == 5060 ==> IsSelf(t, Uri(user, t.print_(s.advIP), 0, params))
    ensures s.advPort == (if EqualFold(transport, "tls") then 5061 else if EqualFold(transport, "ws") then 80
      else if EqualFold(transport, "wss") then 443 else 5060) ==>
      IsSelfVia(t, h.(transport := transport, host := t.print_(s.advIP), port := 0))
  {
    assert Lower("tls") == "tls" && Lower("ws") == "ws" && Lower("wss") == "wss";
  }

  /** A URI at another address or port is not FreeSBC's. */
  lemma NotOwn(t: Topology, user: string, a: Addr, port: nat, params: string)
    requires WellFormed(t) && port != 0
    requires forall s <- [t.private] + t.public :: s.advIP != Unmap(a) || s.advPort != port
    ensures !IsSelf(t, Uri(user, t.print_(a), port, params))
  {
    assert t.private in [t.private] + t.public;
    assert forall s <- t.public :: s in [t.private] + t.public;
  }

  /** The switch's hosts are the private socket's address and the switches', bare,
      in brackets or mapped into IPv6; no other address is. */
  lemma SwitchHosts(t: Topology, a: Addr)
    requires WellFormed(t)
    ensures IsSwitchHost(t, t.print_(a)) <==> Unmap(a) == t.private.advIP || exists b <- t.switches :: Unmap(b) == Unmap(a)
    ensures IsSwitchHost(t, "[" + t.print_(a) + "]") <==> IsSwitchHost(t, t.print_(a))
  {
    Bracketed(t.print_(a));
  }

  lemma Bracketed(host: string)
    requires TrimBrackets(host) == host
    ensures TrimBrackets("[" + host + "]") == host
  {
    var all, open := "[" + host + "]", host + "]";
    assert all[1..] == open;
    if host == "" {
      assert open[1..] == "";
    } else {
      TrimFewer(host[1..]);
      assert open[0] == host[0] && open[..|host|] == host;
    }
  }

  lemma {:induction false} TrimFewer(host: string)
    ensures |TrimBrackets(host)| <= |host|
    decreases |host|
  {
    if host != "" && (host[0] == '[' || host[0] == ']') {
      TrimFewer(host[1..]);
    } else if host != "" && (host[|host| - 1] == '[' || host[|host| - 1] == ']') {
      TrimFewer(host[..|host| - 1]);
    }
  }

  // ---- Requests on the way out --------------------------------------------------------

  predicate OwnRoute(t: Topology, h: Header) {
    h.Route? && IsSelf(t, h.uri)
  }

  /** The Routes after the leading ones that name FreeSBC. */
  function DropOwn(t: Topology, routes: seq<Header>): seq<Header>
    requires forall h <- routes :: KindOf(h) == KRoute
  {
    if routes == [] || !OwnRoute(t, routes[0]) then routes else DropOwn(t, routes[1..])
  }

  method StripOwnRoutes(t: Topology, m: Message)
    modifies m
    ensures m.Named(KRoute) == DropOwn(t, old(m.Named(KRoute))) && m.OthersKept({KRoute})
  {
    var routes := m.All(KRoute);
    while routes != [] && OwnRoute(t, routes[0])
      invariant routes == m.Named(KRoute) && m.OthersKept({KRoute})
      invariant DropOwn(t, routes) == DropOwn(t, old(m.Named(KRoute)))
      decreases |routes|
    {
      var _ := m.RemoveHeader(KRoute);
      routes := m.All(KRoute);
    }
  }

  /** Where a message came from, as text, if it can be told apart. */
  type Source = Option<(string, string)>

  /** annotateVia, on the top Via. */
  function Annotated(via: Header, source: Source): Header
    requires via.Via?
  {
    match source
    case None => via
    case Some((host, port)) =>
      var v := if via.host != host then via.(received := Some(host)) else via;
      if v.rport == Some("") then v.(rport := Some(port)) else v
  }

  function AnnotateFirst(vias: seq<Header>, source: Source): seq<Header>
    requires forall h <- vias :: KindOf(h) == KVia
  {
    if vias == [] then []
    else
      assert KindOf(vias[0]) == KVia;
      [Annotated(vias[0], source)] + vias[1..]
  }

  method AnnotateVia(m: Message, source: Source)
    modifies m
    ensures m.Named(KVia) == AnnotateFirst(old(m.Named(KVia)), source) && m.OthersKept({KVia})
  {
    hide Of, Keep;
    var vias := m.All(KVia);
    if vias != [] {
      assert KindOf(vias[0]) == KVia;
      m.ReplaceHeader(Annotated(vias[0], source));
    }
  }

  /** The host a response along the Via goes to (section 18.2.2 of RFC 3261). */
  function ResponseHost(via: Header): string
    requires via.Via?
  {
    if via.received.Some? then via.received.value else via.host
  }

  /** A response along an annotated Via goes back to the host the request came
      from, unless the Via names that host and carries another as received
      already; to its port too, when the sender asked for that. */
  lemma AnnotatedReturns(via: Header, host: string, port: string)
    requires via.Via?
    ensures var v := Annotated(via, Some((host, port)));
      && (ResponseHost(v) == host <==> via.host != host || via.received.None? || via.received == Some(host))
      && (via.rport == Some("") ==> v.rport == Some(port)) && (via.rport != Some("") ==> v.rport == via.rport)
      && (port != "" ==> Annotated(v, Some((host, port))) == v)
  {
  }

  const INTERNAL_PREFIX := "x-freesbc-"

  predicate Internal(k: Kind) {
    k.KOther? && HasPrefixFold(k.name, INTERNAL_PREFIX)
  }

  lemma InternalIs(name: string)
    ensures Internal(KOther(name)) <==> |name| >= 10 && Lower(name[..10]) == "x-freesbc-"
  {
    if |name| >= 10 {
      var s := Lower(name[..10]);
      assert |s| == 10 && forall i :: 0 <= i < 10 ==> s[i] == LowerChar(name[i]);
    }
  }

  function Hops(hs: seq<Header>): Option<nat> {
    if hs != [] && hs[0].MaxForwards? then Some(hs[0].hops) else None
  }

  /** Max-Forwards one lower, 70 where there was none. */
  function OneHopLess(hs: seq<Header>): seq<Header> {
    match Hops(hs)
    case None => hs + [MaxForwards(70)]
    case Some(n) => if n == 0 then hs else [MaxForwards(n - 1)] + hs[1..]
  }

  /** The count goes down by one from what it was, from no header to 70; other
      Max-Forwards headers stay. */
  lemma HopsAfter(hs: seq<Header>)
    requires forall h <- hs :: KindOf(h) == KMaxForwards
    ensures hs == [] ==> OneHopLess(hs) == [MaxForwards(70)]
    ensures hs != [] && hs[0].MaxForwards? && hs[0].hops > 0 ==>
      OneHopLess(hs) == [MaxForwards(hs[0].hops - 1)] + hs[1..]
  {
  }

  /** The Max-Forwards headers after being forwarded k times. */
  function AfterPasses(hs: seq<Header>, k: nat): (r: seq<Header>)
    requires forall h <- hs :: KindOf(h) == KMaxForwards
    ensures forall h <- r :: KindOf(h) == KMaxForwards
  {
    if k == 0 then hs else OneHopLess(AfterPasses(hs, k - 1))
  }

  /** A request that arrives with n hops is forwarded n times, and then refused: in a
      loop it dies. */
  lemma {:induction false} LoopEnds(hs: seq<Header>, n: nat, k: nat)
    requires (forall h <- hs :: KindOf(h) == KMaxForwards) && hs != [] && hs[0] == MaxForwards(n) && k <= n
    ensures AfterPasses(hs, k) == [MaxForwards(n - k)] + hs[1..]
    ensures Hops(AfterPasses(hs, k)) == Some(0) <==> k == n
    decreases k
  {
    if k > 0 {
      LoopEnds(hs, n, k - 1);
      HopsAfter(AfterPasses(hs, k - 1));
    }
  }

  /** One that arrives without the header is forwarded 71 times. */
  lemma LoopEndsWithout(k: nat)
    requires k <= 71
    ensures Hops(AfterPasses([], k)) == Some(0) <==> k == 71
  {
    if k > 0 {
      AddHeaderFirst(k);
      LoopEnds([MaxForwards(70)], 70, k - 1);
    }
  }

  lemma {:induction false} AddHeaderFirst(k: nat)
    requires k > 0
    ensures AfterPasses([], k) == AfterPasses([MaxForwards(70)], k - 1)
  {
    HopsAfter([]);
    if k == 1 {
      assert AfterPasses([], 0) == [];
    } else {
      AddHeaderFirst(k - 1);
    }
  }

  method DecrementHops(m: Message) returns (ok: bool)
    modifies m
    ensures ok == (Hops(old(m.Named(KMaxForwards))) != Some(0))
    ensures ok ==> m.Named(KMaxForwards) == OneHopLess(old(m.Named(KMaxForwards))) && m.OthersKept({KMaxForwards})
  {
    var mf := m.All(KMaxForwards);
    if mf == [] {
      m.Append(MaxForwards(70));
      return true;
    }
    assert KindOf(mf[0]) == KMaxForwards;
    if mf[0].hops == 0 {
      return false;
    }
    m.ReplaceHeader(MaxForwards(mf[0].hops - 1));
    return true;
  }

  /** What prepareForward leaves of the headers of each name with a case of its
      own. */
  function Prepared(t: Topology, from: Side, to: Side, source: Source, recordRoute: bool, branch: string, k: Kind,
    hs: seq<Header>): seq<Header>
    requires forall h <- hs :: KindOf(h) == k
  {
    match k
    case KVia => [ViaOf(t, to, branch)] + AnnotateFirst(hs, source)
    case KRecordRoute => if recordRoute then [RecordRouteOf(t, to)] + ([RecordRouteOf(t, from)] + hs) else hs
    case KRoute => DropOwn(t, hs)
    case KMaxForwards => OneHopLess(hs)
    case _ => hs
  }

  /** Steps 5 and 6: Record-Route for both sides, the destination's on top, and
      the Via. */
  method AddOwn(t: Topology, m: Message, from: Side, to: Side, recordRoute: bool, branch: string)
    modifies m
    ensures m.Named(KVia) == [ViaOf(t, to, branch)] + old(m.Named(KVia))
    ensures m.Named(KRecordRoute) ==
      if recordRoute then [RecordRouteOf(t, to)] + ([RecordRouteOf(t, from)] + old(m.Named(KRecordRoute)))
      else old(m.Named(KRecordRoute))
    ensures m.OthersKept({KVia, KRecordRoute})
  {
    hide Of, Keep;
    if recordRoute {
      m.Prepend(RecordRouteOf(t, from));
      m.Prepend(RecordRouteOf(t, to));
    }
    m.Prepend(ViaOf(t, to, branch));
  }

  /** The generic headers of a forwarded request; carried says which methods the
      proxy carries. */
  function PreparedGeneric(hs: seq<Header>, carried: string -> bool): seq<Header> {
    Keep(Sanitized(hs, carried), Internal)
  }

  /** Steps 2 and 3: the sender's Via, own Routes, what is not forwarded. */
  method CleanUp(t: Topology, m: Message, source: Source, carried: string -> bool)
    modifies m
    ensures m.Named(KVia) == AnnotateFirst(old(m.Named(KVia)), source)
    ensures m.Named(KRoute) == DropOwn(t, old(m.Named(KRoute)))
    ensures forall k :: Typed(k) && k != KVia && k != KRoute ==> m.Named(k) == old(m.Named(k))
    ensures m.Generic() == PreparedGeneric(old(m.Generic()), carried)
  {
    hide Of, DropOwn, Internal, Keep, Sanitized, AnnotateFirst;
    AnnotateVia(m, source);
    StripOwnRoutes(t, m);
    SanitizeExtensions(m, carried);
    StripInternal(m);
  }

  /** prepareForward, on the clone m of the request that came from source. It
      fails exactly on a request that arrives with no hops left. */
  method PrepareForward(t: Topology, m: Message, from: Side, to: Side, source: Source, recordRoute: bool,
    branch: string, carried: string -> bool)
    returns (ok: bool)
    modifies m
    ensures ok == (Hops(old(m.Named(KMaxForwards))) != Some(0))
    ensures ok ==>
      forall k :: Typed(k) ==> m.Named(k) == Prepared(t, from, to, source, recordRoute, branch, k, old(m.Named(k)))
    ensures ok ==> m.Generic() == PreparedGeneric(old(m.Generic()), carried)
  {
    hide Of, DropOwn, Internal, OneHopLess, Hops, Keep, RecordRouteOf, ViaOf, PreparedGeneric, AnnotateFirst;
    CleanUp(t, m, source, carried);
    ok := DecrementHops(m);
    if !ok {
      return;
    }
    AddOwn(t, m, from, to, recordRoute, branch);
  }

  // ---- Identity ------------------------------------------------------------------------

  /** maskURI: a private host becomes the public address, without a port. */
  function MaskUri(t: Topology, u: Uri, pub: Addr): Uri {
    if IsSwitchHost(t, u.host) then u.(host := t.print_(pub), port := 0) else u
  }

  /** restoreURI: puts the real host and port back on a URI echoed masked. */
  function RestoreUri(t: Topology, cur: Uri, real_: Uri, pub: Addr): Uri {
    if IsSwitchHost(t, real_.host) && cur.host == t.print_(pub) && cur.user == real_.user then
      cur.(host := real_.host, port := real_.port)
    else cur
  }

  /** A switch's host becomes the public address without a port; user and parameters
      stay, and so does any other URI. */
  lemma MaskedIs(t: Topology, u: Uri, pub: Addr)
    ensures IsSwitchHost(t, u.host) ==> MaskUri(t, u, pub) == Uri(u.user, t.print_(pub), 0, u.params)
    ensures !IsSwitchHost(t, u.host) ==> MaskUri(t, u, pub) == u
  {
  }

  /** A masked URI echoed as it was given comes back as it was; one echoed with
      other parameters gets the real host and port. */
  lemma MaskRoundTrip(t: Topology, u: Uri, echo: Uri, pub: Addr)
    ensures RestoreUri(t, MaskUri(t, u, pub), u, pub) == u
    ensures echo.(params := "") == MaskUri(t, u, pub).(params := "") ==>
      RestoreUri(t, echo, u, pub) == u.(params := echo.params)
  {
  }

  /** No switch address survives masking to an address that is none. */
  lemma MaskHides(t: Topology, u: Uri, pub: Addr)
    requires WellFormed(t) && !IsSwitchHost(t, t.print_(pub))
    ensures !IsSwitchHost(t, MaskUri(t, u, pub).host)
  {
  }

  function MaskHeader(t: Topology, h: Header, pub: Addr): Header {
    match h
    case From(u, tag) => From(MaskUri(t, u, pub), tag)
    case To(u, tag) => To(MaskUri(t, u, pub), tag)
    case _ => h
  }

  /** The From or To header, the first of its name, with its URI masked. */
  function MaskFirst(t: Topology, hs: seq<Header>, pub: Addr): seq<Header> {
    if hs == [] then [] else [MaskHeader(t, hs[0], pub)] + hs[1..]
  }

  /** From and To keep their tags and get the masked address. */
  lemma MaskedAddress(t: Topology, u: Uri, tag: string, pub: Addr, rest: seq<Header>)
    ensures MaskFirst(t, [From(u, tag)] + rest, pub) == [From(MaskUri(t, u, pub), tag)] + rest
    ensures MaskFirst(t, [To(u, tag)] + rest, pub) == [To(MaskUri(t, u, pub), tag)] + rest
  {
    assert ([From(u, tag)] + rest)[1..] == rest && ([To(u, tag)] + rest)[1..] == rest;
  }

  method MaskNamed(t: Topology, m: Message, k: Kind, pub: Addr)
    requires k == KFrom || k == KTo
    modifies m
    ensures m.Named(k) == MaskFirst(t, old(m.Named(k)), pub) && m.OthersKept({k})
  {
    var hs := m.All(k);
    if hs != [] {
      assert KindOf(hs[0]) == k;
      m.ReplaceHeader(MaskHeader(t, hs[0], pub));
    }
  }

  predicate Allowed(allow: string -> bool, k: Kind) {
    k.KOther? ==> allow(k.name)
  }

  /** What hideToPublic leaves of the headers of each name with a case of its
      own. */
  function Hidden(t: Topology, to: Side, recordRoute: bool, inDialog: bool, k: Kind, hs: seq<Header>): seq<Header> {
    match k
    case KVia => if hs == [] then [] else [hs[0]]
    case KRecordRoute => if recordRoute then [RecordRouteOf(t, to)] else []
    case KRoute => if inDialog then hs else []
    case KFrom => MaskFirst(t, hs, to.advIP)
    case KTo => MaskFirst(t, hs, to.advIP)
    case KContact => if hs == [] then [] else [Contact(SideUri(t, to))]
    case _ => hs
  }

  /** What it leaves of the generic headers; allow is the client header
      allowlist. */
  function HiddenGeneric(hs: seq<Header>, rewrite: Rewrite, client: bool, allow: string -> bool): seq<Header> {
    var left := Keep(MaskedNames(hs, IdentityNames(), rewrite), Internal);
    if client then Keep(left, Disallowed(allow)) else left
  }

  function Disallowed(allow: string -> bool): Kind -> bool {
    k => !Allowed(allow, k)
  }

  /** Whatever the spelling, an allowed header that is no identity header goes
      out as it came. */
  lemma HiddenLeaves(hs: seq<Header>, rewrite: Rewrite, client: bool, allow: string -> bool, k: Kind)
    requires k.KOther? && !Internal(k) && Allowed(allow, k) && forall n <- IdentityNames() :: !Folds(k, n)
    ensures Of(HiddenGeneric(hs, rewrite, client, allow), k) == Of(hs, k)
  {
    var masked := MaskedNames(hs, IdentityNames(), rewrite);
    OfKeep(masked, Internal, k);
    OfKeep(Keep(masked, Internal), Disallowed(allow), k);
    var others: Kind -> bool := j => j != k;
    MaskedNamesOthers(hs, IdentityNames(), rewrite, others);
    OfKeep(masked, others, k);
    OfKeep(hs, others, k);
  }

  lemma IdentityNotInternal(k: Kind)
    requires exists n <- IdentityNames() :: Folds(k, n)
    ensures !Internal(k)
  {
    hide IdentityNames;
    var n :| n in IdentityNames() && Folds(k, n);
    NoneBeginsInternal(n);
    assert Lower(k.name)[0] == LowerChar(k.name[0]);
  }

  lemma NoneBeginsInternal(n: string)
    requires n in IdentityNames()
    ensures n != "" && Lower(n)[0] != 'x' && Lower(n) != ""
  {
    var i :| 0 <= i < |IdentityNames()| && IdentityNames()[i] == n;
    assert n[0] != 'x' && n[0] != 'X';
  }

  /** What goes out of the generic headers: of the masked ones those that are not
      internal and, to a client, are on the list. */
  lemma HiddenMembers(hs: seq<Header>, rewrite: Rewrite, client: bool, allow: string -> bool)
    ensures forall h :: h in HiddenGeneric(hs, rewrite, client, allow) <==>
      h in MaskedNames(hs, IdentityNames(), rewrite) && !Internal(KindOf(h)) && (client ==> Allowed(allow, KindOf(h)))
  {
    hide IdentityNames, Internal, MaskedNames, Allowed;
    var masked := MaskedNames(hs, IdentityNames(), rewrite);
    KeepMembers(masked, Internal);
    KeepMembers(Keep(masked, Internal), Disallowed(allow));
  }

  /** No generic header that goes out is internal, and to a client none is off the
      list. */
  lemma HiddenAllowed(hs: seq<Header>, rewrite: Rewrite, client: bool, allow: string -> bool)
    ensures forall h <- HiddenGeneric(hs, rewrite, client, allow) :: !Internal(KindOf(h))
    ensures client ==> forall h <- HiddenGeneric(hs, rewrite, client, allow) :: h.Other? ==> allow(h.name)
  {
    hide HiddenGeneric, Internal, Allowed, MaskedNames, IdentityNames;
    HiddenMembers(hs, rewrite, client, allow);
    if client {
      forall h <- HiddenGeneric(hs, rewrite, client, allow) | h.Other? ensures allow(h.name) {
        AllowedOther(h, allow);
      }
    }
  }

  lemma AllowedOther(h: Header, allow: string -> bool)
    requires h.Other? && Allowed(allow, KindOf(h))
    ensures allow(h.name)
  {
  }

  /** Where the list has the identity headers, none of them names a switch exactly when
      under each name those that did were spelled as its first. */
  lemma HiddenClean(hs: seq<Header>, rewrite: Rewrite, client: bool, allow: string -> bool)
    requires Thorough(rewrite)
    requires client ==> forall k, n <- IdentityNames() :: Folds(k, n) ==> Allowed(allow, k)
    ensures (forall n <- IdentityNames() :: CleanName(HiddenGeneric(hs, rewrite, client, allow), n, rewrite)) <==>
      (forall n <- IdentityNames() :: SpelledAsFirst(hs, n, rewrite))
  {
    hide IdentityNames, Internal, SpelledAsFirst, Thorough, MaskedNames, HiddenGeneric, Allowed;
    var masked := MaskedNames(hs, IdentityNames(), rewrite);
    var left := HiddenGeneric(hs, rewrite, client, allow);
    HiddenMembers(hs, rewrite, client, allow);
    IdentityCleanIff(hs, rewrite);
    forall n <- IdentityNames() ensures CleanName(left, n, rewrite) <==> CleanName(masked, n, rewrite) {
      forall h <- masked | Folds(KindOf(h), n) ensures h in left {
        IdentityNotInternal(KindOf(h));
      }
    }
  }

  /** Of the Vias, the top one stays. */
  method OnlyTopVia(m: Message)
    modifies m
    ensures var vias := old(m.Named(KVia)); m.Named(KVia) == if vias == [] then [] else [vias[0]]
    ensures m.OthersKept({KVia})
  {
    hide Of, Keep;
    var vias := m.All(KVia);
    if vias != [] {
      assert KindOf(vias[0]) == KVia;
      m.RemoveHeaders(KVia);
      m.Prepend(vias[0]);
    }
  }

  method HideRoutes(t: Topology, m: Message, to: Side, recordRoute: bool, inDialog: bool)
    modifies m
    ensures m.Named(KVia) == Hidden(t, to, recordRoute, inDialog, KVia, old(m.Named(KVia)))
    ensures m.Named(KRecordRoute) == Hidden(t, to, recordRoute, inDialog, KRecordRoute, old(m.Named(KRecordRoute)))
    ensures m.Named(KRoute) == Hidden(t, to, recordRoute, inDialog, KRoute, old(m.Named(KRoute)))
    ensures m.OthersKept({KVia, KRecordRoute, KRoute})
  {
    hide Of, Keep;
    OnlyTopVia(m);
    m.RemoveHeaders(KRecordRoute);
    if recordRoute {
      m.Prepend(RecordRouteOf(t, to));
    }
    if !inDialog {
      m.RemoveHeaders(KRoute);
    }
  }

  /** SetContact, when the message has one. */
  method OwnContact(t: Topology, m: Message, to: Side)
    modifies m
    ensures m.Named(KContact) == (if old(m.Named(KContact)) == [] then [] else [Contact(SideUri(t, to))])
    ensures m.OthersKept({KContact})
  {
    hide Of, Keep;
    var contacts := m.All(KContact);
    if contacts != [] {
      m.RemoveHeaders(KContact);
      m.Append(Contact(SideUri(t, to)));
    }
  }

  /** maskIdentity, and the Contact. */
  method HideIdentity(t: Topology, m: Message, to: Side, rewrite: Rewrite)
    modifies m
    ensures m.Named(KFrom) == MaskFirst(t, old(m.Named(KFrom)), to.advIP)
    ensures m.Named(KTo) == MaskFirst(t, old(m.Named(KTo)), to.advIP)
    ensures m.Named(KContact) == (if old(m.Named(KContact)) == [] then [] else [Contact(SideUri(t, to))])
    ensures forall k :: Typed(k) && k !in {KFrom, KTo, KContact} ==> m.Named(k) == old(m.Named(k))
    ensures m.Generic() == MaskedNames(old(m.Generic()), IdentityNames(), rewrite)
  {
    hide Of, MaskFirst, Keep, MaskedNames, IdentityNames;
    MaskNamed(t, m, KFrom, to.advIP);
    MaskNamed(t, m, KTo, to.advIP);
    MaskIdentityHeaders(m, rewrite);
    OwnContact(t, m, to);
  }

  /** stripInternalHeaders. */
  method StripInternal(m: Message)
    modifies m
    ensures forall k :: Typed(k) ==> m.Named(k) == old(m.Named(k))
    ensures m.Generic() == Keep(old(m.Generic()), Internal)
  {
    hide Of, HasPrefixFold, Keep;
    m.RemoveCollected(Internal);
  }

  /** stripInternalHeaders and, for a client, filterToClient. */
  method FilterNames(m: Message, client: bool, allow: string -> bool)
    modifies m
    ensures forall k :: Typed(k) ==> m.Named(k) == old(m.Named(k))
    ensures var left := Keep(old(m.Generic()), Internal);
      m.Generic() == if client then Keep(left, Disallowed(allow)) else left
  {
    hide Of, Internal, Keep;
    StripInternal(m);
    if client {
      m.RemoveCollected(Disallowed(allow));
    }
  }

  /** hideToPublic. */
  method HideToPublic(t: Topology, m: Message, to: Side, recordRoute: bool, inDialog: bool, client: bool,
    allow: string -> bool, rewrite: Rewrite)
    modifies m
    ensures forall k :: Typed(k) ==> m.Named(k) == Hidden(t, to, recordRoute, inDialog, k, old(m.Named(k)))
    ensures m.Generic() == HiddenGeneric(old(m.Generic()), rewrite, client, allow)
  {
    hide Of, MaskFirst, HasPrefixFold, RecordRouteOf, Keep, MaskedNames, IdentityNames;
    HideRoutes(t, m, to, recordRoute, inDialog);
    HideIdentity(t, m, to, rewrite);
    FilterNames(m, client, allow);
  }

  // ---- Responses on the way back ----------------------------------------------------------

  /** popOwnVia. */
  method PopOwnVia(t: Topology, m: Message, allowEmpty: bool) returns (ok: bool)
    modifies m
    ensures var vias := old(m.Named(KVia));
      && (ok <==> vias != [] && vias[0].Via? && IsSelfVia(t, vias[0]) && (allowEmpty || |vias| > 1))
      && (ok ==> m.Named(KVia) == vias[1..]) && m.OthersKept({KVia})
  {
    var vias := m.All(KVia);
    if vias == [] {
      return false;
    }
    assert KindOf(vias[0]) == KVia;
    if !IsSelfVia(t, vias[0]) {
      return false;
    }
    var _ := m.RemoveHeader(KVia);
    return allowEmpty || |vias| > 1;
  }

  /** orig's URI under the tag that was answered. */
  function Readdressed(hs: seq<Header>, orig: seq<Header>): seq<Header> {
    if hs == [] || orig == [] then hs
    else
      match (hs[0], orig[0])
      case (From(_, tag), From(u, _)) => [From(u, tag)] + hs[1..]
      case (To(_, tag), To(u, _)) => [To(u, tag)] + hs[1..]
      case _ => hs
  }

  /** The request's address comes back, the answer's tag stays. */
  lemma AddressBack(u: Uri, was: Uri, tag: string, given: string, rest: seq<Header>, others: seq<Header>)
    ensures Readdressed([From(was, tag)] + rest, [From(u, given)] + others) == [From(u, tag)] + rest
    ensures Readdressed([To(was, tag)] + rest, [To(u, given)] + others) == [To(u, tag)] + rest
  {
    assert ([From(was, tag)] + rest)[1..] == rest && ([To(was, tag)] + rest)[1..] == rest;
  }

  method Readdress(m: Message, k: Kind, orig: seq<Header>)
    requires (k == KFrom || k == KTo) && forall h <- orig :: KindOf(h) == k
    modifies m
    ensures m.Named(k) == Readdressed(old(m.Named(k)), orig) && m.OthersKept({k})
  {
    var hs := m.All(k);
    if hs != [] && orig != [] {
      assert KindOf(hs[0]) == k && KindOf(orig[0]) == k;
      m.ReplaceHeader(Readdressed(hs, orig)[0]);
    }
  }

  method RestoreVias(m: Message, orig: Message)
    requires m != orig
    modifies m
    ensures m.Named(KVia) == orig.Named(KVia) && m.OthersKept({KVia})
  {
    hide Of, Keep;
    m.RemoveHeaders(KVia);
    var vias := orig.All(KVia);
    m.PrependAll(vias, KVia);
    assert vias + [] == vias;
  }

  /** hideResponse toward the switch: its Vias come back, and the addresses its
      request had. */
  method ResponseToSwitch(m: Message, orig: Message)
    requires m != orig
    modifies m
    ensures m.Named(KVia) == orig.Named(KVia)
    ensures m.Named(KFrom) == Readdressed(old(m.Named(KFrom)), orig.Named(KFrom))
    ensures m.Named(KTo) == Readdressed(old(m.Named(KTo)), orig.Named(KTo))
    ensures m.OthersKept({KVia, KFrom, KTo})
  {
    hide Of, Readdressed, Keep;
    RestoreVias(m, orig);
    var froms := orig.All(KFrom);
    Readdress(m, KFrom, froms);
    var tos := orig.All(KTo);
    Readdress(m, KTo, tos);
  }

  predicate NamesPublic(t: Topology, h: Header) {
    h.RecordRoute? && IsPublic(t, h.uri)
  }

  /** The private entry goes right after the last public one, or to the end. */
  function WithPrivate(t: Topology, rrs: seq<Header>): seq<Header> {
    if rrs == [] || NamesPublic(t, rrs[|rrs| - 1]) || forall h <- rrs :: !NamesPublic(t, h) then
      rrs + [RecordRouteOf(t, t.private)]
    else WithPrivate(t, rrs[..|rrs| - 1]) + [rrs[|rrs| - 1]]
  }

  lemma {:induction false} WithPrivateAt(t: Topology, rrs: seq<Header>, at: nat)
    requires at <= |rrs| && forall i :: at <= i < |rrs| ==> !NamesPublic(t, rrs[i])
    requires at > 0 && NamesPublic(t, rrs[at - 1])
    ensures WithPrivate(t, rrs) == rrs[..at] + [RecordRouteOf(t, t.private)] + rrs[at..]
    decreases |rrs|
  {
    hide NamesPublic, RecordRouteOf;
    assert rrs[at - 1] in rrs;
    if at == |rrs| {
      assert rrs[..at] == rrs && rrs[at..] == [];
    } else {
      var init := rrs[..|rrs| - 1];
      WithPrivateAt(t, init, at);
      assert init[..at] == rrs[..at] && init[at..] + [rrs[|rrs| - 1]] == rrs[at..];
    }
  }

  /** addPrivateRecordRoute. */
  method AddPrivateRecordRoute(t: Topology, m: Message)
    modifies m
    ensures m.Named(KRecordRoute) == WithPrivate(t, old(m.Named(KRecordRoute))) && m.OthersKept({KRecordRoute})
  {
    hide Of, WithPrivate, RecordRouteOf, Keep, Inserted;
    var all := m.All(KRecordRoute);
    var at := LastPublic(t, all);
    m.RemoveHeaders(KRecordRoute);
    var priv := RecordRouteOf(t, t.private);
    OwnKind(t);
    InsertedEnd(all, at, priv);
    for i := 0 to |all|
      invariant m.Named(KRecordRoute) == Inserted(all, at, priv, i) && m.OthersKept({KRecordRoute})
    {
      assert KindOf(all[i]) == KRecordRoute;
      InsertedStep(all, at, priv, i);
      if i == at {
        m.Append(priv);
      }
      m.Append(all[i]);
    }
    if at == |all| {
      m.Append(priv);
    }
    InsertedEnd(all, at, priv);
  }

  /** The first i entries, with priv before entry at once that is reached. */
  function Inserted(all: seq<Header>, at: nat, priv: Header, i: nat): seq<Header>
    requires at <= |all| && i <= |all|
  {
    if i <= at then all[..i] else all[..at] + [priv] + all[at..i]
  }

  lemma InsertedStep(all: seq<Header>, at: nat, priv: Header, i: nat)
    requires at <= |all| && i < |all|
    ensures Inserted(all, at, priv, i + 1) == Inserted(all, at, priv, i) + (if i == at then [priv] else []) + [all[i]]
  {
    assert all[..i + 1] == all[..i] + [all[i]] && (i >= at ==> all[at..i + 1] == all[at..i] + [all[i]]);
  }

  lemma InsertedEnd(all: seq<Header>, at: nat, priv: Header)
    requires at <= |all|
    ensures Inserted(all, at, priv, 0) == []
    ensures Inserted(all, at, priv, |all|) + (if at == |all| then [priv] else []) == all[..at] + [priv] + all[at..]
  {
    assert all[..|all|] == all && all[at..|all|] == all[at..];
  }

  lemma OwnKind(t: Topology)
    ensures forall s :: KindOf(RecordRouteOf(t, s)) == KRecordRoute
  {
  }

  method LastPublic(t: Topology, all: seq<Header>) returns (at: nat)
    requires forall h <- all :: KindOf(h) == KRecordRoute
    ensures at <= |all| && WithPrivate(t, all) == all[..at] + [RecordRouteOf(t, t.private)] + all[at..]
  {
    at := |all|;
    var i := |all|;
    while i > 0
      invariant 0 <= i <= |all| && at == |all| && forall j :: i <= j < |all| ==> !NamesPublic(t, all[j])
    {
      i := i - 1;
      assert KindOf(all[i]) == KRecordRoute;
      if IsPublic(t, all[i].uri) {
        WithPrivateAt(t, all, i + 1);
        return i + 1;
      }
    }
    assert forall h <- all :: !NamesPublic(t, h);
    assert all[..|all|] == all && all[|all|..] == [];
  }

  /** What a Record-Route entry must be to stay in a response going out: never
      the private socket; for a client no switch either. */
  predicate StaysPublic(t: Topology, client: bool, h: Header) {
    h.RecordRoute? && !IsPrivate(t, h.uri) && (!client || IsPublic(t, h.uri) || !IsSwitchHost(t, h.uri.host))
  }

  function Staying(t: Topology, client: bool, rrs: seq<Header>): seq<Header> {
    if rrs == [] then []
    else
      var init := Staying(t, client, rrs[..|rrs| - 1]);
      if StaysPublic(t, client, rrs[|rrs| - 1]) then init + [rrs[|rrs| - 1]] else init
  }

  /** hideRecordRoutesToClient, and the same step toward a carrier. */
  method HideRecordRoutes(t: Topology, m: Message, client: bool)
    modifies m
    ensures m.Named(KRecordRoute) == Staying(t, client, old(m.Named(KRecordRoute))) && m.OthersKept({KRecordRoute})
  {
    hide Of, StaysPublic, Keep;
    var rrs := m.All(KRecordRoute);
    var keep: seq<Header> := [];
    for i := 0 to |rrs|
      invariant keep == Staying(t, client, rrs[..i]) && (forall h <- keep :: h in rrs)
    {
      assert rrs[..i + 1][..i] == rrs[..i];
      if StaysPublic(t, client, rrs[i]) {
        keep := keep + [rrs[i]];
      }
    }
    assert rrs[..|rrs|] == rrs;
    m.RemoveHeaders(KRecordRoute);
    for i := 0 to |keep|
      invariant m.Named(KRecordRoute) == keep[..i] && m.OthersKept({KRecordRoute})
    {
      assert keep[i] in keep && keep[..i + 1] == keep[..i] + [keep[i]];
      m.Append(keep[i]);
    }
    assert keep[..|keep|] == keep;
  }

  // ---- The route sets of a dialog -----------------------------------------------------------

  function AddressOf(h: Header): Uri {
    if h.RecordRoute? then h.uri else Uri("", "", 0, "")
  }

  /** A route set as the Route headers of a request. */
  function AsRoutes(set_: seq<Header>): (r: seq<Header>)
    ensures forall h <- r :: KindOf(h) == KRoute
  {
    if set_ == [] then [] else [Route(AddressOf(set_[0]))] + AsRoutes(set_[1..])
  }

  lemma StripOne(t: Topology, h: Header, rest: seq<Header>)
    requires h.RecordRoute? && IsSelf(t, h.uri)
    ensures DropOwn(t, AsRoutes([h] + rest)) == DropOwn(t, AsRoutes(rest))
  {
    assert ([h] + rest)[1..] == rest;
    var routes := AsRoutes([h] + rest);
    assert routes[1..] == AsRoutes(rest);
  }

  /** Both of FreeSBC's own entries in front are stripped, and then the hops stay
      as they are exactly when the first of them does not name FreeSBC. */
  lemma StripBoth(t: Topology, a: Header, b: Header, hops: seq<Header>)
    requires a.RecordRoute? && IsSelf(t, a.uri) && b.RecordRoute? && IsSelf(t, b.uri) && Recorded(hops)
    ensures DropOwn(t, AsRoutes([a, b] + hops)) == AsRoutes(hops) <==> FirstIsBeyond(t, hops)
  {
    assert [a, b] + hops == [a] + ([b] + hops);
    StripOne(t, a, [b] + hops);
    StripOne(t, b, hops);
    DropNothing(t, hops);
  }

  /** Entries of the proxies on the way. */
  predicate Recorded(hops: seq<Header>) {
    forall h <- hops :: h.RecordRoute?
  }

  predicate FirstIsBeyond(t: Topology, hops: seq<Header>)
    requires Recorded(hops)
  {
    hops == [] || Beyond(t, hops[0])
  }

  /** The entry of another element that record-routes. */
  predicate Beyond(t: Topology, h: Header) {
    h.RecordRoute? && !IsSelf(t, h.uri)
  }

  lemma DropNothing(t: Topology, rest: seq<Header>)
    requires Recorded(rest)
    ensures DropOwn(t, AsRoutes(rest)) == AsRoutes(rest) <==> FirstIsBeyond(t, rest)
  {
    if rest != [] {
      assert rest[0] in rest;
      DropFewer(t, AsRoutes(rest)[1..]);
    }
  }

  lemma {:induction false} DropFewer(t: Topology, routes: seq<Header>)
    requires forall h <- routes :: KindOf(h) == KRoute
    ensures |DropOwn(t, routes)| <= |routes|
    decreases |routes|
  {
    if routes != [] && OwnRoute(t, routes[0]) {
      DropFewer(t, routes[1..]);
    }
  }

  /** The switch's call out. The hops beyond FreeSBC, in the order the INVITE
      met them, put their entries above FreeSBC's public one. The switch, as the
      caller, takes the echoed list in reverse: the private socket, the public
      address, the hops. A request along that route set leaves with exactly the
      hops, in order, if and only if the first of them is not FreeSBC again. */
  lemma RouteSetRoundTrip(t: Topology, to: Side, hops: seq<Header>)
    requires WellFormed(t) && to in t.public && Recorded(hops)
    ensures var list := WithPrivate(t, Reverse(hops) + [RecordRouteOf(t, to)]);
      && list == Reverse(hops) + [RecordRouteOf(t, to), RecordRouteOf(t, t.private)]
      && Reverse(list) == [RecordRouteOf(t, t.private), RecordRouteOf(t, to)] + hops
      && (DropOwn(t, AsRoutes(Reverse(list))) == AsRoutes(hops) <==> FirstIsBeyond(t, hops))
  {
    var pub, priv := RecordRouteOf(t, to), RecordRouteOf(t, t.private);
    OwnRecordRoute(t, to);
    OwnRecordRoute(t, t.private);
    PrivateAfterPublic(t, Reverse(hops), pub);
    hide WithPrivate, RecordRouteOf, IsPublic, IsPrivate, DropOwn, AsRoutes, Reverse;
    ReverseHops(hops, pub, priv);
    StripBoth(t, priv, pub, hops);
  }

  lemma PrivateAfterPublic(t: Topology, above: seq<Header>, pub: Header)
    requires NamesPublic(t, pub)
    ensures WithPrivate(t, above + [pub]) == above + [pub, RecordRouteOf(t, t.private)]
  {
    var rrs := above + [pub];
    assert rrs[|rrs| - 1] == pub;
  }

  lemma ReverseHops(hops: seq<Header>, pub: Header, priv: Header)
    ensures Reverse(Reverse(hops) + [pub, priv]) == [priv, pub] + hops
  {
    ReverseAppend(Reverse(hops), [pub, priv]);
    ReverseTwice(hops);
    assert [pub, priv][1..] == [priv];
  }

  /** When the far end echoes no public entry the private one still goes last:
      the switch's route set starts at the private socket. */
  lemma EchoWithoutPublic(t: Topology, rrs: seq<Header>)
    requires forall h <- rrs :: !NamesPublic(t, h)
    ensures WithPrivate(t, rrs) == rrs + [RecordRouteOf(t, t.private)]
    ensures Reverse(WithPrivate(t, rrs)) == [RecordRouteOf(t, t.private)] + Reverse(rrs)
  {
    ReverseAppend(rrs, [RecordRouteOf(t, t.private)]);
  }

  /** The far end, as the called side, takes the list as it is: the hops nearest
      it first, FreeSBC's public address last. Of a request along it FreeSBC strips
      nothing exactly while the next hop is another's, and all when its own entry
      is the only one left. */
  lemma FarEndRouteSet(t: Topology, to: Side, hops: seq<Header>, k: nat)
    requires WellFormed(t) && to in t.public && Recorded(hops) && k <= |hops|
    ensures var list := Reverse(hops) + [RecordRouteOf(t, to)];
      if k == |hops| then DropOwn(t, AsRoutes(list[k..])) == []
      else DropOwn(t, AsRoutes(list[k..])) == AsRoutes(list[k..]) <==> Beyond(t, list[k])
  {
    hide RecordRouteOf, IsPublic, IsPrivate;
    var own := RecordRouteOf(t, to);
    OwnRecordRoute(t, to);
    ReverseMembers(hops);
    var list := Reverse(hops) + [own];
    if k < |hops| {
      forall h <- list[k..] ensures h.RecordRoute? {
        assert h in Reverse(hops) || h == own;
      }
      DropNothing(t, list[k..]);
    } else {
      assert list[k..] == [own] + [];
      StripOne(t, own, []);
    }
  }

  /** A client's call in. Its own proxies' entries are hops, the nearest to
      FreeSBC first. The switch, as the called side, sees private, public, hops
      and reaches the hops in that order exactly when the first is not FreeSBC
      again; the client is shown the list without the private entry exactly when
      no hop names the private socket or a switch, a carrier when none names the
      private socket. */
  lemma ClientRouteSet(t: Topology, from: Side, hops: seq<Header>)
    requires WellFormed(t) && from in t.public && !IsPrivate(t, RecordRouteOf(t, from).uri) && Recorded(hops)
    ensures var list := [RecordRouteOf(t, t.private), RecordRouteOf(t, from)] + hops;
      && (DropOwn(t, AsRoutes(list)) == AsRoutes(hops) <==> FirstIsBeyond(t, hops))
      && (Staying(t, true, list) == [RecordRouteOf(t, from)] + hops <==>
        forall h <- hops :: !IsPrivate(t, h.uri) && (IsPublic(t, h.uri) || !IsSwitchHost(t, h.uri.host)))
      && (Staying(t, false, list) == [RecordRouteOf(t, from)] + hops <==> forall h <- hops :: !IsPrivate(t, h.uri))
  {
    hide RecordRouteOf, IsPublic, IsPrivate, DropOwn, AsRoutes, Staying, IsSwitchHost;
    var pub, priv := RecordRouteOf(t, from), RecordRouteOf(t, t.private);
    OwnRecordRoute(t, from);
    OwnRecordRoute(t, t.private);
    StripBoth(t, priv, pub, hops);
    StayingIff(t, true, priv, pub, hops);
    StaysForCarrier(t, hops);
    StayingIff(t, false, priv, pub, hops);
  }

  lemma StaysForCarrier(t: Topology, hops: seq<Header>)
    requires Recorded(hops)
    ensures forall h <- hops :: StaysPublic(t, false, h) <==> !IsPrivate(t, h.uri)
    ensures forall h <- hops ::
      StaysPublic(t, true, h) <==> !IsPrivate(t, h.uri) && (IsPublic(t, h.uri) || !IsSwitchHost(t, h.uri.host))
  {
  }

  lemma StayingIff(t: Topology, client: bool, priv: Header, pub: Header, hops: seq<Header>)
    requires StaysPublic(t, client, pub) && !StaysPublic(t, client, priv)
    ensures Staying(t, client, [priv, pub] + hops) == [pub] + hops <==> forall h <- hops :: StaysPublic(t, client, h)
  {
    hide Staying, StaysPublic;
    var rest := [pub] + hops;
    assert [priv, pub] + hops == [priv] + rest;
    StayingAfter(t, client, priv, rest);
    if forall h <- hops :: StaysPublic(t, client, h) {
      StayingAll(t, client, rest);
    } else {
      var h :| h in hops && !StaysPublic(t, client, h);
      assert h in rest;
      StayingMembers(t, client, rest);
    }
  }

  lemma {:induction false} StayingMembers(t: Topology, client: bool, rrs: seq<Header>)
    ensures forall h <- Staying(t, client, rrs) :: StaysPublic(t, client, h)
    decreases |rrs|
  {
    if rrs != [] {
      StayingMembers(t, client, rrs[..|rrs| - 1]);
    }
  }

  lemma {:induction false} StayingAll(t: Topology, client: bool, rrs: seq<Header>)
    requires forall h <- rrs :: StaysPublic(t, client, h)
    ensures Staying(t, client, rrs) == rrs
    decreases |rrs|
  {
    if rrs != [] {
      StayingAll(t, client, rrs[..|rrs| - 1]);
      assert rrs == rrs[..|rrs| - 1] + [rrs[|rrs| - 1]];
    }
  }

  lemma {:induction false} StayingAfter(t: Topology, client: bool, first: Header, rrs: seq<Header>)
    requires !StaysPublic(t, client, first)
    ensures Staying(t, client, [first] + rrs) == Staying(t, client, rrs)
    decreases |rrs|
  {
    var all := [first] + rrs;
    if rrs == [] {
      assert all[..0] == [] && all == [first];
    } else {
      assert all[..|all| - 1] == [first] + rrs[..|rrs| - 1];
      StayingAfter(t, client, first, rrs[..|rrs| - 1]);
    }
  }

  /** The entries above FreeSBC's own, nearest first: the route set of an ACK or
      BYE FreeSBC sends itself. */
  function TeardownRoutes(t: Topology, rrs: seq<Header>): seq<Header> {
    if rrs == [] || !Beyond(t, rrs[0]) then [] else TeardownRoutes(t, rrs[1..]) + [rrs[0]]
  }

  /** FreeSBC's own teardown takes the same hops as the dialog's requests. */
  lemma {:induction false} TeardownReaches(t: Topology, above: seq<Header>, own: Header, below: seq<Header>)
    requires !Beyond(t, own) && forall h <- above :: Beyond(t, h)
    ensures TeardownRoutes(t, above + [own] + below) == Reverse(above)
    decreases |above|
  {
    var all := above + [own] + below;
    if above != [] {
      assert all[1..] == above[1..] + [own] + below;
      assert above[0] in above;
      TeardownReaches(t, above[1..], own, below);
    }
  }
}
