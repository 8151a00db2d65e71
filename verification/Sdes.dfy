/**
 The SDES-SRTP state of a call's public leg (internal/edge/sdes.go, RFC 4568).
 Offers, plans and commits are made by different goroutines in any order: an
 offer is built, an answer or offer of the far end is turned into a plan, and a
 plan is committed when its exchange takes effect, each under the lock.

 The keys FreeSBC makes up, the lines of the far end and whether the media
 accepts a key are inputs.
 */
module Sdes {
  import opened Options

  /** Off stands for a leg without SDES state. Impossible is "required" where
      signaling cannot carry keys safely. */
  datatype Policy = Off | Optional | Required | Impossible

  datatype Setting = SetOff | SetOptional | SetRequired

  /** legSRTPPolicy, for the setting and the transport of the far end. */
  function LegPolicy(setting: Setting, secure: bool, allowInsecure: bool): (p: Policy)
    ensures setting == SetRequired ==> p == Required || p == Impossible
    ensures p == Optional || p == Required ==> secure || allowInsecure
  {
    if secure || allowInsecure then
      match setting
      case SetOptional => Optional
      case SetRequired => Required
      case SetOff => Off
    else if setting == SetRequired then Impossible
    else Off
  }

  /** The policy of a leg: as set where signaling may carry keys; elsewhere SRTP is
      impossible if required and else off. */
  lemma PolicyIs(setting: Setting, secure: bool, allowInsecure: bool)
    ensures secure || allowInsecure ==>
      (LegPolicy(setting, secure, allowInsecure) == Required <==> setting == SetRequired) &&
      (LegPolicy(setting, secure, allowInsecure) == Optional <==> setting == SetOptional)
    ensures LegPolicy(setting, secure, allowInsecure) == Impossible <==> !secure && !allowInsecure && setting == SetRequired
  {
  }

  datatype Crypto = Crypto(tag: nat, suite: string, key: string)

  /** What the far end's body says: whether it is an SRTP section, its crypto
      lines, and the usable one among them. */
  datatype Audio = Audio(sdes: bool, lines: seq<Crypto>, usable: Option<Crypto>)

  datatype Refusal = Insecure | RequiredHere | Downgrade | NoCrypto | BadAnswer | KeyFailed

  datatype Result<+T> = Ok(value: T) | Refused(why: Refusal)

  datatype Plan = Nothing | Plain | Keys(local: Crypto, peer: Crypto)

  /** mediaKey: the media knows no tag. */
  datatype Key = Key(suite: string, key: string)

  function KeyOf(c: Crypto): Key {
    Key(c.suite, c.key)
  }

  /** The leg; whether its media side is an SRTP side, and the keys the media has
      been given. */
  datatype Leg = Leg(
    policy: Policy, offered: Option<seq<Crypto>>, on: bool, plain: bool, local: Crypto, peer: Crypto,
    side: bool, mediaLocal: Option<Key>, mediaPeer: Option<Key>)

  // ---- Critical sections -----------------------------------------------------------

  /** initialOffer: the same lines every time; made are new ones, if they can be
      made. */
  function InitialIn(leg: Leg, made: Option<seq<Crypto>>): (Leg, Result<seq<Crypto>>) {
    if leg.offered.Some? then (leg, Ok(leg.offered.value))
    else if made.None? then (leg, Refused(KeyFailed))
    else (leg.(offered := made), Ok(made.value))
  }

  function OfferIn(leg: Leg, made: Option<seq<Crypto>>): (Leg, Result<seq<Crypto>>) {
    if leg.policy == Off then (leg, Ok([]))
    else if leg.policy == Impossible then (leg, Refused(Insecure))
    else if leg.on then (leg, Ok([leg.local]))
    else if leg.plain then (leg, Ok([]))
    else InitialIn(leg, made)
  }

  function AnswerSetIn(leg: Leg, initial: bool, made: Option<seq<Crypto>>): (Leg, Result<seq<Crypto>>) {
    if initial then InitialIn(leg, made) else OfferIn(leg, made)
  }

  /** planAnswer; made is a new key for the peer's tag and suite. */
  function PlanIn(leg: Leg, a: Audio, made: Option<Crypto>): Result<Plan> {
    if leg.policy == Off then Ok(Nothing)
    else if leg.policy == Impossible then Refused(Insecure)
    else if !a.sdes then
      if leg.on then Refused(Downgrade)
      else if leg.policy == Required then Refused(RequiredHere)
      else Ok(Plain)
    else if a.usable.None? then Refused(NoCrypto)
    else
      var peer := a.usable.value;
      if leg.on && leg.local.suite == peer.suite then Ok(Keys(leg.local.(tag := peer.tag), peer))
      else if made.None? then Refused(KeyFailed)
      else Ok(Keys(made.value.(tag := peer.tag), peer))
  }

  predicate SameLine(c: Crypto, o: Crypto) {
    c.tag == o.tag && c.suite == o.suite
  }

  ghost predicate Selects(lines: seq<Crypto>, offered: seq<Crypto>) {
    exists c <- lines, o <- offered :: SameLine(c, o)
  }

  /** SetSDESRemote and SetSDESLocal: the first key tried makes the side an SRTP
      side, even when it is refused. The key in force is taken again without
      effect; a new one is taken when ok says so. */
  function Takes(inForce: Option<Key>, c: Crypto, ok: bool): bool {
    inForce == Some(KeyOf(c)) || ok
  }

  /** commit; remoteOk and localOk are whether the media accepts the peer's key
      and then ours, where they are new. */
  function CommitIn(leg: Leg, p: Plan, hasMedia: bool, remoteOk: bool, localOk: bool): (Leg, bool) {
    if leg.policy == Off || p == Nothing then (leg, true)
    else if p == Plain then (if leg.on then leg else leg.(plain := true), true)
    else if !hasMedia then (leg, false)
    else if !Takes(leg.mediaPeer, p.peer, remoteOk) then (leg.(side := true), false)
    else
      var l := leg.(side := true, mediaPeer := Some(KeyOf(p.peer)));
      if !Takes(leg.mediaLocal, p.local, localOk) then (l, false)
      else (l.(mediaLocal := Some(KeyOf(p.local)), on := true, plain := false, local := p.local, peer := p.peer), true)
  }

  /** The program's session state. */
  class MediaSession {
    const policy: Policy
    var offered: Option<seq<Crypto>>
    var on: bool
    var plain: bool
    var local: Crypto
    var peer: Crypto
    var side: bool
    var mediaLocal: Option<Key>
    var mediaPeer: Option<Key>

    ghost function X(): Leg
      reads this
    {
      Leg(policy, offered, on, plain, local, peer, side, mediaLocal, mediaPeer)
    }

    constructor (policy: Policy)
      ensures X() == NewLeg(policy)
    {
      this.policy := policy;
      offered, on, plain, side, mediaLocal, mediaPeer := None, false, false, false, None, None;
      local, peer := Crypto(0, "", ""), Crypto(0, "", "");
    }

    method InitialOffer(made: Option<seq<Crypto>>) returns (r: Result<seq<Crypto>>)
      modifies this`offered
      ensures (X(), r) == InitialIn(old(X()), made)
    {
      if offered.None? {
        if made.None? {
          return Refused(KeyFailed);
        }
        offered := made;
      }
      return Ok(offered.value);
    }

    method SdesOffer(made: Option<seq<Crypto>>) returns (r: Result<seq<Crypto>>)
      modifies this`offered
      ensures (X(), r) == OfferIn(old(X()), made)
    {
      if policy == Off {
        return Ok([]);
      }
      if policy == Impossible {
        return Refused(Insecure);
      }
      if on {
        return Ok([local]);
      }
      if plain {
        return Ok([]);
      }
      r := InitialOffer(made);
    }

    method AnswerSet(initial: bool, made: Option<seq<Crypto>>) returns (r: Result<seq<Crypto>>)
      modifies this`offered
      ensures (X(), r) == AnswerSetIn(old(X()), initial, made)
    {
      if initial {
        r := InitialOffer(made);
      } else {
        r := SdesOffer(made);
      }
    }

    method PlanAnswer(a: Audio, made: Option<Crypto>) returns (r: Result<Plan>)
      ensures r == PlanIn(X(), a, made)
    {
      if policy == Off {
        return Ok(Nothing);
      }
      if policy == Impossible {
        return Refused(Insecure);
      }
      if !a.sdes {
        if on {
          return Refused(Downgrade);
        }
        if policy == Required {
          return Refused(RequiredHere);
        }
        return Ok(Plain);
      }
      if a.usable.None? {
        return Refused(NoCrypto);
      }
      var mine := local;
      if !on || local.suite != a.usable.value.suite {
        if made.None? {
          return Refused(KeyFailed);
        }
        mine := made.value;
      }
      mine := mine.(tag := a.usable.value.tag);
      return Ok(Keys(mine, a.usable.value));
    }

    /** checkAnswer: an answer must take one of the lines offered. */
    method CheckAnswer(a: Audio, lines: seq<Crypto>) returns (r: Result<Plan>)
      ensures policy == Off ==> r == Ok(Nothing)
      ensures policy == Impossible ==> r == Refused(Insecure)
      ensures policy != Off && policy != Impossible ==> CheckedIn(X(), a, lines, r)
    {
      if policy == Off {
        return Ok(Nothing);
      }
      if policy == Impossible {
        return Refused(Insecure);
      }
      if |lines| == 0 {
        return if a.sdes then Refused(BadAnswer) else Ok(Plain);
      }
      if !a.sdes {
        if on {
          return Refused(Downgrade);
        }
        if policy == Required {
          return Refused(RequiredHere);
        }
        return Ok(Plain);
      }
      for i := 0 to |a.lines|
        invariant forall c <- a.lines[..i], o <- lines :: !SameLine(c, o)
      {
        for j := 0 to |lines|
          invariant forall o <- lines[..j] :: !SameLine(a.lines[i], o)
        {
          assert lines[..j + 1] == lines[..j] + [lines[j]];
          if a.lines[i].tag == lines[j].tag && a.lines[i].suite == lines[j].suite {
            assert a.lines[i] in a.lines && lines[j] in lines && SameLine(a.lines[i], lines[j]);
            return Ok(Keys(lines[j], a.lines[i]));
          }
        }
        assert lines[..|lines|] == lines && a.lines[..i + 1] == a.lines[..i] + [a.lines[i]];
      }
      assert a.lines[..|a.lines|] == a.lines;
      return if |a.lines| == 0 then Refused(NoCrypto) else Refused(BadAnswer);
    }

    /** SetSDESRemote. */
    method SetRemote(k: Key, accepted: bool) returns (ok: bool)
      modifies this`side, this`mediaPeer
      ensures side && ok == (old(mediaPeer) == Some(k) || accepted)
      ensures mediaPeer == if ok then Some(k) else old(mediaPeer)
    {
      side := true;
      if mediaPeer == Some(k) {
        return true;
      }
      if accepted {
        mediaPeer := Some(k);
      }
      return accepted;
    }

    /** SetSDESLocal. */
    method SetLocal(k: Key, accepted: bool) returns (ok: bool)
      modifies this`side, this`mediaLocal
      ensures side && ok == (old(mediaLocal) == Some(k) || accepted)
      ensures mediaLocal == if ok then Some(k) else old(mediaLocal)
    {
      side := true;
      if mediaLocal == Some(k) {
        return true;
      }
      if accepted {
        mediaLocal := Some(k);
      }
      return accepted;
    }

    method Commit(p: Plan, hasMedia: bool, remoteOk: bool, localOk: bool) returns (ok: bool)
      modifies this`on, this`plain, this`local, this`peer, this`side, this`mediaLocal, this`mediaPeer
      ensures (X(), ok) == CommitIn(old(X()), p, hasMedia, remoteOk, localOk)
    {
      if policy == Off || p == Nothing {
        return true;
      }
      if p == Plain {
        if !on {
          plain := true;
        }
        return true;
      }
      if !hasMedia {
        return false;
      }
      ok := SetRemote(KeyOf(p.peer), remoteOk);
      if !ok {
        return false;
      }
      ok := SetLocal(KeyOf(p.local), localOk);
      if !ok {
        return false;
      }
      on, plain := true, false;
      local, peer := p.local, p.peer;
      return true;
    }
  }

  function NewLeg(policy: Policy): Leg {
    Leg(policy, None, false, false, Crypto(0, "", ""), Crypto(0, "", ""), false, None, None)
  }

  /** What an answer to the lines offered can come to: plain where plain is
      allowed, or one of the lines, which the answer repeats with the peer's key;
      refused exactly when it takes none. */
  ghost predicate CheckedIn(leg: Leg, a: Audio, offered: seq<Crypto>, r: Result<Plan>) {
    if offered == [] then r == if a.sdes then Refused(BadAnswer) else Ok(Plain)
    else if !a.sdes then
      r == if leg.on then Refused(Downgrade) else if leg.policy == Required then Refused(RequiredHere) else Ok(Plain)
    else if Selects(a.lines, offered) then
      r.Ok? && r.value.Keys? && r.value.local in offered && r.value.peer in a.lines && SameLine(r.value.peer, r.value.local)
    else r == Refused(if a.lines == [] then NoCrypto else BadAnswer)
  }

  // ---- Every interleaving --------------------------------------------------------------

  /** offers are the line sets handed out so far, plans the plans made. */
  datatype System = System(leg: Leg, offers: seq<seq<Crypto>>, plans: seq<Plan>)

  datatype Step =
    | MakeOffer(made: Option<seq<Crypto>>)
    | MakeAnswerSet(initial: bool, made: Option<seq<Crypto>>)
    | PlanTheirs(a: Audio, key: Option<Crypto>)
    | CheckTheirs(a: Audio, i: nat, r: Result<Plan>)
    | CommitPlan(i: nat, hasMedia: bool, remoteOk: bool, localOk: bool)

  /** The step is one the program can take: new line sets are not empty, an answer
      is checked against an offer that was made. */
  ghost predicate Enabled(s: System, step: Step) {
    match step
    case MakeOffer(made) => made.Some? ==> made.value != []
    case MakeAnswerSet(_, made) => s.leg.policy != Off && (made.Some? ==> made.value != [])
    case PlanTheirs(_, _) => true
    case CheckTheirs(a, i, r) =>
      && i < |s.offers|
      && (s.leg.policy == Off ==> r == Ok(Nothing)) && (s.leg.policy == Impossible ==> r == Refused(Insecure))
      && (s.leg.policy != Off && s.leg.policy != Impossible ==> CheckedIn(s.leg, a, s.offers[i], r))
    case CommitPlan(i, _, _, _) => i < |s.plans|
  }

  function Noted<T>(list: seq<T>, r: Result<T>): seq<T> {
    if r.Ok? then list + [r.value] else list
  }

  function Next(s: System, step: Step): System {
    match step
    case MakeOffer(made) =>
      var (leg, r) := OfferIn(s.leg, made);
      System(leg, Noted(s.offers, r), s.plans)
    case MakeAnswerSet(initial, made) =>
      var (leg, r) := AnswerSetIn(s.leg, initial, made);
      System(leg, Noted(s.offers, r), s.plans)
    case PlanTheirs(a, made) => s.(plans := Noted(s.plans, PlanIn(s.leg, a, made)))
    case CheckTheirs(_, _, r) => s.(plans := Noted(s.plans, r))
    case CommitPlan(i, hasMedia, remoteOk, localOk) =>
      if i < |s.plans| then s.(leg := CommitIn(s.leg, s.plans[i], hasMedia, remoteOk, localOk).0) else s
  }

  ghost predicate Runs(s: System, steps: seq<Step>, t: System)
    decreases |steps|
  {
    if steps == [] then t == s else Enabled(s, steps[0]) && Runs(Next(s, steps[0]), steps[1..], t)
  }

  function Start(policy: Policy): System {
    System(NewLeg(policy), [], [])
  }

  ghost predicate Inv(s: System) {
    && !(s.leg.on && s.leg.plain)
    && (s.leg.offered.Some? ==> s.leg.offered.value != [])
    && (s.leg.policy == Required ==> !s.leg.plain && (forall o <- s.offers :: o != []) && forall p <- s.plans :: p != Plain)
    && (s.leg.policy == Impossible ==> !s.leg.on && !s.leg.plain && s.plans == [])
    && (s.leg.policy == Off ==> !s.leg.on && !s.leg.plain && forall p <- s.plans :: p == Nothing)
  }

  lemma InvStep(s: System, step: Step)
    requires Inv(s) && Enabled(s, step)
    ensures Inv(Next(s, step)) && Next(s, step).leg.policy == s.leg.policy
    ensures s.leg.on ==> Next(s, step).leg.on
  {
    if step.CheckTheirs? {
      assert s.offers[step.i] in s.offers;
    } else if step.CommitPlan? {
      assert s.plans[step.i] in s.plans;
    }
  }

  lemma {:induction false} InvRuns(s: System, steps: seq<Step>, t: System)
    requires Inv(s) && Runs(s, steps, t)
    ensures Inv(t) && t.leg.policy == s.leg.policy && (s.leg.on ==> t.leg.on)
    decreases |steps|
  {
    hide Next, Enabled, Inv;
    if steps != [] {
      InvStep(s, steps[0]);
      InvRuns(Next(s, steps[0]), steps[1..], t);
    }
  }

  /** Over every interleaving a leg is never both SRTP and settled on plain, one
      that requires SRTP never settles on plain, one that cannot have it has
      neither. */
  lemma PolicyKept(policy: Policy, steps: seq<Step>, t: System)
    requires Runs(Start(policy), steps, t)
    ensures !(t.leg.on && t.leg.plain)
    ensures policy == Required ==> !t.leg.plain
    ensures policy == Impossible || policy == Off ==> !t.leg.on && !t.leg.plain
  {
    InvRuns(Start(policy), steps, t);
  }

  /** Once a leg is on SRTP it stays so, whatever is planned and committed. */
  lemma NeverBackToPlain(policy: Policy, before: seq<Step>, s: System, steps: seq<Step>, t: System)
    requires Runs(Start(policy), before, s) && s.leg.on && Runs(s, steps, t)
    ensures t.leg.on && !t.leg.plain
  {
    InvRuns(Start(policy), before, s);
    InvRuns(s, steps, t);
  }

  /** Only a commit touches the state or the keys: a refused re-offer leaves the
      keys in force as they are. */
  lemma {:induction false} PlanningChangesNothing(s: System, steps: seq<Step>, t: System)
    requires Runs(s, steps, t) && forall step <- steps :: !step.CommitPlan?
    ensures t.leg.(offered := None) == s.leg.(offered := None)
    ensures s.leg.offered.Some? ==> t.leg.offered == s.leg.offered
    decreases |steps|
  {
    hide Next, Enabled;
    if steps != [] {
      assert steps[0] in steps;
      PlanningStep(s, steps[0]);
      PlanningChangesNothing(Next(s, steps[0]), steps[1..], t);
    }
  }

  lemma PlanningStep(s: System, step: Step)
    requires !step.CommitPlan?
    ensures var leg := Next(s, step).leg;
      leg.(offered := None) == s.leg.(offered := None) && (s.leg.offered.Some? ==> leg.offered == s.leg.offered)
  {
  }

  /** A re-offer on an SRTP leg offers the key in force, and an answer to one
      that keeps the suite keeps the key. */
  lemma KeyKept(leg: Leg, a: Audio, made: Option<Crypto>, lines: Option<seq<Crypto>>)
    requires leg.on && leg.policy != Off && leg.policy != Impossible
    ensures OfferIn(leg, lines) == (leg, Ok([leg.local]))
    ensures a.sdes && a.usable.Some? && a.usable.value.suite == leg.local.suite ==>
      PlanIn(leg, a, made) == Ok(Keys(leg.local.(tag := a.usable.value.tag), a.usable.value))
  {
  }

  // ---- State and media -----------------------------------------------------------------

  /** The media does what the leg's state says: SRTP with the state's keys, or
      plain RTP with none. */
  predicate MediaAgrees(leg: Leg) {
    && leg.side == leg.on
    && (leg.on ==> leg.mediaLocal == Some(KeyOf(leg.local)) && leg.mediaPeer == Some(KeyOf(leg.peer)))
    && (!leg.on ==> leg.mediaLocal.None? && leg.mediaPeer.None?)
  }

  /** An SRTP side drops what goes in a direction without a key. */
  predicate Drops(leg: Leg) {
    leg.side && (leg.mediaLocal.None? || leg.mediaPeer.None?)
  }

  /** The media is given the plan's keys and refuses one it does not use yet: on
      an SRTP leg our new key, after it took the peer's new one; on any other leg
      either key. */
  predicate Parts(leg: Leg, p: Plan, hasMedia: bool, remoteOk: bool, localOk: bool) {
    && leg.policy != Off && p.Keys? && hasMedia
    && if leg.on then
         KeyOf(p.peer) != KeyOf(leg.peer) && remoteOk && KeyOf(p.local) != KeyOf(leg.local) && !localOk
       else !remoteOk || !localOk
  }

  /** A commit parts media and state exactly so, and media is dropped exactly
      when that happens to a leg that is not on SRTP. */
  lemma MediaAgreesIff(leg: Leg, p: Plan, hasMedia: bool, remoteOk: bool, localOk: bool)
    requires MediaAgrees(leg)
    ensures var l := CommitIn(leg, p, hasMedia, remoteOk, localOk).0;
      && (MediaAgrees(l) <==> !Parts(leg, p, hasMedia, remoteOk, localOk))
      && (Drops(l) <==> !leg.on && Parts(leg, p, hasMedia, remoteOk, localOk))
  {
  }

  /** However far apart they were, a commit of keys that succeeds brings them
      together. */
  lemma CommitRestores(leg: Leg, p: Plan, hasMedia: bool, remoteOk: bool, localOk: bool)
    requires leg.policy != Off && p.Keys? && CommitIn(leg, p, hasMedia, remoteOk, localOk).1
    ensures MediaAgrees(CommitIn(leg, p, hasMedia, remoteOk, localOk).0)
  {
  }

  /** Whatever is offered, planned and committed, in any order: state and media
      stay together as long as the media refuses no key. */
  lemma {:induction false} MediaAgreesOverRuns(s: System, steps: seq<Step>, t: System)
    requires MediaAgrees(s.leg) && Runs(s, steps, t)
    requires forall step <- steps :: step.CommitPlan? && step.hasMedia ==> step.remoteOk && step.localOk
    ensures MediaAgrees(t.leg)
    decreases |steps|
  {
    if steps != [] {
      var step := steps[0];
      assert step in steps;
      if step.CommitPlan? {
        MediaAgreesIff(s.leg, s.plans[step.i], step.hasMedia, step.remoteOk, step.localOk);
      }
      MediaAgreesOverRuns(Next(s, step), steps[1..], t);
    }
  }

  /** A leg that settled on plain RTP is sent a key the media refuses: the state
      stays plain, and the media drops every packet. */
  lemma RefusedKeyDropsPlainMedia(theirs: Crypto, made: Crypto)
    ensures var plain, srtp := Audio(false, [], None), Audio(true, [theirs], Some(theirs));
      var steps := [PlanTheirs(plain, None), CommitPlan(0, true, true, true),
        PlanTheirs(srtp, Some(made)), CommitPlan(1, true, false, true)];
      exists t :: Runs(Start(Optional), steps, t) && t.leg.plain && !t.leg.on && Drops(t.leg)
  {
    var first := PlanTheirs(Audio(false, [], None), None);
    var third := PlanTheirs(Audio(true, [theirs], Some(theirs)), Some(made));
    var commits := (CommitPlan(0, true, true, true), CommitPlan(1, true, false, true));
    var s1 := Next(Start(Optional), first);
    var s2 := Next(s1, commits.0);
    var s3 := Next(s2, third);
    var t := Next(s3, commits.1);
    assert s1.plans == [Plain] && s2.leg.plain && s3.plans[1].Keys?;
    FourSteps(Start(Optional), first, commits.0, third, commits.1, t);
  }

  lemma FourSteps(s: System, a: Step, b: Step, c: Step, d: Step, t: System)
    requires Enabled(s, a) && Enabled(Next(s, a), b) && Enabled(Next(Next(s, a), b), c)
    requires Enabled(Next(Next(Next(s, a), b), c), d) && t == Next(Next(Next(Next(s, a), b), c), d)
    ensures Runs(s, [a, b, c, d], t)
  {
    hide Next, Enabled;
    var steps := [a, b, c, d];
    assert steps[1..] == [b, c, d] && [b, c, d][1..] == [c, d] && [c, d][1..] == [d] && [d][1..] == [];
    assert Runs(t, [], t);
    assert Runs(Next(Next(Next(s, a), b), c), [d], t);
    assert Runs(Next(Next(s, a), b), [c, d], t);
    assert Runs(Next(s, a), [b, c, d], t);
  }

  /** An SRTP leg is re-keyed, the media takes the peer's key and refuses ours:
      the peer is heard under its new key while the state keeps the old one. */
  lemma RefusedKeyPartsSrtp(leg: Leg, p: Plan)
    requires MediaAgrees(leg) && leg.on && leg.policy != Off && p.Keys?
    requires KeyOf(p.peer) != KeyOf(leg.peer) && KeyOf(p.local) != KeyOf(leg.local)
    ensures var (l, ok) := CommitIn(leg, p, true, true, false);
      !ok && l.on && l.peer == leg.peer && l.mediaPeer == Some(KeyOf(p.peer)) && l.mediaPeer != Some(KeyOf(l.peer))
  {
  }

  // ---- A negotiation ---------------------------------------------------------------------

  /** A fresh leg's offer, answered with one of its lines: the leg is on SRTP with that
      line's key for what is sent and the answer's key for what is received, and its
      next offer repeats the line. */
  lemma OfferAnswered(policy: Policy, lines: seq<Crypto>, a: Audio, r: Result<Plan>, more: Option<seq<Crypto>>)
    requires (policy == Optional || policy == Required) && lines != [] && a.sdes && Selects(a.lines, lines)
    requires CheckedIn(OfferIn(NewLeg(policy), Some(lines)).0, a, lines, r)
    ensures var (leg, offered) := OfferIn(NewLeg(policy), Some(lines));
      && offered == Ok(lines) && r.Ok? && r.value.Keys?
      && var (after, ok) := CommitIn(leg, r.value, true, true, true);
        && ok && after.on && !after.plain && after.local in lines && after.peer in a.lines
        && after.local.tag == after.peer.tag && after.local.suite == after.peer.suite
        && after.mediaLocal == Some(KeyOf(after.local)) && after.mediaPeer == Some(KeyOf(after.peer))
        && OfferIn(after, more) == (after, Ok([after.local]))
  {
  }

  /** The same offer answered plain: an optional leg settles on plain RTP, and offers
      nothing from then on; a required one refuses. */
  lemma OfferAnsweredPlain(policy: Policy, lines: seq<Crypto>, a: Audio, r: Result<Plan>, more: Option<seq<Crypto>>)
    requires (policy == Optional || policy == Required) && lines != [] && !a.sdes
    requires CheckedIn(OfferIn(NewLeg(policy), Some(lines)).0, a, lines, r)
    ensures var leg := OfferIn(NewLeg(policy), Some(lines)).0;
      if policy == Required then r == Refused(RequiredHere)
      else
        && r == Ok(Plain)
        && var (after, ok) := CommitIn(leg, Plain, true, true, true);
          ok && after.plain && !after.on && after.mediaLocal.None? && OfferIn(after, more) == (after, Ok([]))
  {
  }

  /** The far end's offer on a leg with a policy: with a usable line it is answered
      under that line's tag, the peer's key being the line's; plain where plain is
      allowed. */
  lemma OfferPlanned(leg: Leg, a: Audio, made: Crypto)
    requires leg.policy == Optional || leg.policy == Required
    ensures a.sdes && a.usable.Some? ==>
      var r := PlanIn(leg, a, Some(made));
      && r.Ok? && r.value.Keys? && r.value.peer == a.usable.value && r.value.local.tag == a.usable.value.tag
      && KeyOf(r.value.local) ==
        if leg.on && leg.local.suite == a.usable.value.suite then KeyOf(leg.local) else KeyOf(made)
    ensures a.sdes && a.usable.None? ==> PlanIn(leg, a, Some(made)) == Refused(NoCrypto)
    ensures !a.sdes && leg.on ==> PlanIn(leg, a, Some(made)) == Refused(Downgrade)
    ensures !a.sdes && !leg.on ==>
      PlanIn(leg, a, Some(made)) == (if leg.policy == Required then Refused(RequiredHere) else Ok(Plain))
  {
  }
}
