/**
 The subscription records (internal/edge/subscribe.go) and the protocol that
 keeps them no longer than their registration bindings.

 Each record is charged to a binding, named by its token. The location table
 hands the tokens of removed bindings over only after its own lock is dropped,
 so a removal, the hand-over, the insertion of a record and the second look at
 the binding interleave in any order. A record is named by a handle.
 */
module Subscriptions {
  import Index
  import opened Options

  type Token = string

  datatype Plane = Public | Private

  datatype SubState = Pending | Active

  datatype Method = SUBSCRIBE | NOTIFY | OtherMethod

  datatype Sub = Sub(
    callID: string, subTag: string, notTag: string, token: Token, plane: Plane, deadline: int, state: SubState,
    ended: bool)

  /** subExpiryMargin, in seconds. */
  const MARGIN: int := 32

  type Subs = map<nat, Sub>

  function CallIDOf(r: Sub): string { r.callID }
  function TokenOf(r: Sub): Token { r.token }

  function Open(recs: Subs): Subs {
    map h | h in recs && !recs[h].ended :: recs[h]
  }

  function EndOne(recs: Subs, h: nat): Subs {
    if h in recs then recs[h := recs[h].(ended := true)] else recs
  }

  /** recs with the records in gone ended. */
  function EndSet(recs: Subs, gone: set<nat>): Subs {
    map h | h in recs :: if h in gone then recs[h].(ended := true) else recs[h]
  }

  function Charged(recs: Subs, tokens: set<Token>): set<nat> {
    set h | h in recs && recs[h].token in tokens && !recs[h].ended
  }

  function Overdue(recs: Subs, now: int): set<nat> {
    set h | h in recs && now >= recs[h].deadline && !recs[h].ended
  }

  // ---- The table -----------------------------------------------------------------

  datatype Table = Table(recs: Subs, byCallID: map<string, seq<nat>>, byToken: map<Token, seq<nat>>, total: int)

  ghost predicate Agree(t: Table) {
    && Index.Agrees(t.byCallID, Open(t.recs), CallIDOf)
    && Index.Agrees(t.byToken, Open(t.recs), TokenOf)
    && t.total == |Open(t.recs)|
  }

  function BeginIn(t: Table, h: nat, r: Sub): Table {
    Table(t.recs[h := r], Index.Add(t.byCallID, r.callID, h), Index.Add(t.byToken, r.token, h), t.total + 1)
  }

  function EndIn(t: Table, h: nat): Table
    requires h in t.recs
  {
    var r := t.recs[h];
    if r.ended then t
    else
      Table(EndOne(t.recs, h), Index.Drop(t.byCallID, r.callID, h), Index.Drop(t.byToken, r.token, h), t.total - 1)
  }

  lemma BeginAgrees(t: Table, h: nat, r: Sub)
    requires Agree(t) && h !in t.recs && !r.ended
    ensures Agree(BeginIn(t, h, r))
  {
    hide Index.Agrees;
    assert Open(t.recs[h := r]) == Open(t.recs)[h := r];
    Index.AddAgrees(t.byCallID, Open(t.recs), CallIDOf, h, r);
    Index.AddAgrees(t.byToken, Open(t.recs), TokenOf, h, r);
  }

  lemma EndAgrees(t: Table, h: nat)
    requires Agree(t) && h in t.recs
    ensures Agree(EndIn(t, h))
  {
    hide Index.Agrees;
    if !t.recs[h].ended {
      assert Open(EndOne(t.recs, h)) == Open(t.recs) - {h};
      assert (Open(t.recs) - {h})[h := t.recs[h]] == Open(t.recs);
      Index.DropAgrees(t.byCallID, Open(t.recs), CallIDOf, h);
      Index.DropAgrees(t.byToken, Open(t.recs), TokenOf, h);
    }
  }

  /** A record may change in everything but its keys. */
  lemma UpdateAgrees(t: Table, h: nat, r: Sub)
    requires Agree(t) && h in t.recs && !t.recs[h].ended && !r.ended
    requires r.callID == t.recs[h].callID && r.token == t.recs[h].token
    ensures Agree(t.(recs := t.recs[h := r]))
  {
    hide Index.Agrees;
    assert Open(t.recs[h := r]) == Open(t.recs)[h := r];
    assert Open(t.recs)[h := r].Keys == Open(t.recs).Keys;
    Index.UpdateAgrees(t.byCallID, Open(t.recs), CallIDOf, h, r);
    Index.UpdateAgrees(t.byToken, Open(t.recs), TokenOf, h, r);
  }

  /** A list of either index holds the open records of its key, each once. */
  lemma TokenGroup(t: Table, tok: Token)
    requires Agree(t)
    ensures var list := Index.Group(t.byToken, tok);
      Index.Distinct(list) && forall h :: h in list <==> h in t.recs && t.recs[h].token == tok && !t.recs[h].ended
  {
    hide Index.Agrees;
    Index.GroupMembers(t.byToken, Open(t.recs), TokenOf, tok);
  }

  lemma CallGroup(t: Table, callID: string)
    requires Agree(t)
    ensures var list := Index.Group(t.byCallID, callID);
      Index.Distinct(list) && forall h :: h in list <==> h in t.recs && t.recs[h].callID == callID && !t.recs[h].ended
  {
    hide Index.Agrees;
    Index.GroupMembers(t.byCallID, Open(t.recs), CallIDOf, callID);
  }

  ghost predicate WithinCaps(t: Table, max: int, maxPer: int) {
    t.total <= max && forall tok :: tok in t.byToken ==> |t.byToken[tok]| <= maxPer
  }

  lemma Totals(t: Table)
    requires Agree(t)
    ensures t.total == |Open(t.recs)|
  {
  }

  lemma BeginWithinCaps(t: Table, h: nat, r: Sub, max: int, maxPer: int)
    requires WithinCaps(t, max, maxPer) && t.total < max && |Index.Group(t.byToken, r.token)| < maxPer
    ensures WithinCaps(BeginIn(t, h, r), max, maxPer)
  {
  }

  lemma EndWithinCaps(t: Table, h: nat, max: int, maxPer: int)
    requires Agree(t) && WithinCaps(t, max, maxPer) && h in t.recs
    ensures WithinCaps(EndIn(t, h), max, maxPer)
  {
    if !t.recs[h].ended {
      var tok := t.recs[h].token;
      TokenGroup(t, tok);
      Index.WithoutDistinct(Index.Group(t.byToken, tok), h);
    }
  }

  datatype SubBegin = BeginOK | BeginFull | BeginPerBindingFull | BeginClosed

  /** Which end of c a request with these tags comes from, if it names c and the
      method suits that end: Some(true) for the subscriber. */
  function NamedBy(c: Sub, fromTag: string, toTag: string, arrived: Plane, m: Method): Option<bool> {
    if c.state == Active && c.subTag == fromTag && c.notTag == toTag && arrived == c.plane then
      if m == NOTIFY then None else Some(true)
    else if c.state == Active && c.notTag == fromTag && c.subTag == toTag && arrived != c.plane then
      if m == SUBSCRIBE then None else Some(false)
    else if c.state == Pending && c.subTag == toTag && arrived != c.plane && (c.notTag == "" || c.notTag == fromTag) then
      if m == SUBSCRIBE then None else Some(false)
    else None
  }

  /** The subscriber's request names an active record by its tag and the notifier's,
      on the subscriber's plane, and is no NOTIFY; the notifier's, on the other
      plane and no SUBSCRIBE, names an active one by the tags the other way round, a
      pending one by the subscriber's tag alone until it has learnt another. */
  lemma NamedIff(c: Sub, fromTag: string, toTag: string, arrived: Plane, m: Method)
    ensures NamedBy(c, fromTag, toTag, arrived, m) == Some(true) <==>
      c.state == Active && fromTag == c.subTag && toTag == c.notTag && arrived == c.plane && m != NOTIFY
    ensures NamedBy(c, fromTag, toTag, arrived, m) == Some(false) <==>
      && toTag == c.subTag && arrived != c.plane && m != SUBSCRIBE
      && (fromTag == c.notTag || (c.state == Pending && c.notTag == ""))
  {
  }

  /** What is left open of records ended by token or by the clock, and that nothing
      else of them changes. */
  lemma LeftOpen(recs: Subs, tokens: set<Token>, now: int, h: nat)
    requires h in recs
    ensures var dropped, pruned := EndSet(recs, Charged(recs, tokens)), EndSet(recs, Overdue(recs, now));
      && dropped.Keys == recs.Keys == pruned.Keys
      && dropped[h] == recs[h].(ended := recs[h].ended || recs[h].token in tokens)
      && pruned[h] == recs[h].(ended := recs[h].ended || recs[h].deadline <= now)
  {
  }

  predicate NobodyNamed(recs: Subs, callID: string, fromTag: string, toTag: string, arrived: Plane, m: Method) {
    forall h <- recs :: recs[h].callID == callID && !recs[h].ended ==>
      NamedBy(recs[h], fromTag, toTag, arrived, m) == None
  }

  ghost predicate NoneNamed(recs: Subs, list: seq<nat>, fromTag: string, toTag: string, arrived: Plane, m: Method) {
    forall h <- list :: h in recs && NamedBy(recs[h], fromTag, toTag, arrived, m) == None
  }

  /** Entry k of the list is h, and no entry before it is named. */
  ghost predicate FirstNamed(recs: Subs, list: seq<nat>, k: nat, h: nat, fromTag: string, toTag: string, arrived: Plane,
    m: Method)
  {
    k < |list| && list[k] == h && NoneNamed(recs, list[..k], fromTag, toTag, arrived, m)
  }

  lemma NothingNamed(recs: Subs, fromTag: string, toTag: string, arrived: Plane, m: Method)
    ensures NoneNamed(recs, [], fromTag, toTag, arrived, m)
  {
  }

  lemma FirstHere(recs: Subs, list: seq<nat>, i: nat, fromTag: string, toTag: string, arrived: Plane, m: Method)
    requires i < |list| && NoneNamed(recs, list[..i], fromTag, toTag, arrived, m)
    ensures FirstNamed(recs, list, i, list[i], fromTag, toTag, arrived, m)
    ensures list[i] in recs && NamedBy(recs[list[i]], fromTag, toTag, arrived, m) == None ==>
      NoneNamed(recs, list[..i] + [list[i]], fromTag, toTag, arrived, m)
  {
  }

  lemma NobodyInList(recs: Subs, callID: string, list: seq<nat>, fromTag: string, toTag: string, arrived: Plane,
    m: Method)
    requires NoneNamed(recs, list, fromTag, toTag, arrived, m)
    requires forall h :: h in list <==> h in recs && recs[h].callID == callID && !recs[h].ended
    ensures NobodyNamed(recs, callID, fromTag, toTag, arrived, m)
  {
  }

  lemma SomebodyNamed(recs: Subs, h: nat, fromTag: string, toTag: string, arrived: Plane, m: Method)
    requires h in recs && !recs[h].ended
    ensures NamedBy(recs[h], fromTag, toTag, arrived, m).Some? ==>
      !NobodyNamed(recs, recs[h].callID, fromTag, toTag, arrived, m)
  {
  }

  class SubTable {
    var recs: Subs
    var byCallID: map<string, seq<nat>>
    var byToken: map<Token, seq<nat>>
    var total: int
    var closed: bool
    const max: int
    const maxPer: int

    ghost function X(): Table
      reads this
    {
      Table(recs, byCallID, byToken, total)
    }

    ghost predicate Valid()
      reads this
    {
      Agree(X()) && WithinCaps(X(), max, maxPer)
    }

    constructor (max: nat, maxPer: nat)
      ensures Valid() && recs == map[] && !closed && this.max == max && this.maxPer == maxPer
    {
      recs, byCallID, byToken, total, closed := map[], map[], map[], 0, false;
      this.max, this.maxPer := max, maxPer;
    }

    /** begin: h is the handle of the record to make. */
    method Begin(h: nat, callID: string, subTag: string, token: Token, plane: Plane, now: int)
      returns (result: SubBegin)
      requires Valid() && h !in recs
      modifies this
      ensures Valid() && closed == old(closed)
      ensures recs ==
        if result == BeginOK then
          old(recs)[h := Sub(callID, subTag, "", token, plane, now + 64, Pending, false)]
        else old(recs)
      ensures result == BeginOK <==>
        !closed && |Open(old(recs))| < max && |Charged(old(recs), {token})| < maxPer
      ensures result == BeginClosed <==> closed
      ensures result == BeginFull <==> !closed && |Open(old(recs))| >= max
    {
      hide Agree, WithinCaps, Open, Charged;
      var r := Sub(callID, subTag, "", token, plane, now + 2 * MARGIN, Pending, false);
      ChargedCount(X(), r.token);
      Totals(X());
      if closed {
        return BeginClosed;
      }
      if total >= max {
        return BeginFull;
      }
      if |Index.Group(byToken, r.token)| >= maxPer {
        return BeginPerBindingFull;
      }
      BeginAgrees(X(), h, r);
      BeginWithinCaps(X(), h, r, max, maxPer);
      Enter(h, r);
      return BeginOK;
    }

    method Enter(h: nat, r: Sub)
      modifies this`recs, this`byCallID, this`byToken, this`total
      ensures X() == BeginIn(old(X()), h, r)
    {
      recs := recs[h := r];
      byCallID := byCallID[r.callID := Index.Group(byCallID, r.callID) + [h]];
      byToken := byToken[r.token := Index.Group(byToken, r.token) + [h]];
      total := total + 1;
    }

    /** confirm: learns the notifier's tag and the granted expiry. */
    method Confirm(h: nat, notTag: string, expires: int, now: int) returns (ok: bool)
      requires Valid() && h in recs
      modifies this`recs
      ensures Valid()
      ensures ok == (!old(recs)[h].ended && notTag != "")
      ensures recs ==
        if ok then old(recs)[h := old(recs)[h].(notTag := notTag, state := Active, deadline := now + expires + 32)]
        else old(recs)
    {
      hide Index.Agrees, Open;
      if recs[h].ended || notTag == "" {
        return false;
      }
      var r := recs[h].(notTag := notTag, state := Active, deadline := now + expires + MARGIN);
      UpdateAgrees(X(), h, r);
      recs := recs[h := r];
      return true;
    }

    /** The pending record h takes on the notifier's tag. */
    method Learn(h: nat, tag: string)
      requires Valid() && h in recs && !recs[h].ended
      modifies this`recs
      ensures Valid() && recs == old(recs)[h := old(recs)[h].(notTag := tag)]
    {
      hide Index.Agrees, Open;
      var c := recs[h];
      UpdateAgrees(X(), h, c.(notTag := tag));
      recs := recs[h := c.(notTag := tag)];
    }

    /** lookup: the first record of the Call-ID the request names, and which end
        sent it. A NOTIFY that names a pending record teaches it the notifier's
        tag. */
    method Lookup(callID: string, fromTag: string, toTag: string, arrived: Plane, m: Method)
      returns (found: Option<nat>, fromSubscriber: bool, ghost at: nat)
      requires Valid()
      modifies this`recs
      ensures Valid()
      ensures fromTag == "" || toTag == "" ==> found.None?
      ensures fromTag != "" && toTag != "" ==>
        (found.None? <==> NobodyNamed(old(recs), callID, fromTag, toTag, arrived, m))
      ensures found.None? ==> recs == old(recs)
      ensures found.Some? ==>
        && found.value in old(recs)
        && var c := old(recs)[found.value];
          && c.callID == callID && !c.ended && NamedBy(c, fromTag, toTag, arrived, m) == Some(fromSubscriber)
          && recs == old(recs)[found.value := if c.state == Pending then c.(notTag := fromTag) else c]
      ensures found.Some? ==> FirstNamed(old(recs), Index.Group(byCallID, callID), at, found.value, fromTag, toTag, arrived, m)
    {
      hide Agree, WithinCaps, Open, NobodyNamed, FirstNamed, NoneNamed;
      NothingNamed(recs, fromTag, toTag, arrived, m);
      at := 0;
      if fromTag == "" || toTag == "" {
        return None, false, at;
      }
      var list := Index.Group(byCallID, callID);
      CallGroup(X(), callID);
      for i := 0 to |list|
        invariant recs == old(recs)
        invariant NoneNamed(recs, list[..i], fromTag, toTag, arrived, m)
      {
        var h := list[i];
        assert h in list && list[..i + 1] == list[..i] + [h];
        FirstHere(recs, list, i, fromTag, toTag, arrived, m);
        var c := recs[h];
        SomebodyNamed(recs, h, fromTag, toTag, arrived, m);
        if c.state == Active && c.subTag == fromTag && c.notTag == toTag && arrived == c.plane {
          if m == NOTIFY {
            continue;
          }
          assert recs[h := c] == recs;
          return Some(h), true, i;
        } else if c.state == Active && c.notTag == fromTag && c.subTag == toTag && arrived != c.plane {
          if m == SUBSCRIBE {
            continue;
          }
          assert recs[h := c] == recs;
          return Some(h), false, i;
        } else if c.state == Pending && c.subTag == toTag && arrived != c.plane && (c.notTag == "" || c.notTag == fromTag) {
          if m == SUBSCRIBE {
            continue;
          }
          Learn(h, fromTag);
          return Some(h), false, i;
        }
      }
      assert list[..|list|] == list;
      NobodyInList(recs, callID, list, fromTag, toTag, arrived, m);
      return None, false, at;
    }

    /** endLocked. It is idempotent. */
    method End(h: nat)
      requires Valid() && h in recs
      modifies this`recs, this`byCallID, this`byToken, this`total
      ensures Valid() && recs == EndOne(old(recs), h)
    {
      hide Index.Agrees, Open;
      if recs[h].ended {
        assert EndOne(recs, h) == recs;
        return;
      }
      EndAgrees(X(), h);
      EndWithinCaps(X(), h, max, maxPer);
      var r := recs[h];
      recs := recs[h := r.(ended := true)];
      var calls := RemoveSub(Index.Group(byCallID, r.callID), h);
      byCallID := if |calls| == 0 then byCallID - {r.callID} else byCallID[r.callID := calls];
      var charged := RemoveSub(Index.Group(byToken, r.token), h);
      byToken := if |charged| == 0 then byToken - {r.token} else byToken[r.token := charged];
      total := total - 1;
    }

    static method RemoveSub(list: seq<nat>, h: nat) returns (r: seq<nat>)
      ensures r == Index.Without(list, h)
    {
      for i := 0 to |list|
        invariant h !in list[..i]
      {
        if list[i] == h {
          Index.WithoutAt(list, i);
          return list[..i] + list[i + 1..];
        }
      }
      assert list[..|list|] == list;
      return list;
    }

    method EndList(list: seq<nat>)
      requires Valid() && forall h <- list :: h in recs
      modifies this`recs, this`byCallID, this`byToken, this`total
      ensures Valid() && recs == EndSet(old(recs), Index.Elems(list))
    {
      hide Index.Agrees, Open, Agree, WithinCaps;
      assert EndSet(recs, Index.Elems(list[..0])) == recs;
      for i := 0 to |list|
        invariant Valid() && recs == EndSet(old(recs), Index.Elems(list[..i]))
      {
        assert list[..i + 1] == list[..i] + [list[i]] && list[i] in list;
        EndMore(old(recs), Index.Elems(list[..i]), list[i]);
        Index.ElemsSnoc(list[..i], list[i]);
        End(list[i]);
      }
      assert list[..|list|] == list;
    }

    /** dropTokens: ends every record charged to one of the tokens. */
    method DropTokens(tokens: seq<Token>)
      requires Valid()
      modifies this`recs, this`byCallID, this`byToken, this`total
      ensures Valid() && recs == EndSet(old(recs), Charged(old(recs), Index.Elems(tokens)))
    {
      hide Index.Agrees, Open, Agree, WithinCaps;
      ghost var before := recs;
      assert EndSet(before, Charged(before, Index.Elems(tokens[..0]))) == before;
      for i := 0 to |tokens|
        invariant Valid() && recs == EndSet(before, Charged(before, Index.Elems(tokens[..i])))
      {
        var list := Index.Group(byToken, tokens[i]);
        TokenGroup(X(), tokens[i]);
        ghost var some := Index.Elems(tokens[..i]);
        assert tokens[..i + 1] == tokens[..i] + [tokens[i]];
        Index.ElemsSnoc(tokens[..i], tokens[i]);
        ChargedMore(before, some, tokens[i]);
        assert Index.Elems(list) == Charged(recs, {tokens[i]});
        EndList(list);
      }
      assert tokens[..|tokens|] == tokens;
    }

    /** prune: ends the records whose deadline has passed, Call-ID by Call-ID in
        whatever order the map gives them. */
    method Prune(now: int) returns (n: nat)
      requires Valid()
      modifies this`recs, this`byCallID, this`byToken, this`total
      ensures Valid() && recs == EndSet(old(recs), Overdue(old(recs), now))
      ensures n == |Overdue(old(recs), now)|
    {
      hide Agree, WithinCaps, EndSet, Index.Splits;
      n := 0;
      ghost var before := recs;
      EveryCallIndexed(X());
      ghost var done: set<string> := {};
      ghost var all := byCallID.Keys;
      NoneOverdue(before, now);
      Index.SplitsEnds(all);
      var rest := byCallID.Keys;
      while rest != {}
        invariant Valid() && Index.Splits(rest, done, all)
        invariant recs == EndSet(before, OverdueIn(before, done, now)) && n == |OverdueIn(before, done, now)|
        decreases |rest|
      {
        var callID :| callID in rest;
        Index.SplitsNext(rest, done, all, callID);
        rest := rest - {callID};
        ghost var gone := OverdueIn(before, done, now);
        var ended;
        ghost var more;
        ended, more := PruneCall(callID, now);
        OverdueMore(before, done, callID, now, more);
        EndTwice(before, gone, more);
        n := n + ended;
        done := done + {callID};
      }
      AllOverdue(before, done, now);
    }

    /** closeAll: from here on begin admits nothing either. */
    method CloseAll()
      requires Valid()
      modifies this`recs, this`byCallID, this`byToken, this`total, this`closed
      ensures Valid() && closed && recs.Keys == old(recs.Keys) && forall h <- recs :: recs[h].ended
    {
      hide Index.Agrees, Open, Agree, WithinCaps;
      closed := true;
      EveryCallIndexed(X());
      var rest := byCallID.Keys;
      while rest != {}
        invariant Valid() && closed && recs.Keys == old(recs.Keys)
        invariant forall h <- recs :: !recs[h].ended ==> recs[h].callID in rest
        decreases |rest|
      {
        var callID :| callID in rest;
        rest := rest - {callID};
        CallGroup(X(), callID);
        EndList(Index.Group(byCallID, callID));
      }
    }

    /** The overdue records of one Call-ID end. */
    method PruneCall(callID: string, now: int) returns (n: nat, ghost more: set<nat>)
      requires Valid()
      modifies this`recs, this`byCallID, this`byToken, this`total
      ensures Valid() && recs == EndSet(old(recs), more) && n == |more|
      ensures forall h ::
        h in more <==> h in old(recs) && old(recs)[h].callID == callID && !old(recs)[h].ended && now >= old(recs)[h].deadline
    {
      hide Index.Agrees, Open, Agree, WithinCaps, EndSet, Index.Distinct;
      var late := Late(callID, now);
      more := Index.Elems(late);
      EndList(late);
      Index.SetSize(late);
      return |late|, more;
    }

    method Late(callID: string, now: int) returns (late: seq<nat>)
      requires Valid()
      ensures Index.Distinct(late)
      ensures forall h :: h in late <==> h in recs && recs[h].callID == callID && !recs[h].ended && now >= recs[h].deadline
    {
      hide Index.Agrees, Open, Agree, WithinCaps;
      late := [];
      var list := Index.Group(byCallID, callID);
      CallGroup(X(), callID);
      for i := 0 to |list|
        invariant Index.Distinct(late)
        invariant forall h :: h in late <==> h in list[..i] && now >= recs[h].deadline
      {
        assert list[i] in list && list[i] !in list[..i] && list[..i + 1] == list[..i] + [list[i]];
        if now >= recs[list[i]].deadline {
          late := late + [list[i]];
        }
      }
      assert list[..|list|] == list;
    }
  }

  function OverdueIn(recs: Subs, calls: set<string>, now: int): set<nat> {
    set h | h in recs && now >= recs[h].deadline && !recs[h].ended && recs[h].callID in calls
  }

  lemma NoneOverdue(recs: Subs, now: int)
    ensures OverdueIn(recs, {}, now) == {} && EndSet(recs, {}) == recs
  {
  }

  lemma AllOverdue(recs: Subs, calls: set<string>, now: int)
    requires forall h <- recs :: !recs[h].ended ==> recs[h].callID in calls
    ensures OverdueIn(recs, calls, now) == Overdue(recs, now)
  {
  }

  lemma OverdueMore(recs: Subs, done: set<string>, callID: string, now: int, more: set<nat>)
    requires callID !in done
    requires var after := EndSet(recs, OverdueIn(recs, done, now));
      forall h :: h in more <==> h in after && after[h].callID == callID && !after[h].ended && now >= after[h].deadline
    ensures OverdueIn(recs, done + {callID}, now) == OverdueIn(recs, done, now) + more
    ensures |OverdueIn(recs, done + {callID}, now)| == |OverdueIn(recs, done, now)| + |more|
  {
    assert OverdueIn(recs, done + {callID}, now) == OverdueIn(recs, done, now) + more;
    assert OverdueIn(recs, done, now) !! more;
  }

  lemma EveryCallIndexed(t: Table)
    requires Agree(t)
    ensures forall h <- t.recs :: !t.recs[h].ended ==> t.recs[h].callID in t.byCallID.Keys
  {
    forall h <- t.recs | !t.recs[h].ended ensures t.recs[h].callID in t.byCallID.Keys {
      assert CallIDOf(Open(t.recs)[h]) in t.byCallID;
    }
  }

  lemma ChargedCount(t: Table, tok: Token)
    requires Agree(t)
    ensures |Charged(t.recs, {tok})| == |Index.Group(t.byToken, tok)|
  {
    hide Agree;
    var list := Index.Group(t.byToken, tok);
    TokenGroup(t, tok);
    Index.SetSize(list);
    assert Index.Elems(list) == Charged(t.recs, {tok});
  }

  lemma EndMore(recs: Subs, gone: set<nat>, h: nat)
    requires h in recs
    ensures EndOne(EndSet(recs, gone), h) == EndSet(recs, gone + {h})
  {
  }

  lemma EndTwice(recs: Subs, gone: set<nat>, more: set<nat>)
    ensures EndSet(EndSet(recs, gone), more) == EndSet(recs, gone + more)
  {
  }

  lemma ChargedMore(recs: Subs, tokens: set<Token>, t: Token)
    ensures EndSet(EndSet(recs, Charged(recs, tokens)), Charged(EndSet(recs, Charged(recs, tokens)), {t})) ==
      EndSet(recs, Charged(recs, tokens + {t}))
  {
    var gone := Charged(recs, tokens);
    assert gone + Charged(EndSet(recs, gone), {t}) == Charged(recs, tokens + {t});
    EndTwice(recs, gone, Charged(EndSet(recs, gone), {t}));
  }
}
