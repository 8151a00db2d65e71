/**
 The bounded trackers of internal/edge/admission.go: the least-recently-used
 table of sources whose REGISTERs the registrar rejects, and the first-in
 first-out set of sources already warned about.
 */
module Trackers {
  import Index
  import opened Net

  // ---- Sources under enumeration ------------------------------------------------

  /** enumWindow, in seconds. */
  const WINDOW: int := 600
  const MAX_AORS: nat := 10

  /** enumKey: an IPv6 source counts by its /64. */
  function EnumKey(ip: Addr): Addr {
    match Unmap(ip)
    case V6(bits) => V6(bits / 0x1_0000_0000_0000_0000 * 0x1_0000_0000_0000_0000)
    case a => a
  }

  /** IPv6 sources are told apart by their first 64 bits, IPv4 ones by all, whether
      mapped or not. */
  lemma KeysSame(a: nat, b: nat)
    ensures EnumKey(V6(a)) == EnumKey(V6(b)) <==> a / 0x1_0000_0000_0000_0000 == b / 0x1_0000_0000_0000_0000
    ensures EnumKey(V4(a)) == EnumKey(V4(b)) <==> a == b
    ensures EnumKey(V4InV6(a)) == EnumKey(V4(a)) && EnumKey(V4(a)) != EnumKey(V6(b))
  {
  }

  datatype Entry = Entry(start: int, aors: seq<string>)

  /** lru holds the keys of the list, the most recently rejected in front. */
  datatype Limiter = Limiter(entries: map<Addr, Entry>, lru: seq<Addr>)

  const NONE_TRACKED := Limiter(map[], [])

  /** Ten AoRs within the last 600 seconds. */
  predicate InForce(e: Entry, now: int) {
    now < e.start + 600 && |e.aors| >= 10
  }

  predicate Lapsed(e: Entry, now: int) {
    now - e.start >= WINDOW
  }

  /** The window a rejection falls in: the source's, or a new one. */
  function WindowOf(s: Limiter, key: Addr, now: int): Entry {
    if key in s.entries && !Lapsed(s.entries[key], now) then s.entries[key] else Entry(now, [])
  }

  /** A source's entry starts over 600 seconds after it started, and holds at most ten
      AoRs, each once. */
  lemma EntryAfter(s: Limiter, max: nat, key: Addr, aor: string, now: int)
    ensures var (after, reached) := RejectedIn(s, max, key, aor, now);
      && key in after.entries
      && var goesOn := key in s.entries && now < s.entries[key].start + 600;
        var was := if goesOn then s.entries[key].aors else [];
        && after.entries[key].start == (if goesOn then s.entries[key].start else now)
        && after.entries[key].aors == (if aor in was || |was| >= 10 then was else was + [aor])
        && (reached <==> aor !in was && |was| == 9)
  {
  }

  predicate Counts(e: Entry, aor: string) {
    |e.aors| < MAX_AORS && aor !in e.aors
  }

  /** A new source finds the list full. */
  predicate Evicts(s: Limiter, max: nat, key: Addr) {
    key !in s.entries && |s.lru| >= max && s.lru != []
  }

  function Kept(s: Limiter, max: nat, key: Addr): map<Addr, Entry> {
    if Evicts(s, max, key) then s.entries - {s.lru[|s.lru| - 1]} else s.entries
  }

  function Touched(s: Limiter, max: nat, key: Addr): seq<Addr> {
    if key in s.entries then [key] + Index.Without(s.lru, key)
    else if Evicts(s, max, key) then [key] + s.lru[..|s.lru| - 1]
    else [key] + s.lru
  }

  function RejectedIn(s: Limiter, max: nat, key: Addr, aor: string, now: int): (Limiter, bool) {
    var e := WindowOf(s, key, now);
    var e' := if Counts(e, aor) then e.(aors := e.aors + [aor]) else e;
    (Limiter(Kept(s, max, key)[key := e'], Touched(s, max, key)), Counts(e, aor) && |e'.aors| == MAX_AORS)
  }

  ghost predicate Sound(s: Limiter, max: nat) {
    && Index.Distinct(s.lru) && Index.Elems(s.lru) == s.entries.Keys && |s.lru| <= max
    && forall k <- s.entries :: GoodEntry(s.entries[k])
  }

  class EnumLimiter {
    var entries: map<Addr, Entry>
    var lru: seq<Addr>
    const max: nat

    ghost function X(): Limiter
      reads this
    {
      Limiter(entries, lru)
    }

    constructor (max: nat)
      ensures X() == NONE_TRACKED && this.max == max
    {
      entries, lru, this.max := map[], [], max;
    }

    method Blocked(ip: Addr, now: int) returns (b: bool)
      ensures b <==> EnumKey(ip) in entries && InForce(entries[EnumKey(ip)], now)
    {
      var key := EnumKey(ip);
      if key !in entries {
        return false;
      }
      return now - entries[key].start < WINDOW && |entries[key].aors| >= MAX_AORS;
    }

    method MoveToFront(key: Addr)
      requires key in lru
      modifies this`lru
      ensures lru == [key] + Index.Without(old(lru), key)
    {
      var i := 0;
      while lru[i] != key
        invariant i < |lru| && key !in lru[..i] && lru == old(lru)
        decreases |lru| - i
      {
        assert lru[..i + 1] == lru[..i] + [lru[i]];
        assert lru == lru[..i + 1] + lru[i + 1..];
        i := i + 1;
      }
      Index.WithoutAt(lru, i);
      lru := [key] + (lru[..i] + lru[i + 1..]);
    }

    /** The first half of rejected: finds the source's entry or makes room for a
        new one, in front of the list. */
    method Touch(key: Addr, now: int) returns (e: Entry)
      requires Sound(X(), max) && max > 0
      modifies this
      ensures e == WindowOf(old(X()), key, now) && entries == Kept(old(X()), max, key)[key := e]
      ensures lru == Touched(old(X()), max, key)
    {
      if key in entries {
        e := entries[key];
        assert key in Index.Elems(lru);
        MoveToFront(key);
        if now - e.start >= WINDOW {
          e := Entry(now, []);
        }
      } else {
        if |lru| >= max {
          var oldest := lru[|lru| - 1];
          entries := entries - {oldest};
          lru := lru[..|lru| - 1];
        }
        e := Entry(now, []);
        lru := [key] + lru;
      }
      entries := entries[key := e];
    }

    method Rejected(ip: Addr, aor: string, now: int) returns (reached: bool)
      requires Sound(X(), max) && max > 0
      modifies this
      ensures (X(), reached) == RejectedIn(old(X()), max, EnumKey(ip), aor, now)
      ensures Sound(X(), max)
    {
      hide Sound, WindowOf, Kept, Touched;
      var key := EnumKey(ip);
      ghost var kept := Kept(X(), max, key);
      RejectedSound(X(), max, key, aor, now);
      var e := Touch(key, now);
      if |e.aors| >= MAX_AORS {
        return false;
      }
      for i := 0 to |e.aors|
        invariant aor !in e.aors[..i]
      {
        assert e.aors[..i + 1] == e.aors[..i] + [e.aors[i]];
        if e.aors[i] == aor {
          return false;
        }
      }
      assert e.aors[..|e.aors|] == e.aors;
      var e' := e.(aors := e.aors + [aor]);
      assert kept[key := e][key := e'] == kept[key := e'];
      entries := entries[key := e'];
      return |e'.aors| == MAX_AORS;
    }
  }

  lemma LruMove(lru: seq<Addr>, key: Addr)
    requires Index.Distinct(lru) && key in lru
    ensures var r := [key] + Index.Without(lru, key);
      Index.Distinct(r) && Index.Elems(r) == Index.Elems(lru) && |r| == |lru|
  {
    Index.WithoutDistinct(lru, key);
    var r := [key] + Index.Without(lru, key);
    forall x ensures x in r <==> x in lru {
    }
  }

  lemma LruPush(lru: seq<Addr>, key: Addr)
    requires Index.Distinct(lru) && key !in lru
    ensures Index.Distinct([key] + lru) && Index.Elems([key] + lru) == Index.Elems(lru) + {key}
  {
  }

  lemma LruEvict(lru: seq<Addr>)
    requires Index.Distinct(lru) && lru != []
    ensures var r := lru[..|lru| - 1];
      Index.Distinct(r) && Index.Elems(r) == Index.Elems(lru) - {lru[|lru| - 1]}
  {
    var r := lru[..|lru| - 1];
    assert lru == r + [lru[|lru| - 1]];
  }

  lemma TouchedSound(s: Limiter, max: nat, key: Addr)
    requires Index.Distinct(s.lru) && Index.Elems(s.lru) == s.entries.Keys && |s.lru| <= max && max > 0
    ensures var lru := Touched(s, max, key);
      Index.Distinct(lru) && Index.Elems(lru) == Kept(s, max, key).Keys + {key} && |lru| <= max
  {
    hide Index.Without, Index.Distinct;
    assert key in s.entries <==> key in Index.Elems(s.lru);
    if key in s.entries {
      LruMove(s.lru, key);
    } else if |s.lru| >= max {
      LruEvict(s.lru);
      LruPush(s.lru[..|s.lru| - 1], key);
    } else {
      LruPush(s.lru, key);
    }
  }

  predicate GoodEntry(e: Entry) {
    |e.aors| <= MAX_AORS && forall i, j :: 0 <= i < j < |e.aors| ==> e.aors[i] != e.aors[j]
  }

  lemma RejectedSound(s: Limiter, max: nat, key: Addr, aor: string, now: int)
    requires Sound(s, max) && max > 0
    ensures Sound(RejectedIn(s, max, key, aor, now).0, max)
  {
    hide Index.Without, Touched, Index.Distinct, Index.Elems;
    TouchedSound(s, max, key);
    assert GoodEntry(WindowOf(s, key, now));
  }

  // ---- Runs of rejections ------------------------------------------------------------

  datatype Call = Call(key: Addr, aor: string, now: int)

  function After(max: nat, calls: seq<Call>): Limiter {
    if calls == [] then NONE_TRACKED
    else
      var c := calls[|calls| - 1];
      RejectedIn(After(max, calls[..|calls| - 1]), max, c.key, c.aor, c.now).0
  }

  lemma {:induction false} AfterSound(max: nat, calls: seq<Call>)
    requires max > 0
    ensures Sound(After(max, calls), max)
    decreases |calls|
  {
    hide RejectedIn;
    if calls != [] {
      var c := calls[|calls| - 1];
      AfterSound(max, calls[..|calls| - 1]);
      RejectedSound(After(max, calls[..|calls| - 1]), max, c.key, c.aor, c.now);
    }
  }

  /** Every source ever rejected, the latest first. */
  function Recent(calls: seq<Call>): seq<Addr> {
    if calls == [] then []
    else
      var key := calls[|calls| - 1].key;
      [key] + Index.Without(Recent(calls[..|calls| - 1]), key)
  }

  lemma {:induction false} RecentDistinct(calls: seq<Call>)
    ensures Index.Distinct(Recent(calls))
    decreases |calls|
  {
    if calls != [] {
      RecentDistinct(calls[..|calls| - 1]);
      Index.WithoutDistinct(Recent(calls[..|calls| - 1]), calls[|calls| - 1].key);
    }
  }

  function Take(list: seq<Addr>, n: nat): seq<Addr> {
    if |list| <= n then list else list[..n]
  }

  lemma TakeWithout(list: seq<Addr>, n: nat, key: Addr)
    requires n > 0
    ensures var t := Take(list, n);
      Take([key] + Index.Without(list, key), n) ==
        [key] + (if key in t then Index.Without(t, key) else if |t| >= n then t[..|t| - 1] else t)
  {
    hide Index.Without;
    var t := Take(list, n);
    if key in list {
      var i := Index.Place(list, key);
      if i < n {
        TakenFirst(list, n, key, i);
      } else {
        assert t == list[..n] && key !in t by {
          assert list[..i][..n] == list[..n];
        }
        assert [key] + (list[..i] + list[i + 1..]) == [key] + list[..n - 1] + (list[n - 1..i] + list[i + 1..]);
      }
    } else {
      assert Index.Without(list, key) == list;
    }
  }

  lemma TakenFirst(list: seq<Addr>, n: nat, key: Addr, i: nat)
    requires i < |list| && i < n && list[i] == key && key !in list[..i]
    ensures var t := Take(list, n);
      key in t && Take([key] + (list[..i] + list[i + 1..]), n) == [key] + Index.Without(t, key)
  {
    hide Index.Without;
    var t := Take(list, n);
    assert t[i] == key && t[..i] == list[..i];
    Index.WithoutAt(t, i);
    if |list| > n {
      assert t[i + 1..] == list[i + 1..n];
    }
  }

  /** The sources tracked are the max most recently rejected ones: a new source
      past the cap forgets exactly the one rejected longest ago. */
  lemma {:induction false} TracksMostRecent(max: nat, calls: seq<Call>)
    requires max > 0
    ensures After(max, calls).lru == Take(Recent(calls), max)
    ensures After(max, calls).entries.Keys == Index.Elems(Take(Recent(calls), max))
    decreases |calls|
  {
    hide WindowOf, Counts, Index.Without;
    AfterSound(max, calls);
    if calls != [] {
      var init, key := calls[..|calls| - 1], calls[|calls| - 1].key;
      TracksMostRecent(max, init);
      RecentDistinct(init);
      TakeWithout(Recent(init), max, key);
      var s := After(max, init);
      assert key in s.entries <==> key in Index.Elems(s.lru);
    }
  }

  /** The AoRs rejected from key in the window that is open after these calls. */
  function InWindow(max: nat, calls: seq<Call>, key: Addr): seq<string> {
    if calls == [] then []
    else
      var init, c := calls[..|calls| - 1], calls[|calls| - 1];
      var s := After(max, init);
      if c.key != key then InWindow(max, init, key)
      else if key in s.entries && !Lapsed(s.entries[key], c.now) then InWindow(max, init, key) + [c.aor]
      else [c.aor]
  }

  /** The different ones, in order of first appearance. */
  function Different(aors: seq<string>): seq<string> {
    if aors == [] then []
    else
      var init, a := Different(aors[..|aors| - 1]), aors[|aors| - 1];
      if a in init then init else init + [a]
  }

  lemma DifferentSnoc(aors: seq<string>, a: string)
    ensures Different(aors + [a]) == if a in Different(aors) then Different(aors) else Different(aors) + [a]
  {
    assert (aors + [a])[..|aors|] == aors;
  }

  function TakeTen(aors: seq<string>): seq<string> {
    if |aors| <= MAX_AORS then aors else aors[..MAX_AORS]
  }

  lemma EntryStep(e: Entry, aors: seq<string>, a: string)
    requires e.aors == TakeTen(Different(aors))
    ensures var e' := if Counts(e, a) then e.(aors := e.aors + [a]) else e;
      && e'.aors == TakeTen(Different(aors + [a]))
      && (Counts(e, a) && |e'.aors| == MAX_AORS <==>
        |Different(aors)| < MAX_AORS <= |Different(aors + [a])|)
  {
    hide Different;
    DifferentSnoc(aors, a);
  }

  /** A tracked source's entry holds the first ten different AoRs of its window,
      and the limit is reported reached by the rejection that brings the tenth:
      once in a window. */
  lemma {:induction false} CountsDifferentAors(max: nat, calls: seq<Call>, key: Addr)
    requires max > 0
    ensures key in After(max, calls).entries ==>
      After(max, calls).entries[key].aors == TakeTen(Different(InWindow(max, calls, key)))
    decreases |calls|
  {
    hide Different, TakeTen, Counts, Index.Without, Lapsed;
    if calls != [] {
      var init, c := calls[..|calls| - 1], calls[|calls| - 1];
      CountsDifferentAors(max, init, key);
      if c.key == key {
        StepCounts(max, init, c);
      }
    }
  }

  /** The window a call falls in, before the call. */
  function Before(max: nat, calls: seq<Call>, c: Call): seq<string> {
    var s := After(max, calls);
    if c.key in s.entries && !Lapsed(s.entries[c.key], c.now) then InWindow(max, calls, c.key) else []
  }

  lemma StepCounts(max: nat, calls: seq<Call>, c: Call)
    requires c.key in After(max, calls).entries ==>
      After(max, calls).entries[c.key].aors == TakeTen(Different(InWindow(max, calls, c.key)))
    ensures var s, aors := After(max, calls), Before(max, calls, c);
      && RejectedIn(s, max, c.key, c.aor, c.now).0.entries[c.key].aors == TakeTen(Different(aors + [c.aor]))
      && (RejectedIn(s, max, c.key, c.aor, c.now).1 <==>
        |Different(aors)| < MAX_AORS <= |Different(aors + [c.aor])|)
      && InWindow(max, calls + [c], c.key) == aors + [c.aor]
  {
    hide TakeTen, Counts, Index.Without, Lapsed, After;
    var s, aors := After(max, calls), Before(max, calls, c);
    NoneDifferent();
    EntryStep(WindowOf(s, c.key, c.now), aors, c.aor);
    assert (calls + [c])[..|calls|] == calls;
  }

  lemma NoneDifferent()
    ensures TakeTen(Different([])) == []
  {
  }

  /** The limit is reported exactly by the rejection that takes the window from
      fewer than ten different AoRs to ten. */
  lemma ReachedByTheTenth(max: nat, calls: seq<Call>, c: Call)
    requires max > 0
    ensures var aors := Before(max, calls, c);
      RejectedIn(After(max, calls), max, c.key, c.aor, c.now).1 <==>
        |Different(aors)| < 10 <= |Different(aors + [c.aor])|
  {
    CountsDifferentAors(max, calls, c.key);
    StepCounts(max, calls, c);
  }

  // ---- Sources already warned about ----------------------------------------------------

  datatype WarnKey = WarnKey(reason: nat, ip: Addr)

  class WarnOnce {
    var seen: set<WarnKey>
    var ring: seq<WarnKey>
    var next: nat
    const max: nat
    /** Every key reported as a first, in order. */
    ghost var firsts: seq<WarnKey>

    /** The keys remembered, the oldest first. */
    ghost function Queue(): seq<WarnKey>
      reads this
      requires next <= |ring|
    {
      ring[next..] + ring[..next]
    }

    /** The set is the ring, whose keys differ and are the latest firsts. */
    ghost predicate Valid()
      reads this
    {
      && max > 0 && |ring| <= max && (if |ring| < max then next == 0 else next < max)
      && seen == Index.Elems(ring) && Index.Distinct(ring)
      && Queue() == Latest(firsts, max)
    }

    constructor (max: nat)
      requires max > 0
      ensures Valid() && seen == {} && firsts == [] && this.max == max
    {
      seen, ring, next, this.max, firsts := {}, [], 0, max, [];
    }

    method First(reason: nat, ip: Addr) returns (first: bool)
      requires Valid()
      modifies this
      ensures Valid()
      ensures first <==> WarnKey(reason, Unmap(ip)) !in old(Queue())
      ensures firsts == old(firsts) + if first then [WarnKey(reason, Unmap(ip))] else []
    {
      hide Index.Distinct, Index.Elems, Latest;
      var k := WarnKey(reason, Unmap(ip));
      RingMembers(ring, next, k);
      if k in seen {
        return false;
      }
      LatestSnoc(firsts, max, k);
      firsts := firsts + [k];
      if |ring| < max {
        RingAppend(ring, k);
        ring := ring + [k];
        seen := seen + {k};
        assert Queue() == ring;
      } else {
        var at := next;
        RingReplace(ring, at, k);
        RingQueue(ring, at, k, if at + 1 == max then 0 else at + 1);
        seen := seen - {ring[at]} + {k};
        ring := ring[at := k];
        NextIndex(at, max);
        next := (at + 1) % max;
      }
      return true;
    }
  }

  lemma NextIndex(at: nat, max: nat)
    requires at < max
    ensures (at + 1) % max == if at + 1 == max then 0 else at + 1
  {
  }

  /** The last max entries of a list. */
  function Latest(list: seq<WarnKey>, max: nat): seq<WarnKey> {
    if |list| <= max then list else list[|list| - max..]
  }

  lemma LatestSnoc(list: seq<WarnKey>, max: nat, k: WarnKey)
    requires max > 0
    ensures var kept := Latest(list, max);
      |kept| <= max && Latest(list + [k], max) == if |kept| < max then kept + [k] else kept[1..] + [k]
  {
  }

  lemma RingMembers(ring: seq<WarnKey>, next: nat, k: WarnKey)
    requires next <= |ring|
    ensures k in ring[next..] + ring[..next] <==> k in Index.Elems(ring)
  {
    assert ring == ring[..next] + ring[next..];
  }

  lemma RingAppend(ring: seq<WarnKey>, k: WarnKey)
    requires Index.Distinct(ring) && k !in Index.Elems(ring)
    ensures Index.Distinct(ring + [k]) && Index.Elems(ring + [k]) == Index.Elems(ring) + {k}
    ensures ring[0..] + ring[..0] == ring && (ring + [k])[0..] + (ring + [k])[..0] == ring + [k]
  {
  }

  lemma RingReplace(ring: seq<WarnKey>, at: nat, k: WarnKey)
    requires at < |ring| && Index.Distinct(ring) && k !in Index.Elems(ring)
    ensures Index.Distinct(ring[at := k]) && Index.Elems(ring[at := k]) == Index.Elems(ring) - {ring[at]} + {k}
  {
    var r := ring[at := k];
    assert r[at] == k;
    forall x ensures x in r <==> x == k || (x in ring && x != ring[at]) {
      if x in ring && x != ring[at] {
        var i :| 0 <= i < |ring| && ring[i] == x;
        assert r[i] == x;
      }
    }
  }

  /** The oldest leaves the queue, the new one joins it. */
  lemma RingQueue(ring: seq<WarnKey>, at: nat, k: WarnKey, next: nat)
    requires at < |ring| && next == if at + 1 == |ring| then 0 else at + 1
    ensures var r := ring[at := k];
      r[next..] + r[..next] == (ring[at..] + ring[..at])[1..] + [k]
  {
  }
}
