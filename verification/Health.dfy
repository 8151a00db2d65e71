/**
 The health conditions and their history (internal/admin/health.go). The
 conditions come from outside at each evaluation; the tracker remembers which
 are active and since when, and keeps the latest transitions in a ring. The
 ghost field `log` is every transition ever recorded.
 */
module Health {
  import Index
  import Sorting

  datatype Severity = Critical | Degraded | Unknown(text: string)

  function Rank(v: Severity): nat {
    if v.Critical? then 2 else 1
  }

  function Norm(v: Severity): Severity {
    if v.Critical? then Critical else Degraded
  }

  datatype Condition = Condition(id: string, severity: Severity, message: string, detail: string)

  datatype Active = Active(severity: Severity, message: string, since: int, detail: string)

  datatype Kind = Raised | Cleared | Changed

  datatype Event = Event(time: int, id: string, kind: Kind, severity: Severity, message: string)

  const RING_SIZE: nat := 200

  // ---- Duplicates -------------------------------------------------------------------

  /** The conditions by id; a duplicated id keeps its worst severity, as first
      reported. */
  function Worst(raw: seq<Condition>): map<string, Condition> {
    if raw == [] then map[]
    else
      var cur := Worst(raw[..|raw| - 1]);
      var c := raw[|raw| - 1].(severity := Norm(raw[|raw| - 1].severity));
      if c.id in cur && Rank(cur[c.id].severity) >= Rank(c.severity) then cur else cur[c.id := c]
  }

  method Dedupe(raw: seq<Condition>) returns (cur: map<string, Condition>)
    ensures cur == Worst(raw)
  {
    cur := map[];
    for i := 0 to |raw|
      invariant cur == Worst(raw[..i])
    {
      assert raw[..i + 1][..i] == raw[..i];
      var c := raw[i].(severity := Norm(raw[i].severity));
      if c.id in cur && Rank(cur[c.id].severity) >= Rank(c.severity) {
        continue;
      }
      cur := cur[c.id := c];
    }
    assert raw[..|raw|] == raw;
  }

  /** An id is listed if it was reported, with the worst of its severities. */
  lemma {:induction false} WorstOfEach(raw: seq<Condition>, id: string)
    ensures id in Worst(raw) <==> exists c <- raw :: c.id == id
    ensures id in Worst(raw) ==>
      && Worst(raw)[id].id == id && Worst(raw)[id].severity == Norm(Worst(raw)[id].severity)
      && (exists c <- raw :: c.(severity := Norm(c.severity)) == Worst(raw)[id])
      && forall c <- raw :: c.id == id ==> Rank(c.severity) <= Rank(Worst(raw)[id].severity)
    decreases |raw|
  {
    if raw != [] {
      var init, c := raw[..|raw| - 1], raw[|raw| - 1];
      WorstOfEach(init, id);
      assert raw == init + [c];
      assert c in raw;
    }
  }

  /** The worst reported: critical if any report was, else degraded, whatever else it
      was called. */
  lemma WorstIs(raw: seq<Condition>, id: string)
    requires id in Worst(raw)
    ensures Worst(raw)[id].severity ==
      if exists c <- raw :: c.id == id && c.severity == Critical then Critical else Degraded
  {
    WorstOfEach(raw, id);
  }

  // ---- The log ----------------------------------------------------------------------

  datatype Shown = Shown(severity: Severity, since: int)

  function Picture(active: map<string, Active>): map<string, Shown> {
    map id | id in active :: Shown(active[id].severity, active[id].since)
  }

  /** What the transitions alone say is active, with its severity and since
      when. */
  function Replay(log: seq<Event>): map<string, Shown> {
    if log == [] then map[]
    else
      var m, e := Replay(log[..|log| - 1]), log[|log| - 1];
      match e.kind
      case Raised => m[e.id := Shown(e.severity, e.time)]
      case Changed => if e.id in m then m[e.id := Shown(e.severity, m[e.id].since)] else m
      case Cleared => m - {e.id}
  }

  /** The transition makes sense where it stands. */
  predicate Sensible(m: map<string, Shown>, e: Event) {
    match e.kind
    case Raised => e.id !in m
    case Changed => e.id in m && m[e.id].severity != e.severity
    case Cleared => e.id in m && m[e.id].severity == e.severity
  }

  predicate AllSensible(log: seq<Event>) {
    forall i :: 0 <= i < |log| ==> Sensible(Replay(log[..i]), log[i])
  }

  lemma LogMore(log: seq<Event>, e: Event)
    requires AllSensible(log) && Sensible(Replay(log), e)
    ensures AllSensible(log + [e])
    ensures Replay(log + [e]) ==
      var m := Replay(log);
      match e.kind
      case Raised => m[e.id := Shown(e.severity, e.time)]
      case Changed => m[e.id := Shown(e.severity, m[e.id].since)]
      case Cleared => m - {e.id}
  {
    var all := log + [e];
    assert all[..|log|] == log;
    forall i | 0 <= i < |all| ensures Sensible(Replay(all[..i]), all[i]) {
      if i < |log| {
        assert all[..i] == log[..i];
      }
    }
  }

  /** The last entries of the log. */
  function Latest(log: seq<Event>): seq<Event> {
    if |log| <= RING_SIZE then log else log[|log| - RING_SIZE..]
  }

  /** What the log and the active set must tell each other. */
  lemma LatestIs(log: seq<Event>)
    ensures |Latest(log)| == if |log| <= 200 then |log| else 200
    ensures forall i :: 0 <= i < |Latest(log)| ==> Latest(log)[i] == log[|log| - |Latest(log)| + i]
  {
  }

  ghost predicate Agree(log: seq<Event>, active: map<string, Active>) {
    AllSensible(log) && Replay(log) == Picture(active)
  }

  /** The condition as it stands after an evaluation at now. */
  function NowActive(active: map<string, Active>, c: Condition, now: int): Active {
    Active(c.severity, c.message, if c.id in active then active[c.id].since else now, c.detail)
  }

  /** The transitions one condition makes. */
  function Moves(active: map<string, Active>, c: Condition, now: int): seq<Event> {
    if c.id !in active then [Event(now, c.id, Raised, c.severity, c.message)]
    else if active[c.id].severity != c.severity then [Event(now, c.id, Changed, c.severity, c.message)]
    else []
  }

  lemma AgreeMoves(log: seq<Event>, active: map<string, Active>, c: Condition, now: int)
    requires Agree(log, active)
    ensures Agree(log + Moves(active, c, now), active[c.id := NowActive(active, c, now)])
  {
    hide AllSensible, Replay;
    var moves := Moves(active, c, now);
    if moves == [] {
      assert log + moves == log;
    } else {
      LogMore(log, moves[0]);
    }
  }

  lemma AgreeClears(log: seq<Event>, active: map<string, Active>, id: string, now: int)
    requires Agree(log, active) && id in active
    ensures Agree(log + [Event(now, id, Cleared, active[id].severity, active[id].message)], active - {id})
  {
    hide AllSensible, Replay;
    LogMore(log, Event(now, id, Cleared, active[id].severity, active[id].message));
  }

  // ---- The tracker ---------------------------------------------------------------------

  /** What a ring holds, oldest first. */
  /** The event of a condition that moved carries its severity and message as they are
      now. */
  lemma MovesTell(active: map<string, Active>, c: Condition, now: int)
    ensures forall e <- Moves(active, c, now) ::
      e == Event(now, c.id, if c.id in active then Changed else Raised, c.severity, c.message)
    ensures Moves(active, c, now) == [] <==> c.id in active && active[c.id].severity == c.severity
  {
  }

  function HeldIn(buf: seq<Event>, start: nat, n: nat): (held: seq<Event>)
    requires |buf| == RING_SIZE && start < RING_SIZE && n <= RING_SIZE
    ensures |held| == n
  {
    if start + n <= RING_SIZE then buf[start..start + n] else buf[start..] + buf[..start + n - RING_SIZE]
  }

  lemma HeldAt(buf: seq<Event>, start: nat, n: nat, i: nat)
    requires |buf| == RING_SIZE && start < RING_SIZE && i < n <= RING_SIZE
    ensures HeldIn(buf, start, n)[i] == buf[(start + i) % RING_SIZE]
  {
    Wrapped(start + i);
    if start + n > RING_SIZE && start + i >= RING_SIZE {
      assert (buf[start..] + buf[..start + n - RING_SIZE])[i] == buf[start + i - RING_SIZE];
    }
  }

  lemma Wrapped(k: nat)
    requires k < 2 * RING_SIZE
    ensures k % RING_SIZE == if k < RING_SIZE then k else k - RING_SIZE
  {
  }

  lemma HeldMore(buf: seq<Event>, start: nat, n: nat, ev: Event)
    requires |buf| == RING_SIZE && start < RING_SIZE && n <= RING_SIZE && (n < RING_SIZE ==> start == 0)
    ensures n < RING_SIZE ==> (start + n) % RING_SIZE == n && HeldIn(buf[n := ev], start, n + 1) == HeldIn(buf, start, n) + [ev]
    ensures n == RING_SIZE ==>
      HeldIn(buf[start := ev], (start + 1) % RING_SIZE, n) == HeldIn(buf, start, n)[1..] + [ev]
  {
    Wrapped(start + 1);
    if n < RING_SIZE {
      Wrapped(n);
      assert buf[n := ev][0..n + 1] == buf[0..n] + [ev];
    } else {
      HeldTurns(buf, start, ev);
    }
  }

  /** A full ring loses its oldest entry to the new one. */
  lemma HeldTurns(buf: seq<Event>, start: nat, ev: Event)
    requires |buf| == RING_SIZE && start < RING_SIZE
    ensures HeldIn(buf, start, RING_SIZE) == buf[start..] + buf[..start]
    ensures HeldIn(buf[start := ev], if start + 1 == RING_SIZE then 0 else start + 1, RING_SIZE) ==
      HeldIn(buf, start, RING_SIZE)[1..] + [ev]
  {
    var next := buf[start := ev];
    assert next[..start + 1] == buf[..start] + [ev] && next[start + 1..] == buf[start + 1..];
    assert (buf[start..] + buf[..start])[1..] == buf[start + 1..] + buf[..start];
    assert buf[0..RING_SIZE] == buf[0..] + buf[..0];
    if start + 1 == RING_SIZE {
      assert next[0..RING_SIZE] == next[..start + 1] && buf[start + 1..] == [];
    }
  }

  class HealthTracker {
    var active: map<string, Active>
    const buf: array<Event>
    var start: nat
    var n: nat
    ghost var log: seq<Event>

    /** The events held, oldest first. */
    ghost function Held(): seq<Event>
      reads this, buf
      requires buf.Length == RING_SIZE && start < RING_SIZE && n <= RING_SIZE
    {
      HeldIn(buf[..], start, n)
    }

    ghost predicate RingValid()
      reads this, buf
    {
      && buf.Length == RING_SIZE && start < RING_SIZE && n <= RING_SIZE && (n < RING_SIZE ==> start == 0)
      && Held() == Latest(log)
    }

    /** The log tells the active set, the ring is the end of the log. */
    ghost predicate Valid()
      reads this, buf
    {
      RingValid() && Agree(log, active)
    }

    constructor ()
      ensures Valid() && fresh(buf) && active == map[] && log == []
    {
      active, start, n, log := map[], 0, 0, [];
      buf := new Event[RING_SIZE](i => Event(0, "", Raised, Degraded, ""));
    }

    method Push(ev: Event)
      requires RingValid()
      modifies this`start, this`n, this`log, buf
      ensures RingValid() && log == old(log) + [ev]
    {
      hide Latest, HeldIn;
      LatestMore(log, ev);
      HeldMore(buf[..], start, n, ev);
      log := log + [ev];
      if n < RING_SIZE {
        buf[(start + n) % RING_SIZE] := ev;
        n := n + 1;
        return;
      }
      buf[start] := ev;
      start := (start + 1) % RING_SIZE;
    }

    method History() returns (out: seq<Event>)
      requires RingValid()
      ensures |out| == if |log| <= 200 then |log| else 200
      ensures forall i :: 0 <= i < |out| ==> out[i] == log[|log| - 1 - i]
    {
      hide Latest, HeldIn;
      LatestIs(log);
      out := [];
      var i := n;
      while i > 0
        invariant 0 <= i <= n && |out| == n - i
        invariant forall j :: 0 <= j < |out| ==> out[j] == Held()[n - 1 - j]
      {
        i := i - 1;
        HeldAt(buf[..], start, n, i);
        out := out + [buf[(start + i) % RING_SIZE]];
      }
    }

    /** One condition that is active now. */
    method Note(c: Condition, now: int)
      requires Valid()
      modifies this, buf
      ensures Valid() && active == old(active)[c.id := NowActive(old(active), c, now)]
      ensures log == old(log) + Moves(old(active), c, now)
    {
      hide Agree, Latest;
      AgreeMoves(log, active, c, now);
      if c.id !in active {
        active := active[c.id := Active(c.severity, c.message, now, c.detail)];
        Push(Event(now, c.id, Raised, c.severity, c.message));
      } else {
        var prev := active[c.id];
        if prev.severity != c.severity {
          active := active[c.id := Active(c.severity, c.message, prev.since, c.detail)];
          Push(Event(now, c.id, Changed, c.severity, c.message));
        } else {
          assert log + [] == log;
          active := active[c.id := prev.(message := c.message, detail := c.detail)];
        }
      }
    }

    /** One condition that is no longer active. */
    method Clear(id: string, now: int)
      requires Valid() && id in active
      modifies this, buf
      ensures Valid() && active == old(active) - {id}
      ensures log == old(log) + [Event(now, id, Cleared, old(active)[id].severity, old(active)[id].message)]
    {
      hide Agree, Latest;
      AgreeClears(log, active, id, now);
      var prev := active[id];
      active := active - {id};
      Push(Event(now, id, Cleared, prev.severity, prev.message));
    }

    /** The log grew from base by moves, which tell of the live conditions noted so
        far. */
    ghost predicate Noting(base: seq<Event>, moves: seq<Event>, was: map<string, Active>, cur: map<string, Condition>,
      done: set<string>, now: int)
      reads this, buf
    {
      && Valid() && active == Noted(was, cur, done, now)
      && log == base + moves && Told(moves, was, active, now)
      && forall e <- moves :: !e.kind.Cleared?
    }

    lemma StartNoting(base: seq<Event>, cur: map<string, Condition>, now: int)
      requires Valid() && base == log
      ensures Noting(base, [], active, cur, {}, now)
    {
      NothingTold(active, now);
      NothingNoted(active, cur, now);
    }

    lemma NotingEnds(base: seq<Event>, moves: seq<Event>, was: map<string, Active>, cur: map<string, Condition>,
      done: set<string>, now: int)
      requires Noting(base, moves, was, cur, done, now)
      ensures Valid() && active == Noted(was, cur, done, now) && log == base + moves && Told(moves, was, active, now)
      ensures forall e <- moves :: !e.kind.Cleared?
    {
    }

    /** Notes one more of them. */
    method NoteOne(c: Condition, now: int, ghost was: map<string, Active>, ghost cur: map<string, Condition>,
      ghost done: set<string>, ghost base: seq<Event>, ghost before: seq<Event>)
      returns (ghost moves: seq<Event>)
      requires Noting(base, before, was, cur, done, now) && c.id in cur && cur[c.id] == c && c.id !in done
      modifies this, buf
      ensures Noting(base, moves, was, cur, done + {c.id}, now)
    {
      hide Agree, Told, Moves, Noted, NowActive, HeldIn, Latest;
      NoteStep(was, cur, done, c.id, now);
      ToldNote(before, was, active, c, now);
      NoMoveClears(active, c, now);
      ghost var more := Moves(active, c, now);
      moves := before + more;
      assert base + before + more == base + moves;
      Note(c, now);
    }

    /** The conditions that are active: each noted, in whatever order the map
        gives them. */
    method NoteAll(cur: map<string, Condition>, now: int) returns (ghost moves: seq<Event>)
      requires Valid() && forall id <- cur :: cur[id].id == id
      modifies this, buf
      ensures Valid() && active == Noted(old(active), cur, cur.Keys, now)
      ensures log == old(log) + moves && Told(moves, old(active), active, now)
      ensures forall e <- moves :: !e.kind.Cleared?
    {
      hide Agree, Told, Moves, Noted, NowActive, Noting, Index.Splits;
      moves := [];
      ghost var was, done, base := active, {}, log;
      StartNoting(base, cur, now);
      Index.SplitsEnds(cur.Keys);
      var rest := cur.Keys;
      while rest != {}
        invariant Noting(base, moves, was, cur, done, now) && Index.Splits(rest, done, cur.Keys)
        decreases |rest|
      {
        var id :| id in rest;
        Index.SplitsNext(rest, done, cur.Keys, id);
        rest := rest - {id};
        moves := NoteOne(cur[id], now, was, cur, done, base, moves);
        done := done + {id};
      }
      NotingEnds(base, moves, was, cur, done, now);
    }

    /** The conditions that are gone: each cleared, in id order. */
    method ClearGone(cur: map<string, Condition>, now: int, le: (string, string) -> bool)
      returns (ghost moves: seq<Event>)
      requires Valid() && Sorting.TotalOrder(le) && cur.Keys <= active.Keys
      modifies this, buf
      ensures Valid() && active == Only(old(active), cur.Keys)
      ensures log == old(log) + moves && (forall e <- moves :: e.kind.Cleared?)
      ensures Sorting.SortedBy(le, Ids(moves)) && Told(moves, old(active), active, now)
    {
      hide Agree, Told, HeldIn, Latest, Sorting.SortedBy, Sorting.TotalOrder, Ids, Index.Distinct;
      ghost var was := active;
      var ids := ListOf(active.Keys - cur.Keys);
      var gone := Sorting.Sort(le, ids);
      Index.SameMembers(ids, gone);
      assert Index.Elems(gone) == Index.Elems(ids);
      moves := [];
      NothingTold(was, now);
      assert log + moves == log;
      NoIds();
      for i := 0 to |gone|
        invariant Valid() && active == was - Index.Elems(gone[..i])
        invariant log == old(log) + moves && Told(moves, was, active, now)
        invariant (forall e <- moves :: e.kind.Cleared?) && Ids(moves) == gone[..i]
      {
        var id := gone[i];
        assert gone[..i + 1] == gone[..i] + [id];
        GoneNext(gone, i);
        assert was - Index.Elems(gone[..i + 1]) == was - Index.Elems(gone[..i]) - {id};
        ToldClear(moves, was, active, id, now);
        IdsMore(moves, Event(now, id, Cleared, active[id].severity, active[id].message));
        moves := moves + [Event(now, id, Cleared, active[id].severity, active[id].message)];
        Clear(id, now);
      }
      assert gone[..|gone|] == gone;
    }

    /** evaluate, given the live conditions. le is the order of the ids. */
    method Evaluate(raw: seq<Condition>, now: int, le: (string, string) -> bool)
      returns (out: seq<Entry>, ghost noted: seq<Event>, ghost cleared: seq<Event>)
      requires Valid() && Sorting.TotalOrder(le)
      modifies this, buf
      ensures Valid() && active == Fresh(old(active), Worst(raw), now)
      ensures log == old(log) + noted + cleared
      ensures (forall e <- noted :: !e.kind.Cleared?) && (forall e <- cleared :: e.kind.Cleared?)
      ensures Sorting.SortedBy(le, Ids(cleared))
      ensures Told(noted + cleared, old(active), active, now)
      ensures Sorting.SortedBy((a, b) => WorseFirst(le, a, b), out)
      ensures Lists(out, active)
    {
      hide Agree, Told, Fresh, Sorting.TotalOrder, HeldIn, Latest, EntriesOf;
      var cur := Dedupe(raw);
      CurIds(raw);
      ghost var was := active;
      noted := NoteAll(cur, now);
      ghost var mid := active;
      cleared := ClearGone(cur, now, le);
      FreshIs(was, cur, now);
      ToldBoth(noted, cleared, was, mid, active, now);
      WorseTotal(le);
      var ids := ListOf(active.Keys);
      var entries := EntriesOf(active, ids);
      EntriesList(active, ids);
      out := Sorting.Sort((a, b) => WorseFirst(le, a, b), entries);
      Index.SameMembers(entries, out);
    }
  }

  /** The active set the conditions cur leave: each keeps the time it was first
      seen. */
  function Fresh(was: map<string, Active>, cur: map<string, Condition>, now: int): map<string, Active> {
    map id | id in cur :: NowActive(was, cur[id].(id := id), now)
  }

  /** The same after only the conditions in done were looked at. */
  function Noted(was: map<string, Active>, cur: map<string, Condition>, done: set<string>, now: int): map<string, Active> {
    map id | id in was.Keys + (cur.Keys * done) ::
      if id in cur && id in done then NowActive(was, cur[id], now) else was[id]
  }

  function Only(was: map<string, Active>, ids: set<string>): map<string, Active> {
    map id | id in was && id in ids :: was[id]
  }

  function Ids(events: seq<Event>): seq<string> {
    seq(|events|, i requires 0 <= i < |events| => events[i].id)
  }

  /** The condition changed between two active sets in a way the log must tell. */
  predicate Moved(was: map<string, Active>, is_: map<string, Active>, id: string) {
    (id in was) != (id in is_) || (id in was && was[id].severity != is_[id].severity)
  }

  /** The events are one for each condition that moved, and no others. */
  ghost predicate Told(moves: seq<Event>, was: map<string, Active>, is_: map<string, Active>, now: int) {
    && (forall i, j :: 0 <= i < j < |moves| ==> moves[i].id != moves[j].id)
    && (forall e <- moves :: e.time == now && Moved(was, is_, e.id))
    && (forall id :: Moved(was, is_, id) ==> id in Ids(moves))
  }

  lemma NothingTold(was: map<string, Active>, now: int)
    ensures Told([], was, was, now)
  {
  }

  lemma NothingNoted(was: map<string, Active>, cur: map<string, Condition>, now: int)
    ensures Noted(was, cur, {}, now) == was
  {
  }

  lemma NoMoveClears(active: map<string, Active>, c: Condition, now: int)
    ensures forall e <- Moves(active, c, now) :: !e.kind.Cleared?
  {
  }

  lemma NoteStep(was: map<string, Active>, cur: map<string, Condition>, done: set<string>, id: string, now: int)
    requires id in cur && id !in done && cur[id].id == id
    ensures var mid := Noted(was, cur, done, now);
      && (id in mid <==> id in was) && (id in was ==> mid[id] == was[id])
      && mid[id := NowActive(mid, cur[id], now)] == Noted(was, cur, done + {id}, now)
  {
  }

  lemma NoIds()
    ensures Ids([]) == []
  {
  }

  lemma GoneNext(gone: seq<string>, i: nat)
    requires i < |gone| && Index.Distinct(gone)
    ensures gone[i] in Index.Elems(gone) && gone[i] !in Index.Elems(gone[..i])
    ensures Index.Elems(gone[..i + 1]) == Index.Elems(gone[..i]) + {gone[i]}
  {
    assert gone[..i + 1] == gone[..i] + [gone[i]];
  }

  lemma IdsMore(moves: seq<Event>, e: Event)
    ensures Ids(moves + [e]) == Ids(moves) + [e.id]
  {
  }

  lemma ToldMore(moves: seq<Event>, was: map<string, Active>, mid: map<string, Active>, is_: map<string, Active>, e: Event,
    now: int)
    requires Told(moves, was, mid, now) && e.time == now && !Moved(was, mid, e.id) && Moved(was, is_, e.id)
    requires forall id :: id != e.id ==> (Moved(was, is_, id) <==> Moved(was, mid, id))
    ensures Told(moves + [e], was, is_, now)
  {
    hide Moved;
    IdsMore(moves, e);
    forall x <- moves ensures x.id != e.id && Moved(was, is_, x.id) {
    }
  }

  lemma ToldNote(moves: seq<Event>, was: map<string, Active>, mid: map<string, Active>, c: Condition, now: int)
    requires Told(moves, was, mid, now)
    requires (c.id in mid <==> c.id in was) && (c.id in was ==> mid[c.id] == was[c.id])
    ensures Told(moves + Moves(mid, c, now), was, mid[c.id := NowActive(mid, c, now)], now)
  {
    hide Told;
    var is_ := mid[c.id := NowActive(mid, c, now)];
    var more := Moves(mid, c, now);
    if more == [] {
      assert moves + more == moves;
      ToldSame(moves, was, mid, is_, now);
    } else {
      ToldMore(moves, was, mid, is_, more[0], now);
    }
  }

  lemma ToldSame(moves: seq<Event>, was: map<string, Active>, mid: map<string, Active>, is_: map<string, Active>, now: int)
    requires Told(moves, was, mid, now) && forall id :: Moved(was, is_, id) <==> Moved(was, mid, id)
    ensures Told(moves, was, is_, now)
  {
    hide Moved;
  }

  lemma ToldClear(moves: seq<Event>, was: map<string, Active>, mid: map<string, Active>, id: string, now: int)
    requires Told(moves, was, mid, now) && id in mid && id in was && mid[id] == was[id]
    ensures Told(moves + [Event(now, id, Cleared, mid[id].severity, mid[id].message)], was, mid - {id}, now)
  {
    hide Told;
    ToldMore(moves, was, mid, mid - {id}, Event(now, id, Cleared, mid[id].severity, mid[id].message), now);
  }

  /** A condition is either looked at or cleared: the two lists tell of different
      ones. */
  lemma ToldBoth(noted: seq<Event>, cleared: seq<Event>, was: map<string, Active>, mid: map<string, Active>,
    is_: map<string, Active>, now: int)
    requires Told(noted, was, mid, now) && Told(cleared, mid, is_, now)
    requires forall id :: Moved(was, mid, id) ==> !Moved(mid, is_, id)
    requires forall id :: Moved(was, is_, id) <==> Moved(was, mid, id) || Moved(mid, is_, id)
    ensures Told(noted + cleared, was, is_, now)
  {
    hide Moved, Ids;
    var all := noted + cleared;
    IdsConcat(noted, cleared);
    forall i, j | 0 <= i < j < |all| ensures all[i].id != all[j].id {
      if i < |noted| <= j {
        assert all[i] in noted && all[j] in cleared;
      }
    }
    forall id | Moved(was, is_, id) ensures id in Ids(all) {
      assert id in Ids(noted) || id in Ids(cleared);
    }
  }

  lemma IdsConcat(a: seq<Event>, b: seq<Event>)
    ensures Ids(a + b) == Ids(a) + Ids(b)
  {
  }

  lemma {:induction false} CurIds(raw: seq<Condition>)
    ensures forall id <- Worst(raw) :: Worst(raw)[id].id == id
    decreases |raw|
  {
    if raw != [] {
      CurIds(raw[..|raw| - 1]);
    }
  }

  lemma FreshIs(was: map<string, Active>, cur: map<string, Condition>, now: int)
    requires forall id <- cur :: cur[id].id == id
    ensures var mid := Noted(was, cur, cur.Keys, now);
      && Only(mid, cur.Keys) == Fresh(was, cur, now)
      && (forall id :: Moved(was, mid, id) ==> !Moved(mid, Fresh(was, cur, now), id))
      && forall id :: Moved(was, Fresh(was, cur, now), id) <==>
        Moved(was, mid, id) || Moved(mid, Fresh(was, cur, now), id)
  {
  }

  /** A condition is active since it was first seen, whatever becomes of its severity. */
  lemma SinceFirstSeen(was: map<string, Active>, cur: map<string, Condition>, now: int, id: string)
    requires id in cur && cur[id].id == id
    ensures var a := Fresh(was, cur, now)[id];
      && a.since == (if id in was then was[id].since else now)
      && a.severity == cur[id].severity && a.message == cur[id].message && a.detail == cur[id].detail
  {
  }

  // ---- Listing a set ---------------------------------------------------------------------

  lemma NothingListed()
    ensures Index.Distinct<string>([]) && Index.Elems<string>([]) == {}
  {
  }

  lemma ListMore(list: seq<string>, id: string)
    requires Index.Distinct(list) && id !in Index.Elems(list)
    ensures Index.Distinct(list + [id]) && Index.Elems(list + [id]) == Index.Elems(list) + {id}
  {
  }

  /** The ids of a set, in whatever order. */
  method ListOf(ids: set<string>) returns (list: seq<string>)
    ensures Index.Distinct(list) && Index.Elems(list) == ids
  {
    hide Index.Distinct, Index.Elems;
    NothingListed();
    list := [];
    var rest := ids;
    while rest != {}
      invariant Index.Distinct(list) && Index.Elems(list) !! rest && Index.Elems(list) + rest == ids
      decreases |rest|
    {
      var id :| id in rest;
      rest := rest - {id};
      ListMore(list, id);
      list := list + [id];
    }
  }

  datatype Entry = Entry(id: string, active: Active)

  function EntriesOf(active: map<string, Active>, ids: seq<string>): (r: seq<Entry>)
    requires forall id <- ids :: id in active
  {
    seq(|ids|, i requires 0 <= i < |ids| => Entry(ids[i], active[ids[i]]))
  }

  /** Worst severity first, then by id. */
  predicate WorseFirst(le: (string, string) -> bool, a: Entry, b: Entry) {
    var x, y := Rank(a.active.severity), Rank(b.active.severity);
    x > y || (x == y && le(a.id, b.id))
  }

  lemma WorseTotal(le: (string, string) -> bool)
    requires Sorting.TotalOrder(le)
    ensures Sorting.TotalOrder((a, b) => WorseFirst(le, a, b))
  {
  }

  /** list is all of active, each condition once. */
  ghost predicate Lists(list: seq<Entry>, active: map<string, Active>) {
    && (forall x <- list :: x.id in active && active[x.id] == x.active)
    && Index.Distinct(list) && forall id <- active :: Entry(id, active[id]) in list
  }

  lemma EntriesList(active: map<string, Active>, ids: seq<string>)
    requires Index.Distinct(ids) && Index.Elems(ids) == active.Keys
    ensures Lists(EntriesOf(active, ids), active)
  {
    var list := EntriesOf(active, ids);
    forall id <- active ensures Entry(id, active[id]) in list {
      assert id in Index.Elems(ids);
      var i :| 0 <= i < |ids| && ids[i] == id;
      assert list[i] == Entry(id, active[id]);
    }
  }

  /** In a list sorted so no critical entry comes after a degraded one, and entries of
      one severity come by id. */
  lemma WorstFirst(le: (string, string) -> bool, list: seq<Entry>, i: nat, j: nat)
    requires Sorting.SortedBy((a, b) => WorseFirst(le, a, b), list) && i < j < |list|
    ensures list[j].active.severity == Critical ==> list[i].active.severity == Critical
    ensures list[i].active.severity == list[j].active.severity ==> le(list[i].id, list[j].id)
  {
  }

  datatype Status = AllOk | SomeDegraded | SomeCritical

  /** healthStatus: the worst severity of a set of conditions. */
  method HealthStatus(conds: seq<Entry>) returns (status: Status)
    ensures status == AllOk <==> conds == []
    ensures status == SomeCritical <==> exists c <- conds :: c.active.severity == Critical
  {
    status := AllOk;
    for i := 0 to |conds|
      invariant status == if i == 0 then AllOk else SomeDegraded
      invariant forall j :: 0 <= j < i ==> conds[j].active.severity != Critical
    {
      if conds[i].active.severity == Critical {
        return SomeCritical;
      }
      status := SomeDegraded;
    }
  }

  lemma LatestMore(log: seq<Event>, ev: Event)
    ensures Latest(log + [ev]) == if |Latest(log)| < RING_SIZE then Latest(log) + [ev] else Latest(log)[1..] + [ev]
  {
  }
}
