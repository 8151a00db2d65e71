/**
 A SIP message as the list of its headers, edited in place by the operations
 the program uses: prepend, append, remove the first header of a name, remove
 them all, replace. Headers of different names do not order each other, so what
 an edit means is said name by name: `Of` lists the headers of one name.
 */
module Headers {
  import opened Options
  import opened Text

  datatype Uri = Uri(user: string, host: string, port: nat, params: string)

  datatype Header =
    | Via(transport: string, host: string, port: nat, branch: string, received: Option<string>, rport: Option<string>)
    | RecordRoute(uri: Uri)
    | Route(uri: Uri)
    | MaxForwards(hops: nat)
    | From(uri: Uri, tag: string)
    | To(uri: Uri, tag: string)
    | Contact(uri: Uri)
    | Other(name: string, value: string)

  /** The name of a header. */
  datatype Kind =
    | KVia | KRecordRoute | KRoute | KMaxForwards | KFrom | KTo | KContact
    | KOther(name: string)

  function KindOf(h: Header): Kind {
    match h
    case Via(_, _, _, _, _, _) => KVia
    case RecordRoute(_) => KRecordRoute
    case Route(_) => KRoute
    case MaxForwards(_) => KMaxForwards
    case From(_, _) => KFrom
    case To(_, _) => KTo
    case Contact(_) => KContact
    case Other(name, _) => KOther(name)
  }

  /** The headers of one name, in order. */
  function Of(hs: seq<Header>, k: Kind): (r: seq<Header>)
    ensures forall h <- r :: KindOf(h) == k
  {
    if hs == [] then []
    else if KindOf(hs[0]) == k then [hs[0]] + Of(hs[1..], k)
    else Of(hs[1..], k)
  }

  lemma {:induction false} OfConcat(a: seq<Header>, b: seq<Header>, k: Kind)
    ensures Of(a + b, k) == Of(a, k) + Of(b, k)
    decreases |a|
  {
    if a == [] {
      assert a + b == b;
    } else {
      assert (a + b)[1..] == a[1..] + b;
      OfConcat(a[1..], b, k);
    }
  }

  /** A list of headers of one name lists as itself under it, and as nothing
      under any other. */
  lemma {:induction false} OfSame(a: seq<Header>, j: Kind, k: Kind)
    requires forall h <- a :: KindOf(h) == j
    ensures Of(a, k) == if j == k then a else []
    decreases |a|
  {
    if a != [] {
      assert KindOf(a[0]) == j;
      OfSame(a[1..], j, k);
    }
  }

  /** hs without its first header of name k. */
  function RemoveFirst(hs: seq<Header>, k: Kind): seq<Header> {
    if hs == [] then []
    else if KindOf(hs[0]) == k then hs[1..]
    else [hs[0]] + RemoveFirst(hs[1..], k)
  }

  lemma {:induction false} OfRemoveFirst(hs: seq<Header>, k: Kind, j: Kind)
    ensures Of(RemoveFirst(hs, k), j) == if j == k && Of(hs, k) != [] then Of(hs, k)[1..] else Of(hs, j)
    ensures Of(hs, k) == [] ==> RemoveFirst(hs, k) == hs
    ensures Of(hs, k) != [] ==> |RemoveFirst(hs, k)| == |hs| - 1
    decreases |hs|
  {
    hide Of;
    if hs == [] {
      OfNothing(j);
      OfNothing(k);
    } else {
      var rest := hs[1..];
      assert [hs[0]] + rest == hs;
      OfCons(hs[0], rest, j);
      OfCons(hs[0], rest, k);
      if KindOf(hs[0]) != k {
        OfRemoveFirst(rest, k, j);
        OfCons(hs[0], RemoveFirst(rest, k), j);
      }
    }
  }

  lemma OfRemoved(hs: seq<Header>, k: Kind)
    ensures forall j :: Of(RemoveFirst(hs, k), j) == if j == k && Of(hs, k) != [] then Of(hs, k)[1..] else Of(hs, j)
    ensures if Of(hs, k) == [] then RemoveFirst(hs, k) == hs else |RemoveFirst(hs, k)| == |hs| - 1
  {
    hide Of, RemoveFirst;
    forall j ensures Of(RemoveFirst(hs, k), j) == if j == k && Of(hs, k) != [] then Of(hs, k)[1..] else Of(hs, j) {
      OfRemoveFirst(hs, k, j);
    }
    OfRemoveFirst(hs, k, k);
  }

  lemma OfNothing(k: Kind)
    ensures Of([], k) == []
  {
  }

  lemma OfCons(h: Header, hs: seq<Header>, k: Kind)
    ensures Of([h] + hs, k) == (if KindOf(h) == k then [h] else []) + Of(hs, k)
  {
    assert ([h] + hs)[1..] == hs;
  }

  /** The header of name k no other precedes. */
  lemma {:induction false} FirstAt(hs: seq<Header>, k: Kind, i: nat)
    requires i <= |hs| && (i < |hs| ==> KindOf(hs[i]) == k)
    requires forall j :: 0 <= j < i ==> KindOf(hs[j]) != k
    ensures i == |hs| <==> Of(hs, k) == []
    ensures RemoveFirst(hs, k) == if i == |hs| then hs else hs[..i] + hs[i + 1..]
    ensures Of(hs[..i], k) == []
    decreases |hs|
  {
    hide Of;
    OfNothing(k);
    if hs != [] {
      var rest := hs[1..];
      assert [hs[0]] + rest == hs;
      OfCons(hs[0], rest, k);
      if i > 0 {
        FirstAt(rest, k, i - 1);
        assert hs[..i] == [hs[0]] + rest[..i - 1];
        OfCons(hs[0], rest[..i - 1], k);
      }
    }
  }

  lemma ReplaceAt(hs: seq<Header>, h: Header, i: nat, j: Kind)
    requires i < |hs| && KindOf(hs[i]) == KindOf(h) && Of(hs[..i], KindOf(h)) == []
    ensures Of(hs, KindOf(h)) != []
    ensures Of(hs[i := h], j) == if j == KindOf(h) then [h] + Of(hs, j)[1..] else Of(hs, j)
  {
    hide Of;
    assert hs == hs[..i] + [hs[i]] + hs[i + 1..];
    assert hs[i := h] == hs[..i] + [h] + hs[i + 1..];
    PieceReplaced(hs[..i], hs[i], h, hs[i + 1..], j);
  }

  lemma SecondOf(was: Header, h: Header, tail: seq<Header>)
    ensures [] + [was] + tail != [] && [] + [h] + tail == [h] + ([] + [was] + tail)[1..]
  {
    assert ([] + [was] + tail)[1..] == tail;
  }

  lemma PieceReplaced(a: seq<Header>, was: Header, h: Header, b: seq<Header>, j: Kind)
    requires KindOf(was) == KindOf(h) && Of(a, KindOf(h)) == []
    ensures Of(a + [was] + b, KindOf(h)) != []
    ensures Of(a + [h] + b, j) ==
      if j == KindOf(h) then [h] + Of(a + [was] + b, j)[1..] else Of(a + [was] + b, j)
  {
    hide Of, KindOf;
    OfPieces(a, was, b, j);
    OfPieces(a, h, b, j);
    OfPieces(a, was, b, KindOf(h));
    SecondOf(was, h, Of(b, KindOf(h)));
  }

  lemma OfPieces(a: seq<Header>, h: Header, b: seq<Header>, k: Kind)
    ensures Of(a + [h] + b, k) == if KindOf(h) == k then Of(a, k) + [h] + Of(b, k) else Of(a, k) + Of(b, k)
  {
    hide Of;
    OfConcat(a + [h], b, k);
    OfConcat(a, [h], k);
    OfSame([h], KindOf(h), k);
    assert Of(a, k) + [] == Of(a, k);
  }

  /** The headers whose name is not dropped. */
  function Keep(hs: seq<Header>, drop: Kind -> bool): seq<Header> {
    if hs == [] then []
    else if drop(KindOf(hs[0])) then Keep(hs[1..], drop)
    else [hs[0]] + Keep(hs[1..], drop)
  }

  /** The names of the headers to drop, one per occurrence. */
  function Dropped(hs: seq<Header>, drop: Kind -> bool): (names: seq<Kind>)
    ensures forall k <- names :: drop(k)
  {
    if hs == [] then []
    else if drop(KindOf(hs[0])) then [KindOf(hs[0])] + Dropped(hs[1..], drop)
    else Dropped(hs[1..], drop)
  }

  lemma {:induction false} OfKeep(hs: seq<Header>, drop: Kind -> bool, k: Kind)
    ensures Of(Keep(hs, drop), k) == if drop(k) then [] else Of(hs, k)
    decreases |hs|
  {
    if hs != [] {
      OfKeep(hs[1..], drop, k);
      assert ([hs[0]] + Keep(hs[1..], drop))[1..] == Keep(hs[1..], drop);
    }
  }

  lemma {:induction false} DroppedConcat(a: seq<Header>, b: seq<Header>, drop: Kind -> bool)
    ensures Dropped(a + b, drop) == Dropped(a, drop) + Dropped(b, drop)
    decreases |a|
  {
    if a == [] {
      assert a + b == b;
    } else {
      assert (a + b)[1..] == a[1..] + b;
      DroppedConcat(a[1..], b, drop);
    }
  }

  /** Removing the first header of the first name to drop removes exactly the
      first header to drop: all its namesakes are to go too. */
  lemma {:induction false} DropOne(hs: seq<Header>, drop: Kind -> bool)
    requires Dropped(hs, drop) != []
    ensures var k := Dropped(hs, drop)[0];
      Dropped(RemoveFirst(hs, k), drop) == Dropped(hs, drop)[1..] && Keep(RemoveFirst(hs, k), drop) == Keep(hs, drop)
    decreases |hs|
  {
    if !drop(KindOf(hs[0])) {
      DropOne(hs[1..], drop);
      var k := Dropped(hs, drop)[0];
      assert ([hs[0]] + RemoveFirst(hs[1..], k))[1..] == RemoveFirst(hs[1..], k);
    }
  }

  lemma {:induction false} NothingDropped(hs: seq<Header>, drop: Kind -> bool)
    requires Dropped(hs, drop) == []
    ensures Keep(hs, drop) == hs
    decreases |hs|
  {
    if hs != [] {
      NothingDropped(hs[1..], drop);
    }
  }

  /** Has a datatype case of its own; the others are generic headers. */
  predicate Typed(k: Kind) {
    !k.KOther?
  }

  /** Drops just the one name. */
  function Only(k: Kind): Kind -> bool {
    j => j == k
  }

  lemma {:induction false} KeepConcat(a: seq<Header>, b: seq<Header>, drop: Kind -> bool)
    ensures Keep(a + b, drop) == Keep(a, drop) + Keep(b, drop)
    decreases |a|
  {
    if a == [] {
      assert a + b == b;
    } else {
      assert (a + b)[1..] == a[1..] + b;
      KeepConcat(a[1..], b, drop);
    }
  }

  lemma {:induction false} KeepTwice(hs: seq<Header>, f: Kind -> bool, g: Kind -> bool)
    ensures Keep(Keep(hs, f), g) == Keep(Keep(hs, g), f)
    decreases |hs|
  {
    if hs != [] {
      KeepTwice(hs[1..], f, g);
      assert ([hs[0]] + Keep(hs[1..], f))[1..] == Keep(hs[1..], f);
      assert ([hs[0]] + Keep(hs[1..], g))[1..] == Keep(hs[1..], g);
    }
  }

  lemma {:induction false} KeepMembers(hs: seq<Header>, drop: Kind -> bool)
    ensures forall h :: h in Keep(hs, drop) <==> h in hs && !drop(KindOf(h))
    decreases |hs|
  {
    if hs != [] {
      KeepMembers(hs[1..], drop);
    }
  }

  lemma {:induction false} KeepRemoveFirst(hs: seq<Header>, k: Kind, drop: Kind -> bool)
    requires drop(k)
    ensures Keep(RemoveFirst(hs, k), drop) == Keep(hs, drop)
    decreases |hs|
  {
    if hs != [] && KindOf(hs[0]) != k {
      KeepRemoveFirst(hs[1..], k, drop);
      assert ([hs[0]] + RemoveFirst(hs[1..], k))[1..] == RemoveFirst(hs[1..], k);
    }
  }

  /** A generic header's name, written in any case. */
  predicate Folds(k: Kind, name: string) {
    k.KOther? && EqualFold(k.name, name)
  }

  function Under(name: string): Kind -> bool {
    k => Folds(k, name)
  }

  function NotUnder(name: string): Kind -> bool {
    k => !Folds(k, name)
  }

  /** What is dropped anyway need not be dropped first. */
  lemma {:induction false} KeepWithin(hs: seq<Header>, f: Kind -> bool, g: Kind -> bool)
    requires forall h <- hs :: f(KindOf(h)) ==> g(KindOf(h))
    ensures Keep(Keep(hs, f), g) == Keep(hs, g)
    decreases |hs|
  {
    if hs != [] {
      KeepWithin(hs[1..], f, g);
      assert ([hs[0]] + Keep(hs[1..], f))[1..] == Keep(hs[1..], f);
    }
  }

  lemma {:induction false} KeepAll(hs: seq<Header>, drop: Kind -> bool)
    requires forall h <- hs :: !drop(KindOf(h))
    ensures Keep(hs, drop) == hs
    decreases |hs|
  {
    if hs != [] {
      KeepAll(hs[1..], drop);
    }
  }

  lemma {:induction false} KeepNone(hs: seq<Header>, drop: Kind -> bool)
    requires forall h <- hs :: drop(KindOf(h))
    ensures Keep(hs, drop) == []
    decreases |hs|
  {
    if hs != [] {
      KeepNone(hs[1..], drop);
    }
  }

  lemma OnlyDrops(k: Kind)
    ensures Only(k)(k)
  {
  }

  lemma {:induction false} KeepOnly(hs: seq<Header>, k: Kind)
    requires Of(hs, k) == []
    ensures Keep(hs, Only(k)) == hs
    decreases |hs|
  {
    if hs != [] {
      KeepOnly(hs[1..], k);
    }
  }

  /** A header replaced by one of a name that is dropped as well. */
  lemma KeepReplaced(hs: seq<Header>, i: nat, h: Header, drop: Kind -> bool)
    requires i < |hs| && KindOf(hs[i]) == KindOf(h) && drop(KindOf(h))
    ensures Keep(hs[i := h], drop) == Keep(hs, drop)
  {
    hide Keep;
    assert hs == hs[..i] + ([hs[i]] + hs[i + 1..]);
    assert hs[i := h] == hs[..i] + ([h] + hs[i + 1..]);
    KeepConcat(hs[..i], [hs[i]] + hs[i + 1..], drop);
    KeepConcat(hs[..i], [h] + hs[i + 1..], drop);
    KeepFirst(hs[i], hs[i + 1..], drop);
    KeepFirst(h, hs[i + 1..], drop);
  }

  lemma KeepFirst(h: Header, hs: seq<Header>, drop: Kind -> bool)
    ensures Keep([h] + hs, drop) == (if drop(KindOf(h)) then [] else [h]) + Keep(hs, drop)
  {
    assert ([h] + hs)[1..] == hs;
  }

  class Message {
    var headers: seq<Header>

    constructor (hs: seq<Header>)
      ensures headers == hs
    {
      headers := hs;
    }

    ghost function Named(k: Kind): seq<Header>
      reads this
    {
      Of(headers, k)
    }

    /** The generic headers, in order across their names. */
    ghost function Generic(): seq<Header>
      reads this
    {
      Keep(headers, Typed)
    }

    /** Every name but those in except lists what it did, and so do the generic
        headers together unless one is in except. */
    twostate predicate OthersKept(except: set<Kind>)
      reads this
    {
      && (forall k :: k !in except ==> Named(k) == old(Named(k)))
      && ((forall k <- except :: Typed(k)) ==> Generic() == old(Generic()))
    }

    method All(k: Kind) returns (hs: seq<Header>)
      ensures hs == Named(k)
    {
      hs := [];
      for i := 0 to |headers|
        invariant hs == Of(headers[..i], k)
      {
        assert headers[..i + 1] == headers[..i] + [headers[i]];
        OfConcat(headers[..i], [headers[i]], k);
        if KindOf(headers[i]) == k {
          hs := hs + [headers[i]];
        }
      }
      assert headers[..|headers|] == headers;
    }

    method Prepend(h: Header)
      modifies this
      ensures Named(KindOf(h)) == [h] + old(Named(KindOf(h))) && OthersKept({KindOf(h)})
    {
      KeepConcat([h], headers, Typed);
      headers := [h] + headers;
      forall k ensures Named(k) == (if k == KindOf(h) then [h] else []) + old(Named(k)) {
        OfConcat([h], old(headers), k);
      }
    }

    /** The headers whose name is not dropped, in order. */
    method Kept(drop: Kind -> bool) returns (hs: seq<Header>)
      ensures hs == Keep(headers, drop)
    {
      hs := [];
      for i := 0 to |headers|
        invariant hs == Keep(headers[..i], drop)
      {
        assert headers[..i + 1] == headers[..i] + [headers[i]];
        KeepConcat(headers[..i], [headers[i]], drop);
        if !drop(KindOf(headers[i])) {
          hs := hs + [headers[i]];
        }
      }
      assert headers[..|headers|] == headers;
    }

    /** Puts hs, headers of one name, on top in their order. */
    method PrependAll(hs: seq<Header>, k: Kind)
      requires forall h <- hs :: KindOf(h) == k
      modifies this
      ensures Named(k) == hs + old(Named(k)) && OthersKept({k})
    {
      KeepConcat(hs, headers, Typed);
      headers := hs + headers;
      if Typed(k) {
        KeepNone(hs, Typed);
      }
      forall j ensures Named(j) == (if j == k then hs else []) + old(Named(j)) {
        OfConcat(hs, old(headers), j);
        OfSame(hs, k, j);
      }
    }

    method Append(h: Header)
      modifies this
      ensures Named(KindOf(h)) == old(Named(KindOf(h))) + [h] && OthersKept({KindOf(h)})
      ensures !Typed(KindOf(h)) ==> Generic() == old(Generic()) + [h]
    {
      KeepConcat(headers, [h], Typed);
      headers := headers + [h];
      forall k ensures Named(k) == old(Named(k)) + if k == KindOf(h) then [h] else [] {
        OfConcat(old(headers), [h], k);
      }
    }

    /** Where the first header of name k is, the length if there is none. */
    method IndexOf(k: Kind) returns (i: nat)
      ensures i <= |headers| && (i < |headers| ==> KindOf(headers[i]) == k)
      ensures forall j :: 0 <= j < i ==> KindOf(headers[j]) != k
    {
      i := 0;
      while i < |headers| && KindOf(headers[i]) != k
        invariant i <= |headers| && forall j :: 0 <= j < i ==> KindOf(headers[j]) != k
      {
        i := i + 1;
      }
    }

    /** sipgo's RemoveHeader: the first of that name. */
    method RemoveHeader(k: Kind) returns (removed: bool)
      modifies this
      ensures removed == (old(Named(k)) != [])
      ensures Named(k) == (if removed then old(Named(k))[1..] else []) && OthersKept({k})
      ensures headers == RemoveFirst(old(headers), k)
      ensures |headers| == |old(headers)| - if removed then 1 else 0
    {
      hide Of, Keep, RemoveFirst;
      OfRemoved(headers, k);
      if Typed(k) {
        KeepRemoveFirst(headers, k, Typed);
      }
      var i := IndexOf(k);
      FirstAt(headers, k, i);
      if i == |headers| {
        return false;
      }
      headers := headers[..i] + headers[i + 1..];
      return true;
    }

    /** Replaces the first header of h's name. */
    method ReplaceHeader(h: Header)
      requires Named(KindOf(h)) != []
      modifies this
      ensures old(Named(KindOf(h))) != []
      ensures Named(KindOf(h)) == [h] + old(Named(KindOf(h)))[1..] && OthersKept({KindOf(h)})
    {
      var i := IndexOf(KindOf(h));
      FirstAt(headers, KindOf(h), i);
      ghost var before := headers;
      headers := headers[i := h];
      if Typed(KindOf(h)) {
        KeepReplaced(before, i, h, Typed);
      }
      forall j ensures Of(headers, j) == if j == KindOf(h) then [h] + Of(before, j)[1..] else Of(before, j) {
        ReplaceAt(before, h, i, j);
      }
    }

    /** RemoveHeaders: all of that name. */
    method RemoveHeaders(k: Kind)
      modifies this
      ensures Named(k) == [] && OthersKept({k})
      ensures headers == Keep(old(headers), Only(k)) && Generic() == Keep(old(Generic()), Only(k))
    {
      hide Of, Keep, RemoveFirst, Only;
      OnlyDrops(k);
      KeepRemoveFirst(headers, k, Only(k));
      var more := RemoveHeader(k);
      while more
        invariant OthersKept({k}) && (!more ==> Named(k) == []) && Keep(headers, Only(k)) == Keep(old(headers), Only(k))
        decreases |headers|, more
      {
        KeepRemoveFirst(headers, k, Only(k));
        more := RemoveHeader(k);
      }
      KeepOnly(headers, k);
      KeepTwice(old(headers), Only(k), Typed);
    }

    /** Collects the names to drop, one per occurrence, then removes the first
        header of each. */
    method RemoveCollected(drop: Kind -> bool)
      modifies this
      ensures headers == Keep(old(headers), drop) && Generic() == Keep(old(Generic()), drop)
      ensures forall k :: Named(k) == if drop(k) then [] else old(Named(k))
    {
      var names: seq<Kind> := [];
      for i := 0 to |headers|
        invariant headers == old(headers) && names == Dropped(headers[..i], drop)
      {
        assert headers[..i + 1] == headers[..i] + [headers[i]];
        DroppedConcat(headers[..i], [headers[i]], drop);
        if drop(KindOf(headers[i])) {
          names := names + [KindOf(headers[i])];
        }
      }
      assert headers[..|headers|] == headers;
      for i := 0 to |names|
        invariant Dropped(headers, drop) == names[i..] && Keep(headers, drop) == Keep(old(headers), drop)
      {
        DropOne(headers, drop);
        var _ := RemoveHeader(names[i]);
      }
      NothingDropped(headers, drop);
      KeepTwice(old(headers), drop, Typed);
      forall k ensures Named(k) == if drop(k) then [] else old(Named(k)) {
        OfKeep(old(headers), drop, k);
      }
    }
  }
}
