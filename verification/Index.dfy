/**
 Group-by indexes. Several tables of the program keep their records in one map
 and group them under keys in others (by Call-ID, by address-of-record, by
 source, by token). Records are named by handles; an index maps a key to the
 list of the handles grouped under it, with no empty list.
 */
module Index {
  ghost predicate Distinct<E>(list: seq<E>) {
    forall i, j :: 0 <= i < j < |list| ==> list[i] != list[j]
  }

  /** idx groups exactly the records of table, each once, under its own key. */
  ghost predicate Agrees<K, E, V>(idx: map<K, seq<E>>, table: map<E, V>, key: V -> K) {
    && (forall k <- idx :: idx[k] != [] && Distinct(idx[k]))
    && (forall k <- idx, e <- idx[k] :: e in table && key(table[e]) == k)
    && (forall e <- table :: key(table[e]) in idx && e in idx[key(table[e])])
  }

  function Group<K, E>(idx: map<K, seq<E>>, k: K): seq<E> {
    if k in idx then idx[k] else []
  }

  function Add<K, E>(idx: map<K, seq<E>>, k: K, e: E): map<K, seq<E>> {
    idx[k := Group(idx, k) + [e]]
  }

  /** list without its first e. */
  function Without<E(==)>(list: seq<E>, e: E): (r: seq<E>)
    ensures e !in list ==> r == list
  {
    if list == [] then []
    else if list[0] == e then list[1..]
    else [list[0]] + Without(list[1..], e)
  }

  function Put<K, E>(idx: map<K, seq<E>>, k: K, list: seq<E>): map<K, seq<E>> {
    if list == [] then idx - {k} else idx[k := list]
  }

  function Drop<K, E(==)>(idx: map<K, seq<E>>, k: K, e: E): map<K, seq<E>> {
    Put(idx, k, Without(Group(idx, k), e))
  }

  lemma {:induction false} WithoutAt<E>(list: seq<E>, i: nat)
    requires i < |list| && list[i] !in list[..i]
    ensures Without(list, list[i]) == list[..i] + list[i + 1..]
    decreases |list|
  {
    if i > 0 {
      assert list[0] != list[i] by {
        assert list[..i][0] == list[0];
      }
      assert list[1..][..i - 1] == list[..i][1..];
      WithoutAt(list[1..], i - 1);
    }
  }

  /** From a list of distinct handles exactly the one is removed. */
  lemma {:induction false} WithoutDistinct<E>(list: seq<E>, e: E)
    requires Distinct(list)
    ensures Distinct(Without(list, e))
    ensures forall x :: x in Without(list, e) <==> x in list && x != e
    ensures |Without(list, e)| == |list| - if e in list then 1 else 0
    decreases |list|
  {
    hide Distinct;
    if e in list {
      var i := Place(list, e);
      DistinctPieces(list[..i], e, list[i + 1..]);
      PiecesMembers(list[..i], e, list[i + 1..]);
    }
  }

  /** Where e stands first in list, and what list is without it there. */
  lemma Place<E>(list: seq<E>, e: E) returns (i: nat)
    requires e in list
    ensures i < |list| && list[i] == e && e !in list[..i]
    ensures list == list[..i] + [e] + list[i + 1..] && Without(list, e) == list[..i] + list[i + 1..]
  {
    i := 0;
    while list[i] != e
      invariant i < |list| && e !in list[..i] && e in list[i..]
      decreases |list| - i
    {
      assert list[..i + 1] == list[..i] + [list[i]] && list[i..] == [list[i]] + list[i + 1..];
      i := i + 1;
    }
    WithoutAt(list, i);
  }

  lemma DistinctPieces<E>(a: seq<E>, e: E, b: seq<E>)
    requires Distinct(a + [e] + b)
    ensures Distinct(a + b) && e !in a && e !in b
  {
    var all, left := a + [e] + b, a + b;
    forall i, j | 0 <= i < j < |left| ensures left[i] != left[j] {
      assert left[i] == all[if i < |a| then i else i + 1] && left[j] == all[if j < |a| then j else j + 1];
    }
    assert all[|a|] == e;
    forall i | 0 <= i < |a| ensures a[i] != e {
      assert all[i] == a[i];
    }
    forall i | 0 <= i < |b| ensures b[i] != e {
      assert all[|a| + 1 + i] == b[i];
    }
  }

  lemma PiecesMembers<E>(a: seq<E>, e: E, b: seq<E>)
    requires e !in a && e !in b
    ensures forall x :: x in a + b <==> x in a + [e] + b && x != e
  {
  }

  lemma AddAgrees<K, E, V>(idx: map<K, seq<E>>, table: map<E, V>, key: V -> K, e: E, v: V)
    requires Agrees(idx, table, key) && e !in table
    ensures Agrees(Add(idx, key(v), e), table[e := v], key)
  {
    var k := key(v);
    var list := Group(idx, k);
    assert e !in list;
  }

  lemma WithoutMember<E>(list: seq<E>, e: E, x: E)
    requires Distinct(list)
    ensures x in Without(list, e) <==> x in list && x != e
  {
    WithoutDistinct(list, e);
  }

  lemma DropAgrees<K, E, V>(idx: map<K, seq<E>>, table: map<E, V>, key: V -> K, e: E)
    requires Agrees(idx, table, key) && e in table
    ensures Agrees(Drop(idx, key(table[e]), e), table - {e}, key)
  {
    var k := key(table[e]);
    WithoutDistinct(idx[k], e);
    var list := Without(idx[k], e);
    forall x | x in table && x != e && key(table[x]) == k ensures x in list && list != [] {
      assert x in idx[k];
    }
    var after := Drop(idx, k, e);
    forall j, x | j in after && x in after[j] ensures x in table - {e} && key(table[x]) == j {
      if j == k {
        WithoutMember(idx[k], e, x);
      } else {
        assert x in idx[j];
      }
    }
  }

  /** A record may change in place as long as its key does not. */
  lemma UpdateAgrees<K, E, V>(idx: map<K, seq<E>>, table: map<E, V>, key: V -> K, e: E, v: V)
    requires Agrees(idx, table, key) && e in table && key(v) == key(table[e])
    ensures Agrees(idx, table[e := v], key)
  {
  }

  /** A list of the index holds exactly the records of its key. */
  lemma GroupMembers<K, E, V>(idx: map<K, seq<E>>, table: map<E, V>, key: V -> K, k: K)
    requires Agrees(idx, table, key)
    ensures Distinct(Group(idx, k))
    ensures forall e :: e in Group(idx, k) <==> e in table && key(table[e]) == k
  {
    forall e | e in table && key(table[e]) == k ensures e in Group(idx, k) {
      assert key(table[e]) in idx;
    }
  }

  function Elems<E>(list: seq<E>): set<E> {
    set e | e in list
  }

  /** all falls into what is left and what is done. */
  ghost predicate Splits<K>(rest: set<K>, done: set<K>, all: set<K>) {
    rest !! done && rest + done == all
  }

  lemma SplitsNext<K>(rest: set<K>, done: set<K>, all: set<K>, k: K)
    requires Splits(rest, done, all) && k in rest
    ensures k in all && k !in done && Splits(rest - {k}, done + {k}, all)
  {
  }

  lemma SplitsEnds<K>(all: set<K>)
    ensures Splits(all, {}, all) && forall done :: Splits({}, done, all) ==> done == all
  {
  }

  lemma ElemsSnoc<E>(list: seq<E>, e: E)
    ensures Elems(list + [e]) == Elems(list) + {e}
  {
  }

  lemma {:induction false} SetSize<E>(list: seq<E>)
    requires Distinct(list)
    ensures |Elems(list)| == |list|
    decreases |list|
  {
    if list != [] {
      SetSize(list[1..]);
      assert Elems(list) == Elems(list[1..]) + {list[0]};
      assert list[0] !in list[1..];
    }
  }

  lemma CountTwice<T>(list: seq<T>, i: nat, j: nat)
    requires i < j < |list| && list[i] == list[j]
    ensures multiset(list)[list[i]] >= 2
  {
    assert list == list[..j] + [list[j]] + list[j + 1..];
    assert list[..j][i] == list[i];
    assert list[i] in multiset(list[..j]);
    assert multiset(list) == multiset(list[..j]) + multiset{list[j]} + multiset(list[j + 1..]);
  }

  lemma {:induction false} CountOnce<T>(list: seq<T>, x: T)
    requires Distinct(list)
    ensures multiset(list)[x] <= 1
    decreases |list|
  {
    if list != [] {
      var init := list[..|list| - 1];
      CountOnce(init, x);
      assert list == init + [list[|list| - 1]];
      assert list[|list| - 1] !in init;
    }
  }

  /** A permutation of different elements repeats none. */
  lemma SameMembers<T>(a: seq<T>, b: seq<T>)
    requires multiset(a) == multiset(b) && Distinct(a)
    ensures Distinct(b) && forall x :: x in a <==> x in b
  {
    forall x ensures x in a <==> x in b {
      assert x in multiset(a) <==> x in multiset(b);
    }
    forall i, j | 0 <= i < j < |b| ensures b[i] != b[j] {
      if b[i] == b[j] {
        CountTwice(b, i, j);
        CountOnce(a, b[i]);
      }
    }
  }
}
