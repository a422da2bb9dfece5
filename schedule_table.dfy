/**
 * The `NotificationSet` container of the notification component: a table of
 * schedule snapshots `(Object, NextMessage)` with two views.
 *
 *  - the identity view (index 0): at most one entry per notification,
 *    looked up and erased by the notification itself;
 *  - the time view (index 1): entries in ascending `NextMessage`, whose
 *    first element is the earliest one.
 *
 * The table is modelled as ONE sequence in time-view order whose objects are
 * unique, so both views always hold the same entries. `Index` gives the
 * identity view as a map; the lemmas at the end show that on that map
 * `Erase` is a map removal and `Insert` is a map insert that leaves an
 * existing key alone.
 *
 * Inserting an entry whose object is already present leaves the table as it
 * is (a unique-key multi-index insert refuses the duplicate). Among entries
 * with equal times, a new entry goes after the existing ones.
 */
module ScheduleTable {

  datatype Option<T> = None | Some(value: T)

  /** A schedule snapshot: the notification and the time its next message is due. */
  datatype Entry<T> = Entry(obj: T, nextMessage: int)

  /** The time view: ascending `nextMessage`. */
  predicate Sorted<T>(s: seq<Entry<T>>)
  {
    forall i, j :: 0 <= i < j < |s| ==> s[i].nextMessage <= s[j].nextMessage
  }

  /** The keys of the identity view. */
  function Objects<T(==)>(s: seq<Entry<T>>): set<T>
  {
    if s == [] then {} else {s[0].obj} + Objects(s[1..])
  }

  predicate Contains<T(==)>(s: seq<Entry<T>>, o: T)
  {
    o in Objects(s)
  }

  /** The identity view's key is unique. */
  predicate UniqueObjects<T(==)>(s: seq<Entry<T>>)
  {
    s == [] || (s[0].obj !in Objects(s[1..]) && UniqueObjects(s[1..]))
  }

  /** The container invariant: both indices are consistent with the entries. */
  predicate WellFormed<T(==)>(s: seq<Entry<T>>)
  {
    Sorted(s) && UniqueObjects(s)
  }

  /** Lookup through the identity view (`find(notification)`). */
  function Find<T(==)>(s: seq<Entry<T>>, o: T): (r: Option<Entry<T>>)
    ensures r.Some? <==> Contains(s, o)
    ensures r.Some? ==> r.value in s && r.value.obj == o
  {
    if s == [] then None
    else if s[0].obj == o then Some(s[0])
    else Find(s[1..], o)
  }

  /** `begin()` of the time view. */
  function Earliest<T>(s: seq<Entry<T>>): (e: Entry<T>)
    requires s != [] && Sorted(s)
    ensures e in s
    ensures forall x :: x in s ==> e.nextMessage <= x.nextMessage
  {
    s[0]
  }

  /** Places `e` in the time view after every entry that is due no later than it. */
  function InsertOrdered<T(==)>(s: seq<Entry<T>>, e: Entry<T>): (r: seq<Entry<T>>)
    ensures multiset(r) == multiset(s) + multiset{e}
  {
    if s == [] || e.nextMessage < s[0].nextMessage then [e] + s
    else
      assert s == [s[0]] + s[1..];
      [s[0]] + InsertOrdered(s[1..], e)
  }

  lemma {:induction false} InsertOrderedObjects<T>(s: seq<Entry<T>>, e: Entry<T>)
    ensures Objects(InsertOrdered(s, e)) == Objects(s) + {e.obj}
  {
    if s == [] || e.nextMessage < s[0].nextMessage {
      assert ([e] + s)[1..] == s;
    } else {
      var r := InsertOrdered(s, e);
      assert r[1..] == InsertOrdered(s[1..], e);
      InsertOrderedObjects(s[1..], e);
    }
  }

  lemma {:induction false} InsertOrderedSorted<T>(s: seq<Entry<T>>, e: Entry<T>)
    requires Sorted(s)
    ensures Sorted(InsertOrdered(s, e))
  {
    if s == [] || e.nextMessage < s[0].nextMessage {
    } else {
      var rest := InsertOrdered(s[1..], e);
      var r := [s[0]] + rest;
      InsertOrderedSorted(s[1..], e);
      forall j | 0 < j < |r| ensures s[0].nextMessage <= r[j].nextMessage {
        assert r[j] == rest[j - 1];
        assert r[j] in multiset(rest);
        if r[j] != e {
          assert r[j] in s[1..];
        }
      }
    }
  }

  lemma InsertOrderedLength<T>(s: seq<Entry<T>>, e: Entry<T>)
    ensures |InsertOrdered(s, e)| == |s| + 1
  {
    assert |multiset(InsertOrdered(s, e))| == |s| + 1;
  }

  /** Every entry due no later than `e` keeps its position: `e` goes after all of them, ties included. */
  lemma {:induction false} InsertOrderedAfterEqual<T>(s: seq<Entry<T>>, e: Entry<T>, i: int)
    requires Sorted(s) && 0 <= i < |s| && s[i].nextMessage <= e.nextMessage
    ensures |InsertOrdered(s, e)| == |s| + 1
    ensures InsertOrdered(s, e)[i] == s[i]
  {
    InsertOrderedLength(s, e);
    assert s[0].nextMessage <= e.nextMessage;
    assert InsertOrdered(s, e) == [s[0]] + InsertOrdered(s[1..], e);
    if i > 0 {
      assert s[1..][i - 1] == s[i];
      InsertOrderedAfterEqual(s[1..], e, i - 1);
    }
  }

  /** Every entry due strictly later than `e` moves one place down: `e` goes before all of them. */
  lemma {:induction false} InsertOrderedBeforeLater<T>(s: seq<Entry<T>>, e: Entry<T>, i: int)
    requires Sorted(s) && 0 <= i < |s| && e.nextMessage < s[i].nextMessage
    ensures |InsertOrdered(s, e)| == |s| + 1
    ensures InsertOrdered(s, e)[i + 1] == s[i]
  {
    InsertOrderedLength(s, e);
    if e.nextMessage >= s[0].nextMessage {
      assert i > 0;
      assert InsertOrdered(s, e) == [s[0]] + InsertOrdered(s[1..], e);
      assert s[1..][i - 1] == s[i];
      InsertOrderedBeforeLater(s[1..], e, i - 1);
    }
  }

  lemma {:induction false} InsertOrderedUnique<T>(s: seq<Entry<T>>, e: Entry<T>)
    requires UniqueObjects(s) && e.obj !in Objects(s)
    ensures UniqueObjects(InsertOrdered(s, e))
  {
    if s == [] || e.nextMessage < s[0].nextMessage {
      assert ([e] + s)[1..] == s;
    } else {
      var r := InsertOrdered(s, e);
      assert r[1..] == InsertOrdered(s[1..], e);
      InsertOrderedUnique(s[1..], e);
      InsertOrderedObjects(s[1..], e);
    }
  }

  /** `insert(e)`: adds `e` unless its object is already scheduled. */
  function Insert<T(==)>(s: seq<Entry<T>>, e: Entry<T>): (r: seq<Entry<T>>)
    ensures Objects(r) == Objects(s) + {e.obj}
    ensures Contains(s, e.obj) ==> r == s
    ensures !Contains(s, e.obj) ==> multiset(r) == multiset(s) + multiset{e}
  {
    if Contains(s, e.obj) then s
    else
      InsertOrderedObjects(s, e);
      InsertOrdered(s, e)
  }

  /** Inserting keeps the table sorted by time and unique by object. */
  lemma InsertWellFormed<T>(s: seq<Entry<T>>, e: Entry<T>)
    requires WellFormed(s)
    ensures WellFormed(Insert(s, e))
  {
    if !Contains(s, e.obj) {
      InsertOrderedWellFormed(s, e);
    }
  }

  lemma InsertOrderedWellFormed<T>(s: seq<Entry<T>>, e: Entry<T>)
    requires e.obj !in Objects(s)
    ensures WellFormed(s) ==> WellFormed(InsertOrdered(s, e))
  {
    if WellFormed(s) {
      InsertOrderedSorted(s, e);
      InsertOrderedUnique(s, e);
    }
  }

  /** Insert keeps every entry and adds `e` exactly when its object was not scheduled. */
  lemma InsertMembers<T>(s: seq<Entry<T>>, e: Entry<T>, x: Entry<T>)
    ensures x in Insert(s, e) <==> x in s || (x == e && !Contains(s, e.obj))
  {
    assert x in Insert(s, e) <==> x in multiset(Insert(s, e));
  }

  /** Inserts each of `es` in order. */
  function InsertAll<T(==)>(s: seq<Entry<T>>, es: seq<Entry<T>>): seq<Entry<T>>
    decreases |es|
  {
    if es == [] then s else InsertAll(Insert(s, es[0]), es[1..])
  }

  /** A non-empty run of inserts starts with the insert of its first entry. */
  lemma InsertAllCons<T>(s: seq<Entry<T>>, es: seq<Entry<T>>, i: int)
    requires 0 <= i < |es|
    ensures InsertAll(s, es[i..]) == InsertAll(Insert(s, es[i]), es[i + 1..])
  {
    assert es[i..][0] == es[i];
    assert es[i..][1..] == es[i + 1..];
  }

  lemma {:induction false} InsertAllWellFormed<T>(s: seq<Entry<T>>, es: seq<Entry<T>>)
    requires WellFormed(s)
    ensures WellFormed(InsertAll(s, es))
    decreases |es|
  {
    if es != [] {
      InsertWellFormed(s, es[0]);
      InsertAllWellFormed(Insert(s, es[0]), es[1..]);
    }
  }

  /** Afterwards exactly the objects of `s` and of `es` are in the table. */
  lemma {:induction false} InsertAllObjects<T>(s: seq<Entry<T>>, es: seq<Entry<T>>)
    ensures Objects(InsertAll(s, es)) == Objects(s) + set e | e in es :: e.obj
    decreases |es|
  {
    if es != [] {
      InsertAllObjects(Insert(s, es[0]), es[1..]);
      assert es == [es[0]] + es[1..];
      assert (set e | e in es :: e.obj) == {es[0].obj} + (set e | e in es[1..] :: e.obj);
    }
  }

  /** No entry already in the table is replaced. */
  lemma {:induction false} InsertAllKeeps<T>(s: seq<Entry<T>>, es: seq<Entry<T>>, x: Entry<T>)
    requires x in s
    ensures x in InsertAll(s, es)
    decreases |es|
  {
    if es != [] {
      InsertMembers(s, es[0], x);
      InsertAllKeeps(Insert(s, es[0]), es[1..], x);
    }
  }

  /** Every entry afterwards was in the table or is one of `es`. */
  lemma {:induction false} InsertAllAdds<T>(s: seq<Entry<T>>, es: seq<Entry<T>>, x: Entry<T>)
    requires x in InsertAll(s, es)
    ensures x in s || x in es
    decreases |es|
  {
    if es != [] {
      InsertAllAdds(Insert(s, es[0]), es[1..], x);
      InsertMembers(s, es[0], x);
      assert x in es[1..] ==> x in es;
    }
  }

  /** `erase(o)` through the identity view: drops the entry of `o`, if any. */
  function Erase<T(==)>(s: seq<Entry<T>>, o: T): (r: seq<Entry<T>>)
    ensures Objects(r) == Objects(s) - {o}
    ensures multiset(r) <= multiset(s)
  {
    if s == [] then []
    else
      assert s == [s[0]] + s[1..];
      if s[0].obj == o then Erase(s[1..], o)
      else [s[0]] + Erase(s[1..], o)
  }

  /** Erasing `o` keeps exactly the entries that do not belong to `o`. */
  lemma {:induction false} EraseMembers<T>(s: seq<Entry<T>>, o: T, x: Entry<T>)
    ensures x in Erase(s, o) <==> x in s && x.obj != o
  {
    if s != [] {
      assert s == [s[0]] + s[1..];
      EraseMembers(s[1..], o, x);
    }
  }

  lemma {:induction false} EraseAbsent<T>(s: seq<Entry<T>>, o: T)
    requires !Contains(s, o)
    ensures Erase(s, o) == s
  {
    if s != [] {
      assert s == [s[0]] + s[1..];
      EraseAbsent(s[1..], o);
    }
  }

  lemma {:induction false} EraseSorted<T>(s: seq<Entry<T>>, o: T)
    requires Sorted(s)
    ensures Sorted(Erase(s, o))
  {
    if s != [] {
      EraseSorted(s[1..], o);
      if s[0].obj != o {
        var rest := Erase(s[1..], o);
        var r := [s[0]] + rest;
        forall j | 0 < j < |r| ensures s[0].nextMessage <= r[j].nextMessage {
          assert r[j] == rest[j - 1];
          EraseMembers(s[1..], o, r[j]);
        }
      }
    }
  }

  lemma {:induction false} EraseUnique<T>(s: seq<Entry<T>>, o: T)
    requires UniqueObjects(s)
    ensures UniqueObjects(Erase(s, o))
  {
    if s != [] {
      EraseUnique(s[1..], o);
      if s[0].obj != o {
        var r := Erase(s, o);
        assert r[1..] == Erase(s[1..], o);
      }
    }
  }

  lemma EraseWellFormed<T>(s: seq<Entry<T>>, o: T)
    requires WellFormed(s)
    ensures WellFormed(Erase(s, o))
  {
    EraseSorted(s, o);
    EraseUnique(s, o);
  }

  /** On a well-formed table, erasing removes exactly the one entry `Find` reports. */
  lemma {:induction false} EraseFound<T>(s: seq<Entry<T>>, o: T)
    requires UniqueObjects(s) && Contains(s, o)
    ensures multiset(Erase(s, o)) == multiset(s) - multiset{Find(s, o).value}
    ensures |Erase(s, o)| == |s| - 1
  {
    assert s == [s[0]] + s[1..];
    if s[0].obj == o {
      EraseAbsent(s[1..], o);
    } else {
      EraseFound(s[1..], o);
    }
  }

  /** Erasing the object of the first entry removes exactly that entry. */
  lemma EraseFirst<T>(s: seq<Entry<T>>)
    requires UniqueObjects(s) && s != []
    ensures Erase(s, s[0].obj) == s[1..]
  {
    EraseAbsent(s[1..], s[0].obj);
  }

  /** Erasing the object of position `k` removes exactly that position; every other entry keeps its relative order. */
  lemma {:induction false} EraseAt<T>(s: seq<Entry<T>>, k: int)
    requires UniqueObjects(s) && 0 <= k < |s|
    ensures Erase(s, s[k].obj) == s[..k] + s[k + 1..]
  {
    if k == 0 {
      EraseFirst(s);
    } else {
      var t := s[1..];
      assert t[k - 1] == s[k];
      ObjectsOfMember(t, s[k]);
      EraseAt(t, k - 1);
      assert Erase(s, s[k].obj) == [s[0]] + Erase(t, s[k].obj);
      ConsOfSlices(s, k);
    }
  }

  lemma ConsOfSlices<E>(s: seq<E>, k: int)
    requires 0 < k < |s|
    ensures [s[0]] + (s[1..][..k - 1] + s[1..][k..]) == s[..k] + s[k + 1..]
  {
    assert s[1..][..k - 1] == s[1..k];
    assert s[1..][k..] == s[k + 1..];
    assert s[..k] == [s[0]] + s[1..k];
  }

  /** The identity view as a map from object to due time. */
  function Index<T(==)>(s: seq<Entry<T>>): map<T, int>
  {
    if s == [] then map[] else Index(s[1..])[s[0].obj := s[0].nextMessage]
  }

  /** The identity view holds exactly the table's objects, each with the time `Find` reports. */
  lemma {:induction false} IndexAgreesWithFind<T>(s: seq<Entry<T>>, o: T)
    ensures o in Index(s) <==> Contains(s, o)
    ensures Contains(s, o) ==> Index(s)[o] == Find(s, o).value.nextMessage
  {
    if s != [] {
      IndexAgreesWithFind(s[1..], o);
    }
  }

  /** Insert acts on the identity view as a map insert that keeps an existing key. */
  lemma {:induction false} IndexOfInsert<T>(s: seq<Entry<T>>, e: Entry<T>)
    ensures Index(Insert(s, e)) ==
      if e.obj in Index(s) then Index(s) else Index(s)[e.obj := e.nextMessage]
  {
    IndexAgreesWithFind(s, e.obj);
    if !Contains(s, e.obj) {
      IndexOfInsertOrdered(s, e);
    }
  }

  lemma {:induction false} IndexOfInsertOrdered<T>(s: seq<Entry<T>>, e: Entry<T>)
    requires !Contains(s, e.obj)
    ensures Index(InsertOrdered(s, e)) == Index(s)[e.obj := e.nextMessage]
  {
    if s == [] || e.nextMessage < s[0].nextMessage {
      assert ([e] + s)[1..] == s;
    } else {
      var r := InsertOrdered(s, e);
      assert r[1..] == InsertOrdered(s[1..], e);
      IndexOfInsertOrdered(s[1..], e);
      assert s[0].obj != e.obj;
    }
  }

  /** Erase acts on the identity view as removal of the key. */
  lemma {:induction false} IndexOfErase<T>(s: seq<Entry<T>>, o: T)
    ensures Index(Erase(s, o)) == Index(s) - {o}
  {
    if s != [] {
      IndexOfErase(s[1..], o);
      var m, k, v := Index(s[1..]), s[0].obj, s[0].nextMessage;
      assert Index(s) == m[k := v];
      if k == o {
        assert Erase(s, o) == Erase(s[1..], o);
        MapUpdateRemove(m, k, v);
      } else {
        var r := Erase(s, o);
        assert r == [s[0]] + Erase(s[1..], o);
        assert r[1..] == Erase(s[1..], o);
        assert Index(r) == (m - {o})[k := v];
        MapRemoveUpdate(m, k, v, o);
      }
    }
  }

  lemma MapUpdateRemove<K, V>(m: map<K, V>, k: K, v: V)
    ensures m[k := v] - {k} == m - {k}
  {
  }

  lemma MapRemoveUpdate<K, V>(m: map<K, V>, k: K, v: V, o: K)
    requires k != o
    ensures (m - {o})[k := v] == m[k := v] - {o}
  {
  }

  /** Erasing the object just inserted gives back the original table. */
  lemma {:induction false} EraseInsertRoundTrip<T>(s: seq<Entry<T>>, e: Entry<T>)
    requires !Contains(s, e.obj)
    ensures Erase(Insert(s, e), e.obj) == s
  {
    if s == [] || e.nextMessage < s[0].nextMessage {
      assert ([e] + s)[1..] == s;
      EraseAbsent(s, e.obj);
    } else {
      var r := InsertOrdered(s, e);
      assert r[1..] == InsertOrdered(s[1..], e);
      assert s == [s[0]] + s[1..];
      EraseInsertRoundTrip(s[1..], e);
    }
  }

  /** Taking an entry out and putting the same snapshot back restores the table's entries. */
  lemma EraseThenInsertSameEntry<T>(s: seq<Entry<T>>, e: Entry<T>)
    requires WellFormed(s) && e in s
    ensures multiset(Insert(Erase(s, e.obj), e)) == multiset(s)
  {
    ObjectsOfMember(s, e);
    FindMember(s, e);
    EraseFound(s, e.obj);
  }

  lemma {:induction false} ObjectsOfMember<T>(s: seq<Entry<T>>, x: Entry<T>)
    requires x in s
    ensures x.obj in Objects(s)
  {
    if s[0] != x {
      assert x in s[1..];
      ObjectsOfMember(s[1..], x);
    }
  }

  /** In a table with unique objects, an entry is what the identity view finds for its object. */
  lemma {:induction false} FindMember<T>(s: seq<Entry<T>>, x: Entry<T>)
    requires UniqueObjects(s) && x in s
    ensures Find(s, x.obj) == Some(x)
  {
    if s[0] != x {
      assert x in s[1..];
      ObjectsOfMember(s[1..], x);
      FindMember(s[1..], x);
    }
  }

  /** Erasing twice is erasing once. */
  lemma EraseIdempotent<T>(s: seq<Entry<T>>, o: T)
    ensures Erase(Erase(s, o), o) == Erase(s, o)
  {
    EraseAbsent(Erase(s, o), o);
  }
}
