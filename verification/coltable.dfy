/**
 * The in-memory branch of ColTable (src/libcol/types/table.c): a set of
 * tuples, kept in a ColHash whose key comparator is tuple_equal and whose
 * hash is tuple_hash.
 *
 * A tuple is a pointer (a value of type T; pointer identity is `==`).
 * tuple_equal and tuple_hash live in tuple.c, which is not part of this
 * model: tuple_equal is taken to compare tuple contents, so it holds of two
 * tuples exactly when the function `content` agrees on them, and tuple_hash
 * is a function `hash` of the content.  The table's hash is then keyed by
 * content and maps each content to the stored tuple (the pointer that was
 * inserted first).  Tuple refcounts ("pins") are a map from tuple to count.
 */
module ColTable {
  import opened Wrappers
  import opened CTypes
  import ColHash

  /** sizeof(Tuple *): the key length the table gives the hash for a tuple. */
  const TUPLE_KEY_LEN: nat := 8

  datatype Table<T, C> = Table(tuples: ColHash.Hash<C, T>)

  datatype Cursor = Cursor(pos: nat)

  datatype TableError = AssertionFailed | NullDereference

  /** The table is a valid hash, and every stored tuple is filed under its
      own content. */
  ghost predicate Valid<T, C>(tbl: Table<T, C>, content: T -> C) {
    && ColHash.Valid(tbl.tuples)
    && forall c :: c in ColHash.View(tbl.tuples) ==> content(ColHash.View(tbl.tuples)[c]) == c
  }

  /** The stored tuples. */
  ghost function Stored<T, C>(tbl: Table<T, C>): set<T> {
    ColHash.View(tbl.tuples).Values
  }

  /** tuple_equal, as the content comparison. */
  function TupleEqual<T, C(==)>(content: T -> C, a: T, b: T): bool {
    content(a) == content(b)
  }

  /** The current refcount of a tuple. */
  function RefCount<T>(pins: map<T, nat>, t: T): nat {
    if t in pins then pins[t] else 0
  }

  /** tuple_pin. */
  function Pin<T(!new)>(pins: map<T, nat>, t: T): (r: map<T, nat>)
    ensures forall x :: RefCount(r, x) == RefCount(pins, x) + (if x == t then 1 else 0)
  {
    pins[t := RefCount(pins, t) + 1]
  }

  /** tuple_unpin, for a tuple that holds a pin. */
  function Unpin<T(!new)>(pins: map<T, nat>, t: T): (r: map<T, nat>)
    requires RefCount(pins, t) >= 1
    ensures forall x :: RefCount(r, x) == RefCount(pins, x) - (if x == t then 1 else 0)
  {
    pins[t := RefCount(pins, t) - 1]
  }

  /** table_make (in-memory branch): a new table stores nothing. */
  function Make<T, C>(): (tbl: Table<T, C>)
    ensures ColHash.Valid(tbl.tuples) && ColHash.View(tbl.tuples) == map[]
    ensures Stored(tbl) == {}
  {
    Table(ColHash.Make())
  }

  /** table_cmp_tuple: zero exactly for equal tuples; the key length must be
      that of a tuple pointer (an assertion otherwise). */
  function CmpTuple<T, C(==)>(content: T -> C, k1: T, k2: T, klen: int): (r: Result<int, TableError>)
    ensures r.Failure? <==> klen != TUPLE_KEY_LEN
    ensures r.Success? ==> (r.value == 0 <==> TupleEqual(content, k1, k2))
  {
    if klen != TUPLE_KEY_LEN then Failure(AssertionFailed)
    else if TupleEqual(content, k1, k2) then Success(0)
    else Success(1)
  }

  /** table_hash_tuple: tuple_hash of the key, under the same assertion. */
  function HashTuple<T, C>(content: T -> C, hash: C -> Uint32, key: T, klen: int): (r: Result<Uint32, TableError>)
    ensures r.Failure? <==> klen != TUPLE_KEY_LEN
    ensures r.Success? ==> r.value == hash(content(key))
  {
    if klen != TUPLE_KEY_LEN then Failure(AssertionFailed) else Success(hash(content(key)))
  }

  /** Tuples the comparator calls equal get the same hash, so they meet in
      one hash entry.  This restates the modelling assumption that
      tuple_hash is a function of the content tuple_equal compares; it is
      not a property table.c establishes on its own. */
  lemma EqualTuplesCollide<T, C>(content: T -> C, hash: C -> Uint32, a: T, b: T)
    requires CmpTuple(content, a, b, TUPLE_KEY_LEN) == Success(0)
    ensures HashTuple(content, hash, a, TUPLE_KEY_LEN) == HashTuple(content, hash, b, TUPLE_KEY_LEN)
  {
  }

  /** The stored tuple equal to `t`, when there is one. */
  ghost function Representative<T, C>(tbl: Table<T, C>, content: T -> C, t: T): T
    requires content(t) in ColHash.View(tbl.tuples)
  {
    ColHash.View(tbl.tuples)[content(t)]
  }

  lemma StoredEqualIsRepresentative<T, C>(tbl: Table<T, C>, content: T -> C, t: T)
    requires Valid(tbl, content)
    ensures (exists s :: s in Stored(tbl) && content(s) == content(t)) <==> content(t) in ColHash.View(tbl.tuples)
  {
    var m := ColHash.View(tbl.tuples);
    if content(t) in m {
      assert m[content(t)] in Stored(tbl);
    }
  }

  /** table_insert (in-memory branch), reporting "new" exactly when no equal
      tuple was stored.  A new tuple is stored and pinned; for a duplicate
      the table is unchanged and the stored equal tuple is pinned instead.
      Either way the table ends up holding a tuple equal to `t`. */
  function Insert<T(!new), C(==)>(tbl: Table<T, C>, content: T -> C, pins: map<T, nat>, t: T): (r: (Table<T, C>, map<T, nat>, bool))
    requires Valid(tbl, content)
    ensures Valid(r.0, content)
    ensures r.2 <==> forall s :: s in Stored(tbl) ==> !TupleEqual(content, s, t)
    ensures r.2 ==> Stored(r.0) == Stored(tbl) + {t}
    ensures r.2 ==> forall x :: RefCount(r.1, x) == RefCount(pins, x) + (if x == t then 1 else 0)
    ensures !r.2 ==> r.0 == tbl && Representative(tbl, content, t) in Stored(tbl)
    ensures !r.2 ==> forall x :: RefCount(r.1, x) == RefCount(pins, x) + (if x == Representative(tbl, content, t) then 1 else 0)
    ensures exists s :: s in Stored(r.0) && TupleEqual(content, s, t)
  {
    StoredEqualIsRepresentative(tbl, content, t);
    var present := ColHash.Get(tbl.tuples, content(t)).Some?;
    var (h, val) := ColHash.SetIfNew(tbl.tuples, content(t), t);
    assert ColHash.View(h)[content(t)] == val;
    ValuesAfterFreshKey(ColHash.View(tbl.tuples), content(t), t);
    (Table(h), Pin(pins, val), !present)
  }

  lemma ValuesAfterFreshKey<K, V>(m: map<K, V>, k: K, v: V)
    ensures k !in m ==> m[k := v].Values == m.Values + {v}
  {
    if k !in m {
      forall x | x in m.Values ensures x in m[k := v].Values {
      var j :| j in m && m[j] == x;
      assert m[k := v][j] == x;
      }
      forall x | x in m[k := v].Values ensures x in m.Values + {v} {
        var j :| j in m[k := v] && m[k := v][j] == x;
        if j != k {
          assert m[j] == x;
        }
      }
      assert m[k := v][k] == v;
      assert v in m[k := v].Values;
    }
  }

  /** table_insert (in-memory branch) as written: "new" is reported when the
      value the hash returns is `t` itself, which is also the case when this
      very tuple was inserted before. */
  function InsertAsWritten<T(!new), C(==)>(tbl: Table<T, C>, content: T -> C, pins: map<T, nat>, t: T): (r: (Table<T, C>, map<T, nat>, bool))
    requires Valid(tbl, content)
    ensures r.0 == Insert(tbl, content, pins, t).0 && r.1 == Insert(tbl, content, pins, t).1
    ensures r.2 <==> Insert(tbl, content, pins, t).2 || t in Stored(tbl)
  {
    StoredTupleIsItsOwnRepresentative(tbl, content, t);
    var (h, val) := ColHash.SetIfNew(tbl.tuples, content(t), t);
    (Table(h), Pin(pins, val), t == val)
  }

  /** A stored tuple is filed under its own content. */
  lemma StoredTupleIsItsOwnRepresentative<T, C>(tbl: Table<T, C>, content: T -> C, t: T)
    requires Valid(tbl, content)
    ensures t in Stored(tbl) ==> content(t) in ColHash.View(tbl.tuples) && Representative(tbl, content, t) == t
  {
    if t in Stored(tbl) {
      var c :| c in ColHash.View(tbl.tuples) && ColHash.View(tbl.tuples)[c] == t;
    }
  }

  /** Inserting the same tuple twice: the second insert is a no-op on the
      table, yet the source's check reports it as new; the corrected insert
      reports a duplicate. */
  lemma ReinsertReportedAsNew<T(!new), C>(content: T -> C, t: T)
    ensures
      var first := Insert(Make(), content, map[], t);
      var again := InsertAsWritten(first.0, content, first.1, t);
      again.0 == first.0 && again.2 && !Insert(first.0, content, first.1, t).2
  {
    var first := Insert(Make(), content, map[], t);
    assert t in Stored(first.0);
  }

  /** table_cleanup: every stored tuple is unpinned exactly once, nothing
      else is touched.  The hash is walked in scan order. */
  method Cleanup<T(!new), C>(tbl: Table<T, C>, content: T -> C, pins: map<T, nat>) returns (pins': map<T, nat>)
    requires Valid(tbl, content)
    requires forall s :: s in Stored(tbl) ==> RefCount(pins, s) >= 1
    ensures forall x :: RefCount(pins', x) == RefCount(pins, x) - (if x in Stored(tbl) then 1 else 0)
  {
    var es := tbl.tuples.entries;
    EntriesAreStored(tbl, content);
    pins' := pins;
    var i := 0;
    while i < |es|
      invariant i <= |es|
      invariant forall x :: RefCount(pins', x) == RefCount(pins, x) - (if x in Seen(es, i) then 1 else 0)
    {
      var t := es[i].1;
      assert t !in Seen(es, i);
      assert Seen(es, i + 1) == Seen(es, i) + {t};
      pins' := Unpin(pins', t);
      i := i + 1;
    }
    assert Seen(es, |es|) == Stored(tbl);
  }

  /** The tuples of the first `i` entries. */
  ghost function Seen<T, C>(es: seq<(C, T)>, i: nat): set<T>
    requires i <= |es|
  {
    set j | 0 <= j < i :: es[j].1
  }

  /** The entries hold the stored tuples, each filed under its own content,
      so no tuple is held twice. */
  lemma EntriesAreStored<T, C>(tbl: Table<T, C>, content: T -> C)
    requires Valid(tbl, content)
    ensures Seen(tbl.tuples.entries, |tbl.tuples.entries|) == Stored(tbl)
    ensures forall i :: 0 <= i < |tbl.tuples.entries| ==> content(tbl.tuples.entries[i].1) == tbl.tuples.entries[i].0
    ensures forall i, j :: 0 <= i < j < |tbl.tuples.entries| ==> tbl.tuples.entries[i].1 != tbl.tuples.entries[j].1
  {
    var es := tbl.tuples.entries;
    var m := ColHash.View(tbl.tuples);
    forall i | 0 <= i < |es|
      ensures content(es[i].1) == es[i].0 && es[i].1 in Stored(tbl)
    {
      ColHash.ViewAt(es, i);
    }
    forall v | v in Stored(tbl)
      ensures v in Seen(es, |es|)
    {
      var c :| c in m && m[c] == v;
      ColHash.ViewKeys(es, c);
      var i :| 0 <= i < |es| && es[i].0 == c;
      ColHash.ViewAt(es, i);
    }
  }

  // ---------------------------------------------------------------------
  // Scanning.

  /** table_scan_first (in-memory branch), returning NULL (None) for an
      empty table like the end of a scan does. */
  function ScanFirst<T, C>(tbl: Table<T, C>): (r: (Cursor, Option<T>))
    ensures r.1.None? <==> Stored(tbl) == {}
    ensures r.1.Some? ==> r.1.value in Stored(tbl) && r.0.pos == 0
  {
    if tbl.tuples.entries == [] then
      (Cursor(0), None)
    else
      EmptyIffNoEntries(tbl);
      (Cursor(0), Some(tbl.tuples.entries[0].1))
  }

  /** table_scan_first (in-memory branch) as written: on an empty table the
      iterator is NULL and col_hash_this dereferences it. */
  function ScanFirstAsWritten<T, C>(tbl: Table<T, C>): (r: Result<(Cursor, T), TableError>)
    ensures r.Failure? <==> Stored(tbl) == {}
    ensures r.Success? ==> ScanFirst(tbl) == (r.value.0, Some(r.value.1))
  {
    EmptyIffNoEntries(tbl);
    if tbl.tuples.entries == [] then Failure(NullDereference)
    else Success((Cursor(0), tbl.tuples.entries[0].1))
  }

  lemma EmptyIffNoEntries<T, C>(tbl: Table<T, C>)
    ensures Stored(tbl) == {} <==> tbl.tuples.entries == []
    ensures tbl.tuples.entries != [] ==> tbl.tuples.entries[0].1 in Stored(tbl)
  {
    if tbl.tuples.entries != [] {
      var e := tbl.tuples.entries[0];
      ColHash.FindAgreesWithView(tbl.tuples.entries, e.0);
      assert ColHash.View(tbl.tuples)[e.0] in Stored(tbl);
    }
  }

  /** table_scan_next (in-memory branch): the tuple of the next entry, or
      NULL (None) after the last.  The cursor must be live. */
  function ScanNext<T, C>(tbl: Table<T, C>, cur: Cursor): (r: (Cursor, Option<T>))
    requires cur.pos < |tbl.tuples.entries|
    ensures r.0.pos == cur.pos + 1
    ensures r.1.None? <==> r.0.pos == |tbl.tuples.entries|
    ensures r.1.Some? ==> r.1.value == tbl.tuples.entries[r.0.pos].1
  {
    var next := cur.pos + 1;
    if next < |tbl.tuples.entries| then (Cursor(next), Some(tbl.tuples.entries[next].1))
    else (Cursor(next), None)
  }

  /** What repeated scan_next calls from a live cursor return before NULL. */
  function ScanRest<T, C>(tbl: Table<T, C>, cur: Cursor): seq<T>
    requires cur.pos < |tbl.tuples.entries|
    decreases |tbl.tuples.entries| - cur.pos
  {
    var (next, t) := ScanNext(tbl, cur);
    if t.None? then [] else [t.value] + ScanRest(tbl, next)
  }

  /** Everything a whole scan returns before NULL. */
  function Scan<T, C>(tbl: Table<T, C>): seq<T> {
    var (cur, t) := ScanFirst(tbl);
    if t.None? then [] else [t.value] + ScanRest(tbl, cur)
  }

  lemma {:induction false} ScanRestIsEntries<T, C>(tbl: Table<T, C>, cur: Cursor)
    requires cur.pos < |tbl.tuples.entries|
    ensures |ScanRest(tbl, cur)| == |tbl.tuples.entries| - cur.pos - 1
    ensures forall i :: 0 <= i < |ScanRest(tbl, cur)| ==> ScanRest(tbl, cur)[i] == tbl.tuples.entries[cur.pos + 1 + i].1
    decreases |tbl.tuples.entries| - cur.pos
  {
    var (next, t) := ScanNext(tbl, cur);
    if t.Some? {
      ScanRestIsEntries(tbl, next);
    }
  }

  /** A scan returns every stored tuple exactly once, then NULL. */
  lemma ScanReturnsEachStoredTupleOnce<T, C>(tbl: Table<T, C>, content: T -> C)
    requires Valid(tbl, content)
    ensures forall t :: t in Scan(tbl) <==> t in Stored(tbl)
    ensures forall i, j :: 0 <= i < j < |Scan(tbl)| ==> Scan(tbl)[i] != Scan(tbl)[j]
    ensures |Scan(tbl)| == |tbl.tuples.entries|
  {
    var es := tbl.tuples.entries;
    EntriesAreStored(tbl, content);
    if es != [] {
      ScanRestIsEntries(tbl, Cursor(0));
      var s := Scan(tbl);
      assert forall i :: 0 <= i < |s| ==> s[i] == es[i].1;
      forall t | t in Stored(tbl) ensures t in s {
        var i :| 0 <= i < |es| && es[i].1 == t;
        assert s[i] == t;
      }
    } else {
      EmptyIffNoEntries(tbl);
    }
  }
}
