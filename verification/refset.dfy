/**
 * RSet, the reference-counted set of libc4 (src/libc4/util/rset.c): a
 * chained hash table whose entries carry a count of how many times their
 * element was added.
 *
 * The key comparator the set is made with (cmp_func, true on equality) is an
 * equivalence; it is modelled by the function `cls` mapping a key to its
 * class, so cmp_func(a, b) holds iff cls(a) == cls(b).  The hash function is
 * a function of the class, so equal keys hash alike.  Abstractly the set is
 * the multiset of classes whose multiplicity is the refcount (`Count`); the
 * stored key of each class is its representative (`Elements`).
 *
 * Chains are sequences, head first; a new entry goes at the tail, as the
 * chain walk of find_entry leaves its insertion point there.
 */
module RefSet {
  import opened Wrappers
  import opened CTypes

  /** INITIAL_MAX: the first bucket array has 16 buckets. */
  const INITIAL_MAX: nat := 15

  /** The callbacks an rset is made with: cmp_func compares classes,
      hash_func hashes the class. */
  datatype Callbacks<!K, !C> = Callbacks(cls: K -> C, hash: C -> Uint32)

  /** hash_func applied to a key. */
  function HashOf<K, C>(cb: Callbacks<K, C>, k: K): Uint32 {
    cb.hash(cb.cls(k))
  }

  datatype Entry<K> = Entry(key: K, hash: Uint32, refcount: nat)

  /** The bucket array (max + 1 chains), the number of entries, the mask and
      the list of recycled entries. */
  datatype RSet<K> = RSet(buckets: seq<seq<Entry<K>>>, count: nat, max: nat, free: seq<Entry<K>>)

  datatype IterError = IterAtEnd | NullDereference

  // ---------------------------------------------------------------------
  // Masks and bucket indices.

  /** `m` is 2^n - 1 for some n: every bit below the top one is set. */
  predicate IsMask(m: nat)
    decreases m
  {
    m == 0 || (m % 2 == 1 && IsMask(m / 2))
  }

  /** Bitwise AND of two naturals. */
  function BitAnd(a: nat, b: nat): nat
    decreases a
  {
    if a == 0 || b == 0 then 0
    else 2 * BitAnd(a / 2, b / 2) + (if a % 2 == 1 && b % 2 == 1 then 1 else 0)
  }

  lemma MulAtLeast(a: int, n: int)
    requires a >= 1 && n > 0
    ensures a * n >= n
  {
  }

  lemma ModOfDecomposition(h: int, n: int, s: int, x: int)
    requires n > 0 && 0 <= x < n && h == s * n + x
    ensures h % n == x
  {
    var q, r := h / n, h % n;
    assert (q - s) * n == x - r;
    if q > s {
      MulAtLeast(q - s, n);
    } else if q < s {
      MulAtLeast(s - q, n);
    }
  }

  /** With a mask, AND is the remainder by the array size: the reason the
      source keeps the maximum index rather than the size. */
  lemma {:induction false} AndWithMaskIsMod(h: nat, m: nat)
    requires IsMask(m)
    ensures BitAnd(h, m) == h % (m + 1)
    decreases m
  {
    if h == 0 || m == 0 {
    } else {
      var m' := m / 2;
      var n := m' + 1;
      var q, r := h / 2, h % 2;
      AndWithMaskIsMod(q, m');
      assert BitAnd(h, m) == 2 * BitAnd(q, m') + r;
      var s, t := q / n, q % n;
      DivMod(q, n);
      var sn := s * n;
      assert q == sn + t;
      assert s * (m + 1) == 2 * sn by {
        assert m + 1 == 2 * n;
        MulTwice(s, n);
      }
      assert h == s * (m + 1) + (2 * t + r);
      ModOfDecomposition(h, m + 1, s, 2 * t + r);
    }
  }

  lemma DivMod(q: int, n: int)
    requires n > 0
    ensures q == (q / n) * n + q % n && 0 <= q % n < n
  {
  }

  lemma MulTwice(s: int, n: int)
    ensures s * (2 * n) == 2 * (s * n)
  {
  }

  /** `hash & max`: the bucket a hash belongs in. */
  function BucketIndex(h: Uint32, max: nat): (i: nat)
    requires IsMask(max)
    ensures i == h % (max + 1) && i <= max
  {
    AndWithMaskIsMod(h, max);
    BitAnd(h, max)
  }

  /** Expansion keeps the mask a mask. */
  lemma ExpandedMaskIsMask(m: nat)
    requires IsMask(m)
    ensures IsMask(2 * m + 1)
  {
    assert (2 * m + 1) / 2 == m;
  }

  // ---------------------------------------------------------------------
  // Representation invariant.

  /** Every entry of chain `b` carries its key's hash, sits in bucket
      `hash & max`, and has refcount at least 1. */
  ghost predicate ChainPlaced<K, C>(s: seq<Entry<K>>, cb: Callbacks<K, C>, b: nat, max: nat) {
    forall j :: 0 <= j < |s| ==>
      s[j].hash == HashOf(cb, s[j].key) && s[j].hash % (max + 1) == b && s[j].refcount >= 1
  }

  /** No two entries of a chain hold equal keys. */
  ghost predicate ChainDistinct<K, C>(s: seq<Entry<K>>, cb: Callbacks<K, C>) {
    forall i, j :: 0 <= i < j < |s| ==> cb.cls(s[i].key) != cb.cls(s[j].key)
  }

  /** The bucket array is well formed for mask `max`. */
  ghost predicate Placed<K, C>(bk: seq<seq<Entry<K>>>, cb: Callbacks<K, C>, max: nat) {
    && |bk| == max + 1
    && (forall b :: 0 <= b < |bk| ==> ChainPlaced(bk[b], cb, b, max))
    && (forall b :: 0 <= b < |bk| ==> ChainDistinct(bk[b], cb))
  }

  /** All stored entries. */
  ghost function EntriesOf<K>(bk: seq<seq<Entry<K>>>): set<Entry<K>> {
    set b, j | 0 <= b < |bk| && 0 <= j < |bk[b]| :: bk[b][j]
  }

  /** The stored keys: one representative per class present. */
  ghost function Elements<K>(rs: RSet<K>): set<K> {
    set e | e in EntriesOf(rs.buckets) :: e.key
  }

  /** The invariant every rset keeps between calls, except the load bound. */
  ghost predicate Layout<K, C>(rs: RSet<K>, cb: Callbacks<K, C>) {
    && IsMask(rs.max) && INITIAL_MAX <= rs.max
    && Placed(rs.buckets, cb, rs.max)
    && rs.count == |Elements(rs)|
    && (forall i :: 0 <= i < |rs.free| ==> rs.free[i].refcount == 0)
  }

  /** The invariant: the layout, and fewer entries than buckets
      (count <= max; the collision-rate check expands the array once
      count > max). */
  ghost predicate Valid<K, C>(rs: RSet<K>, cb: Callbacks<K, C>) {
    Layout(rs, cb) && rs.count <= rs.max
  }

  // ---------------------------------------------------------------------
  // The abstract multiset.

  /** What entry `e` contributes to the multiplicity of class `c`. */
  function Weight<K, C(==)>(e: Entry<K>, cb: Callbacks<K, C>, c: C): nat {
    if cb.cls(e.key) == c then e.refcount else 0
  }

  /** The total refcount of class `c` in a chain. */
  ghost function Sum<K, C>(s: seq<Entry<K>>, cb: Callbacks<K, C>, c: C): nat {
    if s == [] then 0 else Sum(s[..|s| - 1], cb, c) + Weight(s[|s| - 1], cb, c)
  }

  /** The multiplicity of class `c`: its total refcount in its home bucket. */
  ghost function Count<K, C>(rs: RSet<K>, cb: Callbacks<K, C>, c: C): nat {
    var h := cb.hash(c) % (rs.max + 1);
    if h < |rs.buckets| then Sum(rs.buckets[h], cb, c) else 0
  }

  /** The multiset of classes changes by `n` copies of class `c0` from `rs`
      to `rs'` and is otherwise the same. */
  ghost predicate CountChanged<K, C(!new)>(rs: RSet<K>, rs': RSet<K>, cb: Callbacks<K, C>, c0: C, n: int) {
    forall c :: Count(rs', cb, c) == Count(rs, cb, c) + (if c == c0 then n else 0)
  }

  /** `rs` and `rs'` hold the same multiset of classes. */
  ghost predicate SameCounts<K, C(!new)>(rs: RSet<K>, rs': RSet<K>, cb: Callbacks<K, C>) {
    forall c :: Count(rs', cb, c) == Count(rs, cb, c)
  }

  lemma ComposeCounts<K, C(!new)>(rs: RSet<K>, mid: RSet<K>, rs': RSet<K>, cb: Callbacks<K, C>, c0: C, n: int)
    requires CountChanged(rs, mid, cb, c0, n) && SameCounts(mid, rs', cb)
    ensures CountChanged(rs, rs', cb, c0, n)
  {
    forall c ensures Count(rs', cb, c) == Count(rs, cb, c) + (if c == c0 then n else 0) {
      assert Count(rs', cb, c) == Count(mid, cb, c);
    }
  }

  lemma {:induction false} SumConcat<K, C>(a: seq<Entry<K>>, b: seq<Entry<K>>, cb: Callbacks<K, C>, c: C)
    ensures Sum(a + b, cb, c) == Sum(a, cb, c) + Sum(b, cb, c)
    decreases |b|
  {
    if b != [] {
      assert (a + b)[..|a + b| - 1] == a + b[..|b| - 1];
      SumConcat(a, b[..|b| - 1], cb, c);
    } else {
      assert a + b == a;
    }
  }

  lemma {:induction false} SumAbsent<K, C>(s: seq<Entry<K>>, cb: Callbacks<K, C>, c: C)
    requires forall i :: 0 <= i < |s| ==> cb.cls(s[i].key) != c
    ensures Sum(s, cb, c) == 0
  {
    if s != [] {
      SumAbsent(s[..|s| - 1], cb, c);
    }
  }

  /** In a chain without equal keys, the total for the class of entry `j`
      is that entry's refcount. */
  lemma SumUnique<K, C>(s: seq<Entry<K>>, cb: Callbacks<K, C>, j: nat)
    requires ChainDistinct(s, cb)
    requires j < |s|
    ensures Sum(s, cb, cb.cls(s[j].key)) == s[j].refcount
  {
    var c := cb.cls(s[j].key);
    assert s == s[..j] + [s[j]] + s[j + 1..];
    SumConcat(s[..j] + [s[j]], s[j + 1..], cb, c);
    SumConcat(s[..j], [s[j]], cb, c);
    SumAbsent(s[..j], cb, c);
    SumAbsent(s[j + 1..], cb, c);
    assert Sum([s[j]], cb, c) == s[j].refcount by {
      assert [s[j]][..0] == [];
    }
  }

  /** Replacing entry `j` of a chain changes each class's total by the
      difference of the two entries' contributions. */
  lemma SumReplace<K, C>(s: seq<Entry<K>>, cb: Callbacks<K, C>, j: nat, x: Entry<K>, c: C)
    requires j < |s|
    ensures Sum(s[j := x], cb, c) + Weight(s[j], cb, c) == Sum(s, cb, c) + Weight(x, cb, c)
  {
    assert s == s[..j] + [s[j]] + s[j + 1..];
    assert s[j := x] == s[..j] + [x] + s[j + 1..];
    SumConcat(s[..j] + [s[j]], s[j + 1..], cb, c);
    SumConcat(s[..j], [s[j]], cb, c);
    SumConcat(s[..j] + [x], s[j + 1..], cb, c);
    SumConcat(s[..j], [x], cb, c);
    assert [s[j]][..0] == [] && [x][..0] == [];
  }

  lemma SumDelete<K, C>(s: seq<Entry<K>>, cb: Callbacks<K, C>, j: nat, c: C)
    requires j < |s|
    ensures Sum(s[..j] + s[j + 1..], cb, c) + Weight(s[j], cb, c) == Sum(s, cb, c)
  {
    assert s == s[..j] + [s[j]] + s[j + 1..];
    SumConcat(s[..j] + [s[j]], s[j + 1..], cb, c);
    SumConcat(s[..j], [s[j]], cb, c);
    SumConcat(s[..j], s[j + 1..], cb, c);
    assert [s[j]][..0] == [];
  }

  /** In a well-placed array an entry can only be found in its own bucket. */
  lemma EntriesByHome<K, C>(bk: seq<seq<Entry<K>>>, cb: Callbacks<K, C>, max: nat, x: Entry<K>)
    requires Placed(bk, cb, max)
    ensures x in EntriesOf(bk) <==> x in bk[x.hash % (max + 1)]
  {
    var h := x.hash % (max + 1);
    if x in bk[h] {
      var j :| 0 <= j < |bk[h]| && bk[h][j] == x;
      assert bk[h][j] in EntriesOf(bk);
    }
    if x in EntriesOf(bk) {
      var b, j :| 0 <= b < |bk| && 0 <= j < |bk[b]| && bk[b][j] == x;
      assert ChainPlaced(bk[b], cb, b, max);
    }
  }

  /** The multiplicity of a stored entry's class is its refcount. */
  lemma CountOfEntry<K, C>(bk: seq<seq<Entry<K>>>, cb: Callbacks<K, C>, max: nat, x: Entry<K>, rs: RSet<K>)
    requires Placed(bk, cb, max) && rs.buckets == bk && rs.max == max
    requires x in EntriesOf(bk)
    ensures Count(rs, cb, cb.cls(x.key)) == x.refcount
  {
    var b, j :| 0 <= b < |bk| && 0 <= j < |bk[b]| && bk[b][j] == x;
    assert ChainPlaced(bk[b], cb, b, max);
    SumUnique(bk[b], cb, j);
  }

  /** A class with no stored entry has multiplicity zero. */
  lemma CountOfAbsent<K, C>(rs: RSet<K>, cb: Callbacks<K, C>, c: C)
    requires Placed(rs.buckets, cb, rs.max)
    requires forall x :: x in EntriesOf(rs.buckets) ==> cb.cls(x.key) != c
    ensures Count(rs, cb, c) == 0
  {
    var h := cb.hash(c) % (rs.max + 1);
    forall i | 0 <= i < |rs.buckets[h]| ensures cb.cls(rs.buckets[h][i].key) != c {
      assert rs.buckets[h][i] in EntriesOf(rs.buckets);
    }
    SumAbsent(rs.buckets[h], cb, c);
  }

  /** Two arrays with the same entries give every class the same
      multiplicity, whatever the bucket count. */
  lemma SameEntriesSameCount<K, C>(rs: RSet<K>, rs': RSet<K>, cb: Callbacks<K, C>, c: C)
    requires Placed(rs.buckets, cb, rs.max) && Placed(rs'.buckets, cb, rs'.max)
    requires EntriesOf(rs.buckets) == EntriesOf(rs'.buckets)
    ensures Count(rs, cb, c) == Count(rs', cb, c)
  {
    if x :| x in EntriesOf(rs.buckets) && cb.cls(x.key) == c {
      CountOfEntry(rs.buckets, cb, rs.max, x, rs);
      CountOfEntry(rs'.buckets, cb, rs'.max, x, rs');
    } else {
      CountOfAbsent(rs, cb, c);
      CountOfAbsent(rs', cb, c);
    }
  }

  /** In a valid set every stored key is counted, and every class with a
      positive multiplicity has a stored representative. */
  lemma ElementsAreCounted<K, C>(rs: RSet<K>, cb: Callbacks<K, C>, c: C)
    requires Layout(rs, cb)
    ensures Count(rs, cb, c) > 0 <==> exists k :: k in Elements(rs) && cb.cls(k) == c
  {
    if x :| x in EntriesOf(rs.buckets) && cb.cls(x.key) == c {
      CountOfEntry(rs.buckets, cb, rs.max, x, rs);
      assert ChainPlaced(rs.buckets[x.hash % (rs.max + 1)], cb, x.hash % (rs.max + 1), rs.max) by {
        EntriesByHome(rs.buckets, cb, rs.max, x);
      }
      EntriesByHome(rs.buckets, cb, rs.max, x);
      assert x.key in Elements(rs);
    } else {
      CountOfAbsent(rs, cb, c);
    }
  }

  /** The keys of a chain. */
  ghost function KeysOf<K>(s: seq<Entry<K>>): set<K> {
    set i | 0 <= i < |s| :: s[i].key
  }

  /** In a well-placed array a key can only be found in its own bucket. */
  lemma ElementsByHome<K, C>(rs: RSet<K>, cb: Callbacks<K, C>, k: K)
    requires Placed(rs.buckets, cb, rs.max)
    ensures k in Elements(rs) <==> k in KeysOf(rs.buckets[HashOf(cb, k) % (rs.max + 1)])
  {
    var h := HashOf(cb, k) % (rs.max + 1);
    if k in KeysOf(rs.buckets[h]) {
      var i :| 0 <= i < |rs.buckets[h]| && rs.buckets[h][i].key == k;
      assert rs.buckets[h][i] in EntriesOf(rs.buckets);
    }
    if k in Elements(rs) {
      var x :| x in EntriesOf(rs.buckets) && x.key == k;
      var b, j :| 0 <= b < |rs.buckets| && 0 <= j < |rs.buckets[b]| && rs.buckets[b][j] == x;
      assert ChainPlaced(rs.buckets[b], cb, b, rs.max);
    }
  }

  /** Replacing one chain of a well-placed array changes the keys of that
      bucket only. */
  lemma ElementsAfterChainChange<K, C>(rs: RSet<K>, rs': RSet<K>, cb: Callbacks<K, C>, b: nat, k: K)
    requires Placed(rs.buckets, cb, rs.max) && Placed(rs'.buckets, cb, rs'.max) && rs'.max == rs.max
    requires b < |rs.buckets| && rs'.buckets == rs.buckets[b := rs'.buckets[b]]
    ensures k in Elements(rs') <==>
      if HashOf(cb, k) % (rs.max + 1) == b then k in KeysOf(rs'.buckets[b]) else k in Elements(rs)
  {
    ElementsByHome(rs, cb, k);
    ElementsByHome(rs', cb, k);
  }

  /** Adding an entry to the head of its bucket adds it to the entries. */
  lemma EntriesAfterPrepend<K, C>(bk: seq<seq<Entry<K>>>, cb: Callbacks<K, C>, max: nat, i: nat, e: Entry<K>)
    requires Placed(bk, cb, max) && i < |bk|
    requires Placed(bk[i := [e] + bk[i]], cb, max)
    ensures EntriesOf(bk[i := [e] + bk[i]]) == EntriesOf(bk) + {e}
  {
    var bk' := bk[i := [e] + bk[i]];
    assert e in bk'[i];
    assert e.hash % (max + 1) == i by {
      assert ChainPlaced(bk'[i], cb, i, max);
      assert bk'[i][0] == e;
    }
    forall x ensures x in EntriesOf(bk') <==> x in EntriesOf(bk) || x == e {
      EntriesByHome(bk, cb, max, x);
      EntriesByHome(bk', cb, max, x);
    }
  }

  // ---------------------------------------------------------------------
  // Operations.

  /** rset_make: an empty array of 16 buckets, no entries, no recycled
      entries. */
  function Make<K, C(!new)>(cb: Callbacks<K, C>): (rs: RSet<K>)
    ensures Valid(rs, cb)
    ensures rs.count == 0 && rs.max == INITIAL_MAX && rs.free == []
    ensures forall b :: 0 <= b < |rs.buckets| ==> rs.buckets[b] == []
    ensures Elements(rs) == {}
    ensures forall c :: Count(rs, cb, c) == 0
  {
    assert IsMask(1) && IsMask(3) && IsMask(7);
    RSet(seq(INITIAL_MAX + 1, _ => []), 0, INITIAL_MAX, [])
  }

  /** find_entry without creation: the bucket of the key, and the position
      in its chain of the entry with an equal key, if there is one. */
  method FindEntry<K, C(==)>(rs: RSet<K>, cb: Callbacks<K, C>, key: K) returns (b: nat, pos: Option<nat>)
    requires Layout(rs, cb)
    ensures b == HashOf(cb, key) % (rs.max + 1) && b < |rs.buckets|
    ensures pos.Some? ==> pos.value < |rs.buckets[b]| && cb.cls(rs.buckets[b][pos.value].key) == cb.cls(key)
    ensures pos.Some? ==> Count(rs, cb, cb.cls(key)) == rs.buckets[b][pos.value].refcount > 0
    ensures pos.None? ==> Count(rs, cb, cb.cls(key)) == 0
    ensures pos.None? ==> forall i :: 0 <= i < |rs.buckets[b]| ==> cb.cls(rs.buckets[b][i].key) != cb.cls(key)
    ensures pos.None? ==> forall e :: e in EntriesOf(rs.buckets) ==> cb.cls(e.key) != cb.cls(key)
  {
    var hash := HashOf(cb, key);
    b := BucketIndex(hash, rs.max);
    var chain := rs.buckets[b];
    assert ChainPlaced(chain, cb, b, rs.max);
    var j := 0;
    while j < |chain|
      invariant j <= |chain|
      invariant forall i :: 0 <= i < j ==> cb.cls(chain[i].key) != cb.cls(key)
    {
      if chain[j].hash == hash && cb.cls(chain[j].key) == cb.cls(key) {
        SumUnique(chain, cb, j);
        return b, Some(j);
      }
      j := j + 1;
    }
    SumAbsent(chain, cb, cb.cls(key));
    forall e | e in EntriesOf(rs.buckets) ensures cb.cls(e.key) != cb.cls(key) {
      EntriesByHome(rs.buckets, cb, rs.max, e);
    }
    pos := None;
  }

  /** rset_get: the element's refcount, 0 when absent.  The set is a value
      and is not changed. */
  method Get<K, C(==)>(rs: RSet<K>, cb: Callbacks<K, C>, elem: K) returns (n: nat)
    requires Layout(rs, cb)
    ensures n == Count(rs, cb, cb.cls(elem))
    ensures n > 0 <==> exists k :: k in Elements(rs) && cb.cls(k) == cb.cls(elem)
  {
    var b, pos := FindEntry(rs, cb, elem);
    ElementsAreCounted(rs, cb, cb.cls(elem));
    if pos.Some? {
      n := rs.buckets[b][pos.value].refcount;
    } else {
      n := 0;
    }
  }

  /** rset_count. */
  function Size<K, C>(rs: RSet<K>, cb: Callbacks<K, C>): (n: nat)
    requires Layout(rs, cb)
    ensures n == |Elements(rs)|
  {
    rs.count
  }

  /** The entries the expansion walk has moved when it stands at entry `j`
      of bucket `b`: every earlier bucket, and the head of this one. */
  ghost function Moved<K>(bk: seq<seq<Entry<K>>>, b: nat, j: nat): set<Entry<K>> {
    set ob, oj | 0 <= ob < |bk| && 0 <= oj < |bk[ob]| && (ob < b || (ob == b && oj < j)) :: bk[ob][oj]
  }

  lemma KeysAfterDelete<K, C>(s: seq<Entry<K>>, cb: Callbacks<K, C>, j: nat)
    requires ChainDistinct(s, cb) && j < |s|
    ensures KeysOf(s[..j] + s[j + 1..]) == KeysOf(s) - {s[j].key}
  {
    var s' := s[..j] + s[j + 1..];
    forall k ensures k in KeysOf(s') <==> k in KeysOf(s) && k != s[j].key {
      if k in KeysOf(s') {
        var i :| 0 <= i < |s'| && s'[i].key == k;
        if i < j {
          assert s'[i] == s[i];
        } else {
          assert s'[i] == s[i + 1];
        }
      }
      if k in KeysOf(s) && k != s[j].key {
        var i :| 0 <= i < |s| && s[i].key == k;
        if i < j {
          assert s'[i] == s[i];
        } else {
          assert s'[i - 1] == s[i];
        }
      }
    }
  }

  /** One step of the expansion walk: pushing entry `j` of old bucket `b`
      on the head of its new bucket keeps the new array well placed (no
      entry already there has an equal key) and adds exactly that entry. */
  lemma MoveOne<K, C>(bk: seq<seq<Entry<K>>>, cb: Callbacks<K, C>, max: nat, nb: seq<seq<Entry<K>>>, newMax: nat, b: nat, j: nat)
    requires Placed(bk, cb, max) && Placed(nb, cb, newMax)
    requires b < |bk| && j < |bk[b]|
    requires EntriesOf(nb) == Moved(bk, b, j)
    ensures
      var e := bk[b][j];
      var i := e.hash % (newMax + 1);
      Placed(nb[i := [e] + nb[i]], cb, newMax) && EntriesOf(nb[i := [e] + nb[i]]) == Moved(bk, b, j + 1)
  {
    var e := bk[b][j];
    var i := e.hash % (newMax + 1);
    assert ChainPlaced(bk[b], cb, b, max);
    assert ChainDistinct(bk[b], cb);
    assert ChainPlaced(nb[i], cb, i, newMax);
    assert ChainDistinct(nb[i], cb);
    forall k | 0 <= k < |nb[i]| ensures cb.cls(nb[i][k].key) != cb.cls(e.key) {
      var x := nb[i][k];
      assert x in EntriesOf(nb);
      var ob, oj :| 0 <= ob < |bk| && 0 <= oj < |bk[ob]| && (ob < b || (ob == b && oj < j)) && bk[ob][oj] == x;
      assert ChainPlaced(bk[ob], cb, ob, max);
    }
    var nb' := nb[i := [e] + nb[i]];
    assert ChainPlaced(nb'[i], cb, i, newMax);
    assert ChainDistinct(nb'[i], cb) by {
      forall p, q | 0 <= p < q < |nb'[i]| ensures cb.cls(nb'[i][p].key) != cb.cls(nb'[i][q].key) {
        assert nb'[i][q] == nb[i][q - 1];
        if p > 0 {
          assert nb'[i][p] == nb[i][p - 1];
        }
      }
    }
    assert Placed(nb', cb, newMax);
    EntriesAfterPrepend(nb, cb, newMax, i, e);
    assert Moved(bk, b, j + 1) == Moved(bk, b, j) + {e};
  }

  /** expand_array: a bucket array twice the size, filled by walking the old
      one in iteration order and pushing each entry on the head of its new
      bucket.  The entries, and so the elements and every multiplicity, stay
      the same. */
  method Expand<K, C(==,!new)>(rs: RSet<K>, cb: Callbacks<K, C>) returns (rs': RSet<K>)
    requires Layout(rs, cb)
    ensures Layout(rs', cb)
    ensures rs'.max == 2 * rs.max + 1 && rs'.count == rs.count && rs'.free == rs.free
    ensures EntriesOf(rs'.buckets) == EntriesOf(rs.buckets)
    ensures Elements(rs') == Elements(rs)
    ensures SameCounts(rs, rs', cb)
  {
    var bk := rs.buckets;
    var newMax := 2 * rs.max + 1;
    ExpandedMaskIsMask(rs.max);
    var nb: seq<seq<Entry<K>>> := seq(newMax + 1, _ => []);
    assert EntriesOf(nb) == {};
    assert Moved(bk, 0, 0) == {};
    var b := 0;
    while b < |bk|
      invariant b <= |bk|
      invariant Placed(nb, cb, newMax)
      invariant EntriesOf(nb) == Moved(bk, b, 0)
    {
      var chain := bk[b];
      var j := 0;
      while j < |chain|
        invariant j <= |chain|
        invariant Placed(nb, cb, newMax)
        invariant EntriesOf(nb) == Moved(bk, b, j)
      {
        var e := chain[j];
        var i := BucketIndex(e.hash, newMax);
        MoveOne(bk, cb, rs.max, nb, newMax, b, j);
        nb := nb[i := [e] + nb[i]];
        j := j + 1;
      }
      assert Moved(bk, b, |chain|) == Moved(bk, b + 1, 0);
      b := b + 1;
    }
    assert Moved(bk, |bk|, 0) == EntriesOf(bk);
    rs' := RSet(nb, rs.count, newMax, rs.free);
    forall c ensures Count(rs', cb, c) == Count(rs, cb, c) {
      SameEntriesSameCount(rs, rs', cb, c);
    }
  }

  lemma SetRefcountElements<K, C>(rs: RSet<K>, rs': RSet<K>, cb: Callbacks<K, C>, b: nat, j: nat, rc: nat)
    requires Placed(rs.buckets, cb, rs.max) && b < |rs.buckets| && j < |rs.buckets[b]| && rc >= 1
    requires rs' == rs.(buckets := rs.buckets[b := rs.buckets[b][j := rs.buckets[b][j].(refcount := rc)]])
    ensures Placed(rs'.buckets, cb, rs'.max) && Elements(rs') == Elements(rs)
  {
    var chain := rs.buckets[b];
    var chain' := chain[j := chain[j].(refcount := rc)];
    assert ChainPlaced(chain, cb, b, rs.max) && ChainDistinct(chain, cb);
    assert ChainPlaced(chain', cb, b, rs.max) && ChainDistinct(chain', cb);
    assert Placed(rs'.buckets, cb, rs'.max);
    assert KeysOf(chain') == KeysOf(chain) by {
      forall i | 0 <= i < |chain| ensures chain'[i].key == chain[i].key {}
    }
    forall k ensures k in Elements(rs') <==> k in Elements(rs) {
      ElementsAfterChainChange(rs, rs', cb, b, k);
      ElementsByHome(rs, cb, k);
    }
  }

  lemma SetRefcountCount<K, C(!new)>(rs: RSet<K>, rs': RSet<K>, cb: Callbacks<K, C>, b: nat, j: nat, rc: nat)
    requires Placed(rs.buckets, cb, rs.max) && b < |rs.buckets| && j < |rs.buckets[b]|
    requires rs' == rs.(buckets := rs.buckets[b := rs.buckets[b][j := rs.buckets[b][j].(refcount := rc)]])
    ensures CountChanged(rs, rs', cb, cb.cls(rs.buckets[b][j].key), rc - rs.buckets[b][j].refcount as int)
  {
    var chain := rs.buckets[b];
    var x := chain[j].(refcount := rc);
    var c0 := cb.cls(chain[j].key);
    assert ChainPlaced(chain, cb, b, rs.max);
    assert chain[j] in EntriesOf(rs.buckets);
    CountOfEntry(rs.buckets, cb, rs.max, chain[j], rs);
    forall c ensures Count(rs', cb, c) == Count(rs, cb, c) + (if c == c0 then rc - chain[j].refcount as int else 0) {
      if cb.hash(c) % (rs.max + 1) == b {
        SumReplace(chain, cb, j, x, c);
      }
    }
  }

  /** Setting the refcount of a stored entry to another positive value
      changes that entry's class's multiplicity and nothing else. */
  lemma SetRefcount<K, C(!new)>(rs: RSet<K>, rs': RSet<K>, cb: Callbacks<K, C>, b: nat, j: nat, rc: nat)
    requires Layout(rs, cb) && b < |rs.buckets| && j < |rs.buckets[b]| && rc >= 1
    requires rs' == rs.(buckets := rs.buckets[b := rs.buckets[b][j := rs.buckets[b][j].(refcount := rc)]])
    ensures Layout(rs', cb) && Elements(rs') == Elements(rs)
    ensures CountChanged(rs, rs', cb, cb.cls(rs.buckets[b][j].key), rc - rs.buckets[b][j].refcount as int)
  {
    SetRefcountElements(rs, rs', cb, b, j, rc);
    SetRefcountCount(rs, rs', cb, b, j, rc);
  }


  lemma AppendPlaced<K, C>(bk: seq<seq<Entry<K>>>, cb: Callbacks<K, C>, max: nat, b: nat, e: Entry<K>)
    requires Placed(bk, cb, max) && b < |bk|
    requires e.hash == HashOf(cb, e.key) && e.hash % (max + 1) == b && e.refcount >= 1
    requires forall i :: 0 <= i < |bk[b]| ==> cb.cls(bk[b][i].key) != cb.cls(e.key)
    ensures Placed(bk[b := bk[b] + [e]], cb, max)
  {
    assert ChainPlaced(bk[b], cb, b, max) && ChainDistinct(bk[b], cb);
    assert ChainPlaced(bk[b] + [e], cb, b, max);
    assert ChainDistinct(bk[b] + [e], cb);
  }

  lemma AppendElements<K, C>(rs: RSet<K>, rs': RSet<K>, cb: Callbacks<K, C>, b: nat, e: Entry<K>)
    requires Placed(rs.buckets, cb, rs.max) && Placed(rs'.buckets, cb, rs'.max) && rs'.max == rs.max
    requires b < |rs.buckets| && rs'.buckets == rs.buckets[b := rs.buckets[b] + [e]]
    requires HashOf(cb, e.key) % (rs.max + 1) == b
    requires forall i :: 0 <= i < |rs.buckets[b]| ==> cb.cls(rs.buckets[b][i].key) != cb.cls(e.key)
    ensures e.key !in Elements(rs) && Elements(rs') == Elements(rs) + {e.key}
  {
    var chain := rs.buckets[b];
    var chain' := chain + [e];
    ElementsByHome(rs, cb, e.key);
    assert KeysOf(chain') == KeysOf(chain) + {e.key} by {
      assert chain'[|chain|] == e;
      forall i | 0 <= i < |chain| ensures chain'[i] == chain[i] {}
    }
    forall k ensures k in Elements(rs') <==> k in Elements(rs) || k == e.key {
      ElementsAfterChainChange(rs, rs', cb, b, k);
      ElementsByHome(rs, cb, k);
    }
  }

  lemma AppendCount<K, C>(rs: RSet<K>, rs': RSet<K>, cb: Callbacks<K, C>, b: nat, e: Entry<K>)
    requires |rs.buckets| == rs.max + 1 && b < |rs.buckets| && rs'.max == rs.max
    requires rs'.buckets == rs.buckets[b := rs.buckets[b] + [e]]
    requires HashOf(cb, e.key) % (rs.max + 1) == b
    ensures forall c :: Count(rs', cb, c) == Count(rs, cb, c) + (if c == cb.cls(e.key) then e.refcount else 0)
  {
    forall c ensures Count(rs', cb, c) == Count(rs, cb, c) + (if c == cb.cls(e.key) then e.refcount else 0) {
      if cb.hash(c) % (rs.max + 1) == b {
        assert (rs.buckets[b] + [e])[..|rs.buckets[b]|] == rs.buckets[b];
      }
    }
  }

  /** Appending a new entry, whose key has no equal stored, at the tail of
      its bucket adds the key to the elements with the entry's refcount. */
  lemma AppendEntry<K, C(!new)>(rs: RSet<K>, rs': RSet<K>, cb: Callbacks<K, C>, b: nat, e: Entry<K>)
    requires Layout(rs, cb) && b < |rs.buckets|
    requires e.hash == HashOf(cb, e.key) && e.hash % (rs.max + 1) == b && e.refcount >= 1
    requires forall i :: 0 <= i < |rs.buckets[b]| ==> cb.cls(rs.buckets[b][i].key) != cb.cls(e.key)
    requires rs'.buckets == rs.buckets[b := rs.buckets[b] + [e]] && rs'.max == rs.max && rs'.count == rs.count + 1
    requires forall i :: 0 <= i < |rs'.free| ==> rs'.free[i].refcount == 0
    ensures Layout(rs', cb)
    ensures e.key !in Elements(rs) && Elements(rs') == Elements(rs) + {e.key}
    ensures CountChanged(rs, rs', cb, cb.cls(e.key), e.refcount)
  {
    AppendPlaced(rs.buckets, cb, rs.max, b, e);
    AppendElements(rs, rs', cb, b, e);
    AppendCount(rs, rs', cb, b, e);
  }

  lemma DeletePlaced<K, C>(bk: seq<seq<Entry<K>>>, cb: Callbacks<K, C>, max: nat, b: nat, j: nat)
    requires Placed(bk, cb, max) && b < |bk| && j < |bk[b]|
    ensures Placed(bk[b := bk[b][..j] + bk[b][j + 1..]], cb, max)
  {
    var chain := bk[b];
    var chain' := chain[..j] + chain[j + 1..];
    assert ChainPlaced(chain, cb, b, max) && ChainDistinct(chain, cb);
    assert ChainPlaced(chain', cb, b, max) by {
      forall i | 0 <= i < |chain'| ensures chain'[i] == if i < j then chain[i] else chain[i + 1] {}
    }
    assert ChainDistinct(chain', cb) by {
      forall p, q | 0 <= p < q < |chain'| ensures cb.cls(chain'[p].key) != cb.cls(chain'[q].key) {
        assert chain'[p] == if p < j then chain[p] else chain[p + 1];
        assert chain'[q] == if q < j then chain[q] else chain[q + 1];
      }
    }
  }

  lemma DeleteElements<K, C>(rs: RSet<K>, rs': RSet<K>, cb: Callbacks<K, C>, b: nat, j: nat)
    requires Placed(rs.buckets, cb, rs.max) && Placed(rs'.buckets, cb, rs'.max) && rs'.max == rs.max
    requires b < |rs.buckets| && j < |rs.buckets[b]|
    requires rs'.buckets == rs.buckets[b := rs.buckets[b][..j] + rs.buckets[b][j + 1..]]
    ensures rs.buckets[b][j].key in Elements(rs)
    ensures Elements(rs') == Elements(rs) - {rs.buckets[b][j].key}
  {
    var chain := rs.buckets[b];
    assert ChainDistinct(chain, cb);
    assert chain[j] in EntriesOf(rs.buckets);
    KeysAfterDelete(chain, cb, j);
    forall k ensures k in Elements(rs') <==> k in Elements(rs) && k != chain[j].key {
      ElementsAfterChainChange(rs, rs', cb, b, k);
      ElementsByHome(rs, cb, k);
    }
  }

  lemma DeleteCount<K, C>(rs: RSet<K>, rs': RSet<K>, cb: Callbacks<K, C>, b: nat, j: nat)
    requires Placed(rs.buckets, cb, rs.max) && rs'.max == rs.max
    requires b < |rs.buckets| && j < |rs.buckets[b]|
    requires rs'.buckets == rs.buckets[b := rs.buckets[b][..j] + rs.buckets[b][j + 1..]]
    ensures forall c :: Count(rs', cb, c) == if c == cb.cls(rs.buckets[b][j].key) then 0 else Count(rs, cb, c)
  {
    var chain := rs.buckets[b];
    assert ChainPlaced(chain, cb, b, rs.max) && ChainDistinct(chain, cb);
    SumUnique(chain, cb, j);
    forall c ensures Count(rs', cb, c) == if c == cb.cls(chain[j].key) then 0 else Count(rs, cb, c) {
      if cb.hash(c) % (rs.max + 1) == b {
        SumDelete(chain, cb, j, c);
      }
    }
  }

  /** Unlinking a stored entry and pushing it, with refcount 0, on the free
      list removes its key from the elements and its class from the
      multiset. */
  lemma DeleteEntry<K, C(!new)>(rs: RSet<K>, rs': RSet<K>, cb: Callbacks<K, C>, b: nat, j: nat)
    requires Layout(rs, cb) && b < |rs.buckets| && j < |rs.buckets[b]| && rs.count > 0
    requires rs' == RSet(rs.buckets[b := rs.buckets[b][..j] + rs.buckets[b][j + 1..]], rs.count - 1, rs.max,
                         [rs.buckets[b][j].(refcount := 0)] + rs.free)
    ensures Layout(rs', cb)
    ensures rs.buckets[b][j].key in Elements(rs)
    ensures Elements(rs') == Elements(rs) - {rs.buckets[b][j].key}
    ensures CountChanged(rs, rs', cb, cb.cls(rs.buckets[b][j].key), -(rs.buckets[b][j].refcount as int))
  {
    DeletePlaced(rs.buckets, cb, rs.max, b, j);
    DeleteElements(rs, rs', cb, b, j);
    DeleteCount(rs, rs', cb, b, j);
    assert rs.buckets[b][j] in EntriesOf(rs.buckets);
    CountOfEntry(rs.buckets, cb, rs.max, rs.buckets[b][j], rs);
  }

  /** The find_entry(make_new) half of rset_add, with the increment: the
      element's entry gets refcount one more, a new entry (a recycled one
      when the free list has one) being created at the tail of its chain
      when there is none.  The answer is the new refcount. */
  method AddEntry<K, C(==,!new)>(rs: RSet<K>, cb: Callbacks<K, C>, elem: K) returns (rs': RSet<K>, refcount: nat)
    requires Valid(rs, cb)
    ensures Layout(rs', cb) && rs'.max == rs.max
    ensures refcount == Count(rs, cb, cb.cls(elem)) + 1
    ensures CountChanged(rs, rs', cb, cb.cls(elem), 1)
    ensures refcount == 1 ==> elem !in Elements(rs) && Elements(rs') == Elements(rs) + {elem}
    ensures refcount != 1 ==> Elements(rs') == Elements(rs)
    ensures rs'.count == rs.count + (if refcount == 1 then 1 else 0)
    ensures rs'.free == if refcount == 1 && rs.free != [] then rs.free[1..] else rs.free
    ensures refcount == 1 ==>
      var home := HashOf(cb, elem) % (rs.max + 1);
      rs'.buckets == rs.buckets[home := rs.buckets[home] + [Entry(elem, HashOf(cb, elem), 1)]]
  {
    var b, pos := FindEntry(rs, cb, elem);
    var chain := rs.buckets[b];
    if pos.Some? {
      var j := pos.value;
      refcount := chain[j].refcount + 1;
      rs' := rs.(buckets := rs.buckets[b := chain[j := chain[j].(refcount := refcount)]]);
      SetRefcount(rs, rs', cb, b, j, refcount);
    } else {
      // The recycled entry, if any, has every field overwritten.
      var free' := if rs.free != [] then rs.free[1..] else rs.free;
      refcount := 1;
      var e := Entry(elem, HashOf(cb, elem), refcount);
      rs' := RSet(rs.buckets[b := chain + [e]], rs.count + 1, rs.max, free');
      AppendEntry(rs, rs', cb, b, e);
    }
  }

  /** The collision-rate check of rset_add: the array is expanded when
      there are as many entries as buckets (count > max). */
  method CheckCollisionRate<K, C(==,!new)>(rs: RSet<K>, cb: Callbacks<K, C>) returns (rs': RSet<K>)
    requires Layout(rs, cb) && rs.count <= rs.max + 1
    ensures Valid(rs', cb)
    ensures rs'.max == if rs.count > rs.max then 2 * rs.max + 1 else rs.max
    ensures rs'.count == rs.count && rs'.free == rs.free && Elements(rs') == Elements(rs)
    ensures SameCounts(rs, rs', cb)
  {
    if rs.count > rs.max {
      rs' := Expand(rs, cb);
    } else {
      rs' := rs;
    }
  }

  /** rset_add: the element's multiplicity grows by one, and the bucket
      array doubles once there are as many entries as buckets
      (count > max).  The answer is
      whether the element is new. */
  method Add<K, C(==,!new)>(rs: RSet<K>, cb: Callbacks<K, C>, elem: K) returns (rs': RSet<K>, isNew: bool)
    requires Valid(rs, cb)
    ensures Valid(rs', cb)
    ensures isNew <==> Count(rs, cb, cb.cls(elem)) == 0
    ensures CountChanged(rs, rs', cb, cb.cls(elem), 1)
    ensures isNew ==> elem !in Elements(rs) && Elements(rs') == Elements(rs) + {elem}
    ensures !isNew ==> Elements(rs') == Elements(rs)
    ensures rs'.count == rs.count + (if isNew then 1 else 0)
    ensures rs'.max == if rs'.count > rs.max then 2 * rs.max + 1 else rs.max
    ensures rs'.free == if isNew && rs.free != [] then rs.free[1..] else rs.free
  {
    var grown, refcount := AddEntry(rs, cb, elem);
    rs' := CheckCollisionRate(grown, cb);
    ComposeCounts(rs, grown, rs', cb, cb.cls(elem), 1);
    isNew := refcount == 1;
  }

  /** rset_remove: the element's multiplicity drops by one, and its entry
      leaves the set (onto the free list, with refcount 0) when that reaches
      zero.  The answer is the stored key and its new refcount, or None when
      the element is not present, in which case nothing changes. */
  method Remove<K, C(==,!new)>(rs: RSet<K>, cb: Callbacks<K, C>, elem: K) returns (rs': RSet<K>, r: Option<(K, nat)>)
    requires Valid(rs, cb)
    ensures Valid(rs', cb)
    ensures r.None? <==> Count(rs, cb, cb.cls(elem)) == 0
    ensures r.None? ==> rs' == rs
    ensures r.Some? ==> r.value.0 in Elements(rs) && cb.cls(r.value.0) == cb.cls(elem)
    ensures r.Some? ==> r.value.1 + 1 == Count(rs, cb, cb.cls(elem))
    ensures CountChanged(rs, rs', cb, cb.cls(elem), if r.Some? then -1 else 0)
    ensures r.Some? && r.value.1 == 0 ==>
      Elements(rs') == Elements(rs) - {r.value.0} && rs'.count + 1 == rs.count &&
      rs'.free == [Entry(r.value.0, HashOf(cb, elem), 0)] + rs.free
    ensures !(r.Some? && r.value.1 == 0) ==>
      Elements(rs') == Elements(rs) && rs'.count == rs.count && rs'.free == rs.free
    ensures rs'.max == rs.max
  {
    var b, pos := FindEntry(rs, cb, elem);
    if pos.None? {
      return rs, None;
    }
    var chain := rs.buckets[b];
    var j := pos.value;
    var entry := chain[j];
    var refcount: nat := entry.refcount - 1;
    assert entry in EntriesOf(rs.buckets);
    assert entry.key in Elements(rs);
    assert ChainPlaced(chain, cb, b, rs.max);
    if refcount == 0 {
      rs' := RSet(rs.buckets[b := chain[..j] + chain[j + 1..]], rs.count - 1, rs.max, [entry.(refcount := 0)] + rs.free);
      DeleteEntry(rs, rs', cb, b, j);
    } else {
      rs' := rs.(buckets := rs.buckets[b := chain[j := entry.(refcount := refcount)]]);
      SetRefcount(rs, rs', cb, b, j, refcount);
    }
    r := Some((entry.key, refcount));
  }

  // ---------------------------------------------------------------------
  // Iteration.

  /** An iterator (rset_index_t): the current and the next entry as
      (bucket, position in chain), the next bucket to look at, and whether
      the walk has ended. */
  datatype Iter = Iter(cur: Option<(nat, nat)>, next: Option<(nat, nat)>, index: nat, atEnd: bool)

  /** The keys of a chain, in chain order. */
  function ChainKeys<K>(s: seq<Entry<K>>): (ks: seq<K>)
    ensures |ks| == |s| && forall i :: 0 <= i < |s| ==> ks[i] == s[i].key
  {
    seq(|s|, i requires 0 <= i < |s| => s[i].key)
  }

  /** The keys of buckets `i` onwards, in iteration order. */
  ghost function WalkFrom<K>(bk: seq<seq<Entry<K>>>, i: nat): seq<K>
    decreases |bk| - i
  {
    if i >= |bk| then [] else ChainKeys(bk[i]) + WalkFrom(bk, i + 1)
  }

  /** The order a full iteration visits the keys in. */
  ghost function Walk<K>(rs: RSet<K>): seq<K> {
    WalkFrom(rs.buckets, 0)
  }

  /** The iterator fields are consistent: `cur` lies in the bucket just
      before `index`, and `next` is its successor in the chain. */
  ghost predicate IterOk<K>(rs: RSet<K>, it: Iter) {
    && it.index <= |rs.buckets|
    && (it.cur.Some? ==>
          it.cur.value.0 + 1 == it.index && it.cur.value.1 < |rs.buckets[it.cur.value.0]|)
    && (it.next.Some? ==>
          it.cur.Some? && it.next.value == (it.cur.value.0, it.cur.value.1 + 1) &&
          it.next.value.1 < |rs.buckets[it.next.value.0]|)
    && (it.atEnd ==> it.cur.None? && it.next.None?)
  }

  /** The keys still to come from entry `pos` (if any) and the buckets
      from `index` on. */
  ghost function Pending<K>(rs: RSet<K>, pos: Option<(nat, nat)>, index: nat): seq<K>
    requires pos.Some? ==> pos.value.0 < |rs.buckets| && pos.value.1 <= |rs.buckets[pos.value.0]|
  {
    (if pos.Some? then ChainKeys(rs.buckets[pos.value.0][pos.value.1..]) else []) + WalkFrom(rs.buckets, index)
  }

  /** The keys an iterator has still to yield. */
  ghost function Remaining<K>(rs: RSet<K>, it: Iter): seq<K>
    requires IterOk(rs, it)
  {
    if it.atEnd then [] else Pending(rs, it.next, it.index)
  }

  /** rset_iter_make and rset_iter_reset: before the first bucket, with
      nothing current, so the whole walk is still to come. */
  function IterReset<K>(rs: RSet<K>): (it: Iter)
    ensures IterOk(rs, it) && !it.atEnd && it.cur.None?
    ensures Remaining(rs, it) == Walk(rs)
  {
    Iter(None, None, 0, false)
  }

  /** The loop of rset_iter_next: starting from `cur` (the saved next entry), take bucket heads
      until an entry turns up or the buckets run out. */
  function Advance<K>(rs: RSet<K>, cur: Option<(nat, nat)>, index: nat): (r: (Iter, bool))
    requires index <= |rs.buckets| == rs.max + 1
    requires cur.Some? ==> cur.value.0 + 1 == index && cur.value.1 < |rs.buckets[cur.value.0]|
    decreases |rs.buckets| - index + (if cur.None? then 1 else 0)
  {
    if cur.Some? then
      var b, j := cur.value.0, cur.value.1;
      (Iter(cur, if j + 1 < |rs.buckets[b]| then Some((b, j + 1)) else None, index, false), true)
    else if index > rs.max then
      (Iter(None, None, index, true), false)
    else
      Advance(rs, if rs.buckets[index] != [] then Some((index, 0)) else None, index + 1)
  }

  /** rset_iter_next: once at the end it stays there; otherwise it moves to
      the saved next entry, or to the head of the next non-empty bucket, and
      answers whether there was one. */
  function IterNext<K>(rs: RSet<K>, it: Iter): (r: (Iter, bool))
    requires |rs.buckets| == rs.max + 1 && IterOk(rs, it)
    ensures it.atEnd ==> r == (it, false)
  {
    if it.atEnd then (it, false) else Advance(rs, it.next, it.index)
  }

  /** rset_this: the key of the current entry.  At the end it fails (FAIL()
      in the source); before the first rset_iter_next the current entry is
      NULL, and reading it is a NULL dereference. */
  function IterThis<K>(rs: RSet<K>, it: Iter): (r: Result<K, IterError>)
    requires IterOk(rs, it)
    ensures it.atEnd ==> r == Failure(IterAtEnd)
    ensures !it.atEnd && it.cur.None? ==> r == Failure(NullDereference)
    ensures r.Success? ==> r.value in Elements(rs)
  {
    if it.atEnd then Failure(IterAtEnd)
    else if it.cur.None? then Failure(NullDereference)
    else
      var e := rs.buckets[it.cur.value.0][it.cur.value.1];
      assert e in EntriesOf(rs.buckets);
      Success(e.key)
  }

  /** From a current entry, rset_iter_next yields that entry's key and
      keeps its successor, if any, as the next entry. */
  lemma AdvanceFromEntry<K>(rs: RSet<K>, cur: Option<(nat, nat)>, index: nat)
    requires index <= |rs.buckets| == rs.max + 1
    requires cur.Some? && cur.value.0 + 1 == index && cur.value.1 < |rs.buckets[cur.value.0]|
    ensures
      var (it', more) := Advance(rs, cur, index);
      var pending := Pending(rs, cur, index);
      && IterOk(rs, it') && more && pending != []
      && IterThis(rs, it') == Success(pending[0]) && Remaining(rs, it') == pending[1..]
  {
    var bk := rs.buckets;
    var b, j := cur.value.0, cur.value.1;
    var e: Entry<K> := bk[b][j];
    var nxt: Option<(nat, nat)> := if j + 1 < |bk[b]| then Some((b, j + 1)) else None;
    var it' := Iter(cur, nxt, index, false);
    assert Advance(rs, cur, index) == (it', true);
    var rest := ChainKeys(bk[b][j + 1..]);
    assert ChainKeys(bk[b][j..]) == [e.key] + rest by {
      assert bk[b][j..] == [e] + bk[b][j + 1..];
    }
    var pending := Pending(rs, cur, index);
    assert pending == [e.key] + (rest + WalkFrom(bk, index));
    assert IterOk(rs, it');
    assert IterThis(rs, it') == Success(e.key);
    if j + 1 < |bk[b]| {
      assert Remaining(rs, it') == rest + WalkFrom(bk, index);
    } else {
      assert rest == [];
      assert Remaining(rs, it') == WalkFrom(bk, index);
    }
  }

  lemma {:induction false} AdvanceYieldsPending<K>(rs: RSet<K>, cur: Option<(nat, nat)>, index: nat)
    requires index <= |rs.buckets| == rs.max + 1
    requires cur.Some? ==> cur.value.0 + 1 == index && cur.value.1 < |rs.buckets[cur.value.0]|
    ensures
      var (it', more) := Advance(rs, cur, index);
      var pending := Pending(rs, cur, index);
      && IterOk(rs, it')
      && (more <==> pending != [])
      && (more ==> IterThis(rs, it') == Success(pending[0]) && Remaining(rs, it') == pending[1..])
      && (!more ==> it'.atEnd && Remaining(rs, it') == [])
    decreases |rs.buckets| - index + (if cur.None? then 1 else 0)
  {
    var bk := rs.buckets;
    if cur.Some? {
      AdvanceFromEntry(rs, cur, index);
    } else if index > rs.max {
    } else {
      var head: Option<(nat, nat)> := if bk[index] != [] then Some((index, 0)) else None;
      AdvanceYieldsPending(rs, head, index + 1);
      assert Advance(rs, cur, index) == Advance(rs, head, index + 1);
      assert bk[index][0..] == bk[index];
      assert Pending(rs, head, index + 1) == Pending(rs, cur, index);
    }
  }

  /** Each rset_iter_next that answers true makes the first pending key
      current and drops it; one that answers false leaves the iterator at the
      end with nothing pending. */
  lemma IterNextStep<K>(rs: RSet<K>, it: Iter)
    requires |rs.buckets| == rs.max + 1 && IterOk(rs, it)
    ensures
      var (it', more) := IterNext(rs, it);
      && IterOk(rs, it')
      && (more <==> Remaining(rs, it) != [])
      && (more ==> IterThis(rs, it') == Success(Remaining(rs, it)[0]) && Remaining(rs, it') == Remaining(rs, it)[1..])
      && (!more ==> it'.atEnd && Remaining(rs, it') == [])
  {
    if !it.atEnd {
      AdvanceYieldsPending(rs, it.next, it.index);
    }
  }

  /** Moving the head of the rest onto the end of the prefix keeps the
      whole. */
  lemma ConsumeHead<T>(ks: seq<T>, rest: seq<T>)
    requires rest != []
    ensures (ks + [rest[0]]) + rest[1..] == ks + rest
  {
    assert rest == [rest[0]] + rest[1..];
  }

  /** A sequence without repeated values. */
  ghost predicate NoDup<T>(s: seq<T>) {
    forall i, j :: 0 <= i < j < |s| ==> s[i] != s[j]
  }

  /** The values a sequence holds. */
  ghost function SeqSet<T>(s: seq<T>): set<T> {
    set x | x in s
  }

  lemma {:induction false} NoDupCard<T>(s: seq<T>)
    requires NoDup(s)
    ensures |SeqSet(s)| == |s|
  {
    if s != [] {
      NoDupCard(s[1..]);
      assert SeqSet(s) == {s[0]} + SeqSet(s[1..]);
      assert s[0] !in s[1..];
    }
  }

  /** The walk from bucket `i` lists exactly the keys of those buckets, each
      once, and all of them belong in bucket `i` or later. */
  lemma {:induction false} WalkFromSpec<K, C>(rs: RSet<K>, cb: Callbacks<K, C>, i: nat)
    requires Placed(rs.buckets, cb, rs.max)
    ensures NoDup(WalkFrom(rs.buckets, i))
    ensures forall k :: k in WalkFrom(rs.buckets, i) ==> i <= HashOf(cb, k) % (rs.max + 1)
    ensures forall k :: k in WalkFrom(rs.buckets, i) <==>
      exists b, j :: i <= b < |rs.buckets| && 0 <= j < |rs.buckets[b]| && rs.buckets[b][j].key == k
    decreases |rs.buckets| - i
  {
    var bk := rs.buckets;
    if i < |bk| {
      WalkFromSpec(rs, cb, i + 1);
      var here := ChainKeys(bk[i]);
      var rest := WalkFrom(bk, i + 1);
      assert ChainPlaced(bk[i], cb, i, rs.max) && ChainDistinct(bk[i], cb);
      assert WalkFrom(bk, i) == here + rest;
      forall p, q | 0 <= p < q < |here + rest| ensures (here + rest)[p] != (here + rest)[q] {
        if q < |here| {
          assert cb.cls(bk[i][p].key) != cb.cls(bk[i][q].key);
        } else if p < |here| {
          assert rest[q - |here|] in rest;
        }
      }
      forall k ensures k in here + rest <==>
        exists b, j :: i <= b < |bk| && 0 <= j < |bk[b]| && bk[b][j].key == k
      {
        if k in here {
          var j :| 0 <= j < |here| && here[j] == k;
          assert bk[i][j].key == k;
        }
        if exists b, j :: i <= b < |bk| && 0 <= j < |bk[b]| && bk[b][j].key == k {
          var b, j :| i <= b < |bk| && 0 <= j < |bk[b]| && bk[b][j].key == k;
          if b == i {
            assert here[j] == k;
          }
        }
      }
    }
  }

  /** The walk lists exactly the stored keys. */
  lemma WalkMembers<K, C>(rs: RSet<K>, cb: Callbacks<K, C>, k: K)
    requires Placed(rs.buckets, cb, rs.max)
    ensures k in Walk(rs) <==> k in Elements(rs)
  {
    WalkFromSpec(rs, cb, 0);
    if k in Elements(rs) {
      var x :| x in EntriesOf(rs.buckets) && x.key == k;
      var b, j :| 0 <= b < |rs.buckets| && 0 <= j < |rs.buckets[b]| && rs.buckets[b][j] == x;
      assert rs.buckets[b][j].key == k;
    }
    if k in Walk(rs) {
      var b, j :| 0 <= b < |rs.buckets| && 0 <= j < |rs.buckets[b]| && rs.buckets[b][j].key == k;
      assert rs.buckets[b][j] in EntriesOf(rs.buckets);
    }
  }

  lemma WalkSetIsElements<K, C>(rs: RSet<K>, cb: Callbacks<K, C>)
    requires Placed(rs.buckets, cb, rs.max)
    ensures SeqSet(Walk(rs)) == Elements(rs)
    ensures forall k :: k in Walk(rs) <==> k in Elements(rs)
  {
    forall k ensures k in SeqSet(Walk(rs)) <==> k in Elements(rs) {
      WalkMembers(rs, cb, k);
    }
    assert SeqSet(Walk(rs)) <= Elements(rs);
    assert Elements(rs) <= SeqSet(Walk(rs));
  }

  /** A full iteration visits every stored key exactly once: the walk has
      no repeats, lists exactly the elements, and is `count` long. */
  lemma WalkEnumeratesElements<K, C>(rs: RSet<K>, cb: Callbacks<K, C>)
    requires Layout(rs, cb)
    ensures NoDup(Walk(rs))
    ensures forall k :: k in Walk(rs) <==> k in Elements(rs)
    ensures |Walk(rs)| == rs.count
  {
    WalkFromSpec(rs, cb, 0);
    WalkSetIsElements(rs, cb);
    NoDupCard(Walk(rs));
  }

  /** One round of the collecting loop: a true answer moves the first
      pending key onto the collected prefix, a false one leaves the prefix
      equal to the whole walk. */
  lemma CollectStep<K>(rs: RSet<K>, it: Iter, ks: seq<K>)
    requires |rs.buckets| == rs.max + 1 && IterOk(rs, it)
    requires ks + Remaining(rs, it) == Walk(rs)
    ensures
      var (it', more) := IterNext(rs, it);
      && IterOk(rs, it')
      && (more ==> IterThis(rs, it').Success?
                   && (ks + [IterThis(rs, it').value]) + Remaining(rs, it') == Walk(rs)
                   && |Remaining(rs, it')| < |Remaining(rs, it)|)
      && (!more ==> ks == Walk(rs))
  {
    IterNextStep(rs, it);
    var (it', more) := IterNext(rs, it);
    if more {
      ConsumeHead(ks, Remaining(rs, it));
    } else {
      assert ks + [] == ks;
    }
  }

  /** The iteration loop callers write (and expand_array uses): reset, then
      rset_iter_next and rset_this until rset_iter_next answers false.  It
      collects every element once. */
  method CollectKeys<K, C>(rs: RSet<K>, cb: Callbacks<K, C>) returns (ks: seq<K>)
    requires Layout(rs, cb)
    ensures NoDup(ks) && |ks| == rs.count
    ensures forall k :: k in ks <==> k in Elements(rs)
  {
    var it := IterReset(rs);
    ks := [];
    assert ks + Remaining(rs, it) == Walk(rs) by {
      assert [] + Walk(rs) == Walk(rs);
    }
    while true
      invariant IterOk(rs, it)
      invariant ks + Remaining(rs, it) == Walk(rs)
      decreases |Remaining(rs, it)|
    {
      CollectStep(rs, it, ks);
      var (it', more) := IterNext(rs, it);
      if !more {
        break;
      }
      var k := IterThis(rs, it').value;
      ks := ks + [k];
      it := it';
    }
    WalkEnumeratesElements(rs, cb);
  }
}
