/**
 * ColHash: the hash table of libcol, as promised by the documentation of
 * src/libcol/include/util/hash.h.
 *
 * A table is modelled as a list of its entries, a new key going at the
 * tail, and is read through the abstract view `View`, a finite map from key
 * to value.  Every operation is stated against that view.  Scans (col_hash_do,
 * and the table scan built on col_hash_first / col_hash_next) walk the list
 * in order; the header promises no particular scan order, so this order is a
 * choice of the model.  Keys are the resolved key values: what the
 * table's key comparator identifies (see `KeyOf` and `Memcmp` for the default
 * byte-wise comparator and COL_HASH_KEY_STRING).
 */
module ColHash {
  import opened Wrappers

  /** COL_HASH_KEY_STRING: the key length is the C string length. */
  const KEY_STRING: int := -1

  /** The entries of one table, in scan order. */
  datatype Hash<K, V> = Hash(entries: seq<(K, V)>)

  /** No key is stored twice. */
  ghost predicate Distinct<K, V>(es: seq<(K, V)>) {
    forall i, j :: 0 <= i < j < |es| ==> es[i].0 != es[j].0
  }

  ghost predicate Valid<K, V>(h: Hash<K, V>) {
    Distinct(h.entries)
  }

  /** The map an entry list denotes; the first entry for a key wins, which
      is the one a lookup finds. */
  ghost function ViewOf<K, V>(es: seq<(K, V)>): map<K, V>
  {
    if es == [] then map[] else ViewOf(es[1..])[es[0].0 := es[0].1]
  }

  ghost function View<K, V>(h: Hash<K, V>): map<K, V> {
    ViewOf(h.entries)
  }

  /** Position of the first entry for `k`: the chain scan of a lookup. */
  function Find<K(==), V>(es: seq<(K, V)>, k: K): (r: Option<nat>)
    ensures r.Some? ==> r.value < |es| && es[r.value].0 == k
    ensures r.Some? ==> forall j :: 0 <= j < r.value ==> es[j].0 != k
    ensures r.None? ==> forall j :: 0 <= j < |es| ==> es[j].0 != k
  {
    if es == [] then None
    else if es[0].0 == k then Some(0)
    else match Find(es[1..], k)
      case None => None
      case Some(i) => Some(i + 1)
  }

  // ---------------------------------------------------------------------
  // Facts about the view of an entry list.

  lemma {:induction false} ViewKeys<K, V>(es: seq<(K, V)>, k: K)
    ensures k in ViewOf(es) <==> exists i :: 0 <= i < |es| && es[i].0 == k
  {
    if es != [] {
      ViewKeys(es[1..], k);
      if k != es[0].0 && k in ViewOf(es[1..]) {
        var i :| 0 <= i < |es[1..]| && es[1..][i].0 == k;
        assert es[i + 1].0 == k;
      }
      if exists i :: 0 <= i < |es| && es[i].0 == k {
        var i :| 0 <= i < |es| && es[i].0 == k;
        if i > 0 {
          assert es[1..][i - 1].0 == k;
        }
      }
    }
  }

  /** A lookup finds exactly what the view holds. */
  lemma {:induction false} FindAgreesWithView<K, V>(es: seq<(K, V)>, k: K)
    ensures Find(es, k).Some? <==> k in ViewOf(es)
    ensures Find(es, k).Some? ==> ViewOf(es)[k] == es[Find(es, k).value].1
  {
    if es != [] && es[0].0 != k {
      FindAgreesWithView(es[1..], k);
    }
  }

  /** In a list without repeated keys, every entry is what the view holds. */
  lemma ViewAt<K, V>(es: seq<(K, V)>, i: nat)
    requires Distinct(es)
    requires i < |es|
    ensures es[i].0 in ViewOf(es) && ViewOf(es)[es[i].0] == es[i].1
  {
    FindAgreesWithView(es, es[i].0);
  }

  lemma {:induction false} SizeOfView<K, V>(es: seq<(K, V)>)
    requires Distinct(es)
    ensures |ViewOf(es)| == |es|
  {
    if es != [] {
      SizeOfView(es[1..]);
      ViewKeys(es[1..], es[0].0);
    }
  }

  lemma {:induction false} AppendView<K, V>(es: seq<(K, V)>, k: K, v: V)
    ensures ViewOf(es + [(k, v)]) == if k in ViewOf(es) then ViewOf(es) else ViewOf(es)[k := v]
  {
    if es == [] {
    } else {
      assert (es + [(k, v)])[1..] == es[1..] + [(k, v)];
      AppendView(es[1..], k, v);
    }
  }

  lemma {:induction false} ReplaceView<K, V>(es: seq<(K, V)>, i: nat, v: V)
    requires Distinct(es)
    requires i < |es|
    ensures Distinct(es[i := (es[i].0, v)])
    ensures ViewOf(es[i := (es[i].0, v)]) == ViewOf(es)[es[i].0 := v]
  {
    if i > 0 {
      assert es[i := (es[i].0, v)][1..] == es[1..][i - 1 := (es[i].0, v)];
      ReplaceView(es[1..], i - 1, v);
      ViewKeys(es[1..], es[0].0);
    }
  }

  lemma DistinctAfterRemove<K, V>(es: seq<(K, V)>, i: nat)
    requires Distinct(es) && i < |es|
    ensures Distinct(es[..i] + es[i + 1..])
  {
    var es' := es[..i] + es[i + 1..];
    forall p, q | 0 <= p < q < |es'| ensures es'[p].0 != es'[q].0 {
      assert es'[p] == if p < i then es[p] else es[p + 1];
      assert es'[q] == if q < i then es[q] else es[q + 1];
    }
  }

  lemma UpdateRemoveCommute<K, V>(m: map<K, V>, k: K, v: V, d: K)
    requires k != d
    ensures (m - {d})[k := v] == m[k := v] - {d}
  {
  }

  lemma {:induction false} RemoveView<K, V>(es: seq<(K, V)>, i: nat)
    requires Distinct(es)
    requires i < |es|
    ensures Distinct(es[..i] + es[i + 1..])
    ensures ViewOf(es[..i] + es[i + 1..]) == ViewOf(es) - {es[i].0}
  {
    DistinctAfterRemove(es, i);
    if i == 0 {
      assert es[..i] + es[i + 1..] == es[1..];
      ViewKeys(es[1..], es[0].0);
    } else {
      var es' := es[..i] + es[i + 1..];
      var rest := es[1..][..i - 1] + es[1..][i..];
      assert es'[1..] == rest && es'[0] == es[0];
      RemoveView(es[1..], i - 1);
      assert ViewOf(rest) == ViewOf(es[1..]) - {es[i].0};
      assert ViewOf(es') == ViewOf(rest)[es[0].0 := es[0].1];
      UpdateRemoveCommute(ViewOf(es[1..]), es[0].0, es[0].1, es[i].0);
    }
  }

  // ---------------------------------------------------------------------
  // Operations.

  /** col_hash_make: a new table holds nothing. */
  function Make<K, V>(): (h: Hash<K, V>)
    ensures Valid(h) && View(h) == map[]
  {
    Hash([])
  }

  /** col_hash_get: NULL (None) exactly when the key is absent, otherwise the
      associated value. */
  function Get<K(==), V>(h: Hash<K, V>, k: K): (r: Option<V>)
    ensures r.None? <==> k !in View(h)
    ensures r.Some? ==> View(h)[k] == r.value
  {
    FindAgreesWithView(h.entries, k);
    match Find(h.entries, k)
    case None => None
    case Some(i) => Some(h.entries[i].1)
  }

  /** col_hash_set: a non-NULL value is associated with the key, a NULL value
      (None) deletes the key; no other key is affected. */
  function Set<K(==), V>(h: Hash<K, V>, k: K, v: Option<V>): (h': Hash<K, V>)
    requires Valid(h)
    ensures Valid(h')
    ensures v.Some? ==> View(h') == View(h)[k := v.value]
    ensures v.None? ==> View(h') == View(h) - {k}
  {
    FindAgreesWithView(h.entries, k);
    match Find(h.entries, k)
    case Some(i) =>
      if v.Some? then
        ReplaceView(h.entries, i, v.value);
        Hash(h.entries[i := (k, v.value)])
      else
        RemoveView(h.entries, i);
        Hash(h.entries[..i] + h.entries[i + 1..])
    case None =>
      if v.Some? then
        AppendView(h.entries, k, v.value);
        Hash(h.entries + [(k, v.value)])
      else
        h
  }

  /** col_hash_set_if_new: a new key is given `v` and `v` is returned; for a
      present key the table is unmodified and the result is what Get
      returns. */
  function SetIfNew<K(==), V>(h: Hash<K, V>, k: K, v: V): (r: (Hash<K, V>, V))
    requires Valid(h)
    ensures Valid(r.0)
    ensures k !in View(h) ==> View(r.0) == View(h)[k := v] && r.1 == v
    ensures k in View(h) ==> r.0 == h && Get(h, k) == Some(r.1)
  {
    FindAgreesWithView(h.entries, k);
    match Find(h.entries, k)
    case Some(i) => (h, h.entries[i].1)
    case None =>
      AppendView(h.entries, k, v);
      (Hash(h.entries + [(k, v)]), v)
  }

  /** col_hash_count: the number of key/value pairs. */
  function Count<K, V>(h: Hash<K, V>): (n: nat)
    requires Valid(h)
    ensures n == |View(h)|
  {
    SizeOfView(h.entries);
    |h.entries|
  }

  /** col_hash_clear: afterwards the table holds no pair. */
  function Clear<K, V>(h: Hash<K, V>): (h': Hash<K, V>)
    ensures Valid(h') && Count(h') == 0 && View(h') == map[]
  {
    Hash([])
  }

  // ---------------------------------------------------------------------
  // Merging two tables.

  /** The value a merged table gives to a key both tables hold: the merger's
      result, or the first table's value when there is no merger. */
  function Combine<K, V>(merger: Option<(K, V, V) -> V>, k: K, v1: V, v2: V): V
  {
    if merger.Some? then merger.value(k, v1, v2) else v1
  }

  /** What col_hash_merge promises, stated on maps. */
  ghost function MergeMaps<K, V>(m1: map<K, V>, m2: map<K, V>, merger: Option<(K, V, V) -> V>): map<K, V>
  {
    map k | k in m1.Keys + m2.Keys ::
      if k in m1 && k in m2 then Combine(merger, k, m1[k], m2[k])
      else if k in m1 then m1[k]
      else m2[k]
  }

  /** One step of the merge walk: the pair (k, v1) of the first table is
      combined with the value `acc` holds for `k`, or added when it holds
      none. */
  function MergeOne<K(==), V>(acc: seq<(K, V)>, k: K, v1: V, merger: Option<(K, V, V) -> V>): (r: seq<(K, V)>)
    requires Distinct(acc)
    ensures Distinct(r)
    ensures ViewOf(r) == ViewOf(acc)[k := if k in ViewOf(acc) then Combine(merger, k, v1, ViewOf(acc)[k]) else v1]
  {
    FindAgreesWithView(acc, k);
    var f := Find(acc, k);
    if f.Some? then
      ReplaceView(acc, f.value, Combine(merger, k, v1, acc[f.value].1));
      acc[f.value := (k, Combine(merger, k, v1, acc[f.value].1))]
    else
      AppendView(acc, k, v1);
      acc + [(k, v1)]
  }

  /** Merging a map with one more key is merging the smaller map into a
      second map that already has that key combined in. */
  lemma MergeMapsStep<K, V>(m1: map<K, V>, m2: map<K, V>, k: K, v1: V, merger: Option<(K, V, V) -> V>)
    requires k !in m1
    ensures MergeMaps(m1[k := v1], m2, merger) ==
      MergeMaps(m1, m2[k := if k in m2 then Combine(merger, k, v1, m2[k]) else v1], merger)
  {
  }

  /** Folds the entries of the first table into a copy of the second, the
      way the merge walks the first table. */
  function MergeInto<K(==), V>(acc: seq<(K, V)>, es: seq<(K, V)>, merger: Option<(K, V, V) -> V>): (r: seq<(K, V)>)
    requires Distinct(acc) && Distinct(es)
    ensures Distinct(r)
    ensures ViewOf(r) == MergeMaps(ViewOf(es), ViewOf(acc), merger)
    decreases |es|
  {
    if es == [] then
      acc
    else
      var acc' := MergeOne(acc, es[0].0, es[0].1, merger);
      ViewKeys(es[1..], es[0].0);
      MergeMapsStep(ViewOf(es[1..]), ViewOf(acc), es[0].0, es[0].1, merger);
      MergeInto(acc', es[1..], merger)
  }

  /** col_hash_merge: the keys are those of both tables; a key held by both
      gets the merger's value, or h1's value when the merger is NULL. */
  function Merge<K(==), V>(h1: Hash<K, V>, h2: Hash<K, V>, merger: Option<(K, V, V) -> V>): (r: Hash<K, V>)
    requires Valid(h1) && Valid(h2)
    ensures Valid(r)
    ensures View(r).Keys == View(h1).Keys + View(h2).Keys
    ensures forall k :: k in View(h1) && k in View(h2) ==> View(r)[k] == Combine(merger, k, View(h1)[k], View(h2)[k])
    ensures forall k :: k in View(h1) && k !in View(h2) ==> View(r)[k] == View(h1)[k]
    ensures forall k :: k !in View(h1) && k in View(h2) ==> View(r)[k] == View(h2)[k]
  {
    Hash(MergeInto(h2.entries, h1.entries, merger))
  }

  /** col_hash_overlay: every key of either table; the overlay's value wins.
      The inputs are values, so neither is modified. */
  function Overlay<K(==), V>(overlay: Hash<K, V>, base: Hash<K, V>): (r: Hash<K, V>)
    requires Valid(overlay) && Valid(base)
    ensures Valid(r)
    ensures View(r) == View(base) + View(overlay)
  {
    Merge(overlay, base, None)
  }

  // ---------------------------------------------------------------------
  // Iteration with a callback.

  /** col_hash_do: runs `comp` on the entries in scan order while it returns
      non-zero (true).  Returns whether every call returned non-zero and how
      many calls were made; a zero stops the iteration at that entry. */
  method Do<K, V>(comp: (K, V) -> bool, h: Hash<K, V>) returns (ok: bool, calls: nat)
    ensures calls <= |h.entries|
    ensures ok <==> forall i :: 0 <= i < |h.entries| ==> comp(h.entries[i].0, h.entries[i].1)
    ensures ok ==> calls == |h.entries|
    ensures !ok ==> 0 < calls && !comp(h.entries[calls - 1].0, h.entries[calls - 1].1)
    ensures forall i :: 0 <= i < calls - 1 ==> comp(h.entries[i].0, h.entries[i].1)
  {
    ok := true;
    calls := 0;
    while calls < |h.entries|
      invariant calls <= |h.entries|
      invariant forall i :: 0 <= i < calls ==> comp(h.entries[i].0, h.entries[i].1)
    {
      var e := h.entries[calls];
      calls := calls + 1;
      if !comp(e.0, e.1) {
        ok := false;
        return;
      }
    }
  }

  // ---------------------------------------------------------------------
  // Keys given as memory plus length, and the default comparator.

  /** strlen: the length of the C string held at the start of `mem`. */
  function StrLen(mem: seq<char>): (n: nat)
    ensures n <= |mem|
    ensures forall i :: 0 <= i < n ==> mem[i] != '\0'
    ensures n < |mem| ==> mem[n] == '\0'
  {
    if mem == [] || mem[0] == '\0' then 0 else 1 + StrLen(mem[1..])
  }

  /** The key a (pointer, klen) pair denotes: `klen` bytes, or the C string
      when `klen` is COL_HASH_KEY_STRING.  A length that runs past the memory
      or is otherwise negative denotes no key. */
  function KeyOf(mem: seq<char>, klen: int): (r: Option<seq<char>>)
    ensures r.Some? ==> r.value <= mem
    ensures klen >= 0 ==> (r.Some? <==> klen <= |mem|)
    ensures r.Some? && klen >= 0 ==> |r.value| == klen
    ensures klen == KEY_STRING ==> r.Some? && '\0' !in r.value
    ensures klen == KEY_STRING && |r.value| < |mem| ==> mem[|r.value|] == '\0'
  {
    if klen == KEY_STRING then Some(mem[..StrLen(mem)])
    else if 0 <= klen <= |mem| then Some(mem[..klen])
    else None
  }

  /** memcmp over `n` bytes: zero iff the first `n` bytes agree, otherwise
      the sign of the first difference. */
  function Memcmp(a: seq<char>, b: seq<char>, n: nat): (r: int)
    requires n <= |a| && n <= |b|
    ensures r == 0 <==> a[..n] == b[..n]
    ensures -1 <= r <= 1
  {
    if n == 0 then 0
    else if a[0] < b[0] then -1
    else if a[0] > b[0] then 1
    else
      var r := Memcmp(a[1..], b[1..], n - 1);
      assert a[..n] == [a[0]] + a[1..][..n - 1];
      assert b[..n] == [b[0]] + b[1..][..n - 1];
      r
  }

  /** The table's default comparison: keys are candidates only when their
      lengths agree, and then memcmp decides; zero means equal. */
  function DefaultKeysEqual(a: seq<char>, alen: int, b: seq<char>, blen: int): bool
  {
    var ka := KeyOf(a, alen);
    var kb := KeyOf(b, blen);
    ka.Some? && kb.Some? && |ka.value| == |kb.value| && Memcmp(ka.value, kb.value, |ka.value|) == 0
  }

  /** Two keys compare equal only with equal lengths, and the default
      comparator identifies exactly the keys with the same bytes, so the map
      view's key equality is the comparator's. */
  lemma DefaultComparatorIsKeyEquality(a: seq<char>, alen: int, b: seq<char>, blen: int)
    ensures DefaultKeysEqual(a, alen, b, blen) ==> |KeyOf(a, alen).value| == |KeyOf(b, blen).value|
    ensures DefaultKeysEqual(a, alen, b, blen) <==> KeyOf(a, alen).Some? && KeyOf(a, alen) == KeyOf(b, blen)
  {
    var ka := KeyOf(a, alen);
    var kb := KeyOf(b, blen);
    if ka.Some? && kb.Some? && |ka.value| == |kb.value| {
      assert ka.value[..|ka.value|] == ka.value;
      assert kb.value[..|kb.value|] == kb.value;
    }
  }
}
