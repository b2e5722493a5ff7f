/**
 * The tuple pool of libcol (src/libcol/util/tuple_pool.c): a slab allocator
 * handing out tuples of one schema.  Memory is modelled as slot numbers:
 * chunk after chunk is carved into consecutive slots, so the slot a chunk
 * loan hands out is the count of slots carved before it.  Returned tuples
 * go on a LIFO free list.
 *
 * `LoanAsWritten` is the loan as the source writes it; `Loan` is the loan
 * with the free-list count kept in step, which the rest of the model uses.
 */
module TuplePool {
  import opened Wrappers

  /** INITIAL_TPOOL_SIZE: the number of tuples in the first chunk. */
  const INITIAL_TPOOL_SIZE: nat := 64

  type Slot = nat

  /** The tuple header fields the pool writes and checks. */
  datatype Header<S> = Header(schema: S, refcount: nat)

  datatype Pool<S> = Pool(
    schema: S,
    tupleSize: nat,
    free: seq<Slot>,      // the free list, most recently returned first
    nfree: nat,
    ntotal: nat,          // slots carved from all chunks so far
    nallocUnused: nat,    // slots of the current chunk not yet handed out
    nallocTotal: nat,     // size of the current chunk
    rawAlloc: Slot)       // next unused slot of the current chunk

  datatype PoolError = NullDereference | SchemaMismatch | RefcountNotZero

  /** Chunk sizes: 64, then each twice the one before. */
  predicate IsChunkSize(n: nat)
    decreases n
  {
    n == INITIAL_TPOOL_SIZE || (n > INITIAL_TPOOL_SIZE && n % 2 == 0 && IsChunkSize(n / 2))
  }

  /** The size of chunk number `i` (counting from zero). */
  function ChunkSize(i: nat): nat {
    if i == 0 then INITIAL_TPOOL_SIZE else 2 * ChunkSize(i - 1)
  }

  /** The slots carved by the first `k` chunks. */
  function SlotsOfChunks(k: nat): nat {
    if k == 0 then 0 else SlotsOfChunks(k - 1) + ChunkSize(k - 1)
  }

  /** The bookkeeping every reachable pool keeps, except for `nfree`. */
  ghost predicate Layout<S>(p: Pool<S>) {
    && p.nallocUnused <= p.nallocTotal
    && (p.nallocTotal == 0 || IsChunkSize(p.nallocTotal))
    && p.ntotal == (if p.nallocTotal == 0 then 0 else 2 * p.nallocTotal - INITIAL_TPOOL_SIZE)
    && p.rawAlloc + p.nallocUnused == p.ntotal
    && (forall i :: 0 <= i < |p.free| ==> p.free[i] < p.rawAlloc)
    && (forall i, j :: 0 <= i < j < |p.free| ==> p.free[i] != p.free[j])
  }

  /** The pool invariant: the layout, and `nfree` counts the free list. */
  ghost predicate Inv<S>(p: Pool<S>) {
    Layout(p) && p.nfree == |p.free|
  }

  /** A slot is on loan when it has been carved and is not free. */
  ghost predicate OnLoan<S>(p: Pool<S>, s: Slot) {
    s < p.rawAlloc && s !in p.free
  }

  /** The closed form the layout uses for `ntotal` is the sum of the chunk
      sizes: after chunk `k`, the slots carved are twice its size less 64. */
  lemma {:induction false} SlotsOfChunksClosedForm(k: nat)
    ensures SlotsOfChunks(k + 1) == 2 * ChunkSize(k) - INITIAL_TPOOL_SIZE
    ensures IsChunkSize(ChunkSize(k))
  {
    if k > 0 {
      SlotsOfChunksClosedForm(k - 1);
      assert ChunkSize(k) / 2 == ChunkSize(k - 1);
    }
  }

  /** make_tuple_pool: an empty free list, every counter zero, and the tuple
      size the schema reports. */
  function Make<S>(schema: S, tupleSize: nat): (p: Pool<S>)
    ensures Inv(p)
    ensures p.free == [] && p.nfree == 0 && p.ntotal == 0
    ensures p.nallocUnused == 0 && p.nallocTotal == 0
    ensures p.schema == schema && p.tupleSize == tupleSize
  {
    Pool(schema, tupleSize, [], 0, 0, 0, 0, 0)
  }

  /** The chunk half of tuple_pool_loan: a new chunk, 64 slots the first
      time and twice the last chunk after that, is carved only when the
      current one is used up; then the next slot of the chunk is handed out. */
  function LoanFromChunk<S>(p: Pool<S>): (r: (Pool<S>, Slot, Header<S>))
    requires Layout(p)
    ensures Layout(r.0) && r.0.free == p.free && r.0.nfree == p.nfree
    ensures r.0.schema == p.schema && r.0.tupleSize == p.tupleSize
    ensures r.2 == Header(p.schema, 1)
    ensures r.1 == p.rawAlloc && r.1 !in p.free && r.0.rawAlloc == r.1 + 1
    ensures p.nallocUnused > 0 ==> r.0.nallocTotal == p.nallocTotal && r.0.ntotal == p.ntotal
    ensures p.nallocUnused > 0 ==> r.0.nallocUnused == p.nallocUnused - 1
    ensures p.nallocUnused == 0 ==> r.0.ntotal == p.ntotal + r.0.nallocTotal
    ensures p.nallocUnused == 0 ==> r.0.nallocUnused == r.0.nallocTotal - 1
    ensures p.nallocUnused == 0 && p.nallocTotal == 0 ==> r.0.nallocTotal == INITIAL_TPOOL_SIZE
    ensures p.nallocUnused == 0 && p.nallocTotal > 0 ==> r.0.nallocTotal == 2 * p.nallocTotal
    ensures r.0.nallocUnused < r.0.nallocTotal
  {
    var q :=
      if p.nallocUnused == 0 then
        var size := if p.nallocTotal == 0 then INITIAL_TPOOL_SIZE else p.nallocTotal * 2;
        assert size / 2 == p.nallocTotal || size == INITIAL_TPOOL_SIZE;
        p.(nallocTotal := size, nallocUnused := size, ntotal := p.ntotal + size)
      else p;
    (q.(rawAlloc := q.rawAlloc + 1, nallocUnused := q.nallocUnused - 1), q.rawAlloc, Header(p.schema, 1))
  }

  /** tuple_pool_loan as written: the free list is used whenever `nfree` is
      positive, but a free-list loan never decrements `nfree`, so the head
      it reads may be NULL. */
  function LoanAsWritten<S>(p: Pool<S>): (r: Result<(Pool<S>, Slot, Header<S>), PoolError>)
    requires Layout(p)
    ensures r.Failure? <==> p.nfree > 0 && p.free == []
    ensures r.Success? ==> Layout(r.value.0) && r.value.2 == Header(p.schema, 1)
    ensures r.Success? && p.nfree > 0 ==> r.value.1 == p.free[0] && r.value.0.nfree == p.nfree
    ensures p.nfree > 0 && p.free != [] ==>
      r == Success((p.(free := p.free[1..]), p.free[0], Header(p.schema, 1)))
    ensures p.nfree == 0 ==> r == Success(LoanFromChunk(p))
  {
    if p.nfree > 0 then
      if p.free == [] then Failure(NullDereference)
      else Success((p.(free := p.free[1..]), p.free[0], Header(p.schema, 1)))
    else
      Success(LoanFromChunk(p))
  }

  /** tuple_pool_loan with `nfree` kept equal to the length of the free
      list: the most recently returned tuple is reused when there is one,
      otherwise a chunk slot never handed out before.  The loaned tuple has
      the pool's schema and refcount 1. */
  function Loan<S>(p: Pool<S>): (r: (Pool<S>, Slot, Header<S>))
    requires Inv(p)
    ensures Inv(r.0)
    ensures r.0.schema == p.schema && r.0.tupleSize == p.tupleSize
    ensures r.2 == Header(p.schema, 1)
    ensures !OnLoan(p, r.1) && OnLoan(r.0, r.1)
    ensures forall s :: OnLoan(r.0, s) <==> OnLoan(p, s) || s == r.1
    ensures p.free != [] ==> r.1 == p.free[0] && r.0.free == p.free[1..]
    ensures p.free != [] ==> r.0.ntotal == p.ntotal && r.0.nallocUnused == p.nallocUnused
    ensures p.free == [] ==> r.1 == p.rawAlloc && r.0.free == []
  {
    if p.nfree > 0 then
      (p.(free := p.free[1..], nfree := p.nfree - 1), p.free[0], Header(p.schema, 1))
    else
      LoanFromChunk(p)
  }

  /** tuple_pool_return: the tuple must carry the pool's schema and a zero
      refcount (an assertion failure otherwise); it goes on the head of the
      free list and `nfree` grows by one. */
  function Return<S(==)>(p: Pool<S>, s: Slot, h: Header<S>): (r: Result<Pool<S>, PoolError>)
    ensures h.schema != p.schema ==> r == Failure(SchemaMismatch)
    ensures h.schema == p.schema && h.refcount != 0 ==> r == Failure(RefcountNotZero)
    ensures r.Success? <==> h.schema == p.schema && h.refcount == 0
    ensures r.Success? ==> r.value.free == [s] + p.free && r.value.nfree == p.nfree + 1
    ensures r.Success? ==>
      && r.value.schema == p.schema && r.value.tupleSize == p.tupleSize
      && r.value.rawAlloc == p.rawAlloc && r.value.ntotal == p.ntotal
      && r.value.nallocUnused == p.nallocUnused && r.value.nallocTotal == p.nallocTotal
    ensures r.Success? ==> forall x :: x != s ==> (OnLoan(r.value, x) <==> OnLoan(p, x))
    ensures r.Success? && Inv(p) && OnLoan(p, s) ==> Inv(r.value) && !OnLoan(r.value, s)
  {
    if h.schema != p.schema then Failure(SchemaMismatch)
    else if h.refcount != 0 then Failure(RefcountNotZero)
    else Success(p.(nfree := p.nfree + 1, free := [s] + p.free))
  }

  /** The free list is LIFO: a loan right after a return hands back the
      tuple just returned. */
  lemma LoanAfterReturnIsLifo<S>(p: Pool<S>, s: Slot)
    requires Inv(p) && OnLoan(p, s)
    ensures Return(p, s, Header(p.schema, 0)).Success?
    ensures Loan(Return(p, s, Header(p.schema, 0)).value).1 == s
  {
  }

  /** The source's loan breaks `nfree == |free list|`: return one tuple,
      loan it back (nfree stays 1 with the list empty), and the next loan
      reads the NULL head of the empty free list.  The corrected loan hands
      out a fresh chunk slot at that point. */
  lemma NfreeNotDecrementedOnLoan<S>(schema: S, tupleSize: nat)
    ensures
      var p0 := Make(schema, tupleSize);
      var l1 := LoanAsWritten(p0);
      l1.Success? &&
      var p1 := Return(l1.value.0, l1.value.1, Header(schema, 0));
      p1.Success? &&
      var l2 := LoanAsWritten(p1.value);
      l2.Success? && l2.value.1 == l1.value.1 &&
      l2.value.0.nfree == 1 && l2.value.0.free == [] &&
      LoanAsWritten(l2.value.0) == Failure(NullDereference)
    ensures
      var p0 := Make(schema, tupleSize);
      var q1 := Loan(p0);
      var q2 := Loan(Return(q1.0, q1.1, Header(schema, 0)).value);
      q2.1 == q1.1 && Loan(q2.0).1 != q1.1
  {
  }
}
