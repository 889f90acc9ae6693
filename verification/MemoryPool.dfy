/** The bump allocator of the DOM: blocks are cut from the head of a list of chunks, and never given back one by one. */
module MemoryPool {
  import opened Bytes

  const UINT64: nat := 0x1_0000_0000_0000_0000

  /** RAPIDJSON_ALIGN(sizeof(ChunkHeader)) with eight-byte pointers. */
  const HEADER: nat := 24

  /** The sum of two `size_t`. */
  function Add64(a: nat, b: nat): (c: nat)
    ensures a + b < UINT64 ==> c == a + b
  {
    (a + b) % UINT64
  }

  /** The bytes that a block of `n` bytes takes: up to a multiple of eight. */
  function Padded(n: nat): nat {
    (n + 7) / 8 * 8
  }

  /** RAPIDJSON_ALIGN, on a `size_t`. */
  function Align(n: nat): nat {
    Add64(n, 7) / 8 * 8
  }

  /** Aligning pads, unless the sum wraps; a request that close to 2^64 becomes one for nothing. */
  lemma AlignExact(n: nat)
    requires n < UINT64
    ensures n <= Padded(n) < n + 8 && Padded(n) % 8 == 0 && Align(n) % 8 == 0 && Align(n) < UINT64
    ensures n + 7 < UINT64 ==> Align(n) == Padded(n)
    ensures n + 7 >= UINT64 ==> Align(n) == 0 && Padded(n) == UINT64
  {
  }

  /** ChunkHeader: the chunk starts at address `base`, its blocks behind the header. */
  datatype Chunk = Chunk(base: nat, capacity: nat, size: nat) {
    function Start(): nat {
      base + HEADER
    }

    function End(): nat {
      base + HEADER + capacity
    }
  }

  predicate ChunkOk(c: Chunk) {
    0 < c.base && c.base % 8 == 0 && c.End() < UINT64 && c.size <= c.capacity && c.size % 8 == 0
  }

  predicate Apart(a: Chunk, b: Chunk) {
    a.End() <= b.base || b.End() <= a.base
  }

  predicate ChunksOk(chunks: seq<Chunk>) {
    (forall i :: 0 <= i < |chunks| ==> ChunkOk(chunks[i]))
    && forall i, j :: 0 <= i < j < |chunks| ==> Apart(chunks[i], chunks[j])
  }

  /** A block lies in the used part of a chunk. */
  predicate Inside(c: Chunk, p: nat, size: nat) {
    c.Start() <= p && p + Padded(size) <= c.Start() + c.size
  }

  /** Blocks by address, with the size that was asked for. */
  type Blocks = map<nat, nat>

  ghost predicate BlockOk(chunks: seq<Chunk>, p: nat, size: nat) {
    p % 8 == 0 && 0 < size && exists i :: 0 <= i < |chunks| && Inside(chunks[i], p, size)
  }

  predicate BlocksApart(p: nat, m: nat, q: nat, n: nat) {
    p + Padded(m) <= q || q + Padded(n) <= p
  }

  /** The live blocks are aligned, lie in chunks, and do not overlap. */
  ghost predicate BlocksOk(chunks: seq<Chunk>, live: Blocks) {
    && (forall p :: p in live ==> BlockOk(chunks, p, live[p]))
    && (forall p, q :: p in live && q in live && p != q ==> BlocksApart(p, live[p], q, live[q]))
  }

  /** All is well with the chunks and with the blocks in them. */
  ghost predicate Sound(chunks: seq<Chunk>, live: Blocks) {
    ChunksOk(chunks) && BlocksOk(chunks, live)
  }

  /** Memory that the base allocator may hand out when it is asked for `length` bytes. */
  predicate NewRegion(chunks: seq<Chunk>, base: nat, length: nat) {
    && 0 < base && base % 8 == 0 && base + length < UINT64
    && forall i :: 0 <= i < |chunks| ==> chunks[i].End() <= base || base + length <= chunks[i].base
  }

  // ---------------------------------------------------------------- the blocks, when chunks change

  /** A new chunk, if it is as large as it claims. */
  lemma ChunkPrepended(chunks: seq<Chunk>, live: Blocks, c: Chunk)
    requires Sound(chunks, live) && c.size == 0 && NewRegion(chunks, c.base, HEADER + c.capacity)
    ensures Sound([c] + chunks, live)
  {
    var all := [c] + chunks;
    forall i, j | 0 <= i < j < |all| ensures Apart(all[i], all[j]) {
      assert all[j] == chunks[j - 1];
    }
    forall p | p in live ensures BlockOk(all, p, live[p]) {
      var i :| 0 <= i < |chunks| && Inside(chunks[i], p, live[p]);
      assert all[i + 1] == chunks[i];
    }
  }

  /** The head chunk with more of it used. */
  function Used(chunks: seq<Chunk>, n: nat): seq<Chunk>
    requires chunks != []
  {
    chunks[0 := chunks[0].(size := Add64(chunks[0].size, n))]
  }

  lemma HeadUsed(chunks: seq<Chunk>, live: Blocks, n: nat)
    requires chunks != [] && Sound(chunks, live) && n % 8 == 0 && chunks[0].size + n <= chunks[0].capacity
    ensures Sound(Used(chunks, n), live) && Used(chunks, n)[0].size == chunks[0].size + n
  {
    var all := Used(chunks, n);
    forall p | p in live ensures BlockOk(all, p, live[p]) {
      var i :| 0 <= i < |chunks| && Inside(chunks[i], p, live[p]);
      assert Inside(all[i], p, live[p]);
    }
  }

  /** Every block ends before the free part of the head chunk starts, or starts behind the chunk. */
  lemma HeadFree(chunks: seq<Chunk>, live: Blocks, p: nat)
    requires chunks != [] && Sound(chunks, live) && p in live
    ensures var c := chunks[0]; p + Padded(live[p]) <= c.Start() + c.size || c.End() <= p
  {
    var i :| 0 <= i < |chunks| && Inside(chunks[i], p, live[p]);
    if i > 0 {
      assert Apart(chunks[0], chunks[i]);
    }
  }

  lemma BlockPut(chunks: seq<Chunk>, live: Blocks, p: nat, size: nat)
    requires BlocksOk(chunks, live) && BlockOk(chunks, p, size)
    requires forall q :: q in live && q != p ==> BlocksApart(p, size, q, live[q])
    ensures BlocksOk(chunks, live[p := size])
  {
    hide BlockOk, Padded;
  }

  /** A live block is no larger than its chunk, so aligning its size pads it. */
  lemma LiveSmall(chunks: seq<Chunk>, live: Blocks, p: nat)
    requires Sound(chunks, live) && p in live
    ensures 0 < live[p] <= Padded(live[p]) == Align(live[p]) && Align(live[p]) % 8 == 0 && BlockOk(chunks, p, live[p])
    ensures 0 < p && p + Padded(live[p]) < UINT64 && chunks != []
  {
    var i :| 0 <= i < |chunks| && Inside(chunks[i], p, live[p]);
    assert ChunkOk(chunks[i]);
    AlignExact(live[p]);
  }

  lemma LiveApart(chunks: seq<Chunk>, live: Blocks, p: nat, q: nat)
    requires BlocksOk(chunks, live) && p in live && q in live && p != q
    ensures BlocksApart(p, live[p], q, live[q])
  {
  }

  /** A block cut from the free part of the head chunk. */
  lemma BlockAdded(chunks: seq<Chunk>, live: Blocks, size: nat)
    requires chunks != [] && Sound(chunks, live) && 0 < size
    requires chunks[0].size + Padded(size) <= chunks[0].capacity
    ensures var p := chunks[0].Start() + chunks[0].size;
            p !in live && Sound(Used(chunks, Padded(size)), live[p := size])
  {
    hide Padded, BlocksOk;
    PaddedMore(size);
    var p := chunks[0].Start() + chunks[0].size;
    var all := Used(chunks, Padded(size));
    forall q | q in live ensures q != p && BlocksApart(p, size, q, live[q]) {
      HeadFree(chunks, live, q);
      LiveSmall(chunks, live, q);
    }
    HeadUsed(chunks, live, Padded(size));
    assert Inside(all[0], p, size);
    BlockPut(all, live, p, size);
  }

  lemma PaddedMore(n: nat)
    ensures n <= Padded(n) < n + 8 && Padded(n) % 8 == 0
  {
  }

  /**
   * The test of `Realloc` for growth in place compares a pointer with the end of
   * the used part of the head chunk, less the size of the block: it can only be
   * met by the last block of the head chunk.
   */
  lemma OnlyLastGrows(chunks: seq<Chunk>, live: Blocks, p: nat)
    requires chunks != [] && Sound(chunks, live) && p in live
    requires p + Padded(live[p]) == chunks[0].Start() + chunks[0].size
    ensures Inside(chunks[0], p, live[p])
    ensures forall q :: q in live && q != p && Inside(chunks[0], q, live[q]) ==> q + Padded(live[q]) <= p
  {
    var i :| 0 <= i < |chunks| && Inside(chunks[i], p, live[p]);
    LiveSmall(chunks, live, p);
    assert i > 0 ==> Apart(chunks[0], chunks[i]);
    assert i == 0;
    forall q | q in live && q != p && Inside(chunks[0], q, live[q]) ensures q + Padded(live[q]) <= p {
      LiveSmall(chunks, live, q);
      assert BlocksApart(p, live[p], q, live[q]);
    }
  }

  /** The last block of the head chunk grows in place. */
  lemma BlockGrown(chunks: seq<Chunk>, live: Blocks, p: nat, size: nat)
    requires chunks != [] && Sound(chunks, live) && p in live
    requires p + Padded(live[p]) == chunks[0].Start() + chunks[0].size
    requires Padded(live[p]) < Padded(size)
    requires chunks[0].size + (Padded(size) - Padded(live[p])) <= chunks[0].capacity
    ensures Sound(Used(chunks, Padded(size) - Padded(live[p])), live[p := size])
  {
    hide Padded, BlocksOk, ChunksOk, BlocksApart;
    var n := Padded(size) - Padded(live[p]);
    PaddedMore(size);
    LiveSmall(chunks, live, p);
    OnlyLastGrows(chunks, live, p);
    HeadUsed(chunks, live, n);
    forall q | q in live && q != p ensures BlocksApart(p, size, q, live[q]) {
      GrownApart(chunks, live, p, q, size);
    }
    GrownInside(chunks, p, live[p], size);
    BlockPut(Used(chunks, n), live, p, size);
  }

  lemma GrownApart(chunks: seq<Chunk>, live: Blocks, p: nat, q: nat, size: nat)
    requires chunks != [] && Sound(chunks, live) && p in live && q in live && q != p
    requires p + Padded(live[p]) == chunks[0].Start() + chunks[0].size
    requires chunks[0].size + (Padded(size) - Padded(live[p])) <= chunks[0].capacity
    ensures BlocksApart(p, size, q, live[q])
  {
    HeadFree(chunks, live, q);
    LiveSmall(chunks, live, q);
    LiveApart(chunks, live, p, q);
    hide Padded, BlocksOk, ChunksOk;
  }

  lemma GrownInside(chunks: seq<Chunk>, p: nat, was: nat, size: nat)
    requires chunks != [] && Inside(chunks[0], p, was) && p % 8 == 0 && 0 < size && Padded(was) < Padded(size)
    requires p + Padded(was) == chunks[0].Start() + chunks[0].size
    requires chunks[0].size + (Padded(size) - Padded(was)) < UINT64
    ensures BlockOk(Used(chunks, Padded(size) - Padded(was)), p, size)
  {
    hide Padded;
    assert Inside(Used(chunks, Padded(size) - Padded(was))[0], p, size);
  }

  /** A block that is used up to a smaller size, or not any more. */
  lemma BlockShrunk(chunks: seq<Chunk>, live: Blocks, p: nat, size: nat)
    requires BlocksOk(chunks, live) && p in live && 0 < size && Padded(size) <= Padded(live[p])
    ensures BlocksOk(chunks, live[p := size])
  {
    var i :| 0 <= i < |chunks| && Inside(chunks[i], p, live[p]);
    assert Inside(chunks[i], p, size);
    forall q | q in live && q != p ensures BlocksApart(p, size, q, live[q]) && BlocksApart(q, live[q], p, size) {
      assert BlocksApart(p, live[p], q, live[q]);
    }
  }

  lemma BlockDropped(chunks: seq<Chunk>, live: Blocks, p: nat)
    requires BlocksOk(chunks, live)
    ensures BlocksOk(chunks, live - {p})
  {
  }

  /** Nothing that ends beyond the addresses lies in a chunk. */
  lemma TooFar(chunks: seq<Chunk>, p: nat, size: nat)
    requires ChunksOk(chunks) && p + Padded(size) >= UINT64
    ensures !BlockOk(chunks, p, size)
  {
  }

  // ---------------------------------------------------------------- Malloc

  /** An address, or 0, and the chunks afterwards. */
  datatype Allotted = Allotted(p: nat, chunks: seq<Chunk>)

  /** The capacity of the chunk that a request would add. */
  function NewCapacity(chunkCapacity: nat, n: nat): nat {
    if chunkCapacity > n then chunkCapacity else n
  }

  /** The head chunk has no room, as far as the sum tells. */
  predicate NoRoom(chunks: seq<Chunk>, n: nat) {
    chunks == [] || Add64(chunks[0].size, n) > chunks[0].capacity
  }

  /** The block from the free part of the head chunk on. */
  function Cut(chunks: seq<Chunk>, n: nat): Allotted
    requires chunks != []
  {
    Allotted(chunks[0].Start() + chunks[0].size, Used(chunks, n))
  }

  /** Malloc, when the base allocator would return `base` for a new chunk. */
  function Allot(chunks: seq<Chunk>, chunkCapacity: nat, size: nat, base: nat): Allotted {
    var n := Align(size);
    if size == 0 then Allotted(0, chunks)
    else if !NoRoom(chunks, n) then Cut(chunks, n)
    else if base == 0 then Allotted(0, chunks)
    else Cut([Chunk(base, NewCapacity(chunkCapacity, n), 0)] + chunks, n)
  }

  /** The base allocator, if asked for a chunk for `n` bytes, returns 0, or as much memory as it is asked for. */
  predicate Offer(chunks: seq<Chunk>, chunkCapacity: nat, n: nat, base: nat) {
    base == 0 || NewRegion(chunks, base, Add64(HEADER, NewCapacity(chunkCapacity, n)))
  }

  /** None of the sums wraps: for aligning, for the use of the head chunk, and for the size of a new one. */
  predicate SumsFit(chunks: seq<Chunk>, chunkCapacity: nat, size: nat) {
    && size + 7 < UINT64
    && (chunks != [] ==> chunks[0].size + Padded(size) < UINT64)
    && (NoRoom(chunks, Padded(size)) ==> HEADER + NewCapacity(chunkCapacity, Padded(size)) < UINT64)
  }

  /**
   * The block that is returned lies in the used part of a chunk, apart from all
   * live blocks, and leaves them so, exactly if none of the sums wraps.
   */
  lemma AllotExact(chunks: seq<Chunk>, live: Blocks, chunkCapacity: nat, size: nat, base: nat)
    requires Sound(chunks, live) && size < UINT64 && Offer(chunks, chunkCapacity, Align(size), base)
    ensures var r := Allot(chunks, chunkCapacity, size, base);
            && (r.p == 0 ==> r.chunks == chunks && (size == 0 || base == 0))
            && (r.p != 0 ==> (Sound(r.chunks, live[r.p := size]) <==> SumsFit(chunks, chunkCapacity, size)))
            && (r.p != 0 && SumsFit(chunks, chunkCapacity, size) ==> r.p !in live)
  {
    var r := Allot(chunks, chunkCapacity, size, base);
    AlignExact(size);
    hide Padded, Align, BlocksOk;
    if r.p != 0 {
      if SumsFit(chunks, chunkCapacity, size) {
        AllotFits(chunks, live, chunkCapacity, size, base);
      } else {
        AllotWraps(chunks, chunkCapacity, size, base);
        BrokenUnsound(r.chunks, live, r.p, size);
      }
    }
  }

  lemma AllotFits(chunks: seq<Chunk>, live: Blocks, chunkCapacity: nat, size: nat, base: nat)
    requires Sound(chunks, live) && 0 < size < UINT64 && Offer(chunks, chunkCapacity, Align(size), base)
    requires SumsFit(chunks, chunkCapacity, size) && (base != 0 || !NoRoom(chunks, Align(size)))
    ensures var r := Allot(chunks, chunkCapacity, size, base);
            r.p != 0 && r.p !in live && Sound(r.chunks, live[r.p := size])
  {
    AlignExact(size);
    hide Padded, Align, BlocksOk, ChunksOk, NewRegion;
    var n := Align(size);
    if NoRoom(chunks, n) {
      var c := Chunk(base, NewCapacity(chunkCapacity, n), 0);
      ChunkPrepended(chunks, live, c);
      BlockAdded([c] + chunks, live, size);
    } else {
      BlockAdded(chunks, live, size);
    }
  }

  /** A chunk that is not, or a block that is in none. */
  ghost predicate Broken(chunks: seq<Chunk>, p: nat, size: nat) {
    !ChunksOk(chunks) || !BlockOk(chunks, p, size)
  }

  lemma BrokenUnsound(chunks: seq<Chunk>, live: Blocks, p: nat, size: nat)
    requires Broken(chunks, p, size)
    ensures !Sound(chunks, live[p := size])
  {
    if BlocksOk(chunks, live[p := size]) {
      assert p in live[p := size];
    }
  }

  lemma AllotWraps(chunks: seq<Chunk>, chunkCapacity: nat, size: nat, base: nat)
    requires ChunksOk(chunks) && 0 < size < UINT64 && !SumsFit(chunks, chunkCapacity, size)
    requires base != 0 || !NoRoom(chunks, Align(size))
    ensures var r := Allot(chunks, chunkCapacity, size, base); Broken(r.chunks, r.p, size)
  {
    AlignExact(size);
    hide Padded, Align, BlockOk;
    var n, r := Align(size), Allot(chunks, chunkCapacity, size, base);
    if ChunksOk(r.chunks) {
      assert ChunkOk(r.chunks[0]);
      TooFar(r.chunks, r.p, size);
    }
  }

  /** The largest request is aligned to nothing: the next request gets the same address. */
  lemma LargestRequest(c: Chunk, live: Blocks, chunkCapacity: nat)
    requires Sound([c], live)
    ensures var r := Allot([c], chunkCapacity, UINT64 - 1, 0);
            r == Allotted(c.Start() + c.size, [c]) && !Sound(r.chunks, live[r.p := UINT64 - 1])
  {
    AlignExact(UINT64 - 1);
    AllotWraps([c], chunkCapacity, UINT64 - 1, 0);
    BrokenUnsound([c], live, c.Start() + c.size, UINT64 - 1);
  }

  /** On a chunk of which 16 bytes are used, a request of 2^64 - 16 makes the chunk count as unused. */
  lemma SixteenShort(c: Chunk, live: Blocks, chunkCapacity: nat)
    requires Sound([c], live) && c.size == 16
    ensures var r := Allot([c], chunkCapacity, UINT64 - 16, 0);
            r == Allotted(c.Start() + 16, [c.(size := 0)]) && !Sound(r.chunks, live[r.p := UINT64 - 16])
  {
    AlignExact(UINT64 - 16);
    AllotWraps([c], chunkCapacity, UINT64 - 16, 0);
    BrokenUnsound([c.(size := 0)], live, c.Start() + 16, UINT64 - 16);
  }

  // ---------------------------------------------------------------- Realloc

  /** The block is the last of the head chunk, and there is room behind it, as far as the sum tells. */
  predicate GrowsInPlace(chunks: seq<Chunk>, p: nat, o: nat, n: nat) {
    && o < n && chunks != [] && p + o == chunks[0].Start() + chunks[0].size
    && Add64(chunks[0].size, n - o) <= chunks[0].capacity
  }

  /** Realloc of a block of `originalSize` bytes at `p`. */
  function Reallot(chunks: seq<Chunk>, chunkCapacity: nat, p: nat, originalSize: nat, newSize: nat,
                   base: nat): Allotted {
    var o, n := Align(originalSize), Align(newSize);
    if p == 0 then Allot(chunks, chunkCapacity, newSize, base)
    else if newSize == 0 then Allotted(0, chunks)
    else if o >= n then Allotted(p, chunks)
    else if GrowsInPlace(chunks, p, o, n) then Allotted(p, Used(chunks, n - o))
    else Allot(chunks, chunkCapacity, n, base)
  }

  /** None of the sums wraps: those of a request, if the block has to move. */
  predicate ReallotFits(chunks: seq<Chunk>, chunkCapacity: nat, p: nat, originalSize: nat, newSize: nat) {
    var o, n := Padded(originalSize), Padded(newSize);
    if newSize + 7 >= UINT64 || o >= n then newSize + 7 < UINT64
    else if GrowsInPlace(chunks, p, o, n) then chunks[0].size + (n - o) < UINT64
    else SumsFit(chunks, chunkCapacity, n)
  }

  /** The block that is returned takes the place of the other as it should exactly if none of the sums wraps. */
  lemma ReallotExact(chunks: seq<Chunk>, live: Blocks, chunkCapacity: nat, p: nat, newSize: nat, base: nat)
    requires Sound(chunks, live) && p in live && 0 < newSize < UINT64
    requires Offer(chunks, chunkCapacity, Align(newSize), base)
    ensures var r := Reallot(chunks, chunkCapacity, p, live[p], newSize, base);
            && (r.p == 0 ==> r.chunks == chunks && base == 0)
            && (r.p != 0 ==>
                  (Sound(r.chunks, (live - {p})[r.p := newSize])
                   <==> ReallotFits(chunks, chunkCapacity, p, live[p], newSize)))
  {
    var o, n := Align(live[p]), Align(newSize);
    var r := Reallot(chunks, chunkCapacity, p, live[p], newSize, base);
    LiveSmall(chunks, live, p);
    AlignExact(newSize);
    if o >= n {
      ReallotShrinks(chunks, live, p, newSize);
    } else if GrowsInPlace(chunks, p, o, n) {
      ReallotGrows(chunks, live, p, newSize);
    } else {
      ReallotMoves(chunks, live, chunkCapacity, p, newSize, base);
    }
  }

  lemma ReallotShrinks(chunks: seq<Chunk>, live: Blocks, p: nat, newSize: nat)
    requires Sound(chunks, live) && p in live && 0 < newSize < UINT64 && Align(live[p]) >= Align(newSize)
    ensures Sound(chunks, (live - {p})[p := newSize]) <==> newSize + 7 < UINT64
  {
    LiveSmall(chunks, live, p);
    AlignExact(newSize);
    hide Padded, Align, BlocksOk, ChunksOk;
    assert (live - {p})[p := newSize] == live[p := newSize];
    if newSize + 7 < UINT64 {
      BlockShrunk(chunks, live, p, newSize);
    } else {
      TooFar(chunks, p, newSize);
      BrokenUnsound(chunks, live, p, newSize);
    }
  }

  lemma ReallotGrows(chunks: seq<Chunk>, live: Blocks, p: nat, newSize: nat)
    requires Sound(chunks, live) && p in live && 0 < newSize && newSize + 7 < UINT64
    requires GrowsInPlace(chunks, p, Padded(live[p]), Padded(newSize))
    ensures var n := Padded(newSize) - Padded(live[p]);
            Sound(Used(chunks, n), (live - {p})[p := newSize]) <==> chunks[0].size + n < UINT64
  {
    hide Padded, BlocksOk;
    var n := Padded(newSize) - Padded(live[p]);
    assert (live - {p})[p := newSize] == live[p := newSize];
    if chunks[0].size + n < UINT64 {
      BlockGrown(chunks, live, p, newSize);
    } else {
      OnlyLastGrows(chunks, live, p);
      if ChunksOk(Used(chunks, n)) {
        TooFar(Used(chunks, n), p, newSize);
      }
      BrokenUnsound(Used(chunks, n), live, p, newSize);
    }
  }

  lemma ReallotMoves(chunks: seq<Chunk>, live: Blocks, chunkCapacity: nat, p: nat, newSize: nat, base: nat)
    requires Sound(chunks, live) && p in live && 0 < newSize && newSize + 7 < UINT64
    requires Offer(chunks, chunkCapacity, Align(newSize), base)
    ensures var r := Allot(chunks, chunkCapacity, Align(newSize), base);
            && (r.p == 0 ==> r.chunks == chunks && base == 0)
            && (r.p != 0 ==>
                  (Sound(r.chunks, (live - {p})[r.p := newSize]) <==> SumsFit(chunks, chunkCapacity, Padded(newSize))))
            && (r.p != 0 && SumsFit(chunks, chunkCapacity, Padded(newSize)) ==>
                  r.p !in live && Sound(r.chunks, live[r.p := Padded(newSize)]))
  {
    var n := Padded(newSize);
    AlignTwice(newSize);
    hide Padded, Align, Sound, SumsFit, Allot, Offer, Broken;
    SoundChunks(chunks, live);
    var r := Allot(chunks, chunkCapacity, n, base);
    AllotExact(chunks, live, chunkCapacity, n, base);
    if r.p != 0 {
      if SumsFit(chunks, chunkCapacity, n) {
        MovedSound(r.chunks, live, p, r.p, newSize);
      } else {
        MoveWraps(chunks, chunkCapacity, n, base);
        BrokenSame(r.chunks, r.p, newSize);
        BrokenUnsound(r.chunks, live - {p}, r.p, newSize);
      }
    }
  }

  lemma SoundChunks(chunks: seq<Chunk>, live: Blocks)
    requires Sound(chunks, live)
    ensures ChunksOk(chunks)
  {
  }

  lemma MovedSound(chunks: seq<Chunk>, live: Blocks, p: nat, q: nat, newSize: nat)
    requires p in live && q !in live && 0 < newSize && Padded(Padded(newSize)) == Padded(newSize)
    requires Sound(chunks, live[q := Padded(newSize)])
    ensures Sound(chunks, (live - {p})[q := newSize])
  {
    hide Padded, BlocksOk, ChunksOk;
    BlockShrunk(chunks, live[q := Padded(newSize)], q, newSize);
    BlockDropped(chunks, live[q := Padded(newSize)][q := newSize], p);
    assert live[q := Padded(newSize)][q := newSize] - {p} == (live - {p})[q := newSize];
  }

  lemma AlignTwice(n: nat)
    requires 0 < n && n + 7 < UINT64
    ensures Align(n) == Padded(n) && 0 < Padded(n) < UINT64
    ensures Padded(Padded(n)) == Padded(n) && Align(Padded(n)) == Padded(n)
  {
  }

  lemma MoveWraps(chunks: seq<Chunk>, chunkCapacity: nat, n: nat, base: nat)
    requires ChunksOk(chunks) && 0 < n < UINT64 && !SumsFit(chunks, chunkCapacity, n)
    requires Allot(chunks, chunkCapacity, n, base).p != 0
    ensures var r := Allot(chunks, chunkCapacity, n, base); Broken(r.chunks, r.p, n)
  {
    AllotWraps(chunks, chunkCapacity, n, base);
  }

  lemma BrokenSame(chunks: seq<Chunk>, p: nat, size: nat)
    requires 0 < size && Broken(chunks, p, Padded(size)) && Padded(Padded(size)) == Padded(size)
    ensures Broken(chunks, p, size)
  {
    if BlockOk(chunks, p, size) {
      var i :| 0 <= i < |chunks| && Inside(chunks[i], p, size);
      assert Inside(chunks[i], p, Padded(size));
    }
  }

  // ---------------------------------------------------------------- contents

  /** The bytes of a block. */
  function Content(memory: nat -> byte, p: nat, n: nat): (r: bytes)
    ensures |r| == n && forall i :: 0 <= i < n ==> r[i] == memory(p + i)
  {
    seq(n, i requires 0 <= i < n => memory(p + i))
  }

  /** Blocks other than `p` have the bytes they had. */
  ghost predicate OthersKept(live: Blocks, p: nat, before: nat -> byte, after: nat -> byte) {
    forall q :: q in live && q != p ==> Content(after, q, live[q]) == Content(before, q, live[q])
  }

  /** `n` bytes at `p` were copied to `q`, and nothing else changed. */
  ghost predicate Copied(before: nat -> byte, p: nat, after: nat -> byte, q: nat, n: nat) {
    && Content(after, q, n) == Content(before, p, n)
    && forall a: nat :: a < q || q + n <= a ==> after(a) == before(a)
  }

  /** Bytes copied into a new block are not those of another. */
  lemma CopyKeepsOthers(chunks: seq<Chunk>, live: Blocks, p: nat, q: nat, n: nat, before: nat -> byte,
                        after: nat -> byte)
    requires Sound(chunks, live) && q in live && n <= Padded(live[q]) && Copied(before, p, after, q, n)
    ensures OthersKept(live - {q}, p, before, after)
  {
    hide Padded, BlocksOk, ChunksOk, Copied;
    forall r | r in live && r != q ensures Content(after, r, live[r]) == Content(before, r, live[r]) {
      LiveApart(chunks, live, q, r);
      LiveSmall(chunks, live, r);
      ElsewhereKept(before, p, after, q, n, r, live[r]);
    }
  }

  lemma ElsewhereKept(before: nat -> byte, p: nat, after: nat -> byte, q: nat, n: nat, r: nat, m: nat)
    requires Copied(before, p, after, q, n) && (r + m <= q || q + n <= r)
    ensures Content(after, r, m) == Content(before, r, m)
  {
  }

  lemma CopiedPart(before: nat -> byte, p: nat, after: nat -> byte, q: nat, n: nat, m: nat)
    requires Copied(before, p, after, q, n) && m <= n
    ensures Content(after, q, m) == Content(before, p, m)
  {
    assert Content(after, q, n)[..m] == Content(after, q, m) && Content(before, p, n)[..m] == Content(before, p, m);
  }

  // ---------------------------------------------------------------- totals

  function TotalSize(chunks: seq<Chunk>): nat {
    if chunks == [] then 0 else chunks[0].size + TotalSize(chunks[1..])
  }

  function TotalCapacity(chunks: seq<Chunk>): nat {
    if chunks == [] then 0 else chunks[0].capacity + TotalCapacity(chunks[1..])
  }

  lemma {:induction false} SizeWithinCapacity(chunks: seq<Chunk>)
    requires ChunksOk(chunks)
    ensures TotalSize(chunks) <= TotalCapacity(chunks)
  {
    if chunks != [] {
      SizeWithinCapacity(chunks[1..]);
    }
  }

  // ---------------------------------------------------------------- the allocator

  /** A chunk that the user supplied is the last of the list. */
  predicate BufferLast(chunks: seq<Chunk>, buffer: nat) {
    && (buffer != 0 ==> chunks != [] && chunks[|chunks| - 1].base == buffer)
    && forall i :: 0 <= i < |chunks| && chunks[i].base == buffer ==> i == |chunks| - 1
  }

  lemma BufferStaysLast(chunks: seq<Chunk>, buffer: nat, n: nat)
    requires chunks != [] && BufferLast(chunks, buffer)
    ensures BufferLast(Used(chunks, n), buffer)
  {
    assert forall i :: 0 <= i < |chunks| ==> Used(chunks, n)[i].base == chunks[i].base;
  }

  /** A chunk of which the sizes do not wrap is none of those there are. */
  lemma BufferStaysBehind(chunks: seq<Chunk>, buffer: nat, c: Chunk)
    requires BufferLast(chunks, buffer) && NewRegion(chunks, c.base, HEADER + c.capacity)
    ensures BufferLast([c] + chunks, buffer)
  {
    var all := [c] + chunks;
    forall i | 0 <= i < |all| && all[i].base == buffer ensures i == |all| - 1 {
      assert i > 0 ==> all[i] == chunks[i - 1];
    }
  }

  lemma AllotKeepsBuffer(chunks: seq<Chunk>, chunkCapacity: nat, size: nat, base: nat, buffer: nat)
    requires BufferLast(chunks, buffer) && size < UINT64 && Offer(chunks, chunkCapacity, Align(size), base)
    requires SumsFit(chunks, chunkCapacity, size)
    ensures BufferLast(Allot(chunks, chunkCapacity, size, base).chunks, buffer)
  {
    AlignExact(size);
    hide Padded, Align, BufferLast;
    var n := Align(size);
    var c := Chunk(base, NewCapacity(chunkCapacity, n), 0);
    if size > 0 && NoRoom(chunks, n) && base != 0 {
      BufferStaysBehind(chunks, buffer, c);
      BufferStaysLast([c] + chunks, buffer, n);
    } else if size > 0 && !NoRoom(chunks, n) {
      BufferStaysLast(chunks, buffer, n);
    }
  }

  lemma SoundDropped(chunks: seq<Chunk>, live: Blocks, p: nat)
    requires Sound(chunks, live)
    ensures Sound(chunks, live - {p})
  {
    BlockDropped(chunks, live, p);
  }

  /** Realloc without a block is Malloc, and without a size it is nothing. */
  lemma FromNull(chunks: seq<Chunk>, chunkCapacity: nat, originalSize: nat, size: nat, base: nat)
    ensures Reallot(chunks, chunkCapacity, 0, originalSize, size, base) == Allot(chunks, chunkCapacity, size, base)
  {
  }

  lemma NothingLeft(chunks: seq<Chunk>, chunkCapacity: nat, p: nat, originalSize: nat, base: nat)
    requires p != 0
    ensures Reallot(chunks, chunkCapacity, p, originalSize, 0, base) == Allotted(0, chunks)
  {
  }

  /** The block does not stay where it is. */
  predicate Moves(chunks: seq<Chunk>, p: nat, o: nat, n: nat) {
    o < n && !GrowsInPlace(chunks, p, o, n)
  }

  lemma ReallotKeepsBuffer(chunks: seq<Chunk>, live: Blocks, chunkCapacity: nat, p: nat, newSize: nat, base: nat,
                           buffer: nat)
    requires Sound(chunks, live) && p in live && BufferLast(chunks, buffer) && 0 < newSize < UINT64
    requires Offer(chunks, chunkCapacity, Align(newSize), base)
    requires ReallotFits(chunks, chunkCapacity, p, live[p], newSize)
    ensures BufferLast(Reallot(chunks, chunkCapacity, p, live[p], newSize, base).chunks, buffer)
  {
    LiveSmall(chunks, live, p);
    AlignExact(newSize);
    hide Padded, Align, BufferLast, Sound, SumsFit;
    var o, n := Align(live[p]), Align(newSize);
    if o < n {
      AlignTwice(newSize);
      if GrowsInPlace(chunks, p, o, n) {
        BufferStaysLast(chunks, buffer, n - o);
      } else {
        AllotKeepsBuffer(chunks, chunkCapacity, n, base, buffer);
      }
    }
  }

  /** The bytes go along, and those of other blocks stay. */
  lemma ReallotKeepsBytes(chunks: seq<Chunk>, live: Blocks, chunkCapacity: nat, p: nat, newSize: nat, base: nat,
                          before: nat -> byte, after: nat -> byte, copied: nat)
    requires Sound(chunks, live) && p in live && 0 < newSize < UINT64
    requires Offer(chunks, chunkCapacity, Align(newSize), base)
    requires ReallotFits(chunks, chunkCapacity, p, live[p], newSize)
    requires copied == if Moves(chunks, p, Align(live[p]), Align(newSize)) then Align(live[p]) else 0
    requires var q := Reallot(chunks, chunkCapacity, p, live[p], newSize, base).p;
             && q != 0 && (copied == 0 ==> after == before)
             && (p + copied <= q || q + copied <= p ==> copied != 0 ==> Copied(before, p, after, q, copied))
    ensures var q := Reallot(chunks, chunkCapacity, p, live[p], newSize, base).p;
            && (q == p || q !in live)
            && Content(after, q, Min(live[p], newSize)) == Content(before, p, Min(live[p], newSize))
            && OthersKept(live, p, before, after)
  {
    LiveSmall(chunks, live, p);
    AlignExact(newSize);
    hide Padded, Align, Sound, SumsFit, Copied, Content, Allot;
    var o, n := Align(live[p]), Align(newSize);
    if Moves(chunks, p, o, n) {
      AlignTwice(newSize);
      ReallotMoves(chunks, live, chunkCapacity, p, newSize, base);
      var r := Allot(chunks, chunkCapacity, n, base);
      MovedApart(r.chunks, live, p, r.p, n);
      CopyKeepsOthers(r.chunks, live[r.p := n], p, r.p, o, before, after);
      assert live[r.p := n] - {r.p} == live;
      CopiedPart(before, p, after, r.p, o, Min(live[p], newSize));
    }
  }

  lemma MovedApart(chunks: seq<Chunk>, live: Blocks, p: nat, q: nat, n: nat)
    requires p in live && q !in live && Sound(chunks, live[q := n])
    ensures p + Padded(live[p]) <= q || q + Padded(n) <= p
  {
    LiveApart(chunks, live[q := n], p, q);
  }

  class MemoryPoolAllocator {
    /** The list of chunks; only its head serves requests. */
    var chunks: seq<Chunk>
    const chunkCapacity: nat
    /** The address of a chunk that the user supplied, or 0. */
    const userBuffer: nat
    var memory: nat -> byte
    /** The blocks that callers hold. */
    ghost var live: Blocks

    ghost predicate Valid()
      reads this
    {
      Sound(chunks, live) && BufferLast(chunks, userBuffer)
    }

    constructor (chunkCapacity: nat)
      ensures Valid() && chunks == [] && live == map[] && this.chunkCapacity == chunkCapacity
    {
      this.chunkCapacity := chunkCapacity;
      userBuffer := 0;
      chunks := [];
      memory := _ => ' ';
      live := map[];
    }

    constructor OnBuffer(buffer: nat, size: nat, chunkCapacity: nat)
      requires size > HEADER && ChunkOk(Chunk(buffer, size - HEADER, 0))
      ensures Valid() && chunks == [Chunk(buffer, size - HEADER, 0)] && live == map[]
      ensures this.chunkCapacity == chunkCapacity && userBuffer == buffer
    {
      this.chunkCapacity := chunkCapacity;
      userBuffer := buffer;
      chunks := [Chunk(buffer, size - HEADER, 0)];
      memory := _ => ' ';
      live := map[];
    }

    method AddChunk(capacity: nat, base: nat) returns (ok: bool)
      modifies `chunks
      ensures ok == (base != 0)
      ensures chunks == if ok then [Chunk(base, capacity, 0)] + old(chunks) else old(chunks)
    {
      if base == 0 {
        return false;
      }
      chunks := [Chunk(base, capacity, 0)] + chunks;
      ok := true;
    }

    /** The statements of Malloc. */
    method Take(size: nat, base: nat) returns (p: nat)
      modifies `chunks
      ensures Allotted(p, chunks) == Allot(old(chunks), chunkCapacity, size, base)
    {
      hide Align;
      if size == 0 {
        return 0;
      }
      var n := Align(size);
      if chunks == [] || Add64(chunks[0].size, n) > chunks[0].capacity {
        var ok := AddChunk(if chunkCapacity > n then chunkCapacity else n, base);
        if !ok {
          return 0;
        }
      }
      p := chunks[0].Start() + chunks[0].size;
      chunks := chunks[0 := chunks[0].(size := Add64(chunks[0].size, n))];
    }

    /**
     * A block of `size` bytes, or 0; `base` is what the base allocator would return.
     * All stays well exactly if none of the sums wraps.
     */
    method Malloc(size: nat, base: nat) returns (p: nat)
      requires Valid() && size < UINT64 && Offer(chunks, chunkCapacity, Align(size), base)
      modifies `chunks, `live
      ensures Allotted(p, chunks) == Allot(old(chunks), chunkCapacity, size, base)
      ensures p == 0 ==> Valid() && live == old(live) && chunks == old(chunks) && (size == 0 || base == 0)
      ensures p != 0 ==> live == old(live)[p := size] && (Valid() <==> SumsFit(old(chunks), chunkCapacity, size))
      ensures p != 0 && SumsFit(old(chunks), chunkCapacity, size) ==> p !in old(live)
    {
      hide Align, Padded, Sound, BufferLast, Allot, Offer, SumsFit;
      ghost var was := chunks;
      AllotExact(chunks, live, chunkCapacity, size, base);
      p := Take(size, base);
      if p != 0 {
        live := live[p := size];
        if SumsFit(was, chunkCapacity, size) {
          AllotKeepsBuffer(was, chunkCapacity, size, base, userBuffer);
        }
      }
    }

    /** memcpy; of an overlap nothing is known. */
    method MemCpy(to: nat, from: nat, n: nat)
      modifies `memory
      ensures from + n <= to || to + n <= from ==> Copied(old(memory), from, memory, to, n)
    {
      var was := memory;
      memory := (a: nat) => if to <= a < to + n then was(from + (a - to)) else was(a);
    }

    /** The statements of Realloc on a block; `copied` is the number of bytes that go along. */
    method Move(p: nat, originalSize: nat, newSize: nat, base: nat) returns (q: nat, copied: nat)
      requires p != 0 && newSize != 0
      modifies `chunks, `memory
      ensures Allotted(q, chunks) == Reallot(old(chunks), chunkCapacity, p, originalSize, newSize, base)
      ensures copied == 0 ==> memory == old(memory)
      ensures copied != 0 ==>
                && copied == Align(originalSize)
                && (p + copied <= q || q + copied <= p ==> Copied(old(memory), p, memory, q, copied))
      ensures q == 0 ==> copied == 0
      ensures q != 0 && Moves(old(chunks), p, Align(originalSize), Align(newSize)) ==> copied == Align(originalSize)
      ensures !Moves(old(chunks), p, Align(originalSize), Align(newSize)) ==> copied == 0
    {
      hide Align, Copied, Allot;
      copied := 0;
      var o, n := Align(originalSize), Align(newSize);
      if o >= n {
        return p, 0;
      }
      if chunks != [] && p + o == chunks[0].Start() + chunks[0].size {
        var increment := n - o;
        if Add64(chunks[0].size, increment) <= chunks[0].capacity {
          chunks := chunks[0 := chunks[0].(size := Add64(chunks[0].size, increment))];
          return p, 0;
        }
      }
      q := Take(n, base);
      if q != 0 && o != 0 {
        MemCpy(q, p, o);
        copied := o;
      }
    }

    /**
     * The block `p` with another size, moved if need be. A block that callers give
     * up, for a moved one or for none, is not used again before `Clear`. All stays
     * well exactly if none of the sums wraps, and then the bytes of the block go
     * along and no other block changes.
     */
    method Realloc(p: nat, originalSize: nat, newSize: nat, base: nat) returns (q: nat)
      requires Valid() && newSize < UINT64 && Offer(chunks, chunkCapacity, Align(newSize), base)
      requires p != 0 ==> p in live && live[p] == originalSize
      modifies `chunks, `live, `memory
      ensures Allotted(q, chunks) == Reallot(old(chunks), chunkCapacity, p, originalSize, newSize, base)
      ensures p != 0 && newSize == 0 ==> Valid() && q == 0 && live == old(live) - {p} && memory == old(memory)
      ensures q == 0 && (p == 0 || newSize != 0) ==>
                Valid() && live == old(live) && chunks == old(chunks) && memory == old(memory)
      ensures q != 0 && p == 0 ==>
                && live == old(live)[q := newSize] && memory == old(memory)
                && (Valid() <==> SumsFit(old(chunks), chunkCapacity, newSize))
      ensures q != 0 && p != 0 ==>
                && live == (old(live) - {p})[q := newSize]
                && (Valid() <==> ReallotFits(old(chunks), chunkCapacity, p, originalSize, newSize))
      ensures q != 0 && p != 0 && ReallotFits(old(chunks), chunkCapacity, p, originalSize, newSize) ==>
                && (q == p || q !in old(live))
                && Content(memory, q, Min(originalSize, newSize)) == old(Content(memory, p, Min(originalSize, newSize)))
                && OthersKept(old(live), p, old(memory), memory)
    {
      hide Align, Padded, Sound, BufferLast, Allot, Reallot, Offer, SumsFit, ReallotFits, Copied, Content;
      if p == 0 {
        FromNull(chunks, chunkCapacity, originalSize, newSize, base);
        q := Malloc(newSize, base);
        return;
      }
      ghost var was, held, before := chunks, live, memory;
      if newSize == 0 {
        SoundDropped(chunks, live, p);
        NothingLeft(chunks, chunkCapacity, p, originalSize, base);
        live := live - {p};
        return 0;
      }
      ReallotExact(chunks, live, chunkCapacity, p, newSize, base);
      var copied;
      q, copied := Move(p, originalSize, newSize, base);
      if q == 0 {
        return;
      }
      live := (live - {p})[q := newSize];
      if ReallotFits(was, chunkCapacity, p, originalSize, newSize) {
        ReallotKeepsBuffer(was, held, chunkCapacity, p, newSize, base, userBuffer);
        ReallotKeepsBytes(was, held, chunkCapacity, p, newSize, base, before, memory, copied);
      }
    }

    /** All chunks are given back, but for that of the user. */
    method Clear() returns (freed: seq<nat>)
      requires Valid()
      modifies `chunks, `live
      ensures Valid() && live == map[]
      ensures userBuffer == 0 ==> chunks == [] && |freed| == |old(chunks)|
      ensures userBuffer != 0 ==> |freed| == |old(chunks)| - 1 && chunks == [old(chunks)[|freed|].(size := 0)]
      ensures forall i :: 0 <= i < |freed| ==> freed[i] == old(chunks)[i].base != userBuffer
    {
      freed := [];
      live := map[];
      ghost var was := chunks;
      while chunks != [] && chunks[0].base != userBuffer
        invariant |freed| + |chunks| == |was| && chunks == was[|freed|..]
        invariant forall i :: 0 <= i < |freed| ==> freed[i] == was[i].base != userBuffer
        invariant live == map[]
        decreases |chunks|
      {
        freed := freed + [chunks[0].base];
        chunks := chunks[1..];
      }
      if chunks != [] && chunks[0].base == userBuffer {
        chunks := chunks[0 := chunks[0].(size := 0)];
      }
    }

    method Capacity() returns (capacity: nat)
      requires Valid()
      ensures capacity == TotalCapacity(chunks)
    {
      capacity := 0;
      var c := chunks;
      while c != []
        invariant capacity + TotalCapacity(c) == TotalCapacity(chunks)
        decreases |c|
      {
        capacity := capacity + c[0].capacity;
        c := c[1..];
      }
    }

    method Size() returns (size: nat)
      requires Valid()
      ensures size == TotalSize(chunks) <= TotalCapacity(chunks)
    {
      SizeWithinCapacity(chunks);
      size := 0;
      var c := chunks;
      while c != []
        invariant size + TotalSize(c) == TotalSize(chunks)
        decreases |c|
      {
        size := size + c[0].size;
        c := c[1..];
      }
    }
  }
}
