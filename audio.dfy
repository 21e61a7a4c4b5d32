/** The two state machines of the audio side that do not touch FFmpeg or
    SDL: the packet pool and the in-memory byte source FFmpeg reads from. */
module Audio {
  import opened Text

  // ---------------------------------------------------------------------
  // ObjectPool
  // ---------------------------------------------------------------------

  /** An object handed out by the pool: slot i of the `_ready` array, or the
      k-th object allocated with `new T` once the array is used up. The
      pool's element type is abstract; only object identity matters. */
  datatype Handle = Ready(i: nat) | Heap(k: nat)

  /** `ObjectPool<T>`: a free list, a preallocated array of `size` objects
      of which the first `pos` have been handed out, and the overflow
      objects in `used`. */
  class ObjectPool {
    var free: seq<Handle>
    var used: seq<Handle>
    const size: nat
    var pos: nat

    /** The ready cursor never passes the array, and `used` lists the
        overflow objects in allocation order. */
    predicate Valid()
      reads this
    {
      pos <= size && forall k :: 0 <= k < |used| ==> used[k] == Heap(k)
    }

    /** `ObjectPool(size)`: nothing handed out yet. */
    constructor (size: nat)
      ensures Valid()
      ensures this.size == size && pos == 0 && free == [] && used == []
    {
      this.size := size;
      pos := 0;
      free := [];
      used := [];
    }

    /** `acquire`: the most recently released object first; otherwise the
        next ready slot; otherwise a new object, remembered in `used`. */
    method Acquire() returns (packet: Handle)
      requires Valid()
      modifies this
      ensures Valid()
      ensures old(free) != [] ==>
        packet == old(free)[|old(free)| - 1] && free == old(free)[..|old(free)| - 1] &&
        pos == old(pos) && used == old(used)
      ensures old(free) == [] && old(pos) < size ==>
        packet == Ready(old(pos)) && pos == old(pos) + 1 && free == old(free) && used == old(used)
      ensures old(free) == [] && old(pos) == size ==>
        packet == Heap(|old(used)|) && used == old(used) + [packet] &&
        pos == old(pos) && free == old(free)
    {
      if free != [] {
        packet := free[|free| - 1];
        free := free[..|free| - 1];
      } else if pos < size {
        packet := Ready(pos);
        pos := pos + 1;
      } else {
        packet := Heap(|used|);
        used := used + [packet];
      }
    }

    /** `release`: the object goes on top of the free list. */
    method Release(packet: Handle)
      requires Valid()
      modifies this
      ensures Valid()
      ensures free == old(free) + [packet] && pos == old(pos) && used == old(used)
    {
      free := free + [packet];
    }
  }

  /** The free list is last-in first-out: acquiring right after releasing p
      hands p back, and the pool is as it was before the release. */
  method ReleaseThenAcquire(pool: ObjectPool, p: Handle) returns (q: Handle)
    requires pool.Valid()
    modifies pool
    ensures q == p
    ensures pool.free == old(pool.free) && pool.pos == old(pool.pos) && pool.used == old(pool.used)
  {
    pool.Release(p);
    q := pool.Acquire();
    assert (old(pool.free) + [p])[..|old(pool.free)|] == old(pool.free);
  }

  // ---------------------------------------------------------------------
  // CustomAvioContext
  // ---------------------------------------------------------------------

  const INT_MAX: int := 0x7FFF_FFFF
  const INT64_MIN: int := -0x8000_0000_0000_0000
  const INT64_MAX: int := 0x7FFF_FFFF_FFFF_FFFF

  /** FFmpeg's `AVIO_SEEKABLE_NORMAL` and `AVSEEK_SIZE`. */
  const AVIO_SEEKABLE_NORMAL: int := 1
  const AVSEEK_SIZE: int := 0x10000

  /** `CustomAvioContext`: the downloaded audio and a read cursor (a size_t). */
  class CustomAvioContext {
    const data: seq<bv8>
    var pos: nat

    /** `CustomAvioContext(input)`: the cursor starts at the beginning. */
    constructor (input: seq<bv8>)
      ensures data == input && pos == 0
    {
      data := input;
      pos := 0;
    }
  }

  /** `CustomAvioContext::read`: copies up to bufferSize bytes from the
      cursor into buffer and advances the cursor by that count. A null
      context gives -1. The count is computed in int, so the remaining size
      must fit one, and a cursor past the end (possible after a seek) makes
      the copy length negative, which is undefined. */
  method Read(ctx: CustomAvioContext?, buffer: array<bv8>, bufferSize: int) returns (count: int)
    requires ctx != null ==> ctx.pos <= |ctx.data| && |ctx.data| - ctx.pos <= INT_MAX
    requires ctx != null ==> 0 <= bufferSize <= buffer.Length
    modifies ctx, buffer
    ensures ctx == null ==> count == -1 && unchanged(buffer)
    ensures ctx != null ==>
      && count == (if |ctx.data| - old(ctx.pos) < bufferSize then |ctx.data| - old(ctx.pos) else bufferSize)
      && ctx.pos == old(ctx.pos) + count <= |ctx.data|
      && buffer[..count] == ctx.data[old(ctx.pos)..ctx.pos]
      && buffer[count..] == old(buffer[count..])
  {
    if ctx == null {
      return -1;
    }
    var remaining := |ctx.data| - ctx.pos;
    count := if remaining < bufferSize then remaining else bufferSize;
    var k := 0;
    while k < count
      invariant 0 <= k <= count
      invariant buffer[..k] == ctx.data[ctx.pos..ctx.pos + k]
      invariant buffer[count..] == old(buffer[count..])
      modifies buffer
    {
      buffer[k] := ctx.data[ctx.pos + k];
      k := k + 1;
    }
    ctx.pos := ctx.pos + count;
  }

  /** `CustomAvioContext::seek`: a null context gives -1;
      AVIO_SEEKABLE_NORMAL moves the cursor to offset (the size_t of the
      int64) and returns it; AVSEEK_SIZE reports the data size; any other
      whence gives -1. */
  method Seek(ctx: CustomAvioContext?, offset: int, whence: int) returns (r: int)
    requires INT64_MIN <= offset <= INT64_MAX
    modifies ctx
    ensures ctx == null ==> r == -1
    ensures ctx != null && whence == AVIO_SEEKABLE_NORMAL ==>
      r == offset && ctx.pos == offset % SIZE_MOD
    ensures ctx != null && whence == AVSEEK_SIZE ==> r == |ctx.data| && ctx.pos == old(ctx.pos)
    ensures ctx != null && whence != AVIO_SEEKABLE_NORMAL && whence != AVSEEK_SIZE ==>
      r == -1 && ctx.pos == old(ctx.pos)
  {
    if ctx == null {
      return -1;
    }
    if whence == AVIO_SEEKABLE_NORMAL {
      ctx.pos := offset % SIZE_MOD;
      // the size_t cursor read back as int64
      r := if ctx.pos > INT64_MAX then ctx.pos - SIZE_MOD else ctx.pos;
    } else if whence == AVSEEK_SIZE {
      r := |ctx.data|;
    } else {
      r := -1;
    }
  }
}
