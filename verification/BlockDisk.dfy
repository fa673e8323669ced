/**
 The chunking that turns the engine's byte-addressed disk calls into whole-block transfers. A call of
 any length splices exactly its bytes into the image, or, when the transport fails at some chunk,
 exactly the chunks before it.
 */
module BlockDisk {
  import opened Basics

  const BLOCK: nat := 4096

  type Block = b: Bytes | |b| == BLOCK witness seq(BLOCK, _ => 0)

  /** `image` with `data` laid over it at `off`: what a byte-addressed disk does. */
  function Spliced(image: Bytes, off: nat, data: Bytes): (r: Bytes)
    requires off + |data| <= |image|
    ensures |r| == |image|
    ensures forall i :: 0 <= i < |r| ==> r[i] == if off <= i < off + |data| then data[i - off] else image[i]
  {
    seq(|image|, i requires 0 <= i < |image| => if off <= i < off + |data| then data[i - off] else image[i])
  }

  function BlockAt(image: Bytes, b: nat): (r: Block)
    requires (b + 1) * BLOCK <= |image|
    ensures forall i :: 0 <= i < BLOCK ==> r[i] == image[b * BLOCK + i]
  {
    seq(BLOCK, i requires 0 <= i < BLOCK => image[b * BLOCK + i])
  }

  /** Two splices side by side are one. */
  lemma {:induction false} SpliceTwice(image: Bytes, off: nat, a: Bytes, b: Bytes)
    requires off + |a| + |b| <= |image|
    ensures Spliced(Spliced(image, off, a), off + |a|, b) == Spliced(image, off, a + b)
  {
  }

  /**
   A block transport over an image of fixed size. Any call may be refused: which ones are is the
   arbitrary function `refuses` of the call's number. A block past the end is always refused.
   */
  class Transport {
    var image: Bytes
    var calls: nat
    const refuses: nat -> bool

    constructor (bytes: Bytes, refuses: nat -> bool)
      ensures image == bytes && calls == 0 && this.refuses == refuses
    {
      this.image, this.calls, this.refuses := bytes, 0, refuses;
    }

    method ReadBlock(b: nat, buf: array<byte>) returns (r: Result<()>)
      requires buf.Length == BLOCK
      modifies this`calls, buf
      ensures calls == old(calls) + 1
      ensures r == if Served(|image|, refuses, old(calls), b) then Ok(()) else Err(EIO)
      ensures buf[..] == if r.Ok? then BlockAt(image, b) else old(buf[..])
    {
      calls := calls + 1;
      if refuses(calls - 1) || (b + 1) * BLOCK > |image| {
        return Err(EIO);
      }
      forall j | 0 <= j < BLOCK {
        buf[j] := image[b * BLOCK + j];
      }
      return Ok(());
    }

    method WriteBlock(b: nat, buf: array<byte>) returns (r: Result<()>)
      requires buf.Length == BLOCK
      modifies this`calls, this`image
      ensures calls == old(calls) + 1
      ensures r == if Served(|old(image)|, refuses, old(calls), b) then Ok(()) else Err(EIO)
      ensures image == if r.Ok? then Spliced(old(image), b * BLOCK, buf[..]) else old(image)
    {
      calls := calls + 1;
      if refuses(calls - 1) || (b + 1) * BLOCK > |image| {
        return Err(EIO);
      }
      image := Spliced(image, b * BLOCK, buf[..]);
      return Ok(());
    }
  }

  /** Whether the transport serves call number `call`, for block `b`. */
  predicate Served(size: nat, refuses: nat -> bool, call: nat, b: nat) {
    !refuses(call) && (b + 1) * BLOCK <= size
  }

  /** One disk call as the transport sees it: its first call's number, its first block, its length. */
  datatype Call = Call(size: nat, refuses: nat -> bool, first: nat, block: nat, len: nat, writes: bool) {

    /** Chunk `i` goes through. A short chunk of a write costs two calls: it is read first, then written back. */
    predicate ChunkServed(i: nat) {
      && Served(size, refuses, first + i, block + i)
      && (writes && len < (i + 1) * BLOCK ==> Served(size, refuses, first + i + 1, block + i))
    }

    /** The first chunk from `i` on that does not go through, or the number of chunks. */
    function Stops(i: nat): (k: nat)
      requires i * BLOCK < len + BLOCK
      ensures i <= k && k * BLOCK < len + BLOCK
      ensures forall j :: i <= j < k ==> ChunkServed(j)
      ensures k * BLOCK < len ==> !ChunkServed(k)
      decreases len - i * BLOCK
    {
      if i * BLOCK >= len || !ChunkServed(i) then i else Stops(i + 1)
    }

    /** How many bytes of the call are transferred: all of them, or the chunks before the one that failed. */
    function Transferred(): (n: nat)
      ensures n <= len && (n < len ==> n % BLOCK == 0)
    {
      if Stops(0) * BLOCK < len then Stops(0) * BLOCK else len
    }
  }

  /** Chunk `i` is in the image and none of the transport calls it takes is refused. */
  predicate Goes(c: Call, i: nat) {
    && (c.block + i + 1) * 4096 <= c.size && !c.refuses(c.first + i)
    && (c.writes && c.len < (i + 1) * 4096 ==> !c.refuses(c.first + i + 1))
  }

  /** All of it if every chunk goes through; else the chunks before the first that does not. */
  ghost predicate StopsAt(c: Call, n: nat) {
    if n == c.len then forall i: nat :: i * 4096 < c.len ==> Goes(c, i) else exists k: nat :: FailsFirst(c, k, n)
  }

  ghost predicate FailsFirst(c: Call, k: nat, n: nat) {
    n == k * 4096 < c.len && !Goes(c, k) && forall j: nat :: j < k ==> Goes(c, j)
  }

  lemma {:induction false} TransferredIs(c: Call)
    ensures StopsAt(c, c.Transferred())
  {
    var k := c.Stops(0);
    forall i: nat ensures Goes(c, i) <==> c.ChunkServed(i) {
    }
    if k * BLOCK < c.len {
      assert FailsFirst(c, k, c.Transferred());
    }
  }

  method ReadAt(io: Transport, block: nat, buffer: array<byte>) returns (r: Result<nat>)
    modifies io`calls, buffer
    ensures var n := Call(|io.image|, io.refuses, old(io.calls), block, buffer.Length, false).Transferred();
            && r == (if n == buffer.Length then Ok(n) else Err(EIO))
            && (n > 0 ==> block * BLOCK + n <= |io.image|)
            && (forall i :: 0 <= i < n ==> buffer[i] == io.image[block * BLOCK + i])
            && (forall i :: n <= i < buffer.Length ==> buffer[i] == old(buffer[i]))
  {
    ghost var call := Call(|io.image|, io.refuses, io.calls, block, buffer.Length, false);
    ghost var stop := call.Stops(0);
    var scratch := new byte[BLOCK](_ => 0);
    var i, at := 0, 0;
    while at < buffer.Length
      invariant at == if i * BLOCK < buffer.Length then i * BLOCK else buffer.Length
      invariant i * BLOCK < buffer.Length + BLOCK && io.calls == call.first + i
      invariant i <= stop
      invariant at > 0 ==> block * BLOCK + at <= |io.image|
      invariant forall j :: 0 <= j < at ==> buffer[j] == io.image[block * BLOCK + j]
      invariant forall j :: at <= j < buffer.Length ==> buffer[j] == old(buffer[j])
    {
      var len := if buffer.Length - at < BLOCK then buffer.Length - at else BLOCK;
      var got := io.ReadBlock(block + i, scratch);
      if got.Err? {
        assert !call.ChunkServed(i);
        return Err(got.errno);
      }
      assert call.ChunkServed(i);
      assert forall j :: 0 <= j < BLOCK ==> scratch[j] == io.image[block * BLOCK + at + j] by {
        assert scratch[..] == BlockAt(io.image, block + i);
      }
      forall j | 0 <= j < len {
        buffer[at + j] := scratch[j];
      }
      i, at := i + 1, at + len;
    }
    return Ok(buffer.Length);
  }

  /** The image once the first `at` bytes of `buffer` have landed at `off`. */
  function Landed(image: Bytes, off: nat, buffer: Bytes, at: nat): Bytes
    requires at <= |buffer| && (at > 0 ==> off + at <= |image|)
  {
    if at == 0 then image else Spliced(image, off, buffer[..at])
  }

  /** What has landed, with the next chunk laid behind it, is one longer splice. */
  lemma {:induction false} ChunkLanded(image: Bytes, off: nat, buffer: Bytes, at: nat, len: nat)
    requires at + len <= |buffer| && off + at + len <= |image| && len > 0
    ensures Spliced(Landed(image, off, buffer, at), off + at, buffer[at..at + len]) == Landed(image, off, buffer, at + len)
  {
    if at > 0 {
      SpliceTwice(image, off, buffer[..at], buffer[at..at + len]);
      assert buffer[..at] + buffer[at..at + len] == buffer[..at + len];
    }
  }

  /** A short chunk read, modified and written back whole changes only the chunk's bytes. */
  lemma {:induction false} ReadModifyWrite(image: Bytes, b: nat, chunk: Bytes)
    requires (b + 1) * BLOCK <= |image| && |chunk| <= BLOCK
    ensures Spliced(image, b * BLOCK, chunk + BlockAt(image, b)[|chunk|..]) == Spliced(image, b * BLOCK, chunk)
  {
  }

  /** One chunk: whole blocks go straight out, a short one is read first so that its block keeps its tail. */
  method PutChunk(io: Transport, b: nat, chunk: Bytes, scratch: array<byte>) returns (r: Result<()>)
    requires scratch.Length == BLOCK && 0 < |chunk| <= BLOCK
    modifies io`calls, io`image, scratch
    ensures r.Ok? <==>
            && Served(|old(io.image)|, io.refuses, old(io.calls), b)
            && (|chunk| < BLOCK ==> Served(|old(io.image)|, io.refuses, old(io.calls) + 1, b))
    ensures r.Ok? ==> io.calls == old(io.calls) + (if |chunk| < BLOCK then 2 else 1)
    ensures r.Ok? ==> io.image == Spliced(old(io.image), b * BLOCK, chunk)
    ensures r.Err? ==> r.errno == EIO && io.image == old(io.image)
  {
    if |chunk| < BLOCK {
      var got := io.ReadBlock(b, scratch);
      if got.Err? {
        return got;
      }
    }
    ghost var tail := scratch[|chunk|..];
    forall j | 0 <= j < |chunk| {
      scratch[j] := chunk[j];
    }
    assert scratch[..] == chunk + tail;
    r := io.WriteBlock(b, scratch);
    if r.Ok? {
      if |chunk| < BLOCK {
        ReadModifyWrite(old(io.image), b, chunk);
      } else {
        assert scratch[..] == chunk;
      }
    }
  }

  method WriteAt(io: Transport, block: nat, buffer: Bytes) returns (r: Result<nat>)
    modifies io`calls, io`image
    ensures var n := Call(|old(io.image)|, io.refuses, old(io.calls), block, |buffer|, true).Transferred();
            && r == (if n == |buffer| then Ok(n) else Err(EIO))
            && (n > 0 ==> block * BLOCK + n <= |old(io.image)|)
            && io.image == if n == 0 then old(io.image) else Spliced(old(io.image), block * BLOCK, buffer[..n])
  {
    ghost var was := io.image;
    ghost var call := Call(|io.image|, io.refuses, io.calls, block, |buffer|, true);
    ghost var stop := call.Stops(0);
    var scratch := new byte[BLOCK](_ => 0);
    var i, at := 0, 0;
    while at < |buffer|
      invariant at == if i * BLOCK < |buffer| then i * BLOCK else |buffer|
      invariant i * BLOCK < |buffer| + BLOCK && (i * BLOCK <= |buffer| ==> io.calls == call.first + i)
      invariant i <= stop
      invariant at > 0 ==> block * BLOCK + at <= |was|
      invariant io.image == Landed(was, block * BLOCK, buffer, at)
    {
      var len := if |buffer| - at < BLOCK then |buffer| - at else BLOCK;
      var put := PutChunk(io, block + i, buffer[at..at + len], scratch);
      if put.Err? {
        assert !call.ChunkServed(i);
        return Err(EIO);
      }
      assert call.ChunkServed(i);
      ChunkLanded(was, block * BLOCK, buffer, at, len);
      i, at := i + 1, at + len;
    }
    assert buffer[..at] == buffer;
    return Ok(|buffer|);
  }
}
