/** The fixed-size circular byte buffer. `write` is where the next byte goes,
    `read` where the oldest byte sits; the buffer is empty when they are equal.
    `Contents` is the abstraction: the bytes held, oldest first. */
module CircularBuffer {
  import opened Common
  import opened StatusCodes

  /** `CBUF_SIZE`. */
  const N: nat := 1024

  datatype Cbuf = Cbuf(buf: seq<byte>, write: nat, read: nat)

  /** The backing array has `CBUF_SIZE` bytes and both indices lie in it. */
  predicate Valid(c: Cbuf)
  {
    |c.buf| == N && c.write < N && c.read < N
  }

  /** `a` wrapped once into `[0, N)`. */
  function Wrap(a: nat): (w: nat)
    requires a < 2 * N
    ensures w < N
  {
    if a < N then a else a - N
  }

  /** The array index of the `i`-th oldest byte. */
  function Slot(c: Cbuf, i: nat): nat
    requires Valid(c) && i < N
  {
    Wrap(c.read + i)
  }

  /** `cbuf_size`: the number of bytes held, always below `CBUF_SIZE`; the
      slot after the newest byte is `write`. */
  function Size(c: Cbuf): (n: nat)
    requires Valid(c)
    ensures n < N && Slot(c, n) == c.write
  {
    if c.read <= c.write then c.write - c.read else (N - c.read) + c.write
  }

  /** The size is the distance from `read` forward to `write`, modulo
      `CBUF_SIZE`. */
  lemma SizeIsDistance(c: Cbuf)
    requires Valid(c)
    ensures Size(c) == (c.write - c.read) % N
  {
  }

  /** The bytes held, oldest first. */
  function Contents(c: Cbuf): (s: seq<byte>)
    requires Valid(c)
    ensures |s| == Size(c)
  {
    seq(Size(c), i requires 0 <= i < Size(c) => c.buf[Slot(c, i)])
  }

  /** `memcpy(&dst[at], src, |src|)`. */
  function Copy(dst: seq<byte>, at: nat, src: seq<byte>): (r: seq<byte>)
    requires at + |src| <= |dst|
    ensures |r| == |dst|
    ensures forall k | 0 <= k < |r| ::
      r[k] == if at <= k < at + |src| then src[k - at] else dst[k]
  {
    dst[..at] + src + dst[at + |src|..]
  }

  /** `cbuf_init`: both indices to zero; the array keeps its bytes. */
  function Init(c: Cbuf): (r: Cbuf)
    requires |c.buf| == N
    ensures Valid(r) && Size(r) == 0 && Contents(r) == []
    ensures r.buf == c.buf
  {
    c.(write := 0, read := 0)
  }

  /** A status together with the buffer after the call. */
  datatype Outcome = Outcome(status: Status, cbuf: Cbuf)

  /** `cbuf_put`: append one byte unless only one free slot is left (one slot
      always stays empty so that full and empty differ). */
  function Put(c: Cbuf, v: byte): (r: Outcome)
    requires Valid(c)
    ensures r.status == Ok || r.status == CbufFull
    ensures (r.status == CbufFull) == (Size(c) == N - 1)
    ensures r.status == CbufFull ==> r.cbuf == c
    ensures r.status == Ok ==> Valid(r.cbuf) && Contents(r.cbuf) == Contents(c) + [v]
  {
    if (c.write + 1) % N == c.read then
      Outcome(CbufFull, c)
    else
      var r := c.(buf := c.buf[c.write := v], write := (c.write + 1) % N);
      PutContents(c, v, r);
      Outcome(Ok, r)
  }

  /** The byte stored at `write` becomes the newest; the older ones stay. */
  lemma PutContents(c: Cbuf, v: byte, r: Cbuf)
    requires Valid(c) && Size(c) < N - 1
    requires r == c.(buf := c.buf[c.write := v], write := (c.write + 1) % N)
    ensures Valid(r) && Contents(r) == Contents(c) + [v]
  {
    assert Size(r) == Size(c) + 1;
    forall i | 0 <= i < Size(c)
      ensures Contents(r)[i] == Contents(c)[i]
    {
      assert Slot(r, i) == Slot(c, i) != c.write;
    }
  }

  /** The value, status and buffer after `cbuf_get`. */
  datatype Got = Got(status: Status, value: byte, cbuf: Cbuf)

  /** `cbuf_get`: take the oldest byte. When empty, reports so and leaves
      both the buffer and the caller's `value` as they were. */
  function Get(c: Cbuf, value: byte): (r: Got)
    requires Valid(c)
    ensures r.status == Ok || r.status == CbufEmpty
    ensures (r.status == CbufEmpty) == (Size(c) == 0)
    ensures r.status == CbufEmpty ==> r.cbuf == c && r.value == value
    ensures r.status == Ok ==>
      && Valid(r.cbuf)
      && r.value == Contents(c)[0]
      && Contents(r.cbuf) == Contents(c)[1..]
  {
    if c.write == c.read then
      Got(CbufEmpty, value, c)
    else
      var r := c.(read := (c.read + 1) % N);
      assert Size(r) == Size(c) - 1;
      assert forall i | 0 <= i < Size(r) :: Slot(r, i) == Slot(c, i + 1);
      Got(Ok, c.buf[c.read], r)
  }

  /** The bytes copied out, status and buffer after `cbuf_read`. */
  datatype ReadOut = ReadOut(status: Status, dest: seq<byte>, cbuf: Cbuf)

  /** `cbuf_read` with the wrapped branch corrected: take the `size` oldest
      bytes. Empty and too-short buffers are reported and left alone. */
  function Read(c: Cbuf, size: nat): (r: ReadOut)
    requires Valid(c)
    ensures r.status in {Ok, CbufEmpty, CbufBufferOverflow}
    ensures (r.status == CbufEmpty) == (Size(c) == 0)
    ensures (r.status == CbufBufferOverflow) == (0 < Size(c) < size)
    ensures r.status != Ok ==> r.cbuf == c && r.dest == []
    ensures r.status == Ok ==>
      && Valid(r.cbuf)
      && r.dest == Contents(c)[..size]
      && Contents(r.cbuf) == Contents(c)[size..]
  {
    if c.write == c.read then
      ReadOut(CbufEmpty, [], c)
    else if size > Size(c) then
      ReadOut(CbufBufferOverflow, [], c)
    else if c.read < c.write || size < N - c.read then
      var r := ReadOut(Ok, c.buf[c.read..c.read + size], c.(read := c.read + size));
      ReadContents(c, size, r.dest, r.cbuf);
      r
    else
      var temp := N - c.read;
      var r := ReadOut(Ok, c.buf[c.read..N] + c.buf[..size - temp], c.(read := size - temp));
      ReadContents(c, size, r.dest, r.cbuf);
      r
  }

  /** What a successful read hands out and keeps, given the bytes copied out
      are the slots from `read` onward and the read index moved by `size`. */
  lemma ReadContents(c: Cbuf, size: nat, dest: seq<byte>, r: Cbuf)
    requires Valid(c) && size <= Size(c)
    requires |dest| == size && forall i | 0 <= i < size :: dest[i] == c.buf[Slot(c, i)]
    requires r == c.(read := Wrap(c.read + size))
    ensures Valid(r)
    ensures dest == Contents(c)[..size]
    ensures Contents(r) == Contents(c)[size..]
  {
    assert Size(r) == Size(c) - size;
    assert forall i | 0 <= i < Size(r) :: Slot(r, i) == Slot(c, i + size);
  }

  /** `cbuf_read` exactly as written, at the level of what the two copies
      and the index update compute: the status, the lengths of the `memcpy`
      calls (the second is a `size_t` subtraction, so it wraps), and the new
      read index, also a `size_t`. */
  datatype RawRead = RawRead(status: Status, copies: seq<u32>, read: u32)

  function ReadAsWritten(c: Cbuf, size: u32): (r: RawRead)
    requires Valid(c)
    ensures (r.status == CbufEmpty) == (Size(c) == 0)
    ensures (r.status == CbufBufferOverflow) == (0 < Size(c) < size)
    ensures r.status != Ok ==> r.copies == [] && r.read == c.read
  {
    if c.write == c.read then
      RawRead(CbufEmpty, [], c.read)
    else if size > Size(c) then
      RawRead(CbufBufferOverflow, [], c.read)
    else if c.read < c.write then
      RawRead(Ok, [size], c.read + size)
    else
      var temp := N - c.read;
      RawRead(Ok, [temp, (size - temp) % U32_MODULUS], (size - temp) % U32_MODULUS)
  }

  /** The wrapped branch misbehaves on a short read: with `read = 1000`,
      `write = 10` (34 bytes held) and `size = 5`, the first copy moves 24
      bytes into a 5-byte destination, the second asks for nearly 4 GiB, and
      the read index lands far outside the array. */
  lemma ReadUnderflows()
    ensures var c := Cbuf(seq(N, _ => 0), 10, 1000);
      && Valid(c) && Size(c) == 34
      && var r := ReadAsWritten(c, 5);
      && r.status == Ok
      && r.copies == [24, U32_MODULUS - 19]
      && r.read == U32_MODULUS - 19 && r.read >= N
  {
  }

  /** Outside that case the code as written does what `Read` does: it copies
      `size` bytes in total and moves the read index to the same place. */
  lemma ReadAsWrittenAgrees(c: Cbuf, size: u32)
    requires Valid(c)
    requires c.read < c.write || size >= N - c.read
    ensures var w := ReadAsWritten(c, size);
      && w.status == Read(c, size).status
      && (w.status == Ok ==>
          && w.copies[0] + (if |w.copies| == 2 then w.copies[1] else 0) == size
          && w.read == Read(c, size).cbuf.read)
  {
  }

  /** The copies of `cbuf_write`'s accepting path: `src` goes in at `write`,
      wrapping to the start of the array when it runs past the end. */
  function Store(c: Cbuf, src: seq<byte>): (r: Cbuf)
    requires Valid(c) && |src| <= N
    ensures |r.buf| == N && r.read == c.read && r.write == Wrap(c.write + |src|)
    ensures forall j | 0 <= j < |src| :: r.buf[Wrap(c.write + j)] == src[j]
  {
    if c.write + |src| < N then
      c.(buf := Copy(c.buf, c.write, src), write := c.write + |src|)
    else
      var temp := N - c.write;
      c.(buf := Copy(Copy(c.buf, c.write, src[..temp]), 0, src[temp..]), write := |src| - temp)
  }

  /** Storing into the free slots leaves the byte in held slot `i` as it
      was. */
  lemma StoreKeeps(c: Cbuf, src: seq<byte>, i: nat)
    requires Valid(c) && Size(c) + |src| < N && i < Size(c)
    ensures Valid(Store(c, src)) && Size(Store(c, src)) == Size(c) + |src|
    ensures Store(c, src).buf[Slot(c, i)] == c.buf[Slot(c, i)]
    ensures Slot(Store(c, src), i) == Slot(c, i)
  {
  }

  /** The `j`-th stored byte sits in slot `Size(c) + j` afterwards. */
  lemma StoreAppends(c: Cbuf, src: seq<byte>, j: nat)
    requires Valid(c) && Size(c) + |src| < N && j < |src|
    ensures Valid(Store(c, src)) && Size(Store(c, src)) == Size(c) + |src|
    ensures Store(c, src).buf[Slot(Store(c, src), Size(c) + j)] == src[j]
  {
    assert Slot(Store(c, src), Size(c) + j) == Wrap(c.write + j);
  }

  /** Storing `src` into a buffer with room for it appends it. */
  lemma StoreContents(c: Cbuf, src: seq<byte>)
    requires Valid(c) && Size(c) + |src| < N
    ensures Valid(Store(c, src))
    ensures Contents(Store(c, src)) == Contents(c) + src
  {
    var r := Store(c, src);
    assert Valid(r) && Size(r) == Size(c) + |src| by {
      if |src| == 0 {
        assert r == c;
      } else {
        StoreAppends(c, src, 0);
      }
    }
    forall i | 0 <= i < Size(c)
      ensures Contents(r)[i] == Contents(c)[i]
    {
      StoreKeeps(c, src, i);
    }
    forall j | 0 <= j < |src|
      ensures Contents(r)[Size(c) + j] == src[j]
    {
      StoreAppends(c, src, j);
    }
  }

  /** `cbuf_write` with the capacity check corrected to that of `cbuf_put`:
      a block that would leave no free slot is refused, and an accepted one
      is appended in order. */
  function Write(c: Cbuf, src: seq<byte>): (r: Outcome)
    requires Valid(c)
    ensures r.status == Ok || r.status == CbufBufferOverflow
    ensures (r.status == Ok) == (Size(c) + |src| < N)
    ensures r.status != Ok ==> r.cbuf == c
    ensures r.status == Ok ==> Valid(r.cbuf) && Contents(r.cbuf) == Contents(c) + src
  {
    if |src| > N - 1 - Size(c) then
      Outcome(CbufBufferOverflow, c)
    else
      StoreContents(c, src);
      Outcome(Ok, Store(c, src))
  }

  /** `cbuf_write` as written: it accepts a block that exactly fills every
      free slot. */
  function WriteAsWritten(c: Cbuf, src: seq<byte>): (r: Outcome)
    requires Valid(c)
    ensures (r.status == Ok) == (Size(c) + |src| <= N)
    ensures r.status != Ok ==> r.cbuf == c
  {
    if |src| > N - Size(c) then
      Outcome(CbufBufferOverflow, c)
    else
      Outcome(Ok, Store(c, src))
  }

  /** Filling an empty buffer with `CBUF_SIZE` bytes is accepted, and leaves
      `write == read`: the buffer then reports itself empty and the block is
      lost. */
  lemma WriteFillsToEmpty(c: Cbuf, src: seq<byte>)
    requires Valid(c) && Size(c) == 0 && |src| == N
    ensures WriteAsWritten(c, src).status == Ok
    ensures Valid(WriteAsWritten(c, src).cbuf) && Size(WriteAsWritten(c, src).cbuf) == 0
  {
  }

  /** Below full capacity the code as written does what `Write` does. */
  lemma WriteAsWrittenAgrees(c: Cbuf, src: seq<byte>)
    requires Valid(c) && Size(c) + |src| != N
    ensures WriteAsWritten(c, src) == Write(c, src)
  {
  }
}
