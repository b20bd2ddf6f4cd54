/** The frame buffer: the hand-off between the UART thread, which writes
    each batch of received bytes into it, and the packet thread, which moves
    everything buffered into its own circular buffer for deframing. It keeps
    a `ready` flag, a lock, and for each direction an error count and the
    last status. The lock is always free when an operation starts: a single
    caller runs at a time. */
module FrameBuffer {
  import opened Common
  import opened StatusCodes
  import Endian
  import Cb = CircularBuffer

  /** The module's static `self`. */
  datatype FrameBuffer = FrameBuffer(
    cbuf: Cb.Cbuf, ready: bool, lock: bool,
    readLast: Status, writeLast: Status, readErrors: u32, writeErrors: u32)

  predicate Valid(f: FrameBuffer)
  {
    Cb.Valid(f.cbuf) && !f.lock
  }

  /** `frame_buffer_init`: everything zeroed, the buffer empty. */
  function Init(): (f: FrameBuffer)
    ensures Valid(f) && Cb.Contents(f.cbuf) == [] && !f.ready
    ensures f.readErrors == 0 && f.writeErrors == 0 && f.readLast == Ok && f.writeLast == Ok
  {
    FrameBuffer(Cb.Init(Cb.Cbuf(seq(Cb.N, _ => 0), 0, 0)), false, false, Ok, Ok, 0, 0)
  }

  /** A status and the frame buffer after a write. */
  datatype Written = Written(status: Status, fb: FrameBuffer)

  /** `frame_buffer_write_inner`: the bytes are appended, and the buffer is
      marked ready, exactly when they fit; a batch that does not fit is
      refused, changes no byte, and clears `ready`. The lock is free again
      afterwards. "Fit" is the corrected circular buffer's capacity, one
      slot short of the array. */
  function WriteInner(f: FrameBuffer, src: seq<byte>): (r: Written)
    requires Valid(f)
    ensures Valid(r.fb)
    ensures (r.status == Ok) == (Cb.Size(f.cbuf) + |src| < Cb.N)
    ensures r.status == Ok ==> r.fb.ready && Cb.Contents(r.fb.cbuf) == Cb.Contents(f.cbuf) + src
    ensures r.status != Ok ==> r.status == CbufBufferOverflow && r.fb == f.(ready := false)
    ensures r.fb.(cbuf := f.cbuf, ready := f.ready) == f
  {
    var locked := f.(lock := true);
    var w := Cb.Write(locked.cbuf, src);
    if w.status != Ok then
      Written(w.status, locked.(ready := false, lock := false))
    else
      Written(w.status, locked.(cbuf := w.cbuf, ready := true, lock := false))
  }

  /** A status, the frame buffer and the reader's buffer after a read. */
  datatype Moved = Moved(status: Status, fb: FrameBuffer, dest: Cb.Cbuf)

  /** `frame_buffer_read_inner`. When not ready it succeeds and touches
      nothing. Otherwise it reads out everything buffered and clears
      `ready`: an empty buffer is reported as such and reset; the bytes are
      appended to the reader's buffer in order when they fit, and when they
      do not the reader's buffer is reset and the bytes are lost. "Fit" is
      the corrected circular buffer's capacity, one slot short of the
      array. */
  function ReadInner(f: FrameBuffer, dest: Cb.Cbuf): (r: Moved)
    requires Valid(f) && Cb.Valid(dest)
    ensures Valid(r.fb) && Cb.Valid(r.dest)
    ensures !f.ready ==> r == Moved(Ok, f, dest)
    ensures f.ready ==> !r.fb.ready && Cb.Contents(r.fb.cbuf) == []
    ensures f.ready && Cb.Size(f.cbuf) == 0 ==> r.status == CbufEmpty && r.dest == dest
    ensures f.ready && 0 < Cb.Size(f.cbuf) ==>
      var fits := Cb.Size(dest) + Cb.Size(f.cbuf) < Cb.N;
      && r.status == (if fits then Ok else CbufBufferOverflow)
      && Cb.Contents(r.dest) == (if fits then Cb.Contents(dest) + Cb.Contents(f.cbuf) else [])
    ensures r.fb.(cbuf := f.cbuf, ready := f.ready) == f
  {
    if !f.ready then
      Moved(Ok, f, dest)
    else
      var locked := f.(lock := true);
      var size := Cb.Size(locked.cbuf);
      var rd := Cb.Read(locked.cbuf, size);
      if rd.status != Ok then
        Moved(rd.status, locked.(ready := false, cbuf := Cb.Init(locked.cbuf), lock := false), dest)
      else
        var released := locked.(cbuf := rd.cbuf, lock := false, ready := false);
        var w := Cb.Write(dest, rd.dest);
        if w.status != Ok then Moved(w.status, released, Cb.Init(dest))
        else Moved(w.status, released, w.cbuf)
  }

  /** The error count after an operation: one more (wrapping) exactly when
      it failed. */
  function Count(errors: u32, status: Status): (r: u32)
    ensures status == Ok ==> r == errors
    ensures status != Ok ==> r == IncU32(errors)
  {
    if status != Ok then IncU32(errors) else errors
  }

  /** `frame_buffer_read`: the inner read, then the read error count and the
      last read status. The write-side fields are untouched. */
  function Read(f: FrameBuffer, dest: Cb.Cbuf): (r: Moved)
    requires Valid(f) && Cb.Valid(dest)
    ensures var m := ReadInner(f, dest);
      && r.status == m.status && r.dest == m.dest && r.fb.cbuf == m.fb.cbuf && r.fb.ready == m.fb.ready
      && r.fb.readLast == r.status && r.fb.readErrors == Count(f.readErrors, r.status)
      && r.fb.writeLast == f.writeLast && r.fb.writeErrors == f.writeErrors
    ensures Valid(r.fb)
  {
    var m := ReadInner(f, dest);
    m.(fb := m.fb.(readErrors := Count(m.fb.readErrors, m.status), readLast := m.status))
  }

  /** `frame_buffer_write`: the inner write, then the write error count and
      the last write status. The read-side fields are untouched. */
  function Write(f: FrameBuffer, src: seq<byte>): (r: Written)
    requires Valid(f)
    ensures var w := WriteInner(f, src);
      && r.status == w.status && r.fb.cbuf == w.fb.cbuf && r.fb.ready == w.fb.ready
      && r.fb.writeLast == r.status && r.fb.writeErrors == Count(f.writeErrors, r.status)
      && r.fb.readLast == f.readLast && r.fb.readErrors == f.readErrors
    ensures Valid(r.fb)
  {
    var w := WriteInner(f, src);
    w.(fb := w.fb.(writeErrors := Count(w.fb.writeErrors, w.status), writeLast := w.status))
  }

  /** The hand-off: a batch written into the frame buffer reaches the
      reader, after whatever was buffered before it and in order, when the
      reader has room for all of it. */
  lemma HandOff(f: FrameBuffer, src: seq<byte>, dest: Cb.Cbuf)
    requires Valid(f) && Cb.Valid(dest) && |src| > 0
    requires Cb.Size(f.cbuf) + |src| < Cb.N
    requires Cb.Size(dest) + Cb.Size(f.cbuf) + |src| < Cb.N
    ensures var w := Write(f, src);
      var r := Read(w.fb, dest);
      && w.status == Ok && r.status == Ok
      && Cb.Contents(r.dest) == Cb.Contents(dest) + Cb.Contents(f.cbuf) + src
      && Cb.Contents(r.fb.cbuf) == [] && !r.fb.ready
  {
    var w := Write(f, src);
    assert Cb.Contents(w.fb.cbuf) == Cb.Contents(f.cbuf) + src;
  }

  /** A read finds nothing to move until a write has succeeded since the
      last read: the second read moves no byte and reports OK, and the only
      field it changes is the last read status, which becomes OK. */
  lemma ReadAfterRead(f: FrameBuffer, d1: Cb.Cbuf, d2: Cb.Cbuf)
    requires Valid(f) && Cb.Valid(d1) && Cb.Valid(d2)
    ensures var r1 := Read(f, d1);
      var r2 := Read(r1.fb, d2);
      r2.status == Ok && r2.dest == d2 && r2.fb.cbuf == r1.fb.cbuf
    ensures var r1 := Read(f, d1);
      Read(r1.fb, d2).fb == r1.fb.(readLast := Ok)
  {
  }

  /** `frame_buffer_read_error_count`. */
  function ReadErrorCount(f: FrameBuffer): (r: Reply)
    ensures r.status == Ok && |r.data| == 4 && Endian.FromNetwork(r.data) == f.readErrors
  {
    Word(f.readErrors)
  }

  /** `frame_buffer_write_error_count`. */
  function WriteErrorCount(f: FrameBuffer): (r: Reply)
    ensures r.status == Ok && |r.data| == 4 && Endian.FromNetwork(r.data) == f.writeErrors
  {
    Word(f.writeErrors)
  }

  /** A getter's reply carrying a status as its one byte. */
  function StatusByte(s: Status): (r: Reply)
    ensures r.status == Ok && |r.data| == 1 && FromCode(r.data[0]) == Some(s)
  {
    Reply(Ok, [Code(s)])
  }

  /** `frame_buffer_read_last_status`. */
  function ReadLastStatus(f: FrameBuffer): (r: Reply)
    ensures r.status == Ok && |r.data| == 1 && FromCode(r.data[0]) == Some(f.readLast)
  {
    StatusByte(f.readLast)
  }

  /** `frame_buffer_write_last_status` as written: it reports the last read
      status. */
  function WriteLastStatusAsWritten(f: FrameBuffer): (r: Reply)
    ensures r.status == Ok && |r.data| == 1 && FromCode(r.data[0]) == Some(f.readLast)
  {
    StatusByte(f.readLast)
  }

  /** After boot, a batch of 1025 bytes fails, both in the circular buffer
      as written and in the corrected one, yet the getter as written reports
      success. */
  lemma WriteFailureHidden()
    ensures Cb.WriteAsWritten(Init().cbuf, seq(Cb.N + 1, _ => 0)).status == CbufBufferOverflow
    ensures var w := Write(Init(), seq(Cb.N + 1, _ => 0));
      && w.status == CbufBufferOverflow
      && WriteLastStatusAsWritten(w.fb).data == [Code(Ok)]
  {
  }

  /** `frame_buffer_write_last_status` reporting the last write status, as
      its name says. */
  function WriteLastStatus(f: FrameBuffer): (r: Reply)
    ensures r.status == Ok && |r.data| == 1 && FromCode(r.data[0]) == Some(f.writeLast)
  {
    StatusByte(f.writeLast)
  }
}
