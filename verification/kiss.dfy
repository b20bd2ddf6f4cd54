/** KISS framing, as the KISS TNC host protocol defines it: a frame ends with
    FEND, and a FEND or FESC inside the data is sent as FESC followed by
    TFEND or TFESC. `Escape` is the encoder's byte-stuffing; `Decode` is the
    decoder's byte-by-byte loop over the receive buffer. */
module KissFrame {
  import opened Common
  import opened CircularBuffer

  const FEND: byte := 0xC0
  const FESC: byte := 0xDB
  const TFEND: byte := 0xDC
  const TFESC: byte := 0xDD

  /** What the encoder sends for one data byte. */
  function Encode(b: byte): seq<byte>
  {
    if b == FEND then [FESC, TFEND]
    else if b == FESC then [FESC, TFESC]
    else [b]
  }

  /** The byte-stuffed form of `x`, without the closing FEND. */
  function Escape(x: seq<byte>): seq<byte>
    decreases |x|
  {
    if |x| == 0 then [] else Encode(x[0]) + Escape(x[1..])
  }

  /** Stuffing one more byte appends its encoding. */
  lemma {:induction false} EscapeAppend(x: seq<byte>, b: byte)
    ensures Escape(x + [b]) == Escape(x) + Encode(b)
    decreases |x|
  {
    if |x| == 0 {
      assert x + [b] == [b];
      assert Escape([b]) == Encode(b) + Escape([]);
    } else {
      assert (x + [b])[1..] == x[1..] + [b];
      EscapeAppend(x[1..], b);
    }
  }

  /** Each FEND and FESC costs one extra byte; every other byte is sent as
      itself. */
  lemma {:induction false} EscapeLength(x: seq<byte>)
    ensures |Escape(x)| == |x| + multiset(x)[FEND] + multiset(x)[FESC]
    decreases |x|
  {
    if |x| > 0 {
      EscapeLength(x[1..]);
      CountCons(x, FEND);
      CountCons(x, FESC);
      assert |Escape(x)| == |Encode(x[0])| + |Escape(x[1..])|;
    }
  }

  /** Occurrences of `v` in `x`: those in its head, then in its tail. */
  lemma CountCons(x: seq<byte>, v: byte)
    requires |x| > 0
    ensures multiset(x)[v] == (if x[0] == v then 1 else 0) + multiset(x[1..])[v]
  {
    assert x == [x[0]] + x[1..];
  }

  /** Stuffed data never contains FEND. */
  lemma {:induction false} EscapeNoFend(x: seq<byte>)
    ensures FEND !in Escape(x)
    decreases |x|
  {
    if |x| > 0 {
      EscapeNoFend(x[1..]);
    }
  }

  /** Stuffing at most doubles the data. */
  lemma {:induction false} EscapeAtMostDouble(x: seq<byte>)
    ensures |Escape(x)| <= 2 * |x|
    decreases |x|
  {
    if |x| > 0 {
      EscapeAtMostDouble(x[1..]);
    }
  }

  /** `kiss_frame_pack`: each FEND becomes FESC TFEND, each FESC becomes
      FESC TFESC, other bytes are copied, and one FEND closes the frame, the
      only FEND in the output. */
  method Pack(input: seq<byte>) returns (output: seq<byte>)
    ensures output == Escape(input) + [FEND]
    ensures |output| == |input| + 1 + multiset(input)[FEND] + multiset(input)[FESC]
    ensures |output| <= 2 * |input| + 1
    ensures output[|output| - 1] == FEND && FEND !in output[..|output| - 1]
  {
    output := [];
    var i := 0;
    while i < |input|
      invariant 0 <= i <= |input|
      invariant output == Escape(input[..i])
    {
      EscapeAppend(input[..i], input[i]);
      assert input[..i + 1] == input[..i] + [input[i]];
      if input[i] == FEND {
        output := output + [FESC, TFEND];
      } else if input[i] == FESC {
        output := output + [FESC, TFESC];
      } else {
        output := output + [input[i]];
      }
      i := i + 1;
    }
    assert input[..|input|] == input;
    EscapeLength(input);
    EscapeNoFend(input);
    EscapeAtMostDouble(input);
    output := output + [FEND];
    assert output[..|output| - 1] == Escape(input);
  }

  /** Where the decoder stopped: still running (input exhausted), a frame
      ended, or the output would overflow. */
  datatype Verdict = Running | Done | Overflowed

  /** The decoder's state after consuming `consumed` bytes: the frame bytes
      so far and the pending-escape flag. */
  datatype Decoded = Decoded(consumed: nat, out: seq<byte>, esc: bool, verdict: Verdict)

  /** One pass of the decoder loop on byte `b`. A FEND before any data is
      skipped (the escape flag survives the skip); a FEND after data ends the
      frame; FESC only raises the escape flag; TFEND and TFESC decode to FEND
      and FESC after FESC and stand for themselves otherwise. A data byte
      that would go past `CBUF_SIZE` output bytes instead zeroes `output[0]`
      and stops. */
  function Step(out: seq<byte>, esc: bool, b: byte): Decoded
  {
    if b == FEND then
      if |out| == 0 then Decoded(1, out, esc, Running)
      else Decoded(1, out, false, Done)
    else if b == FESC then
      Decoded(1, out, true, Running)
    else
      var v := if esc && b == TFEND then FEND else if esc && b == TFESC then FESC else b;
      if |out| >= N then Decoded(1, out[0 := 0], false, Overflowed)
      else Decoded(1, out + [v], false, Running)
  }

  /** The decoder loop over `input`, from frame bytes `out` and escape flag
      `esc`: it runs until the input is exhausted, a frame ends or the output
      overflows. */
  function Decode(input: seq<byte>, out: seq<byte>, esc: bool): (r: Decoded)
    decreases |input|
    ensures r.consumed <= |input|
  {
    if |input| == 0 then
      Decoded(0, out, esc, Running)
    else
      var s := Step(out, esc, input[0]);
      if s.verdict != Running then s
      else
        var r := Decode(input[1..], s.out, s.esc);
        r.(consumed := r.consumed + 1)
  }

  /** The decoder ends a frame only on a FEND read after at least one frame
      byte; it stops before the input is exhausted only at a frame end or an
      overflow; the output only grows, except that an overflow zeroes its
      first byte; and from at most `CBUF_SIZE` bytes it never grows past
      `CBUF_SIZE`. */
  lemma {:induction false} DecodeFacts(input: seq<byte>, out: seq<byte>, esc: bool)
    ensures var r := Decode(input, out, esc);
      && |out| <= |r.out|
      && (|out| <= N ==> |r.out| <= N)
      && (r.verdict == Running ==> r.consumed == |input|)
      && (r.verdict == Done ==>
           0 < r.consumed && input[r.consumed - 1] == FEND && |r.out| > 0 && !r.esc)
      && (r.verdict == Overflowed ==> 0 < r.consumed && N <= |r.out| && r.out[0] == 0)
    decreases |input|
  {
    if |input| > 0 {
      var s := Step(out, esc, input[0]);
      if s.verdict == Running {
        DecodeFacts(input[1..], s.out, s.esc);
      }
    }
  }

  /** The rest of the loop after one pass that left the decoder running. */
  function Then(s: Decoded, t: seq<byte>): Decoded
  {
    if s.verdict != Running then s
    else var r := Decode(t, s.out, s.esc); r.(consumed := r.consumed + 1)
  }

  /** Decoding a byte followed by more input is one pass, then the rest. */
  lemma DecodeCons(b: byte, t: seq<byte>, out: seq<byte>, esc: bool)
    ensures Decode([b] + t, out, esc) == Then(Step(out, esc, b), t)
  {
    assert ([b] + t)[0] == b && ([b] + t)[1..] == t;
  }

  /** A FEND after at least one frame byte ends the frame. */
  lemma DecodeEnd(out: seq<byte>, rest: seq<byte>)
    requires 0 < |out|
    ensures Decode([FEND] + rest, out, false) == Decoded(1, out, false, Done)
  {
    DecodeCons(FEND, rest, out, false);
  }

  /** The encoding of one data byte decodes to that byte, when the output
      has room for it. */
  lemma DecodeEncode(b: byte, out: seq<byte>, tail: seq<byte>)
    requires |out| < N
    ensures var d := Decode(tail, out + [b], false);
      Decode(Encode(b) + tail, out, false) == d.(consumed := d.consumed + |Encode(b)|)
  {
    if b == FEND || b == FESC {
      var t := if b == FEND then TFEND else TFESC;
      assert Encode(b) + tail == [FESC] + ([t] + tail);
      DecodeCons(FESC, [t] + tail, out, false);
      DecodeCons(t, tail, out, true);
    } else {
      assert Encode(b) + tail == [b] + tail;
      DecodeCons(b, tail, out, false);
    }
  }

  /** Frame `x`, closed by FEND and followed by anything, decodes to `x`
      appended to `out` and stops right after the FEND, provided the output
      has room and the frame is not empty. */
  lemma {:induction false} DecodeEscape(x: seq<byte>, out: seq<byte>, rest: seq<byte>)
    requires 0 < |out| + |x| <= N
    ensures Decode(Escape(x) + [FEND] + rest, out, false)
         == Decoded(|Escape(x)| + 1, out + x, false, Done)
    decreases |x|
  {
    if |x| == 0 {
      assert Escape(x) + [FEND] + rest == [FEND] + rest;
      DecodeEnd(out, rest);
      assert out + x == out;
    } else {
      var b := x[0];
      var tail := Escape(x[1..]) + [FEND] + rest;
      assert Escape(x) + [FEND] + rest == Encode(b) + tail;
      assert |Escape(x)| == |Encode(b)| + |Escape(x[1..])|;
      assert out + x == (out + [b]) + x[1..];
      DecodeEscape(x[1..], out + [b], rest);
      DecodeEncode(b, out, tail);
    }
  }

  /** The KISS round trip: a packed non-empty frame of at most `CBUF_SIZE`
      bytes decodes, from an empty output, to itself, consuming exactly the
      packed bytes. */
  lemma PackRoundTrip(x: seq<byte>, rest: seq<byte>)
    requires 0 < |x| <= N
    ensures Decode(Escape(x) + [FEND] + rest, [], false) == Decoded(|Escape(x)| + 1, x, false, Done)
  {
    DecodeEscape(x, [], rest);
    assert [] + x == x;
  }

  /** `n` FEND bytes. */
  function Fends(n: nat): (s: seq<byte>)
    ensures |s| == n && forall i | 0 <= i < n :: s[i] == FEND
  {
    seq(n, _ => FEND)
  }

  /** Delimiters before any frame byte are skipped: they change nothing but
      the count of bytes consumed. */
  lemma {:induction false} LeadingFendsSkipped(n: nat, input: seq<byte>, esc: bool)
    ensures Decode(Fends(n) + input, [], esc)
         == var d := Decode(input, [], esc); d.(consumed := d.consumed + n)
    decreases n
  {
    if n > 0 {
      var t := Fends(n - 1) + input;
      assert Fends(n) + input == [FEND] + t;
      DecodeCons(FEND, t, [], esc);
      assert Step([], esc, FEND) == Decoded(1, [], esc, Running);
      LeadingFendsSkipped(n - 1, input, esc);
    } else {
      assert Fends(n) + input == input;
    }
  }

  /** Decoding resumes exactly where it stopped: when the first part `a` of
      the input runs out mid-frame, decoding the rest from the state reached,
      escape flag included, is decoding the whole. */
  lemma {:induction false} DecodeResumes(a: seq<byte>, b: seq<byte>, out: seq<byte>, esc: bool)
    requires Decode(a, out, esc).verdict == Running
    ensures var d := Decode(a, out, esc);
      var e := Decode(b, d.out, d.esc);
      Decode(a + b, out, esc) == e.(consumed := e.consumed + |a|)
    decreases |a|
  {
    if |a| == 0 {
      assert a + b == b;
    } else {
      assert a == [a[0]] + a[1..];
      assert a + b == [a[0]] + (a[1..] + b);
      DecodeCons(a[0], a[1..], out, esc);
      DecodeCons(a[0], a[1..] + b, out, esc);
      var s := Step(out, esc, a[0]);
      DecodeResumes(a[1..], b, s.out, s.esc);
    }
  }

  /** `d` with `k` more bytes consumed. */
  function Shift(d: Decoded, k: nat): Decoded
  {
    d.(consumed := d.consumed + k)
  }

  /** One pass of the loop: `cbuf_get` the oldest byte and decode it. */
  method Pass(c: Cbuf, out: seq<byte>, esc: bool) returns (rc: Cbuf, s: Decoded)
    requires Valid(c) && Size(c) > 0
    ensures Valid(rc) && Contents(rc) == Contents(c)[1..]
    ensures s == Step(out, esc, Contents(c)[0])
    ensures Decode(Contents(c), out, esc) == Then(s, Contents(rc))
  {
    var g := Get(c, 0);
    assert Contents(c) == [g.value] + Contents(g.cbuf);
    DecodeCons(g.value, Contents(g.cbuf), out, esc);
    rc := g.cbuf;
    s := Step(out, esc, g.value);
  }

  /** The receive loop shared by both unpack variants: take bytes from the
      buffer with `cbuf_get` while any are left and no frame has ended, and
      give each to one pass of the decoder. */
  method Scan(c: Cbuf, out: seq<byte>, esc: bool)
    returns (rc: Cbuf, rout: seq<byte>, resc: bool, found: bool)
    requires Valid(c)
    ensures Valid(rc)
    ensures var d := Decode(Contents(c), out, esc);
      && rout == d.out && resc == d.esc && found == (d.verdict == Done)
      && Contents(rc) == Contents(c)[d.consumed..]
  {
    rc, rout, resc := c, out, esc;
    var endFrame := false;
    ghost var k := 0;
    ghost var final := Decode(Contents(c), out, esc);
    while Size(rc) > 0 && !endFrame
      invariant Valid(rc) && k <= |Contents(c)| && Contents(rc) == Contents(c)[k..]
      invariant endFrame ==> final == Decoded(k, rout, resc, Done)
      invariant !endFrame ==> final == Shift(Decode(Contents(rc), rout, resc), k)
      decreases Size(rc)
    {
      ghost var before := Contents(rc);
      var s;
      rc, s := Pass(rc, rout, resc);
      assert Contents(rc) == Contents(c)[k + 1..] by {
        assert before == Contents(c)[k..];
      }
      if s.verdict == Overflowed {
        rout, resc, found := s.out, s.esc, false;
        return;
      }
      rout, resc := s.out, s.esc;
      endFrame := s.verdict == Done;
      k := k + 1;
    }
    found := endFrame;
  }

  /** `kiss_frame_unpack` as written: the frame bytes and their count
      persist between calls, but the escape flag is a local that starts clear
      on every call and is lost at return. */
  method Unpack(c: Cbuf, out: seq<byte>) returns (rc: Cbuf, rout: seq<byte>, found: bool)
    requires Valid(c)
    ensures Valid(rc)
    ensures var d := Decode(Contents(c), out, false);
      && rout == d.out && found == (d.verdict == Done)
      && Contents(rc) == Contents(c)[d.consumed..]
  {
    var lost;
    rc, rout, lost, found := Scan(c, out, false);
  }

  /** A frame split between FESC and TFEND across two calls decodes wrongly
      when the escape flag is dropped: the caller gets TFEND where the sender
      meant FEND. Decoding the same bytes in one call gives FEND. */
  lemma EscapeLostBetweenCalls()
    ensures var first := Decode([FESC], [0x01], false);
      && first.verdict == Running && first.out == [0x01] && first.esc
      && Decode([TFEND, FEND], first.out, false).out == [0x01, TFEND]
      && Decode([FESC, TFEND, FEND], [0x01], false).out == [0x01, FEND]
  {
    EndsEscaped();
    ResumedUnescaped();
    WholeEscaped();
  }

  /** A call that ends right after FESC reports the escape as pending. */
  lemma EndsEscaped()
    ensures var first := Decode([FESC], [0x01], false);
      first.verdict == Running && first.out == [0x01] && first.esc
  {
    DecodeCons(FESC, [], [0x01], false);
  }

  /** Resumed without the pending escape, TFEND is kept literally. */
  lemma ResumedUnescaped()
    ensures Decode([TFEND, FEND], [0x01], false).out == [0x01, TFEND]
  {
    DecodeCons(TFEND, [FEND], [0x01], false);
    DecodeCons(FEND, [], [0x01, TFEND], false);
  }

  /** In one call, FESC TFEND is decoded to FEND. */
  lemma WholeEscaped()
    ensures Decode([FESC, TFEND, FEND], [0x01], false).out == [0x01, FEND]
  {
    DecodeCons(FESC, [TFEND, FEND], [0x01], false);
    DecodeCons(TFEND, [FEND], [0x01], true);
    DecodeCons(FEND, [], [0x01, FEND], false);
  }

  /** `kiss_frame_unpack` with the escape flag kept with the frame state,
      so that a frame split anywhere decodes as if it had arrived whole (see
      `DecodeResumes`). */
  method UnpackResumable(c: Cbuf, out: seq<byte>, esc: bool)
    returns (rc: Cbuf, rout: seq<byte>, resc: bool, found: bool)
    requires Valid(c)
    ensures Valid(rc)
    ensures var d := Decode(Contents(c), out, esc);
      && rout == d.out && resc == d.esc && found == (d.verdict == Done)
      && Contents(rc) == Contents(c)[d.consumed..]
  {
    rc, rout, resc, found := Scan(c, out, esc);
  }
}
