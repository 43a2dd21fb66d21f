/**
 * io.undertow.io.UndertowOutputStream: a buffering OutputStream over the
 * response channel.
 *
 * Bytes are staged in one pooled buffer of fixed capacity and go to the
 * channel when it fills, on flush and on close; the channel is obtained from
 * the exchange only when first needed.  Once the declared Content-Length has
 * been written the stream flushes and closes itself, and close, which runs
 * once, tells the exchange the Content-Length when nothing has reached the
 * channel yet.  The channel is the ghost sequence delivered; the pool is the
 * pair of counters allocations and frees.
 */
module OutputStreams {
  import opened Octets
  import opened JavaNumbers

  datatype StreamError = StreamIsClosed

  /** The bytes of a ByteBuffer[] in order. */
  function Concat(buffers: seq<seq<Byte>>): (r: seq<Byte>)
    decreases |buffers|
  {
    if buffers == [] then [] else Concat(buffers[..|buffers| - 1]) + buffers[|buffers| - 1]
  }

  lemma SliceJoin(b: seq<Byte>, i: nat, j: nat, k: nat)
    requires i <= j <= k <= |b|
    ensures b[i..j] + b[j..k] == b[i..k]
  {
  }

  class UndertowOutputStream {
    /** Integer.parseInt of the Content-Length response header when the stream was made, if there was one. */
    const declaredLength: Option<int>
    /** The capacity of the pooled buffer. */
    const capacity: nat
    var closed: bool
    var writeStarted: bool
    /** The written counter (an int in the source). */
    var written: nat
    /** buffer != null */
    var hasBuffer: bool
    var buf: array<Byte>
    /** buffer.position() */
    var pos: nat
    var channelObtained: bool
    /** How many times exchange.getResponseChannel() was called. */
    var channelRequests: nat
    var allocations: nat
    var frees: nat
    /** channel.shutdownWrites() was called. */
    var shutdown: bool
    /** The Content-Length the stream put into the response headers, if it did. */
    var contentLengthHeader: Option<string>
    /** The bytes written to the channel. */
    ghost var delivered: seq<Byte>
    /** The bytes the write methods accepted. */
    ghost var accepted: seq<Byte>

    /** What holds between and inside the operations: the staged bytes are the accepted bytes not yet delivered, and the channel is requested at most once. */
    ghost predicate Core()
      reads this, buf
    {
      capacity > 0
      && (hasBuffer ==> buf.Length == capacity && pos <= capacity)
      && (!hasBuffer ==> pos == 0)
      && accepted == delivered + (if hasBuffer then buf[..pos] else [])
      && channelRequests == (if channelObtained then 1 else 0)
      && (writeStarted ==> channelObtained)
      && (|delivered| > 0 ==> writeStarted)
      && allocations <= 1
    }

    /** Between operations: the buffer is never left full, the pool buffer is freed exactly when closed, and a Content-Length set by close counts every byte. */
    ghost predicate Valid()
      reads this, buf
    {
      Core()
      && written == |accepted|
      && (hasBuffer ==> pos < capacity)
      && (!closed ==> (hasBuffer <==> allocations == 1) && frees == 0 && !shutdown && contentLengthHeader.None?)
      && (closed ==> !hasBuffer && frees == allocations && shutdown && channelObtained)
      && (contentLengthHeader.Some? ==> contentLengthHeader.value == Decimal(|accepted|))
    }

    constructor (declared: Option<int>, cap: nat)
      requires cap > 0
      ensures Valid() && declaredLength == declared && capacity == cap
      ensures !closed && !writeStarted && written == 0 && !hasBuffer && !channelObtained
      ensures allocations == 0 && frees == 0 && accepted == [] && delivered == []
    {
      declaredLength, capacity := declared, cap;
      closed, writeStarted, written := false, false, 0;
      hasBuffer, buf, pos := false, new Byte[0], 0;
      channelObtained, channelRequests := false, 0;
      allocations, frees, shutdown := 0, 0, false;
      contentLengthHeader := None;
      delivered, accepted := [], [];
    }

    /** UndertowOutputStream(exchange) (UndertowOutputStream.java:62-70): NumberFormatException (null here) for an unparsable Content-Length. */
    static method Open(header: Option<string>, cap: nat) returns (s: UndertowOutputStream?)
      requires cap > 0
      ensures header.Some? && ParseInt(header.value).None? ==> s == null
      ensures header.None? ==> s != null && fresh(s) && s.Valid() && s.declaredLength == None && s.capacity == cap
      ensures header.Some? && ParseInt(header.value).Some? ==>
                s != null && fresh(s) && s.Valid() && s.declaredLength == ParseInt(header.value) && s.capacity == cap
      ensures s != null ==> !s.closed && s.accepted == [] && s.allocations == 0
    {
      if header.None? {
        s := new UndertowOutputStream(None, cap);
        return;
      }
      var n := ParseInt(header.value);
      if n.None? {
        return null;
      }
      s := new UndertowOutputStream(n, cap);
    }

    /** The lazily obtained response channel; getResponseChannel is called only the first time. */
    method Channel()
      requires Core()
      modifies this`channelObtained, this`channelRequests
      ensures Core() && channelObtained
      ensures channelRequests == 1
    {
      if !channelObtained {
        channelObtained := true;
        channelRequests := channelRequests + 1;
      }
    }

    /** buffer() (UndertowOutputStream.java:234-242): allocates from the pool only when there is no buffer. */
    method Buffer()
      requires Valid() && !closed
      modifies this
      ensures Valid() && hasBuffer && !closed
      ensures old(hasBuffer) ==> buf == old(buf) && allocations == old(allocations)
      ensures !old(hasBuffer) ==> fresh(buf) && allocations == old(allocations) + 1
      ensures pos == old(pos) && accepted == old(accepted) && delivered == old(delivered) && written == old(written)
      ensures writeStarted == old(writeStarted) && channelObtained == old(channelObtained) && frees == old(frees)
    {
      if !hasBuffer {
        buf := new Byte[capacity];
        hasBuffer := true;
        allocations := allocations + 1;
      }
    }

    /** ByteBuffer.put(b, from, n) on the staging buffer. */
    method Put(src: seq<Byte>, from: nat, n: nat)
      requires Core() && hasBuffer && from + n <= |src| && pos + n <= capacity
      modifies buf, this`pos, this`accepted
      ensures Core() && pos == old(pos) + n && accepted == old(accepted) + src[from..from + n]
    {
      CopyInto(buf, pos, src, from, n);
      pos := pos + n;
      accepted := accepted + src[from..from + n];
    }

    /** The bulk copy behind ByteBuffer.put: src[from..from + n] lands at a[at..]. */
    static method CopyInto(a: array<Byte>, at: nat, src: seq<Byte>, from: nat, n: nat)
      requires at + n <= a.Length && from + n <= |src|
      modifies a
      ensures a[..at + n] == old(a[..at]) + src[from..from + n]
    {
      ghost var staged := a[..at];
      var i := 0;
      while i < n
        invariant 0 <= i <= n
        invariant a[..at + i] == staged + src[from..from + i]
      {
        a[at + i] := src[from + i];
        assert a[..at + i + 1] == a[..at + i] + [src[from + i]];
        assert src[from..from + i + 1] == src[from..from + i] + [src[from + i]];
        i := i + 1;
      }
    }

    /** writeBuffer (UndertowOutputStream.java:191-199): the staged bytes go to the channel and the buffer is cleared. */
    method WriteBuffer()
      requires Core() && hasBuffer
      modifies this`delivered, this`pos, this`channelObtained, this`channelRequests, this`writeStarted
      ensures Core() && pos == 0 && delivered == accepted && writeStarted && channelObtained
      ensures delivered == old(delivered) + old(buf[..pos])
    {
      Channel();
      delivered := delivered + buf[..pos];
      pos := 0;
      writeStarted := true;
    }

    /** An open stream holding its pooled buffer, with room in it. */
    ghost predicate Staging()
      reads this, buf
    {
      Core() && hasBuffer && !closed && pos < capacity
      && allocations == 1 && frees == 0 && !shutdown && contentLengthHeader.None?
    }

    /** write(byte[], int, int) (UndertowOutputStream.java:89-114); a caller's out-of-range slice is excluded. */
    method Write(b: seq<Byte>, off: int, len: int) returns (err: Option<StreamError>)
      requires Valid()
      requires len < 1 || (0 <= off && off + len <= |b|)
      modifies this, buf
      ensures Valid()
      ensures buf == old(buf) || fresh(buf)
      ensures len < 1 ==> err.None? && accepted == old(accepted) && delivered == old(delivered) && closed == old(closed)
      ensures len >= 1 && old(closed) ==> err == Some(StreamIsClosed) && accepted == old(accepted) && delivered == old(delivered) && closed
      ensures len >= 1 && !old(closed) ==>
                err.None? && accepted == old(accepted) + b[off..off + len]
                && (closed <==> declaredLength.Some? && |accepted| >= declaredLength.value)
                && (old(pos) + len < capacity && !closed ==> delivered == old(delivered) && pos == old(pos) + len)
                && (old(pos) + len >= capacity ==> writeStarted)
                && (closed ==> delivered == accepted)
      ensures allocations <= 1 && channelRequests <= 1
    {
      if len < 1 {
        return None;
      }
      if closed {
        return Some(StreamIsClosed);
      }
      Buffer();
      Stage(b, off, len);
      UpdateWritten(len);
      return None;
    }

    /** The copy loop of write(byte[], int, int): fill the buffer, hand it to the channel when full, repeat. */
    method Stage(b: seq<Byte>, off: nat, len: nat)
      requires Staging() && off + len <= |b|
      modifies buf, this`pos, this`accepted, this`delivered, this`channelObtained, this`channelRequests, this`writeStarted
      ensures Staging() && accepted == old(accepted) + b[off..off + len]
      ensures old(pos) + len < capacity ==> delivered == old(delivered) && pos == old(pos) + len
      ensures old(pos) + len >= capacity ==> writeStarted
    {
      var done := 0;
      while done < len
        invariant Staging() && done <= len
        invariant accepted == old(accepted) + b[off..off + done]
        invariant done == 0 ==> pos == old(pos) && delivered == old(delivered)
        invariant done > 0 ==> writeStarted && old(pos) + len >= capacity
        decreases len - done
      {
        var next := StageRound(b, off + done, len - done);
        SliceJoin(b, off, off + done, off + done + next);
        if done + next == len {
          return;
        }
        done := done + next;
      }
    }

    /** One round of the copy loop over n bytes from b[from]: all of them when they fit, else as many as fill the buffer. */
    method StageRound(b: seq<Byte>, from: nat, n: nat) returns (took: nat)
      requires Staging() && from + n <= |b| && 0 < n
      modifies buf, this`pos, this`accepted, this`delivered, this`channelObtained, this`channelRequests, this`writeStarted
      ensures Staging() && 0 < took <= n && accepted == old(accepted) + b[from..from + took]
      ensures took < n ==> writeStarted && old(pos) + n >= capacity
      ensures old(writeStarted) ==> writeStarted
      ensures old(pos) + n < capacity ==> took == n && delivered == old(delivered) && pos == old(pos) + n
      ensures old(pos) + n >= capacity ==> writeStarted
    {
      var room := capacity - pos;
      if room >= n {
        Fill(b, from, n);
        took := n;
      } else {
        Fill(b, from, room);
        took := room;
      }
    }

    /** One round of the copy loop: put n bytes, and write the buffer to the channel if that filled it. */
    method Fill(b: seq<Byte>, from: nat, n: nat)
      requires Staging() && from + n <= |b| && pos + n <= capacity
      modifies buf, this`pos, this`accepted, this`delivered, this`channelObtained, this`channelRequests, this`writeStarted
      ensures Staging() && accepted == old(accepted) + b[from..from + n]
      ensures old(pos) + n < capacity ==> delivered == old(delivered) && pos == old(pos) + n && writeStarted == old(writeStarted)
      ensures old(pos) + n == capacity ==> delivered == accepted && pos == 0 && writeStarted
    {
      Put(b, from, n);
      if pos == capacity {
        WriteBuffer();
      }
    }

    /** write(int) (UndertowOutputStream.java:75-77): the low eight bits of b. */
    method WriteByte(b: int) returns (err: Option<StreamError>)
      requires Valid()
      modifies this, buf
      ensures Valid()
      ensures old(closed) ==> err == Some(StreamIsClosed) && accepted == old(accepted)
      ensures !old(closed) ==> err.None? && accepted == old(accepted) + [b % 256]
    {
      err := Write([b % 256], 0, 1);
    }

    /** write(byte[]) (UndertowOutputStream.java:82-84): an empty array is a no-op even on a closed stream. */
    method WriteAll(b: seq<Byte>) returns (err: Option<StreamError>)
      requires Valid()
      modifies this, buf
      ensures Valid()
      ensures |b| == 0 ==> err.None? && accepted == old(accepted) && closed == old(closed)
      ensures |b| > 0 && old(closed) ==> err == Some(StreamIsClosed) && accepted == old(accepted)
      ensures |b| > 0 && !old(closed) ==> err.None? && accepted == old(accepted) + b
    {
      err := Write(b, 0, |b|);
      assert b[0..|b|] == b;
    }

    /** updateWritten (UndertowOutputStream.java:167-173): reaching the declared length flushes and closes. */
    method UpdateWritten(len: nat)
      requires Core() && !closed && written + len == |accepted|
      requires (hasBuffer <==> allocations == 1) && frees == 0 && !shutdown && contentLengthHeader.None?
      requires hasBuffer ==> pos < capacity
      modifies this
      ensures Valid() && accepted == old(accepted)
      ensures closed <==> declaredLength.Some? && |accepted| >= declaredLength.value
      ensures !closed ==> pos == old(pos) && delivered == old(delivered) && hasBuffer == old(hasBuffer) && buf == old(buf)
      ensures closed ==> delivered == accepted
      ensures allocations == old(allocations) && buf == old(buf)
    {
      written := written + len;
      if declaredLength.Some? && written >= declaredLength.value {
        var e := Flush();
        Close();
      }
    }

    /** flush (UndertowOutputStream.java:178-189): throws on a closed stream; otherwise the staged bytes reach the channel. */
    method Flush() returns (err: Option<StreamError>)
      requires Valid()
      modifies this
      ensures Valid()
      ensures old(closed) ==> err == Some(StreamIsClosed) && delivered == old(delivered) && closed
      ensures !old(closed) ==> err.None? && !closed && delivered == accepted && channelObtained && pos == 0
      ensures accepted == old(accepted) && hasBuffer == old(hasBuffer) && buf == old(buf) && allocations == old(allocations)
    {
      if closed {
        return Some(StreamIsClosed);
      }
      if hasBuffer && pos != 0 {
        WriteBuffer();
      }
      Channel();
      err := None;
    }

    /**
     * close (UndertowOutputStream.java:204-232): runs once.  With nothing
     * on the channel it sets Content-Length to the staged count ("0" without
     * a buffer), delivers the staged bytes, shuts the channel down and
     * frees the pooled buffer.
     */
    method Close()
      requires Valid()
      modifies this
      ensures Valid() && closed && accepted == old(accepted)
      ensures old(closed) ==> delivered == old(delivered) && frees == old(frees) && contentLengthHeader == old(contentLengthHeader)
      ensures !old(closed) ==>
                delivered == accepted && shutdown && frees == allocations && !hasBuffer
                && contentLengthHeader == if !old(writeStarted) && !old(channelObtained) then Some(Decimal(|accepted|)) else None
      ensures allocations == old(allocations) && buf == old(buf)
    {
      if closed {
        return;
      }
      closed := true;
      if !writeStarted && !channelObtained {
        contentLengthHeader := Some(if !hasBuffer then "0" else Decimal(pos));
      }
      if hasBuffer {
        WriteBuffer();
      }
      Channel();
      shutdown := true;
      if allocations == 1 {
        frees := frees + 1;
      }
      hasBuffer := false;
      pos := 0;
    }

    /** The total of remaining() over the buffers (UndertowOutputStream.java:122-125). */
    method TotalRemaining(buffers: seq<seq<Byte>>) returns (len: nat)
      ensures len == |Concat(buffers)|
    {
      len := 0;
      var i := 0;
      while i < |buffers|
        invariant 0 <= i <= |buffers|
        invariant len == |Concat(buffers[..i])|
      {
        assert buffers[..i + 1][..i] == buffers[..i];
        len := len + |buffers[i]|;
        i := i + 1;
      }
      assert buffers[..|buffers|] == buffers;
    }

    /** write(ByteBuffer[]) (UndertowOutputStream.java:118-160): throws on a closed stream even when the buffers are empty. */
    method WriteBuffers(buffers: seq<seq<Byte>>) returns (err: Option<StreamError>)
      requires Valid()
      modifies this, buf
      ensures Valid()
      ensures buf == old(buf) || fresh(buf)
      ensures old(closed) ==> err == Some(StreamIsClosed) && accepted == old(accepted) && delivered == old(delivered)
      ensures !old(closed) && |Concat(buffers)| == 0 ==> err.None? && accepted == old(accepted) && delivered == old(delivered) && !closed
      ensures !old(closed) && |Concat(buffers)| > 0 ==>
                err.None? && accepted == old(accepted) + Concat(buffers)
                && (closed <==> declaredLength.Some? && |accepted| >= declaredLength.value)
                && (closed ==> delivered == accepted)
      ensures allocations <= 1 && channelRequests <= 1
    {
      if closed {
        return Some(StreamIsClosed);
      }
      var len := TotalRemaining(buffers);
      if len < 1 {
        return None;
      }
      var data := Concat(buffers);
      if written == 0 && declaredLength == Some(len) {
        Channel();
        delivered := delivered + data;
        accepted := accepted + data;
        writeStarted := true;
      } else {
        Buffer();
        StageOrSend(data);
      }
      UpdateWritten(len);
      err := None;
    }

    /** The buffered branch of write(ByteBuffer[]): copy when the data fits in the room left, else write the buffer's bytes and the data to the channel. */
    method StageOrSend(data: seq<Byte>)
      requires Staging()
      modifies buf, this`pos, this`accepted, this`delivered, this`channelObtained, this`channelRequests, this`writeStarted
      ensures Staging() && accepted == old(accepted) + data
      ensures |data| < capacity - old(pos) ==> delivered == old(delivered) && pos == old(pos) + |data|
      ensures |data| >= capacity - old(pos) ==> delivered == accepted && pos == 0 && writeStarted
    {
      if |data| < capacity - pos {
        Put(data, 0, |data|);
        assert data[0..|data|] == data;
      } else {
        Channel();
        if pos == 0 {
          delivered := delivered + data;
        } else {
          delivered := delivered + buf[..pos] + data;
          pos := 0;
        }
        accepted := accepted + data;
        writeStarted := true;
      }
    }

    /** write(ByteBuffer) (UndertowOutputStream.java:163-165). */
    method WriteByteBuffer(bb: seq<Byte>) returns (err: Option<StreamError>)
      requires Valid()
      modifies this, buf
      ensures Valid()
      ensures old(closed) ==> err == Some(StreamIsClosed) && accepted == old(accepted)
      ensures !old(closed) ==> err.None? && accepted == old(accepted) + bb
    {
      assert Concat([bb]) == bb by {
        assert [bb][..0] == [];
      }
      err := WriteBuffers([bb]);
    }
  }
}
