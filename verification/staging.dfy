/**
 * Log byte staging: records are copied into a bounded `ByteBuffer`, which
 * is handed to the log file whenever it fills up and, on request, at the
 * end of a transfer.
 *
 * A `ByteBuffer` in write mode is its backing array and its position; its
 * limit is its capacity, the array's length. The log file is the sequence
 * of chunks it has been handed, each the buffer's content at the time.
 * `Log.flush` also counts its calls in `contadorFlush`; the flushes of the
 * two `Logging` classes (`descarrega`, `flush`) do not count.
 */
module Staging {
  import opened Base

  datatype ByteBuffer = ByteBuffer(data: seq<byte>, position: int)

  /** The buffer, the chunks handed to the file so far and `contadorFlush`. */
  datatype Stage = Stage(buffer: ByteBuffer, chunks: seq<seq<byte>>, contadorFlush: int)

  predicate ValidBuffer(b: ByteBuffer)
  {
    0 <= b.position <= |b.data|
  }

  function Capacity(b: ByteBuffer): int
  {
    |b.data|
  }

  /** `remaining()`: the room left before the limit. */
  function Remaining(b: ByteBuffer): int
  {
    |b.data| - b.position
  }

  /** The bytes written since the last `clear`. */
  function Content(b: ByteBuffer): seq<byte>
    requires ValidBuffer(b)
  {
    b.data[..b.position]
  }

  /** All chunks, one after the other. */
  function Flatten(cs: seq<seq<byte>>): seq<byte>
  {
    if cs == [] then [] else Flatten(cs[..|cs| - 1]) + cs[|cs| - 1]
  }

  /** Everything written: what reached the file, then what still waits in
      the buffer. */
  function Written(st: Stage): seq<byte>
    requires ValidBuffer(st.buffer)
  {
    Flatten(st.chunks) + Content(st.buffer)
  }

  /** `ByteBuffer.allocate(capacity)`: zeroed, position 0; a negative
      capacity is refused. */
  function Allocate(capacity: int): (res: Result<ByteBuffer>)
    ensures res.Success? <==> capacity >= 0
    ensures res.Success? ==> ValidBuffer(res.value) && Capacity(res.value) == capacity && Content(res.value) == []
  {
    if capacity < 0 then Failure("IllegalArgumentException")
    else Success(ByteBuffer(seq(capacity, _ => 0), 0))
  }

  /** `copyToBuffer(bb, payload, offset)` of `Log`, and `copyToBuffer(buffer,
      payload, inicio, fim)` of `Buffers`, whose `fim` is never read: copies
      as many bytes from `offset` on as fit and returns how many did not.
      `put` throws when `offset` lies outside the payload, since either the
      offset or the count it receives is then negative. */
  function CopyToBuffer(b: ByteBuffer, payload: seq<byte>, offset: int): (res: Result<(ByteBuffer, int)>)
    requires ValidBuffer(b)
    ensures res.Success? <==> 0 <= offset <= |payload|
    ensures res.Success? ==> var (b', resto) := res.value;
      && ValidBuffer(b') && Capacity(b') == Capacity(b)
      && 0 <= resto <= |payload| - offset
      && Content(b') == Content(b) + payload[offset..|payload| - resto]
      && b'.data[b'.position..] == b.data[b'.position..]
      && (resto == 0 <==> |payload| - offset <= Remaining(b))
      && (resto > 0 ==> Remaining(b') == 0)
  {
    if offset < 0 || offset > |payload| then Failure("IndexOutOfBoundsException")
    else
      var restante := Remaining(b);
      var pretendido := |payload| - offset;
      var copiado := if pretendido > restante then restante else pretendido;
      var put := payload[offset..offset + copiado];
      var b' := ByteBuffer(b.data[..b.position] + put + b.data[b.position + copiado..], b.position + copiado);
      assert Content(b') == Content(b) + put;
      Success((b', pretendido - copiado))
  }

  /** `Log.flush` (`counted`), `Logging.descarrega` and log-hdb's
      `Logging.flush`: the content goes to the file as one chunk and the
      buffer is cleared; the backing array keeps its bytes. */
  function Flush(st: Stage, counted: bool): (r: Stage)
    requires ValidBuffer(st.buffer)
    ensures ValidBuffer(r.buffer) && Written(r) == Written(st)
    ensures r.buffer.position == 0 && r.buffer.data == st.buffer.data
    ensures r.chunks == st.chunks + [Content(st.buffer)]
    ensures r.contadorFlush == st.contadorFlush + (if counted then 1 else 0)
  {
    var r := Stage(st.buffer.(position := 0), st.chunks + [Content(st.buffer)],
                   if counted then st.contadorFlush + 1 else st.contadorFlush);
    assert (st.chunks + [Content(st.buffer)])[..|st.chunks|] == st.chunks;
    r
  }

  /** Every chunk from index `from` on filled the whole buffer. */
  predicate FullFrom(cs: seq<seq<byte>>, from: int, capacity: int)
  {
    forall i :: 0 <= from <= i < |cs| ==> |cs[i]| == capacity
  }

  /** Midway through transferring `bytes` from `st`: `resto` bytes are
      still to copy, everything before them was written in order, every
      chunk flushed so far was a full buffer and, when bytes remain, the
      buffer is full. */
  predicate Transferring(st: Stage, bytes: seq<byte>, counted: bool, r: Stage, resto: int)
  {
    && ValidBuffer(st.buffer) && ValidBuffer(r.buffer)
    && Capacity(r.buffer) == Capacity(st.buffer)
    && 0 <= resto <= |bytes|
    && (resto > 0 ==> Remaining(r.buffer) == 0 && Capacity(st.buffer) > 0)
    && Written(r) == Written(st) + bytes[..|bytes| - resto]
    && |st.chunks| <= |r.chunks| && r.chunks[..|st.chunks|] == st.chunks
    && FullFrom(r.chunks, |st.chunks|, Capacity(st.buffer))
    && r.contadorFlush == st.contadorFlush + (if counted then |r.chunks| - |st.chunks| else 0)
  }

  /** One turn of the loop of `transferToBuffer`: flushing the full buffer
      and copying on from where the last copy stopped keeps the transfer
      in order and leaves fewer bytes to copy. */
  lemma {:induction false} RefillStep(st: Stage, bytes: seq<byte>, counted: bool, r: Stage, resto: int)
    requires Transferring(st, bytes, counted, r, resto) && resto > 0
    ensures var f := Flush(r, counted);
      var c := CopyToBuffer(f.buffer, bytes, |bytes| - resto);
      && c.Success? && c.value.1 < resto
      && Transferring(st, bytes, counted, f.(buffer := c.value.0), c.value.1)
  {
    var done := |bytes| - resto;
    var f := Flush(r, counted);
    assert f.chunks[..|st.chunks|] == st.chunks;
    var (b', resto') := CopyToBuffer(f.buffer, bytes, done).value;
    var slice := bytes[done..|bytes| - resto'];
    assert Content(b') == Content(f.buffer) + slice;
    calc {
      Written(f.(buffer := b'));
      Flatten(f.chunks) + (Content(f.buffer) + slice);
      Written(f) + slice;
      Written(st) + bytes[..done] + slice;
      { assert bytes[..done] + slice == bytes[..|bytes| - resto']; }
      Written(st) + bytes[..|bytes| - resto'];
    }
  }

  /** `transferToBuffer`: copies `bytes`, flushing each time the buffer is
      full and more bytes remain, then flushes once more when `flush` is
      set. This is `Log.transferToBuffer(buffer, bytes, flush)` with
      `counted`; the `Logging` variants pass `fim = bytes.length - 1`,
      which makes their offsets those used here, the logging module's
      never sets `flush`, and neither counts. A buffer without room loops
      for ever in the source as soon as there is a byte to copy, so such
      calls are excluded. */
  method TransferToBuffer(st: Stage, bytes: seq<byte>, flush: bool, counted: bool) returns (r: Stage)
    requires ValidBuffer(st.buffer) && (Capacity(st.buffer) > 0 || bytes == [])
    ensures ValidBuffer(r.buffer) && Capacity(r.buffer) == Capacity(st.buffer)
    ensures Written(r) == Written(st) + bytes
    ensures |st.chunks| <= |r.chunks| && r.chunks[..|st.chunks|] == st.chunks
    ensures flush ==> |r.chunks| > |st.chunks| && r.buffer.position == 0
    ensures FullFrom(r.chunks[..|r.chunks| - (if flush then 1 else 0)], |st.chunks|, Capacity(st.buffer))
    ensures r.contadorFlush == st.contadorFlush + (if counted then |r.chunks| - |st.chunks| else 0)
    ensures |bytes| <= Remaining(st.buffer) ==>
      && r.chunks == st.chunks + (if flush then [Content(st.buffer) + bytes] else [])
      && r.buffer.position == (if flush then 0 else st.buffer.position + |bytes|)
      && r.buffer.data == st.buffer.data[..st.buffer.position] + bytes + st.buffer.data[st.buffer.position + |bytes|..]
  {
    var (b, resto) := CopyToBuffer(st.buffer, bytes, 0).value;
    FirstCopy(st, bytes, counted);
    r := st.(buffer := b);
    ghost var fits := |bytes| <= Remaining(st.buffer);
    while resto != 0
      invariant Transferring(st, bytes, counted, r, resto)
      invariant fits ==> resto == 0 && r == st.(buffer := b)
      decreases resto
    {
      RefillStep(st, bytes, counted, r, resto);
      var flushed := Flush(r, counted);
      var (b', resto') := CopyToBuffer(flushed.buffer, bytes, |bytes| - resto).value;
      r, resto := flushed.(buffer := b'), resto';
    }
    TransferDone(st, bytes, counted, r);
    if flush {
      FlushAtEnd(st, counted, r);
      r := Flush(r, counted);
    }
  }

  /** The first copy of `transferToBuffer` starts a transfer, and writes
      all the bytes in place when they fit. */
  lemma {:induction false} FirstCopy(st: Stage, bytes: seq<byte>, counted: bool)
    requires ValidBuffer(st.buffer) && (Capacity(st.buffer) > 0 || bytes == [])
    ensures var c := CopyToBuffer(st.buffer, bytes, 0);
      && c.Success?
      && Transferring(st, bytes, counted, st.(buffer := c.value.0), c.value.1)
      && (|bytes| <= Remaining(st.buffer) ==>
           && c.value.1 == 0 && Content(c.value.0) == Content(st.buffer) + bytes
           && c.value.0.position == st.buffer.position + |bytes|
           && c.value.0.data == st.buffer.data[..st.buffer.position] + bytes + st.buffer.data[st.buffer.position + |bytes|..])
  {
    var (b, resto) := CopyToBuffer(st.buffer, bytes, 0).value;
    var r := st.(buffer := b);
    assert r.chunks[..|st.chunks|] == st.chunks;
    if |bytes| <= Remaining(st.buffer) {
      assert bytes[0..|bytes|] == bytes;
      assert b.data == Content(b) + b.data[b.position..];
    }
  }

  /** A transfer with nothing left to copy has written all the bytes. */
  lemma {:induction false} TransferDone(st: Stage, bytes: seq<byte>, counted: bool, r: Stage)
    requires Transferring(st, bytes, counted, r, 0)
    ensures Written(r) == Written(st) + bytes
  {
    assert bytes[..|bytes|] == bytes;
  }

  /** The closing flush of a transfer hands one more chunk to the file,
      after the full ones. */
  lemma {:induction false} FlushAtEnd(st: Stage, counted: bool, r: Stage)
    requires ValidBuffer(st.buffer) && ValidBuffer(r.buffer)
    requires |st.chunks| <= |r.chunks| && r.chunks[..|st.chunks|] == st.chunks
    requires FullFrom(r.chunks, |st.chunks|, Capacity(st.buffer))
    requires r.contadorFlush == st.contadorFlush + (if counted then |r.chunks| - |st.chunks| else 0)
    ensures var f := Flush(r, counted);
      && |f.chunks| > |st.chunks| && f.chunks[..|st.chunks|] == st.chunks
      && f.chunks[..|f.chunks| - 1] == r.chunks
      && FullFrom(f.chunks[..|f.chunks| - 1], |st.chunks|, Capacity(st.buffer))
      && f.contadorFlush == st.contadorFlush + (if counted then |f.chunks| - |st.chunks| else 0)
  {
    var f := Flush(r, counted);
    assert f.chunks[..|f.chunks| - 1] == r.chunks;
    assert f.chunks[..|st.chunks|] == st.chunks;
  }

  /** `r` came from `st` by writes and flushes of full buffers only. */
  predicate Extends(st: Stage, r: Stage, counted: bool)
    requires ValidBuffer(st.buffer)
  {
    && ValidBuffer(r.buffer) && Capacity(r.buffer) == Capacity(st.buffer)
    && |st.chunks| <= |r.chunks| && r.chunks[..|st.chunks|] == st.chunks
    && FullFrom(r.chunks, |st.chunks|, Capacity(st.buffer))
    && r.contadorFlush == st.contadorFlush + (if counted then |r.chunks| - |st.chunks| else 0)
  }

  lemma {:induction false} ExtendsChain(s0: Stage, s1: Stage, s2: Stage, counted: bool)
    requires ValidBuffer(s0.buffer) && Extends(s0, s1, counted) && Extends(s1, s2, counted)
    ensures Extends(s0, s2, counted)
  {
    PrefixesChain(s0.chunks, s1.chunks, s2.chunks, Capacity(s0.buffer));
  }

  /** Several byte arrays transferred one after the other without a
      forced flush. */
  method TransferEach(st: Stage, parts: seq<seq<byte>>, counted: bool) returns (r: Stage)
    requires ValidBuffer(st.buffer) && Capacity(st.buffer) > 0
    ensures Extends(st, r, counted)
    ensures Written(r) == Written(st) + Flatten(parts)
    ensures |Flatten(parts)| <= Remaining(st.buffer) ==>
      r.chunks == st.chunks && Content(r.buffer) == Content(st.buffer) + Flatten(parts)
  {
    r := st;
    var i := 0;
    ghost var fits := |Flatten(parts)| <= Remaining(st.buffer);
    EachStart(st, parts, counted, fits);
    while i < |parts|
      invariant Each(st, parts, counted, fits, i, r)
    {
      r := TransferNext(st, parts, counted, fits, i, r);
      i := i + 1;
    }
    EachEnd(st, parts, counted, fits, r);
  }

  lemma {:induction false} EachStart(st: Stage, parts: seq<seq<byte>>, counted: bool, fits: bool)
    requires ValidBuffer(st.buffer) && fits == (|Flatten(parts)| <= Remaining(st.buffer))
    ensures Each(st, parts, counted, fits, 0, st)
  {
    assert parts[..0] == [] && parts[0..] == parts;
    assert st.chunks[..|st.chunks|] == st.chunks;
  }

  lemma {:induction false} EachEnd(st: Stage, parts: seq<seq<byte>>, counted: bool, fits: bool, r: Stage)
    requires Each(st, parts, counted, fits, |parts|, r) && fits == (|Flatten(parts)| <= Remaining(st.buffer))
    ensures Extends(st, r, counted)
    ensures Written(r) == Written(st) + Flatten(parts)
    ensures fits ==> r.chunks == st.chunks && Content(r.buffer) == Content(st.buffer) + Flatten(parts)
  {
    assert parts[..|parts|] == parts;
  }

  /** One turn of the loop of `TransferEach`: part `i` transferred without
      a forced flush. */
  method TransferNext(st: Stage, parts: seq<seq<byte>>, counted: bool, ghost fits: bool, i: int, r: Stage)
    returns (next: Stage)
    requires Each(st, parts, counted, fits, i, r) && i < |parts| && Capacity(st.buffer) > 0
    ensures Each(st, parts, counted, fits, i + 1, next)
  {
    next := TransferToBuffer(r, parts[i], false, counted);
    EachTurn(st, parts, counted, fits, i, r, next);
  }

  /** The loop invariant of `TransferEach` after `i` parts: `r` extends
      `st` by exactly those parts and, while everything fits, only the
      buffer changed and the rest still fits. */
  ghost predicate Each(st: Stage, parts: seq<seq<byte>>, counted: bool, fits: bool, i: int, r: Stage)
  {
    && ValidBuffer(st.buffer) && 0 <= i <= |parts|
    && Extends(st, r, counted)
    && Written(r) == Written(st) + Flatten(parts[..i])
    && (fits ==> && r.chunks == st.chunks && |Flatten(parts[i..])| <= Remaining(r.buffer)
                 && Content(r.buffer) == Content(st.buffer) + Flatten(parts[..i]))
  }

  /** One turn of the loop of `TransferEach`: `next` is what
      `transferToBuffer` of part `i` without a flush promises. */
  lemma {:induction false} EachTurn(st: Stage, parts: seq<seq<byte>>, counted: bool, fits: bool, i: int, r: Stage, next: Stage)
    requires Each(st, parts, counted, fits, i, r) && i < |parts|
    requires ValidBuffer(next.buffer) && Capacity(next.buffer) == Capacity(r.buffer)
    requires Written(next) == Written(r) + parts[i]
    requires |r.chunks| <= |next.chunks| && next.chunks[..|r.chunks|] == r.chunks
    requires FullFrom(next.chunks[..|next.chunks| - 0], |r.chunks|, Capacity(r.buffer))
    requires next.contadorFlush == r.contadorFlush + (if counted then |next.chunks| - |r.chunks| else 0)
    requires |parts[i]| <= Remaining(r.buffer) ==>
      && next.chunks == r.chunks + []
      && next.buffer.position == r.buffer.position + |parts[i]|
    ensures Each(st, parts, counted, fits, i + 1, next)
  {
    assert next.chunks[..|next.chunks| - 0] == next.chunks;
    EachStep(st, parts, counted, i, r, next);
    if fits {
      EachStepFits(st, parts, i, r, next);
    }
  }

  /** The invariant parts of one turn of `TransferEach`. */
  lemma {:induction false} EachStep(st: Stage, parts: seq<seq<byte>>, counted: bool, i: int, r: Stage, next: Stage)
    requires ValidBuffer(st.buffer) && 0 <= i < |parts|
    requires Extends(st, r, counted)
    requires Written(r) == Written(st) + Flatten(parts[..i])
    requires ValidBuffer(next.buffer) && Capacity(next.buffer) == Capacity(r.buffer)
    requires Written(next) == Written(r) + parts[i]
    requires |r.chunks| <= |next.chunks| && next.chunks[..|r.chunks|] == r.chunks
    requires FullFrom(next.chunks, |r.chunks|, Capacity(r.buffer))
    requires next.contadorFlush == r.contadorFlush + (if counted then |next.chunks| - |r.chunks| else 0)
    ensures Extends(st, next, counted)
    ensures Written(next) == Written(st) + Flatten(parts[..i + 1])
  {
    FlattenSplit(parts, i);
    ExtendsChain(st, r, next, counted);
  }

  /** While everything fits, one turn of the loop of `TransferEach` only
      writes into the buffer. */
  lemma {:induction false} EachStepFits(st: Stage, parts: seq<seq<byte>>, i: int, r: Stage, next: Stage)
    requires ValidBuffer(st.buffer) && ValidBuffer(r.buffer) && ValidBuffer(next.buffer) && 0 <= i < |parts|
    requires r.chunks == st.chunks && |Flatten(parts[i..])| <= Remaining(r.buffer)
    requires Content(r.buffer) == Content(st.buffer) + Flatten(parts[..i])
    requires Capacity(next.buffer) == Capacity(r.buffer)
    requires |parts[i]| <= Remaining(r.buffer) ==>
      && next.chunks == r.chunks
      && next.buffer.position == r.buffer.position + |parts[i]|
      && Written(next) == Written(r) + parts[i]
    ensures next.chunks == st.chunks && |Flatten(parts[i + 1..])| <= Remaining(next.buffer)
    ensures Content(next.buffer) == Content(st.buffer) + Flatten(parts[..i + 1])
  {
    FlattenSplit(parts, i);
    var k := |Flatten(r.chunks)|;
    assert Content(next.buffer) == Written(next)[k..];
    assert Content(r.buffer) + parts[i] == (Written(r) + parts[i])[k..];
  }

  /** Several byte arrays transferred one after the other, only the last
      transfer carrying the `flush` flag: the way each `consome` stages the
      parts of a record. */
  method TransferParts(st: Stage, parts: seq<seq<byte>>, flush: bool, counted: bool) returns (r: Stage)
    requires ValidBuffer(st.buffer) && Capacity(st.buffer) > 0 && |parts| > 0
    ensures ValidBuffer(r.buffer) && Capacity(r.buffer) == Capacity(st.buffer)
    ensures Written(r) == Written(st) + Flatten(parts)
    ensures |st.chunks| <= |r.chunks| && r.chunks[..|st.chunks|] == st.chunks
    ensures flush ==> |r.chunks| > |st.chunks| && r.buffer.position == 0
    ensures FullFrom(r.chunks[..|r.chunks| - (if flush then 1 else 0)], |st.chunks|, Capacity(st.buffer))
    ensures r.contadorFlush == st.contadorFlush + (if counted then |r.chunks| - |st.chunks| else 0)
    ensures |Flatten(parts)| <= Remaining(st.buffer) ==>
      r.chunks == st.chunks + (if flush then [Content(st.buffer) + Flatten(parts)] else [])
  {
    var n := |parts| - 1;
    var before := TransferEach(st, parts[..n], counted);
    r := TransferToBuffer(before, parts[n], flush, counted);
    FlattenSplit(parts, n);
    assert parts[..n + 1] == parts;
    if |Flatten(parts)| <= Remaining(st.buffer) {
      assert Content(before.buffer) + parts[n] == Content(st.buffer) + Flatten(parts);
    }
    LastTransfer(st, before, r, flush, counted);
  }

  /** The last transfer of `TransferParts`, flushing at its end when
      asked, keeps every earlier flush a full buffer. */
  lemma {:induction false} LastTransfer(st: Stage, before: Stage, r: Stage, flush: bool, counted: bool)
    requires ValidBuffer(st.buffer) && Extends(st, before, counted)
    requires ValidBuffer(r.buffer) && Capacity(r.buffer) == Capacity(before.buffer)
    requires |before.chunks| <= |r.chunks| && r.chunks[..|before.chunks|] == before.chunks
    requires flush ==> |r.chunks| > |before.chunks|
    requires FullFrom(r.chunks[..|r.chunks| - (if flush then 1 else 0)], |before.chunks|, Capacity(before.buffer))
    requires r.contadorFlush == before.contadorFlush + (if counted then |r.chunks| - |before.chunks| else 0)
    ensures |st.chunks| <= |r.chunks| && r.chunks[..|st.chunks|] == st.chunks
    ensures FullFrom(r.chunks[..|r.chunks| - (if flush then 1 else 0)], |st.chunks|, Capacity(st.buffer))
    ensures r.contadorFlush == st.contadorFlush + (if counted then |r.chunks| - |st.chunks| else 0)
  {
    var cut := r.chunks[..|r.chunks| - (if flush then 1 else 0)];
    assert cut[..|before.chunks|] == before.chunks;
    PrefixesChain(st.chunks, before.chunks, cut, Capacity(st.buffer));
    assert r.chunks[..|st.chunks|] == st.chunks;
  }

  /** Splitting a list of chunks after `i` splits what they flatten to. */
  lemma {:induction false} FlattenSplit(parts: seq<seq<byte>>, i: int)
    requires 0 <= i < |parts|
    ensures Flatten(parts[..i + 1]) == Flatten(parts[..i]) + parts[i]
    ensures Flatten(parts[i..]) == parts[i] + Flatten(parts[i + 1..])
  {
    assert parts[..i + 1][..i] == parts[..i];
    FlattenAppend([parts[i]], parts[i + 1..]);
    assert [parts[i]] + parts[i + 1..] == parts[i..];
    assert Flatten([parts[i]]) == Flatten([]) + parts[i];
  }

  /** Flattening distributes over concatenation. */
  lemma {:induction false} FlattenAppend(a: seq<seq<byte>>, b: seq<seq<byte>>)
    ensures Flatten(a + b) == Flatten(a) + Flatten(b)
    decreases |b|
  {
    if b != [] {
      var b' := b[..|b| - 1];
      assert (a + b)[..|a + b| - 1] == a + b';
      FlattenAppend(a, b');
    } else {
      assert a + b == a;
    }
  }

  /** Two transfers in a row, each extending the chunks with full buffers
      only, extend them with full buffers only. */
  lemma {:induction false} PrefixesChain(s0: seq<seq<byte>>, s1: seq<seq<byte>>, s2: seq<seq<byte>>, capacity: int)
    requires |s0| <= |s1| <= |s2| && s1[..|s0|] == s0 && s2[..|s1|] == s1
    requires FullFrom(s1, |s0|, capacity) && FullFrom(s2, |s1|, capacity)
    ensures s2[..|s0|] == s0 && FullFrom(s2, |s0|, capacity)
  {
    forall i | |s0| <= i < |s2|
      ensures |s2[i]| == capacity
    {
      if i < |s1| {
        assert s2[i] == s1[i];
      }
    }
  }
}
