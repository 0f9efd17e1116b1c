/**
 * The log record layouts and level tables of the three logging classes,
 * and their `consome` callbacks, which stage one record into the buffer.
 *
 * `Log` (shared) formats the time into a 30-byte template and copies the
 * 4-byte level name into it at bytes 25..28; both `Logging` classes write a
 * 24-byte timestamp followed by a 6-byte level name padded with spaces.
 * The payload is the UTF-8 encoding of the message, taken here as given.
 */
module LogRecords {
  import opened Base
  import opened Staging

  /** The three logging calls `info`, `warn` and `fail`. */
  datatype Level = Info | Warn | Fail

  /** The index each call stores in the event: `INFO`, `WARN` and `ERROR`
      (`FAIL` in the `Logging` classes). */
  function Index(l: Level): (i: int)
    ensures 0 <= i < 3
  {
    match l
    case Info => 0
    case Warn => 1
    case Fail => 2
  }

  /** `levelNames` of `Log`. */
  function LevelName(i: int): string
    requires 0 <= i < 3
  {
    ["INFO", "WARN", "FAIL"][i]
  }

  /** The `level` table of `Log`: the ASCII bytes of each level's name. */
  function Level4(i: int): (r: seq<byte>)
    requires 0 <= i < 3
    ensures r == Ascii(LevelName(i))
  {
    [[73, 78, 70, 79], [87, 65, 82, 78], [70, 65, 73, 76]][i]
  }

  /** The `level` table of both `Logging` classes: each name with a space
      before and after. */
  function Level6(i: int): (r: seq<byte>)
    requires 0 <= i < 3
    ensures r == Ascii(" " + LevelName(i) + " ")
  {
    [[32, 73, 78, 70, 79, 32], [32, 87, 65, 82, 78, 32], [32, 70, 65, 73, 76, 32]][i]
  }

  /** The two tables name the same level at each index, `info`, `warn`
      and `fail` pick the names they are called after, and the names are
      pairwise different. */
  lemma {:induction false} LevelTablesAgree()
    ensures forall i :: 0 <= i < 3 ==> Level6(i) == [32] + Level4(i) + [32]
    ensures LevelName(Index(Info)) == "INFO" && LevelName(Index(Warn)) == "WARN" && LevelName(Index(Fail)) == "FAIL"
    ensures Level4(0) != Level4(1) && Level4(0) != Level4(2) && Level4(1) != Level4(2)
  {
  }

  /** The head of a `Log` record: the formatted template with the level
      name copied over bytes 25..28. */
  function SharedHead(template: seq<byte>, level: Level): (r: seq<byte>)
    requires |template| == 30
    ensures |r| == 30 && r[25..29] == Level4(Index(level))
    ensures r[..25] == template[..25] && r[29..] == template[29..]
  {
    template[..25] + Level4(Index(level)) + template[29..]
  }

  /** A `Logging` record: timestamp, level name, payload, newline. */
  function LoggingRecord(timestamp: seq<byte>, level: Level, payload: seq<byte>): (r: seq<byte>)
    ensures |r| == |timestamp| + 6 + |payload| + 1
    ensures r[..|timestamp|] == timestamp
    ensures r[|timestamp|..|timestamp| + 6] == Level6(Index(level))
    ensures r[|timestamp| + 6..|r| - 1] == payload && r[|r| - 1] == 10
  {
    var r := timestamp + Level6(Index(level)) + payload + [10];
    assert r[|timestamp| + 6..|r| - 1] == payload;
    r
  }

  /** `Log.consome(v, ultimo)`: the head, the payload and a newline, each
      with `transferToBuffer`, and only the newline's transfer flushes, when
      `ultimo` is set. Every flush is counted. */
  method ConsomeLog(st: Stage, template: seq<byte>, level: Level, payload: seq<byte>, ultimo: bool)
    returns (r: Stage)
    requires ValidBuffer(st.buffer) && Capacity(st.buffer) > 0 && |template| == 30
    ensures ValidBuffer(r.buffer) && Capacity(r.buffer) == Capacity(st.buffer)
    ensures Written(r) == Written(st) + SharedHead(template, level) + payload + [10]
    ensures r.contadorFlush == st.contadorFlush + |r.chunks| - |st.chunks|
    ensures |st.chunks| <= |r.chunks| && r.chunks[..|st.chunks|] == st.chunks
    ensures ultimo ==> |r.chunks| > |st.chunks| && r.buffer.position == 0
    ensures FullFrom(r.chunks[..|r.chunks| - (if ultimo then 1 else 0)], |st.chunks|, Capacity(st.buffer))
    ensures !ultimo && 30 + |payload| + 1 <= Remaining(st.buffer) ==> r.chunks == st.chunks
  {
    var head := SharedHead(template, level);
    var a := TransferToBuffer(st, head, false, true);
    assert a.chunks[..|a.chunks|] == a.chunks;
    var b := TransferToBuffer(a, payload, false, true);
    assert b.chunks[..|b.chunks|] == b.chunks;
    ExtendsChain(st, a, b, true);
    r := TransferToBuffer(b, [10], ultimo, true);
    LastTransfer(st, b, r, ultimo, true);
  }

  /** `consome(v, ultimo)` of the logging module: the four parts are
      transferred without a forced flush, then the buffer is flushed with
      `descarrega` when `ultimo` is set. */
  method ConsomeLogging(st: Stage, timestamp: seq<byte>, level: Level, payload: seq<byte>, ultimo: bool)
    returns (r: Stage)
    requires ValidBuffer(st.buffer) && Capacity(st.buffer) > 0
    ensures ValidBuffer(r.buffer) && Capacity(r.buffer) == Capacity(st.buffer)
    ensures Written(r) == Written(st) + LoggingRecord(timestamp, level, payload)
    ensures r.contadorFlush == st.contadorFlush
    ensures |st.chunks| <= |r.chunks| && r.chunks[..|st.chunks|] == st.chunks
    ensures ultimo ==> |r.chunks| > |st.chunks| && r.buffer.position == 0
    ensures FullFrom(r.chunks[..|r.chunks| - (if ultimo then 1 else 0)], |st.chunks|, Capacity(st.buffer))
  {
    RecordParts(timestamp, level, payload);
    r := TransferParts(st, [timestamp, Level6(Index(level)), payload, [10]], false, false);
    if ultimo {
      var before := r;
      r := Flush(r, false);
      assert r.chunks[..|r.chunks| - 1] == before.chunks;
      assert r.chunks[..|st.chunks|] == st.chunks;
    }
  }

  /** `consome(v, ultimo)` of log-hdb: the same parts, the newline's
      transfer carrying the `ultimo` flag. */
  method ConsomeLogHdb(st: Stage, timestamp: seq<byte>, level: Level, payload: seq<byte>, ultimo: bool)
    returns (r: Stage)
    requires ValidBuffer(st.buffer) && Capacity(st.buffer) > 0
    ensures ValidBuffer(r.buffer) && Capacity(r.buffer) == Capacity(st.buffer)
    ensures Written(r) == Written(st) + LoggingRecord(timestamp, level, payload)
    ensures r.contadorFlush == st.contadorFlush
    ensures |st.chunks| <= |r.chunks| && r.chunks[..|st.chunks|] == st.chunks
    ensures ultimo ==> |r.chunks| > |st.chunks| && r.buffer.position == 0
    ensures FullFrom(r.chunks[..|r.chunks| - (if ultimo then 1 else 0)], |st.chunks|, Capacity(st.buffer))
  {
    RecordParts(timestamp, level, payload);
    r := TransferParts(st, [timestamp, Level6(Index(level)), payload, [10]], ultimo, false);
  }

  /** The four parts a `Logging` class transfers make up one record. */
  lemma {:induction false} RecordParts(timestamp: seq<byte>, level: Level, payload: seq<byte>)
    ensures Flatten([timestamp, Level6(Index(level)), payload, [10]]) == LoggingRecord(timestamp, level, payload)
  {
    var parts := [timestamp, Level6(Index(level)), payload, [10]];
    assert parts[..1][..0] == [] && parts[..2][..1] == parts[..1];
    assert parts[..3][..2] == parts[..2] && parts[..4] == parts && parts[..4][..3] == parts[..3];
    assert Flatten(parts[..1]) == timestamp;
    assert Flatten(parts[..2]) == timestamp + Level6(Index(level));
    assert Flatten(parts[..3]) == timestamp + Level6(Index(level)) + payload;
  }

  /** Two transfers of "saúde" (6 UTF-8 bytes) and "vida" (4 bytes) into a
      new 10-byte buffer fill it without a flush; the backing array holds
      "saúdevida" afterwards, and still does when the second transfer asks
      for a flush, which hands the whole of it to the file as one chunk. */
  method ReusedBufferScenario() returns (plain: Stage, flushed: Stage)
    ensures plain.buffer.data == [115, 97, 195, 186, 100, 101, 118, 105, 100, 97] && plain.chunks == []
    ensures flushed.buffer.data == plain.buffer.data && flushed.chunks == [plain.buffer.data]
    ensures flushed.buffer.position == 0
  {
    var saude: seq<byte> := [115, 97, 195, 186, 100, 101];
    var vida: seq<byte> := [118, 105, 100, 97];
    var st := Stage(Allocate(10).value, [], 0);
    plain, flushed := FillExactly(st, saude, vida);
  }

  /** Two transfers that together fill an empty buffer exactly: without a
      flush both land in the backing array one after the other; with a
      flush on the second, the array is handed over as one chunk and is
      still there afterwards. */
  method FillExactly(st: Stage, x: seq<byte>, y: seq<byte>) returns (plain: Stage, flushed: Stage)
    requires ValidBuffer(st.buffer) && st.buffer.position == 0 && st.chunks == []
    requires |x| + |y| == Capacity(st.buffer) > 0
    ensures plain.buffer.data == x + y && plain.chunks == []
    ensures flushed.buffer.data == x + y && flushed.chunks == [x + y] && flushed.buffer.position == 0
  {
    var a := TransferToBuffer(st, x, false, false);
    assert st.buffer.data[..0] == [];
    assert a.buffer.data[..|x|] == x && a.buffer.data[|x| + |y|..] == [];
    plain := TransferToBuffer(a, y, false, false);
    flushed := TransferToBuffer(a, y, true, false);
    assert Content(a.buffer) == x;
  }
}
