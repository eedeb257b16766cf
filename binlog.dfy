/** The operation journal of src/binlog.rs.

    `BindLog::inset` fills a zeroed 75-byte buffer through a cursor with the
    timestamp (8 bytes, big-endian two's complement), then the bytes of the
    file path, then the bytes of the operation, and appends the whole buffer
    to the journal file. A path and operation that do not fit make the cursor
    write fail. The journal file is `Some(bytes)` when it exists; the points
    where opening or writing it can fail are parameters. The path and the
    operation are given as their bytes. */
module Binlog {
  import opened Results
  import opened Bytes
  import opened IoCursor

  const RECORD_SIZE: nat := 75

  /** Whether the timestamp, `entryPath` and `op` fit in one record. */
  predicate Fits(entryPath: seq<byte>, op: seq<byte>)
  {
    8 + |entryPath| + |op| <= RECORD_SIZE
  }

  /** The record buffer after the three cursor writes. */
  function Record(timestamp: int, entryPath: seq<byte>, op: seq<byte>): (r: seq<byte>)
    requires IsI64(timestamp) && Fits(entryPath, op)
    ensures |r| == RECORD_SIZE
  {
    I64Be(timestamp) + entryPath + op + Zeros(RECORD_SIZE - 8 - |entryPath| - |op|)
  }

  /** The layout of a record: the timestamp in bytes 0..8, the path right
      after it, the operation right after that and zeros up to byte 75. */
  lemma RecordLayout(timestamp: int, entryPath: seq<byte>, op: seq<byte>)
    requires IsI64(timestamp) && Fits(entryPath, op)
    ensures var r, p := Record(timestamp, entryPath, op), 8 + |entryPath|;
      && r[..8] == I64Be(timestamp)
      && r[8..p] == entryPath
      && r[p..p + |op|] == op
      && forall i | p + |op| <= i < RECORD_SIZE :: r[i] == 0
  {
    var r, p := Record(timestamp, entryPath, op), 8 + |entryPath|;
    var z := Zeros(RECORD_SIZE - 8 - |entryPath| - |op|);
    assert r == I64Be(timestamp) + entryPath + op + z;
    assert forall i | p + |op| <= i < RECORD_SIZE :: r[i] == z[i - p - |op|];
  }

  /** The timestamp decodes back from the first 8 bytes of its record. */
  lemma TimestampRoundTrip(timestamp: int, entryPath: seq<byte>, op: seq<byte>)
    requires IsI64(timestamp) && Fits(entryPath, op)
    ensures I64FromBe(Record(timestamp, entryPath, op)[..8]) == timestamp
  {
    RecordLayout(timestamp, entryPath, op);
    I64RoundTrip(timestamp);
  }

  /** A record determines its timestamp and, for a known total length, the
      path and operation bytes taken together. */
  lemma RecordDetermines(t1: int, p1: seq<byte>, o1: seq<byte>, t2: int, p2: seq<byte>, o2: seq<byte>)
    requires IsI64(t1) && Fits(p1, o1) && IsI64(t2) && Fits(p2, o2)
    requires Record(t1, p1, o1) == Record(t2, p2, o2)
    ensures t1 == t2
    ensures |p1 + o1| == |p2 + o2| ==> p1 + o1 == p2 + o2
  {
    var r := Record(t1, p1, o1);
    RecordLayout(t1, p1, o1);
    RecordLayout(t2, p2, o2);
    TimestampRoundTrip(t1, p1, o1);
    TimestampRoundTrip(t2, p2, o2);
    if |p1 + o1| == |p2 + o2| {
      var n := |p1 + o1|;
      assert r[8..8 + n] == p1 + o1 by {
        assert r == I64Be(t1) + (p1 + o1) + Zeros(RECORD_SIZE - 8 - n);
      }
      assert r[8..8 + n] == p2 + o2 by {
        assert r == I64Be(t2) + (p2 + o2) + Zeros(RECORD_SIZE - 8 - n);
      }
    }
  }

  /** Nothing in a record marks where the path ends and the operation begins:
      moving the boundary gives the same bytes. */
  lemma BoundaryNotRecorded(timestamp: int, entryPath: seq<byte>, op: seq<byte>, k: nat)
    requires IsI64(timestamp) && Fits(entryPath, op) && k <= |entryPath|
    ensures Record(timestamp, entryPath, op) == Record(timestamp, entryPath[..k], entryPath[k..] + op)
  {
    assert entryPath == entryPath[..k] + entryPath[k..];
    assert entryPath + op == entryPath[..k] + (entryPath[k..] + op);
  }

  /** Appending a record keeps the journal as a prefix and keeps its length a
      multiple of the record size. */
  lemma AppendKeepsRecords(log: seq<byte>, rec: seq<byte>)
    requires |rec| == RECORD_SIZE
    ensures (log + rec)[..|log|] == log && (log + rec)[|log|..] == rec
    ensures |log| % RECORD_SIZE == 0 ==> |log + rec| % RECORD_SIZE == 0
  {
    if |log| % RECORD_SIZE == 0 {
      var q := |log| / RECORD_SIZE;
      assert |log + rec| == RECORD_SIZE * (q + 1);
    }
  }

  lemma FillTimestamp(timestamp: int)
    requires IsI64(timestamp)
    ensures Overwrite(Zeros(RECORD_SIZE), 0, I64Be(timestamp)) == I64Be(timestamp) + Zeros(RECORD_SIZE - 8)
  {
    OverwriteFitting(Zeros(RECORD_SIZE), 0, I64Be(timestamp));
    assert Zeros(RECORD_SIZE)[..0] == [];
    assert Zeros(RECORD_SIZE)[8..] == Zeros(RECORD_SIZE - 8);
  }

  lemma FillBytes(front: seq<byte>, data: seq<byte>, n: nat)
    requires |front| + |data| <= n
    ensures Overwrite(front + Zeros(n - |front|), |front|, data) == front + data + Zeros(n - |front| - |data|)
  {
    var buf := front + Zeros(n - |front|);
    OverwriteFitting(buf, |front|, data);
    assert buf[..|front|] == front;
    assert buf[|front| + |data|..] == Zeros(n - |front| - |data|);
  }

  class BindLog {
    const path: string
    /** The journal file at `path`: its bytes, or `None` while it does not exist. */
    var file: Option<seq<byte>>

    /** `BindLog::new`; `onDisk` is what the file system holds at `path`. */
    constructor (path: string, onDisk: Option<seq<byte>>)
      ensures this.path == path && file == onDisk
    {
      this.path := path;
      file := onDisk;
    }

    /** `inset`: open the journal for appending (creating it when absent),
        build the record and append it. */
    method Inset(timestamp: int, entryPath: seq<byte>, op: seq<byte>, openFails: bool, writeFails: bool)
      returns (r: Result<()>)
      requires IsI64(timestamp)
      modifies this
      ensures var existing := if old(file).Some? then old(file).value else [];
        && (openFails ==> r == Err("open") && file == old(file))
        && (!openFails && 8 + |entryPath| > RECORD_SIZE ==> r == Err("write path") && file == Some(existing))
        && (!openFails && 8 + |entryPath| <= RECORD_SIZE && !Fits(entryPath, op) ==>
              r == Err("write op") && file == Some(existing))
        && (!openFails && Fits(entryPath, op) && writeFails ==> r == Err("write_all") && file == Some(existing))
        && (!openFails && Fits(entryPath, op) && !writeFails ==>
              r == Ok(()) && file == Some(existing + Record(timestamp, entryPath, op)))
    {
      if openFails {
        return Err("open");
      }
      var existing := if file.Some? then file.value else [];
      file := Some(existing);
      var buffer := new byte[RECORD_SIZE](_ => 0);
      assert buffer[..] == Zeros(RECORD_SIZE);
      var cursor := new Cursor(buffer);
      // the 8 timestamp bytes always fit
      var ok := cursor.WriteAll(I64Be(timestamp));
      assert ok;
      FillTimestamp(timestamp);
      assert [] + I64Be(timestamp) == I64Be(timestamp);
      ok := cursor.WriteAll(entryPath);
      if !ok {
        return Err("write path");
      }
      FillBytes(I64Be(timestamp), entryPath, RECORD_SIZE);
      ok := cursor.WriteAll(op);
      if !ok {
        return Err("write op");
      }
      FillBytes(I64Be(timestamp) + entryPath, op, RECORD_SIZE);
      if writeFails {
        return Err("write_all");
      }
      file := Some(existing + buffer[..]);
      r := Ok(());
    }
  }
}
