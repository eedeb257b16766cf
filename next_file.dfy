/** The size-sum log of src/next_file.rs.

    A `SumSizeFile` keeps a running `sum` in memory and an append-only file of
    8-byte records. `inset` writes each value big-endian (`write_u64`) and adds
    it to `sum`; `sum()` rescans the file in 8-byte reads, decoding each buffer
    little-endian (`u64::from_le_bytes`), stores the total, truncates the file
    and writes the total back as one big-endian record.

    The file is the byte sequence `log`. The points where the file system can
    fail are parameters: `writeFails` for `inset`, a `SumFault` for `sum()`,
    `createFails` for `new`; each failure returns the source's error context.
    A read is assumed to return as many bytes as are left, up to the 8 the
    buffer holds. */
module NextFile {
  import opened Results
  import opened Bytes
  import opened IoCursor

  // ----------------------------------------------- what the read loop sums

  /** The total `sum()`'s read loop adds up from the unread part `rest` of the
      file, where `buf` is what the previous read left in the buffer. A read
      overwrites only the bytes it returns, so a short last read is decoded
      together with stale bytes of the read before it. */
  function ScanTotal(rest: seq<byte>, buf: seq<byte>): nat
    requires |buf| == 8
    decreases |rest|
  {
    if rest == [] then 0
    else
      var n := Min(8, |rest|);
      var b := rest[..n] + buf[n..];
      FromLe(b) + ScanTotal(rest[n..], b)
  }

  /** The total `sum()` computes for the file contents `log`; the buffer starts zeroed. */
  function ReadTotal(log: seq<byte>): nat
  {
    ScanTotal(log, Zeros(8))
  }

  /** The number of `read` calls the loop makes on `n` bytes, the last one returning 0. */
  function Reads(n: nat): (k: nat)
    ensures k >= 1
    decreases n
  {
    if n == 0 then 1 else 1 + Reads(n - Min(8, n))
  }

  /** The sum of the whole 8-byte records of `log`, each read little-endian. */
  function SumLe(log: seq<byte>): nat
    decreases |log|
  {
    if |log| < 8 then 0 else FromLe(log[..8]) + SumLe(log[8..])
  }

  /** The sum of the whole 8-byte records of `log`, each read big-endian as
      `inset` wrote it: the total the log records. */
  function SumBe(log: seq<byte>): nat
    decreases |log|
  {
    if |log| < 8 then 0 else FromBe(log[..8]) + SumBe(log[8..])
  }

  /** On a log of whole records the read loop sums the records little-endian,
      whatever the buffer held before. */
  lemma {:induction false} ScanWholeRecords(rest: seq<byte>, buf: seq<byte>)
    requires |buf| == 8 && |rest| % 8 == 0
    ensures ScanTotal(rest, buf) == SumLe(rest)
    decreases |rest|
  {
    if rest != [] {
      assert rest[..8] + buf[8..] == rest[..8];
      ScanWholeRecords(rest[8..], rest[..8]);
    }
  }

  lemma ReadWholeRecords(log: seq<byte>)
    requires |log| % 8 == 0
    ensures ReadTotal(log) == SumLe(log)
  {
    ScanWholeRecords(log, Zeros(8));
  }

  /** A last read of `|rest| < 8` bytes is decoded with the stale bytes
      `buf[|rest|..]` of the read before. */
  lemma ShortTailReusesBuffer(rest: seq<byte>, buf: seq<byte>)
    requires |buf| == 8 && 0 < |rest| < 8
    ensures ScanTotal(rest, buf) == FromLe(rest + buf[|rest|..])
  {
    assert rest[..|rest|] == rest;
    assert rest[|rest|..] == [];
  }

  lemma {:induction false} SumLeAppend(log: seq<byte>, rec: seq<byte>)
    requires |log| % 8 == 0 && |rec| == 8
    ensures SumLe(log + rec) == SumLe(log) + FromLe(rec)
    decreases |log|
  {
    if log == [] {
      assert log + rec == rec && rec[..8] == rec && rec[8..] == [];
    } else {
      assert (log + rec)[..8] == log[..8];
      assert (log + rec)[8..] == log[8..] + rec;
      SumLeAppend(log[8..], rec);
    }
  }

  lemma {:induction false} SumBeAppend(log: seq<byte>, v: nat)
    requires |log| % 8 == 0 && IsU64(v)
    ensures SumBe(log + BeBytes(v, 8)) == SumBe(log) + v
    decreases |log|
  {
    var rec := BeBytes(v, 8);
    if log == [] {
      assert log + rec == rec && rec[..8] == rec && rec[8..] == [];
      assert Pow256(8) == U64_LIMIT;
      FromBeBeBytes(v, 8);
    } else {
      assert (log + rec)[..8] == log[..8];
      assert (log + rec)[8..] == log[8..] + rec;
      SumBeAppend(log[8..], v);
    }
  }

  /** `sum()` on the one record `write_u64(S)` left reads `S` with its bytes swapped. */
  lemma ReadOfCompacted(s: nat)
    ensures ReadTotal(BeBytes(s, 8)) == ByteSwap64(s)
  {
    var rec := BeBytes(s, 8);
    ReadWholeRecords(rec);
    assert rec[..8] == rec && rec[8..] == [];
    LeReadOfBeWrite(s);
  }

  /** Compacting twice gives the original total back. */
  lemma CompactTwiceRestores(s: nat)
    requires IsU64(s)
    ensures ReadTotal(BeBytes(ReadTotal(BeBytes(s, 8)), 8)) == s
  {
    ReadOfCompacted(s);
    ReadOfCompacted(ByteSwap64(s));
    ByteSwapInvolution(s);
  }

  /** A compacted total survives another `sum()` exactly when its 8 bytes
      form a palindrome. */
  lemma CompactKeepsIffPalindrome(s: nat)
    requires IsU64(s)
    ensures ReadTotal(BeBytes(s, 8)) == s <==> Reverse(BeBytes(s, 8)) == BeBytes(s, 8)
  {
    ReadOfCompacted(s);
    ByteSwapFixedIffPalindrome(s);
  }

  /** An empty file sums to 0, and 0 is written back as 8 zero bytes. */
  lemma EmptyLogCompacts()
    ensures ReadTotal([]) == 0
    ensures BeBytes(ReadTotal([]), 8) == Zeros(8)
  {
    var z := BeBytes(0, 8);
    assert forall i | 0 <= i < 8 :: z[i] == 0 by {
      assert z == [0, 0, 0, 0, 0, 0, 0, 0];
    }
  }

  /** Writing the 8 bytes of `v` over a zeroed 8-byte buffer gives exactly those bytes. */
  lemma FillRecord(v: nat)
    ensures Overwrite(Zeros(8), 0, BeBytes(v, 8)) == BeBytes(v, 8)
  {
    OverwriteFitting(Zeros(8), 0, BeBytes(v, 8));
    assert Zeros(8)[..0] + BeBytes(v, 8) + Zeros(8)[8..] == BeBytes(v, 8);
  }

  lemma {:induction false} BeBytesSmall(v: nat, n: nat)
    requires v < 256 && n >= 1
    ensures BeBytes(v, n) == Zeros(n - 1) + [v]
  {
    if n > 1 {
      BeBytesSmall(v / 256, n - 1);
      assert v / 256 == 0 && v % 256 == v;
      assert BeBytes(0, n - 1) == Zeros(n - 2) + [0];
      assert Zeros(n - 2) + [0] == Zeros(n - 1);
    }
  }

  lemma {:induction false} FromLeZerosThen(n: nat, v: byte)
    ensures FromLe(Zeros(n) + [v]) == v * Pow256(n)
  {
    if n == 0 {
      assert Zeros(0) + [v] == [v];
      assert FromLe([v]) == v + 256 * FromLe([]);
    } else {
      var s := Zeros(n) + [v];
      assert s[1..] == Zeros(n - 1) + [v];
      FromLeZerosThen(n - 1, v);
    }
  }

  lemma SwapSmall(v: nat)
    requires v < 256
    ensures ByteSwap64(v) == v * Pow256(7)
  {
    BeBytesSmall(v, 8);
    FromLeZerosThen(7, v);
    LeReadOfBeWrite(v);
  }

  /** The log that `inset` builds for the values `vs`, in order. */
  function Records(vs: seq<nat>): (r: seq<byte>)
    ensures |r| == 8 * |vs|
  {
    if vs == [] then [] else Records(vs[..|vs| - 1]) + BeBytes(vs[|vs| - 1], 8)
  }

  function Total(vs: seq<nat>): nat
  {
    if vs == [] then 0 else Total(vs[..|vs| - 1]) + vs[|vs| - 1]
  }

  function SwappedTotal(vs: seq<nat>): nat
  {
    if vs == [] then 0 else SwappedTotal(vs[..|vs| - 1]) + ByteSwap64(vs[|vs| - 1])
  }

  /** One more `inset` appends one record. */
  lemma RecordsSnoc(vs: seq<nat>)
    requires vs != []
    ensures Records(vs) == Records(vs[..|vs| - 1]) + BeBytes(vs[|vs| - 1], 8)
  {
  }

  /** Read big-endian, the records hold the total of the values written. */
  lemma {:induction false} RecordsTotal(vs: seq<nat>)
    requires forall i | 0 <= i < |vs| :: IsU64(vs[i])
    ensures SumBe(Records(vs)) == Total(vs)
  {
    if vs != [] {
      var init, v := vs[..|vs| - 1], vs[|vs| - 1];
      assert forall i | 0 <= i < |init| :: init[i] == vs[i];
      RecordsTotal(init);
      RecordsSnoc(vs);
      SumBeAppend(Records(init), v);
    }
  }

  /** Read little-endian, each record gives its value byte-swapped. */
  lemma {:induction false} RecordsLeTotal(vs: seq<nat>)
    ensures SumLe(Records(vs)) == SwappedTotal(vs)
  {
    if vs != [] {
      var init, v := vs[..|vs| - 1], vs[|vs| - 1];
      RecordsLeTotal(init);
      RecordsSnoc(vs);
      SumLeAppend(Records(init), BeBytes(v, 8));
      LeReadOfBeWrite(v);
    }
  }

  /** `sum()` on the records of a series of `inset`s adds up the byte-swapped values. */
  lemma RecordsReadTotal(vs: seq<nat>)
    ensures ReadTotal(Records(vs)) == SwappedTotal(vs)
  {
    RecordsLeTotal(vs);
    ReadWholeRecords(Records(vs));
  }

  /** Values below 256 come back from the swap multiplied by 2^56. */
  lemma {:induction false} SwappedSmallTotal(vs: seq<nat>)
    requires forall i | 0 <= i < |vs| :: vs[i] < 256
    ensures SwappedTotal(vs) == Total(vs) * Pow256(7)
  {
    if vs != [] {
      var init, v := vs[..|vs| - 1], vs[|vs| - 1];
      assert forall i | 0 <= i < |init| :: init[i] == vs[i];
      SwappedSmallTotal(init);
      SwapSmall(v);
      assert Pow256(7) == 0x100_0000_0000_0000;
      assert SwappedTotal(vs) == SwappedTotal(init) + ByteSwap64(v);
      assert Total(vs) == Total(init) + v;
    }
  }

  /** `new` on an empty file, then `inset` of 3, 4 and 5: the records add up
      to 12 and `sum` holds 12, but the next `sum()` reads 12 * 2^56. */
  lemma InsetsThenSum(vs: seq<nat>)
    requires |vs| == 4 && vs[0] == 0 && vs[1] == 3 && vs[2] == 4 && vs[3] == 5
    ensures SumBe(Records(vs)) == 12
    ensures ReadTotal(Records(vs)) == 12 * Pow256(7)
  {
    ExampleTotal(vs);
    RecordsTotal(vs);
    RecordsReadTotal(vs);
    SwappedSmallTotal(vs);
  }

  lemma ExampleTotal(vs: seq<nat>)
    requires |vs| == 4 && vs[0] == 0 && vs[1] == 3 && vs[2] == 4 && vs[3] == 5
    ensures Total(vs) == 12 && forall i | 0 <= i < |vs| :: vs[i] < 256
  {
    var v3, v2, v1 := vs[..3], vs[..2], vs[..1];
    assert v3[..2] == v2 && v2[..1] == v1 && v1[..0] == [];
    assert Total(v1) == 0;
    assert Total(v2) == 3;
    assert Total(v3) == 7;
  }

  /** `new` on an empty file, then `inset(200)` twice: the records hold 400 and
      `sum` holds 400, but the read loop's total is 400 * 2^56, past `u64::MAX`.
      Since the running total only grows, some `sum +=` of the loop overflows:
      the next `sum()`, or the next `new` on the file, panics in a debug build
      and wraps in a release build. */
  lemma TwoInsetsOverflowSum(vs: seq<nat>)
    requires |vs| == 3 && vs[0] == 0 && vs[1] == 200 && vs[2] == 200
    ensures SumBe(Records(vs)) == 400
    ensures ReadTotal(Records(vs)) == 400 * Pow256(7)
    ensures !IsU64(ReadTotal(Records(vs)))
  {
    var v2, v1 := vs[..2], vs[..1];
    assert v2[..1] == v1 && v1[..0] == [];
    assert v2[1] == 200 && v1[0] == 0;
    assert Total(v1) == 0;
    assert Total(v2) == 200;
    assert Total(vs) == 400;
    assert forall i | 0 <= i < |vs| :: vs[i] < 256;
    RecordsTotal(vs);
    RecordsReadTotal(vs);
    SwappedSmallTotal(vs);
    assert Pow256(7) == 0x100_0000_0000_0000;
  }

  /** The total the read loop evidently should compute: the records read
      big-endian. Compacting keeps it, and each `inset` adds its value. */
  lemma CorrectedTotalCompacts(log: seq<byte>)
    requires IsU64(SumBe(log))
    ensures SumBe(BeBytes(SumBe(log), 8)) == SumBe(log)
  {
    SumBeAppend([], SumBe(log));
    assert [] + BeBytes(SumBe(log), 8) == BeBytes(SumBe(log), 8);
  }

  /** Appending the record of `v` adds `v` to the total the log records. */
  lemma RecordKeepsTotal(log: seq<byte>, sum: nat, v: nat)
    requires IsU64(v)
    ensures |log| % 8 == 0 && sum == SumBe(log) ==>
      |log + BeBytes(v, 8)| % 8 == 0 && sum + v == SumBe(log + BeBytes(v, 8))
  {
    if |log| % 8 == 0 {
      SumBeAppend(log, v);
    }
  }

  // ------------------------------------------------------ the file object

  /** The failure points of `sum()`. */
  datatype SumFault =
    | NoFault
    | OpenFails            // opening the file for reading
    | ReadFailsAt(k: nat)  // the read call number `k`, counting from 0
    | ReopenFails          // opening it again to truncate it
    | WriteFails           // writing the total back
    | SyncFails            // syncing the file

  /** Whether `sum()` stops before it has read the whole file. */
  predicate ReadPhaseFails(log: seq<byte>, fault: SumFault)
  {
    fault.OpenFails? || (fault.ReadFailsAt? && fault.k < Reads(|log|))
  }

  /** The error context `sum()` returns, if any. */
  function SumError(log: seq<byte>, fault: SumFault): (e: Option<string>)
    ensures ReadPhaseFails(log, fault) ==> e.Some?
    ensures e.None? <==> fault.NoFault? || (fault.ReadFailsAt? && !ReadPhaseFails(log, fault))
  {
    match fault
    case NoFault => None
    case OpenFails => Some("open")
    case ReadFailsAt(k) => if k < Reads(|log|) then Some("read") else None
    case ReopenFails => Some("open")
    case WriteFails => Some("write_u64")
    case SyncFails => Some("sync_all")
  }

  /** The file contents after `sum()` on `log`. */
  function LogAfterSum(log: seq<byte>, fault: SumFault): (r: seq<byte>)
    ensures SumError(log, fault).None? ==> r == BeBytes(ReadTotal(log), 8)
  {
    if ReadPhaseFails(log, fault) || fault.ReopenFails? then log
    else if fault.WriteFails? then []
    else BeBytes(ReadTotal(log), 8)
  }

  /** The file as `new` opens it: created empty when absent. */
  function Disk(existing: Option<seq<byte>>): seq<byte>
  {
    if existing.Some? then existing.value else []
  }

  class SumSizeFile {
    const path: string
    var sum: nat
    /** The contents of the file at `path`. */
    var log: seq<byte>

    ghost predicate Valid()
      reads this
    {
      IsU64(sum)
    }

    /** `sum` is the total the records of the log hold. */
    ghost predicate Consistent()
      reads this
    {
      |log| % 8 == 0 && sum == SumBe(log)
    }

    /** The struct literal of `new`: `sum` starts at 0. */
    constructor (path: string, contents: seq<byte>)
      ensures this.path == path && sum == 0 && log == contents && Valid()
    {
      this.path := path;
      sum := 0;
      log := contents;
    }

    /** `SumSizeFile::new`: open the file (creating it when absent), then run
        `sum()`. `disk` is what the file system holds at `path` afterwards,
        also when `new` fails: a failing rewrite in `sum()` has already
        truncated the file. */
    static method New(path: string, existing: Option<seq<byte>>, createFails: bool, fault: SumFault)
      returns (r: Result<SumSizeFile>, disk: Option<seq<byte>>)
      requires IsU64(ReadTotal(Disk(existing)))
      ensures createFails ==> r == Err("open") && disk == existing
      ensures !createFails ==> disk == Some(LogAfterSum(Disk(existing), fault))
      ensures !createFails ==> (r.Err? <==> SumError(Disk(existing), fault).Some?)
      ensures !createFails && r.Err? ==> r.context == SumError(Disk(existing), fault).value
      ensures r.Ok? ==> fresh(r.value) && r.value.path == path && r.value.Valid()
      ensures r.Ok? ==> r.value.sum == ReadTotal(Disk(existing)) && r.value.log == BeBytes(r.value.sum, 8)
      ensures r.Ok? ==> disk == Some(r.value.log)
    {
      if createFails {
        return Err("open"), existing;
      }
      var f := new SumSizeFile(path, Disk(existing));
      var s := f.Sum(fault);
      disk := Some(f.log);
      if s.Err? {
        return Err(s.context), disk;
      }
      r := Ok(f);
    }

    /** `inset`: encode `value` big-endian into an 8-byte buffer, append the
        buffer to the file and add `value` to `sum`. The addition must not
        overflow a u64, which would panic. */
    method Inset(value: nat, writeFails: bool) returns (r: Result<()>)
      requires Valid() && IsU64(sum + value)
      modifies this
      ensures Valid()
      ensures writeFails ==> r == Err("write") && sum == old(sum) && log == old(log)
      ensures !writeFails ==> r == Ok(()) && sum == old(sum) + value && log == old(log) + BeBytes(value, 8)
      ensures old(Consistent()) ==> Consistent()
    {
      var buffer := new byte[8](_ => 0);
      assert buffer[..] == Zeros(8);
      var cursor := new Cursor(buffer);
      // `write_u64` into the 8-byte buffer always fits
      var ok := cursor.WriteAll(BeBytes(value, 8));
      assert ok;
      FillRecord(value);
      var rec := buffer[..];
      if writeFails {
        return Err("write");
      }
      RecordKeepsTotal(log, sum, value);
      log := log + rec;
      sum := sum + value;
      r := Ok(());
    }

    /** `get_cursor`: the current `sum`, changing nothing. */
    method GetCursor() returns (r: nat)
      requires Valid()
      ensures r == sum && IsU64(r)
    {
      r := sum;
    }

    /** The read loop of `sum()` over the file contents `contents`: 8-byte
        reads into one buffer, each decoded little-endian and added up, until a
        read returns 0 bytes. `failed` reports that read number `k` failed. */
    static method ReadLoop(contents: seq<byte>, fault: SumFault) returns (failed: bool, total: nat)
      ensures failed <==> fault.ReadFailsAt? && fault.k < Reads(|contents|)
      ensures !failed ==> total == ReadTotal(contents)
    {
      var buffer := new byte[8](_ => 0);
      assert buffer[..] == Zeros(8);
      assert contents[0..] == contents;
      total := 0;
      var offset: nat := 0;
      var calls: nat := 0;
      while true
        invariant offset <= |contents| && buffer.Length == 8
        invariant total + ScanTotal(contents[offset..], buffer[..]) == ReadTotal(contents)
        invariant calls + Reads(|contents| - offset) == Reads(|contents|)
        invariant fault.ReadFailsAt? ==> calls <= fault.k
        decreases |contents| - offset
      {
        if fault == ReadFailsAt(calls) {
          return true, total;
        }
        // `file.read` fills the front of the buffer with the next bytes
        var n := Min(8, |contents| - offset);
        ghost var prev := buffer[..];
        for j := 0 to n
          invariant forall i | 0 <= i < 8 :: buffer[i] == if i < j then contents[offset + i] else prev[i]
        {
          buffer[j] := contents[offset + j];
        }
        assert buffer[..] == contents[offset..][..n] + prev[n..];
        calls := calls + 1;
        if n == 0 {
          break;
        }
        total := total + FromLe(buffer[..]);
        assert contents[offset..][n..] == contents[offset + n..];
        offset := offset + n;
      }
      failed := false;
    }

    /** `sum()`: rescan the file in 8-byte reads, set `sum` to the total,
        truncate the file and write the total back big-endian. The total must
        fit in a u64, since the addition panics on overflow. */
    method Sum(fault: SumFault) returns (r: Result<()>)
      requires Valid() && IsU64(ReadTotal(log))
      modifies this
      ensures Valid()
      ensures r.Err? <==> SumError(old(log), fault).Some?
      ensures r.Err? ==> r.context == SumError(old(log), fault).value
      ensures ReadPhaseFails(old(log), fault) ==> sum == old(sum)
      ensures !ReadPhaseFails(old(log), fault) ==> sum == ReadTotal(old(log))
      ensures log == LogAfterSum(old(log), fault)
      ensures r.Ok? ==> log == BeBytes(sum, 8)
    {
      if fault == OpenFails {
        return Err("open");
      }
      var failed, total := ReadLoop(log, fault);
      if failed {
        return Err("read");
      }
      sum := total;
      if fault == ReopenFails {
        return Err("open");
      }
      log := [];
      if fault == WriteFails {
        return Err("write_u64");
      }
      log := BeBytes(total, 8);
      if fault == SyncFails {
        return Err("sync_all");
      }
      r := Ok(());
    }
  }
}
