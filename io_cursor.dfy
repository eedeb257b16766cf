/** `std::io::Cursor` over a fixed, caller-owned byte buffer, as the core uses
    it: `write_all` copies as many bytes as still fit, advances the position by
    that many and reports failure (`WriteZero`) when some bytes did not fit. */
module IoCursor {
  import opened Bytes

  function Min(a: nat, b: nat): nat { if a <= b then a else b }

  /** `buf` after writing the part of `data` that fits at position `at`. */
  function Overwrite(buf: seq<byte>, at: nat, data: seq<byte>): (r: seq<byte>)
    requires at <= |buf|
    ensures |r| == |buf|
    ensures forall i | 0 <= i < |buf| ::
      r[i] == if at <= i < at + Min(|data|, |buf| - at) then data[i - at] else buf[i]
  {
    var k := Min(|data|, |buf| - at);
    buf[..at] + data[..k] + buf[at + k..]
  }

  lemma OverwriteFitting(buf: seq<byte>, at: nat, data: seq<byte>)
    requires at + |data| <= |buf|
    ensures Overwrite(buf, at, data) == buf[..at] + data + buf[at + |data|..]
  {
    assert data[..|data|] == data;
  }

  class Cursor {
    const buf: array<byte>
    var pos: nat

    ghost predicate Valid()
      reads this
    {
      pos <= buf.Length
    }

    constructor (buf: array<byte>)
      ensures this.buf == buf && pos == 0 && Valid()
    {
      this.buf := buf;
      pos := 0;
    }

    method WriteAll(data: seq<byte>) returns (ok: bool)
      requires Valid()
      modifies this, buf
      ensures Valid()
      ensures ok <==> old(pos) + |data| <= buf.Length
      ensures pos == old(pos) + Min(|data|, buf.Length - old(pos))
      ensures buf[..] == Overwrite(old(buf[..]), old(pos), data)
    {
      var k := Min(|data|, buf.Length - pos);
      for j := 0 to k
        invariant pos == old(pos)
        invariant forall i | 0 <= i < buf.Length ::
          buf[i] == if pos <= i < pos + j then data[i - pos] else old(buf[i])
      {
        buf[pos + j] := data[j];
      }
      assert buf[..] == Overwrite(old(buf[..]), pos, data);
      pos := pos + k;
      ok := k == |data|;
    }
  }
}
