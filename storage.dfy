/** The hash-directory storage of src/storage.rs.

    `dir_by_key` hashes a key with MD5, hex-encodes the digest and turns each
    of the first `level` hex digits into a path component `"/"` followed by
    the digit's decimal value; `upload_file` renames the uploaded file out of
    the temporary directory and returns the path under that directory.

    MD5 and the rename are parameters: `md5` gives the 16-byte digest of a
    key's bytes, `rename` tells whether renaming one path to another succeeds. */
module Storage {
  import opened Results
  import opened Bytes

  type u8 = byte

  type Digest = d: seq<byte> | |d| == 16 witness seq(16, _ => 0)

  datatype RootDir = RootDir(rootDir: string, readWrite: bool)

  datatype Storage = Storage(level: u8, dirCount: u8, rootDirs: seq<RootDir>, tmpDir: string)

  /** `Storage::new`: fixed settings; the argument is not used. */
  function New(dir: string): (s: Storage)
  {
    Storage(2, 16, [], "/tmp")
  }

  lemma NewSettings(dir: string, other: string)
    ensures New(dir).level == 2 && New(dir).dirCount == 16
    ensures New(dir).rootDirs == [] && New(dir).tmpDir == "/tmp"
    ensures New(dir) == New(other)
  {
  }

  // -------------------------------------------------- hex and decimal text

  function HexChar(n: nat): char
    requires n < 16
  {
    if n < 10 then ('0' as int + n) as char else ('a' as int + n - 10) as char
  }

  /** `hex::encode`: two lowercase hex digits per byte, high nibble first. */
  function HexEncode(d: seq<byte>): (h: string)
    ensures |h| == 2 * |d|
  {
    if d == [] then "" else [HexChar(d[0] / 16), HexChar(d[0] % 16)] + HexEncode(d[1..])
  }

  /** `char::to_digit(16)`. */
  function ToDigit16(c: char): (r: Option<nat>)
    ensures r.Some? ==> r.value < 16
  {
    if '0' <= c <= '9' then Some(c as int - '0' as int)
    else if 'a' <= c <= 'f' then Some(c as int - 'a' as int + 10)
    else if 'A' <= c <= 'F' then Some(c as int - 'A' as int + 10)
    else None
  }

  lemma HexCharDigit(n: nat)
    requires n < 16
    ensures ToDigit16(HexChar(n)) == Some(n)
  {
  }

  /** Every character of an encoded digest is a hex digit: high and low
      nibbles of the bytes in turn. */
  lemma {:induction false} HexEncodeDigits(d: seq<byte>)
    ensures forall i | 0 <= i < |HexEncode(d)| ::
      ToDigit16(HexEncode(d)[i]) == Some(if i % 2 == 0 then d[i / 2] / 16 else d[i / 2] % 16)
  {
    if d != [] {
      HexEncodeDigits(d[1..]);
      HexCharDigit(d[0] / 16);
      HexCharDigit(d[0] % 16);
      var h := HexEncode(d);
      var t := HexEncode(d[1..]);
      assert h == [HexChar(d[0] / 16), HexChar(d[0] % 16)] + t;
      forall i | 2 <= i < |h|
        ensures ToDigit16(h[i]) == Some(if i % 2 == 0 then d[i / 2] / 16 else d[i / 2] % 16)
      {
        assert h[i] == t[i - 2];
        assert (i - 2) / 2 == i / 2 - 1 && (i - 2) % 2 == i % 2;
        assert d[1..][i / 2 - 1] == d[i / 2];
      }
    }
  }

  function DigitChar(n: nat): char
    requires n < 10
  {
    ('0' as int + n) as char
  }

  predicate IsDigit(c: char)
  {
    '0' <= c <= '9'
  }

  function DigitValue(c: char): nat
    requires IsDigit(c)
  {
    c as int - '0' as int
  }

  /** `format!("{}", n)`: decimal digits, no leading zero. */
  function Decimal(n: nat): (s: string)
    ensures |s| >= 1 && forall i | 0 <= i < |s| :: IsDigit(s[i])
  {
    if n < 10 then [DigitChar(n)] else Decimal(n / 10) + [DigitChar(n % 10)]
  }

  /** The value of a string of decimal digits. */
  function DecimalValue(s: string): nat
    requires forall i | 0 <= i < |s| :: IsDigit(s[i])
  {
    if s == [] then 0 else DecimalValue(s[..|s| - 1]) * 10 + DigitValue(s[|s| - 1])
  }

  lemma {:induction false} DecimalRoundTrip(n: nat)
    ensures DecimalValue(Decimal(n)) == n
  {
    if n >= 10 {
      DecimalRoundTrip(n / 10);
      var s := Decimal(n);
      assert s[..|s| - 1] == Decimal(n / 10);
    }
  }

  // ----------------------------------------------------- the directory path

  /** The path made of one component `"/" + decimal` per value. */
  function Path(vs: seq<nat>): string
  {
    if vs == [] then "" else "/" + Decimal(vs[0]) + Path(vs[1..])
  }

  lemma {:induction false} PathSnoc(vs: seq<nat>, v: nat)
    ensures Path(vs + [v]) == Path(vs) + "/" + Decimal(v)
  {
    if vs == [] {
      assert [] + [v] == [v] && [v][1..] == [];
    } else {
      assert (vs + [v])[1..] == vs[1..] + [v];
      PathSnoc(vs[1..], v);
    }
  }

  /** Every character of `hash` is a hex digit. */
  predicate AllHex(hash: string)
  {
    forall i | 0 <= i < |hash| :: ToDigit16(hash[i]).Some?
  }

  /** The values of the first `level` hex digits of `hash`. */
  function Nibbles(hash: string, level: nat): (vs: seq<nat>)
    requires level <= |hash| && AllHex(hash)
    ensures |vs| == level && forall i | 0 <= i < level :: vs[i] < 16
  {
    seq(level, i requires 0 <= i < level => ToDigit16(hash[i]).value)
  }

  /** The directory `dir_by_key` builds from the hex string `hash`. */
  function DirOf(hash: string, level: nat): (dir: string)
    requires level <= |hash| && AllHex(hash)
    ensures ParseDir(dir) == Some(Nibbles(hash, level))
  {
    ParsePath(Nibbles(hash, level));
    Path(Nibbles(hash, level))
  }

  /** The hex encoding of a digest. */
  function DigestHash(d: Digest): (h: string)
    ensures |h| == 32 && AllHex(h)
  {
    HexEncodeDigits(d);
    HexEncode(d)
  }

  /** The encoded digest of `key`. */
  function KeyHash(key: string, md5: string -> Digest): (h: string)
    ensures |h| == 32 && AllHex(h)
  {
    DigestHash(md5(key))
  }

  /** `dir_by_key`. The loop indexes the 32-character hash, which panics past
      its end, so `level` must not exceed 32; `to_digit(16)` cannot fail on
      the hex encoding. */
  method DirByKey(s: Storage, key: string, md5: string -> Digest) returns (dir: string)
    requires s.level <= 32
    ensures dir == DirOf(KeyHash(key, md5), s.level)
  {
    var hash := HexEncode(md5(key));
    assert hash == KeyHash(key, md5);
    dir := "";
    for i := 0 to s.level
      invariant dir == Path(Nibbles(hash, i))
    {
      var index := ToDigit16(hash[i]).value;
      assert Nibbles(hash, i + 1) == Nibbles(hash, i) + [index];
      PathSnoc(Nibbles(hash, i), index);
      dir := dir + "/" + Decimal(index);
    }
  }

  // ------------------------------------------------ reading a path back

  /** The number of leading decimal digits of `s`. */
  function DigitRun(s: string): (k: nat)
    ensures k <= |s| && forall i | 0 <= i < k :: IsDigit(s[i])
  {
    if s == [] || !IsDigit(s[0]) then 0 else 1 + DigitRun(s[1..])
  }

  /** The component values of a path of `"/" + decimal` components, or
      `None` if `s` is not such a path. */
  function ParseDir(s: string): Option<seq<nat>>
    decreases |s|
  {
    if s == [] then Some([])
    else if s[0] != '/' then None
    else
      var k := DigitRun(s[1..]);
      if k == 0 then None
      else
        match ParseDir(s[1 + k..])
        case None => None
        case Some(rest) => Some([DecimalValue(s[1..1 + k])] + rest)
  }

  lemma {:induction false} DigitRunStops(d: string, rest: string)
    requires forall i | 0 <= i < |d| :: IsDigit(d[i])
    requires rest == [] || rest[0] == '/'
    ensures DigitRun(d + rest) == |d|
  {
    if d != [] {
      assert (d + rest)[1..] == d[1..] + rest;
      DigitRunStops(d[1..], rest);
    } else {
      assert d + rest == rest;
    }
  }

  /** One component `"/" + d` in front of a path or nothing. */
  lemma ParseStep(d: string, rest: string)
    requires |d| >= 1 && forall i | 0 <= i < |d| :: IsDigit(d[i])
    requires rest == [] || rest[0] == '/'
    ensures ParseDir("/" + d + rest)
         == if ParseDir(rest).Some? then Some([DecimalValue(d)] + ParseDir(rest).value) else None
  {
    var s := "/" + d + rest;
    assert s[1..] == d + rest;
    DigitRunStops(d, rest);
    assert s[1..1 + |d|] == d && s[1 + |d|..] == rest;
  }

  /** Parsing a path gives back the values it was built from. */
  lemma {:induction false} ParsePath(vs: seq<nat>)
    ensures ParseDir(Path(vs)) == Some(vs)
  {
    if vs != [] {
      var rest := Path(vs[1..]);
      assert rest == [] || rest[0] == '/';
      ParseStep(Decimal(vs[0]), rest);
      DecimalRoundTrip(vs[0]);
      ParsePath(vs[1..]);
      assert [vs[0]] + vs[1..] == vs;
    }
  }

  /** The directory of a key has exactly `level` components, component `i`
      being the value of hex digit `i` of the digest, each below 16. */
  lemma DirComponents(key: string, md5: string -> Digest, level: nat)
    requires level <= 32
    ensures var vs := ParseDir(DirOf(KeyHash(key, md5), level));
      && vs.Some? && |vs.value| == level
      && forall i | 0 <= i < level :: vs.value[i] < 16 && vs.value[i] == ToDigit16(KeyHash(key, md5)[i]).value
  {
    ParsePath(Nibbles(KeyHash(key, md5), level));
  }

  /** Two-level directories: keys share one exactly when the first bytes of
      their digests agree, so there are 256 directories, one per byte value. */
  lemma TwoLevelDirs(k1: string, k2: string, md5: string -> Digest)
    ensures DirOf(KeyHash(k1, md5), 2) == DirOf(KeyHash(k2, md5), 2) <==> md5(k1)[0] == md5(k2)[0]
  {
    var h1, h2 := KeyHash(k1, md5), KeyHash(k2, md5);
    HexEncodeDigits(md5(k1));
    HexEncodeDigits(md5(k2));
    var n1, n2 := Nibbles(h1, 2), Nibbles(h2, 2);
    assert n1 == [md5(k1)[0] / 16, md5(k1)[0] % 16];
    assert n2 == [md5(k2)[0] / 16, md5(k2)[0] % 16];
    if Path(n1) == Path(n2) {
      ParsePath(n1);
      ParsePath(n2);
      var a, b := md5(k1)[0], md5(k2)[0];
      assert a == 16 * (a / 16) + a % 16;
      assert b == 16 * (b / 16) + b % 16;
    }
  }

  /** The directory of a byte value as the first digest byte, for `level` 2. */
  lemma EveryByteHasDir(n: nat)
    requires n < 256
    ensures exists d: Digest :: d[0] == n && DirOf(DigestHash(d), 2) == Path([n / 16, n % 16])
  {
    var d: Digest := [n] + seq(15, _ => 0);
    HexEncodeDigits(d);
    assert Nibbles(DigestHash(d), 2) == [n / 16, n % 16];
  }

  // ---------------------------------------------------------- upload_file

  /** The path `upload_file` renames the uploaded file to. */
  function UploadTarget(s: Storage, name: string, md5: string -> Digest): string
    requires s.level <= 32
  {
    DirOf(KeyHash(name, md5), s.level)
  }

  /** `upload_file`: rename `tmp_dir/name` to the key's directory and return
      the path of `name` inside that directory. */
  method UploadFile(s: Storage, name: string, md5: string -> Digest, rename: (string, string) -> bool)
    returns (r: Result<string>)
    requires s.level <= 32
    ensures var dir := DirOf(KeyHash(name, md5), s.level);
      r == if rename(s.tmpDir + "/" + name, dir) then Ok(dir + "/" + name) else Err("rename")
  {
    var dir := DirByKey(s, name, md5);
    if !rename(s.tmpDir + "/" + name, dir) {
      return Err("rename");
    }
    r := Ok(dir + "/" + name);
  }

  /** The path `upload_file` returns is never the path it renamed the file to. */
  lemma UploadTargetDiffers(s: Storage, name: string, md5: string -> Digest)
    requires s.level <= 32
    ensures UploadTarget(s, name, md5) + "/" + name != UploadTarget(s, name, md5)
  {
  }

  /** `upload_file` as evidently intended: rename the file to the path it returns. */
  function IntendedUpload(s: Storage, name: string, md5: string -> Digest, rename: (string, string) -> bool): (r: Result<string>)
    requires s.level <= 32
    ensures r.Ok? ==> rename(s.tmpDir + "/" + name, r.value)
    ensures r.Ok? ==> |r.value| > |UploadTarget(s, name, md5)| && r.value[..|UploadTarget(s, name, md5)|] == UploadTarget(s, name, md5)
    ensures r.Err? <==> !rename(s.tmpDir + "/" + name, UploadTarget(s, name, md5) + "/" + name)
  {
    var path := UploadTarget(s, name, md5) + "/" + name;
    if rename(s.tmpDir + "/" + name, path) then Ok(path) else Err("rename")
  }
}
