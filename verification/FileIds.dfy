/** File names and file ids (src/dataserver/ds_file.c, src/common/shared_func.c, src/include/lfs_define.h). */
module FileIds {
  import opened Lines
  import opened Options
  import Base64

  // ---------------------------------------------------------------- numbers in big-endian buffers

  ghost function Power(k: nat): (p: nat)
    ensures p > 0
  {
    if k == 0 then 1 else 256 * Power(k - 1)
  }

  /** int2buff and long2buff: the low k bytes of n in two's complement, most significant first. */
  function ToBuff(n: int, k: nat): (s: seq<Byte>)
    ensures |s| == k
    decreases k
  {
    if k == 0 then [] else ToBuff(n / 256, k - 1) + [n % 256]
  }

  /** buff2int and buff2long before the result is read as signed. */
  function FromBuff(s: seq<Byte>): (n: nat) {
    if s == [] then 0 else FromBuff(s[..|s| - 1]) * 256 + s[|s| - 1]
  }

  /** n and m are the same number of k bytes. */
  ghost predicate Same(n: int, m: int, k: nat) {
    exists q: int :: n == m + q * Power(k)
  }

  lemma {:induction false} BuffRoundTrip(n: int, k: nat)
    ensures FromBuff(ToBuff(n, k)) < Power(k) && Same(n, FromBuff(ToBuff(n, k)), k)
    decreases k
  {
    if k == 0 {
      assert n == 0 + n * Power(0);
    } else {
      BuffRoundTrip(n / 256, k - 1);
      var m := FromBuff(ToBuff(n / 256, k - 1));
      var q :| n / 256 == m + q * Power(k - 1);
      assert ToBuff(n, k)[..k - 1] == ToBuff(n / 256, k - 1);
      Scale(q, Power(k - 1));
      assert n == m * 256 + n % 256 + q * Power(k);
    }
  }

  lemma DivTwice(n: int, p: nat)
    requires p > 0
    ensures n / 256 / p == n / (256 * p)
  {
    var q, r := n / 256 / p, n / 256 % p;
    var t := n % 256;
    assert n == 256 * (q * p + r) + t;
    Quotient(n, 256 * p, q, 256 * r + t);
  }

  lemma Quotient(n: int, m: nat, q: int, r: nat)
    requires r < m && n == q * m + r
    ensures n / m == q
  {
    var d := n / m - q;
    assert d * m == r - n % m;
    Bound(d, m);
    Bound(-d, m);
  }

  /** The bytes are the digits to base 256, the most significant first. */
  lemma {:induction false} BuffDigit(n: int, k: nat, i: nat)
    requires i < k
    ensures ToBuff(n, k)[i] == n / Power(k - 1 - i) % 256
    decreases k
  {
    if i < k - 1 {
      BuffDigit(n / 256, k - 1, i);
      DivTwice(n, Power(k - 2 - i));
    }
  }

  lemma Scale(q: int, p: nat)
    ensures q * p * 256 == q * (256 * p)
  {
  }

  /** The signed number of k bytes with these bits. */
  function Signed(n: nat, k: nat): (m: int) {
    if k == 8 then (if n < 0x8000_0000_0000_0000 then n else n - 0x1_0000_0000_0000_0000)
    else if n < 0x8000_0000 then n else n - 0x1_0000_0000
  }

  ghost predicate Fits(n: int, k: nat) {
    if k == 8 then -0x8000_0000_0000_0000 <= n < 0x8000_0000_0000_0000 else -0x8000_0000 <= n < 0x8000_0000
  }

  lemma Powers48()
    ensures Power(4) == 0x1_0000_0000 && Power(8) == 0x1_0000_0000_0000_0000
  {
    assert Power(1) == 256 && Power(2) == 65536;
    assert Power(3) == 256 * Power(2) && Power(4) == 256 * Power(3);
    assert Power(5) == 256 * Power(4) && Power(6) == 256 * Power(5);
    assert Power(7) == 256 * Power(6) && Power(8) == 256 * Power(7);
  }

  lemma Centre(n: int, m: nat, q: int, p: nat)
    requires m < p && n == m + q * p && 0 <= 2 * n + p && 2 * n < p
    ensures q == 0 || q == -1
  {
    Bound(q, p);
  }

  lemma Bound(q: int, p: nat)
    ensures q >= 1 ==> q * p >= p
    ensures q <= -2 ==> q * p + 2 * p <= 0
  {
  }

  /** Every signed number survives its buffer. */
  lemma NumberRoundTrip(n: int, k: nat)
    requires (k == 4 || k == 8) && Fits(n, k)
    ensures Signed(FromBuff(ToBuff(n, k)), k) == n
  {
    BuffRoundTrip(n, k);
    Powers48();
    var m := FromBuff(ToBuff(n, k));
    var q :| n == m + q * Power(k);
    Centre(n, m, q, Power(k));
  }

  // ---------------------------------------------------------------- the base64 name of a file

  /** What file_metedata_unpack reads back. */
  datatype Meta = Meta(created: int, modified: int, offset: int, size: int, crc32: int)

  ghost predicate Storable(m: Meta) {
    Fits(m.created, 8) && Fits(m.modified, 8) && Fits(m.offset, 8) && Fits(m.size, 8) && Fits(m.crc32, 4)
  }

  /** __fileidname_pack before the encoding: eight bytes of machine id, then the numbers. */
  function Pack(machine: seq<Byte>, m: Meta): (s: seq<Byte>)
    requires |machine| == 8
    ensures |s| == 44
  {
    machine + ToBuff(m.created, 8) + ToBuff(m.modified, 8) + ToBuff(m.offset, 8) + ToBuff(m.size, 8)
    + ToBuff(m.crc32, 4)
  }

  function Number(s: seq<Byte>, from: nat, k: nat): (n: int)
    requires from + k <= |s|
  {
    Signed(FromBuff(s[from..from + k]), k)
  }

  /** file_metedata_unpack of decoded bytes. */
  function Unpack(s: seq<Byte>): (m: Meta)
    requires |s| == 44
  {
    Meta(Number(s, 8, 8), Number(s, 16, 8), Number(s, 24, 8), Number(s, 32, 8), Number(s, 40, 4))
  }

  lemma Middle(pre: seq<Byte>, x: seq<Byte>, post: seq<Byte>, s: seq<Byte>)
    requires s == pre + x + post
    ensures s[|pre|..|pre| + |x|] == x
  {
  }

  lemma FrontHalf(a: seq<Byte>, c: seq<Byte>, d: seq<Byte>, o: seq<Byte>, z: seq<Byte>, x: seq<Byte>, s: seq<Byte>)
    requires s == a + c + d + o + z + x && |a| == |c| == |d| == 8
    ensures s[..8] == a && s[8..16] == c && s[16..24] == d
  {
    assert s == [] + a + (c + d + o + z + x) && s == a + c + (d + o + z + x) && s == (a + c) + d + (o + z + x);
    Middle([], a, c + d + o + z + x, s);
    Middle(a, c, d + o + z + x, s);
    Middle(a + c, d, o + z + x, s);
  }

  lemma BackHalf(a: seq<Byte>, c: seq<Byte>, d: seq<Byte>, o: seq<Byte>, z: seq<Byte>, x: seq<Byte>, s: seq<Byte>)
    requires s == a + c + d + o + z + x && |a| == |c| == |d| == |o| == |z| == 8 && |x| == 4
    ensures s[24..32] == o && s[32..40] == z && s[40..44] == x
  {
    assert s == (a + c + d) + o + (z + x) && s == (a + c + d + o) + z + x && s == (a + c + d + o + z) + x + [];
    Middle(a + c + d, o, z + x, s);
    Middle(a + c + d + o, z, x, s);
    Middle(a + c + d + o + z, x, [], s);
  }

  /** The layout of a name: the machine id, two times, offset, size and checksum. */
  lemma PackLayout(machine: seq<Byte>, m: Meta, s: seq<Byte>)
    requires |machine| == 8 && s == Pack(machine, m)
    ensures s[..8] == machine && s[8..16] == ToBuff(m.created, 8) && s[16..24] == ToBuff(m.modified, 8)
    ensures s[24..32] == ToBuff(m.offset, 8) && s[32..40] == ToBuff(m.size, 8) && s[40..44] == ToBuff(m.crc32, 4)
  {
    var c, d, o := ToBuff(m.created, 8), ToBuff(m.modified, 8), ToBuff(m.offset, 8);
    var z, x := ToBuff(m.size, 8), ToBuff(m.crc32, 4);
    FrontHalf(machine, c, d, o, z, x, s);
    BackHalf(machine, c, d, o, z, x, s);
  }

  lemma NumberIn(s: seq<Byte>, from: nat, k: nat, n: int)
    requires (k == 4 || k == 8) && Fits(n, k) && from + k <= |s| && s[from..from + k] == ToBuff(n, k)
    ensures Number(s, from, k) == n
  {
    NumberRoundTrip(n, k);
  }

  lemma PackRoundTrip(machine: seq<Byte>, m: Meta)
    requires |machine| == 8 && Storable(m)
    ensures Unpack(Pack(machine, m)) == m
  {
    var s := Pack(machine, m);
    PackLayout(machine, m, s);
    NumberIn(s, 8, 8, m.created);
    NumberIn(s, 16, 8, m.modified);
    NumberIn(s, 24, 8, m.offset);
    NumberIn(s, 32, 8, m.size);
    NumberIn(s, 40, 4, m.crc32);
  }

  /** The metadata in a file's name is read back exactly. */
  lemma NameRoundTrip(c: Base64.Context, machine: seq<Byte>, m: Meta)
    requires Base64.Valid(c) && |machine| == 8 && Storable(m)
    ensures
      var d := Base64.Decode(c, Base64.Encode(c, Pack(machine, m), true));
      d.length == 44 && |d.bytes| >= 44 && Unpack(d.bytes[..44]) == m
  {
    var s := Pack(machine, m);
    Base64.RoundTrip(c, s);
    PackRoundTrip(machine, m);
    var d := Base64.Decode(c, Base64.Encode(c, s, true));
    assert d.bytes[..44] == s;
  }

  // ---------------------------------------------------------------- the file id

  function HexDigit(d: nat): (c: char)
    requires d < 16
  {
    if d < 10 then ('0' as int + d) as char else ('A' as int + d - 10) as char
  }

  function Hex(n: nat): (s: string) {
    if n < 16 then [HexDigit(n)] else Hex(n / 16) + [HexDigit(n % 16)]
  }

  const HEX_DIGITS := "0123456789ABCDEF"

  /** The number that a text of hexadecimal digits stands for. */
  ghost predicate Denotes(s: string, n: nat) {
    && s != ""
    && (if |s| == 1 then n < 16 && s[0] == HEX_DIGITS[n]
        else n >= 16 && s[|s| - 1] == HEX_DIGITS[n % 16] && Denotes(s[..|s| - 1], n / 16))
  }

  lemma {:induction false} HexDenotes(n: nat)
    ensures Denotes(Hex(n), n)
  {
    DigitIs(n % 16);
    if n >= 16 { HexDenotes(n / 16); }
  }

  lemma DigitIs(d: nat)
    requires d < 16
    ensures HexDigit(d) == HEX_DIGITS[d]
  {
  }

  /** %02X */
  function Hex2(n: nat): (s: string) {
    if n < 16 then "0" + Hex(n) else Hex(n)
  }

  /** At least two digits, with a zero in front only of a single one. */
  lemma Hex2Is(n: nat)
    ensures |Hex2(n)| >= 2 && (if n < 16 then Hex2(n) == ['0', HEX_DIGITS[n]] else Denotes(Hex2(n), n))
  {
    HexDenotes(n);
    if n < 16 { DigitIs(n); }
  }

  /** atoi of a string without blanks or sign: the value, and whether only digits have been seen. */
  function Scan(s: string): (r: (nat, bool)) {
    if s == "" then (0, true) else
      var (v, open) := Scan(s[..|s| - 1]);
      var c := s[|s| - 1];
      if open && '0' <= c <= '9' then (v * 10 + (c as int - '0' as int), true) else (v, false)
  }

  function Atoi(s: string): (n: nat) {
    Scan(s).0
  }

  lemma ScanMore(s: string, c: char)
    ensures
      var (v, open) := Scan(s);
      Scan(s + [c]) == if open && '0' <= c <= '9' then (v * 10 + (c as int - '0' as int), true) else (v, false)
  {
    assert (s + [c])[..|s|] == s;
  }

  function Decimal(n: nat): (s: string) {
    if n < 10 then [HEX_DIGITS[n]] else Decimal(n / 10) + [HEX_DIGITS[n % 10]]
  }

  lemma DecimalDigit(d: nat)
    requires d < 10
    ensures HEX_DIGITS[d] as int == '0' as int + d
  {
  }

  /** atoi reads every decimal number, and stops at what is no digit. */
  lemma {:induction false} AtoiReads(n: nat, c: char)
    requires !('0' <= c <= '9')
    ensures Scan(Decimal(n)) == (n, true) && Atoi(Decimal(n)) == n && Atoi(Decimal(n) + [c]) == n
  {
    DecimalDigit(n % 10);
    if n < 10 {
      ScanMore("", HEX_DIGITS[n]);
    } else {
      AtoiReads(n / 10, c);
      ScanMore(Decimal(n / 10), HEX_DIGITS[n % 10]);
    }
    ScanMore(Decimal(n), c);
  }

  lemma {:induction false} HexScans(n: nat)
    ensures Atoi(Hex(n)) <= n && (n >= 10 ==> Atoi(Hex(n)) < n)
    ensures n < 10 ==> Scan(Hex(n)) == (n, true)
  {
    if n < 16 {
      ScanMore("", HexDigit(n));
    } else {
      ScanMore(Hex(n / 16), HexDigit(n % 16));
      HexScans(n / 16);
    }
  }

  /** The index is written in hexadecimal and read as decimal: it survives exactly below ten. */
  lemma IndexExact(n: nat)
    ensures Atoi(Hex2(n)) == n <==> n < 10
  {
    HexScans(n);
    if n < 16 {
      ScanMore("", '0');
      ScanMore("0", HexDigit(n));
      assert "" + "0" == "0";
    }
  }

  /** file_metedata_pack: group/volume/Bindex/map name. */
  function FileId(group: string, volume: string, index: nat, mapName: string): (id: string) {
    group + "/" + (volume + "/" + ("B" + Hex2(index) + "/" + mapName))
  }

  /** __mapname_pack: the two directories and the base64 name. */
  function MapName(pre: nat, suf: nat, name: string): (mapName: string) {
    Hex2(pre) + "/" + (Hex2(suf) + "/" + name)
  }

  /** strchr for the separator: what stands before it and what stands after it. */
  function Cut(s: string): (r: Option<(string, string)>) {
    if s == "" then None
    else if s[0] == '/' then Some(("", s[1..]))
    else match Cut(s[1..])
      case None => None
      case Some((a, b)) => Some(([s[0]] + a, b))
  }

  /** The parts of an id: group, volume, block and map name. */
  datatype Parts = Parts(group: string, volume: string, block: string, mapName: string)

  /** LFS_SPLIT_VOLUME_NAME_AND_BLOCK_INDEX_BY_FILE_ID */
  function SplitId(id: string): (r: Option<Parts>) {
    match Cut(id)
    case None => None
    case Some((group, rest)) =>
      match Cut(rest)
      case None => None
      case Some((volume, rest)) =>
        match Cut(rest)
        case None => None
        case Some((block, mapName)) => Some(Parts(group, volume, block, mapName))
  }

  /** LFS_SPLIT_FILE_MAP_NAME */
  function SplitMapName(mapName: string): (r: Option<(string, string, string)>) {
    match Cut(mapName)
    case None => None
    case Some((pre, rest)) =>
      match Cut(rest)
      case None => None
      case Some((suf, name)) => Some((pre, suf, name))
  }

  lemma {:induction false} CutAt(a: string, b: string)
    requires '/' !in a
    ensures Cut(a + "/" + b) == Some((a, b))
  {
    if a == "" {
      assert (a + "/" + b)[1..] == b;
    } else {
      CutAt(a[1..], b);
      assert (a + "/" + b)[1..] == a[1..] + "/" + b;
      assert [a[0]] + a[1..] == a;
    }
  }

  lemma {:induction false} HexHasNoSlash(n: nat)
    ensures '/' !in Hex(n)
  {
    if n >= 16 { HexHasNoSlash(n / 16); }
  }

  lemma Hex2HasNoSlash(n: nat)
    ensures '/' !in Hex2(n)
  {
    HexHasNoSlash(n);
  }

  /** The id splits back into its four parts, and the index, behind the B, is read back exactly below ten. */
  lemma IdRoundTrip(group: string, volume: string, index: nat, mapName: string)
    requires '/' !in group && '/' !in volume
    ensures SplitId(FileId(group, volume, index, mapName)) == Some(Parts(group, volume, "B" + Hex2(index), mapName))
    ensures Atoi(("B" + Hex2(index))[1..]) == index <==> index < 10
  {
    Hex2HasNoSlash(index);
    var block := "B" + Hex2(index);
    assert "B" + Hex2(index) + "/" + mapName == block + "/" + mapName;
    CutAt(group, volume + "/" + (block + "/" + mapName));
    CutAt(volume, block + "/" + mapName);
    CutAt(block, mapName);
    assert block[1..] == Hex2(index);
    IndexExact(index);
  }

  /** So does a map name, whatever the base64 name is. */
  lemma MapNameRoundTrip(pre: nat, suf: nat, name: string)
    ensures SplitMapName(MapName(pre, suf, name)) == Some((Hex2(pre), Hex2(suf), name))
  {
    Hex2HasNoSlash(pre);
    Hex2HasNoSlash(suf);
    CutAt(Hex2(pre), Hex2(suf) + "/" + name);
    CutAt(Hex2(suf), name);
  }
}
