/** The loops of src/common/base64.c over their buffers. */
module Base64Codec {
  import opened Lines
  import opened Base64
  import opened Base64Lengths
  import opened Buffers

  /** base64_get_encode_length */
  method GetEncodeLength(c: Context, n: nat) returns (len: nat)
    ensures len == EncodeLength(c, n)
  {
    len := (n + 2) / 3 * 4;
    if c.lineLength != 0 {
      var lines := TruncDiv(len + c.lineLength - 1, c.lineLength) - 1;
      if lines > 0 { len := len + lines * |c.separator|; }
    }
  }

  lemma Sextets(x: Byte, y: Byte, z: Byte, n: nat, n1: nat, n2: nat, n3: nat)
    requires n == x * 65536 + y * 256 + z && n1 == n / 64 && n2 == n1 / 64 && n3 == n2 / 64
    ensures n % 64 == z % 64 && n1 % 64 == y % 16 * 4 + z / 64
    ensures n2 % 64 == x % 4 * 16 + y / 16 && n3 % 64 == x / 4
  {
    assert n1 == x * 1024 + y * 4 + z / 64;
    assert n2 == x * 16 + y / 16;
    assert n3 == x / 4;
  }

  /** One group of three in the encoding loop. */
  method PutGroup(c: Context, x: Byte, y: Byte, z: Byte, dest: array<Byte>, n: nat, linePos: int, ghost k: nat)
    returns (n': nat, linePos': int)
    requires |c.valueToChar| == 64 && linePos == LinePos(c, k) && n + |Break(c, k)| + 4 <= dest.Length
    modifies dest
    ensures linePos' == LinePos(c, k + 1) && n' == n + |Break(c, k)| + 4
    ensures dest[..n'] == old(dest[..n]) + Break(c, k) + Quad(c, x, y, z)
    ensures forall i | n' <= i < dest.Length :: dest[i] == old(dest[i])
  {
    n', linePos' := n, linePos + 4;
    if linePos' > c.lineLength {
      if c.lineLength != 0 {
        Put(dest, n, c.separator);
        n' := n + |c.separator|;
      }
      linePos' := 4;
    }
    var combined := x * 65536 + y * 256 + z;
    var n1, n2, n3 := combined / 64, combined / 64 / 64, combined / 64 / 64 / 64;
    Sextets(x, y, z, combined, n1, n2, n3);
    Put(dest, n', [c.valueToChar[n3 % 64], c.valueToChar[n2 % 64],
                   c.valueToChar[n1 % 64], c.valueToChar[combined % 64]]);
    n' := n' + 4;
  }

  lemma {:induction false} BodyFits(c: Context, s: seq<Byte>, i: nat, n: nat)
    requires |c.valueToChar| == 64 && i < n && 3 * n <= |s|
    ensures |Body(c, s, i)| + |Break(c, i)| + 4 <= |Body(c, s, n)|
    decreases n
  {
    if i < n - 1 { BodyFits(c, s, i, n - 1); }
  }

  /** The encoding loop over the whole groups. */
  method PutGroups(c: Context, src: seq<Byte>, groups: nat, dest: array<Byte>) returns (n: nat, linePos: int)
    requires |c.valueToChar| == 64 && 3 * groups <= |src| && |Body(c, src, groups)| <= dest.Length
    modifies dest
    ensures n == |Body(c, src, groups)| && dest[..n] == Body(c, src, groups)
    ensures linePos == LinePos(c, groups)
    ensures forall i | n <= i < dest.Length :: dest[i] == old(dest[i])
  {
    n, linePos := 0, 0;
    for k := 0 to groups
      invariant n == |Body(c, src, k)| <= |Body(c, src, groups)| && dest[..n] == Body(c, src, k)
      invariant linePos == LinePos(c, k)
      invariant forall i | n <= i < dest.Length :: dest[i] == old(dest[i])
    {
      BodyFits(c, src, k, groups);
      BodyMore(c, src, k);
      n, linePos := PutGroup(c, src[3 * k], src[3 * k + 1], src[3 * k + 2], dest, n, linePos, k);
    }
  }

  /** The switch at the end of base64_encode_ex: pads, or a shorter text. */
  method Finish(c: Context, ghost lead: seq<Byte>, r: seq<Byte>, dest: array<Byte>, n: nat, pad: bool)
    returns (len: nat)
    requires |c.valueToChar| == 64 && 0 < |r| < 3 && n == |lead| + 4 < dest.Length && dest[n] == 0
    requires dest[..n] == lead + Quad(c, r[0], if |r| == 2 then r[1] else 0, 0)
    modifies dest
    ensures len == |lead + Last(c, r, pad)| && dest[..len] == lead + Last(c, r, pad) && dest[len] == 0
    ensures forall i | n < i < dest.Length :: dest[i] == old(dest[i])
  {
    ghost var text := dest[..n];
    if |r| == 1 {
      if pad {
        dest[n - 1] := c.pad;
        dest[n - 2] := c.pad;
        len := n;
        assert dest[..n] == text[..n - 2] + [c.pad, c.pad];
      } else {
        dest[n - 2] := 0;
        len := n - 2;
        assert dest[..len] == text[..n - 2];
      }
    } else if pad {
      dest[n - 1] := c.pad;
      len := n;
      assert dest[..n] == text[..n - 1] + [c.pad];
    } else {
      dest[n - 1] := 0;
      len := n - 1;
      assert dest[..len] == text[..n - 1];
    }
  }

  /** base64_encode_ex */
  method EncodeEx(c: Context, src: seq<Byte>, dest: array<Byte>, pad: bool) returns (len: nat)
    requires |c.valueToChar| == 64 && |Encode(c, src, true)| < dest.Length
    modifies dest
    ensures len == |Encode(c, src, pad)| && dest[..len] == Encode(c, src, pad) && dest[len] == 0
    ensures forall i | |Encode(c, src, true)| < i < dest.Length :: dest[i] == old(dest[i])
  {
    var groups, left := |src| / 3, |src| % 3;
    var n, linePos := PutGroups(c, src, groups, dest);
    if left == 0 {
      dest[n] := 0;
      return n;
    }
    var r := Rest(src);
    var y := if left == 2 then r[1] else 0;
    n, linePos := PutGroup(c, r[0], y, 0, dest, n, linePos, groups);
    dest[n] := 0;
    len := Finish(c, Lead(c, src), r, dest, n, pad);
  }

  // ---------------------------------------------------------------- decoding

  /** What the accumulator holds in the middle of a group. */
  ghost function Joined(group: seq<Entry>): (n: nat) {
    if group == [] then 0 else Joined(group[..|group| - 1]) * 64 + Bits(group[|group| - 1])
  }

  lemma JoinedMore(group: seq<Entry>, v: Entry)
    ensures Joined(group + [v]) == Joined(group) * 64 + Bits(v)
  {
    assert (group + [v])[..|group|] == group;
  }

  /** Shifting and masking the accumulator gives the three bytes. */
  lemma JoinedTriple(group: seq<Entry>)
    requires |group| == 4
    ensures
      var n := Joined(group);
      n < 0x100_0000 && [n / 65536, n / 256 % 256, n % 256] == Triple(group[0], group[1], group[2], group[3])
  {
    var w, x, y, z := Bits(group[0]), Bits(group[1]), Bits(group[2]), Bits(group[3]);
    assert group == [] + [group[0]] + [group[1]] + [group[2]] + [group[3]];
    JoinedMore([], group[0]);
    JoinedMore([group[0]], group[1]);
    JoinedMore([group[0], group[1]], group[2]);
    JoinedMore([group[0], group[1], group[2]], group[3]);
    assert group == [group[0], group[1], group[2]] + [group[3]];
    assert Joined(group) == ((w * 64 + x) * 64 + y) * 64 + z;
    Octets(w, x, y, z, Joined(group));
  }

  lemma Octets(w: nat, x: nat, y: nat, z: nat, n: nat)
    requires w < 64 && x < 64 && y < 64 && z < 64 && n == ((w * 64 + x) * 64 + y) * 64 + z
    ensures n / 65536 == w * 4 + x / 16 && n / 256 % 256 == x % 16 * 16 + y / 4 && n % 256 == y % 4 * 64 + z
  {
    assert n == (w * 1024 + x * 16 + y / 4) * 256 + (y % 4 * 64 + z);
    assert n / 256 == (w * 4 + x / 16) * 256 + (x % 16 * 16 + y / 4);
  }

  lemma {:induction false} RunGrows(c: Context, d: Decoder, s: seq<Byte>)
    requires Sized(c) && Sound(d)
    ensures |Run(c, d, s).bytes| >= |d.bytes|
  {
    if s != [] { RunGrows(c, d, s[..|s| - 1]); }
  }

  lemma RunUpTo(c: Context, s: seq<Byte>, i: nat)
    requires Sized(c) && i < |s|
    ensures
      var d := Run(c, START, s[..i + 1]);
      d == Step(c, Run(c, START, s[..i]), s[i]) && |d.bytes| <= |Run(c, START, s).bytes|
  {
    assert s[..i + 1] == s[..i] + [s[i]];
    RunMore(c, START, s[..i], s[i]);
    assert s == s[..i + 1] + s[i + 1..];
    RunConcat(c, START, s[..i + 1], s[i + 1..]);
    RunGrows(c, Run(c, START, s[..i + 1]), s[i + 1..]);
  }

  /** One regular character in the decoding loop. */
  method Shift(dest: array<Byte>, n: nat, cycle: nat, combined: nat, value: nat, ghost d: Decoder, ghost v: Entry)
    returns (n': nat, cycle': nat, combined': nat)
    requires |d.group| == cycle < 4 && n == |d.bytes| <= dest.Length && dest[..n] == d.bytes
    requires cycle > 0 ==> combined == Joined(d.group)
    requires value == Bits(v) && (cycle == 3 ==> n + 3 <= dest.Length)
    modifies dest
    ensures cycle < 3 ==> n' == n && cycle' == cycle + 1 && dest[..n'] == d.bytes && combined' == Joined(d.group + [v])
    ensures cycle == 3 ==> n' == n + 3 && cycle' == 0
    ensures cycle == 3 ==> dest[..n'] == d.bytes + Triple(d.group[0], d.group[1], d.group[2], v)
  {
    JoinedMore(d.group, v);
    combined' := if cycle == 0 then value else combined * 64 + value;
    if cycle == 3 {
      JoinedTriple(d.group + [v]);
      Put(dest, n, [combined' / 65536, combined' / 256 % 256, combined' % 256]);
      n', cycle' := n + 3, 0;
    } else {
      n', cycle' := n, cycle + 1;
    }
  }

  /** base64_decode; with more pads than bytes the reported length is negative and the terminator
      falls in front of dest. */
  method DecodeText(c: Context, src: seq<Byte>, dest: array<Byte>) returns (len: int)
    requires Sized(c) && |Decode(c, src).bytes| < dest.Length
    modifies dest
    ensures len == Decode(c, src).length
    ensures len >= 0 ==> dest[len] == 0 && dest[..len] == Decode(c, src).bytes[..len]
    ensures len < 0 ==> dest[..|Decode(c, src).bytes|] == Decode(c, src).bytes
  {
    var n, cycle, combined, dummies := 0, 0, 0, 0;
    ghost var d := START;
    for i := 0 to |src|
      invariant d == Run(c, START, src[..i]) && |d.group| == cycle < 4 && dummies == d.pads
      invariant n == |d.bytes| <= dest.Length && dest[..n] == d.bytes
      invariant cycle > 0 ==> combined == Joined(d.group)
    {
      RunUpTo(c, src, i);
      var value := c.charToValue[src[i]];
      if value != IGNORE {
        if value == PAD { dummies := dummies + 1; }
        n, cycle, combined := Shift(dest, n, cycle, combined, if value == PAD then 0 else value, d, value);
      }
      d := Step(c, d, src[i]);
    }
    assert src[..|src|] == src;
    if cycle != 0 {
      dest[0] := 0;
      return 0;
    }
    len := n - dummies;
    if len >= 0 { dest[len] := 0; }
  }

  /** base64_decode_auto */
  method DecodeAutoText(c: Context, src: seq<Byte>, dest: array<Byte>) returns (len: int)
    requires Sized(c) && |DecodeAuto(c, src).bytes| < dest.Length
    modifies dest
    ensures len == DecodeAuto(c, src).length
    ensures len >= 0 ==> dest[len] == 0 && dest[..len] == DecodeAuto(c, src).bytes[..len]
    ensures len < 0 ==> dest[..|DecodeAuto(c, src).bytes|] == DecodeAuto(c, src).bytes
  {
    var remain := |src| % 4;
    if remain == 0 {
      assert src + Repeat(c.pad, 0) == src;
      len := DecodeText(c, src, dest);
    } else {
      len := DecodeText(c, src + Repeat(c.pad, 4 - remain), dest);
    }
  }
}
