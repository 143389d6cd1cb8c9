/** Base64 with a configurable alphabet, pad and line break (src/common/base64.c). */
module Base64 {
  import opened Lines

  /** An entry of the decoding table: a six-bit value, or one of two marks. */
  type Entry = v: int | -2 <= v < 64

  const IGNORE: Entry := -1
  const PAD: Entry := -2

  /** struct base64_context_st */
  datatype Context = Context(
    lineLength: int, separator: seq<Byte>, valueToChar: seq<Byte>, charToValue: seq<Entry>, pad: Byte)

  ghost predicate Sized(c: Context) {
    |c.valueToChar| == 64 && |c.charToValue| == 256
  }

  /** The tables invert each other; the pad, and the separator if it is ever written, stand outside
      the alphabet. */
  ghost predicate Valid(c: Context) {
    && Sized(c)
    && (forall i | 0 <= i < 64 :: Inverse(c, i))
    && c.charToValue[c.pad] == PAD
    && (c.lineLength == 0 || Skipped(c, c.separator))
  }

  ghost predicate Inverse(c: Context, i: nat)
    requires Sized(c) && i < 64
  {
    c.charToValue[c.valueToChar[i]] == i
  }

  ghost predicate Skipped(c: Context, s: seq<Byte>)
    requires Sized(c)
  {
    s == [] || (c.charToValue[s[|s| - 1]] == IGNORE && Skipped(c, s[..|s| - 1]))
  }

  /** The i-th letter of the alphabet. */
  function Letter(i: nat, plus: Byte, slash: Byte): (b: Byte)
    requires i < 64
  {
    if i < 26 then 65 + i else if i < 52 then 97 + i - 26 else if i < 62 then 48 + i - 52
    else if i == 62 then plus else slash
  }

  predicate Alphanumeric(b: Byte) {
    48 <= b < 58 || 65 <= b < 91 || 97 <= b < 123
  }

  /** The table entry of b once the first n letters have been entered: the last one wins. */
  ghost predicate Latest(letters: seq<Byte>, n: nat, b: Byte, e: Entry)
    requires n <= |letters|
  {
    if e == IGNORE then b !in letters[..n]
    else 0 <= e < n && letters[e] == b && forall j | e < j < n :: letters[j] != b
  }

  /** base64_init_ex */
  method InitEx(lineLength: int, plus: Byte, slash: Byte, pad: Byte) returns (c: Context)
    ensures Filled(c, plus, slash) && c.lineLength == lineLength && c.separator == [NEWLINE] && c.pad == pad
    ensures RoundTrips(c) <==> Usable(lineLength, [NEWLINE], plus, slash, pad)
  {
    var letters := FillLetters(plus, slash);
    var table: seq<Entry> := seq(256, _ => IGNORE);
    for i := 0 to 64
      invariant |table| == 256
      invariant forall b: Byte :: Latest(letters, i, b, table[b])
    {
      assert letters[..i + 1] == letters[..i] + [letters[i]];
      table := table[letters[i] := i];
    }
    c := Context(lineLength, [NEWLINE], letters, table[pad := PAD], pad);
    RoundTripExact(c, plus, slash);
  }

  /** Letters, digits and the three further characters. */
  predicate Taken(b: Byte, plus: Byte, slash: Byte, pad: Byte) {
    Alphanumeric(b) || b in [plus, slash, pad]
  }

  /** Three further characters that differ from each other and from the letters and digits, and
      that, like those, do not occur in the separator if there are lines at all. */
  predicate Usable(lineLength: int, separator: seq<Byte>, plus: Byte, slash: Byte, pad: Byte) {
    && plus != slash && plus != pad && slash != pad
    && !Alphanumeric(plus) && !Alphanumeric(slash) && !Alphanumeric(pad)
    && (lineLength == 0 || forall i | 0 <= i < |separator| :: !Taken(separator[i], plus, slash, pad))
  }

  /** The tables that base64_init_ex leaves in the context, whatever line length and separator are
      set later. */
  ghost predicate Filled(c: Context, plus: Byte, slash: Byte) {
    && Sized(c) && c.charToValue[c.pad] == PAD
    && (forall i | 0 <= i < 64 :: c.valueToChar[i] == Letter(i, plus, slash))
    && forall b: Byte | b != c.pad :: Latest(c.valueToChar, 64, b, c.charToValue[b])
  }

  /** The place of a letter or digit in the alphabet. */
  ghost function PlaceOf(b: Byte): (i: nat)
    requires Alphanumeric(b)
    ensures i < 62 && forall plus, slash :: Letter(i, plus, slash) == b
  {
    if b < 58 then b + 4 else if b < 91 then b - 65 else b - 71
  }

  /** Characters are ignored exactly when they are not taken. */
  lemma IgnoredIsFree(c: Context, plus: Byte, slash: Byte, b: Byte)
    requires Filled(c, plus, slash)
    ensures c.charToValue[b] == IGNORE <==> !Taken(b, plus, slash, c.pad)
  {
    var letters := c.valueToChar;
    assert letters[..64] == letters;
    if Alphanumeric(b) {
      assert letters[PlaceOf(b)] == b;
    } else if b in letters {
      var i :| 0 <= i < 64 && letters[i] == b;
      assert letters[i] == Letter(i, plus, slash);
    }
    assert letters[62] == plus && letters[63] == slash;
  }

  lemma {:induction false} SkippedIsFree(c: Context, plus: Byte, slash: Byte, s: seq<Byte>)
    requires Filled(c, plus, slash)
    ensures Skipped(c, s) <==> forall i | 0 <= i < |s| :: !Taken(s[i], plus, slash, c.pad)
  {
    if s != [] {
      SkippedIsFree(c, plus, slash, s[..|s| - 1]);
      IgnoredIsFree(c, plus, slash, s[|s| - 1]);
    }
  }

  lemma LetterOnce(i: nat, j: nat, plus: Byte, slash: Byte, pad: Byte)
    requires i < 64 && j < 64 && Usable(0, [], plus, slash, pad) && Letter(i, plus, slash) == Letter(j, plus, slash)
    ensures i == j && Letter(i, plus, slash) != pad
  {
  }

  lemma UsableInverts(c: Context, plus: Byte, slash: Byte, i: nat)
    requires Filled(c, plus, slash) && Usable(0, [], plus, slash, c.pad) && i < 64
    ensures Inverse(c, i)
  {
    var b := c.valueToChar[i];
    LetterOnce(i, i, plus, slash, c.pad);
    assert b in c.valueToChar[..64];
    var e := c.charToValue[b];
    assert Latest(c.valueToChar, 64, b, e);
    LetterOnce(i, e, plus, slash, c.pad);
  }

  lemma InvertsUsable(c: Context, plus: Byte, slash: Byte)
    requires Filled(c, plus, slash) && forall i | 0 <= i < 64 :: Inverse(c, i)
    ensures Usable(0, [], plus, slash, c.pad)
  {
    assert Inverse(c, 62) && Inverse(c, 63);
    forall b: Byte | Alphanumeric(b) ensures 0 <= c.charToValue[b] < 62 {
      assert Inverse(c, PlaceOf(b));
    }
  }

  /** The tables invert each other, with everything else outside, exactly when the characters are usable. */
  lemma InitExact(c: Context, plus: Byte, slash: Byte)
    requires Filled(c, plus, slash)
    ensures Valid(c) <==> Usable(c.lineLength, c.separator, plus, slash, c.pad)
  {
    SkippedIsFree(c, plus, slash, c.separator);
    if Valid(c) { InvertsUsable(c, plus, slash); }
    if Usable(0, [], plus, slash, c.pad) {
      forall i | 0 <= i < 64 ensures Inverse(c, i) {
        UsableInverts(c, plus, slash, i);
      }
    }
  }

  /** The alphabet loops of base64_init_ex. */
  method FillLetters(plus: Byte, slash: Byte) returns (letters: seq<Byte>)
    ensures |letters| == 64 && forall i | 0 <= i < 64 :: letters[i] == Letter(i, plus, slash)
  {
    letters := seq(64, _ => 0);
    for i := 0 to 26
      invariant |letters| == 64 && forall j | 0 <= j < i :: letters[j] == Letter(j, plus, slash)
    {
      letters := letters[i := 65 + i];
    }
    for i := 0 to 26
      invariant |letters| == 64 && forall j | 0 <= j < 26 + i :: letters[j] == Letter(j, plus, slash)
    {
      letters := letters[i + 26 := 97 + i];
    }
    for i := 0 to 10
      invariant |letters| == 64 && forall j | 0 <= j < 52 + i :: letters[j] == Letter(j, plus, slash)
    {
      letters := letters[i + 52 := 48 + i];
    }
    letters := letters[62 := plus][63 := slash];
  }

  /** Four letters spell three bytes, most significant bits first. */
  function Quad(c: Context, x: Byte, y: Byte, z: Byte): (q: seq<Byte>)
    requires |c.valueToChar| == 64
  {
    [c.valueToChar[x / 4], c.valueToChar[x % 4 * 16 + y / 16],
     c.valueToChar[y % 16 * 4 + z / 64], c.valueToChar[z % 64]]
  }

  /** The letters on the current line after n groups. */
  function LinePos(c: Context, n: nat): (p: int) {
    if n == 0 then 0
    else if LinePos(c, n - 1) + 4 > c.lineLength then 4 else LinePos(c, n - 1) + 4
  }

  /** What comes before group n. */
  function Break(c: Context, n: nat): (s: seq<Byte>) {
    if LinePos(c, n) + 4 > c.lineLength && c.lineLength != 0 then c.separator else []
  }

  /** The encoding of the first n groups of three. */
  function Body(c: Context, s: seq<Byte>, n: nat): (e: seq<Byte>)
    requires |c.valueToChar| == 64 && 3 * n <= |s|
  {
    if n == 0 then []
    else 
      var i := 3 * (n - 1);
      Body(c, s, n - 1) + Break(c, n - 1) + Quad(c, s[i], s[i + 1], s[i + 2])
  }

  function Repeat(b: Byte, k: nat): (s: seq<Byte>)
    ensures |s| == k && forall i | 0 <= i < k :: s[i] == b
  {
    seq(k, _ => b)
  }

  /** One or two bytes left over: zero bits complete them, pads replace the letters left out. */
  function Last(c: Context, r: seq<Byte>, padded: bool): (e: seq<Byte>)
    requires |c.valueToChar| == 64 && 0 < |r| < 3
    ensures |e| == if padded then 4 else |r| + 1
  {
    Quad(c, r[0], if |r| == 2 then r[1] else 0, 0)[..|r| + 1] + Repeat(c.pad, if padded then 3 - |r| else 0)
  }

  function Rest(s: seq<Byte>): (r: seq<Byte>)
    ensures |r| == |s| % 3
  {
    s[|s| - |s| % 3..]
  }

  /** The encoding up to the point where the bytes left over begin. */
  function Lead(c: Context, s: seq<Byte>): (e: seq<Byte>)
    requires |c.valueToChar| == 64
  {
    var n := |s| / 3;
    if |s| % 3 == 0 then Body(c, s, n) else Body(c, s, n) + Break(c, n)
  }

  /** What base64_encode_ex leaves in dest. */
  function Encode(c: Context, s: seq<Byte>, padded: bool): (e: seq<Byte>)
    requires |c.valueToChar| == 64
  {
    if |s| % 3 == 0 then Lead(c, s) else Lead(c, s) + Last(c, Rest(s), padded)
  }

  /** A pad counts as zero bits. */
  function Bits(v: Entry): (n: nat)
    ensures n < 64
  {
    if v < 0 then 0 else v
  }

  /** Three bytes out of four six-bit values. */
  function Triple(w: Entry, x: Entry, y: Entry, z: Entry): (t: seq<Byte>)
    ensures |t| == 3
  {
    [Bits(w) * 4 + Bits(x) / 16, Bits(x) % 16 * 16 + Bits(y) / 4, Bits(y) % 4 * 64 + Bits(z)]
  }

  /** The bytes put out, the values of the group under way, and the pads met. */
  datatype Decoder = Decoder(bytes: seq<Byte>, group: seq<Entry>, pads: nat)

  const START := Decoder([], [], 0)

  ghost predicate Sound(d: Decoder) {
    |d.group| < 4
  }

  function Step(c: Context, d: Decoder, b: Byte): (r: Decoder)
    requires Sized(c) && Sound(d)
    ensures Sound(r)
  {
    var v := c.charToValue[b];
    var pads := if v == PAD then d.pads + 1 else d.pads;
    if v == IGNORE then d
    else if |d.group| < 3 then Decoder(d.bytes, d.group + [v], pads)
    else Decoder(d.bytes + Triple(d.group[0], d.group[1], d.group[2], v), [], pads)
  }

  function Run(c: Context, d: Decoder, s: seq<Byte>): (r: Decoder)
    requires Sized(c) && Sound(d)
    ensures Sound(r)
  {
    if s == [] then d else Step(c, Run(c, d, s[..|s| - 1]), s[|s| - 1])
  }

  /** What base64_decode leaves in dest, and the length it reports. */
  datatype Decoded = Decoded(bytes: seq<Byte>, length: int)

  function Decode(c: Context, s: seq<Byte>): (d: Decoded)
    requires Sized(c)
  {
    var r := Run(c, START, s);
    Decoded(r.bytes, if r.group == [] then |r.bytes| - r.pads else 0)
  }

  /** base64_decode_auto: fill up to a multiple of four first. */
  function DecodeAuto(c: Context, s: seq<Byte>): (d: Decoded)
    requires Sized(c)
  {
    Decode(c, s + Repeat(c.pad, (4 - |s| % 4) % 4))
  }

  /** The caller reads the first `length` bytes. */
  ghost predicate Yields(d: Decoded, s: seq<Byte>) {
    d.length == |s| && s <= d.bytes
  }

  // ---------------------------------------------------------------- round trip

  lemma {:induction false} RunConcat(c: Context, d: Decoder, s: seq<Byte>, t: seq<Byte>)
    requires Sized(c) && Sound(d)
    ensures Run(c, d, s + t) == Run(c, Run(c, d, s), t)
  {
    if t == [] {
      assert s + t == s;
    } else {
      var t' := t[..|t| - 1];
      RunConcat(c, d, s, t');
      assert (s + t)[..|s + t| - 1] == s + t';
    }
  }

  lemma {:induction false} RunSkipped(c: Context, d: Decoder, s: seq<Byte>)
    requires Sized(c) && Sound(d) && Skipped(c, s)
    ensures Run(c, d, s) == d
  {
    if s != [] { RunSkipped(c, d, s[..|s| - 1]); }
  }

  lemma RunMore(c: Context, d: Decoder, s: seq<Byte>, b: Byte)
    requires Sized(c) && Sound(d)
    ensures Run(c, d, s + [b]) == Step(c, Run(c, d, s), b)
  {
    assert (s + [b])[..|s|] == s;
  }

  ghost function Pad(v: Entry): nat {
    if v == PAD then 1 else 0
  }

  lemma RunFour(c: Context, bytes: seq<Byte>, pads: nat, w: Byte, x: Byte, y: Byte, z: Byte)
    requires Sized(c)
    requires
      var t := c.charToValue;
      t[w] != IGNORE && t[x] != IGNORE && t[y] != IGNORE && t[z] != IGNORE
    ensures
      var t := c.charToValue;
      var r := Run(c, Decoder(bytes, [], pads), [w, x, y, z]);
      && r.bytes == bytes + Triple(t[w], t[x], t[y], t[z]) && r.group == []
      && r.pads == pads + Pad(t[w]) + Pad(t[x]) + Pad(t[y]) + Pad(t[z])
  {
    var d := Decoder(bytes, [], pads);
    RunMore(c, d, [], w);
    RunMore(c, d, [w], x);
    RunMore(c, d, [w, x], y);
    RunMore(c, d, [w, x, y], z);
    assert [w, x, y, z] == [w, x, y] + [z] && [w, x, y] == [w, x] + [y] && [w, x] == [w] + [x] && [w] == [] + [w];
  }

  lemma Recombine(x: Byte, y: Byte, z: Byte)
    ensures Triple(x / 4, x % 4 * 16 + y / 16, y % 16 * 4 + z / 64, z % 64) == [x, y, z]
  {
    assert (x % 4 * 16 + y / 16) / 16 == x % 4 && (x % 4 * 16 + y / 16) % 16 == y / 16;
    assert (y % 16 * 4 + z / 64) / 4 == y % 16 && (y % 16 * 4 + z / 64) % 4 == z / 64;
  }

  /** The values of the four letters recombine to the three bytes. */
  lemma QuadTriple(c: Context, x: Byte, y: Byte, z: Byte)
    requires Valid(c)
    ensures
      var q := Quad(c, x, y, z);
      var t := c.charToValue;
      && (forall i | 0 <= i < 4 :: 0 <= t[q[i]] < 64)
      && Triple(t[q[0]], t[q[1]], t[q[2]], t[q[3]]) == [x, y, z]
      && (z == 0 ==> t[q[3]] == 0) && (y == z == 0 ==> t[q[2]] == 0)
  {
    assert Inverse(c, x / 4) && Inverse(c, x % 4 * 16 + y / 16);
    assert Inverse(c, y % 16 * 4 + z / 64) && Inverse(c, z % 64);
    Recombine(x, y, z);
  }

  /** The text e stands for these bytes and ends between two groups. */
  ghost predicate Reads(c: Context, e: seq<Byte>, bytes: seq<Byte>, pads: nat)
    requires Sized(c)
  {
    Run(c, START, e) == Decoder(bytes, [], pads)
  }

  lemma {:induction false} ReadsBody(c: Context, s: seq<Byte>, n: nat)
    requires Valid(c) && 3 * n <= |s|
    ensures Reads(c, Body(c, s, n), s[..3 * n], 0)
  {
    if n == 0 {
      ReadsNothing(c, Body(c, s, 0), s[..3 * n]);
    } else {
      ReadsBody(c, s, n - 1);
      ReadsMore(c, s, n, Body(c, s, n - 1), s[..3 * (n - 1)]);
    }
  }

  lemma ReadsNothing(c: Context, e: seq<Byte>, bytes: seq<Byte>)
    requires Sized(c) && e == [] && bytes == []
    ensures Reads(c, e, bytes, 0)
  {
  }

  lemma ReadsMore(c: Context, s: seq<Byte>, n: nat, e: seq<Byte>, bytes: seq<Byte>)
    requires Valid(c) && 0 < 3 * n <= |s|
    requires e == Body(c, s, n - 1) && bytes == s[..3 * (n - 1)] && Reads(c, e, bytes, 0)
    ensures Reads(c, Body(c, s, n), s[..3 * n], 0)
  {
    var i := 3 * (n - 1);
    ThreeMore(s, n);
    assert Body(c, s, n) == e + Break(c, n - 1) + Quad(c, s[i], s[i + 1], s[i + 2]);
    ReadsGroup(c, e, bytes, n - 1, s[i], s[i + 1], s[i + 2], Body(c, s, n), s[..3 * n]);
  }

  lemma ThreeMore(s: seq<Byte>, n: nat)
    requires 0 < 3 * n <= |s|
    ensures
      var i := 3 * (n - 1);
      s[..3 * n] == s[..i] + [s[i], s[i + 1], s[i + 2]]
  {
  }

  lemma BreakSkipped(c: Context, n: nat)
    requires Valid(c)
    ensures Skipped(c, Break(c, n))
  {
  }

  lemma ReadsGroup(c: Context, e: seq<Byte>, bytes: seq<Byte>, n: nat, x: Byte, y: Byte, z: Byte,
                   e': seq<Byte>, bytes': seq<Byte>)
    requires Valid(c) && Reads(c, e, bytes, 0)
    requires e' == e + Break(c, n) + Quad(c, x, y, z) && bytes' == bytes + [x, y, z]
    ensures Reads(c, e', bytes', 0)
  {
    var gap, q := Break(c, n), Quad(c, x, y, z);
    QuadTriple(c, x, y, z);
    RunConcat(c, START, e, gap);
    BreakSkipped(c, n);
    RunSkipped(c, Run(c, START, e), gap);
    RunConcat(c, START, e + gap, q);
    RunFour(c, bytes, 0, q[0], q[1], q[2], q[3]);
  }

  lemma ReadsGap(c: Context, e: seq<Byte>, bytes: seq<Byte>, n: nat)
    requires Valid(c) && Reads(c, e, bytes, 0)
    ensures Reads(c, e + Break(c, n), bytes, 0)
  {
    RunConcat(c, START, e, Break(c, n));
    BreakSkipped(c, n);
    RunSkipped(c, Run(c, START, e), Break(c, n));
  }

  lemma ReadsLead(c: Context, s: seq<Byte>)
    requires Valid(c)
    ensures Reads(c, Lead(c, s), s[..|s| - |s| % 3], 0)
  {
    var n := |s| / 3;
    assert 3 * n == |s| - |s| % 3;
    ReadsBody(c, s, n);
    ReadsGap(c, Body(c, s, n), s[..3 * n], n);
  }

  /** The values of the last group when pads replace the letters left out. */
  lemma LastTriple(c: Context, r: seq<Byte>, q: seq<Byte>)
    requires Valid(c) && 0 < |r| < 3 && q == Last(c, r, true)
    ensures
      var t := c.charToValue;
      && t[q[0]] >= 0 && t[q[1]] >= 0 && t[q[3]] == PAD
      && (if |r| == 2 then t[q[2]] >= 0 else t[q[2]] == PAD)
      && Triple(t[q[0]], t[q[1]], t[q[2]], t[q[3]]) == r + Repeat(0, 3 - |r|)
  {
    var y := if |r| == 2 then r[1] else 0;
    QuadTriple(c, r[0], y, 0);
    assert r + Repeat(0, 3 - |r|) == [r[0], y, 0];
  }

  /** The pads stand for the zero bits that completed the last group. */
  lemma ReadsLast(c: Context, e: seq<Byte>, bytes: seq<Byte>, r: seq<Byte>)
    requires Valid(c) && Reads(c, e, bytes, 0) && 0 < |r| < 3
    ensures Reads(c, e + Last(c, r, true), bytes + (r + Repeat(0, 3 - |r|)), 3 - |r|)
  {
    var q := Last(c, r, true);
    LastTriple(c, r, q);
    RunConcat(c, START, e, q);
    assert q == [q[0], q[1], q[2], q[3]];
    RunFour(c, bytes, 0, q[0], q[1], q[2], q[3]);
  }

  /** base64_decode undoes a padded base64_encode_ex. */
  lemma RoundTrip(c: Context, s: seq<Byte>)
    requires Valid(c)
    ensures Yields(Decode(c, Encode(c, s, true)), s)
  {
    ReadsLead(c, s);
    if |s| % 3 != 0 { ReadsLast(c, Lead(c, s), s[..|s| - |s| % 3], Rest(s)); }
  }

  lemma {:induction false} RunLength(c: Context, d: Decoder, s: seq<Byte>)
    requires Sized(c) && Sound(d) && forall i | 0 <= i < |s| :: c.charToValue[s[i]] != IGNORE
    ensures |Run(c, d, s).group| == (|d.group| + |s|) % 4
  {
    if s != [] { RunLength(c, d, s[..|s| - 1]); }
  }

  // ---------------------------------------------------------------- and exactly when

  /** Decoding undoes every padded encoding. */
  ghost predicate RoundTrips(c: Context)
    requires Sized(c)
  {
    forall s: seq<Byte> :: ComesBack(c, s)
  }

  ghost predicate ComesBack(c: Context, s: seq<Byte>)
    requires Sized(c)
  {
    Yields(Decode(c, Encode(c, s, true)), s)
  }

  /** No letter is skipped. */
  ghost predicate Solid(c: Context) {
    Sized(c) && forall i | 0 <= i < 64 :: c.charToValue[c.valueToChar[i]] != IGNORE
  }

  lemma FilledIsSolid(c: Context, plus: Byte, slash: Byte)
    requires Filled(c, plus, slash)
    ensures Solid(c)
  {
    forall i | 0 <= i < 64 ensures c.charToValue[c.valueToChar[i]] != IGNORE {
      IgnoredIsFree(c, plus, slash, c.valueToChar[i]);
    }
  }

  lemma QuadSolid(c: Context, x: Byte, y: Byte, z: Byte) returns (q: seq<Byte>)
    requires Solid(c)
    ensures q == Quad(c, x, y, z) && |q| == 4 && q[0] == c.valueToChar[x / 4]
    ensures forall i | 0 <= i < 4 :: c.charToValue[q[i]] != IGNORE
  {
    q := Quad(c, x, y, z);
  }

  lemma BodyMore(c: Context, s: seq<Byte>, n: nat)
    requires |c.valueToChar| == 64 && 3 * n + 3 <= |s|
    ensures Body(c, s, n + 1) == Body(c, s, n) + Break(c, n) + Quad(c, s[3 * n], s[3 * n + 1], s[3 * n + 2])
    ensures |Body(c, s, n + 1)| == |Body(c, s, n)| + |Break(c, n)| + 4
  {
  }

  lemma WholeGroups(c: Context, s: seq<Byte>, n: nat)
    requires |c.valueToChar| == 64 && |s| == 3 * n
    ensures Encode(c, s, true) == Body(c, s, n)
  {
    assert |s| / 3 == n && |s| % 3 == 0;
  }

  /** Four letters behind a text that ends between two groups. */
  lemma FourMore(c: Context, e: seq<Byte>, d: Decoder, q: seq<Byte>, e': seq<Byte>)
    requires Sized(c) && Run(c, START, e) == d && d.group == [] && e' == e + q
    requires |q| == 4 && forall i | 0 <= i < 4 :: c.charToValue[q[i]] != IGNORE
    ensures
      var t, r := c.charToValue, Run(c, START, e');
      && r.bytes == d.bytes + Triple(t[q[0]], t[q[1]], t[q[2]], t[q[3]]) && r.group == []
      && r.pads == d.pads + Pad(t[q[0]]) + Pad(t[q[1]]) + Pad(t[q[2]]) + Pad(t[q[3]])
  {
    RunConcat(c, START, e, q);
    assert q == [q[0], q[1], q[2], q[3]];
    RunFour(c, d.bytes, d.pads, q[0], q[1], q[2], q[3]);
  }

  /** If the first letter stands for anything but i, the bytes do not begin with 4 * i. */
  lemma FirstByte(c: Context, q: seq<Byte>, i: nat)
    requires Sized(c) && |q| == 4 && i < 64 && c.charToValue[q[0]] != i
    requires forall k | 0 <= k < 4 :: c.charToValue[q[k]] != IGNORE
    ensures
      var t := c.charToValue;
      Pad(t[q[0]]) > 0 || Triple(t[q[0]], t[q[1]], t[q[2]], t[q[3]])[0] != 4 * i
  {
  }

  /** A letter that does not come back spoils the text whose only group begins with it. */
  lemma LetterLost(c: Context, i: nat)
    requires Solid(c) && i < 64 && !Inverse(c, i) && Skipped(c, Break(c, 0))
    ensures !RoundTrips(c)
  {
    var s: seq<Byte> := [4 * i, 0, 0];
    var q := QuadSolid(c, 4 * i, 0, 0);
    BodyMore(c, s, 0);
    WholeGroups(c, s, 1);
    RunSkipped(c, START, Break(c, 0));
    FourMore(c, Break(c, 0), START, q, Encode(c, s, true));
    FirstByte(c, q, i);
    assert !ComesBack(c, s);
  }

  /** The first group that begins a new line. */
  ghost function FirstBreak(c: Context): (n: nat) {
    if c.lineLength < 4 then 0 else c.lineLength / 4
  }

  lemma {:induction false} FirstLine(c: Context, n: nat)
    requires c.lineLength != 0 && n <= FirstBreak(c)
    ensures LinePos(c, n) == 4 * n
    ensures Break(c, n) == if n < FirstBreak(c) then [] else c.separator
  {
    if n > 0 { FirstLine(c, n - 1); }
  }

  /** The text e ends between two groups, after n of them. */
  ghost predicate Level(c: Context, e: seq<Byte>, n: nat)
    requires Sized(c)
  {
    Run(c, START, e).group == [] && |Run(c, START, e).bytes| == 3 * n
  }

  lemma LevelNothing(c: Context, e: seq<Byte>)
    requires Sized(c) && e == []
    ensures Level(c, e, 0)
  {
  }

  lemma LevelMore(c: Context, e: seq<Byte>, n: nat, q: seq<Byte>, e': seq<Byte>)
    requires Sized(c) && Level(c, e, n) && e' == e + q
    requires |q| == 4 && forall i | 0 <= i < 4 :: c.charToValue[q[i]] != IGNORE
    ensures Level(c, e', n + 1)
  {
    FourMore(c, e, Run(c, START, e), q, e');
  }

  lemma FirstLineMore(c: Context, s: seq<Byte>, n: nat, e: seq<Byte>)
    requires Solid(c) && c.lineLength != 0 && n < FirstBreak(c) && 3 * n + 3 <= |s|
    requires e == Body(c, s, n) && Level(c, e, n)
    ensures Level(c, Body(c, s, n + 1), n + 1)
  {
    var q := QuadSolid(c, s[3 * n], s[3 * n + 1], s[3 * n + 2]);
    FirstLine(c, n);
    BodyMore(c, s, n);
    LevelMore(c, e, n, q, Body(c, s, n + 1));
  }

  /** The first line is decoded group by group. */
  lemma {:induction false} FirstLineReads(c: Context, s: seq<Byte>, n: nat)
    requires Solid(c) && c.lineLength != 0 && n <= FirstBreak(c) && 3 * n <= |s|
    ensures Level(c, Body(c, s, n), n)
  {
    if n == 0 {
      LevelNothing(c, Body(c, s, 0));
    } else {
      FirstLineReads(c, s, n - 1);
      FirstLineMore(c, s, n - 1, Body(c, s, n - 1));
    }
  }

  /** Every character that is not skipped adds to the group under way or completes it. */
  lemma {:induction false} RunCounts(c: Context, d: Decoder, s: seq<Byte>)
    requires Sized(c) && Sound(d)
    ensures
      var r := Run(c, d, s);
      && d.bytes <= r.bytes
      && 4 * |d.bytes| + 3 * |d.group| <= 4 * |r.bytes| + 3 * |r.group|
      && (4 * |d.bytes| + 3 * |d.group| == 4 * |r.bytes| + 3 * |r.group| <==> Skipped(c, s))
  {
    if s != [] { RunCounts(c, d, s[..|s| - 1]); }
  }

  /** The encoding of a text that ends with the first group of its second line. */
  lemma TwoLines(c: Context, s: seq<Byte>, n: nat) returns (q: seq<Byte>)
    requires Solid(c) && c.lineLength != 0 && n == FirstBreak(c) && |s| == 3 * n + 3
    ensures Encode(c, s, true) == Body(c, s, n) + c.separator + q
    ensures |q| == 4 && forall i | 0 <= i < 4 :: c.charToValue[q[i]] != IGNORE
  {
    q := QuadSolid(c, s[3 * n], s[3 * n + 1], s[3 * n + 2]);
    FirstLine(c, n);
    BodyMore(c, s, n);
    WholeGroups(c, s, n + 1);
  }

  /** The text e leaves a group open, or has decoded to something else than s. */
  ghost predicate Wrong(c: Context, e: seq<Byte>, s: seq<Byte>, n: nat)
    requires Sized(c) && n < |s|
  {
    var d := Run(c, START, e);
    d.group != [] || (|d.bytes| > n && d.bytes[n] != s[n])
  }

  lemma StaysWrong(c: Context, e: seq<Byte>, q: seq<Byte>, s: seq<Byte>, n: nat)
    requires Sized(c) && |q| == 4 && (forall i | 0 <= i < 4 :: c.charToValue[q[i]] != IGNORE)
    requires n < |s| && Wrong(c, e, s, n)
    ensures !Yields(Decode(c, e + q), s)
  {
    var d := Run(c, START, e);
    RunConcat(c, START, e, q);
    RunLength(c, d, q);
    RunCounts(c, d, q);
  }

  /** Behind a separator that is not skipped a group is open, or there are bytes too many: one of two
      texts is not what has been decoded so far. */
  lemma SeparatorCounts(c: Context, e: seq<Byte>, n: nat) returns (x: Byte)
    requires Sized(c) && !Skipped(c, c.separator) && Level(c, e, n)
    ensures forall s: seq<Byte> | |s| > 3 * n && s[3 * n] == x :: Wrong(c, e + c.separator, s, 3 * n)
  {
    RunConcat(c, START, e, c.separator);
    RunCounts(c, Run(c, START, e), c.separator);
    var d := Run(c, START, e + c.separator);
    x := if |d.bytes| > 3 * n && d.bytes[3 * n] == 0 then 1 else 0;
  }

  lemma SecondLineRead(c: Context, s: seq<Byte>, n: nat, e: seq<Byte>)
    requires Solid(c) && c.lineLength != 0 && n == FirstBreak(c) && |s| == 3 * n + 3
    requires e == Body(c, s, n) && Wrong(c, e + c.separator, s, 3 * n)
    ensures !RoundTrips(c)
  {
    var q := TwoLines(c, s, n);
    StaysWrong(c, e + c.separator, q, s, 3 * n);
    assert !ComesBack(c, s);
  }

  /** A separator that is not skipped spoils a text of two lines. */
  lemma SeparatorRead(c: Context)
    requires Solid(c) && c.lineLength != 0 && !Skipped(c, c.separator)
    ensures !RoundTrips(c)
  {
    var n := FirstBreak(c);
    var head: seq<Byte> := Repeat(0, 3 * n);
    FirstLineReads(c, head, n);
    var x := SeparatorCounts(c, Body(c, head, n), n);
    var s: seq<Byte> := head + [x, 0, 0];
    SameBody(c, head, s, n);
    SecondLineRead(c, s, n, Body(c, head, n));
  }

  lemma {:induction false} SameBody(c: Context, s: seq<Byte>, t: seq<Byte>, n: nat)
    requires |c.valueToChar| == 64 && 3 * n <= |s| && s <= t
    ensures Body(c, s, n) == Body(c, t, n)
  {
    if n > 0 { SameBody(c, s, t, n - 1); }
  }

  /** Whatever line length and separator are set on a context of base64_init_ex, decoding undoes every
      padded encoding if and only if the three extra characters are usable. */
  lemma RoundTripExact(c: Context, plus: Byte, slash: Byte)
    requires Filled(c, plus, slash)
    ensures RoundTrips(c) <==> Usable(c.lineLength, c.separator, plus, slash, c.pad)
  {
    InitExact(c, plus, slash);
    FilledIsSolid(c, plus, slash);
    if Valid(c) {
      forall s: seq<Byte> ensures ComesBack(c, s) {
        RoundTrip(c, s);
      }
    } else if c.lineLength != 0 && !Skipped(c, c.separator) {
      SeparatorRead(c);
    } else {
      var i :| 0 <= i < 64 && !Inverse(c, i);
      LetterLost(c, i);
    }
  }

  // ---------------------------------------------------------------- section 4 and section 10 of RFC 4648

  /** With + and / the alphabet is that of RFC 4648: capitals, small letters, digits, each in order, and the two
      signs. */
  lemma StandardAlphabet(i: nat)
    requires i < 61
    ensures Letter(0, 43, 47) == 'A' as int && Letter(26, 43, 47) == 'a' as int && Letter(52, 43, 47) == '0' as int
    ensures Letter(25, 43, 47) == 'Z' as int && Letter(51, 43, 47) == 'z' as int && Letter(61, 43, 47) == '9' as int
    ensures Letter(62, 43, 47) == '+' as int && Letter(63, 43, 47) == '/' as int
    ensures i != 25 && i != 51 ==> Letter(i + 1, 43, 47) == Letter(i, 43, 47) + 1
  {
  }

  /** A context as base64_init_ex makes it for the standard alphabet, with one line. */
  ghost predicate Standard(c: Context) {
    Filled(c, 43, 47) && c.pad == 61 && c.lineLength == 0
  }

  lemma ThreeBytes(c: Context, x: Byte, y: Byte, z: Byte)
    requires Standard(c)
    ensures Encode(c, [x, y, z], true) == Quad(c, x, y, z)
  {
    var s := [x, y, z];
    BodyMore(c, s, 0);
    WholeGroups(c, s, 1);
  }

  lemma SomeLetters(c: Context)
    requires Standard(c)
    ensures Quad(c, 102, 111, 111) == [90, 109, 57, 118]
    ensures Quad(c, 98, 97, 114) == [89, 109, 70, 121]
    ensures Quad(c, 102, 0, 0)[..2] == [90, 103] && Quad(c, 102, 111, 0)[..3] == [90, 109, 56]
  {
  }

  /** The test vectors "f", "fo", "foo" and "foobar". */
  lemma TestVectors(c: Context)
    requires Standard(c)
    ensures Encode(c, [102], true) == [90, 103, 61, 61]
    ensures Encode(c, [102, 111], true) == [90, 109, 56, 61]
    ensures Encode(c, [102, 111, 111], true) == [90, 109, 57, 118]
    ensures Encode(c, [102, 111, 111, 98, 97, 114], true) == [90, 109, 57, 118, 89, 109, 70, 121]
  {
    SomeLetters(c);
    ThreeBytes(c, 102, 111, 111);
    OneByteLeft(c, 102);
    TwoBytesLeft(c, 102, 111);
    SixBytes(c, [102, 111, 111, 98, 97, 114]);
  }

  lemma NothingWhole(c: Context, s: seq<Byte>)
    requires Standard(c) && 0 < |s| < 3
    ensures Encode(c, s, true) == Last(c, s, true)
  {
    assert |s| / 3 == 0 && |s| % 3 == |s|;
    assert Body(c, s, 0) == [] && Break(c, 0) == [] && Lead(c, s) == [];
    assert Rest(s) == s;
  }

  lemma OneByteLeft(c: Context, x: Byte)
    requires Standard(c)
    ensures Encode(c, [x], true) == Quad(c, x, 0, 0)[..2] + [61, 61]
  {
    NothingWhole(c, [x]);
    assert Repeat(61, 2) == [61, 61];
  }

  lemma TwoBytesLeft(c: Context, x: Byte, y: Byte)
    requires Standard(c)
    ensures Encode(c, [x, y], true) == Quad(c, x, y, 0)[..3] + [61]
  {
    NothingWhole(c, [x, y]);
    assert Repeat(61, 1) == [61];
  }

  lemma SixBytes(c: Context, s: seq<Byte>)
    requires Standard(c) && |s| == 6
    ensures Encode(c, s, true) == Quad(c, s[0], s[1], s[2]) + Quad(c, s[3], s[4], s[5])
  {
    BodyMore(c, s, 0);
    BodyMore(c, s, 1);
    WholeGroups(c, s, 2);
  }
}
