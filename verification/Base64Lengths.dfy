/** Line breaks: where they fall, what they add, and what decode_auto makes of them (src/common/base64.c). */
module Base64Lengths {
  import opened Lines
  import opened Base64
  import Powers

  /** Division as C does it: towards zero. */
  function TruncDiv(a: int, b: int): (q: int)
    requires b != 0
  {
    if a >= 0 then (if b > 0 then a / b else -(a / -b))
    else if b > 0 then -(-a / b) else -a / -b
  }

  lemma Negated(q: int, y: int)
    ensures -q * y == -(q * y) == q * -y && -q * -y == q * y
  {
  }

  lemma Remainder(x: nat, y: nat) returns (p: int)
    requires y > 0
    ensures p == x / y * y && 0 <= x - p < y
  {
    p := x / y * y;
    assert x == p + x % y;
  }

  /** The remainder is smaller than the divisor and has the sign of the dividend. */
  lemma TruncDivIs(a: int, b: int) returns (r: int)
    requires b != 0
    ensures r == a - TruncDiv(a, b) * b
    ensures if a >= 0 then 0 <= r else r <= 0
    ensures if b > 0 then -b < r < b else b < r < -b
  {
    var x, y := if a >= 0 then a else -a, if b > 0 then b else -b;
    var p := Remainder(x, y);
    Negated(x / y, y);
    assert TruncDiv(a, b) == if (a >= 0) == (b > 0) then x / y else -(x / y);
    assert TruncDiv(a, b) * b == if a >= 0 then p else -p;
    r := a - TruncDiv(a, b) * b;
  }

  function Groups(n: nat): (g: nat)
    ensures n % 3 == 0 ==> g == n / 3
    ensures n % 3 != 0 ==> g == n / 3 + 1
  {
    (n + 2) / 3
  }

  /** The line breaks base64_get_encode_length expects in an encoding of n groups. */
  function Expected(lineLength: int, n: nat): (k: nat) {
    if lineLength == 0 then 0 else
      var lines := TruncDiv(4 * n + lineLength - 1, lineLength) - 1;
      if lines > 0 then lines else 0
  }

  /** base64_get_encode_length */
  function EncodeLength(c: Context, n: nat): (len: nat) {
    4 * Groups(n) + Expected(c.lineLength, Groups(n)) * |c.separator|
  }

  /** base64_set_line_length */
  function SetLineLength(c: Context, length: int): (r: Context) {
    c.(lineLength := TruncDiv(length, 4) * 4)
  }

  /** The estimate expects as many breaks as full lines of letters come before the last one, and none for a
      negative line length. */
  lemma ExpectedIs(lineLength: int, n: nat)
    requires n > 0 && lineLength != 0
    ensures var k := Expected(lineLength, n);
            if lineLength > 0 then k * lineLength < 4 * n <= (k + 1) * lineLength else k == 0
  {
    var a := 4 * n + lineLength - 1;
    var r := TruncDivIs(a, lineLength);
    var q := TruncDiv(a, lineLength);
    if lineLength > 0 {
      assert q >= 1 by { if q <= 0 { Monotone(q, 0, lineLength); } }
    } else if q >= 2 {
      Negated(q, -lineLength);
      Monotone(2, q, -lineLength);
    }
  }

  /** base64_set_line_length rounds to a multiple of four, towards zero. */
  lemma LineLengthRounds(c: Context, length: int)
    ensures var r := SetLineLength(c, length).lineLength;
            r % 4 == 0 && (if length >= 0 then 0 <= length - r < 4 else 0 <= r - length < 4)
  {
    var r := TruncDivIs(length, 4);
  }

  /** How many of the first n groups start on a new line. */
  function Breaks(lineLength: int, n: nat): (k: nat) {
    if lineLength == 0 || n == 0 then 0
    else if lineLength < 4 then n
    else (n - 1) / (lineLength / 4)
  }

  lemma NextMultiple(k: nat, m: nat)
    requires m > 0
    ensures k % m == m - 1 ==> (k + 1) % m == 0 && (k + 1) / m == k / m + 1
    ensures k % m < m - 1 ==> (k + 1) % m == k % m + 1 && (k + 1) / m == k / m
  {
    var q, r := k / m, k % m;
    assert k == q * m + r;
    if r == m - 1 {
      assert k + 1 == (q + 1) * m + 0;
      Quotient(k + 1, m, q + 1, 0);
    } else {
      Quotient(k + 1, m, q, r + 1);
    }
  }

  lemma Quotient(x: nat, m: nat, q: int, r: nat)
    requires r < m && x == q * m + r
    ensures x / m == q && x % m == r
  {
    Powers.ModUnique(x, m, q, r);
    assert x == x / m * m + r;
    assert (x / m - q) * m == 0;
  }

  /** On lines of four letters or more the position counts the groups since the last break. */
  lemma {:induction false} LinePosIs(c: Context, n: nat)
    requires c.lineLength >= 4
    ensures LinePos(c, n) == if n == 0 then 0 else 4 * ((n - 1) % (c.lineLength / 4) + 1)
  {
    var m := c.lineLength / 4;
    if n == 1 {
      Quotient(0, m, 0, 0);
    } else if n > 1 {
      LinePosIs(c, n - 1);
      NextMultiple(n - 2, m);
    }
  }

  lemma {:induction false} LinePosFull(c: Context, n: nat)
    requires c.lineLength < 4
    ensures LinePos(c, n) == if n == 0 then 0 else 4
  {
    if n > 0 { LinePosFull(c, n - 1); }
  }

  ghost predicate Broken(c: Context, n: nat) {
    LinePos(c, n) + 4 > c.lineLength && c.lineLength != 0
  }

  lemma BrokenAt(c: Context, n: nat)
    ensures Breaks(c.lineLength, n + 1) == Breaks(c.lineLength, n) + if Broken(c, n) then 1 else 0
  {
    if c.lineLength == 0 {
    } else if c.lineLength < 4 {
      LinePosFull(c, n);
    } else {
      var m := c.lineLength / 4;
      LinePosIs(c, n);
      if n == 0 { Quotient(0, m, 0, 0); } else { NextMultiple(n - 1, m); }
    }
  }

  ghost function Count(c: Context, n: nat): (k: nat) {
    if n == 0 then 0 else Count(c, n - 1) + if Broken(c, n - 1) then 1 else 0
  }

  lemma {:induction false} CountIs(c: Context, n: nat)
    ensures Count(c, n) == Breaks(c.lineLength, n)
  {
    if n > 0 {
      CountIs(c, n - 1);
      BrokenAt(c, n - 1);
    }
  }

  /** The separator bytes before the first n groups. */
  ghost function Gaps(c: Context, n: nat): (k: nat) {
    if n == 0 then 0 else Gaps(c, n - 1) + |Break(c, n - 1)|
  }

  lemma {:induction false} GapsAre(c: Context, n: nat)
    ensures Gaps(c, n) == Breaks(c.lineLength, n) * |c.separator|
  {
    CountIs(c, n);
    if n > 0 {
      GapsAre(c, n - 1);
      CountIs(c, n - 1);
      OneMore(Count(c, n - 1), |c.separator|);
    }
  }

  lemma OneMore(a: nat, k: nat)
    ensures (a + 1) * k == a * k + k
  {
  }

  lemma {:induction false} BodyLength(c: Context, s: seq<Byte>, n: nat)
    requires |c.valueToChar| == 64 && 3 * n <= |s|
    ensures |Body(c, s, n)| == 4 * n + Gaps(c, n)
  {
    if n > 0 { BodyLength(c, s, n - 1); }
  }

  lemma LeadLength(c: Context, s: seq<Byte>, n: nat)
    requires |c.valueToChar| == 64 && n == |s| / 3
    ensures |Lead(c, s)| == 4 * n + if |s| % 3 == 0 then Gaps(c, n) else Gaps(c, n) + |Break(c, n)|
  {
    BodyLength(c, s, n);
  }

  /** The pads a text of n bytes needs. */
  ghost function Short(n: nat): (k: nat) {
    if n % 3 == 0 then 0 else 3 - n % 3
  }

  /** Four letters a group and one separator a break; without pads, less the letters they replace. */
  lemma Lengths(c: Context, s: seq<Byte>)
    requires |c.valueToChar| == 64
    ensures |Encode(c, s, true)| == 4 * Groups(|s|) + Gaps(c, Groups(|s|))
    ensures |Encode(c, s, false)| == |Encode(c, s, true)| - Short(|s|)
  {
    var n := |s| / 3;
    LeadLength(c, s, n);
    if |s| % 3 != 0 {
      assert |Encode(c, s, true)| == |Lead(c, s)| + 4;
      assert |Encode(c, s, false)| == |Lead(c, s)| + 1 + |s| % 3;
      assert Gaps(c, n + 1) == Gaps(c, n) + |Break(c, n)|;
    }
  }

  /** How far base64_decode_auto fills up a text of this length. */
  function Fill(len: nat): (p: nat) {
    (4 - len % 4) % 4
  }

  lemma FillExact(len: nat, groups: nat, gaps: nat, k: nat)
    requires k < 3 && len == 4 * groups + gaps - k
    ensures Fill(len) == k <==> gaps % 4 == 0
  {
  }

  /** What follows the lead, once filled up with p pads. */
  ghost function Tail(c: Context, s: seq<Byte>, p: nat): (t: seq<Byte>)
    requires |c.valueToChar| == 64
  {
    (if |s| % 3 == 0 then [] else Last(c, Rest(s), false)) + Repeat(c.pad, p)
  }

  lemma TailIs(c: Context, s: seq<Byte>, p: nat)
    requires |c.valueToChar| == 64
    ensures Encode(c, s, false) + Repeat(c.pad, p) == Lead(c, s) + Tail(c, s, p)
    ensures p == Short(|s|) ==> Lead(c, s) + Tail(c, s, p) == Encode(c, s, true)
  {
  }

  lemma TailCounts(c: Context, s: seq<Byte>, p: nat)
    requires Valid(c)
    ensures |Tail(c, s, p)| == p + if |s| % 3 == 0 then 0 else 1 + |s| % 3
    ensures forall i | 0 <= i < |Tail(c, s, p)| :: c.charToValue[Tail(c, s, p)[i]] != IGNORE
  {
    if |s| % 3 != 0 {
      var r := Rest(s);
      QuadTriple(c, r[0], if |r| == 2 then r[1] else 0, 0);
    }
  }

  lemma OpenGroup(c: Context, e: seq<Byte>, bytes: seq<Byte>, t: seq<Byte>)
    requires Valid(c) && Reads(c, e, bytes, 0) && |t| % 4 != 0
    requires forall i | 0 <= i < |t| :: c.charToValue[t[i]] != IGNORE
    ensures Decode(c, e + t).length == 0
  {
    RunConcat(c, START, e, t);
    RunLength(c, Run(c, START, e), t);
  }

  lemma StaysOpen(left: nat, p: nat)
    requires left < 3 && p < 4 && p != (if left == 0 then 0 else 3 - left)
    ensures (p + if left == 0 then 0 else 1 + left) % 4 != 0
  {
  }

  /** With the wrong number of pads the last group stays open and nothing is decoded. */
  lemma WrongFill(c: Context, s: seq<Byte>, p: nat)
    requires Valid(c) && p < 4 && p != Short(|s|)
    ensures Decode(c, Encode(c, s, false) + Repeat(c.pad, p)).length == 0
  {
    TailIs(c, s, p);
    TailCounts(c, s, p);
    ReadsLead(c, s);
    StaysOpen(|s| % 3, p);
    OpenGroup(c, Lead(c, s), s[..|s| - |s| % 3], Tail(c, s, p));
  }

  lemma AutoFill(c: Context, s: seq<Byte>, p: nat)
    requires Valid(c) && s != [] && p == Fill(|Encode(c, s, false)|)
    ensures Yields(DecodeAuto(c, Encode(c, s, false)), s) <==> p == Short(|s|)
  {
    if p == Short(|s|) {
      TailIs(c, s, p);
      RoundTrip(c, s);
    } else {
      WrongFill(c, s, p);
    }
  }

  lemma AutoEmpty(c: Context)
    requires Valid(c)
    ensures Yields(DecodeAuto(c, Encode(c, [], false)), [])
  {
    assert Encode(c, [], false) == [];
  }

  lemma AutoGaps(c: Context, s: seq<Byte>)
    requires Valid(c) && s != []
    ensures Yields(DecodeAuto(c, Encode(c, s, false)), s) <==> Gaps(c, Groups(|s|)) % 4 == 0
  {
    var p := FillLength(c, s);
    AutoFill(c, s, p);
  }

  lemma FillLength(c: Context, s: seq<Byte>) returns (p: nat)
    requires |c.valueToChar| == 64
    ensures p == Fill(|Encode(c, s, false)|)
    ensures p == Short(|s|) <==> Gaps(c, Groups(|s|)) % 4 == 0
  {
    Lengths(c, s);
    p := Fill(|Encode(c, s, false)|);
    FillExact(|Encode(c, s, false)|, Groups(|s|), Gaps(c, Groups(|s|)), Short(|s|));
  }

  /** base64_decode_auto undoes an unpadded encoding exactly when the separators fill whole groups of four. */
  lemma AutoExact(c: Context, s: seq<Byte>)
    requires Valid(c)
    ensures
      Yields(DecodeAuto(c, Encode(c, s, false)), s)
      <==> Breaks(c.lineLength, Groups(|s|)) * |c.separator| % 4 == 0
  {
    GapsAre(c, Groups(|s|));
    if s == [] { AutoEmpty(c); } else { AutoGaps(c, s); }
  }

  // ---------------------------------------------------------------- base64_get_encode_length

  lemma PaddedLength(c: Context, s: seq<Byte>)
    requires |c.valueToChar| == 64
    ensures
      var g := Groups(|s|);
      |Encode(c, s, true)| == 4 * g + Breaks(c.lineLength, g) * |c.separator|
  {
    Lengths(c, s);
    GapsAre(c, Groups(|s|));
  }

  lemma LinesOfWhole(g: nat, m: nat)
    requires g > 0 && m > 0
    ensures (4 * g + 4 * m - 1) / (4 * m) == (g - 1) / m + 1
  {
    var q, r := (g - 1) / m, (g - 1) % m;
    assert g - 1 == q * m + r;
    assert 4 * g + 4 * m - 1 == (q + 1) * (4 * m) + (4 * r + 3);
    Quotient(4 * g + 4 * m - 1, 4 * m, q + 1, 4 * r + 3);
  }

  /** Lines of whole groups: the estimate counts the breaks. */
  lemma ExpectedWhole(lineLength: int, g: nat)
    requires lineLength > 0 && lineLength % 4 == 0
    ensures Expected(lineLength, g) == Breaks(lineLength, g)
  {
    var m := lineLength / 4;
    assert lineLength == 4 * m;
    if g > 0 { LinesOfWhole(g, m); } else { Quotient(4 * m - 1, 4 * m, 0, 4 * m - 1); }
  }

  /** A number of groups for which the estimate is wrong. */
  ghost function Misjudged(lineLength: int): (g: nat) {
    if lineLength <= 0 then 1 else if lineLength == 3 then 4 else lineLength
  }

  lemma ExpectedWrongly(lineLength: int, g: nat)
    requires (lineLength < 0 || lineLength % 4 != 0) && g == Misjudged(lineLength)
    ensures Expected(lineLength, g) != Breaks(lineLength, g)
  {
    if lineLength >= 4 {
      var m := lineLength / 4;
      Quotient(5 * lineLength - 1, lineLength, 4, lineLength - 1);
      assert lineLength - 1 == 4 * m + (lineLength % 4 - 1);
      AtLeast(lineLength - 1, m, 4);
    } else if lineLength < -3 {
      Quotient(-(lineLength + 3), -lineLength, 0, -(lineLength + 3));
    }
  }

  lemma AtLeast(x: nat, m: nat, k: nat)
    requires m > 0 && x >= k * m
    ensures x / m >= k
  {
    assert x == x / m * m + x % m;
    if x / m < k { assert (x / m + 1) * m <= k * m by { Monotone(x / m + 1, k, m); } }
  }

  lemma Monotone(a: int, b: int, m: nat)
    requires a <= b
    ensures a * m <= b * m
  {
  }

  lemma Cancel(a: nat, b: nat, k: nat)
    requires k > 0 && a != b
    ensures a * k != b * k
  {
    if a < b { Monotone(a + 1, b, k); } else { Monotone(b + 1, a, k); }
  }

  /** The estimate is the padded length of every text. */
  ghost predicate Fits(c: Context)
    requires |c.valueToChar| == 64
  {
    forall s: seq<Byte> :: |Encode(c, s, true)| == EncodeLength(c, |s|)
  }

  lemma EstimateMisses(c: Context, g: nat)
    requires |c.valueToChar| == 64 && c.separator != []
    requires Expected(c.lineLength, g) != Breaks(c.lineLength, g)
    ensures !Fits(c)
  {
    var s := Repeat(0, 3 * g);
    PaddedLength(c, s);
    assert Groups(|s|) == g;
    Cancel(Expected(c.lineLength, g), Breaks(c.lineLength, g), |c.separator|);
    assert |Encode(c, s, true)| != EncodeLength(c, |s|);
  }

  /** base64_get_encode_length is the padded length of every text just when a line holds whole groups. */
  lemma LengthExact(c: Context)
    requires |c.valueToChar| == 64
    ensures Fits(c) <==> c.separator == [] || (c.lineLength >= 0 && c.lineLength % 4 == 0)
  {
    if c.separator == [] || (c.lineLength >= 0 && c.lineLength % 4 == 0) {
      forall s: seq<Byte> ensures |Encode(c, s, true)| == EncodeLength(c, |s|) {
        PaddedLength(c, s);
        if c.lineLength > 0 && c.lineLength % 4 == 0 { ExpectedWhole(c.lineLength, Groups(|s|)); }
      }
    } else {
      var g := Misjudged(c.lineLength);
      ExpectedWrongly(c.lineLength, g);
      EstimateMisses(c, g);
    }
  }

  /** base64_set_line_length rounds towards zero: the estimate then fails only for lengths of -4 and below. */
  lemma LengthExactOnceSet(c: Context, length: int)
    requires |c.valueToChar| == 64
    ensures Fits(SetLineLength(c, length)) <==> c.separator == [] || length > -4
  {
    Rounded(length);
    LengthExact(SetLineLength(c, length));
  }

  lemma Rounded(length: int)
    ensures var r := TruncDiv(length, 4) * 4; r % 4 == 0 && (r >= 0 <==> length > -4)
  {
    var q := if length >= 0 then length / 4 else -(-length / 4);
    assert TruncDiv(length, 4) == q;
    assert q >= 0 <==> length > -4;
  }
}
