/** Base32 without padding (sections 3.5 and 6 of RFC 4648), bit by bit. */
module Base32 {
  import opened SyncTypes
  import opened Luhn

  type Bits = seq<bool>

  function Pow2(n: nat): nat {
    if n == 0 then 1 else 2 * Pow2(n - 1)
  }

  /** The low `width` bits of x, most significant first. */
  function ToBits(x: nat, width: nat): (b: Bits)
    ensures |b| == width
  {
    if width == 0 then [] else ToBits(x / 2, width - 1) + [x % 2 == 1]
  }

  function FromBits(b: Bits): nat {
    if b == [] then 0 else 2 * FromBits(b[..|b| - 1]) + if Last(b) then 1 else 0
  }

  lemma {:induction false} FromToBits(x: nat, width: nat)
    requires x < Pow2(width)
    ensures FromBits(ToBits(x, width)) == x
  {
    if width > 0 {
      FromToBits(x / 2, width - 1);
      assert ToBits(x, width)[..width - 1] == ToBits(x / 2, width - 1);
    }
  }

  /** Bits of a number with one more bit at its end. */
  lemma ToBitsMore(half: nat, bit: bool, width: nat)
    ensures ToBits(2 * half + (if bit then 1 else 0), width + 1) == ToBits(half, width) + [bit]
  {
    HalfAndBit(half, if bit then 1 else 0);
  }

  lemma {:induction false} ToFromBits(b: Bits)
    ensures FromBits(b) < Pow2(|b|) && ToBits(FromBits(b), |b|) == b
  {
    if b != [] {
      var n := |b| - 1;
      ToFromBits(b[..n]);
      ToBitsMore(FromBits(b[..n]), b[n], n);
      FromBitsMore(b);
      assert b == b[..n] + [b[n]];
    }
  }

  lemma FromBitsMore(b: Bits)
    requires b != []
    ensures var n, m := |b| - 1, FromBits(b[..|b| - 1]);
            FromBits(b) == 2 * m + (if b[n] then 1 else 0) && (m < Pow2(n) ==> FromBits(b) < Pow2(|b|))
  {
  }

  lemma HalfAndBit(half: nat, bit: nat)
    requires bit < 2
    ensures (2 * half + bit) / 2 == half && (2 * half + bit) % 2 == bit
  {
  }

  // ---------------------------------------------------------------------------
  // Groups of bits
  // ---------------------------------------------------------------------------

  /** Numbers as consecutive groups of `width` bits. */
  function Spread(xs: seq<nat>, width: nat): Bits {
    if xs == [] then [] else ToBits(xs[0], width) + Spread(xs[1..], width)
  }

  lemma MulStep(n: nat, width: nat)
    requires n > 0
    ensures n * width == width + (n - 1) * width
  {
  }

  lemma {:induction false} SpreadLength(xs: seq<nat>, width: nat)
    ensures |Spread(xs, width)| == |xs| * width
  {
    if xs != [] {
      SpreadLength(xs[1..], width);
      MulStep(|xs|, width);
    }
  }

  function ZeroBits(n: nat): (b: Bits)
    ensures |b| == n
  {
    seq(n, _ => false)
  }

  /** Consecutive groups of `width` bits as numbers, the last one filled up with zeros. */
  function Gather(b: Bits, width: nat): (xs: seq<nat>)
    requires width > 0
    decreases |b|
  {
    if b == [] then []
    else if |b| < width then [FromBits(b + ZeroBits(width - |b|))]
    else [FromBits(b[..width])] + Gather(b[width..], width)
  }

  ghost predicate Fits(xs: seq<nat>, width: nat) {
    forall i :: 0 <= i < |xs| ==> xs[i] < Pow2(width)
  }

  lemma {:induction false} GatherSpread(xs: seq<nat>, width: nat)
    requires width > 0 && Fits(xs, width)
    ensures Gather(Spread(xs, width), width) == xs
  {
    if xs != [] {
      GatherSpread(xs[1..], width);
      FromToBits(xs[0], width);
      assert Spread(xs, width)[..width] == ToBits(xs[0], width);
      assert Spread(xs, width)[width..] == Spread(xs[1..], width);
    }
  }

  /** Zeros that fill up the last group of five change nothing. */
  lemma {:induction false} GatherPadded(b: Bits, n: nat)
    requires n < 5 && (|b| + n) % 5 == 0
    ensures Gather(b + ZeroBits(n), 5) == Gather(b, 5)
    decreases |b|
  {
    var padded := b + ZeroBits(n);
    if |b| >= 5 {
      assert padded[..5] == b[..5];
      assert padded[5..] == b[5..] + ZeroBits(n);
      GatherPadded(b[5..], n);
    } else if b == [] {
      assert padded == [];
    } else {
      assert |b| + n == 5;
      assert padded[..5] == padded && padded[5..] == [];
    }
  }

  lemma OneGroup(b: Bits, width: nat)
    requires |b| == width > 0
    ensures Gather(b, width) == [FromBits(b)] && Spread([FromBits(b)], width) == b && Fits([FromBits(b)], width)
  {
    ToFromBits(b);
    assert b[..width] == b && b[width..] == [];
    assert [FromBits(b)][1..] == [];
    assert b + [] == b;
  }

  lemma GatherShort(b: Bits, width: nat)
    requires 0 < |b| < width
    ensures Gather(b, width) == Gather(b + ZeroBits(width - |b|), width)
  {
    OneGroup(b + ZeroBits(width - |b|), width);
  }

  lemma GatherFirst(b: Bits, width: nat)
    requires 0 < width <= |b|
    ensures Gather(b, width) == [FromBits(b[..width])] + Gather(b[width..], width)
    ensures FromBits(b[..width]) < Pow2(width)
    ensures Spread(Gather(b, width), width) == b[..width] + Spread(Gather(b[width..], width), width)
  {
    ToFromBits(b[..width]);
    var xs := Gather(b, width);
    assert xs[0] == FromBits(b[..width]) && xs[1..] == Gather(b[width..], width);
  }

  /** Bits survive gathering, up to the zeros that filled the last group. */
  lemma {:induction false} SpreadGather(b: Bits, width: nat) returns (n: nat)
    requires width > 0
    ensures n < width && Fits(Gather(b, width), width)
    ensures Spread(Gather(b, width), width) == b + ZeroBits(n)
    decreases |b|
  {
    if b == [] {
      n := 0;
      assert b + ZeroBits(0) == b;
    } else if |b| < width {
      n := width - |b|;
      GatherShort(b, width);
      OneGroup(b + ZeroBits(n), width);
    } else {
      GatherFirst(b, width);
      n := SpreadGather(b[width..], width);
      assert b + ZeroBits(n) == b[..width] + (b[width..] + ZeroBits(n));
    }
  }

  // ---------------------------------------------------------------------------
  // Letters
  // ---------------------------------------------------------------------------

  function Letters(codes: seq<nat>): (s: string)
    requires forall i :: 0 <= i < |codes| ==> codes[i] < 32
    ensures |s| == |codes|
  {
    seq(|codes|, i requires 0 <= i < |codes| => Letter(codes[i]))
  }

  function Codes(s: string): (codes: seq<nat>)
    requires Base32Text(s)
    ensures |codes| == |s|
    ensures forall i :: 0 <= i < |codes| ==> codes[i] < 32
  {
    seq(|s|, i requires 0 <= i < |s| => CodePoint(s[i]))
  }

  lemma CodesLetters(codes: seq<nat>)
    requires forall i :: 0 <= i < |codes| ==> codes[i] < 32
    ensures Base32Text(Letters(codes)) && Codes(Letters(codes)) == codes
  {
    forall i | 0 <= i < |codes| ensures InAlphabet(Letters(codes)[i]) && CodePoint(Letters(codes)[i]) == codes[i] {
      LetterCodePoint(codes[i]);
    }
  }

  lemma LettersCodes(s: string)
    requires Base32Text(s)
    ensures Letters(Codes(s)) == s
  {
    forall i | 0 <= i < |s| ensures Letters(Codes(s))[i] == s[i] {
      CodePointLetter(s[i]);
    }
  }

  // ---------------------------------------------------------------------------
  // The encoding
  // ---------------------------------------------------------------------------

  lemma GatheredFits(b: Bits, width: nat)
    requires width > 0
    ensures Fits(Gather(b, width), width)
  {
    var _ := SpreadGather(b, width);
  }

  function Encode(bytes: Bytes): string {
    var codes := Gather(Spread(bytes, 8), 5);
    GatheredFits(Spread(bytes, 8), 5);
    assert Pow2(5) == 32;
    Letters(codes)
  }

  function AsBytes(xs: seq<nat>): Bytes
    requires forall i :: 0 <= i < |xs| ==> xs[i] < 256
  {
    seq(|xs|, i requires 0 <= i < |xs| => xs[i] as byte)
  }

  /** Strict: letters of the alphabet only, no needless letter, and zero trailing bits. */
  function Decode(s: string): Option<Bytes> {
    if !Base32Text(s) then None
    else
      var b := Spread(Codes(s), 5);
      var whole := |b| - |b| % 8;
      if |b| % 8 >= 5 || b[whole..] != ZeroBits(|b| % 8) then None
      else
        GatheredFits(b[..whole], 8);
        assert Pow2(8) == 256;
        Some(AsBytes(Gather(b[..whole], 8)))
  }

  lemma BytesFit(bytes: Bytes)
    ensures Fits(bytes, 8)
  {
    assert Pow2(8) == 256;
  }

  /** Every byte string decodes from its encoding. */
  lemma DecodeEncode(bytes: Bytes)
    ensures Decode(Encode(bytes)) == Some(bytes)
  {
    var b := Spread(bytes, 8);
    GatheredFits(b, 5);
    assert Pow2(5) == 32;
    CodesLetters(Gather(b, 5));
    SpreadLength(bytes, 8);
    FilledUp(b);
    BytesFit(bytes);
    GatherSpread(bytes, 8);
    assert AsBytes(bytes) == bytes;
  }

  /** Whole bytes, gathered by fives and spread again, are followed by fewer than five zeros. */
  lemma FilledUp(b: Bits)
    requires |b| % 8 == 0
    ensures var spread := Spread(Gather(b, 5), 5);
            var n := |spread| % 8;
            n < 5 && |spread| - n == |b| && spread[..|b|] == b && spread[|b|..] == ZeroBits(n)
  {
    var n := SpreadGather(b, 5);
    var spread := Spread(Gather(b, 5), 5);
    assert |spread| == |b| + n;
    EightDivides(|b|, n);
  }

  lemma EightDivides(m: nat, n: nat)
    requires m % 8 == 0 && n < 8
    ensures (m + n) % 8 == n
  {
  }

  lemma SpreadWhole(b: Bits)
    requires |b| % 8 == 0
    ensures Spread(Gather(b, 8), 8) == b
  {
    var n := SpreadGather(b, 8);
    SpreadLength(Gather(b, 8), 8);
    NothingFilled(|b|, n, |Gather(b, 8)|);
    assert b + ZeroBits(0) == b;
  }

  lemma NothingFilled(m: nat, n: nat, k: nat)
    requires m % 8 == 0 && n < 8 && m + n == 8 * k
    ensures n == 0
  {
  }

  /** Every accepted text is the encoding of what it decodes to. */
  lemma EncodeDecode(s: string)
    requires Decode(s).Some?
    ensures Encode(Decode(s).value) == s
  {
    var b := Spread(Codes(s), 5);
    var whole := b[..|b| - |b| % 8];
    GatheredFits(whole, 8);
    assert Pow2(8) == 256;
    assert AsBytes(Gather(whole, 8)) == Gather(whole, 8);
    SpreadWhole(whole);
    WholeGivesCodes(Codes(s));
    LettersCodes(s);
  }

  /** Dropping zero bits that fill no byte loses nothing. */
  lemma WholeGivesCodes(codes: seq<nat>)
    requires forall i :: 0 <= i < |codes| ==> codes[i] < 32
    requires var b := Spread(codes, 5); |b| % 8 < 5 && b[|b| - |b| % 8..] == ZeroBits(|b| % 8)
    ensures var b := Spread(codes, 5); Gather(b[..|b| - |b| % 8], 5) == codes
  {
    CutGivesCodes(codes, |Spread(codes, 5)| % 8);
  }

  lemma CutGivesCodes(codes: seq<nat>, n: nat)
    requires forall i :: 0 <= i < |codes| ==> codes[i] < 32
    requires var b := Spread(codes, 5); n < 5 && n <= |b| && b[|b| - n..] == ZeroBits(n)
    ensures var b := Spread(codes, 5); Gather(b[..|b| - n], 5) == codes
  {
    SpreadLength(codes, 5);
    assert Pow2(5) == 32;
    GatherSpread(codes, 5);
    GatherWhole(Spread(codes, 5), n);
  }

  lemma GatherWhole(b: Bits, n: nat)
    requires n < 5 && n <= |b| && |b| % 5 == 0 && b[|b| - n..] == ZeroBits(n)
    ensures Gather(b[..|b| - n], 5) == Gather(b, 5)
  {
    var m := |b| - n;
    TakeDrop(b, m);
    var whole := b[..m];
    assert |whole| + n == |b|;
    GatherPadded(whole, n);
  }

  lemma TakeDrop(b: Bits, m: nat)
    requires m <= |b|
    ensures b == b[..m] + b[m..]
  {
  }

  lemma GatherLength(b: Bits, width: nat)
    requires width > 0
    ensures |b| <= |Gather(b, width)| * width < |b| + width
  {
    var n := SpreadGather(b, width);
    SpreadLength(Gather(b, width), width);
  }

  lemma {:induction false} SpreadLast(xs: seq<nat>, x: nat, width: nat)
    ensures Spread(xs + [x], width) == Spread(xs, width) + ToBits(x, width)
  {
    if xs == [] {
      assert [] + [x] == [x] && [x][1..] == [];
      assert ToBits(x, width) + [] == ToBits(x, width);
    } else {
      assert (xs + [x])[0] == xs[0] && (xs + [x])[1..] == xs[1..] + [x];
      SpreadLast(xs[1..], x, width);
    }
  }

  lemma FiveBits(x: nat)
    ensures ToBits(x, 5) == [x / 16 % 2 == 1, x / 8 % 2 == 1, x / 4 % 2 == 1, x / 2 % 2 == 1, x % 2 == 1]
  {
    assert x / 2 / 2 == x / 4 && x / 4 / 2 == x / 8 && x / 8 / 2 == x / 16;
    assert ToBits(x / 16, 1) == [x / 16 % 2 == 1];
    assert ToBits(x / 8, 2) == [x / 16 % 2 == 1, x / 8 % 2 == 1];
    assert ToBits(x / 4, 3) == [x / 16 % 2 == 1, x / 8 % 2 == 1, x / 4 % 2 == 1];
    assert ToBits(x / 2, 4) == [x / 16 % 2 == 1, x / 8 % 2 == 1, x / 4 % 2 == 1, x / 2 % 2 == 1];
  }

  lemma LowBitsZero(x: nat)
    requires x < 32
    ensures x % 2 != 1 && x / 2 % 2 != 1 && x / 4 % 2 != 1 && x / 8 % 2 != 1 <==> x == 0 || x == 16
  {
  }

  /** 52 letters are accepted exactly when the last one leaves its four surplus bits zero. */
  lemma LastLetterDecides(s: string)
    requires |s| == 52 && Base32Text(s)
    ensures Decode(s).Some? <==> s[51] == 'A' || s[51] == 'Q'
  {
    var codes, x := Codes(s), CodePoint(s[51]);
    assert codes == codes[..51] + [x];
    SpreadLast(codes[..51], x, 5);
    SpreadLength(codes[..51], 5);
    FiveBits(x);
    var b := Spread(codes, 5);
    assert |b| == 260 && b[256..] == ToBits(x, 5)[1..];
    assert ZeroBits(4) == [false, false, false, false];
    LowBitsZero(x);
    CodePointLetter(s[51]);
  }

  /** 32 bytes take 52 letters, and 52 letters give 32 bytes. */
  lemma DeviceIdLengths(bytes: Bytes, s: string)
    ensures |bytes| == 32 ==> |Encode(bytes)| == 52
    ensures |s| == 52 && Decode(s).Some? ==> |Decode(s).value| == 32
  {
    SpreadLength(bytes, 8);
    GatherLength(Spread(bytes, 8), 5);
    if |s| == 52 && Decode(s).Some? {
      SpreadLength(Codes(s), 5);
      GatherLength(Spread(Codes(s), 5)[..256], 8);
    }
  }

  // ---------------------------------------------------------------------------
  // The encoding as a number
  // ---------------------------------------------------------------------------

  /** Digits as a number, the most significant first. */
  function NumberOf(digits: seq<nat>, base: nat): nat {
    if digits == [] then 0 else NumberOf(digits[..|digits| - 1], base) * base + Last(digits)
  }

  lemma TwiceProduct(a: nat, b: nat)
    ensures 2 * (a * b) == (2 * a) * b == a * (2 * b)
  {
  }

  lemma {:induction false} FromBitsConcat(a: Bits, b: Bits)
    ensures FromBits(a + b) == FromBits(a) * Pow2(|b|) + FromBits(b)
    decreases |b|
  {
    if b == [] {
      assert a + b == a;
    } else {
      var front := b[..|b| - 1];
      assert (a + b)[..|a + b| - 1] == a + front;
      FromBitsConcat(a, front);
      OneMoreBit(FromBits(a), Pow2(|front|), FromBits(front), if Last(b) then 1 else 0);
    }
  }

  lemma OneMoreBit(a: nat, p: nat, b: nat, bit: nat)
    ensures 2 * (a * p + b) + bit == a * (2 * p) + (2 * b + bit)
  {
    TwiceProduct(a, p);
  }

  lemma {:induction false} ZeroBitsAreZero(n: nat)
    ensures FromBits(ZeroBits(n)) == 0
  {
    if n > 0 {
      assert ZeroBits(n)[..n - 1] == ZeroBits(n - 1);
      ZeroBitsAreZero(n - 1);
    }
  }

  /** Numbers spread into bits are those bits' number. */
  lemma {:induction false} FromBitsSpread(xs: seq<nat>, width: nat)
    requires Fits(xs, width)
    ensures FromBits(Spread(xs, width)) == NumberOf(xs, Pow2(width))
  {
    if xs != [] {
      var n := |xs| - 1;
      assert xs == xs[..n] + [xs[n]];
      SpreadLast(xs[..n], xs[n], width);
      FromBitsConcat(Spread(xs[..n], width), ToBits(xs[n], width));
      FromToBits(xs[n], width);
      FromBitsSpread(xs[..n], width);
    }
  }

  /** How many bits are filled up in the last group of five. */
  lemma FilledBits(bytes: nat, letters: nat, n: nat)
    requires 8 * bytes + n == 5 * letters && n < 5
    ensures letters == (8 * bytes + 4) / 5
  {
  }

  /**
    * The letters of an encoding, by their positions in the alphabet, are the bytes as one number, most
    * significant first, shifted by the zero bits that fill the last letter.
    */
  lemma EncodeIsNumber(bytes: Bytes, places: seq<nat>)
    requires StandAt(Encode(bytes), places)
    ensures |places| == (8 * |bytes| + 4) / 5 && 8 * |bytes| <= 5 * |places|
    ensures NumberOf(places, 32) == NumberOf(bytes, 256) * Pow2(5 * |places| - 8 * |bytes|)
  {
    var b := Spread(bytes, 8);
    var codes := Gather(b, 5);
    EncodedPlaces(bytes, places);
    var n := SpreadGather(b, 5);
    assert Pow2(5) == 32 && Pow2(8) == 256;
    SpreadLength(bytes, 8);
    SpreadLength(codes, 5);
    FilledBits(|bytes|, |codes|, n);
    FromBitsSpread(codes, 5);
    BytesFit(bytes);
    FromBitsSpread(bytes, 8);
    FromBitsConcat(b, ZeroBits(n));
    ZeroBitsAreZero(n);
  }

  lemma EncodedPlaces(bytes: Bytes, places: seq<nat>)
    requires StandAt(Encode(bytes), places)
    ensures places == Gather(Spread(bytes, 8), 5)
  {
    var codes := Gather(Spread(bytes, 8), 5);
    GatheredFits(Spread(bytes, 8), 5);
    assert Pow2(5) == 32;
    forall i | 0 <= i < |codes| ensures places[i] == codes[i] {
      CodePointIsPlace(Letter(codes[i]), places[i]);
      LetterCodePoint(codes[i]);
    }
  }
}
