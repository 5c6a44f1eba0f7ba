/** Luhn mod 32 check characters over the base32 alphabet, and what they detect. */
module Luhn {
  import opened SyncTypes

  const ALPHABET := "ABCDEFGHIJKLMNOPQRSTUVWXYZ234567"

  predicate InAlphabet(c: char) {
    'A' <= c <= 'Z' || '2' <= c <= '7'
  }

  /** Text over the alphabet. */
  predicate Base32Text(s: string) {
    forall i :: 0 <= i < |s| ==> InAlphabet(s[i])
  }

  /** `codepoint32`, which panics outside the alphabet. */
  function CodePoint(c: char): (n: nat)
    requires InAlphabet(c)
    ensures n < 32
  {
    if 'A' <= c <= 'Z' then (c - 'A') as int else (c - '2') as int + 26
  }

  /** The inverse of `codepoint32`. */
  function Letter(n: nat): char
    requires n < 32
  {
    if n < 26 then 'A' + n as char else '2' + (n - 26) as char
  }

  /** The alphabet lists each code point's letter at its own position. */
  lemma AlphabetIs(n: nat)
    requires n < 32
    ensures ALPHABET[n] == Letter(n)
  {
  }

  lemma LetterCodePoint(n: nat)
    requires n < 32
    ensures InAlphabet(Letter(n)) && CodePoint(Letter(n)) == n
  {
  }

  lemma CodePointLetter(c: char)
    requires InAlphabet(c)
    ensures Letter(CodePoint(c)) == c
  {
  }

  /** What a code point adds at position i: itself, or its double with the digits added, alternately. */
  function Addend(i: nat, code: nat): nat
    requires code < 32
  {
    var product := (if i % 2 == 0 then 1 else 2) * code;
    product / 32 + product % 32
  }

  function LuhnSum(s: string): nat
    requires Base32Text(s)
  {
    if s == "" then 0 else LuhnSum(s[..|s| - 1]) + Addend(|s| - 1, CodePoint(s[|s| - 1]))
  }

  /** The letter that brings the sum to a multiple of 32. */
  function CheckChar(s: string): char
    requires Base32Text(s)
  {
    Letter((32 - LuhnSum(s) % 32) % 32)
  }

  /** One and two alternately. */
  function Factor(i: nat): nat {
    if i % 2 == 0 then 1 else 2
  }

  lemma FactorsAlternate(i: nat)
    ensures Factor(i + 1) == if Factor(i) == 2 then 1 else 2
  {
  }

  lemma AddendSteps(i: nat, code: nat)
    requires code < 32
    ensures Addend(i, code) == Factor(i) * code / 32 + Factor(i) * code % 32
  {
  }

  lemma IndexFits(remainder: nat)
    requires remainder < 32
    ensures (32 - remainder) % 32 < 32
  {
  }

  lemma SumMore(s: string, i: nat)
    requires i < |s| && Base32Text(s[..i]) && InAlphabet(s[i])
    ensures Base32Text(s[..i + 1]) && LuhnSum(s[..i + 1]) == LuhnSum(s[..i]) + Addend(i, CodePoint(s[i]))
  {
    assert s[..i + 1][..i] == s[..i];
  }

  method SyncthingLuhn32(s: string) returns (r: Option<char>)
    ensures r == if Base32Text(s) then Some(CheckChar(s)) else None
  {
    var factor := 1;
    var sum := 0;
    for i := 0 to |s|
      invariant Base32Text(s[..i])
      invariant factor == Factor(i)
      invariant sum == LuhnSum(s[..i])
    {
      if !InAlphabet(s[i]) {
        return None;
      }
      SumMore(s, i);
      FactorsAlternate(i);
      AddendSteps(i, CodePoint(s[i]));
      var addend := factor * CodePoint(s[i]);
      factor := if factor == 2 then 1 else 2;
      addend := addend / 32 + addend % 32;
      sum := sum + addend;
    }
    assert s[..|s|] == s;
    var remainder := sum % 32;
    IndexFits(remainder);
    AlphabetIs((32 - remainder) % 32);
    r := Some(ALPHABET[(32 - remainder) % 32]);
  }

  // ---------------------------------------------------------------------------
  // The check letter by positions in the alphabet
  // ---------------------------------------------------------------------------

  function LetterAt(place: nat): char
    requires place < 32
  {
    "ABCDEFGHIJKLMNOPQRSTUVWXYZ234567"[place]
  }

  /** The text's letters stand at these positions of the alphabet. */
  predicate StandAt(s: string, places: seq<nat>) {
    |places| == |s| && forall i :: 0 <= i < |s| ==> places[i] < 32 && s[i] == LetterAt(places[i])
  }

  lemma CodePointIsPlace(c: char, place: nat)
    requires place < 32
    ensures c == LetterAt(place) <==> InAlphabet(c) && CodePoint(c) == place
    ensures Letter(place) == LetterAt(place)
  {
    AlphabetIs(place);
    LetterCodePoint(place);
    if InAlphabet(c) {
      CodePointLetter(c);
    }
  }

  /** Twice the number, its two digits in base 32 added. */
  function Doubled(place: nat): nat {
    if place < 16 then 2 * place else 2 * place - 31
  }

  /** From position i on: places at even positions, and doubled ones at odd positions. */
  function Weighted(places: seq<nat>, i: nat): nat
    decreases |places| - i
  {
    if i >= |places| then 0 else (if i % 2 == 0 then places[i] else Doubled(places[i])) + Weighted(places, i + 1)
  }

  /** The weighted places and that of a check letter make a multiple of 32. */
  predicate Balances(places: seq<nat>, place: nat) {
    (Weighted(places, 0) + place) % 32 == 0
  }

  lemma {:induction false} SumIsWeighted(s: string, places: seq<nat>, i: nat)
    requires StandAt(s, places) && i <= |s|
    ensures Base32Text(s) && LuhnSum(s) == LuhnSum(s[..i]) + Weighted(places, i)
    decreases |s| - i
  {
    forall k | 0 <= k < |s| ensures InAlphabet(s[k]) && CodePoint(s[k]) == places[k] {
      CodePointIsPlace(s[k], places[k]);
    }
    if i == |s| {
      assert s[..i] == s;
    } else {
      AddendIs(i, places[i]);
      assert s[..i + 1][..i] == s[..i];
      SumIsWeighted(s, places, i + 1);
    }
  }

  /** The check letter is the one whose place, with the weighted places of the text, makes a multiple of 32. */
  lemma CheckBalances(s: string, places: seq<nat>, place: nat)
    requires StandAt(s, places) && place < 32
    ensures Base32Text(s)
    ensures LetterAt(place) == CheckChar(s) <==> Balances(places, place)
  {
    SumIs(s, places);
    CheckOf(s, places, place);
  }

  lemma CheckOf(s: string, places: seq<nat>, place: nat)
    requires Base32Text(s) && LuhnSum(s) == Weighted(places, 0) && place < 32
    ensures LetterAt(place) == CheckChar(s) <==> Balances(places, place)
  {
    CheckIs(LuhnSum(s), place, CheckChar(s));
  }

  lemma SumIs(s: string, places: seq<nat>)
    requires StandAt(s, places)
    ensures Base32Text(s) && LuhnSum(s) == Weighted(places, 0)
  {
    SumIsWeighted(s, places, 0);
    assert s[..0] == "";
  }

  lemma CheckIs(sum: nat, place: nat, check: char)
    requires place < 32 && check == Letter((32 - sum % 32) % 32)
    ensures LetterAt(place) == check <==> (sum + place) % 32 == 0
  {
    AlphabetIs(place);
    LetterCompletes(sum, place);
  }

  lemma LetterCompletes(sum: nat, place: nat)
    requires place < 32
    ensures Letter(place) == Letter((32 - sum % 32) % 32) <==> (sum + place) % 32 == 0
  {
    var wanted := (32 - sum % 32) % 32;
    LetterCodePoint(place);
    LetterCodePoint(wanted);
    Completes(sum, place);
  }

  lemma RemainderIs(n: nat, q: nat, r: nat)
    requires n == 32 * q + r && r < 32
    ensures n % 32 == r
  {
  }

  lemma Completes(sum: nat, x: nat)
    requires x < 32
    ensures x == (32 - sum % 32) % 32 <==> (sum + x) % 32 == 0
  {
    var q, r := sum / 32, sum % 32;
    CompletesAt(sum, q, r, x);
  }

  lemma CompletesAt(sum: nat, q: nat, r: nat, x: nat)
    requires sum == 32 * q + r && r < 32 && x < 32
    ensures x == (32 - r) % 32 <==> (sum + x) % 32 == 0
  {
    if r + x < 32 {
      RemainderIs(sum + x, q, r + x);
    } else {
      RemainderIs(sum + x, q + 1, r + x - 32);
    }
  }

  lemma {:induction false} ZerosWeighNothing(places: seq<nat>, i: nat)
    requires forall k :: 0 <= k < |places| ==> places[k] == 0
    ensures Weighted(places, i) == 0
    decreases |places| - i
  {
    if i < |places| {
      ZerosWeighNothing(places, i + 1);
    }
  }

  /** Text of 'A' only, of any length, has check letter 'A'. */
  lemma PlainTextCheck(n: nat)
    ensures Base32Text(seq(n, i => 'A')) && CheckChar(seq(n, i => 'A')) == 'A'
  {
    var places := seq(n, i => 0);
    ZerosWeighNothing(places, 0);
    CheckBalances(seq(n, i => 'A'), places, 0);
  }

  // ---------------------------------------------------------------------------
  // Error detection
  // ---------------------------------------------------------------------------

  lemma {:induction false} SumAfterChange(s: string, i: nat, c: char)
    requires Base32Text(s) && i < |s| && InAlphabet(c)
    ensures Base32Text(s[i := c])
    ensures LuhnSum(s[i := c]) == LuhnSum(s) - Addend(i, CodePoint(s[i])) + Addend(i, CodePoint(c))
  {
    var n := |s| - 1;
    if i < n {
      assert s[i := c][..n] == s[..n][i := c];
      SumAfterChange(s[..n], i, c);
    } else {
      assert s[i := c][..n] == s[..n];
    }
  }

  lemma AddendIs(i: nat, code: nat)
    requires code < 32
    ensures Addend(i, code) == if i % 2 == 0 then code else if code < 16 then 2 * code else 2 * code - 31
  {
  }

  lemma RemainderShift(sum: int, d: int)
    requires -32 < d < 32
    ensures (sum + d) % 32 == sum % 32 <==> d == 0
  {
  }

  lemma SameLetterIff(r1: nat, r2: nat)
    requires r1 < 32 && r2 < 32
    ensures Letter((32 - r1) % 32) == Letter((32 - r2) % 32) <==> r1 == r2
  {
    LetterCodePoint((32 - r1) % 32);
    LetterCodePoint((32 - r2) % 32);
  }

  /** Texts share a check character exactly when their sums differ by a multiple of 32. */
  lemma SameCheckIff(s: string, t: string, d: int)
    requires Base32Text(s) && Base32Text(t) && LuhnSum(t) == LuhnSum(s) + d && -32 < d < 32
    ensures CheckChar(s) == CheckChar(t) <==> d == 0
  {
    SameLetterIff(LuhnSum(s) % 32, LuhnSum(t) % 32);
    RemainderShift(LuhnSum(s), d);
  }

  /** Changing any one character of a text of any length changes its check character. */
  lemma ChangeDetected(s: string, i: nat, c: char)
    requires Base32Text(s) && i < |s| && InAlphabet(c) && c != s[i]
    ensures Base32Text(s[i := c]) && CheckChar(s[i := c]) != CheckChar(s)
  {
    SumAfterChange(s, i, c);
    CodePointLetter(c);
    CodePointLetter(s[i]);
    AddendIs(i, CodePoint(s[i]));
    AddendIs(i, CodePoint(c));
    SameCheckIff(s, s[i := c], Addend(i, CodePoint(c)) - Addend(i, CodePoint(s[i])));
  }

  function SwapAt(s: string, i: nat): string
    requires i + 1 < |s|
  {
    s[i := s[i + 1]][i + 1 := s[i]]
  }

  /** By how much swapping neighbours with these code points changes the sum. */
  function SwapShift(i: nat, x: nat, y: nat): int
    requires x < 32 && y < 32
  {
    Addend(i, y) - Addend(i, x) + Addend(i + 1, x) - Addend(i + 1, y)
  }

  /** How much more a code point adds where it is doubled. */
  function Surplus(code: nat): int
    requires code < 32
  {
    if code < 16 then code else code - 31
  }

  lemma SwapShiftIsSurplus(i: nat, x: nat, y: nat)
    requires x < 32 && y < 32
    ensures SwapShift(i, x, y) == if i % 2 == 0 then Surplus(x) - Surplus(y) else Surplus(y) - Surplus(x)
  {
    AddendIs(i, x);
    AddendIs(i, y);
    AddendIs(i + 1, x);
    AddendIs(i + 1, y);
  }

  lemma SwapShiftIs(i: nat, x: nat, y: nat)
    requires x < 32 && y < 32
    ensures -31 < SwapShift(i, x, y) < 31
    ensures SwapShift(i, x, y) == 0 <==> x == y || (x == 0 && y == 31) || (x == 31 && y == 0)
  {
    SwapShiftIsSurplus(i, x, y);
  }

  /** Swapping two neighbours changes the check character, except for equal ones and for 'A' with '7'. */
  lemma SwapDetectedIff(s: string, i: nat)
    requires Base32Text(s) && i + 1 < |s|
    ensures Base32Text(SwapAt(s, i))
    ensures CheckChar(SwapAt(s, i)) == CheckChar(s) <==>
            s[i] == s[i + 1] || (s[i] == 'A' && s[i + 1] == '7') || (s[i] == '7' && s[i + 1] == 'A')
  {
    var x, y := CodePoint(s[i]), CodePoint(s[i + 1]);
    SumAfterSwap(s, i);
    SwapShiftIs(i, x, y);
    SameCheckIff(s, SwapAt(s, i), SwapShift(i, x, y));
    CodePointLetter(s[i]);
    CodePointLetter(s[i + 1]);
  }

  lemma SumAfterSwap(s: string, i: nat)
    requires Base32Text(s) && i + 1 < |s|
    ensures Base32Text(SwapAt(s, i))
    ensures LuhnSum(SwapAt(s, i)) == LuhnSum(s) + SwapShift(i, CodePoint(s[i]), CodePoint(s[i + 1]))
  {
    SumAfterChange(s, i, s[i + 1]);
    SumAfterChange(s[i := s[i + 1]], i + 1, s[i]);
  }
}
