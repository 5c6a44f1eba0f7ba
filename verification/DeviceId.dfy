/** Device ids as text: base32, a check letter after every 13 letters, a dash after every 7 characters. */
module DeviceId {
  import opened SyncTypes
  import opened Luhn
  import opened Base32

  // ---------------------------------------------------------------------------
  // Check letters
  // ---------------------------------------------------------------------------

  /** The first n groups of 13, each followed by its check letter. */
  function Luhnified(s: string, n: nat): (w: string)
    requires Base32Text(s) && 13 * n <= |s|
    ensures |w| == 14 * n && Base32Text(w)
  {
    if n == 0 then ""
    else
      var part := s[13 * (n - 1)..13 * n];
      LetterCodePoint((32 - LuhnSum(part) % 32) % 32);
      Luhnified(s, n - 1) + part + [CheckChar(part)]
  }

  /** What the panics of `unluhnify` leave: group g is there, is text, and carries its check letter. */
  predicate GroupPasses(w: string, g: nat) {
    && 14 * g + 14 <= |w|
    && Base32Text(w[14 * g..14 * g + 13])
    && w[14 * g + 13] == CheckChar(w[14 * g..14 * g + 13])
  }

  /** The letters of the first n groups. */
  function Data(w: string, n: nat): (s: string)
    requires 14 * n <= |w|
    ensures |s| == 13 * n
  {
    if n == 0 then "" else Data(w, n - 1) + w[14 * n - 14..14 * n - 1]
  }

  ghost predicate Passes(w: string, n: nat) {
    14 * n <= |w| && forall g: nat :: g < n ==> GroupPasses(w, g)
  }

  ghost function Unluhnified(w: string, n: nat): Option<string> {
    if Passes(w, n) then Some(Data(w, n)) else None
  }

  method Luhnify(s: string) returns (r: Option<string>)
    requires Base32Text(s)
    ensures r == if |s| == 52 then Some(Luhnified(s, 4)) else None
  {
    if |s| != 52 {
      return None;
    }
    var out := "";
    for i := 0 to 4
      invariant out == Luhnified(s, i)
    {
      var part := s[i * 13..(i + 1) * 13];
      var l := SyncthingLuhn32(part);
      out := out + part + [l.value];
    }
    r := Some(out);
  }

  /** The body of the loop of `unluhnify`, up to where it can panic. */
  method CheckGroup(w: string, i: nat) returns (passes: bool)
    ensures passes == GroupPasses(w, i)
  {
    if |w| < (i + 1) * 14 {
      return false;
    }
    var l := SyncthingLuhn32(w[i * 14..(i + 1) * 14 - 1]);
    passes := l == Some(w[(i + 1) * 14 - 1]);
  }

  lemma PassesMore(w: string, i: nat)
    requires Passes(w, i) && GroupPasses(w, i)
    ensures Passes(w, i + 1) && Data(w, i + 1) == Data(w, i) + w[i * 14..(i + 1) * 14 - 1]
  {
  }

  method Unluhnify(w: string) returns (r: Option<string>)
    ensures r == Unluhnified(w, 4)
  {
    var out := "";
    for i := 0 to 4
      invariant Passes(w, i) && out == Data(w, i)
    {
      var passes := CheckGroup(w, i);
      if !passes {
        return None;
      }
      PassesMore(w, i);
      var part := w[i * 14..(i + 1) * 14 - 1];
      out := out + part;
    }
    r := Some(out);
  }

  lemma {:induction false} LuhnifiedPrefix(s: string, m: nat, n: nat)
    requires Base32Text(s) && 13 * n <= m <= |s|
    ensures Luhnified(s[..m], n) == Luhnified(s, n)
  {
    if n > 0 {
      LuhnifiedPrefix(s, m, n - 1);
      assert s[..m][13 * (n - 1)..13 * n] == s[13 * (n - 1)..13 * n];
    }
  }

  lemma {:induction false} LuhnifiedGroup(s: string, n: nat, g: nat)
    requires Base32Text(s) && 13 * n <= |s| && g < n
    ensures Luhnified(s, n)[14 * g..14 * g + 13] == s[13 * g..13 * g + 13]
    ensures GroupPasses(Luhnified(s, n), g)
  {
    LastGroupIs(s, n);
    if g < n - 1 {
      LuhnifiedGroup(s, n - 1, g);
      GroupOfPrefix(Luhnified(s, n), 14 * (n - 1), g);
    }
  }

  lemma LastGroupIs(s: string, n: nat)
    requires Base32Text(s) && 0 < n && 13 * n <= |s|
    ensures var w := Luhnified(s, n);
            && w[..14 * (n - 1)] == Luhnified(s, n - 1)
            && w[14 * (n - 1)..14 * (n - 1) + 13] == s[13 * (n - 1)..13 * (n - 1) + 13]
            && GroupPasses(w, n - 1)
  {
    var part := s[13 * (n - 1)..13 * n];
    ThreeParts(Luhnified(s, n - 1), part, CheckChar(part), n - 1);
  }

  lemma ThreeParts(before: string, part: string, check: char, n: nat)
    requires |before| == 14 * n && |part| == 13
    ensures var w := before + part + [check];
            |w| == 14 * n + 14 && w[..14 * n] == before && w[14 * n..14 * n + 13] == part && w[14 * n + 13] == check
  {
  }

  lemma GroupOfPrefix(w: string, m: nat, g: nat)
    requires 14 * g + 14 <= m <= |w|
    ensures w[..m][14 * g..14 * g + 13] == w[14 * g..14 * g + 13]
    ensures GroupPasses(w[..m], g) <==> GroupPasses(w, g)
  {
  }

  lemma {:induction false} DataOf(w: string, s: string, n: nat)
    requires 14 * n <= |w| && 13 * n <= |s|
    requires forall g: nat :: g < n ==> w[14 * g..14 * g + 13] == s[13 * g..13 * g + 13]
    ensures Data(w, n) == s[..13 * n]
  {
    if n > 0 {
      DataOf(w, s, n - 1);
      assert w[14 * (n - 1)..14 * (n - 1) + 13] == s[13 * (n - 1)..13 * (n - 1) + 13];
    }
  }

  lemma UnluhnifyLuhnify(s: string, n: nat)
    requires Base32Text(s) && 13 * n <= |s|
    ensures Unluhnified(Luhnified(s, n), n) == Some(s[..13 * n])
  {
    var w := Luhnified(s, n);
    forall g: nat | g < n
      ensures w[14 * g..14 * g + 13] == s[13 * g..13 * g + 13] && GroupPasses(w, g)
    {
      LuhnifiedGroup(s, n, g);
    }
    DataOf(w, s, n);
  }

  lemma {:induction false} LuhnifyUnluhnify(w: string, n: nat)
    requires Passes(w, n)
    ensures Base32Text(Data(w, n)) && Luhnified(Data(w, n), n) == w[..14 * n]
  {
    if n > 0 {
      LuhnifyUnluhnify(w, n - 1);
      assert GroupPasses(w, n - 1);
      LuhnifyAnother(w, Data(w, n - 1), n);
    }
  }

  lemma LuhnifyAnother(w: string, before: string, n: nat)
    requires n > 0 && GroupPasses(w, n - 1)
    requires Base32Text(before) && |before| == 13 * n - 13 && Luhnified(before, n - 1) == w[..14 * n - 14]
    ensures var s := before + w[14 * n - 14..14 * n - 1]; Base32Text(s) && Luhnified(s, n) == w[..14 * n]
  {
    var part := w[14 * n - 14..14 * n - 1];
    var s := before + part;
    assert s[13 * n - 13..13 * n] == part;
    assert Luhnified(s, n - 1) == Luhnified(before, n - 1) by {
      assert s[..13 * n - 13] == before;
      LuhnifiedPrefix(s, 13 * n - 13, n - 1);
    }
    LastCharacters(w, 14 * n);
  }

  lemma LastCharacters(w: string, m: nat)
    requires 14 <= m <= |w|
    ensures w[..m] == w[..m - 14] + w[m - 14..m - 1] + [w[m - 1]]
  {
  }

  // ---------------------------------------------------------------------------
  // Dashes
  // ---------------------------------------------------------------------------

  /** The first n groups of 7 with dashes in between. */
  function Chunked(s: string, n: nat): string
    requires 7 * n <= |s|
  {
    if n == 0 then ""
    else if n == 1 then s[..7]
    else Chunked(s, n - 1) + "-" + s[7 * (n - 1)..7 * n]
  }

  function Unchunked(s: string): string {
    if s == "" then ""
    else Unchunked(s[..|s| - 1]) + if Last(s) == '-' then "" else [Last(s)]
  }

  method Chunkify(s: string) returns (out: string)
    ensures out == Chunked(s, |s| / 7)
  {
    out := "";
    var chunks := |s| / 7;
    for i := 0 to chunks
      invariant out == Chunked(s, i) + if 0 < i < chunks then "-" else ""
    {
      out := out + s[i * 7..(i + 1) * 7];
      if i != chunks - 1 {
        out := out + "-";
      }
    }
  }

  lemma {:induction false} UnchunkedConcat(s: string, t: string)
    ensures Unchunked(s + t) == Unchunked(s) + Unchunked(t)
    decreases |t|
  {
    if t == "" {
      assert s + t == s;
    } else {
      assert (s + t)[..|s + t| - 1] == s + t[..|t| - 1];
      UnchunkedConcat(s, t[..|t| - 1]);
    }
  }

  lemma {:induction false} UnchunkedText(s: string)
    requires Base32Text(s)
    ensures Unchunked(s) == s
  {
    if s != "" {
      UnchunkedText(s[..|s| - 1]);
    }
  }

  lemma {:induction false} UnchunkChunk(s: string, n: nat)
    requires Base32Text(s) && 7 * n <= |s|
    ensures Unchunked(Chunked(s, n)) == s[..7 * n]
  {
    if n == 1 {
      UnchunkedText(s[..7]);
    } else if n > 1 {
      var part := s[7 * (n - 1)..7 * n];
      UnchunkChunk(s, n - 1);
      UnchunkedDash(Chunked(s, n - 1), part);
      UnchunkedText(part);
      assert s[..7 * n] == s[..7 * (n - 1)] + part;
    }
  }

  /** Removing dashes removes nothing else. */
  lemma {:induction false} NothingButDashes(s: string)
    ensures '-' !in Unchunked(s)
    ensures '-' !in s ==> Unchunked(s) == s
  {
    if s != "" {
      NothingButDashes(s[..|s| - 1]);
    }
  }

  /** Dashes stand at every eighth place, and the text's characters, in order, at the others. */
  lemma {:induction false} ChunkedAt(s: string, n: nat, i: nat)
    requires 0 < n && 7 * n <= |s| && i < 8 * n - 1
    ensures |Chunked(s, n)| == 8 * n - 1
    ensures Chunked(s, n)[i] == if i % 8 == 7 then '-' else s[i - i / 8]
  {
    if n > 1 {
      ChunkedAt(s, n - 1, if i < 8 * n - 9 then i else 0);
      if i >= 8 * n - 8 {
        assert i / 8 == n - 1;
      }
    }
  }

  lemma UnchunkedDash(before: string, after: string)
    ensures Unchunked(before + "-" + after) == Unchunked(before) + Unchunked(after)
  {
    UnchunkedConcat(before + "-", after);
    UnchunkedConcat(before, "-");
    assert "-"[..0] == "";
    assert Unchunked("-") == "";
    assert Unchunked(before) + "" == Unchunked(before);
  }

  // ---------------------------------------------------------------------------
  // Printing and parsing
  // ---------------------------------------------------------------------------

  /** The 56 characters of an id, before the dashes go in. */
  function Characters(id: Bytes): (w: string)
    requires |id| == 32
    ensures |w| == 56 && Base32Text(w)
  {
    EncodedText(id);
    Luhnified(Encode(id), 4)
  }

  function Print(id: Bytes): string
    requires |id| == 32
  {
    Chunked(Characters(id), 8)
  }

  /** None where the code panics. */
  ghost function Parse(t: string): Option<Bytes> {
    var letters := Unluhnified(Unchunked(t), 4);
    if letters.None? then None
    else
      var bytes := Decode(letters.value);
      if bytes.None? || |bytes.value| != 32 then None else bytes
  }

  method ToString(id: Bytes) returns (t: string)
    requires |id| == 32
    ensures t == Print(id)
  {
    EncodedText(id);
    var w := Luhnify(Encode(id));
    t := Chunkify(w.value);
  }

  method FromString(t: string) returns (r: Option<Bytes>)
    ensures r == Parse(t)
  {
    var letters := Unluhnify(Unchunked(t));
    if letters.None? {
      return None;
    }
    r := Decode(letters.value);
    if r.Some? && |r.value| != 32 {
      r := None;
    }
  }

  lemma EncodedText(id: Bytes)
    ensures Base32Text(Encode(id)) && (|id| == 32 ==> |Encode(id)| == 52)
  {
    DecodeEncode(id);
    DeviceIdLengths(id, "");
  }

  /** An id survives being printed and parsed. */
  lemma ParsePrint(id: Bytes)
    requires |id| == 32
    ensures Parse(Print(id)) == Some(id)
  {
    EncodedText(id);
    var letters := Encode(id);
    UnchunkChunk(Characters(id), 8);
    assert Characters(id)[..56] == Characters(id);
    UnluhnifyLuhnify(letters, 4);
    assert letters[..52] == letters;
    DecodeEncode(id);
  }

  /** Text that is accepted starts with the characters of the id it gives; what follows is ignored. */
  lemma ParsedStartsWithId(t: string)
    requires Parse(t).Some?
    ensures |Parse(t).value| == 32 && |Unchunked(t)| >= 56
    ensures Unchunked(Print(Parse(t).value)) == Characters(Parse(t).value) == Unchunked(t)[..56]
  {
    var w := Unchunked(t);
    var letters := Unluhnified(w, 4).value;
    LuhnifyUnluhnify(w, 4);
    EncodeDecode(letters);
    var id := Parse(t).value;
    assert Encode(id) == letters;
    UnchunkChunk(Characters(id), 8);
    assert Characters(id)[..56] == Characters(id);
  }

  /** Printing reproduces accepted characters exactly when there are 56 of them. */
  lemma PrintParseIff(t: string)
    requires Parse(t).Some?
    ensures |Parse(t).value| == 32
    ensures Unchunked(Print(Parse(t).value)) == Unchunked(t) <==> |Unchunked(t)| == 56
  {
    ParsedStartsWithId(t);
    if |Unchunked(t)| == 56 {
      assert Unchunked(t)[..56] == Unchunked(t);
    }
  }

  /** A text is accepted exactly when its groups pass and the letters below them decode. */
  lemma AcceptedIff(t: string)
    ensures Parse(t).Some? <==>
            && Unluhnified(Unchunked(t), 4).Some?
            && Decode(Unluhnified(Unchunked(t), 4).value).Some?
  {
    if Unluhnified(Unchunked(t), 4).Some? {
      LuhnifyUnluhnify(Unchunked(t), 4);
      DeviceIdLengths([], Unluhnified(Unchunked(t), 4).value);
    }
  }

  // ---------------------------------------------------------------------------
  // Typing errors
  // ---------------------------------------------------------------------------

  lemma CharactersPass(id: Bytes, g: nat)
    requires |id| == 32 && g < 4
    ensures GroupPasses(Characters(id), g)
  {
    EncodedText(id);
    UnluhnifyLuhnify(Encode(id), 4);
  }

  /** One wrong character, letter or not, breaks the group it is in. */
  lemma ChangeBreaksGroup(w: string, k: nat, c: char)
    requires k < |w| && c != w[k] && GroupPasses(w, k / 14)
    ensures !GroupPasses(w[k := c], k / 14)
  {
    var g, i := k / 14, k % 14;
    var part := w[14 * g..14 * g + 13];
    if i < 13 {
      assert w[k := c][14 * g..14 * g + 13] == part[i := c];
      if InAlphabet(c) {
        ChangeDetected(part, i, c);
      } else {
        assert part[i := c][i] == c;
      }
    } else {
      assert w[k := c][14 * g..14 * g + 13] == part;
    }
  }

  /** A text with the characters of an id but for one is never accepted, however it is dashed. */
  lemma OneWrongCharacterIsRejected(id: Bytes, k: nat, c: char, t: string)
    requires |id| == 32 && k < 56 && c != Characters(id)[k]
    requires Unchunked(t) == Characters(id)[k := c]
    ensures Parse(t) == None
  {
    CharactersPass(id, k / 14);
    ChangeBreaksGroup(Characters(id), k, c);
    assert !GroupPasses(Unchunked(t), k / 14);
  }

  /** The check letter of a group completes its sum: weight one, like the last of the 13. */
  lemma CheckCompletes(s: string, c: char)
    requires Base32Text(s) && InAlphabet(c)
    ensures c == CheckChar(s) <==> (LuhnSum(s) + CodePoint(c)) % 32 == 0
  {
    LetterCodePoint((32 - LuhnSum(s) % 32) % 32);
    CodePointLetter(c);
    Completes(LuhnSum(s), CodePoint(c));
  }

  /** Swapping the last of the 13 with the check letter is never noticed. */
  lemma SwapWithCheckPasses(w: string, g: nat)
    requires GroupPasses(w, g)
    ensures GroupPasses(SwapAt(w, 14 * g + 12), g)
  {
    var part, check := w[14 * g..14 * g + 13], w[14 * g + 13];
    LetterCodePoint((32 - LuhnSum(part) % 32) % 32);
    assert SwapAt(w, 14 * g + 12)[14 * g..14 * g + 13] == part[12 := check];
    LastForCheck(part, check);
  }

  lemma LastForCheck(part: string, check: char)
    requires |part| == 13 && Base32Text(part) && InAlphabet(check) && check == CheckChar(part)
    ensures Base32Text(part[12 := check]) && CheckChar(part[12 := check]) == part[12]
  {
    SumAfterChange(part, 12, check);
    AddendIs(12, CodePoint(part[12]));
    AddendIs(12, CodePoint(check));
    CheckCompletes(part, check);
    CheckCompletes(part[12 := check], part[12]);
  }

  /** Which swaps of neighbours the check letters let through. */
  predicate Unnoticed(w: string, k: nat)
    requires k + 1 < |w|
  {
    || w[k] == w[k + 1]
    || k % 14 == 12
    || (k % 14 < 12 && ((w[k] == 'A' && w[k + 1] == '7') || (w[k] == '7' && w[k + 1] == 'A')))
  }

  lemma SwappedGroupIff(w: string, k: nat)
    requires k + 1 < |w| && GroupPasses(w, k / 14)
    ensures GroupPasses(SwapAt(w, k), k / 14) <==> Unnoticed(w, k)
  {
    var g, i := k / 14, k % 14;
    var part := w[14 * g..14 * g + 13];
    if i < 12 {
      assert SwapAt(w, k)[14 * g..14 * g + 13] == SwapAt(part, i);
      SwapDetectedIff(part, i);
    } else if i == 12 {
      SwapWithCheckPasses(w, g);
    } else {
      assert SwapAt(w, k)[14 * g..14 * g + 13] == part;
    }
  }

  lemma OtherGroupsPass(w: string, k: nat, g: nat)
    requires k + 1 < |w| && GroupPasses(w, g) && g != k / 14 && (g != (k + 1) / 14 || w[k] == w[k + 1])
    ensures GroupPasses(SwapAt(w, k), g)
  {
    assert SwapAt(w, k)[14 * g..14 * g + 13] == w[14 * g..14 * g + 13];
  }

  /** Swapping two neighbouring characters of an id passes its check letters exactly when it is unnoticed. */
  lemma SwapPassesIff(id: Bytes, k: nat)
    requires |id| == 32 && k + 1 < 56
    ensures Unluhnified(SwapAt(Characters(id), k), 4).Some? <==> Unnoticed(Characters(id), k)
  {
    var w := Characters(id);
    CharactersPass(id, k / 14);
    SwappedGroupIff(w, k);
    if Unnoticed(w, k) {
      forall g: nat | g < 4 ensures GroupPasses(SwapAt(w, k), g) {
        CharactersPass(id, g);
        if g != k / 14 {
          OtherGroupsPass(w, k, g);
        }
      }
    }
  }

  /**
    * An id with two neighbouring characters swapped is accepted, however it is dashed, exactly when the
    * check letters do not notice and the last letter still ends in zero bits.
    */
  lemma SwapAcceptedIff(id: Bytes, k: nat, t: string)
    requires |id| == 32 && k + 1 < 56 && Unchunked(t) == SwapAt(Characters(id), k)
    ensures Parse(t).Some? <==> Unnoticed(Characters(id), k) && (Unchunked(t)[54] == 'A' || Unchunked(t)[54] == 'Q')
  {
    var w := Unchunked(t);
    AcceptedIff(t);
    SwapPassesIff(id, k);
    if Unluhnified(w, 4).Some? {
      LuhnifyUnluhnify(w, 4);
      LastLetterDecides(Data(w, 4));
      assert Data(w, 4)[51] == w[54];
    }
  }

  /** So every other swap is rejected, however the text is dashed. */
  lemma NoticedSwapIsRejected(id: Bytes, k: nat, t: string)
    requires |id| == 32 && k + 1 < 56 && !Unnoticed(Characters(id), k)
    requires Unchunked(t) == SwapAt(Characters(id), k)
    ensures Parse(t) == None
  {
    SwapPassesIff(id, k);
  }
}
