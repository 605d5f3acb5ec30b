// Hexadecimal text: the key parser of src/bin/server/main.rs and the token
// identifiers of src/oidc/protocol.rs.
module Hex {
  import opened Wrappers
  import opened Utf8

  // ------------------------------------------------------ Digits and bytes

  // The lower-case digit of n, for n below sixteen.
  function Digit(n: bv8): (c: char)
    requires n < 16
    ensures IsLowerDigit(c)
  {
    if n == 0 then '0' else if n == 1 then '1' else if n == 2 then '2' else if n == 3 then '3'
    else if n == 4 then '4' else if n == 5 then '5' else if n == 6 then '6' else if n == 7 then '7'
    else if n == 8 then '8' else if n == 9 then '9' else if n == 10 then 'a' else if n == 11 then 'b'
    else if n == 12 then 'c' else if n == 13 then 'd' else if n == 14 then 'e' else 'f'
  }

  predicate IsLowerDigit(c: char) {
    '0' <= c <= '9' || 'a' <= c <= 'f'
  }

  predicate IsDigit(c: char) {
    IsLowerDigit(c) || 'A' <= c <= 'F'
  }

  // `char::to_digit(16)`.
  function DigitValue(c: char): (v: Option<bv8>)
    ensures v.Some? <==> IsDigit(c)
    ensures v.Some? ==> v.value < 16 && Digit(v.value) == LowerDigit(c)
  {
    match c
    case '0' => Some(0) case '1' => Some(1) case '2' => Some(2) case '3' => Some(3)
    case '4' => Some(4) case '5' => Some(5) case '6' => Some(6) case '7' => Some(7)
    case '8' => Some(8) case '9' => Some(9)
    case 'a' => Some(10) case 'b' => Some(11) case 'c' => Some(12)
    case 'd' => Some(13) case 'e' => Some(14) case 'f' => Some(15)
    case 'A' => Some(10) case 'B' => Some(11) case 'C' => Some(12)
    case 'D' => Some(13) case 'E' => Some(14) case 'F' => Some(15)
    case _ => None
  }

  function LowerDigit(c: char): char {
    match c
    case 'A' => 'a' case 'B' => 'b' case 'C' => 'c' case 'D' => 'd' case 'E' => 'e' case 'F' => 'f'
    case _ => c
  }

  lemma DigitValueOfDigit(n: bv8)
    requires n < 16
    ensures DigitValue(Digit(n)) == Some(n)
  {
  }

  // `{:02x}`.
  function HexByte(b: bv8): string {
    assert b >> 4 < 16 && b & 0x0F < 16;
    [Digit(b >> 4), Digit(b & 0x0F)]
  }

  lemma Nibbles(hi: bv8, lo: bv8)
    requires hi < 16 && lo < 16
    ensures ((hi << 4) | lo) >> 4 == hi && ((hi << 4) | lo) & 0x0F == lo
  {
  }

  lemma NibblesOf(b: bv8)
    ensures b >> 4 < 16 && b & 0x0F < 16 && ((b >> 4) << 4) | (b & 0x0F) == b
  {
  }

  lemma HexByteInjective(a: bv8, b: bv8)
    requires HexByte(a) == HexByte(b)
    ensures a == b
  {
    NibblesOf(a);
    NibblesOf(b);
    assert HexByte(a)[0] == HexByte(b)[0] && HexByte(a)[1] == HexByte(b)[1];
    DigitValueOfDigit(a >> 4);
    DigitValueOfDigit(b >> 4);
    DigitValueOfDigit(a & 0x0F);
    DigitValueOfDigit(b & 0x0F);
  }

  function HexBytes(bytes: seq<bv8>): (s: string)
    ensures |s| == 2 * |bytes|
    ensures forall i | 0 <= i < |s| :: IsLowerDigit(s[i])
  {
    if bytes == [] then [] else HexByte(bytes[0]) + HexBytes(bytes[1..])
  }

  lemma {:induction false} HexBytesAt(bytes: seq<bv8>, i: nat)
    requires i < |bytes|
    ensures HexBytes(bytes)[2 * i..2 * i + 2] == HexByte(bytes[i])
  {
    var s := HexBytes(bytes);
    assert s == HexByte(bytes[0]) + HexBytes(bytes[1..]);
    if i > 0 {
      HexBytesAt(bytes[1..], i - 1);
      assert s[2 * i..2 * i + 2] == HexBytes(bytes[1..])[2 * (i - 1)..2 * (i - 1) + 2];
    }
  }

  lemma HexBytesInjective(a: seq<bv8>, b: seq<bv8>)
    requires HexBytes(a) == HexBytes(b)
    ensures a == b
  {
    assert |a| == |b|;
    forall i | 0 <= i < |a|
      ensures a[i] == b[i]
    {
      HexBytesAt(a, i);
      HexBytesAt(b, i);
      HexByteInjective(a[i], b[i]);
    }
  }

  // ------------------------------------------------------------ The MAC key

  // Slicing inside a character is the one way the parser can panic.
  datatype KeyOutcome = Key(bytes: seq<bv8>) | NotAKey | Panic

  // `u8::from_str_radix(s, 16)` on two bytes of text: two digits, or a plus
  // sign and one digit.
  function PairValue(s: string): (v: Option<bv8>)
    ensures v.Some? ==> |s| == 2
  {
    if |s| != 2 || DigitValue(s[1]) == None then None
    else if s[0] == '+' then DigitValue(s[1])
    else
      match DigitValue(s[0])
      case None => None
      case Some(hi) => Some((hi << 4) | DigitValue(s[1]).value)
  }

  // The first i pairs of characters are pairs of digits (or sign and digit).
  ghost predicate PairsRead(hex: string, i: nat) {
    2 * i <= |hex| && forall j | 0 <= j < i :: PairValue(hex[2 * j..2 * j + 2]).Some?
  }

  function PairValues(hex: string, i: nat): (bytes: seq<bv8>)
    requires PairsRead(hex, i)
    ensures |bytes| == i
    ensures forall j | 0 <= j < i :: Some(bytes[j]) == PairValue(hex[2 * j..2 * j + 2])
  {
    seq(i, j requires 0 <= j < i => PairValue(hex[2 * j..2 * j + 2]).value)
  }

  // A key is what 64 bytes of text made of 32 such pairs give; the parser
  // panics exactly when, past some pairs it could read, the next pair of bytes
  // ends inside a character.
  ghost predicate KeyOutcomeFor(hex: string, r: KeyOutcome) {
    var panics := |Encode(hex)| == 64 && exists i: nat :: PanicsAt(hex, i);
    && (r.Key? <==> |hex| == 64 && PairsRead(hex, 32))
    && (r.Key? ==> r.bytes == PairValues(hex, 32))
    && (r.Panic? <==> panics)
  }

  ghost predicate PanicsAt(hex: string, i: nat) {
    i < 32 && PairsRead(hex, i) && !IsCharBoundary(hex, 2 * i + 2)
  }

  lemma {:induction false} PairsAreBytes(hex: string, i: nat)
    requires PairsRead(hex, i)
    ensures Offset(hex, 2 * i) == 2 * i
  {
    if i > 0 {
      PairsAreBytes(hex, i - 1);
      var pair := hex[2 * (i - 1)..2 * (i - 1) + 2];
      assert PairValue(pair).Some? && pair[0] == hex[2 * i - 2] && pair[1] == hex[2 * i - 1];
      AsciiStep(hex, 2 * i - 2);
      AsciiStep(hex, 2 * i - 1);
    }
  }

  lemma AsciiStep(s: string, k: nat)
    requires k < |s| && s[k] as int < 0x80
    ensures Offset(s, k + 1) == Offset(s, k) + 1
  {
    CharAt(s, k);
  }

  // When the next pair of bytes ends between characters, it is text; if that
  // text can be read, it is the next pair of characters.
  lemma NextPair(hex: string, i: nat)
    requires |Encode(hex)| == 64 && i < 32 && PairsRead(hex, i)
    ensures IsCharBoundary(hex, 2 * i)
    ensures IsCharBoundary(hex, 2 * i + 2) ==>
              (PairValue(Slice(hex, 2 * i, 2 * i + 2)).Some? <==> PairsRead(hex, i + 1))
    ensures IsCharBoundary(hex, 2 * i + 2) && PairsRead(hex, i + 1) ==>
              Slice(hex, 2 * i, 2 * i + 2) == hex[2 * i..2 * i + 2]
    ensures PairsRead(hex, i + 1) ==> IsCharBoundary(hex, 2 * i + 2)
  {
    PairsAreBytes(hex, i);
    OffsetIsBoundary(hex, 2 * i);
    if IsCharBoundary(hex, 2 * i + 2) {
      var k := CharIndex(hex, 2 * i + 2);
      if k < 2 * i { OffsetMonotone(hex, k, 2 * i); }
      SliceBytes(hex, 2 * i, k);
      EncodeInjective(Slice(hex, 2 * i, 2 * i + 2), hex[2 * i..k]);
      if PairsRead(hex, i + 1) {
        PairsAreBytes(hex, i + 1);
        SameOffset(hex, k, 2 * i + 2);
      }
    }
    if PairsRead(hex, i + 1) {
      PairsAreBytes(hex, i + 1);
      OffsetIsBoundary(hex, 2 * i + 2);
    }
  }

  lemma SameOffset(s: string, j: nat, k: nat)
    requires j <= |s| && k <= |s| && Offset(s, j) == Offset(s, k)
    ensures j == k
  {
    if j < k { OffsetMonotone(s, j, k); }
    if k < j { OffsetMonotone(s, k, j); }
  }

  lemma NotSixtyFour(hex: string)
    requires |Encode(hex)| != 64
    ensures KeyOutcomeFor(hex, NotAKey)
  {
    if |hex| == 64 && PairsRead(hex, 32) {
      PairsAreBytes(hex, 32);
      OffsetEnd(hex);
    }
  }

  lemma OnlyStop(hex: string, i: nat, j: nat)
    requires |Encode(hex)| == 64 && i < 32 && PairsRead(hex, i) && !PairsRead(hex, i + 1)
    requires PanicsAt(hex, j)
    ensures j == i
  {
    if j < i {
      assert PairsRead(hex, j + 1);
      NextPair(hex, j);
    }
  }

  lemma StopsHere(hex: string, i: nat)
    requires |Encode(hex)| == 64 && i < 32 && PairsRead(hex, i) && !PairsRead(hex, i + 1)
    ensures KeyOutcomeFor(hex, if PanicsAt(hex, i) then Panic else NotAKey)
  {
    forall j: nat | PanicsAt(hex, j)
      ensures j == i
    {
      OnlyStop(hex, i, j);
    }
  }

  lemma AllRead(hex: string)
    requires |Encode(hex)| == 64 && PairsRead(hex, 32)
    ensures KeyOutcomeFor(hex, Key(PairValues(hex, 32)))
  {
    PairsAreBytes(hex, 32);
    OffsetEnd(hex);
    SameOffset(hex, 64, |hex|);
    forall j: nat | j < 32
      ensures !PanicsAt(hex, j)
    {
      assert PairsRead(hex, j + 1);
      NextPair(hex, j);
    }
  }

  // At a pair of bytes not yet read: it starts with a character of three bytes
  // or more, or with one of one byte before one of more.
  predicate SplitsCharacter(hex: string, i: nat) {
    && 2 * i < |hex|
    && var width := |EncodeChar(hex[2 * i])|;
       width > 2 || (width == 1 && 2 * i + 1 < |hex| && |EncodeChar(hex[2 * i + 1])| > 1)
  }

  lemma PanicsAtSplit(hex: string, i: nat)
    requires |Encode(hex)| == 64 && i < 32 && PairsRead(hex, i)
    ensures PanicsAt(hex, i) <==> SplitsCharacter(hex, i)
  {
    PairsAreBytes(hex, i);
    OffsetEnd(hex);
    CharAt(hex, 2 * i);
    if |EncodeChar(hex[2 * i])| == 1 {
      OneBeforeNext(hex, 2 * i);
    } else if |EncodeChar(hex[2 * i])| == 2 {
      OffsetIsBoundary(hex, 2 * i + 1);
    } else {
      InsideCharacter(hex, 2 * i, 2 * i + 2);
    }
  }

  // Past a character of one byte, the end of the pair is a boundary exactly
  // when the next character has one byte too.
  lemma OneBeforeNext(s: string, k: nat)
    requires k < |s| && |EncodeChar(s[k])| == 1 && Offset(s, k) == k && k + 1 < |Encode(s)|
    ensures k + 1 < |s| && (IsCharBoundary(s, k + 2) <==> |EncodeChar(s[k + 1])| == 1)
  {
    OffsetEnd(s);
    CharAt(s, k);
    CharAt(s, k + 1);
    if |EncodeChar(s[k + 1])| == 1 {
      OffsetIsBoundary(s, k + 2);
    } else {
      InsideCharacter(s, k + 1, k + 2);
    }
  }

  // A digit, a character of two bytes and 61 digits make the parser panic.
  lemma PanicExample(r: KeyOutcome)
    requires KeyOutcomeFor(['0', '\U{00E9}'] + seq(61, _ => '0'), r)
    ensures r == Panic
  {
    var zeros := seq(61, _ => '0');
    var hex := ['0', '\U{00E9}'] + zeros;
    AsciiBytes(zeros);
    assert hex[1..] == ['\U{00E9}'] + zeros && hex[1..][1..] == zeros;
    assert |Encode(hex)| == 1 + (2 + 61);
    PanicsAtSplit(hex, 0);
  }

  lemma {:induction false} AsciiBytes(s: string)
    requires forall i | 0 <= i < |s| :: s[i] as int < 0x80
    ensures |Encode(s)| == |s|
  {
    if s != [] { AsciiBytes(s[1..]); }
  }

  lemma MoreValues(hex: string, i: nat)
    requires PairsRead(hex, i + 1)
    ensures PairsRead(hex, i)
    ensures PairValues(hex, i + 1) == PairValues(hex, i) + [PairValue(hex[2 * i..2 * i + 2]).value]
  {
  }

  // What looking at the next pair of bytes settles.
  lemma NextOutcome(hex: string, i: nat)
    requires |Encode(hex)| == 64 && i < 32 && PairsRead(hex, i)
    ensures IsCharBoundary(hex, 2 * i)
    ensures !IsCharBoundary(hex, 2 * i + 2) ==> KeyOutcomeFor(hex, Panic)
    ensures IsCharBoundary(hex, 2 * i + 2) ==>
              match PairValue(Slice(hex, 2 * i, 2 * i + 2))
              case None => KeyOutcomeFor(hex, NotAKey)
              case Some(b) => PairsRead(hex, i + 1) && PairValues(hex, i + 1) == PairValues(hex, i) + [b]
  {
    NextPair(hex, i);
    if PairsRead(hex, i + 1) {
      MoreValues(hex, i);
    } else {
      StopsHere(hex, i);
    }
  }

  method HexTo32Bytes(hex: string) returns (r: KeyOutcome)
    ensures KeyOutcomeFor(hex, r)
  {
    if |Encode(hex)| != 64 {
      NotSixtyFour(hex);
      return NotAKey;
    }
    var bytes := new bv8[32];
    for i := 0 to 32
      invariant PairsRead(hex, i)
      invariant bytes[..i] == PairValues(hex, i)
    {
      NextOutcome(hex, i);
      if !IsCharBoundary(hex, 2 * i + 2) {
        return Panic;
      }
      match PairValue(Slice(hex, 2 * i, 2 * i + 2)) {
        case None => return NotAKey;
        case Some(b) => bytes[i] := b;
      }
    }
    AllRead(hex);
    assert bytes[..] == bytes[..32];
    return Key(bytes[..]);
  }

  // The first digit is the high one, written and read.
  lemma HighDigitFirst()
    ensures HexByte(0x1F) == "1f" && PairValue("1f") == Some(0x1F) && PairValue("E0") == Some(0xE0)
  {
    assert HexByte(0x1F)[0] == Digit(1) && HexByte(0x1F)[1] == Digit(15);
    var one: bv8, fourteen: bv8 := 1, 14;
    assert (one << 4) | 15 == 0x1F && (fourteen << 4) | 0 == 0xE0;
  }

  // Writing a key in lower-case digits and parsing it gives the key back.
  lemma KeyRoundTrip(key: seq<bv8>, r: KeyOutcome)
    requires |key| == 32 && KeyOutcomeFor(HexBytes(key), r)
    ensures r == Key(key)
  {
    var hex := HexBytes(key);
    forall j | 0 <= j < 32
      ensures PairValue(hex[2 * j..2 * j + 2]) == Some(key[j])
    {
      HexBytesAt(key, j);
      PairOfByte(key[j]);
    }
    assert PairsRead(hex, 32) && PairValues(hex, 32) == key;
  }

  lemma PairOfByte(b: bv8)
    ensures PairValue(HexByte(b)) == Some(b)
  {
    NibblesOf(b);
    DigitValueOfDigit(b >> 4);
    DigitValueOfDigit(b & 0x0F);
  }

  lemma BytesOfPair(hex: string, j: nat)
    requires 2 * j + 2 <= |hex| && IsDigit(hex[2 * j]) && IsDigit(hex[2 * j + 1])
    ensures var v := PairValue(hex[2 * j..2 * j + 2]);
            v.Some? && HexByte(v.value) == [LowerDigit(hex[2 * j]), LowerDigit(hex[2 * j + 1])]
  {
    var pair := hex[2 * j..2 * j + 2];
    assert pair[0] == hex[2 * j] && pair[1] == hex[2 * j + 1];
    Nibbles(DigitValue(pair[0]).value, DigitValue(pair[1]).value);
  }

  lemma DigitsAreRead(hex: string)
    requires |hex| == 64 && forall i | 0 <= i < 64 :: IsDigit(hex[i])
    ensures PairsRead(hex, 32)
  {
    forall j | 0 <= j < 32
      ensures PairValue(hex[2 * j..2 * j + 2]).Some?
    {
      BytesOfPair(hex, j);
    }
  }

  lemma DigitsComeBack(hex: string, j: nat)
    requires |hex| == 64 && PairsRead(hex, 32) && j < 32
    requires IsDigit(hex[2 * j]) && IsDigit(hex[2 * j + 1])
    ensures HexBytes(PairValues(hex, 32))[2 * j..2 * j + 2] == [LowerDigit(hex[2 * j]), LowerDigit(hex[2 * j + 1])]
  {
    var bytes := PairValues(hex, 32);
    HexBytesAt(bytes, j);
    assert Some(bytes[j]) == PairValue(hex[2 * j..2 * j + 2]);
    BytesOfPair(hex, j);
  }

  lemma DigitPair(hex: string, j: nat)
    requires |hex| == 64 && PairsRead(hex, 32) && j < 32
    requires IsDigit(hex[2 * j]) && IsDigit(hex[2 * j + 1])
    ensures var text := HexBytes(PairValues(hex, 32));
            text[2 * j] == LowerDigit(hex[2 * j]) && text[2 * j + 1] == LowerDigit(hex[2 * j + 1])
  {
    DigitsComeBack(hex, j);
    InPair(HexBytes(PairValues(hex, 32)), j, LowerDigit(hex[2 * j]), LowerDigit(hex[2 * j + 1]));
  }

  lemma InPair(text: string, j: nat, first: char, second: char)
    requires 2 * j + 2 <= |text| && text[2 * j..2 * j + 2] == [first, second]
    ensures text[2 * j] == first && text[2 * j + 1] == second
  {
    assert text[2 * j..2 * j + 2][0] == first && text[2 * j..2 * j + 2][1] == second;
  }

  // Every text of 64 digits is a key, whose digits are that text in lower case.
  lemma DigitsRoundTrip(hex: string, r: KeyOutcome)
    requires |hex| == 64 && forall i | 0 <= i < 64 :: IsDigit(hex[i])
    requires KeyOutcomeFor(hex, r)
    ensures r.Key? && |r.bytes| == 32
    ensures forall i | 0 <= i < 64 :: HexBytes(r.bytes)[i] == LowerDigit(hex[i])
  {
    DigitsAreRead(hex);
    forall i | 0 <= i < 64
      ensures HexBytes(r.bytes)[i] == LowerDigit(hex[i])
    {
      DigitPair(hex, i / 2);
      assert i == 2 * (i / 2) || i == 2 * (i / 2) + 1;
    }
  }

  // A plus sign is read as nothing.
  lemma PlusSignIsRead(c: char)
    requires IsDigit(c)
    ensures !IsDigit('+') && PairValue(['+', c]) == DigitValue(c)
  {
  }

  // So text that is not digits can be a key: that of the text with a zero for
  // each plus sign.
  lemma PlusForZero(hex: string, i: nat, r: KeyOutcome, r': KeyOutcome)
    requires |hex| == 64 && forall j | 0 <= j < 64 :: IsDigit(hex[j])
    requires i < 32 && hex[2 * i] == '0'
    requires KeyOutcomeFor(hex, r) && KeyOutcomeFor(hex[2 * i := '+'], r')
    ensures r.Key? && r' == r
  {
    DigitsAreRead(hex);
    var hex' := hex[2 * i := '+'];
    forall j | 0 <= j < 32
      ensures PairValue(hex'[2 * j..2 * j + 2]) == PairValue(hex[2 * j..2 * j + 2])
    {
      SamePair(hex, i, j);
    }
    assert PairsRead(hex', 32) && PairValues(hex', 32) == PairValues(hex, 32);
  }

  function ZeroForPlus(hex: string): string {
    seq(|hex|, i requires 0 <= i < |hex| => if hex[i] == '+' then '0' else hex[i])
  }

  // A text that is a key is 64 digits exactly when it has no plus sign; and
  // with a zero for each plus sign it is 64 digits and the same key.
  lemma PlusIsTheException(hex: string, r: KeyOutcome, r': KeyOutcome)
    requires KeyOutcomeFor(hex, r) && r.Key? && KeyOutcomeFor(ZeroForPlus(hex), r')
    ensures (forall i | 0 <= i < 64 :: IsDigit(hex[i])) <==> '+' !in hex
    ensures (forall i | 0 <= i < 64 :: IsDigit(ZeroForPlus(hex)[i])) && r' == r
  {
    var zeros := ZeroForPlus(hex);
    forall i | 0 <= i < 64
      ensures IsDigit(hex[i]) || hex[i] == '+'
    {
      PairIsRead(hex, i / 2);
      assert i == 2 * (i / 2) || i == 2 * (i / 2) + 1;
    }
    forall j | 0 <= j < 32
      ensures PairValue(zeros[2 * j..2 * j + 2]) == PairValue(hex[2 * j..2 * j + 2])
    {
      PairIsRead(hex, j);
    }
    assert PairsRead(zeros, 32) && PairValues(zeros, 32) == PairValues(hex, 32);
  }

  lemma PairIsRead(hex: string, j: nat)
    requires 2 * j + 2 <= |hex| && PairValue(hex[2 * j..2 * j + 2]).Some?
    ensures IsDigit(hex[2 * j + 1]) && (IsDigit(hex[2 * j]) || hex[2 * j] == '+')
    ensures PairValue(ZeroForPlus(hex)[2 * j..2 * j + 2]) == PairValue(hex[2 * j..2 * j + 2])
  {
    var pair, zeros := hex[2 * j..2 * j + 2], ZeroForPlus(hex)[2 * j..2 * j + 2];
    assert pair[0] == hex[2 * j] && pair[1] == hex[2 * j + 1];
    assert zeros == [if pair[0] == '+' then '0' else pair[0], pair[1]];
  }

  lemma SamePair(hex: string, i: nat, j: nat)
    requires |hex| == 64 && forall k | 0 <= k < 64 :: IsDigit(hex[k])
    requires i < 32 && j < 32 && hex[2 * i] == '0'
    ensures PairValue(hex[2 * i := '+'][2 * j..2 * j + 2]) == PairValue(hex[2 * j..2 * j + 2])
  {
    var pair, pair' := hex[2 * j..2 * j + 2], hex[2 * i := '+'][2 * j..2 * j + 2];
    if i == j {
      assert pair' == ['+', pair[1]] && pair == ['0', pair[1]];
      PlusSignIsRead(pair[1]);
    } else {
      assert pair' == pair;
    }
  }

  // ------------------------------------------------------ Token identifiers

  // The version (4) and variant bits of section 4.4 of RFC 4122 put in place.
  function Stamp(fill: seq<bv8>): (bytes: seq<bv8>)
    requires |fill| == 16
    ensures |bytes| == 16
  {
    fill[6 := (fill[6] & 0x0F) | 0x40][8 := (fill[8] & 0x3F) | 0x80]
  }

  function Groups(bytes: seq<bv8>): string
    requires |bytes| == 16
  {
    HexBytes(bytes[..4]) + "-" + HexBytes(bytes[4..6]) + "-" + HexBytes(bytes[6..8])
    + "-" + HexBytes(bytes[8..10]) + "-" + HexBytes(bytes[10..])
  }

  function Jti(fill: seq<bv8>): string
    requires |fill| == 16
  {
    Groups(Stamp(fill))
  }

  // The random fill is an argument.
  method RandomJti(fill: seq<bv8>) returns (jti: string)
    requires |fill| == 16
    ensures jti == Jti(fill)
  {
    var bytes := new bv8[16](i requires 0 <= i < 16 => fill[i]);
    assert bytes[..] == fill;
    bytes[6] := (bytes[6] & 0x0F) | 0x40;
    bytes[8] := (bytes[8] & 0x3F) | 0x80;
    assert bytes[..] == Stamp(fill);
    jti := HexBytes(bytes[..4]) + "-" + HexBytes(bytes[4..6]) + "-" + HexBytes(bytes[6..8])
    + "-" + HexBytes(bytes[8..10]) + "-" + HexBytes(bytes[10..]);
    assert bytes[..4] == bytes[..][..4] && bytes[4..6] == bytes[..][4..6];
    assert bytes[6..8] == bytes[..][6..8] && bytes[8..10] == bytes[..][8..10] && bytes[10..] == bytes[..][10..];
  }

  // The places of the five groups in the text.
  lemma Places(a: string, b: string, c: string, d: string, e: string)
    requires |a| == 8 && |b| == |c| == |d| == 4 && |e| == 12
    ensures var s := a + "-" + b + "-" + c + "-" + d + "-" + e;
            && |s| == 36
            && s[..8] == a && s[8] == '-' && s[9..13] == b && s[13] == '-'
            && s[14..18] == c && s[18] == '-' && s[19..23] == d && s[23] == '-' && s[24..] == e
  {
  }

  lemma GroupPlaces(bytes: seq<bv8>)
    requires |bytes| == 16
    ensures var s := Groups(bytes);
            && |s| == 36
            && s[..8] == HexBytes(bytes[..4]) && s[8] == '-' && s[9..13] == HexBytes(bytes[4..6]) && s[13] == '-'
            && s[14..18] == HexBytes(bytes[6..8]) && s[18] == '-' && s[19..23] == HexBytes(bytes[8..10])
            && s[23] == '-' && s[24..] == HexBytes(bytes[10..])
  {
    Places(HexBytes(bytes[..4]), HexBytes(bytes[4..6]), HexBytes(bytes[6..8]), HexBytes(bytes[8..10]),
           HexBytes(bytes[10..]));
  }

  lemma VersionBits(b: bv8)
    ensures HexByte((b & 0x0F) | 0x40)[0] == '4'
  {
    assert ((b & 0x0F) | 0x40) >> 4 == 4;
  }

  lemma VariantBits(b: bv8)
    ensures HexByte((b & 0x3F) | 0x80)[0] in "89ab"
  {
    var top := ((b & 0x3F) | 0x80) >> 4;
    assert top == 8 || top == 9 || top == 10 || top == 11;
    assert "89ab"[0] == '8' && "89ab"[1] == '9' && "89ab"[2] == 'a' && "89ab"[3] == 'b';
  }

  // Every identifier has the layout of a version-4 UUID.
  lemma JtiLayout(fill: seq<bv8>)
    requires |fill| == 16
    ensures var s := Jti(fill);
            && |s| == 36
            && (forall i | 0 <= i < 36 :: if i in {8, 13, 18, 23} then s[i] == '-' else IsLowerDigit(s[i]))
            && s[14] == '4' && s[19] in "89ab"
  {
    var s, bytes := Jti(fill), Stamp(fill);
    GroupPlaces(bytes);
    assert s[14] == s[14..18][0] && s[19] == s[19..23][0];
    HexBytesAt(bytes[6..8], 0);
    HexBytesAt(bytes[8..10], 0);
    VersionBits(fill[6]);
    VariantBits(fill[8]);
    forall i | 0 <= i < 36 && i !in {8, 13, 18, 23}
      ensures IsLowerDigit(s[i])
    {
      if i < 8 { assert s[i] == s[..8][i]; }
      else if i < 13 { assert s[i] == s[9..13][i - 9]; }
      else if i < 18 { assert s[i] == s[14..18][i - 14]; }
      else if i < 23 { assert s[i] == s[19..23][i - 19]; }
      else { assert s[i] == s[24..][i - 24]; }
    }
  }

  // The bits set, and those taken over from the fill.
  lemma StampBits(fill: seq<bv8>)
    requires |fill| == 16
    ensures var bytes := Stamp(fill);
            && (forall i | 0 <= i < 16 && i != 6 && i != 8 :: bytes[i] == fill[i])
            && bytes[6] >> 4 == 4 && bytes[6] & 0x0F == fill[6] & 0x0F
            && bytes[8] >> 6 == 2 && bytes[8] & 0x3F == fill[8] & 0x3F
  {
    StampedByte(fill[6]);
    StampedByte(fill[8]);
  }

  lemma StampedByte(b: bv8)
    ensures ((b & 0x0F) | 0x40) >> 4 == 4 && ((b & 0x0F) | 0x40) & 0x0F == b & 0x0F
    ensures ((b & 0x3F) | 0x80) >> 6 == 2 && ((b & 0x3F) | 0x80) & 0x3F == b & 0x3F
  {
  }

  // Without its hyphens the identifier is the digits of the stamped bytes.
  lemma JtiIsDigits(fill: seq<bv8>)
    requires |fill| == 16
    ensures var s := Jti(fill);
            |s| == 36 && s[..8] + s[9..13] + s[14..18] + s[19..23] + s[24..] == HexBytes(Stamp(fill))
  {
    var b := Stamp(fill);
    GroupPlaces(b);
    HexConcat(b[..4], b[4..6]);
    HexConcat(b[..6], b[6..8]);
    HexConcat(b[..8], b[8..10]);
    HexConcat(b[..10], b[10..]);
    assert b[..4] + b[4..6] == b[..6] && b[..6] + b[6..8] == b[..8] && b[..8] + b[8..10] == b[..10]
           && b[..10] + b[10..] == b;
  }

  lemma {:induction false} HexConcat(a: seq<bv8>, b: seq<bv8>)
    ensures HexBytes(a + b) == HexBytes(a) + HexBytes(b)
  {
    if a == [] {
      assert a + b == b;
    } else {
      assert (a + b)[0] == a[0] && (a + b)[1..] == a[1..] + b;
      HexConcat(a[1..], b);
    }
  }

  // Two fills agree on the 122 bits that are kept.
  ghost predicate SameKeptBits(a: seq<bv8>, b: seq<bv8>)
    requires |a| == 16 && |b| == 16
  {
    && (forall i | 0 <= i < 16 && i != 6 && i != 8 :: a[i] == b[i])
    && a[6] & 0x0F == b[6] & 0x0F
    && a[8] & 0x3F == b[8] & 0x3F
  }

  lemma KeptBits(x: bv8, y: bv8)
    ensures (x & 0x0F) | 0x40 == (y & 0x0F) | 0x40 <==> x & 0x0F == y & 0x0F
    ensures (x & 0x3F) | 0x80 == (y & 0x3F) | 0x80 <==> x & 0x3F == y & 0x3F
  {
  }

  lemma GroupsInjective(a: seq<bv8>, b: seq<bv8>)
    requires |a| == 16 && |b| == 16 && Groups(a) == Groups(b)
    ensures a == b
  {
    GroupPlaces(a);
    GroupPlaces(b);
    HexBytesInjective(a[..4], b[..4]);
    HexBytesInjective(a[4..6], b[4..6]);
    HexBytesInjective(a[6..8], b[6..8]);
    HexBytesInjective(a[8..10], b[8..10]);
    HexBytesInjective(a[10..], b[10..]);
    assert a == a[..4] + a[4..6] + a[6..8] + a[8..10] + a[10..];
    assert b == b[..4] + b[4..6] + b[6..8] + b[8..10] + b[10..];
  }

  lemma StampKeeps(a: seq<bv8>, b: seq<bv8>)
    requires |a| == 16 && |b| == 16
    ensures Stamp(a) == Stamp(b) <==> SameKeptBits(a, b)
  {
    var s, t := Stamp(a), Stamp(b);
    KeptBits(a[6], b[6]);
    KeptBits(a[8], b[8]);
    assert forall i | 0 <= i < 16 && i != 6 && i != 8 :: s[i] == a[i] && t[i] == b[i];
    assert s[6] == (a[6] & 0x0F) | 0x40 && t[6] == (b[6] & 0x0F) | 0x40;
    assert s[8] == (a[8] & 0x3F) | 0x80 && t[8] == (b[8] & 0x3F) | 0x80;
  }

  // Two fills give one identifier exactly when they agree on the kept bits.
  lemma JtiCollides(a: seq<bv8>, b: seq<bv8>)
    requires |a| == 16 && |b| == 16
    ensures Jti(a) == Jti(b) <==> SameKeptBits(a, b)
  {
    StampKeeps(a, b);
    if Jti(a) == Jti(b) {
      GroupsInjective(Stamp(a), Stamp(b));
    }
  }
}
