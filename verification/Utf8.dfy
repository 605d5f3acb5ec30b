// UTF-8 as section 3 of RFC 3629 defines it, and the byte-offset view of a
// string that `str` gives: `as_bytes`, `is_char_boundary` and slicing.
// A Dafny `char` is a Unicode scalar value, so every `string` has an encoding.
module Utf8 {
  import opened Bits

  function EncodeChar(c: char): (bytes: seq<byte>)
    ensures 1 <= |bytes| <= 4
    ensures !IsContinuation(bytes[0])
    ensures forall j | 0 < j < |bytes| :: IsContinuation(bytes[j])
    ensures bytes[0] < 0x80 ==> |bytes| == 1 && bytes[0] == c as int
  {
    var n := c as int;
    if n < 0x80 then [n]
    else if n < 0x800 then [0xC0 + n / 64, 0x80 + n % 64]
    else if n < 0x1_0000 then [0xE0 + n / 4096, 0x80 + n / 64 % 64, 0x80 + n % 64]
    else [0xF0 + n / 26_2144, 0x80 + n / 4096 % 64, 0x80 + n / 64 % 64, 0x80 + n % 64]
  }

  // `str::as_bytes`.
  function Encode(s: string): (bytes: seq<byte>)
    ensures |s| <= |bytes|
  {
    if s == [] then [] else EncodeChar(s[0]) + Encode(s[1..])
  }

  predicate IsContinuation(b: byte) {
    0x80 <= b < 0xC0
  }

  // `str::is_char_boundary`.
  predicate IsCharBoundary(s: string, i: nat) {
    var bytes := Encode(s);
    i == 0 || i == |bytes| || (i < |bytes| && !IsContinuation(bytes[i]))
  }

  // The byte offset of the k-th character.
  function Offset(s: string, k: nat): nat
    requires k <= |s|
  {
    |Encode(s[..k])|
  }

  lemma {:induction false} EncodeConcat(a: string, b: string)
    ensures Encode(a + b) == Encode(a) + Encode(b)
  {
    if a == [] {
      assert a + b == b;
    } else {
      EncodeConcat(a[1..], b);
      assert (a + b)[0] == a[0] && (a + b)[1..] == a[1..] + b;
      ConcatAssoc(EncodeChar(a[0]), Encode(a[1..]), Encode(b));
    }
  }

  lemma ConcatAssoc(x: seq<byte>, y: seq<byte>, z: seq<byte>)
    ensures x + (y + z) == x + y + z
  {
  }

  // The first byte of a character says how many bytes it has.
  lemma WidthFromFirst(c: char, d: char)
    requires EncodeChar(c)[0] == EncodeChar(d)[0]
    ensures |EncodeChar(c)| == |EncodeChar(d)|
  {
  }

  // The scalar value a character's bytes carry.
  function CodePoint(bytes: seq<int>): int
    requires 1 <= |bytes| <= 4
  {
    if |bytes| == 1 then bytes[0]
    else if |bytes| == 2 then (bytes[0] - 0xC0) * 64 + (bytes[1] - 0x80)
    else if |bytes| == 3 then (bytes[0] - 0xE0) * 4096 + (bytes[1] - 0x80) * 64 + (bytes[2] - 0x80)
    else (bytes[0] - 0xF0) * 26_2144 + (bytes[1] - 0x80) * 4096 + (bytes[2] - 0x80) * 64 + (bytes[3] - 0x80)
  }

  lemma CodePointOfChar(c: char)
    ensures CodePoint(EncodeChar(c)) == c as int
  {
    var n := c as int;
    assert n / 4096 == n / 64 / 64 && n / 26_2144 == n / 4096 / 64;
  }

  // No character's encoding is a prefix of another's.
  lemma EncodeCharInjective(c: char, d: char, rest: seq<byte>, rest': seq<byte>)
    requires EncodeChar(c) + rest == EncodeChar(d) + rest'
    ensures c == d && rest == rest'
  {
    var whole := EncodeChar(c) + rest;
    assert whole[0] == EncodeChar(c)[0] == EncodeChar(d)[0];
    WidthFromFirst(c, d);
    var width := |EncodeChar(c)|;
    assert EncodeChar(c) == whole[..width] == EncodeChar(d);
    assert rest == whole[width..] == rest';
    CodePointOfChar(c);
    CodePointOfChar(d);
  }

  // Two strings with the same bytes are the same string.
  lemma {:induction false} EncodeInjective(s: string, t: string)
    requires Encode(s) == Encode(t)
    ensures s == t
  {
    if s != [] && t != [] {
      EncodeCharInjective(s[0], t[0], Encode(s[1..]), Encode(t[1..]));
      EncodeInjective(s[1..], t[1..]);
    }
  }

  lemma EncodeSplit(s: string, k: nat)
    requires k <= |s|
    ensures Encode(s) == Encode(s[..k]) + Encode(s[k..])
  {
    assert s == s[..k] + s[k..];
    EncodeConcat(s[..k], s[k..]);
  }

  // The bytes of the k-th character sit at its offset.
  lemma CharAt(s: string, k: nat)
    requires k < |s|
    ensures Offset(s, k + 1) == Offset(s, k) + |EncodeChar(s[k])| <= |Encode(s)|
    ensures Encode(s)[Offset(s, k)..Offset(s, k + 1)] == EncodeChar(s[k])
  {
    EncodeSplit(s, k);
    EncodeSplit(s[..k + 1], k);
    EncodeSplit(s, k + 1);
    assert s[..k + 1][..k] == s[..k] && s[..k + 1][k..] == [s[k]];
    assert Encode([s[k]]) == EncodeChar(s[k]) + [];
    assert Encode(s)[..Offset(s, k + 1)] == Encode(s[..k + 1]) == Encode(s[..k]) + EncodeChar(s[k]);
  }

  lemma OffsetEnd(s: string)
    ensures Offset(s, 0) == 0 && Offset(s, |s|) == |Encode(s)|
  {
    assert s[..|s|] == s;
  }

  lemma OffsetIsBoundary(s: string, k: nat)
    requires k <= |s|
    ensures Offset(s, k) <= |Encode(s)| && IsCharBoundary(s, Offset(s, k))
  {
    OffsetEnd(s);
    if k < |s| {
      CharAt(s, k);
      assert Encode(s)[Offset(s, k)] == Encode(s)[Offset(s, k)..Offset(s, k + 1)][0];
    }
  }

  // Every character boundary is the offset of a character: the index of that
  // character.
  function CharIndex(s: string, i: nat): (k: nat)
    requires IsCharBoundary(s, i)
    ensures k <= |s| && Offset(s, k) == i
  {
    if i == 0 then 0
    else
      var width := |EncodeChar(s[0])|;
      assert Encode(s) == EncodeChar(s[0]) + Encode(s[1..]);
      assert i >= width && IsCharBoundary(s[1..], i - width);
      var k := CharIndex(s[1..], i - width);
      assert s[..k + 1][1..] == s[1..][..k];
      k + 1
  }

  lemma {:induction false} OffsetMonotone(s: string, j: nat, k: nat)
    requires j < k <= |s|
    ensures Offset(s, j) < Offset(s, k)
  {
    CharAt(s, k - 1);
    if j < k - 1 { OffsetMonotone(s, j, k - 1); }
  }

  // Between the offsets of a character and the next there is no boundary.
  lemma InsideCharacter(s: string, k: nat, i: nat)
    requires k < |s| && Offset(s, k) < i < Offset(s, k + 1)
    ensures !IsCharBoundary(s, i)
  {
    CharAt(s, k);
    assert Encode(s)[i] == Encode(s)[Offset(s, k)..Offset(s, k + 1)][i - Offset(s, k)];
  }

  // `&s[a..b]`. The precondition is the one under which the source does not
  // panic, so a verified caller never slices inside a character.
  function Slice(s: string, a: nat, b: nat): (r: string)
    requires a <= b && IsCharBoundary(s, a) && IsCharBoundary(s, b)
    ensures b <= |Encode(s)| && Encode(r) == Encode(s)[a..b]
  {
    var j, k := CharIndex(s, a), CharIndex(s, b);
    if k < j then
      OffsetMonotone(s, k, j);
      assert false; []
    else
      SliceBytes(s, j, k);
      s[j..k]
  }

  lemma SliceBytes(s: string, j: nat, k: nat)
    requires j <= k <= |s|
    ensures Offset(s, j) <= Offset(s, k) <= |Encode(s)|
    ensures Encode(s[j..k]) == Encode(s)[Offset(s, j)..Offset(s, k)]
  {
    assert s[..k] == s[..j] + s[j..k];
    EncodeConcat(s[..j], s[j..k]);
    assert s == s[..k] + s[k..];
    EncodeConcat(s[..k], s[k..]);
  }
}
