// src/users/mod.rs: the distinguished-name parser and the group union.
module Users {
  import opened Wrappers
  import opened Bits
  import opened Utf8

  // ---------------------------------------------------------------- Splitting

  const BACKSLASH: byte := 0x5C
  const COMMA: byte := 0x2C

  // p put in front of the first part.
  function Prepend(p: string, parts: seq<string>): (r: seq<string>)
    requires parts != []
    ensures |r| == |parts| && p + parts[0] == r[0] && r[1..] == parts[1..]
  {
    [p + parts[0]] + parts[1..]
  }

  // The step the splitter takes first: one character, or an escape pair.
  function Head(s: string): (p: string)
    requires s != []
    ensures |p| == (if s[0] == '\\' && |s| > 1 then 2 else 1)
    ensures s == p + s[|p|..]
  {
    if s[0] == '\\' && |s| > 1 then s[..2] else s[..1]
  }

  // The character-level splitter: a backslash takes the next character, if
  // there is one, with it; any other comma ends a part.
  function Split(s: string): (parts: seq<string>)
    ensures parts != []
    decreases |s|
  {
    if s == [] then [[]]
    else
      var step := Head(s);
      var parts := Split(s[|step|..]);
      if s[0] == ',' then [[]] + parts else Prepend(step, parts)
  }

  lemma PrependTwice(p: string, q: string, parts: seq<string>)
    requires parts != []
    ensures Prepend(p, Prepend(q, parts)) == Prepend(p + q, parts)
  {
    assert p + (q + parts[0]) == p + q + parts[0];
  }

  lemma PrependNothing(parts: seq<string>)
    requires parts != []
    ensures Prepend([], parts) == parts
  {
    assert [] + parts[0] == parts[0];
  }

  // How the character-level splitter moves past the character at k, inside a
  // part that began at `first`.
  lemma SplitStep(s: string, first: nat, k: nat)
    requires first <= k < |s|
    ensures s[k] == '\\' && k + 1 < |s| ==>
              Prepend(s[first..k], Split(s[k..])) == Prepend(s[first..k + 2], Split(s[k + 2..]))
    ensures s[k] == ',' ==>
              Prepend(s[first..k], Split(s[k..])) == [s[first..k]] + Split(s[k + 1..])
    ensures s[k] != ',' && (s[k] != '\\' || k + 1 == |s|) ==>
              Prepend(s[first..k], Split(s[k..])) == Prepend(s[first..k + 1], Split(s[k + 1..]))
  {
    var rest := s[k..];
    if s[k] == '\\' && k + 1 < |s| {
      assert rest[2..] == s[k + 2..] && s[first..k] + rest[..2] == s[first..k + 2];
      PrependTwice(s[first..k], rest[..2], Split(rest[2..]));
    } else {
      assert rest[1..] == s[k + 1..] && s[first..k] + rest[..1] == s[first..k + 1];
      if s[k] == ',' {
        assert s[first..k] + [] == s[first..k];
      } else {
        PrependTwice(s[first..k], rest[..1], Split(rest[1..]));
      }
    }
  }

  // What the bytes of the character at k tell the scanner.
  // The bytes of one character in the place they have in the whole.
  lemma InPlace(bytes: seq<byte>, at: nat, next: nat, c: char)
    requires at < next <= |bytes| && bytes[at..next] == EncodeChar(c)
    ensures bytes[at] == EncodeChar(c)[0]
    ensures forall j | at < j < next :: IsContinuation(bytes[j])
  {
    assert forall j | at <= j < next :: bytes[j] == bytes[at..next][j - at];
  }

  lemma LastOffset(s: string, k: nat)
    requires k < |s|
    ensures Offset(s, k + 1) == |Encode(s)| <==> k + 1 == |s|
  {
    OffsetEnd(s);
    if k + 1 < |s| { OffsetMonotone(s, k + 1, |s|); }
  }

  lemma CharBytes(s: string, k: nat)
    requires k < |s|
    ensures Offset(s, k) < Offset(s, k + 1) <= |Encode(s)|
    ensures Encode(s)[Offset(s, k)] == BACKSLASH <==> s[k] == '\\'
    ensures Encode(s)[Offset(s, k)] == COMMA <==> s[k] == ','
    ensures s[k] as int < 0x80 ==> Offset(s, k + 1) == Offset(s, k) + 1
    ensures forall j | Offset(s, k) < j < Offset(s, k + 1) :: IsContinuation(Encode(s)[j])
    ensures Offset(s, k + 1) == |Encode(s)| <==> k + 1 == |s|
  {
    CharAt(s, k);
    InPlace(Encode(s), Offset(s, k), Offset(s, k + 1), s[k]);
    LastOffset(s, k);
  }

  // The scanner at byte i has the effect of having scanned the characters
  // before k: only continuation bytes are left before the offset of k.
  ghost predicate Reached(dn: string, i: nat, k: nat) {
    && k <= |dn| && i <= Offset(dn, k) <= |Encode(dn)|
    && (forall j | i <= j < Offset(dn, k) :: IsContinuation(Encode(dn)[j]))
  }

  // It has cut `parts` and is inside the part that began at character `first`.
  ghost predicate Scanning(dn: string, parts: seq<string>, start: nat, i: nat, first: nat, k: nat) {
    && Reached(dn, i, k) && first <= k && start == Offset(dn, first)
    && parts + Prepend(dn[first..k], Split(dn[k..])) == Split(dn)
  }

  lemma ReachedNext(dn: string, i: nat, k: nat)
    requires Reached(dn, i, k) && i < |Encode(dn)| && !IsContinuation(Encode(dn)[i])
    ensures k < |dn| && i == Offset(dn, k) && Reached(dn, i + 1, k + 1)
    ensures Encode(dn)[i] == BACKSLASH <==> dn[k] == '\\'
    ensures Encode(dn)[i] == COMMA <==> dn[k] == ','
    ensures dn[k] == '\\' || dn[k] == ',' ==> i + 1 == Offset(dn, k + 1)
    ensures dn[k] == '\\' ==> (i + 1 == |Encode(dn)| <==> k + 1 == |dn|)
  {
    OffsetEnd(dn);
    CharBytes(dn, k);
  }

  lemma StartScanning(dn: string)
    ensures Scanning(dn, [], 0, 0, 0, 0)
  {
    OffsetEnd(dn);
    PrependNothing(Split(dn));
    assert dn[0..0] == [] && dn[0..] == dn;
  }

  lemma ScanEscape(dn: string, parts: seq<string>, start: nat, i: nat, first: nat, k: nat)
    requires Scanning(dn, parts, start, i, first, k)
    requires i + 1 < |Encode(dn)| && Encode(dn)[i] == BACKSLASH
    ensures Scanning(dn, parts, start, i + 2, first, k + 2)
  {
    assert Reached(dn, i + 2, k + 2) && dn[k] == '\\' by { ReachedPair(dn, i, k); }
    assert Prepend(dn[first..k], Split(dn[k..])) == Prepend(dn[first..k + 2], Split(dn[k + 2..])) by {
      SplitStep(dn, first, k);
    }
  }

  lemma ReachedPair(dn: string, i: nat, k: nat)
    requires Reached(dn, i, k)
    requires i + 1 < |Encode(dn)| && Encode(dn)[i] == BACKSLASH
    ensures Reached(dn, i + 2, k + 2) && dn[k] == '\\'
  {
    ReachedNext(dn, i, k);
    OffsetIsBoundary(dn, k + 1);
    ReachedNext(dn, i + 1, k + 1);
  }

  lemma ScanComma(dn: string, parts: seq<string>, start: nat, i: nat, first: nat, k: nat)
    requires Scanning(dn, parts, start, i, first, k)
    requires i < |Encode(dn)| && Encode(dn)[i] == COMMA
    ensures start <= i && IsCharBoundary(dn, start) && IsCharBoundary(dn, i)
    ensures Scanning(dn, parts + [Slice(dn, start, i)], i + 1, i + 1, k + 1, k + 1)
  {
    ReachedNext(dn, i, k);
    SliceChars(dn, first, k);
    var cut, rest := [dn[first..k]], Split(dn[k + 1..]);
    assert Prepend(dn[first..k], Split(dn[k..])) == cut + rest by { SplitStep(dn, first, k); }
    assert Prepend(dn[k + 1..k + 1], rest) == rest by { PrependNothing(rest); }
    assert parts + (cut + rest) == parts + cut + rest;
  }

  lemma ScanOther(dn: string, parts: seq<string>, start: nat, i: nat, first: nat, k: nat) returns (k': nat)
    requires Scanning(dn, parts, start, i, first, k)
    requires i < |Encode(dn)| && Encode(dn)[i] != COMMA
    requires Encode(dn)[i] == BACKSLASH ==> i + 1 == |Encode(dn)|
    ensures Scanning(dn, parts, start, i + 1, first, k')
  {
    if i < Offset(dn, k) {
      k' := k;
    } else {
      k' := k + 1;
      OffsetIsBoundary(dn, k);
      ReachedNext(dn, i, k);
      assert Prepend(dn[first..k], Split(dn[k..])) == Prepend(dn[first..k'], Split(dn[k'..])) by {
        SplitStep(dn, first, k);
      }
    }
  }

  lemma EndScanning(dn: string, parts: seq<string>, start: nat, first: nat, k: nat)
    requires Scanning(dn, parts, start, |Encode(dn)|, first, k)
    ensures start <= |Encode(dn)| && IsCharBoundary(dn, start)
    ensures parts + [Slice(dn, start, |Encode(dn)|)] == Split(dn)
  {
    OffsetEnd(dn);
    if k < |dn| { OffsetMonotone(dn, k, |dn|); }
    SliceChars(dn, first, |dn|);
    assert dn[first..k] + [] == dn[first..k];
  }

  lemma SliceChars(dn: string, first: nat, k: nat)
    requires first <= k <= |dn|
    ensures Offset(dn, first) <= Offset(dn, k) <= |Encode(dn)|
    ensures IsCharBoundary(dn, Offset(dn, first)) && IsCharBoundary(dn, Offset(dn, k))
    ensures Slice(dn, Offset(dn, first), Offset(dn, k)) == dn[first..k]
  {
    OffsetIsBoundary(dn, first);
    OffsetIsBoundary(dn, k);
    SliceBytes(dn, first, k);
    EncodeInjective(Slice(dn, Offset(dn, first), Offset(dn, k)), dn[first..k]);
  }

  // The source's scanner. It walks bytes, so an escape may leave i in the
  // middle of a multi-byte character; Slice demands a character boundary at
  // both ends of every part it cuts.
  method SplitRdns(dn: string) returns (parts: seq<string>)
    ensures parts == Split(dn)
  {
    parts := [];
    var start, i := 0, 0;
    var bytes := Encode(dn);
    ghost var first, k := 0, 0;
    StartScanning(dn);
    while i < |bytes|
      invariant i <= |bytes| && Scanning(dn, parts, start, i, first, k)
    {
      if bytes[i] == BACKSLASH && i + 1 < |bytes| {
        ScanEscape(dn, parts, start, i, first, k);
        i, k := i + 2, k + 2;
        continue;
      }
      if bytes[i] == COMMA {
        ScanComma(dn, parts, start, i, first, k);
        parts := parts + [Slice(dn, start, i)];
        start := i + 1;
        first, k := k + 1, k + 1;
      } else {
        k := ScanOther(dn, parts, start, i, first, k);
      }
      i := i + 1;
    }
    EndScanning(dn, parts, start, first, k);
    parts := parts + [Slice(dn, start, |bytes|)];
  }

  // ------------------------------------------- What the splitter means

  // The character at i (or a character put at the end, for i == |s|) is
  // escaped: a backslash that is not itself escaped stands before it.
  predicate Escaped(s: string, i: nat)
    requires i <= |s|
  {
    i > 0 && s[i - 1] == '\\' && !Escaped(s, i - 1)
  }

  // No unescaped comma.
  ghost predicate Clean(p: string) {
    forall i | 0 <= i < |p| && p[i] == ',' :: Escaped(p, i)
  }

  // The part ends in a backslash that escapes nothing.
  predicate Dangling(p: string) {
    Escaped(p, |p|)
  }

  ghost predicate WellCut(parts: seq<string>) {
    && parts != []
    && (forall k | 0 <= k < |parts| :: Clean(parts[k]))
    && (forall k | 0 <= k < |parts| - 1 :: !Dangling(parts[k]))
  }

  function Join(parts: seq<string>): string
    requires parts != []
  {
    if |parts| == 1 then parts[0] else parts[0] + "," + Join(parts[1..])
  }

  lemma {:induction false} EscapedPrefix(a: string, b: string, i: nat)
    requires i <= |a|
    ensures Escaped(a + b, i) == Escaped(a, i)
  {
    if i > 0 { EscapedPrefix(a, b, i - 1); }
  }

  lemma {:induction false} EscapedSuffix(a: string, b: string, i: nat)
    requires !Dangling(a) && i <= |b|
    ensures Escaped(a + b, |a| + i) == Escaped(b, i)
  {
    if i == 0 {
      EscapedPrefix(a, b, |a|);
    } else {
      EscapedSuffix(a, b, i - 1);
    }
  }

  lemma CleanConcat(a: string, b: string)
    requires !Dangling(a)
    ensures Clean(a + b) <==> Clean(a) && Clean(b)
    ensures Dangling(a + b) == Dangling(b)
  {
    forall i | 0 <= i < |a|
      ensures Escaped(a + b, i) == Escaped(a, i) && (a + b)[i] == a[i]
    {
      EscapedPrefix(a, b, i);
    }
    forall i | 0 <= i <= |b|
      ensures Escaped(a + b, |a| + i) == Escaped(b, i)
    {
      EscapedSuffix(a, b, i);
    }
    if Clean(a + b) {
      forall i | 0 <= i < |b| && b[i] == ','
        ensures Escaped(b, i)
      {
        assert (a + b)[|a| + i] == ',';
      }
    }
    if Clean(a) && Clean(b) {
      forall i | 0 <= i < |a + b| && (a + b)[i] == ','
        ensures Escaped(a + b, i)
      {
        if i >= |a| { assert b[i - |a|] == ','; }
      }
    }
  }

  lemma HeadClean(s: string)
    requires s != []
    ensures Clean(Head(s)) <==> s[0] != ','
    ensures if s == ['\\'] then Dangling(s) && Split(s) == [s] else !Dangling(Head(s))
  {
    var p := Head(s);
    assert !Escaped(p, 0);
    assert p[0] == s[0];
    if |p| == 2 { assert Escaped(p, 1); }
    if s == ['\\'] {
      assert Escaped(p, 1) && p == s;
      assert Split(s[1..]) == [[]] && p + [] == p;
    }
  }

  lemma JoinPrepend(p: string, parts: seq<string>)
    requires parts != []
    ensures Join(Prepend(p, parts)) == p + Join(parts)
  {
    if |parts| > 1 {
      assert p + (parts[0] + "," + Join(parts[1..])) == (p + parts[0]) + "," + Join(parts[1..]);
    }
  }

  lemma WellCutPrepend(p: string, parts: seq<string>)
    requires WellCut(parts) && Clean(p) && !Dangling(p)
    ensures WellCut(Prepend(p, parts))
    ensures Dangling(Prepend(p, parts)[|parts| - 1]) == Dangling(parts[|parts| - 1])
  {
    var r := Prepend(p, parts);
    CleanConcat(p, parts[0]);
    assert forall k | 0 < k < |parts| :: r[k] == parts[k];
  }

  lemma WellCutCons(parts: seq<string>)
    requires WellCut(parts)
    ensures WellCut([[]] + parts) && ([[]] + parts)[|parts|] == parts[|parts| - 1]
  {
    var r := [[]] + parts;
    assert forall k | 0 < k < |r| :: r[k] == parts[k - 1];
  }

  lemma {:induction false} SplitThenJoin(s: string)
    ensures Join(Split(s)) == s
  {
    if s != [] {
      var p, rest := Head(s), s[|Head(s)|..];
      SplitThenJoin(rest);
      if s[0] == ',' {
        assert Join([[]] + Split(rest)) == "" + "," + Join(Split(rest));
      } else {
        JoinPrepend(p, Split(rest));
      }
    }
  }

  function StepOver(cut: bool, step: string, parts: seq<string>): seq<string>
    requires parts != []
  {
    if cut then [[]] + parts else Prepend(step, parts)
  }

  // One step over a well-cut rest.
  lemma WellCutStepOver(cut: bool, step: string, parts: seq<string>)
    requires WellCut(parts) && (!cut ==> Clean(step) && !Dangling(step))
    ensures var r := StepOver(cut, step, parts);
            WellCut(r) && Dangling(r[|r| - 1]) == Dangling(parts[|parts| - 1])
  {
    if cut {
      WellCutCons(parts);
    } else {
      WellCutPrepend(step, parts);
    }
  }

  lemma {:induction false} SplitWellCut(s: string)
    ensures WellCut(Split(s))
    ensures Dangling(s) == Dangling(Split(s)[|Split(s)| - 1])
  {
    if s == [] {
      CleanIfNoComma(s);
    } else if s == ['\\'] {
      HeadClean(s);
      CleanIfNoComma(s);
    } else {
      var rest := s[|Head(s)|..];
      SplitWellCut(rest);
      HeadClean(s);
      CleanConcat(Head(s), rest);
      WellCutStepOver(s[0] == ',', Head(s), Split(rest));
      assert Split(s) == StepOver(s[0] == ',', Head(s), Split(rest));
    }
  }

  lemma CleanIfNoComma(s: string)
    requires ',' !in s
    ensures Clean(s)
  {
  }

  // Joining the parts gives the name back, no part holds an unescaped comma,
  // and only the last part may end in a dangling backslash.
  lemma SplitIsLossless(s: string)
    ensures Join(Split(s)) == s && WellCut(Split(s))
    ensures Dangling(s) == Dangling(Split(s)[|Split(s)| - 1])
  {
    SplitThenJoin(s);
    SplitWellCut(s);
  }

  lemma StepOverConcat(cut: bool, step: string, a: seq<string>, b: seq<string>)
    requires a != []
    ensures StepOver(cut, step, a + b) == StepOver(cut, step, a) + b
  {
    if cut {
      assert [[]] + (a + b) == [[]] + a + b;
    }
  }

  lemma HeadOfWhole(s: string, t: string)
    requires s != [] && s != ['\\']
    ensures Head(s + t) == Head(s) && (s + t)[|Head(s)|..] == s[|Head(s)|..] + t
    ensures (s + t)[0] == s[0]
  {
    assert (s + t)[..|Head(s)|] == s[..|Head(s)|];
  }

  // One step over s is one step over s and a comma after it.
  lemma AppendStep(s: string, t: string)
    requires s != [] && s != ['\\']
    ensures var step := Head(s);
            var rest := s[|step|..];
            && Dangling(rest) == Dangling(s)
            && Split(s) == StepOver(s[0] == ',', step, Split(rest))
            && Split(s + "," + t) == StepOver(s[0] == ',', step, Split(rest + "," + t))
  {
    HeadClean(s);
    CleanConcat(Head(s), s[|Head(s)|..]);
    HeadOfWhole(s, "," + t);
    assert s + "," + t == s + ("," + t);
    assert s[|Head(s)|..] + "," + t == s[|Head(s)|..] + ("," + t);
  }

  // Past text that ends in no dangling backslash, a comma cuts.
  lemma {:induction false} SplitAppend(s: string, t: string)
    requires !Dangling(s)
    ensures Split(s + "," + t) == Split(s) + Split(t)
    decreases |s|
  {
    if s == [] {
      var whole := s + "," + t;
      assert whole[0] == ',' && Head(whole) == "," && whole[1..] == t;
    } else {
      var rest := s[|Head(s)|..];
      HeadClean(s);
      AppendStep(s, t);
      SplitAppend(rest, t);
      StepOverConcat(s[0] == ',', Head(s), Split(rest), Split(t));
    }
  }

  // The last part of a and the first of b made one, with a comma between them.
  function Swallow(a: seq<string>, b: seq<string>): (r: seq<string>)
    requires a != [] && b != []
    ensures |r| == |a| + |b| - 1
  {
    a[..|a| - 1] + [a[|a| - 1] + "," + b[0]] + b[1..]
  }

  lemma StepOverSwallow(cut: bool, step: string, a: seq<string>, b: seq<string>)
    requires a != [] && b != []
    ensures StepOver(cut, step, Swallow(a, b)) == Swallow(StepOver(cut, step, a), b)
  {
    if !cut && |a| == 1 {
      assert step + (a[0] + "," + b[0]) == step + a[0] + "," + b[0];
    }
  }

  // Past text that does, the comma and the part after it become part of the
  // last part; all other cuts are as they were.
  lemma {:induction false} DanglingSwallows(s: string, t: string)
    requires Dangling(s)
    ensures Split(s + "," + t) == Swallow(Split(s), Split(t))
    decreases |s|
  {
    if s == ['\\'] {
      var whole := s + "," + t;
      assert Head(whole) == "\\," == s + "," && whole[2..] == t;
      HeadClean(s);
      assert Prepend(s + ",", Split(t)) == Swallow([s], Split(t));
    } else {
      var rest := s[|Head(s)|..];
      AppendStep(s, t);
      DanglingSwallows(rest, t);
      StepOverSwallow(s[0] == ',', Head(s), Split(rest), Split(t));
    }
  }

  // So a comma after a name cuts exactly when the name ends in no dangling
  // backslash.
  lemma CommaCutsIff(s: string, t: string)
    ensures Split(s + "," + t) == Split(s) + Split(t) <==> !Dangling(s)
  {
    if Dangling(s) {
      DanglingSwallows(s, t);
    } else {
      SplitAppend(s, t);
    }
  }

  lemma {:induction false} SplitClean(s: string)
    requires Clean(s)
    ensures Split(s) == [s]
  {
    if s != [] {
      var p := Head(s);
      var rest := s[|p|..];
      HeadClean(s);
      assert !Escaped(s, 0);
      if s == ['\\'] {
        assert rest == [] && p + [] == p;
      } else {
        CleanConcat(p, rest);
        SplitClean(rest);
      }
    }
  }

  // Every list with those two properties is what splitting its join gives, so
  // the decomposition of a name is unique.
  lemma {:induction false} SplitUndoesJoin(parts: seq<string>)
    requires WellCut(parts)
    ensures Split(Join(parts)) == parts
  {
    SplitClean(parts[0]);
    if |parts| > 1 {
      var rest := parts[1..];
      assert forall k | 0 <= k < |rest| :: rest[k] == parts[k + 1];
      SplitUndoesJoin(rest);
      SplitAppend(parts[0], Join(rest));
    }
  }

  // --------------------------------------------------------- Extraction

  // `char::is_whitespace`: the Unicode White_Space property.
  predicate IsWhitespace(c: char) {
    var n := c as int;
    || 0x09 <= n <= 0x0D || n == 0x20 || n == 0x85 || n == 0xA0 || n == 0x1680
    || 0x2000 <= n <= 0x200A || n == 0x2028 || n == 0x2029 || n == 0x202F || n == 0x205F
    || n == 0x3000
  }

  // The 25 characters, one by one.
  lemma WhitespaceTable(c: char)
    ensures IsWhitespace(c) <==>
              c in "\t\n\U{000B}\U{000C}\r \U{0085}\U{00A0}\U{1680}\U{2000}\U{2001}\U{2002}\U{2003}\U{2004}"
                   + "\U{2005}\U{2006}\U{2007}\U{2008}\U{2009}\U{200A}\U{2028}\U{2029}\U{202F}\U{205F}\U{3000}"
  {
  }

  function TrimStart(s: string): (r: string)
    ensures r == [] || !IsWhitespace(r[0])
    ensures s == [] || !IsWhitespace(s[0]) ==> r == s
  {
    if s != [] && IsWhitespace(s[0]) then TrimStart(s[1..]) else s
  }

  function TrimEnd(s: string): (r: string)
    ensures r == [] || !IsWhitespace(r[|r| - 1])
    ensures s == [] || !IsWhitespace(s[|s| - 1]) ==> r == s
  {
    if s != [] && IsWhitespace(s[|s| - 1]) then TrimEnd(s[..|s| - 1]) else s
  }

  // `str::trim`.
  function Trim(s: string): string {
    TrimEnd(TrimStart(s))
  }

  ghost predicate NoEdgeSpace(s: string) {
    s == [] || (!IsWhitespace(s[0]) && !IsWhitespace(s[|s| - 1]))
  }

  ghost predicate AllSpace(s: string) {
    forall i | 0 <= i < |s| :: IsWhitespace(s[i])
  }

  lemma {:induction false} TrimStartCuts(s: string) returns (a: string)
    ensures s == a + TrimStart(s) && AllSpace(a)
  {
    if s != [] && IsWhitespace(s[0]) {
      var rest := TrimStartCuts(s[1..]);
      a := [s[0]] + rest;
    } else {
      a := [];
    }
  }

  lemma {:induction false} TrimEndCuts(s: string) returns (b: string)
    ensures s == TrimEnd(s) + b && AllSpace(b)
  {
    var n := |s| - 1;
    if s != [] && IsWhitespace(s[n]) {
      var rest := TrimEndCuts(s[..n]);
      b := rest + [s[n]];
      assert s == s[..n] + [s[n]];
    } else {
      b := [];
    }
  }

  // Trimming takes whitespace off both ends, and all of it.
  lemma TrimCuts(s: string) returns (a: string, b: string)
    ensures s == a + Trim(s) + b && AllSpace(a) && AllSpace(b) && NoEdgeSpace(Trim(s))
  {
    a := TrimStartCuts(s);
    b := TrimEndCuts(TrimStart(s));
    if Trim(s) != [] {
      assert Trim(s)[0] == TrimStart(s)[0];
    }
  }

  lemma {:induction false} TrimStartPast(a: string, s: string)
    requires AllSpace(a)
    ensures TrimStart(a + s) == TrimStart(s)
  {
    if a == [] {
      assert a + s == s;
    } else {
      assert (a + s)[1..] == a[1..] + s && IsWhitespace(a[0]);
      TrimStartPast(a[1..], s);
    }
  }

  lemma {:induction false} TrimEndPast(s: string, b: string)
    requires AllSpace(b)
    ensures TrimEnd(s + b) == TrimEnd(s)
  {
    if b == [] {
      assert s + b == s;
    } else {
      var n := |b| - 1;
      assert (s + b)[..|s| + n] == s + b[..n] && IsWhitespace(b[n]);
      TrimEndPast(s, b[..n]);
    }
  }

  lemma {:induction false} TrimStartAll(a: string)
    requires AllSpace(a)
    ensures TrimStart(a) == []
  {
    if a != [] { TrimStartAll(a[1..]); }
  }

  // So it is what is left when whitespace at both ends is taken away.
  lemma TrimPast(a: string, core: string, b: string)
    requires AllSpace(a) && AllSpace(b) && NoEdgeSpace(core)
    ensures Trim(a + core + b) == core
  {
    assert a + core + b == a + (core + b);
    TrimStartPast(a, core + b);
    if core == [] {
      assert core + b == b;
      TrimStartAll(b);
    } else {
      assert (core + b)[0] == core[0];
      TrimEndPast(core, b);
    }
  }

  // `str::split_once('=')`.
  function SplitOnce(s: string): (r: Option<(string, string)>)
    ensures r == None <==> '=' !in s
    ensures r.Some? ==> s == r.value.0 + "=" + r.value.1 && '=' !in r.value.0
  {
    if s == [] then None
    else if s[0] == '=' then Some(([], s[1..]))
    else
      match SplitOnce(s[1..])
      case None => None
      case Some((key, value)) => Some(([s[0]] + key, value))
  }

  datatype UserError = InvalidDn(rdn: string) | AttributeNotFound(attribute: string)

  datatype User = User(subject: string, rawDn: string)

  // A part has the form key=value.
  predicate HasEquals(part: string) {
    '=' in Trim(part)
  }

  function KeyOf(part: string): string
    requires HasEquals(part)
  {
    Trim(SplitOnce(Trim(part)).value.0)
  }

  function ValueOf(part: string): string
    requires HasEquals(part)
  {
    Trim(SplitOnce(Trim(part)).value.1)
  }

  // `upper` is `str::to_uppercase`.
  predicate Matches(part: string, attribute: string, upper: string -> string) {
    HasEquals(part) && upper(KeyOf(part)) == upper(attribute)
  }

  function Search(parts: seq<string>, attribute: string, upper: string -> string): Result<string, UserError> {
    if parts == [] then Err(AttributeNotFound(attribute))
    else if !HasEquals(parts[0]) then Err(InvalidDn(Trim(parts[0])))
    else if Matches(parts[0], attribute, upper) then Ok(ValueOf(parts[0]))
    else Search(parts[1..], attribute, upper)
  }

  function Extract(dn: string, attribute: string, upper: string -> string): Result<string, UserError> {
    Search(Split(dn), attribute, upper)
  }

  method ExtractDnAttribute(dn: string, attribute: string, upper: string -> string)
    returns (r: Result<string, UserError>)
    ensures r == Extract(dn, attribute, upper)
  {
    var attrUpper := upper(attribute);
    var parts := SplitRdns(dn);
    for i := 0 to |parts|
      invariant Search(parts[i..], attribute, upper) == Extract(dn, attribute, upper)
    {
      var rdnTrimmed := Trim(parts[i]);
      match SplitOnce(rdnTrimmed) {
        case None => return Err(InvalidDn(rdnTrimmed));
        case Some((key, value)) =>
          if upper(Trim(key)) == attrUpper {
            return Ok(Trim(value));
          }
      }
      assert parts[i..][1..] == parts[i + 1..];
    }
    return Err(AttributeNotFound(attribute));
  }

  method Resolve(dnAttribute: string, header: string, upper: string -> string)
    returns (r: Result<User, UserError>)
    ensures r.Ok? <==> Extract(header, dnAttribute, upper).Ok?
    ensures r.Ok? ==> r.value.rawDn == header && Ok(r.value.subject) == Extract(header, dnAttribute, upper)
    ensures r.Err? ==> Err(r.error) == Extract(header, dnAttribute, upper)
  {
    var subject := ExtractDnAttribute(header, dnAttribute, upper);
    match subject {
      case Ok(s) => return Ok(User(s, header));
      case Err(e) => return Err(e);
    }
  }

  // Part k is the first one the search stops at.
  ghost predicate StopsAt(parts: seq<string>, k: nat, attribute: string, upper: string -> string) {
    && k < |parts|
    && (forall j | 0 <= j < k :: HasEquals(parts[j]) && !Matches(parts[j], attribute, upper))
    && (!HasEquals(parts[k]) || Matches(parts[k], attribute, upper))
  }

  ghost predicate PassesOver(parts: seq<string>, attribute: string, upper: string -> string) {
    forall j | 0 <= j < |parts| :: HasEquals(parts[j]) && !Matches(parts[j], attribute, upper)
  }

  lemma StopsInRest(parts: seq<string>, k: nat, attribute: string, upper: string -> string)
    requires StopsAt(parts, k, attribute, upper) && HasEquals(parts[0]) && !Matches(parts[0], attribute, upper)
    ensures k > 0 && StopsAt(parts[1..], k - 1, attribute, upper) && parts[1..][k - 1] == parts[k]
  {
    assert forall j | 0 <= j < |parts| - 1 :: parts[1..][j] == parts[j + 1];
  }

  lemma PassesOverRest(parts: seq<string>, attribute: string, upper: string -> string)
    requires parts != []
    ensures PassesOver(parts, attribute, upper) <==>
              HasEquals(parts[0]) && !Matches(parts[0], attribute, upper) && PassesOver(parts[1..], attribute, upper)
  {
    assert parts == [parts[0]] + parts[1..];
  }

  // The search answers from the first part that is malformed or matches, and
  // reports the attribute missing exactly when there is none.
  lemma {:induction false} SearchStops(parts: seq<string>, attribute: string, upper: string -> string)
    ensures forall k: nat | StopsAt(parts, k, attribute, upper) ::
              Search(parts, attribute, upper) ==
              if HasEquals(parts[k]) then Ok(ValueOf(parts[k])) else Err(InvalidDn(Trim(parts[k])))
    ensures PassesOver(parts, attribute, upper) <==>
              Search(parts, attribute, upper) == Err(AttributeNotFound(attribute))
  {
    if parts != [] {
      SearchStops(parts[1..], attribute, upper);
      PassesOverRest(parts, attribute, upper);
      if HasEquals(parts[0]) && !Matches(parts[0], attribute, upper) {
        forall k: nat | StopsAt(parts, k, attribute, upper)
          ensures k > 0 && StopsAt(parts[1..], k - 1, attribute, upper) && parts[1..][k - 1] == parts[k]
        {
          StopsInRest(parts, k, attribute, upper);
        }
      }
    }
  }

  lemma {:induction false} FirstStop(parts: seq<string>, k: nat, attribute: string, upper: string -> string)
    returns (first: nat)
    requires k < |parts| && (!HasEquals(parts[k]) || Matches(parts[k], attribute, upper))
    ensures first <= k && StopsAt(parts, first, attribute, upper)
  {
    if j: nat :| j < k && (!HasEquals(parts[j]) || Matches(parts[j], attribute, upper)) {
      first := FirstStop(parts, j, attribute, upper);
    } else {
      first := k;
    }
  }

  // Part k matches and every earlier part has an '='.
  ghost predicate FoundAt(parts: seq<string>, k: nat, attribute: string, upper: string -> string) {
    k < |parts| && Matches(parts[k], attribute, upper) && forall j | 0 <= j < k :: HasEquals(parts[j])
  }

  // Part k has no '=' and no earlier part matches.
  ghost predicate BrokenAt(parts: seq<string>, k: nat, attribute: string, upper: string -> string) {
    k < |parts| && !HasEquals(parts[k]) && forall j | 0 <= j < k :: !Matches(parts[j], attribute, upper)
  }

  lemma FoundMeansOk(parts: seq<string>, k: nat, attribute: string, upper: string -> string)
    requires FoundAt(parts, k, attribute, upper)
    ensures Search(parts, attribute, upper).Ok?
  {
    var first := FirstStop(parts, k, attribute, upper);
    assert HasEquals(parts[first]);
    SearchStops(parts, attribute, upper);
  }

  lemma BrokenMeansInvalid(parts: seq<string>, k: nat, attribute: string, upper: string -> string)
    requires BrokenAt(parts, k, attribute, upper)
    ensures Search(parts, attribute, upper).Err? && Search(parts, attribute, upper).error.InvalidDn?
  {
    var first := FirstStop(parts, k, attribute, upper);
    assert !HasEquals(parts[first]);
    SearchStops(parts, attribute, upper);
  }

  lemma AnswerHasPlace(parts: seq<string>, attribute: string, upper: string -> string) returns (first: nat)
    requires Search(parts, attribute, upper) != Err(AttributeNotFound(attribute))
    ensures FoundAt(parts, first, attribute, upper) || BrokenAt(parts, first, attribute, upper)
  {
    SearchStops(parts, attribute, upper);
    var k: nat :| k < |parts| && (!HasEquals(parts[k]) || Matches(parts[k], attribute, upper));
    first := FirstStop(parts, k, attribute, upper);
  }

  lemma {:induction false} MissingIsOwnName(parts: seq<string>, attribute: string, upper: string -> string)
    ensures var r := Search(parts, attribute, upper);
            r.Err? && r.error.AttributeNotFound? ==> r.error.attribute == attribute
  {
    if parts != [] { MissingIsOwnName(parts[1..], attribute, upper); }
  }

  // Ok exactly when a matching part exists with '=' in every earlier part;
  // InvalidDn exactly when a part without '=' comes before any match.
  ghost predicate Decided(parts: seq<string>, attribute: string, upper: string -> string,
                          r: Result<string, UserError>) {
    && (r.Ok? <==> exists k: nat :: FoundAt(parts, k, attribute, upper))
    && (r.Err? && r.error.InvalidDn? <==> exists k: nat :: BrokenAt(parts, k, attribute, upper))
  }

  lemma SearchOutcome(parts: seq<string>, attribute: string, upper: string -> string)
    ensures Decided(parts, attribute, upper, Search(parts, attribute, upper))
  {
    if k: nat :| FoundAt(parts, k, attribute, upper) {
      FoundMeansOk(parts, k, attribute, upper);
    }
    if k: nat :| BrokenAt(parts, k, attribute, upper) {
      BrokenMeansInvalid(parts, k, attribute, upper);
    }
    MissingIsOwnName(parts, attribute, upper);
    if Search(parts, attribute, upper) != Err(AttributeNotFound(attribute)) {
      var k := AnswerHasPlace(parts, attribute, upper);
      assert FoundAt(parts, k, attribute, upper) || BrokenAt(parts, k, attribute, upper);
    }
  }

  lemma ExtractOutcome(dn: string, attribute: string, upper: string -> string)
    ensures Decided(Split(dn), attribute, upper, Extract(dn, attribute, upper))
  {
    SearchOutcome(Split(dn), attribute, upper);
  }

  lemma {:induction false} SearchConcat(a: seq<string>, b: seq<string>, attribute: string, upper: string -> string)
    ensures Search(a + b, attribute, upper) ==
            if Search(a, attribute, upper) == Err(AttributeNotFound(attribute)) then Search(b, attribute, upper)
            else Search(a, attribute, upper)
  {
    if a == [] {
      assert a + b == b;
    } else {
      assert (a + b)[1..] == a[1..] + b;
      SearchConcat(a[1..], b, attribute, upper);
    }
  }

  // A name that ends in no dangling backslash decides its answer: whatever is
  // put after it changes neither a value nor a malformed-part error, and a
  // missing attribute is then looked for in the rest.
  lemma ExtractPrefix(dn: string, more: string, attribute: string, upper: string -> string)
    requires !Dangling(dn)
    ensures var r := Extract(dn, attribute, upper);
            Extract(dn + "," + more, attribute, upper) ==
            if r == Err(AttributeNotFound(attribute)) then Extract(more, attribute, upper) else r
  {
    SplitAppend(dn, more);
    SearchConcat(Split(dn), Split(more), attribute, upper);
  }

  // Text after a name settles nothing else once a part before the last has.
  ghost predicate SettledEarly(dn: string, attribute: string, upper: string -> string) {
    var parts := Split(dn);
    Search(parts[..|parts| - 1], attribute, upper) != Err(AttributeNotFound(attribute))
  }

  // A name with an answer keeps it under every text put after it exactly when
  // it ends in no dangling backslash or a part before the last gave the answer.
  lemma ExtractPrefixIff(dn: string, attribute: string, upper: string -> string)
    requires Extract(dn, attribute, upper) != Err(AttributeNotFound(attribute))
    ensures (forall more :: Extract(dn + "," + more, attribute, upper) == Extract(dn, attribute, upper)) <==>
              !Dangling(dn) || SettledEarly(dn, attribute, upper)
  {
    if !Dangling(dn) {
      forall more
        ensures Extract(dn + "," + more, attribute, upper) == Extract(dn, attribute, upper)
      {
        ExtractPrefix(dn, more, attribute, upper);
      }
    } else if SettledEarly(dn, attribute, upper) {
      forall more
        ensures Extract(dn + "," + more, attribute, upper) == Extract(dn, attribute, upper)
      {
        SettledEarlyStays(dn, more, attribute, upper);
      }
    } else {
      LastPartChanges(dn, attribute, upper);
    }
  }

  // The search through parts of which the last has grown.
  lemma SearchLast(parts: seq<string>, rest: seq<string>, attribute: string, upper: string -> string)
    requires parts != []
    ensures var init := Search(parts[..|parts| - 1], attribute, upper);
            Search(parts[..|parts| - 1] + rest, attribute, upper) ==
            if init == Err(AttributeNotFound(attribute)) then Search(rest, attribute, upper) else init
  {
    SearchConcat(parts[..|parts| - 1], rest, attribute, upper);
  }

  lemma SwallowedTail(a: seq<string>, b: seq<string>)
    requires a != [] && b != []
    ensures Swallow(a, b) == a[..|a| - 1] + ([a[|a| - 1] + "," + b[0]] + b[1..])
  {
  }

  lemma SearchSwallowed(dn: string, more: string, attribute: string, upper: string -> string)
    requires Dangling(dn)
    ensures var a, b := Split(dn), Split(more);
            var init := Search(a[..|a| - 1], attribute, upper);
            Extract(dn + "," + more, attribute, upper) ==
            if init == Err(AttributeNotFound(attribute))
            then Search([a[|a| - 1] + "," + b[0]] + b[1..], attribute, upper)
            else init
  {
    var a, b := Split(dn), Split(more);
    DanglingSwallows(dn, more);
    SwallowedTail(a, b);
    SearchLast(a, [a[|a| - 1] + "," + b[0]] + b[1..], attribute, upper);
  }

  lemma SearchUnswallowed(dn: string, attribute: string, upper: string -> string)
    ensures var a := Split(dn);
            var init := Search(a[..|a| - 1], attribute, upper);
            Extract(dn, attribute, upper) ==
            if init == Err(AttributeNotFound(attribute)) then Search([a[|a| - 1]], attribute, upper) else init
  {
    var a := Split(dn);
    assert a == a[..|a| - 1] + [a[|a| - 1]];
    SearchLast(a, [a[|a| - 1]], attribute, upper);
  }

  lemma SettledEarlyStays(dn: string, more: string, attribute: string, upper: string -> string)
    requires Dangling(dn) && SettledEarly(dn, attribute, upper)
    ensures Extract(dn + "," + more, attribute, upper) == Extract(dn, attribute, upper)
  {
    SearchSwallowed(dn, more, attribute, upper);
    SearchUnswallowed(dn, attribute, upper);
  }

  lemma SearchComma(dn: string, attribute: string, upper: string -> string)
    requires Dangling(dn) && !SettledEarly(dn, attribute, upper)
    ensures Extract(dn + "," + "", attribute, upper) ==
            Search([Split(dn)[|Split(dn)| - 1] + ","], attribute, upper)
  {
    var last := Split(dn)[|Split(dn)| - 1];
    SearchSwallowed(dn, "", attribute, upper);
    var b := Split("");
    assert b == [""] && b[1..] == [];
    assert last + "," + b[0] == last + ",";
    assert [last + "," + b[0]] + b[1..] == [last + ","];
  }

  // A comma alone changes the answer the last part gives.
  lemma LastPartChanges(dn: string, attribute: string, upper: string -> string)
    requires Extract(dn, attribute, upper) != Err(AttributeNotFound(attribute))
    requires Dangling(dn) && !SettledEarly(dn, attribute, upper)
    ensures Extract(dn + "," + "", attribute, upper) != Extract(dn, attribute, upper)
  {
    SearchComma(dn, attribute, upper);
    SearchUnswallowed(dn, attribute, upper);
    SplitWellCut(dn);
    CommaChangesPart(Split(dn)[|Split(dn)| - 1], attribute, upper);
  }

  // Text that ends in a backslash, with and without a comma after it.
  lemma TrimBackslash(s: string)
    requires s != [] && s[|s| - 1] == '\\'
    ensures Trim(s) != [] && Trim(s)[|Trim(s)| - 1] == '\\' && Trim(s + ",") == Trim(s) + ","
  {
    TrimStartBackslash(s);
  }

  lemma {:induction false} TrimStartBackslash(s: string)
    requires s != [] && s[|s| - 1] == '\\'
    ensures var r := TrimStart(s);
            r != [] && r[|r| - 1] == '\\' && TrimStart(s + ",") == r + ","
  {
    if IsWhitespace(s[0]) {
      TrimStartBackslash(s[1..]);
      assert (s + ",")[1..] == s[1..] + ",";
    }
  }

  lemma {:induction false} SplitOnceComma(s: string)
    ensures match SplitOnce(s)
            case None => SplitOnce(s + ",") == None
            case Some((key, value)) => SplitOnce(s + ",") == Some((key, value + ","))
  {
    if s != [] {
      assert (s + ",")[1..] == s[1..] + ",";
      if s[0] != '=' { SplitOnceComma(s[1..]); }
    }
  }

  lemma CommaChangesPart(part: string, attribute: string, upper: string -> string)
    requires Dangling(part)
    requires Search([part], attribute, upper) != Err(AttributeNotFound(attribute))
    ensures Search([part + ","], attribute, upper) != Search([part], attribute, upper)
  {
    TrimBackslash(part);
    SplitOnceComma(Trim(part));
    if HasEquals(part) {
      var value := SplitOnce(Trim(part)).value.1;
      assert value != [] && value[|value| - 1] == '\\';
      TrimBackslash(value);
    }
  }

  // ------------------------------------------------ Printing a name

  function EscapeValue(v: string): (r: string)
  {
    if v == [] then []
    else if v[0] == ',' || v[0] == '\\' then ['\\', v[0]] + EscapeValue(v[1..])
    else [v[0]] + EscapeValue(v[1..])
  }

  ghost predicate PlainKey(key: string) {
    NoEdgeSpace(key) && '=' !in key && ',' !in key && '\\' !in key
  }

  type Pair = (string, string)

  // Whitespace printed around a pair's key and value.
  datatype Padding = Padding(beforeKey: string, afterKey: string, beforeValue: string, afterValue: string)

  ghost predicate IsPadding(pad: Padding) {
    AllSpace(pad.beforeKey) && AllSpace(pad.afterKey) && AllSpace(pad.beforeValue) && AllSpace(pad.afterValue)
  }

  function PrintPair(pair: Pair, pad: Padding): string {
    pad.beforeKey + pair.0 + pad.afterKey + "=" + pad.beforeValue + EscapeValue(pair.1) + pad.afterValue
  }

  function PrintPairs(pairs: seq<Pair>, pads: seq<Padding>): (parts: seq<string>)
    requires |pads| == |pairs|
    ensures |parts| == |pairs|
    ensures forall k | 0 <= k < |pairs| :: parts[k] == PrintPair(pairs[k], pads[k])
  {
    if pairs == [] then [] else [PrintPair(pairs[0], pads[0])] + PrintPairs(pairs[1..], pads[1..])
  }

  function PrintDn(pairs: seq<Pair>, pads: seq<Padding>): string
    requires pairs != [] && |pads| == |pairs|
  {
    Join(PrintPairs(pairs, pads))
  }

  // The value of the first pair whose key is the attribute, as printed.
  function FirstValue(pairs: seq<Pair>, attribute: string, upper: string -> string): Result<string, UserError> {
    if pairs == [] then Err(AttributeNotFound(attribute))
    else if upper(pairs[0].0) == upper(attribute) then Ok(EscapeValue(pairs[0].1))
    else FirstValue(pairs[1..], attribute, upper)
  }

  lemma {:induction false} EscapeValueClean(v: string)
    ensures Clean(EscapeValue(v)) && !Dangling(EscapeValue(v))
    ensures NoEdgeSpace(v) ==> NoEdgeSpace(EscapeValue(v))
    ensures v != [] ==> EscapeValue(v) != [] && EscapeValue(v)[|EscapeValue(v)| - 1] == v[|v| - 1]
  {
    if v != [] {
      var e := EscapeValue(v);
      EscapeValueClean(v[1..]);
      var p := Head(e);
      HeadClean(e);
      assert e == p + EscapeValue(v[1..]);
      CleanConcat(p, EscapeValue(v[1..]));
    }
  }

  // A printed part trims to key and value with what is between them.
  lemma PartTrims(key: string, value: string, pad: Padding) returns (left: string, right: string)
    requires NoEdgeSpace(key) && NoEdgeSpace(value) && IsPadding(pad)
    ensures Trim(pad.beforeKey + key + pad.afterKey + "=" + pad.beforeValue + value + pad.afterValue) ==
            left + "=" + right
    ensures left == if key == [] then [] else key + pad.afterKey
    ensures right == if value == [] then [] else pad.beforeValue + value
  {
    left := if key == [] then [] else key + pad.afterKey;
    right := if value == [] then [] else pad.beforeValue + value;
    var a := if key == [] then pad.beforeKey + pad.afterKey else pad.beforeKey;
    var b := if value == [] then pad.beforeValue + pad.afterValue else pad.afterValue;
    var core := left + "=" + right;
    CoreIsTrimmed(left, right, key, value, pad);
    TrimPast(a, core, b);
    assert a + left == pad.beforeKey + key + pad.afterKey;
    assert right + b == pad.beforeValue + value + pad.afterValue;
    AroundEquals(a, left, right, b);
    FlatRight(pad.beforeKey + key + pad.afterKey, pad.beforeValue, value, pad.afterValue);
  }

  lemma AroundEquals(a: string, left: string, right: string, b: string)
    ensures a + (left + "=" + right) + b == (a + left) + "=" + (right + b)
  {
  }

  lemma FlatRight(x: string, b: string, value: string, c: string)
    ensures x + "=" + b + value + c == x + "=" + (b + value + c)
  {
  }

  lemma CoreIsTrimmed(left: string, right: string, key: string, value: string, pad: Padding)
    requires NoEdgeSpace(key) && NoEdgeSpace(value)
    requires left == if key == [] then [] else key + pad.afterKey
    requires right == if value == [] then [] else pad.beforeValue + value
    ensures NoEdgeSpace(left + "=" + right)
  {
    var core := left + "=" + right;
    assert !IsWhitespace('=');
    assert core[0] == if key == [] then '=' else key[0];
    assert core[|core| - 1] == if value == [] then '=' else value[|value| - 1];
  }

  lemma PlainKeyValue(key: string, value: string, pad: Padding)
    requires PlainKey(key) && NoEdgeSpace(value) && IsPadding(pad)
    ensures var part := pad.beforeKey + key + pad.afterKey + "=" + pad.beforeValue + value + pad.afterValue;
            HasEquals(part) && KeyOf(part) == key && ValueOf(part) == value
  {
    var left, right := PartTrims(key, value, pad);
    KeySide(key, pad.afterKey, left);
    ValueSide(value, pad.beforeValue, right);
    SplitOnceFirst(left, right);
  }

  lemma KeySide(key: string, after: string, left: string)
    requires PlainKey(key) && AllSpace(after) && left == if key == [] then [] else key + after
    ensures '=' !in left && Trim(left) == key
  {
    assert !IsWhitespace('=');
    if key != [] {
      TrimPast([], key, after);
      assert [] + key + after == left;
    }
  }

  lemma ValueSide(value: string, before: string, right: string)
    requires NoEdgeSpace(value) && AllSpace(before) && right == if value == [] then [] else before + value
    ensures Trim(right) == value
  {
    if value != [] {
      TrimPast(before, value, []);
      assert before + value + [] == right;
    }
  }

  lemma SplitOnceFirst(key: string, value: string)
    requires '=' !in key
    ensures '=' in key + "=" + value
    ensures SplitOnce(key + "=" + value) == Some((key, value))
  {
    var part := key + "=" + value;
    assert part[|key|] == '=';
    var (k, v) := SplitOnce(part).value;
    NoEarlierEquals(key, value);
    NoEarlierEquals(k, v);
    assert part[|k|] == '=';
    assert k == part[..|key|] == key && v == part[|key| + 1..] == value;
  }

  lemma NoEarlierEquals(a: string, b: string)
    requires '=' !in a
    ensures forall i | 0 <= i < |a| :: (a + "=" + b)[i] != '='
  {
    assert forall i | 0 <= i < |a| :: (a + "=" + b)[i] == a[i];
  }

  lemma PlainTextClean(s: string)
    requires ',' !in s && '\\' !in s
    ensures Clean(s) && !Dangling(s)
  {
  }

  lemma SpaceIsPlain(s: string)
    requires AllSpace(s)
    ensures ',' !in s && '\\' !in s
  {
    assert !IsWhitespace(',') && !IsWhitespace('\\');
  }

  lemma PrintedClean(pair: Pair, pad: Padding)
    requires PlainKey(pair.0) && IsPadding(pad)
    ensures Clean(PrintPair(pair, pad)) && !Dangling(PrintPair(pair, pad))
  {
    var before := pad.beforeKey + pair.0 + pad.afterKey + "=" + pad.beforeValue;
    SpaceIsPlain(pad.beforeKey);
    SpaceIsPlain(pad.afterKey);
    SpaceIsPlain(pad.beforeValue);
    SpaceIsPlain(pad.afterValue);
    PlainTextClean(before);
    PlainTextClean(pad.afterValue);
    EscapeValueClean(pair.1);
    CleanConcat(before, EscapeValue(pair.1));
    CleanConcat(before + EscapeValue(pair.1), pad.afterValue);
  }

  lemma {:induction false} SearchPrinted(pairs: seq<Pair>, pads: seq<Padding>, attribute: string,
                                         upper: string -> string)
    requires |pads| == |pairs|
    requires forall k | 0 <= k < |pairs| :: PlainKey(pairs[k].0) && NoEdgeSpace(pairs[k].1) && IsPadding(pads[k])
    ensures Search(PrintPairs(pairs, pads), attribute, upper) == FirstValue(pairs, attribute, upper)
  {
    if pairs != [] {
      var (key, value) := pairs[0];
      EscapeValueClean(value);
      PlainKeyValue(key, EscapeValue(value), pads[0]);
      SearchPrinted(pairs[1..], pads[1..], attribute, upper);
      assert PrintPairs(pairs, pads)[1..] == PrintPairs(pairs[1..], pads[1..]);
    }
  }

  // Printing any list of pairs, with any whitespace around keys and values, and
  // extracting gives the still-escaped value of the first pair with the
  // attribute's key, or reports it missing.
  lemma PrintThenExtract(pairs: seq<Pair>, pads: seq<Padding>, attribute: string, upper: string -> string)
    requires pairs != [] && |pads| == |pairs|
    requires forall k | 0 <= k < |pairs| :: PlainKey(pairs[k].0) && NoEdgeSpace(pairs[k].1) && IsPadding(pads[k])
    ensures Extract(PrintDn(pairs, pads), attribute, upper) == FirstValue(pairs, attribute, upper)
  {
    var parts := PrintPairs(pairs, pads);
    forall k | 0 <= k < |parts|
      ensures Clean(parts[k]) && !Dangling(parts[k])
    {
      PrintedClean(pairs[k], pads[k]);
    }
    SplitUndoesJoin(parts);
    SearchPrinted(pairs, pads, attribute, upper);
  }

  // ------------------------------------------------------------- Groups

  // The client's groups added one by one to those already there.
  function Union(clientGroups: seq<string>, groups: seq<string>): seq<string> {
    if clientGroups == [] then groups
    else
      Union(clientGroups[1..],
            if clientGroups[0] in groups then groups else groups + [clientGroups[0]])
  }

  method ResolveGroups(clientGroups: seq<string>, defaultGroups: seq<string>) returns (result: seq<string>)
    ensures result == Union(clientGroups, defaultGroups)
  {
    result := defaultGroups;
    for i := 0 to |clientGroups|
      invariant Union(clientGroups[i..], result) == Union(clientGroups, defaultGroups)
    {
      var g := clientGroups[i];
      assert clientGroups[i..][1..] == clientGroups[i + 1..];
      if g !in result {
        result := result + [g];
      }
    }
  }

  // Resolving in two goes is resolving once.
  lemma {:induction false} UnionConcat(c: seq<string>, c': seq<string>, d: seq<string>)
    ensures Union(c + c', d) == Union(c', Union(c, d))
  {
    if c == [] {
      assert c + c' == c';
    } else {
      assert (c + c')[1..] == c[1..] + c';
      UnionConcat(c[1..], c', if c[0] in d then d else d + [c[0]]);
    }
  }

  lemma {:induction false} UnionNothingNew(c: seq<string>, d: seq<string>)
    requires forall g | g in c :: g in d
    ensures Union(c, d) == d
  {
    if c != [] {
      assert c[0] in c;
      UnionNothingNew(c[1..], d);
    }
  }

  lemma UnionIdempotent(c: seq<string>, d: seq<string>)
    ensures Union(c, Union(c, d)) == Union(c, d)
  {
    UnionLaws(c, d);
    UnionNothingNew(c, Union(c, d));
  }

  function FirstIndex(c: seq<string>, g: string): (i: nat)
    requires g in c
    ensures i < |c| && c[i] == g && g !in c[..i]
  {
    if c[0] == g then 0
    else
      var i := FirstIndex(c[1..], g);
      assert c[..i + 1] == [c[0]] + c[1..][..i];
      i + 1
  }

  lemma FirstIndexUnique(c: seq<string>, g: string, i: nat)
    requires i < |c| && c[i] == g && g !in c[..i]
    ensures FirstIndex(c, g) == i
  {
    var j := FirstIndex(c, g);
    assert forall m | 0 <= m < i :: c[m] == c[..i][m];
    assert forall m | 0 <= m < j :: c[m] == c[..j][m];
  }

  // The defaults come first, the members are those of either list, and what
  // follows the defaults is new, without repetition, in the order in which the
  // client's list first names it.
  lemma {:induction false} UnionLaws(c: seq<string>, d: seq<string>)
    ensures d <= Union(c, d)
    ensures forall g :: g in Union(c, d) <==> g in c || g in d
    ensures forall i | |d| <= i < |Union(c, d)| :: Union(c, d)[i] in c && Union(c, d)[i] !in d
    ensures forall i, j | |d| <= i < j < |Union(c, d)| ::
              FirstIndex(c, Union(c, d)[i]) < FirstIndex(c, Union(c, d)[j])
    decreases |c|
  {
    if c != [] {
      var n := |c| - 1;
      var init, g := c[..n], c[n];
      assert c == init + [g];
      UnionConcat(init, [g], d);
      UnionLaws(init, d);
      var r := Union(init, d);
      assert Union(c, d) == if g in r then r else r + [g];
      forall h | h in init
        ensures FirstIndex(c, h) == FirstIndex(init, h)
      {
        assert c[..FirstIndex(init, h)] == init[..FirstIndex(init, h)];
        FirstIndexUnique(c, h, FirstIndex(init, h));
      }
      if g !in r {
        FirstIndexUnique(c, g, n);
      }
    }
  }

  predicate NoRepeats(groups: seq<string>) {
    forall i, j | 0 <= i < j < |groups| :: groups[i] != groups[j]
  }

  // The result repeats a group exactly when the defaults do.
  lemma UnionRepeatsIff(c: seq<string>, d: seq<string>)
    ensures NoRepeats(Union(c, d)) <==> NoRepeats(d)
  {
    UnionLaws(c, d);
    var r := Union(c, d);
    assert forall i | 0 <= i < |d| :: r[i] == d[i] && d[i] in d;
  }
}
