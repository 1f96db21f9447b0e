/**
 What Utf8 decodes, in the terms of section 2 of RFC 2279: the shortest form of each code point of 31
 bits and nothing else.
 */
module Utf8Standard {
  import opened Wrappers
  import opened Utf8

  // The code points that survive a round trip.
  lemma EncodableIs(c: char32)
    ensures Encodable(c) <==> c != 0 && !(0x400_0000 <= c <= 0x7FF_FFFF) && c <= 0x7FFF_FFFF
  {}

  // The one sequence that decodes to c.
  lemma DecodedIs(c: char32, e: seq<byte>, s: seq<byte>, rest: seq<byte>)
    requires c < 0x8000_0000
    requires e ==
      if c < 0x80 then [c]
      else if c < 0x800 then [0xC0 + c / 0x40, 0x80 + c % 0x40]
      else if c < 0x1_0000 then [0xE0 + c / 0x1000, 0x80 + c / 0x40 % 0x40, 0x80 + c % 0x40]
      else if c < 0x20_0000 then
        [0xF0 + c / 0x4_0000, 0x80 + c / 0x1000 % 0x40, 0x80 + c / 0x40 % 0x40, 0x80 + c % 0x40]
      else if c < 0x400_0000 then
        [0xF8 + c / 0x100_0000, 0x80 + c / 0x4_0000 % 0x40, 0x80 + c / 0x1000 % 0x40,
         0x80 + c / 0x40 % 0x40, 0x80 + c % 0x40]
      else
        [0xFC + c / 0x4000_0000, 0x80 + c / 0x100_0000 % 0x40, 0x80 + c / 0x4_0000 % 0x40,
         0x80 + c / 0x1000 % 0x40, 0x80 + c / 0x40 % 0x40, 0x80 + c % 0x40]
    ensures SplitFirst(s) == Some(First(c, rest)) <==> s == e + rest
  {
    if c < 0x80 {
      AsciiIs(c, s, rest);
    } else {
      hide *;
      var n := if c < 0x800 then 2 else if c < 0x1_0000 then 3 else if c < 0x20_0000 then 4
               else if c < 0x400_0000 then 5 else 6;
      ShapeIs(c, n, e);
      SequenceOnly(c, n, s, rest);
    }
  }

  // Nothing decodes to more than 31 bits.
  lemma DecodedFits(s: seq<byte>)
    ensures var r := SplitFirst(s); r.Some? ==> r.value.char32 < 0x8000_0000
  {
    hide SplitFirst;
    if SplitFirst(s).Some? {
      TakenAndRest(s);
    }
  }

  lemma AsciiIs(c: char32, s: seq<byte>, rest: seq<byte>)
    requires c < 0x80
    ensures SplitFirst(s) == Some(First(c, rest)) <==> s == [c] + rest
  {
    hide Folded;
    if s == [c] + rest {
      assert s[1..] == rest;
    }
    assert s != [] ==> s == [s[0]] + s[1..];
  }

  // A leading byte with the highest bits, and six bits in each of the others.
  lemma ShapeIs(c: char32, n: nat, e: seq<byte>)
    requires 0x80 <= c < 0x8000_0000
    requires n == if c < 0x800 then 2 else if c < 0x1_0000 then 3 else if c < 0x20_0000 then 4
                  else if c < 0x400_0000 then 5 else 6
    requires |e| == n
    requires e ==
      if c < 0x800 then [0xC0 + c / 0x40, 0x80 + c % 0x40]
      else if c < 0x1_0000 then [0xE0 + c / 0x1000, 0x80 + c / 0x40 % 0x40, 0x80 + c % 0x40]
      else if c < 0x20_0000 then
        [0xF0 + c / 0x4_0000, 0x80 + c / 0x1000 % 0x40, 0x80 + c / 0x40 % 0x40, 0x80 + c % 0x40]
      else if c < 0x400_0000 then
        [0xF8 + c / 0x100_0000, 0x80 + c / 0x4_0000 % 0x40, 0x80 + c / 0x1000 % 0x40,
         0x80 + c / 0x40 % 0x40, 0x80 + c % 0x40]
      else
        [0xFC + c / 0x4000_0000, 0x80 + c / 0x100_0000 % 0x40, 0x80 + c / 0x4_0000 % 0x40,
         0x80 + c / 0x1000 % 0x40, 0x80 + c / 0x40 % 0x40, 0x80 + c % 0x40]
    ensures Top(c, n - 1) < LeadSize(n) && e[0] == LeadBase(n) + Top(c, n - 1) && e[1..] == Trailing(c, n - 1)
    ensures MinValue(n) <= c <= MaxValue(n)
  {
    hide Top, Trailing;
    TopValues(c);
    forall i | 0 <= i < n - 1 ensures e[1..][i] == Trailing(c, n - 1)[i] {
      TrailingAt(c, n - 1, i);
    }
  }

  lemma SequenceOnly(c: char32, n: nat, s: seq<byte>, rest: seq<byte>)
    requires 2 <= n <= 6 && MinValue(n) <= c <= MaxValue(n) && Top(c, n - 1) < LeadSize(n)
    requires LeadBase(n) + Top(c, n - 1) < 256
    ensures SplitFirst(s) == Some(First(c, rest)) <==> s == [LeadBase(n) + Top(c, n - 1)] + Trailing(c, n - 1) + rest
  {
    hide *;
    SequenceDecodes(c, n, rest);
    if SplitFirst(s) == Some(First(c, rest)) {
      OnlySequence(c, n, s, rest);
    }
  }

  lemma SequenceDecodes(c: char32, n: nat, rest: seq<byte>)
    requires 2 <= n <= 6 && MinValue(n) <= c <= MaxValue(n) && Top(c, n - 1) < LeadSize(n)
    requires LeadBase(n) + Top(c, n - 1) < 256
    ensures SplitFirst([LeadBase(n) + Top(c, n - 1)] + Trailing(c, n - 1) + rest) == Some(First(c, rest))
  {
    hide Folded, Top, Trailing, LeadBase, LeadSize, LengthOf, LeadBits, MinValue, MaxValue;
    var lead: byte := LeadBase(n) + Top(c, n - 1);
    var s := [lead] + Trailing(c, n - 1) + rest;
    LeadByte(n, Top(c, n - 1));
    FoldedUndoesTrailing(c, n - 1);
    assert s[1..n] == Trailing(c, n - 1) && s[n..] == rest && s[0] == lead;
  }

  lemma OnlySequence(c: char32, n: nat, s: seq<byte>, rest: seq<byte>)
    requires 2 <= n <= 6 && MinValue(n) <= c <= MaxValue(n) && Top(c, n - 1) < LeadSize(n)
    requires LeadBase(n) + Top(c, n - 1) < 256 && SplitFirst(s) == Some(First(c, rest))
    ensures s == [LeadBase(n) + Top(c, n - 1)] + Trailing(c, n - 1) + rest
  {
    LengthIs(c, n, s, rest);
    LeadOfDecoded(s);
    hide SplitFirst, Folded, Top, Trailing, MinValue, MaxValue, LeadSize, LeadBits, LeadBase, LengthOf;
    TrailingUndoesFolded(LeadBits(s[0], n), s[1..n]);
    assert s == [s[0]] + s[1..n] + s[n..];
  }

  lemma LengthIs(c: char32, n: nat, s: seq<byte>, rest: seq<byte>)
    requires 2 <= n <= 6 && MinValue(n) <= c <= MaxValue(n) && SplitFirst(s) == Some(First(c, rest))
    ensures s != [] && s[0] >= 0x80 && LengthOf(s[0]) == n <= |s|
    ensures AllTrailing(s[1..n]) && c == Folded(LeadBits(s[0], n), s[1..n]) && rest == s[n..]
  {
    hide Folded, LeadBits, AllTrailing;
  }

  // ---- Whole strings ----

  // Reading on from the first code point.
  lemma CodePointsAre(c: char32, p: seq<byte>, s: seq<byte>)
    requires SplitFirst(p + s) == Some(First(c, s))
    ensures CodePoints(p + s) == [c] + CodePoints(s) && (Valid(p + s) <==> Valid(s))
  {
    hide SplitFirst;
  }

  lemma CodePointsEnd(s: seq<byte>)
    requires SplitFirst(s) == None
    ensures CodePoints(s) == [] && (Valid(s) <==> s == [])
  {
    hide SplitFirst;
  }

  // From the end: the last sequence, if the string ends with one.
  lemma SplitLastIs(s: seq<byte>, before: seq<byte>, c: char32)
    ensures SplitLast(s) == Some(Last(before, c)) <==>
      |before| < |s| && s[..|before|] == before && SplitFirst(s[|before|..]) == Some(First(c, []))
  {
    hide SplitFirst;
    if |before| < |s| && s[..|before|] == before && SplitFirst(s[|before|..]) == Some(First(c, [])) {
      SplitLastOfSequence(before, s[|before|..], c);
      assert before + s[|before|..] == s;
    }
  }

  lemma BackwardIs(s: seq<byte>)
    ensures SplitLast(s) == None ==> Backward(s) == Walk([], s)
    ensures SplitLast(s).Some? ==> var last := SplitLast(s).value;
      Backward(s) == Walk([last.char32] + Backward(last.rest).chars, Backward(last.rest).rest)
  {
    hide SplitLast;
  }
}
