/**
 The UTF-8 codec and the two iterators over code points (src/base/util.cc), after section 2 of
 RFC 2279: sequences of one to six bytes, of which section 3 of RFC 3629 keeps the first four lengths.

 A byte is its value; masks and shifts are written as remainders and quotients.
 */
module Utf8 {
  import opened Wrappers

  type byte = b: nat | b < 256
  type char32 = c: nat | c < 0x1_0000_0000

  // ---- The shape of a sequence ----

  predicate IsUtf8TrailingByte(b: byte) {
    0x80 <= b < 0xC0
  }

  // The masks of the program, as ranges.
  lemma MasksAreRanges(b: bv8)
    ensures (b & 0xC0 == 0x80) <==> 0x80 <= b < 0xC0
    ensures (b & 0xE0 == 0xC0) <==> 0xC0 <= b < 0xE0
    ensures (b & 0xF0 == 0xE0) <==> 0xE0 <= b < 0xF0
    ensures (b & 0xF8 == 0xF0) <==> 0xF0 <= b < 0xF8
    ensures (b & 0xFC == 0xF8) <==> 0xF8 <= b < 0xFC
    ensures (b & 0xFE == 0xFC) <==> 0xFC <= b < 0xFE
  {}

  // The length a leading byte of more than 0x7F announces; 0 if it cannot lead.
  function LengthOf(b: byte): (n: nat)
    ensures n == 0 || 2 <= n <= 6
  {
    if b < 0xC0 then 0
    else if b < 0xE0 then 2
    else if b < 0xF0 then 3
    else if b < 0xF8 then 4
    else if b < 0xFC then 5
    else if b < 0xFE then 6
    else 0
  }

  // The leading byte of a sequence of n bytes is this plus the highest bits, of which there are
  // LeadSize(n) values.
  function LeadBase(n: nat): byte
    requires 2 <= n <= 6
  {
    if n == 2 then 0xC0 else if n == 3 then 0xE0 else if n == 4 then 0xF0 else if n == 5 then 0xF8 else 0xFC
  }

  function LeadSize(n: nat): (size: nat)
    requires 2 <= n <= 6
    ensures 2 <= size <= 32
  {
    if n == 2 then 32 else if n == 3 then 16 else if n == 4 then 8 else if n == 5 then 4 else 2
  }

  function LeadBits(v: nat, n: nat): (h: nat)
    requires 2 <= n <= 6
    ensures h < LeadSize(n) && (v < LeadSize(n) ==> h == v)
  {
    v % LeadSize(n)
  }

  // The code points a sequence of n bytes may carry.
  function MinValue(n: nat): char32
    requires 2 <= n <= 6
  {
    if n == 2 then 0x80 else if n == 3 then 0x800 else if n == 4 then 0x1_0000 else if n == 5 then 0x20_0000
    else 0x400_0000
  }

  function MaxValue(n: nat): char32
    requires 2 <= n <= 6
  {
    if n == 2 then 0x7FF else if n == 3 then 0xFFFF else if n == 4 then 0x1F_FFFF else if n == 5 then 0x3FF_FFFF
    else 0x7FFF_FFFF
  }

  // ---- Six bits at a time ----

  // v followed by the six low bits of each byte of t.
  function Folded(v: nat, t: seq<byte>): nat {
    if t == [] then v else Folded(v, t[..|t| - 1]) * 64 + t[|t| - 1] % 64
  }

  // c without its k lowest digits of six bits.
  function Top(c: nat, k: nat): nat {
    if k == 0 then c else Top(c / 64, k - 1)
  }

  // Those digits, as trailing bytes.
  function Trailing(c: nat, k: nat): (t: seq<byte>)
    ensures |t| == k && AllTrailing(t)
  {
    if k == 0 then [] else Trailing(c / 64, k - 1) + [0x80 + c % 64]
  }

  predicate AllTrailing(t: seq<byte>) {
    forall i | 0 <= i < |t| :: IsUtf8TrailingByte(t[i])
  }

  lemma {:induction false} FoldedUndoesTrailing(c: nat, k: nat)
    ensures Folded(Top(c, k), Trailing(c, k)) == c
  {
    if k > 0 {
      FoldedUndoesTrailing(c / 64, k - 1);
      var t := Trailing(c, k);
      assert t[..k - 1] == Trailing(c / 64, k - 1) && t[k - 1] == 0x80 + c % 64;
    }
  }

  lemma {:induction false} TrailingUndoesFolded(v: nat, t: seq<byte>)
    requires AllTrailing(t)
    ensures Top(Folded(v, t), |t|) == v && Trailing(Folded(v, t), |t|) == t
  {
    if t != [] {
      var t', b := t[..|t| - 1], t[|t| - 1];
      TrailingUndoesFolded(v, t');
      assert IsUtf8TrailingByte(b) && 0x80 + b % 64 == b;
      assert Folded(v, t) / 64 == Folded(v, t') && Folded(v, t) % 64 == b % 64;
      assert t == t' + [b];
    }
  }

  // ---- Decoding ----

  datatype First = First(char32: nat, rest: seq<byte>)

  // SplitFirstChar32.
  function SplitFirst(s: seq<byte>): (r: Option<First>)
    ensures r.Some? ==> |r.value.rest| < |s|
  {
    if s == [] then None
    else if s[0] < 0x80 then Some(First(s[0], s[1..]))
    else
      var n := LengthOf(s[0]);
      if n == 0 || |s| < n || !AllTrailing(s[1..n]) then None
      else
        var v := Folded(LeadBits(s[0], n), s[1..n]);
        if v < MinValue(n) || MaxValue(n) < v then None else Some(First(v, s[n..]))
  }

  // ---- Encoding ----

  function EncodedLength(c: char32): nat {
    if c == 0 then 0
    else if c < 0x80 then 1
    else if c < 0x800 then 2
    else if c < 0x1_0000 then 3
    else if c < 0x20_0000 then 4
    else if c < 0x800_0000 then 5
    else 6
  }

  // CodepointToUtf8: nothing for NUL; and five bytes up to 0x7FFFFFF, one bit more than they carry.
  function Encode(c: char32): (s: seq<byte>)
    ensures |s| == EncodedLength(c)
  {
    if c == 0 then []
    else if c < 0x80 then [c]
    else
      var n := EncodedLength(c);
      [LeadBase(n) + LeadBits(Top(c, n - 1), n)] + Trailing(c, n - 1)
  }

  // ---- One code point there and back ----

  // The code points that survive: all but NUL, those of 27 bits and those of 32.
  predicate Encodable(c: char32) {
    0 < c < 0x400_0000 || 0x800_0000 <= c < 0x8000_0000
  }

  lemma LeadByte(n: nat, h: nat)
    requires 2 <= n <= 6 && h < LeadSize(n)
    ensures LeadBase(n) + h < 256
    ensures var b: byte := LeadBase(n) + h; b >= 0x80 && LengthOf(b) == n && LeadBits(b, n) == h
  {}

  lemma {:induction false} TopOfNext(c: nat, k: nat)
    ensures Top(c, k + 1) == Top(c, k) / 64
  {
    if k > 0 {
      TopOfNext(c / 64, k - 1);
    }
  }

  lemma TopFits(c: char32)
    requires c >= 0x80
    ensures var n := EncodedLength(c); Top(c, n - 1) < LeadSize(n) <==> Encodable(c)
  {
    assert Top(c, 0) == c by { TopOfNothing(c); }
    hide Top;
    TopOfNext(c, 0);
    TopOfNext(c, 1);
    TopOfNext(c, 2);
    TopOfNext(c, 3);
    TopOfNext(c, 4);
  }

  lemma TopOfNothing(c: nat)
    ensures Top(c, 0) == c
  {}

  lemma EncodableInRange(c: char32)
    requires c >= 0x80 && Encodable(c)
    ensures MinValue(EncodedLength(c)) <= c <= MaxValue(EncodedLength(c))
  {}

  lemma LengthOfDecoded(c: char32, n: nat)
    requires 2 <= n <= 6 && MinValue(n) <= c <= MaxValue(n)
    ensures 2 <= EncodedLength(c) <= n && c < 0x8000_0000
    ensures EncodedLength(c) == n <==> Encodable(c)
  {}

  // What is decoded from an encoding of two bytes or more.
  lemma SplitOfEncoded(c: char32, rest: seq<byte>)
    requires c >= 0x80
    ensures var n := EncodedLength(c);
      var v := Folded(LeadBits(Top(c, n - 1), n), Trailing(c, n - 1));
      SplitFirst(Encode(c) + rest) == if v < MinValue(n) || MaxValue(n) < v then None else Some(First(v, rest))
  {
    hide Folded, Top, Trailing, LeadBase, LeadSize, LengthOf, MinValue, MaxValue;
    var n := EncodedLength(c);
    var s := Encode(c) + rest;
    LeadByte(n, LeadBits(Top(c, n - 1), n));
    assert s[1..n] == Trailing(c, n - 1) && s[n..] == rest;
  }

  // Decoding undoes encoding, whatever follows, exactly for the encodable code points.
  lemma DecodeUndoesEncode(c: char32, rest: seq<byte>)
    ensures SplitFirst(Encode(c) + rest) == Some(First(c, rest)) <==> Encodable(c)
  {
    if c == 0 {
      assert Encode(c) + rest == rest;
    } else if c < 0x80 {
      var s := Encode(c) + rest;
      assert s[0] == c && s[1..] == rest;
    } else {
      LongDecodes(c, rest);
    }
  }

  lemma LongDecodes(c: char32, rest: seq<byte>)
    requires c >= 0x80
    ensures SplitFirst(Encode(c) + rest) == Some(First(c, rest)) <==> Encodable(c)
  {
    var n := EncodedLength(c);
    assert 2 <= n <= 6;
    hide SplitFirst, Folded, Top, Trailing, MinValue, MaxValue, LeadSize, LeadBits, Encodable, Encode, EncodedLength;
    var h := LeadBits(Top(c, n - 1), n);
    SplitOfEncoded(c, rest);
    FoldedUndoesTrailing(c, n - 1);
    TrailingUndoesFolded(h, Trailing(c, n - 1));
    TopFits(c);
    if Encodable(c) {
      EncodableInRange(c);
    }
  }

  // The bytes a decoded code point took.
  function Taken(s: seq<byte>): seq<byte>
    requires SplitFirst(s).Some?
  {
    s[..|s| - |SplitFirst(s).value.rest|]
  }

  lemma TakenAndRest(s: seq<byte>)
    requires SplitFirst(s).Some?
    ensures s == Taken(s) + SplitFirst(s).value.rest
    ensures SplitFirst(s).value.char32 < 0x8000_0000
  {}

  // Encoding undoes decoding exactly for them too; and where it does not, it writes less than was read.
  lemma EncodeUndoesDecode(s: seq<byte>)
    requires SplitFirst(s).Some?
    ensures var c := SplitFirst(s).value.char32;
      && c < 0x8000_0000
      && (Encode(c) == Taken(s) <==> Encodable(c))
      && (!Encodable(c) ==> |Encode(c)| < |Taken(s)|)
  {
    var c := SplitFirst(s).value.char32;
    if s[0] < 0x80 {
      assert Taken(s) == [s[0]];
    } else {
      var n := LengthOf(s[0]);
      LeadOfDecoded(s);
      assert Taken(s) == s[..n];
      assert c == Folded(LeadBits(s[0], n), s[1..n]) && AllTrailing(s[1..n]) && MinValue(n) <= c <= MaxValue(n);
      hide SplitFirst, Folded, Top, Trailing, MinValue, MaxValue;
      hide LeadSize, LeadBits, LeadBase, Encodable, EncodedLength, LengthOf;
      TrailingUndoesFolded(LeadBits(s[0], n), s[1..n]);
      LengthOfDecoded(c, n);
      EncodableIsLong(c);
      assert s[..n] == [s[0]] + s[1..n];
    }
  }

  lemma EncodableIsLong(c: char32)
    ensures EncodedLength(c) >= 2 ==> c >= 0x80
  {}

  lemma LeadOfDecoded(s: seq<byte>)
    requires SplitFirst(s).Some? && s[0] >= 0x80
    ensures var n := LengthOf(s[0]);
      2 <= n <= |s| && s[0] == LeadBase(n) + LeadBits(s[0], n) && LeadBits(s[0], n) < LeadSize(n)
  {}

  // ---- Splitting at the other end ----

  // One sequence that stands for c.
  predicate IsSequence(p: seq<byte>, c: char32) {
    SplitFirst(p) == Some(First(c, []))
  }

  lemma SequenceShape(p: seq<byte>, c: char32)
    requires IsSequence(p, c)
    ensures p != [] && !IsUtf8TrailingByte(p[0]) && AllTrailing(p[1..])
  {
    hide Folded;
    if p[0] >= 0x80 {
      assert p[1..LengthOf(p[0])] == p[1..];
    }
  }

  // What follows a sequence does not matter.
  lemma SequenceThenMore(p: seq<byte>, c: char32, t: seq<byte>)
    requires IsSequence(p, c)
    ensures SplitFirst(p + t) == Some(First(c, t))
  {
    hide Folded;
    var s := p + t;
    if p[0] < 0x80 {
      assert s[1..] == t;
    } else {
      var n := LengthOf(p[0]);
      assert s[1..n] == p[1..n] && s[n..] == t;
    }
  }

  lemma TakenIsSequence(s: seq<byte>)
    requires SplitFirst(s).Some?
    ensures IsSequence(Taken(s), SplitFirst(s).value.char32)
  {
    hide Folded;
    var p := Taken(s);
    if s[0] >= 0x80 {
      var n := LengthOf(s[0]);
      assert p[1..n] == s[1..n];
    }
  }

  // How many trailing bytes the string ends with.
  function TrailingRun(s: seq<byte>): (k: nat)
    ensures k <= |s|
  {
    if s == [] || !IsUtf8TrailingByte(s[|s| - 1]) then 0 else 1 + TrailingRun(s[..|s| - 1])
  }

  datatype Last = Last(rest: seq<byte>, char32: nat)

  // SplitLastChar32.
  function SplitLast(s: seq<byte>): (r: Option<Last>)
    ensures r.Some? ==> |r.value.rest| < |s|
  {
    var k := TrailingRun(s);
    if k == |s| then None
    else
      var at := |s| - k - 1;
      match SplitFirst(s[at..])
      case None => None
      case Some(first) => if first.rest != [] then None else Some(Last(s[..at], first.char32))
  }

  lemma {:induction false} RunOfTrailing(s: seq<byte>, t: seq<byte>)
    requires s != [] && !IsUtf8TrailingByte(s[|s| - 1]) && AllTrailing(t)
    ensures TrailingRun(s + t) == |t|
    decreases |t|
  {
    if t == [] {
      assert s + t == s;
    } else {
      RunOfTrailing(s, t[..|t| - 1]);
      assert (s + t)[..|s + t| - 1] == s + t[..|t| - 1];
      assert (s + t)[|s + t| - 1] == t[|t| - 1];
    }
  }

  lemma SplitLastOfSequence(s: seq<byte>, p: seq<byte>, c: char32)
    requires IsSequence(p, c)
    ensures SplitLast(s + p) == Some(Last(s, c))
  {
    SequenceShape(p, c);
    RunOfTrailing(s + [p[0]], p[1..]);
    hide SplitFirst;
    assert s + [p[0]] + p[1..] == s + p;
    assert (s + p)[|s|..] == p && (s + p)[..|s|] == s;
  }

  // ---- Walking a string either way ----

  // The code points met, in that order, and what is left where the walk stops.
  datatype Walk = Walk(chars: seq<nat>, rest: seq<byte>)

  function Forward(s: seq<byte>): Walk
    decreases |s|
  {
    match SplitFirst(s)
    case None => Walk([], s)
    case Some(first) => var w := Forward(first.rest); Walk([first.char32] + w.chars, w.rest)
  }

  function Backward(s: seq<byte>): Walk
    decreases |s|
  {
    match SplitLast(s)
    case None => Walk([], s)
    case Some(last) => var w := Backward(last.rest); Walk([last.char32] + w.chars, w.rest)
  }

  // A string made of sequences only.
  predicate Valid(s: seq<byte>) {
    Forward(s).rest == []
  }

  function Reversed(s: seq<nat>): (r: seq<nat>)
    ensures |r| == |s| && forall i | 0 <= i < |s| :: r[i] == s[|s| - 1 - i]
  {
    seq(|s|, i requires 0 <= i < |s| => s[|s| - 1 - i])
  }

  lemma {:induction false} ForwardOfConcat(q: seq<byte>, s: seq<byte>)
    requires Forward(q).rest == []
    ensures Forward(q + s) == Walk(Forward(q).chars + Forward(s).chars, Forward(s).rest)
    decreases |q|
  {
    hide SplitFirst;
    if q == [] {
      assert q + s == s;
      NothingSplits();
    } else {
      EmptyOnlyWhenSplit(q);
      var first := SplitFirst(q).value;
      TakenIsSequence(q);
      TakenAndRest(q);
      SequenceThenMore(Taken(q), first.char32, first.rest + s);
      assert q + s == Taken(q) + (first.rest + s);
      ForwardOfConcat(first.rest, s);
    }
  }

  lemma NothingSplits()
    ensures SplitFirst([]) == None && SplitLast([]) == None
  {}

  lemma EmptyOnlyWhenSplit(q: seq<byte>)
    requires q != []
    ensures Forward(q).rest == [] ==> SplitFirst(q).Some?
    ensures Backward(q).rest == [] ==> SplitLast(q).Some?
  {
    hide SplitFirst, SplitLast;
  }

  lemma SequenceOfLast(q: seq<byte>)
    requires SplitLast(q).Some?
    ensures var last := SplitLast(q).value; q == last.rest + q[|last.rest|..]
    ensures var last := SplitLast(q).value; last.char32 < 0x1_0000_0000 && IsSequence(q[|last.rest|..], last.char32)
  {
    var p := q[|q| - TrailingRun(q) - 1..];
    assert SplitFirst(p).Some?;
    TakenAndRest(p);
  }

  lemma BackwardOfNext(s: seq<byte>, p: seq<byte>, c: char32)
    requires IsSequence(p, c)
    ensures Backward(s + p) == Walk([c] + Backward(s).chars, Backward(s).rest)
  {
    hide SplitLast, IsSequence;
    SplitLastOfSequence(s, p, c);
  }

  lemma {:induction false} BackwardOfConcat(s: seq<byte>, q: seq<byte>)
    requires Backward(q).rest == []
    ensures Backward(s + q) == Walk(Backward(q).chars + Backward(s).chars, Backward(s).rest)
    decreases |q|
  {
    EmptyBackward();
    hide SplitLast, IsSequence, Backward;
    if q == [] {
      assert s + q == s;
    } else {
      EmptyOnlyWhenSplit(q);
      var last := SplitLast(q).value;
      var p := q[|last.rest|..];
      SequenceOfLast(q);
      BackwardOfNext(last.rest, p, last.char32);
      BackwardOfConcat(s, last.rest);
      BackwardOfNext(s + last.rest, p, last.char32);
      assert s + q == s + last.rest + p;
    }
  }

  lemma EmptyBackward()
    ensures Backward([]) == Walk([], [])
  {}

  lemma WalkOfSequence(p: seq<byte>, c: char32)
    requires IsSequence(p, c)
    ensures Forward(p) == Backward(p) == Walk([c], [])
  {
    hide SplitFirst, SplitLast;
    NothingSplits();
    assert [] + p == p;
    SplitLastOfSequence([], p, c);
  }

  lemma {:induction false} BackwardOfValid(s: seq<byte>)
    requires Forward(s).rest == []
    ensures Backward(s) == Walk(Reversed(Forward(s).chars), [])
    decreases |s|
  {
    hide SplitFirst, SplitLast;
    NothingSplits();
    if s != [] {
      EmptyOnlyWhenSplit(s);
      var first := SplitFirst(s).value;
      TakenAndRest(s);
      TakenIsSequence(s);
      WalkOfSequence(Taken(s), first.char32);
      BackwardOfValid(first.rest);
      BackwardOfConcat(Taken(s), first.rest);
      var rest := Forward(first.rest).chars;
      assert Reversed([first.char32] + rest) == Reversed(rest) + [first.char32];
    }
  }

  lemma {:induction false} ForwardOfBackward(s: seq<byte>)
    requires Backward(s).rest == []
    ensures Forward(s).rest == []
    decreases |s|
  {
    hide SplitFirst, SplitLast;
    NothingSplits();
    if s != [] {
      EmptyOnlyWhenSplit(s);
      var last := SplitLast(s).value;
      SequenceOfLast(s);
      WalkOfSequence(s[|last.rest|..], last.char32);
      ForwardOfBackward(last.rest);
      ForwardOfConcat(last.rest, s[|last.rest|..]);
    }
  }

  // The two walks consume the same strings whole, the valid ones, and meet the same code points in
  // opposite orders.
  lemma WalksAreReversed(s: seq<byte>)
    ensures Backward(s).rest == [] <==> Valid(s)
    ensures Valid(s) ==> Backward(s).chars == Reversed(Forward(s).chars)
  {
    if Valid(s) {
      BackwardOfValid(s);
    }
    if Backward(s).rest == [] {
      ForwardOfBackward(s);
    }
  }

  // ---- Whole strings there and back ----

  // Utf8ToUtf32: the code points up to where the string stops being valid.
  function CodePoints(s: seq<byte>): seq<nat> {
    Forward(s).chars
  }

  // Utf32ToUtf8.
  function Encoded(cs: seq<char32>): seq<byte> {
    if cs == [] then [] else Encode(cs[0]) + Encoded(cs[1..])
  }

  predicate AllEncodable(cs: seq<char32>) {
    forall i | 0 <= i < |cs| :: Encodable(cs[i])
  }

  lemma {:induction false} CodePointsAreChar32(s: seq<byte>)
    ensures forall i | 0 <= i < |CodePoints(s)| :: CodePoints(s)[i] < 0x8000_0000
    decreases |s|
  {
    hide SplitFirst;
    if SplitFirst(s).Some? {
      TakenAndRest(s);
      var first := SplitFirst(s).value;
      CodePointsAreChar32(first.rest);
      assert forall i | 0 < i < |CodePoints(s)| :: CodePoints(s)[i] == CodePoints(first.rest)[i - 1];
    }
  }

  lemma {:induction false} EncodedIsNoLonger(s: seq<byte>, cs: seq<char32>)
    requires cs == CodePoints(s)
    ensures |Encoded(cs)| <= |s|
    ensures Encoded(cs) == s <==> Valid(s) && AllEncodable(cs)
    decreases |s|
  {
    hide SplitFirst, Encode, Encodable;
    if SplitFirst(s).Some? {
      var first := SplitFirst(s).value;
      TakenAndRest(s);
      EncodeUndoesDecode(s);
      EncodedIsNoLonger(first.rest, cs[1..]);
      SameFront(Encode(first.char32), Encoded(cs[1..]), Taken(s), first.rest);
    } else {
      NothingSplits();
    }
  }

  lemma SameFront(a: seq<byte>, b: seq<byte>, c: seq<byte>, d: seq<byte>)
    requires |b| <= |d| && (a == c || |a| < |c|)
    ensures a + b == c + d <==> a == c && b == d
  {
    if a + b == c + d && |a| == |c| {
      assert (a + b)[|a|..] == b && (c + d)[|c|..] == d;
    }
  }

  // Utf32ToUtf8 undoes Utf8ToUtf32 exactly on the valid strings of encodable code points.
  lemma StringRoundTrip(s: seq<byte>)
    ensures forall i | 0 <= i < |CodePoints(s)| :: CodePoints(s)[i] < 0x1_0000_0000
    ensures Encoded(CodePoints(s)) == s <==> Valid(s) && AllEncodable(CodePoints(s))
  {
    CodePointsAreChar32(s);
    EncodedIsNoLonger(s, CodePoints(s));
  }

  lemma {:induction false} NoZeroByte(cs: seq<char32>)
    ensures 0 !in Encoded(cs)
  {
    hide Top;
    if cs != [] {
      NoZeroByte(cs[1..]);
      assert cs[0] >= 0x80 ==> AllTrailing(Trailing(cs[0], EncodedLength(cs[0]) - 1));
    }
  }

  lemma ZeroIsItsByte(s: seq<byte>)
    requires SplitFirst(s).Some? && SplitFirst(s).value.char32 == 0
    ensures s != [] && s[0] == 0
  {}

  lemma NotEncodableIsLost(c: char32, t: seq<byte>)
    requires !Encodable(c) && 0 !in t
    ensures var r := SplitFirst(Encode(c) + t); r.Some? ==> r.value.char32 != c
  {
    DecodeUndoesEncode(c, t);
    if c == 0 {
      assert Encode(c) + t == t;
      if SplitFirst(t).Some? && SplitFirst(t).value.char32 == 0 {
        ZeroIsItsByte(t);
      }
    } else {
      hide SplitFirst, Encode;
      SplitOfEncoded(c, t);
    }
  }

  // Utf8ToUtf32 undoes Utf32ToUtf8 exactly on the lists of encodable code points.
  lemma {:induction false} CodePointRoundTrip(cs: seq<char32>)
    ensures CodePoints(Encoded(cs)) == cs <==> AllEncodable(cs)
    ensures AllEncodable(cs) ==> Valid(Encoded(cs))
  {
    hide SplitFirst, Encode, Encodable;
    if cs == [] {
      NothingSplits();
    } else {
      var c, t := cs[0], Encoded(cs[1..]);
      DecodeUndoesEncode(c, t);
      CodePointRoundTrip(cs[1..]);
      NoZeroByte(cs[1..]);
      if !Encodable(c) {
        NotEncodableIsLost(c, t);
      }
    }
  }

  // ---- The program ----

  // The loop of SplitFirstChar32 over the bytes after the leading one.
  method FoldTrailingBytes(s: seq<byte>, len: nat, lead: nat) returns (trailing: bool, result: nat)
    requires 1 <= len <= |s|
    ensures trailing <==> AllTrailing(s[1..len])
    ensures trailing ==> result == Folded(lead, s[1..len])
  {
    result := lead;
    assert result == Folded(lead, s[1..1]);
    hide Folded;
    for i := 1 to len
      invariant AllTrailing(s[1..i]) && result == Folded(lead, s[1..i])
    {
      var c := s[i];
      assert s[1..len][i - 1] == c;
      if !IsUtf8TrailingByte(c) {
        // This byte cannot stand here, so no continuation does.
        return false, result;
      }
      assert s[1..i + 1] == s[1..i] + [c];
      FoldedOfNext(lead, s[1..i], c);
      result := result * 64;
      result := result + c % 64;
    }
    return true, result;
  }

  method SplitFirstChar32(s: seq<byte>) returns (ok: bool, firstChar32: char32, rest: seq<byte>)
    ensures ok <==> SplitFirst(s).Some?
    ensures ok ==> SplitFirst(s) == Some(First(firstChar32, rest))
    ensures !ok ==> firstChar32 == 0 && rest == []
  {
    if s == [] {
      return false, 0, [];
    }
    var leadingByte := s[0];
    if leadingByte < 0x80 {
      return true, leadingByte, s[1..];
    }
    if IsUtf8TrailingByte(leadingByte) {
      // LengthOf is 0.
      return false, 0, [];
    }
    var len, minValue: char32, maxValue: char32, result: nat;
    if leadingByte < 0xE0 {
      len, minValue, maxValue, result := 2, 0x80, 0x7FF, leadingByte % 0x20;
    } else if leadingByte < 0xF0 {
      len, minValue, maxValue, result := 3, 0x800, 0xFFFF, leadingByte % 0x10;
    } else if leadingByte < 0xF8 {
      len, minValue, maxValue, result := 4, 0x1_0000, 0x1F_FFFF, leadingByte % 0x08;
    } else if leadingByte < 0xFC {
      len, minValue, maxValue, result := 5, 0x20_0000, 0x3FF_FFFF, leadingByte % 0x04;
    } else if leadingByte < 0xFE {
      len, minValue, maxValue, result := 6, 0x400_0000, 0x7FFF_FFFF, leadingByte % 0x02;
    } else {
      // LengthOf is 0 again.
      return false, 0, [];
    }
    if |s| < len {
      // The sequence is cut off.
      return false, 0, [];
    }
    var trailing;
    trailing, result := FoldTrailingBytes(s, len, result);
    if !trailing {
      return false, 0, [];
    }
    if result < minValue || maxValue < result {
      // The value belongs to another length.
      return false, 0, [];
    }
    return true, result, s[len..];
  }

  lemma FoldedOfNext(v: nat, t: seq<byte>, b: byte)
    ensures Folded(v, t + [b]) == Folded(v, t) * 64 + b % 64
  {
    assert (t + [b])[..|t|] == t;
  }

  method SplitLastChar32(s: seq<byte>) returns (ok: bool, rest: seq<byte>, lastChar32: char32)
    ensures ok <==> SplitLast(s).Some?
    ensures ok ==> SplitLast(s) == Some(Last(rest, lastChar32))
    ensures !ok ==> rest == []
  {
    hide SplitFirst;
    if s == [] {
      return false, [], 0;
    }
    // The loop computes TrailingRun.
    var it := 0;
    assert s[..|s| - it] == s;
    while it < |s| && IsUtf8TrailingByte(s[|s| - 1 - it])
      invariant it <= |s| && TrailingRun(s) == it + TrailingRun(s[..|s| - it])
    {
      assert s[..|s| - it][..|s| - it - 1] == s[..|s| - it - 1];
      it := it + 1;
    }
    if it == |s| {
      return false, [], 0;
    }
    var lastPiece := s[|s| - it - 1..];
    var split, resultPiece;
    split, lastChar32, resultPiece := SplitFirstChar32(lastPiece);
    if !split {
      return false, [], lastChar32;
    }
    if resultPiece != [] {
      return false, [], lastChar32;
    }
    return true, s[..|s| - it - 1], lastChar32;
  }

  method IsValidUtf8(s: seq<byte>) returns (valid: bool)
    ensures valid == Valid(s)
  {
    hide SplitFirst;
    var left := s;
    while left != []
      invariant Valid(left) == Valid(s)
      decreases |left|
    {
      var split, first, rest := SplitFirstChar32(left);
      if !split {
        return false;
      }
      left := rest;
    }
    return true;
  }

  lemma {:induction false} TrailingAt(c: nat, k: nat, i: nat)
    requires i < k
    ensures Trailing(c, k)[i] == 0x80 + Top(c, k - 1 - i) % 64
  {
    if i < k - 1 {
      TrailingAt(c / 64, k - 1, i);
    }
  }

  lemma EncodedBytes(c: char32)
    ensures var n := EncodedLength(c);
      |Encode(c)| == n <= 6
      && (n == 1 ==> Encode(c)[0] == c)
      && (n >= 2 ==> Encode(c)[0] == LeadBase(n) + Top(c, n - 1) % LeadSize(n))
      && forall i | 0 < i < n :: Encode(c)[i] == 0x80 + Top(c, n - 1 - i) % 64
  {
    hide Top, Trailing;
    var n := EncodedLength(c);
    forall i | 0 < i < n ensures Encode(c)[i] == 0x80 + Top(c, n - 1 - i) % 64 {
      TrailingAt(c, n - 1, i - 1);
    }
  }

  lemma TopValues(c: nat)
    ensures Top(c, 0) == c && Top(c, 1) == c / 0x40 && Top(c, 2) == c / 0x1000 && Top(c, 3) == c / 0x4_0000
    ensures Top(c, 4) == c / 0x100_0000 && Top(c, 5) == c / 0x4000_0000
  {
    TopOfNothing(c);
    hide Top;
    TopOfNext(c, 0);
    TopOfNext(c, 1);
    TopOfNext(c, 2);
    TopOfNext(c, 3);
    TopOfNext(c, 4);
  }

  lemma EncodeShort(c: char32)
    ensures c == 0 ==> Encode(c) == []
    ensures 0 < c < 0x80 ==> Encode(c) == [c]
  {}

  lemma Encode2(c: char32)
    requires 0x80 <= c < 0x800
    ensures Encode(c)
         == [0xC0 + c / 0x40 % 0x20, 0x80 + c % 0x40]
  {
    hide Top, Encode;
    EncodedBytes(c);
    TopValues(c);
  }

  lemma Encode3(c: char32)
    requires 0x800 <= c < 0x1_0000
    ensures Encode(c)
         == [0xE0 + c / 0x1000 % 0x10, 0x80 + c / 0x40 % 0x40, 0x80 + c % 0x40]
  {
    hide Top, Encode;
    EncodedBytes(c);
    TopValues(c);
  }

  lemma Encode4(c: char32)
    requires 0x1_0000 <= c < 0x20_0000
    ensures Encode(c)
         == [0xF0 + c / 0x4_0000 % 0x08, 0x80 + c / 0x1000 % 0x40, 0x80 + c / 0x40 % 0x40,
          0x80 + c % 0x40]
  {
    hide Top, Encode;
    EncodedBytes(c);
    TopValues(c);
  }

  lemma Encode5(c: char32)
    requires 0x20_0000 <= c < 0x800_0000
    ensures Encode(c)
         == [0xF8 + c / 0x100_0000 % 0x04, 0x80 + c / 0x4_0000 % 0x40, 0x80 + c / 0x1000 % 0x40,
          0x80 + c / 0x40 % 0x40, 0x80 + c % 0x40]
  {
    hide Top, Encode;
    EncodedBytes(c);
    TopValues(c);
  }

  lemma Encode6(c: char32)
    requires 0x800_0000 <= c
    ensures Encode(c)
         == [0xFC + c / 0x4000_0000 % 0x02, 0x80 + c / 0x100_0000 % 0x40, 0x80 + c / 0x4_0000 % 0x40,
          0x80 + c / 0x1000 % 0x40, 0x80 + c / 0x40 % 0x40, 0x80 + c % 0x40]
  {
    hide Top, Encode;
    EncodedBytes(c);
    TopValues(c);
  }

  // The output is terminated by NUL; the rest of the buffer is left alone.
  method CodepointToUtf8(c: char32, output: array<byte>) returns (n: nat)
    requires output.Length >= 7
    modifies output
    ensures n == |Encode(c)| <= 6 && output[..n] == Encode(c) && output[n] == 0
    ensures output[n + 1..] == old(output[n + 1..])
  {
    EncodeShort(c);
    hide Encode;
    if c == 0 {
      // Nothing but the terminator.
      output[0] := 0;
      return 0;
    }
    if c < 0x80 {
      output[0] := c % 0x100;
      output[1] := 0;
      return 1;
    }
    if c < 0x800 {
      output[0] := 0xC0 + c / 0x40 % 0x20;
      output[1] := 0x80 + c % 0x40;
      output[2] := 0;
      Encode2(c);
      return 2;
    }
    if c < 0x1_0000 {
      output[0] := 0xE0 + c / 0x1000 % 0x10;
      output[1] := 0x80 + c / 0x40 % 0x40;
      output[2] := 0x80 + c % 0x40;
      output[3] := 0;
      Encode3(c);
      return 3;
    }
    if c < 0x20_0000 {
      output[0] := 0xF0 + c / 0x4_0000 % 0x08;
      output[1] := 0x80 + c / 0x1000 % 0x40;
      output[2] := 0x80 + c / 0x40 % 0x40;
      output[3] := 0x80 + c % 0x40;
      output[4] := 0;
      Encode4(c);
      return 4;
    }
    if c < 0x800_0000 {
      output[0] := 0xF8 + c / 0x100_0000 % 0x04;
      output[1] := 0x80 + c / 0x4_0000 % 0x40;
      output[2] := 0x80 + c / 0x1000 % 0x40;
      output[3] := 0x80 + c / 0x40 % 0x40;
      output[4] := 0x80 + c % 0x40;
      output[5] := 0;
      Encode5(c);
      return 5;
    }
    output[0] := 0xFC + c / 0x4000_0000 % 0x02;
    output[1] := 0x80 + c / 0x100_0000 % 0x40;
    output[2] := 0x80 + c / 0x4_0000 % 0x40;
    output[3] := 0x80 + c / 0x1000 % 0x40;
    output[4] := 0x80 + c / 0x40 % 0x40;
    output[5] := 0x80 + c % 0x40;
    output[6] := 0;
    Encode6(c);
    return 6;
  }

  method CodepointToUtf8Append(c: char32, output: seq<byte>) returns (appended: seq<byte>)
    ensures appended == output + Encode(c)
  {
    hide Encode;
    var buf := new byte[7];
    var mblen := CodepointToUtf8(c, buf);
    return output + buf[..mblen];
  }

  method Utf8ToUtf32(s: seq<byte>) returns (codepoints: seq<char32>)
    ensures codepoints == CodePoints(s)
  {
    hide SplitFirst;
    codepoints := [];
    var split, codepoint, str := SplitFirstChar32(s);
    ghost var left := s;
    while split
      invariant split <==> SplitFirst(left).Some?
      invariant split ==> SplitFirst(left) == Some(First(codepoint, str))
      invariant codepoints + CodePoints(left) == CodePoints(s)
      decreases |left|
    {
      codepoints := codepoints + [codepoint];
      left := str;
      split, codepoint, str := SplitFirstChar32(str);
    }
  }

  method Utf32ToUtf8(str: seq<char32>) returns (output: seq<byte>)
    ensures output == Encoded(str)
  {
    hide Encode;
    output := [];
    assert str[0..] == str;
    for i := 0 to |str|
      invariant output + Encoded(str[i..]) == Encoded(str)
    {
      assert str[i..][1..] == str[i + 1..];
      output := CodepointToUtf8Append(str[i], output);
    }
  }

  // ---- The iterators ----

  class ConstChar32Iterator {
    var utf8String: seq<byte>
    var current: char32
    var done: bool

    // The code points still to be given, the current one first.
    function Remaining(): seq<nat>
      reads this
    {
      if done then [] else [current] + CodePoints(utf8String)
    }

    constructor (s: seq<byte>)
      ensures Remaining() == CodePoints(s)
    {
      utf8String, current, done := s, 0, false;
      new;
      Advance();
    }

    // The step of Next(): the current code point is the next one of the string.
    method Advance()
      requires !done
      modifies this
      ensures Remaining() == CodePoints(old(utf8String))
    {
      hide SplitFirst;
      var split;
      split, current, utf8String := SplitFirstChar32(utf8String);
      done := !split;
    }

    method Get() returns (c: char32)
      requires !done
      ensures c == Remaining()[0]
    {
      return current;
    }

    method Next()
      modifies this
      ensures Remaining() == if old(done) then [] else old(Remaining())[1..]
    {
      if !done {
        Advance();
      }
    }

    method Done() returns (r: bool)
      ensures r <==> Remaining() == []
    {
      return done;
    }
  }

  class ConstChar32ReverseIterator {
    var utf8String: seq<byte>
    var current: char32
    var done: bool

    function Remaining(): seq<nat>
      reads this
    {
      if done then [] else [current] + Backward(utf8String).chars
    }

    constructor (s: seq<byte>)
      ensures Remaining() == Backward(s).chars
    {
      utf8String, current, done := s, 0, false;
      new;
      Advance();
    }

    method Advance()
      requires !done
      modifies this
      ensures Remaining() == Backward(old(utf8String)).chars
    {
      hide SplitLast;
      var split;
      split, utf8String, current := SplitLastChar32(utf8String);
      done := !split;
    }

    method Get() returns (c: char32)
      requires !done
      ensures c == Remaining()[0]
    {
      return current;
    }

    method Next()
      modifies this
      ensures Remaining() == if old(done) then [] else old(Remaining())[1..]
    {
      if !done {
        Advance();
      }
    }

    method Done() returns (r: bool)
      ensures r <==> Remaining() == []
    {
      return done;
    }
  }
}
