/**
 The texts of NumberPrinter and NumberParser character by character: the tables of both, the text of
 a segment place by place, the whole list of candidates, and the two texts of a normalized number.
 */
module NumberTexts {
  import opened Decimals
  import opened Wrappers
  import opened NumberParser
  import opened NumberPrinter
  import opened NumberRoundTrip

  // ---- Characters ----

  // The number of each character the reader knows, and no other character is one.
  lemma NumberTable(c: char, d: nat)
    requires d < 10
    ensures NumberOf("0123456789"[d]) == Some(d)
    ensures NumberOf("０１２３４５６７８９"[d]) == Some(d)
    ensures NumberOf("零一二三四五六七八九"[d]) == Some(d)
    ensures NumberOf('壱') == Some(1) && NumberOf('弐') == Some(2) && NumberOf('参') == Some(3)
    ensures NumberOf('十') == NumberOf('拾') == Some(10) && NumberOf('百') == Some(100) && NumberOf('千') == Some(1000)
    ensures NumberOf('廿') == Some(20) && NumberOf('卅') == Some(30) && NumberOf('卌') == Some(40)
    ensures NumberOf('万') == Some(1_0000) && NumberOf('億') == Some(1_0000_0000)
    ensures NumberOf('兆') == Some(1_0000_0000_0000) && NumberOf('京') == Some(1_0000_0000_0000_0000)
    ensures NumberOf(c).Some? ==>
      '0' <= c <= '9' || '０' <= c <= '９' || c in "零一二三四五六七八九壱弐参十拾廿卅卌百千万億兆京"
  {
    assert "0123456789"[d] == '0' + d as char;
    assert "０１２３４５６７８９"[d] == '０' + d as char;
  }

  // A character of the kanji text stands for the number of the input character and is never an
  // Arabic digit, narrow or wide; the zeros of those become one that the reader does not know.
  lemma KanjiCharacter(c: char)
    ensures NumberOf(c).Some? && NumberOf(c).value != 0 ==> NumberOf(KanjiOf(c)) == NumberOf(c)
    ensures c == '0' || c == '０' ==> KanjiOf(c) == '〇'
    ensures !('0' <= KanjiOf(c) <= '9') && !('０' <= KanjiOf(c) <= '９')
    ensures !('0' <= c <= '9') && !('０' <= c <= '９') ==> KanjiOf(c) == c
    ensures '0' <= c <= '9' ==> [KanjiOf(c)] == DigitText(Kanji, c)
    ensures '０' <= c <= '９' ==> [KanjiOf(c)] == DigitText(Kanji, '0' + (c - '０'))
  {}

  // ---- The normalized number ----

  lemma KanjiTextIs(input: string, i: nat)
    requires i < |input|
    ensures KanjiText(input)[i] == KanjiOf(input[i])
  {}

  // What the reader accepts: numbers only, that mean a number in 64 bits.
  lemma AcceptedIs(input: string, trimLeadingZeros: bool)
    ensures Normal(input, trimLeadingZeros).Some? <==>
      && (forall i | 0 <= i < |input| :: NumberOf(input[i]).Some?)
      && Meaning(seq(|input|, i requires 0 <= i < |input| =>
                   if NumberOf(input[i]).Some? then NumberOf(input[i]).value else 0)).Some?
      && Meaning(seq(|input|, i requires 0 <= i < |input| =>
                   if NumberOf(input[i]).Some? then NumberOf(input[i]).value else 0)).value < 0x1_0000_0000_0000_0000
  {
    hide Meaning, NumberOf, KanjiText, Decimal;
    if AllNumbers(input) {
      assert Numbers(input) == seq(|input|, i requires 0 <= i < |input| =>
                                     if NumberOf(input[i]).Some? then NumberOf(input[i]).value else 0);
    }
  }

  // The kanji text of an accepted input.
  lemma NormalKanji(input: string, trimLeadingZeros: bool, i: nat)
    requires Normal(input, trimLeadingZeros).Some? && i < |input|
    ensures var t := Normal(input, trimLeadingZeros).value.kanji;
      && |t| == |input|
      && (NumberOf(input[i]) != Some(0) ==> NumberOf(t[i]) == NumberOf(input[i]))
      && (input[i] == '0' || input[i] == '０' ==> t[i] == '〇')
      && (input[i] == '零' ==> t[i] == '零')
      && !('0' <= t[i] <= '9') && !('０' <= t[i] <= '９')
      && ('0' <= input[i] <= '9' ==> [t[i]] == DigitText(Kanji, input[i]))
      && ('０' <= input[i] <= '９' ==> [t[i]] == DigitText(Kanji, '0' + (input[i] - '０')))
      && (!('0' <= input[i] <= '9') && !('０' <= input[i] <= '９') ==> t[i] == input[i])
  {
    hide Meaning, Decimal, KanjiOf, NumberOf, KanjiText, DigitText;
    KanjiTextIs(input, i);
    KanjiCharacter(input[i]);
  }

  // Its decimal text: the number, without leading zeros, behind the zeros that are kept: all of the
  // input's leading ones, but one less if the input has nothing else.
  lemma NormalArabic(input: string, trimLeadingZeros: bool) returns (zeros: nat, digits: string)
    requires Normal(input, trimLeadingZeros).Some?
    ensures zeros <= |input| && (forall i | 0 <= i < zeros :: NumberOf(input[i]) == Some(0))
    ensures zeros < |input| ==> NumberOf(input[zeros]) != Some(0)
    ensures forall i | 0 <= i < |digits| :: '0' <= digits[i] <= '9'
    ensures Value(DigitsOf(digits)) == Meaning(Numbers(input)).value
    ensures |digits| >= 1 && (digits[0] == '0' ==> digits == "0")
    ensures Normal(input, trimLeadingZeros).value.arabic
         == (if trimLeadingZeros then "" else seq(if zeros < |input| then zeros else zeros - 1, _ => '0')) + digits
  {
    var ns := Numbers(input);
    var n := Meaning(ns).value;
    zeros, digits := SkipZeros(ns, 0), Decimal(n);
    hide *;
    ArabicParts(input, trimLeadingZeros);
    NumbersAre(input);
    ZerosSkipped(ns, 0);
    DecimalUndone(n);
    DecimalHead(n);
    KeptZerosIs(ns);
    ZerosAre(0);
    ZerosAre(if zeros < |input| then zeros else zeros - 1);
  }

  lemma ArabicParts(input: string, trimLeadingZeros: bool)
    requires Normal(input, trimLeadingZeros).Some?
    ensures AllNumbers(input) && Numbers(input) != [] && Meaning(Numbers(input)).Some?
    ensures Normal(input, trimLeadingZeros).value.arabic
         == Zeros(if trimLeadingZeros then 0 else KeptZeros(Numbers(input))) + Decimal(Meaning(Numbers(input)).value)
  {
    NothingMeansNothing();
    hide Meaning, NumberOf, KanjiText, Decimal, KeptZeros;
  }

  lemma NumbersAre(input: string)
    requires AllNumbers(input)
    ensures |Numbers(input)| == |input|
    ensures forall i | 0 <= i < |input| :: NumberOf(input[i]) == Some(Numbers(input)[i])
  {
    hide NumberOf;
  }

  lemma ZerosAre(n: nat)
    ensures Zeros(n) == seq(n, _ => '0')
  {}

  lemma DigitsAre(s: string, i: nat)
    requires i < |s| && forall j | 0 <= j < |s| :: '0' <= s[j] <= '9'
    ensures |DigitsOf(s)| == |s| && DigitsOf(s)[i] == (s[i] - '0') as int
  {}

  lemma KeptZerosIs(ns: seq<uint64>)
    requires ns != []
    ensures var z := SkipZeros(ns, 0); KeptZeros(ns) == if z < |ns| then z else z - 1
  {}

  lemma {:induction false} ZerosSkipped(ns: seq<uint64>, i: nat)
    requires i <= |ns|
    ensures forall j | i <= j < SkipZeros(ns, i) :: ns[j] == 0
    decreases |ns| - i
  {
    if i < |ns| && ns[i] == 0 {
      ZerosSkipped(ns, i + 1);
    }
  }

  lemma {:induction false} DecimalHead(n: nat)
    ensures if n == 0 then Decimal(n) == "0" else Decimal(n)[0] != '0'
  {
    if n >= 10 {
      DecimalHead(n / 10);
      assert Decimal(n)[0] == Decimal(n / 10)[0];
    } else {
      assert DecimalDigit(n) == '0' <==> n == 0;
    }
  }

  // ---- The printer's tables ----

  lemma DigitTable(c: char)
    requires '0' <= c <= '9'
    ensures var d := (c - '0') as int;
      && DigitText(ArabicAndKanjiHalfwidth, c) == ["0123456789"[d]]
      && DigitText(ArabicAndKanjiFullwidth, c) == ["０１２３４５６７８９"[d]]
      && DigitText(Kanji, c) == ["〇一二三四五六七八九"[d]]
      && (c != '0' ==> DigitText(OldKanji, c) == ["壱弐参四五六七八九"[d - 1]])
  {
    var d := (c - '0') as int;
    assert "0123456789"[d] == '0' + d as char;
  }

  lemma BigRankTable(rank: nat)
    requires rank <= 4
    ensures BiggerRankText(ArabicAndKanjiHalfwidth, rank) == ["", "万", "億", "兆", "京"][rank]
    ensures BiggerRankText(ArabicAndKanjiFullwidth, rank) == ["", "万", "億", "兆", "京"][rank]
    ensures BiggerRankText(Kanji, rank) == ["", "万", "億", "兆", "京"][rank]
    ensures BiggerRankText(OldKanji, rank) == ["", "萬", "億", "兆", "京"][rank]
  {}

  // ---- The text of four digits ----

  // Positional: what is left without the leading zeros, narrow or wide.
  lemma {:induction false} PositionalSegment(style: Style, segment: Segment, i: nat, n: nat)
    requires style.Arabic() && i <= n <= 4
    requires (forall j | i <= j < n :: segment[j] == '0') && (n < 4 ==> segment[n] != '0')
    ensures SegmentText(style, segment, i, true)
         == seq(4 - n, j requires 0 <= j < 4 - n =>
              if style.ArabicAndKanjiHalfwidth? then segment[n + j]
              else "０１２３４５６７８９"[(segment[n + j] - '0') as int])
    decreases 4 - i
  {
    hide DigitText;
    if i < n {
      PositionalSegment(style, segment, i + 1, n);
    } else if n < 4 {
      PositionalRest(style, segment, n);
    }
  }

  lemma {:induction false} PositionalRest(style: Style, segment: Segment, n: nat)
    requires style.Arabic() && n <= 4
    ensures SegmentText(style, segment, n, false)
         == seq(4 - n, j requires 0 <= j < 4 - n =>
              if style.ArabicAndKanjiHalfwidth? then segment[n + j]
              else "０１２３４５６７８９"[(segment[n + j] - '0') as int])
    decreases 4 - n
  {
    hide DigitText;
    if n < 4 {
      PositionalRest(style, segment, n + 1);
      DigitTable(segment[n]);
      assert segment[n] == "0123456789"[(segment[n] - '0') as int];
    }
  }

  // Kanji: each place but the ones with its rank; the digit one is left out before a rank.
  lemma KanjiSegment(segment: Segment)
    ensures SegmentText(Kanji, segment, 0, true)
         == (if segment[0] == '0' then "" else if segment[0] == '1' then "千"
             else ["〇一二三四五六七八九"[(segment[0] - '0') as int], '千'])
            + (if segment[1] == '0' then "" else if segment[1] == '1' then "百"
               else ["〇一二三四五六七八九"[(segment[1] - '0') as int], '百'])
            + (if segment[2] == '0' then "" else if segment[2] == '1' then "十"
               else ["〇一二三四五六七八九"[(segment[2] - '0') as int], '十'])
            + (if segment[3] == '0' then "" else ["〇一二三四五六七八九"[(segment[3] - '0') as int]])
  {
    PlacesInOrder(Kanji, segment);
    hide SegmentText;
    KanjiPlace(segment, 0);
    KanjiPlace(segment, 1);
    KanjiPlace(segment, 2);
    KanjiPlace(segment, 3);
  }

  lemma KanjiPlace(segment: Segment, i: nat)
    requires i < 4
    ensures DigitWithRank(Kanji, segment, i)
         == if segment[i] == '0' then ""
            else if i == 3 then ["〇一二三四五六七八九"[(segment[i] - '0') as int]]
            else if segment[i] == '1' then ["千百十"[i]]
            else ["〇一二三四五六七八九"[(segment[i] - '0') as int], "千百十"[i]]
  {}

  // The old style: every digit is written, and so is a one.
  lemma OldSegment(segment: Segment)
    ensures SegmentText(OldKanji, segment, 0, true)
         == (if segment[0] == '0' then "" else ["壱弐参四五六七八九"[(segment[0] - '1') as int], '阡'])
            + (if segment[1] == '0' then "" else ["壱弐参四五六七八九"[(segment[1] - '1') as int], '百'])
            + (if segment[2] == '0' then "" else ["壱弐参四五六七八九"[(segment[2] - '1') as int], '拾'])
            + (if segment[3] == '0' then "" else ["壱弐参四五六七八九"[(segment[3] - '1') as int]])
  {
    PlacesInOrder(OldKanji, segment);
    hide SegmentText;
    OldPlace(segment, 0);
    OldPlace(segment, 1);
    OldPlace(segment, 2);
    OldPlace(segment, 3);
  }

  lemma OldPlace(segment: Segment, i: nat)
    requires i < 4
    ensures DigitWithRank(OldKanji, segment, i)
         == if segment[i] == '0' then ""
            else if i == 3 then ["壱弐参四五六七八九"[(segment[i] - '1') as int]]
            else ["壱弐参四五六七八九"[(segment[i] - '1') as int], "阡百拾"[i]]
  {}

  lemma PlacesInOrder(style: Style, segment: Segment)
    requires !style.Arabic()
    ensures SegmentText(style, segment, 0, true)
         == DigitWithRank(style, segment, 0) + DigitWithRank(style, segment, 1)
            + DigitWithRank(style, segment, 2) + DigitWithRank(style, segment, 3)
  {
    hide DigitWithRank;
    var d1, d2 := DigitWithRank(style, segment, 1), DigitWithRank(style, segment, 2);
    var d3 := DigitWithRank(style, segment, 3);
    LeadingWritesNothing(style, segment, 0);
    assert SegmentText(style, segment, 4, false) == "";
    assert SegmentText(style, segment, 3, false) == d3;
    assert SegmentText(style, segment, 2, false) == d2 + d3;
    assert SegmentText(style, segment, 1, false) == d1 + (d2 + d3);
  }

  lemma {:induction false} LeadingWritesNothing(style: Style, segment: Segment, i: nat)
    requires !style.Arabic() && i < 4
    ensures SegmentText(style, segment, i, true)
         == DigitWithRank(style, segment, i) + SegmentText(style, segment, i + 1, false)
    decreases 4 - i
  {
    hide DigitText, RankText;
    if segment[i] == '0' {
      if i < 3 {
        LeadingWritesNothing(style, segment, i + 1);
      }
      assert SegmentText(style, segment, i, true) == SegmentText(style, segment, i + 1, true);
    }
  }

  // ---- The whole number ----

  // Each group of four with its rank, but nothing for one of zeros.
  lemma NumberTextIs(style: Style, s: string)
    requires 4 <= |s| <= 20 && |s| % 4 == 0 && forall i | 0 <= i < |s| :: '0' <= s[i] <= '9'
    ensures NumberText(style, "") == ""
    ensures NumberText(style, s)
         == (if s[..4] == "0000" then ""
             else SegmentText(style, s[..4], 0, true)
                  + ["", if style.OldKanji? then "萬" else "万", "億", "兆", "京"][|s| / 4 - 1])
            + NumberText(style, s[4..])
  {
    hide SegmentText;
    BigRankTable(|s| / 4 - 1);
    SomethingIsWritten(style, s[..4], 0);
  }

  lemma {:induction false} SomethingIsWritten(style: Style, segment: Segment, i: nat)
    requires i <= 4
    ensures SegmentText(style, segment, i, true) == "" <==> forall j | i <= j < 4 :: segment[j] == '0'
    decreases 4 - i
  {
    if i < 4 {
      SomethingIsWritten(style, segment, i + 1);
      DigitTable(segment[i]);
    }
  }

  lemma FilledIs(s: string)
    ensures |Filled(s)| % 4 == 0 && |s| <= |Filled(s)| < |s| + 4
    ensures Filled(s)[|Filled(s)| - |s|..] == s
    ensures forall i | 0 <= i < |Filled(s)| - |s| :: Filled(s)[i] == '0'
  {}

  // Everything that is offered, in order. The first two are left out of a single group.
  lemma CandidatesAre(input: string)
    requires Digits4(input)
    ensures var oldText := NumberText(OldKanji, input);
      AllCandidates(input, 4)
        == (if |input| == 4 then []
            else [NumberString(NumberText(ArabicAndKanjiHalfwidth, input), "数字", ArabicAndKanjiHalfwidth),
                  NumberString(NumberText(ArabicAndKanjiFullwidth, input), "数字", ArabicAndKanjiFullwidth)])
           + [NumberString(NumberText(Kanji, input), "漢数字", Kanji), NumberString(oldText, "大字", OldKanji)]
           + (if exists i | 0 <= i < |oldText| - 1 :: oldText[i] == '弐' && oldText[i + 1] == '拾'
              then [NumberString(ReplaceTwoTen(oldText), "大字", OldKanji)] else [])
           + (if input == "0010" then [NumberString("拾", "大字", OldKanji)] else [])
           + (if input == "1000" then [NumberString("阡", "大字", OldKanji)] else [])
  {
    hide *;
    FourStyles(input);
    ArabicCandidates(ArabicAndKanjiHalfwidth, input);
    ArabicCandidates(ArabicAndKanjiFullwidth, input);
    KanjiCandidates(input);
    OldCandidates(input);
  }

  lemma ArabicCandidates(style: Style, input: string)
    requires Digits4(input) && (style.ArabicAndKanjiHalfwidth? || style.ArabicAndKanjiFullwidth?)
    ensures StyleCandidates(style, input)
         == if |input| == 4 then [] else [NumberString(NumberText(style, input), "数字", style)]
  {
    hide NumberText;
  }

  lemma KanjiCandidates(input: string)
    requires Digits4(input)
    ensures StyleCandidates(Kanji, input) == [NumberString(NumberText(Kanji, input), "漢数字", Kanji)]
  {
    hide NumberText;
  }

  lemma OldCandidates(input: string)
    requires Digits4(input)
    ensures var text := NumberText(OldKanji, input);
      StyleCandidates(OldKanji, input)
        == [NumberString(text, "大字", OldKanji)]
           + (if exists i | 0 <= i < |text| - 1 :: text[i] == '弐' && text[i + 1] == '拾'
              then [NumberString(ReplaceTwoTen(text), "大字", OldKanji)] else [])
           + (if input == "0010" then [NumberString("拾", "大字", OldKanji)] else [])
           + (if input == "1000" then [NumberString("阡", "大字", OldKanji)] else [])
  {
    hide NumberText, ReplaceTwoTen;
  }

  lemma FourStyles(input: string)
    requires Digits4(input)
    ensures AllCandidates(input, 4)
         == StyleCandidates(ArabicAndKanjiHalfwidth, input) + StyleCandidates(ArabicAndKanjiFullwidth, input)
            + StyleCandidates(Kanji, input) + StyleCandidates(OldKanji, input)
  {
    hide StyleCandidates;
    assert AllCandidates(input, 0) == [];
    assert AllCandidates(input, 1) == StyleCandidates(ArabicAndKanjiHalfwidth, input);
    assert AllCandidates(input, 2) == AllCandidates(input, 1) + StyleCandidates(ArabicAndKanjiFullwidth, input);
    assert AllCandidates(input, 3) == AllCandidates(input, 2) + StyleCandidates(Kanji, input);
    assert AllCandidates(input, 4) == AllCandidates(input, 3) + StyleCandidates(OldKanji, input);
  }
}
