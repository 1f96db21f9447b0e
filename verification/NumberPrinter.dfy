/**
 The printer of Japanese numbers, ArabicToKanji of src/base/number_util.cc: a decimal string is cut
 into groups of four digits, each group is spelled, and the groups are joined by their ranks.
 */
module NumberPrinter {
  import opened Decimals

  datatype Style = ArabicAndKanjiHalfwidth | ArabicAndKanjiFullwidth | Kanji | OldKanji {
    predicate Arabic() {
      ArabicAndKanjiHalfwidth? || ArabicAndKanjiFullwidth?
    }
  }

  datatype NumberString = NumberString(value: string, description: string, style: Style)

  // kKanjiVariations, in order.
  const VARIATIONS: seq<Style> := [ArabicAndKanjiHalfwidth, ArabicAndKanjiFullwidth, Kanji, OldKanji]

  function Description(style: Style): string {
    match style
    case ArabicAndKanjiHalfwidth => "数字"
    case ArabicAndKanjiFullwidth => "数字"
    case Kanji => "漢数字"
    case OldKanji => "大字"
  }

  predicate IsDigit(c: char) {
    '0' <= c <= '9'
  }

  predicate IsDecimalInteger(s: string) {
    s != "" && forall i | 0 <= i < |s| :: IsDigit(s[i])
  }

  predicate AllZero(s: string) {
    forall i | 0 <= i < |s| :: s[i] == '0'
  }

  function DigitText(style: Style, c: char): string
    requires IsDigit(c)
  {
    var d := (c - '0') as int;
    match style
    case ArabicAndKanjiHalfwidth => [c]
    case ArabicAndKanjiFullwidth => ["０１２３４５６７８９"[d]]
    case Kanji => ["〇一二三四五六七八九"[d]]
    case OldKanji => if d == 0 then "" else ["　壱弐参四五六七八九"[d]]
  }

  // The rank of a place within its group, counted from the ones as place 1.
  function RankText(style: Style, place: nat): string {
    if place == 2 then if style.OldKanji? then "拾" else "十"
    else if place == 3 then "百"
    else if place == 4 then if style.OldKanji? then "阡" else "千"
    else ""
  }

  // The rank of a group, counted from the lowest as rank 0.
  function BiggerRankText(style: Style, rank: nat): string {
    if rank == 1 then if style.OldKanji? then "萬" else "万"
    else if rank == 2 then "億"
    else if rank == 3 then "兆"
    else if rank == 4 then "京"
    else ""
  }

  type Segment = s: string | |s| == 4 && forall i | 0 <= i < 4 :: IsDigit(s[i]) witness "0000"

  // The spelling of a segment from place i on; leading says that all before it was zero.
  function SegmentText(style: Style, segment: Segment, i: nat, leading: bool): string
    requires i <= 4
    decreases 4 - i
  {
    if i == 4 then ""
    else if leading && segment[i] == '0' then SegmentText(style, segment, i + 1, true)
    else DigitWithRank(style, segment, i) + SegmentText(style, segment, i + 1, false)
  }

  function DigitWithRank(style: Style, segment: Segment, i: nat): string
    requires i < 4
  {
    if style.Arabic() then DigitText(style, segment[i])
    else if segment[i] == '0' then ""
    // A one is left out before a rank, but not in the old style.
    else (if style.OldKanji? || i == 3 || segment[i] != '1' then DigitText(style, segment[i]) else "")
         + RankText(style, 4 - i)
  }

  function GroupText(style: Style, segment: Segment, rank: nat): string {
    var s := SegmentText(style, segment, 0, true);
    if s == "" then "" else s + BiggerRankText(style, rank)
  }

  predicate Digits4(s: string) {
    |s| % 4 == 0 && forall i | 0 <= i < |s| :: IsDigit(s[i])
  }

  // The spelling of a whole number of segments, highest first.
  function NumberText(style: Style, s: string): string
    requires Digits4(s)
    decreases |s|
  {
    if s == "" then "" else GroupText(style, s[..4], |s| / 4 - 1) + NumberText(style, s[4..])
  }

  function Filled(s: string): (r: string)
    ensures |r| % 4 == 0 && |s| <= |r| < |s| + 4
    ensures IsDecimalInteger(s) ==> Digits4(r)
  {
    Zeros((4 - |s| % 4) % 4) + s
  }

  function ReplaceTwoTen(s: string): string {
    if |s| < 2 then s
    else if s[0] == '弐' && s[1] == '拾' then "廿" + ReplaceTwoTen(s[2..])
    else [s[0]] + ReplaceTwoTen(s[1..])
  }

  predicate ContainsTwoTen(s: string) {
    exists i | 0 <= i < |s| - 1 :: s[i] == '弐' && s[i + 1] == '拾'
  }

  // What one style adds to the output for a filled string.
  function StyleCandidates(style: Style, input: string): seq<NumberString>
    requires Digits4(input)
  {
    if |input| == 4 && style.Arabic() then []
    else
      var entry := text => NumberString(text, Description(style), style);
      var text := NumberText(style, input);
      if !style.OldKanji? then [entry(text)]
      else
        [entry(text)]
        + (if ContainsTwoTen(text) then [entry(ReplaceTwoTen(text))] else [])
        + (if input == "0010" then [entry("拾")] else [])
        + (if input == "1000" then [entry("阡")] else [])
  }

  function AllCandidates(input: string, n: nat): seq<NumberString>
    requires Digits4(input) && n <= 4
  {
    if n == 0 then [] else AllCandidates(input, n - 1) + StyleCandidates(VARIATIONS[n - 1], input)
  }

  // ---- The program ----

  method SpellDigit(style: Style, segment: Segment, i: nat) returns (text: string)
    requires i < 4
    ensures text == DigitWithRank(style, segment, i)
  {
    hide DigitText, RankText;
    text := "";
    if style.Arabic() {
      text := text + DigitText(style, segment[i]);
    } else {
      if segment[i] == '0' {
        return "";
      }
      if style == OldKanji || i == 3 || segment[i] != '1' {
        text := text + DigitText(style, segment[i]);
      }
      text := text + RankText(style, 4 - i);
    }
  }

  method SpellSegment(style: Style, segment: Segment) returns (text: string)
    ensures text == SegmentText(style, segment, 0, true)
  {
    hide DigitWithRank;
    text := "";
    var leading := true;
    for i := 0 to 4
      invariant text + SegmentText(style, segment, i, leading) == SegmentText(style, segment, 0, true)
    {
      if leading && segment[i] == '0' {
        continue;
      }
      leading := false;
      var digit := SpellDigit(style, segment, i);
      text := text + digit;
    }
  }

  // Segment r of a filled string, counted from the lowest.
  function SegmentAt(input: string, r: nat): (s: Segment)
    requires Digits4(input) && 4 * (r + 1) <= |input|
  {
    input[|input| - 4 * (r + 1)..|input| - 4 * r]
  }

  // The lowest rank segments of a filled string.
  function Lowest(input: string, rank: nat): string
    requires Digits4(input) && 4 * rank <= |input|
  {
    input[|input| - 4 * rank..]
  }

  lemma LowestStep(style: Style, input: string, rank: nat)
    requires Digits4(input) && 4 * (rank + 1) <= |input|
    ensures Digits4(Lowest(input, rank)) && Digits4(Lowest(input, rank + 1))
    ensures NumberText(style, Lowest(input, rank + 1))
         == GroupText(style, SegmentAt(input, rank), rank) + NumberText(style, Lowest(input, rank))
  {
    hide GroupText;
    var s := Lowest(input, rank + 1);
    assert s[..4] == SegmentAt(input, rank) && s[4..] == Lowest(input, rank);
  }

  method SpellNumber(style: Style, input: string, rankedNumbers: seq<Segment>) returns (result: string)
    requires Digits4(input) && |input| == 4 * |rankedNumbers|
    requires forall r | 0 <= r < |rankedNumbers| :: rankedNumbers[r] == SegmentAt(input, r)
    ensures result == NumberText(style, input)
  {
    hide NumberText, SegmentText, BiggerRankText, SegmentAt, Lowest;
    result := "";
    // From the highest segment down; the text so far is that of all segments above.
    var rank := |rankedNumbers|;
    LowestEnds(style, input);
    while rank > 0
      invariant 0 <= rank <= |rankedNumbers|
      invariant Digits4(Lowest(input, rank))
      invariant result + NumberText(style, Lowest(input, rank)) == NumberText(style, input)
    {
      rank := rank - 1;
      LowestStep(style, input, rank);
      var segmentResult := SpellSegment(style, rankedNumbers[rank]);
      if segmentResult != "" {
        result := result + segmentResult + BiggerRankText(style, rank);
      }
    }
  }

  lemma LowestEnds(style: Style, input: string)
    requires Digits4(input)
    ensures Lowest(input, |input| / 4) == input && Lowest(input, 0) == ""
    ensures NumberText(style, "") == ""
  {}

  // All candidates of one style.
  method AppendCandidates(style: Style, input: string, rankedNumbers: seq<Segment>, soFar: seq<NumberString>)
      returns (output: seq<NumberString>)
    requires Digits4(input) && |input| == 4 * |rankedNumbers|
    requires forall r | 0 <= r < |rankedNumbers| :: rankedNumbers[r] == SegmentAt(input, r)
    ensures output == soFar + StyleCandidates(style, input)
  {
    hide NumberText, Description;
    output := soFar;
    if |rankedNumbers| == 1 && style.Arabic() {
      return;
    }
    var result := SpellNumber(style, input, rankedNumbers);
    // The spelling itself.
    output := output + [NumberString(result, Description(style), style)];
    // In the old style, the one with the character for twenty, and two single characters.
    if style == OldKanji {
      if ContainsTwoTen(result) {
        output := output + [NumberString(ReplaceTwoTen(result), Description(style), style)];
      }
      if input == "0010" {
        output := output + [NumberString("拾", Description(style), style)];
      }
      if input == "1000" {
        output := output + [NumberString("阡", Description(style), style)];
      }
    }
  }

  // The pieces of four digits, lowest first.
  method Segments(input: string) returns (rankedNumbers: seq<Segment>)
    requires Digits4(input)
    ensures |input| == 4 * |rankedNumbers|
    ensures forall r | 0 <= r < |rankedNumbers| :: rankedNumbers[r] == SegmentAt(input, r)
  {
    rankedNumbers := [];
    var at := |input|;
    while at >= 4
      invariant 0 <= at && at + 4 * |rankedNumbers| == |input|
      invariant forall r | 0 <= r < |rankedNumbers| :: rankedNumbers[r] == SegmentAt(input, r)
    {
      at := at - 4;
      rankedNumbers := rankedNumbers + [input[at..at + 4]];
    }
  }

  method ArabicToKanji(inputNum: string) returns (ok: bool, output: seq<NumberString>)
    ensures ok <==> IsDecimalInteger(inputNum) && (AllZero(inputNum) || |inputNum| <= 20)
    ensures ok && AllZero(inputNum) ==> output == [NumberString("零", "大字", OldKanji)]
    ensures ok && !AllZero(inputNum) ==> output == AllCandidates(Filled(inputNum), 4)
    ensures !ok ==> output == []
  {
    output := [];
    if !IsDecimalInteger(inputNum) {
      return false, [];
    }
    // The loop finds whether the number is zero.
    var i := 0;
    while i < |inputNum| && inputNum[i] == '0'
      invariant i <= |inputNum| && AllZero(inputNum[..i])
    {
      i := i + 1;
    }
    if i == |inputNum| {
      assert inputNum[..i] == inputNum;
      return true, [NumberString("零", "大字", OldKanji)];
    }

    // There is no rank above the fifth group.
    if 5 * 4 < |inputNum| {
      return false, [];
    }

    hide StyleCandidates;
    var input := Filled(inputNum);

    var rankedNumbers := Segments(input);
    for v := 0 to 4
      invariant output == AllCandidates(input, v)
    {
      output := AppendCandidates(VARIATIONS[v], input, rankedNumbers, output);
    }
    return true, output;
  }
}
