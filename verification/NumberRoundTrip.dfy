/**
 What the printer writes, the reader reads back: the round trip between NumberPrinter and
 NumberParser, with its exact bound, and the exact condition for the old style.
 */
module NumberRoundTrip {
  import opened Decimals
  import opened Wrappers
  import opened NumberParser
  import opened NumberPrinter
  import opened NumberTokens

  // ---- The text ----

  // Every character of the text is a number, together ns; and in the styles without digits the text
  // is already in its normal form.
  predicate Spells(style: Style, text: string, ns: seq<uint64>) {
    AllNumbers(text) && Numbers(text) == ns && (!style.Arabic() ==> KanjiText(text) == text)
  }

  // The text spells ns if known, and otherwise has a character that is no number.
  predicate SpellsIf(known: bool, style: Style, text: string, ns: seq<uint64>) {
    if known then Spells(style, text, ns) else !AllNumbers(text)
  }

  lemma SpellsConcat(style: Style, s: string, t: string, ns: seq<uint64>, ms: seq<uint64>)
    requires Spells(style, s, ns) && Spells(style, t, ms)
    ensures Spells(style, s + t, ns + ms)
  {
    hide NumberOf, KanjiOf;
    if !style.Arabic() {
      assert forall i | 0 <= i < |t| :: KanjiText(t)[i] == KanjiOf(t[i]);
      assert forall i | 0 <= i < |s| :: KanjiText(s)[i] == KanjiOf(s[i]);
      assert KanjiText(s + t) == s + t;
    }
  }

  lemma NumbersInParts(s: string, t: string)
    ensures AllNumbers(s + t) ==> AllNumbers(s) && AllNumbers(t)
  {
    hide NumberOf;
    assert forall i | 0 <= i < |s| :: (s + t)[i] == s[i];
    assert forall i | 0 <= i < |t| :: (s + t)[|s| + i] == t[i];
  }

  lemma SpellsIfConcat(c: bool, d: bool, style: Style, s: string, t: string, ns: seq<uint64>, ms: seq<uint64>)
    requires SpellsIf(c, style, s, ns) && SpellsIf(d, style, t, ms)
    ensures SpellsIf(c && d, style, s + t, ns + ms)
  {
    hide Spells, AllNumbers;
    NumbersInParts(s, t);
    if c && d {
      SpellsConcat(style, s, t, ns, ms);
    }
  }

  lemma NothingSpells(style: Style)
    ensures Spells(style, "", [])
  {}

  lemma CharacterSpells(style: Style, c: char)
    requires !style.Arabic() ==> KanjiOf(c) == c
    ensures SpellsIf(NumberOf(c).Some?, style, [c], if NumberOf(c).Some? then [NumberOf(c).value] else [])
  {
    assert [c][0] == c;
  }

  function DigitOf(c: char): (d: nat)
    requires IsDigit(c)
    ensures d < 10
  {
    (c - '0') as int
  }

  lemma DigitSpells(style: Style, c: char)
    requires IsDigit(c) && (!style.Arabic() ==> c != '0')
    ensures |DigitText(style, c)| == 1 && Spells(style, DigitText(style, c), [DigitOf(c)])
  {
    var t := DigitText(style, c);
    assert |t| == 1 && t == [t[0]];
    CharacterSpells(style, t[0]);
  }

  lemma RankSpells(style: Style, place: nat)
    requires 2 <= place <= 4 && !style.Arabic()
    ensures |RankText(style, place)| == 1
    ensures SpellsIf(style.OldKanji? ==> place < 4, style, RankText(style, place),
                     [if place == 2 then 10 else if place == 3 then 100 else 1000])
  {
    CharacterSpells(style, RankText(style, place)[0]);
  }

  lemma BiggerRankSpells(style: Style, rank: nat)
    requires rank <= 4
    ensures SpellsIf(style.OldKanji? ==> rank != 1, style, BiggerRankText(style, rank),
                     if rank == 0 then [] else [Base(rank)])
  {
    if rank == 0 {
      NothingSpells(style);
    } else {
      CharacterSpells(style, BiggerRankText(style, rank)[0]);
    }
  }

  lemma OnesHaveNoRank(style: Style)
    ensures RankText(style, 1) == ""
  {}

  // ---- The character for twenty ----

  // The text, or the text with the one character for twenty.
  function Form(twenty: bool, s: string): string {
    if twenty then ReplaceTwoTen(s) else s
  }

  function SpellingOf(style: Style, twenty: bool): Spelling {
    if style.Arabic() then Positional else if style.Kanji? then Modern else if twenty then OldTwenty else Old
  }

  lemma ReplacedNext(c: char, s: string)
    ensures !(c == '弐' && s != "" && s[0] == '拾') ==> ReplaceTwoTen([c] + s) == [c] + ReplaceTwoTen(s)
    ensures ReplaceTwoTen(['弐', '拾'] + s) == ['廿'] + ReplaceTwoTen(s)
  {
    assert ([c] + s)[1..] == s;
    assert (['弐', '拾'] + s)[2..] == s;
  }

  lemma {:induction false} ReplacedConcat(s: string, t: string)
    requires t == "" || t[0] != '拾'
    ensures ReplaceTwoTen(s + t) == ReplaceTwoTen(s) + ReplaceTwoTen(t)
    decreases |s|
  {
    hide ReplaceTwoTen;
    if s == "" {
      assert s + t == t;
      NothingReplaced();
    } else if |s| >= 2 && s[0] == '弐' && s[1] == '拾' {
      ReplacedConcat(s[2..], t);
      ReplacedNext(s[0], s[2..] + t);
      ReplacedNext(s[0], s[2..]);
      assert s == ['弐', '拾'] + s[2..] && s + t == ['弐', '拾'] + (s[2..] + t);
    } else {
      ReplacedConcat(s[1..], t);
      ReplacedNext(s[0], s[1..] + t);
      ReplacedNext(s[0], s[1..]);
      assert s == [s[0]] + s[1..] && s + t == [s[0]] + (s[1..] + t);
    }
  }

  lemma NothingReplaced()
    ensures ReplaceTwoTen("") == ""
  {}

  lemma FormOfConcat(twenty: bool, s: string, t: string)
    requires twenty && t != "" ==> t[0] != '拾'
    ensures Form(twenty, s + t) == Form(twenty, s) + Form(twenty, t)
  {
    if twenty {
      ReplacedConcat(s, t);
    }
  }

  lemma FormOfShort(twenty: bool, x: char, y: char)
    ensures Form(twenty, "") == "" && Form(twenty, [x]) == [x]
    ensures Form(twenty, [x, y]) == if twenty && x == '弐' && y == '拾' then "廿" else [x, y]
  {
    ReplacedNext(y, "");
    ReplacedNext(x, [y]);
    NothingReplaced();
    assert [y] + "" == [y] && [x] + [y] == [x, y] && ['弐', '拾'] + "" == ['弐', '拾'];
  }

  // In the old style a digit comes first.
  lemma DigitComesFirst(segment: Segment, i: nat)
    requires i < 4
    ensures var s := DigitWithRank(OldKanji, segment, i); s != "" ==> s[0] != '拾'
  {
    if segment[i] != '0' {
      var digit := DigitText(OldKanji, segment[i]);
      assert |digit| == 1 && digit[0] != '拾';
    }
  }

  lemma {:induction false} SegmentFirst(segment: Segment, i: nat, leading: bool)
    requires i <= 4
    ensures var s := SegmentText(OldKanji, segment, i, leading); s != "" ==> s[0] != '拾'
    decreases 4 - i
  {
    hide DigitWithRank;
    if i < 4 {
      DigitComesFirst(segment, i);
      SegmentFirst(segment, i + 1, true);
      SegmentFirst(segment, i + 1, false);
    }
  }

  lemma {:induction false} NumberFirst(s: string)
    requires Digits4(s)
    ensures var t := NumberText(OldKanji, s); t != "" ==> t[0] != '拾'
    decreases |s|
  {
    hide SegmentText;
    if s != "" {
      SegmentFirst(s[..4], 0, true);
      NumberFirst(s[4..]);
    }
  }

  // ---- From places to whole numbers ----

  // What the spelling of place i of a segment reads as.
  function TextTokens(spelling: Spelling, segment: Segment, i: nat): seq<uint64>
    requires i < 4
  {
    var x := DigitOf(segment[i]);
    if spelling.Positional? then [x]
    else if i == 3 then OnesTokens(x)
    else PlaceTokens(spelling, x, if i == 0 then 1000 else if i == 1 then 100 else 10)
  }

  lemma PlaceSpells(style: Style, twenty: bool, segment: Segment, i: nat)
    requires i < 4 && (twenty ==> style.OldKanji?)
    ensures SpellsIf(style.OldKanji? && i == 0 ==> segment[i] == '0', style,
                     Form(twenty, DigitWithRank(style, segment, i)), TextTokens(SpellingOf(style, twenty), segment, i))
  {
    hide Spells, DigitText, RankText, Form, AllNumbers;
    NothingSpells(style);
    var c := segment[i];
    FormOfShort(twenty, c, c);
    if style.Arabic() {
      DigitSpells(style, c);
      assert !twenty && Form(false, DigitText(style, c)) == DigitText(style, c) by { FormOfPlain(DigitText(style, c)); }
    } else if c != '0' {
      RankedDigitSpells(style, twenty, segment, i);
    }
  }

  lemma FormOfPlain(s: string)
    ensures Form(false, s) == s
  {}

  lemma RankedDigitSpells(style: Style, twenty: bool, segment: Segment, i: nat)
    requires i < 4 && !style.Arabic() && segment[i] != '0' && (twenty ==> style.OldKanji?)
    ensures SpellsIf(style.OldKanji? ==> i > 0, style,
                     Form(twenty, DigitWithRank(style, segment, i)), TextTokens(SpellingOf(style, twenty), segment, i))
  {
    hide Spells, AllNumbers, DigitText, RankText, Form;
    var c := segment[i];
    var digit, rank := DigitText(style, c), RankText(style, 4 - i);
    DigitSpells(style, c);
    assert "" + rank == rank && digit + "" == digit && digit == [digit[0]];
    if i == 3 {
      OnesHaveNoRank(style);
      FormOfShort(twenty, digit[0], digit[0]);
    } else {
      var base := if i == 2 then 10 else if i == 1 then 100 else 1000;
      RankSpells(style, 4 - i);
      assert rank == [rank[0]] && digit + rank == [digit[0], rank[0]];
      FormOfShort(twenty, digit[0], rank[0]);
      FormOfShort(twenty, rank[0], rank[0]);
      SpellsIfConcat(true, style.OldKanji? ==> i > 0, style, digit, rank, [DigitOf(c)], [base]);
      assert [DigitOf(c)] + [base] == [DigitOf(c), base];
      TwentyOnlyAtTwo(c, i);
      TwentySpells();
    }
  }

  lemma TwentyOnlyAtTwo(c: char, i: nat)
    requires IsDigit(c) && c != '0' && i < 3
    ensures DigitText(OldKanji, c)[0] == '弐' && RankText(OldKanji, 4 - i)[0] == '拾' <==> c == '2' && i == 2
  {}

  lemma TwentySpells()
    ensures Spells(OldKanji, "廿", [20])
  {
    CharacterSpells(OldKanji, '廿');
  }

  // What a segment reads as from place i on.
  function SegmentTokensFrom(spelling: Spelling, segment: Segment, i: nat, leading: bool): seq<uint64>
    requires i <= 4
    decreases 4 - i
  {
    if i == 4 then []
    else if leading && segment[i] == '0' then SegmentTokensFrom(spelling, segment, i + 1, true)
    else TextTokens(spelling, segment, i) + SegmentTokensFrom(spelling, segment, i + 1, false)
  }

  lemma {:induction false} SegmentSpells(style: Style, twenty: bool, segment: Segment, i: nat, leading: bool)
    requires i <= 4 && (twenty ==> style.OldKanji?)
    ensures SpellsIf(style.OldKanji? && i == 0 ==> segment[0] == '0', style,
                     Form(twenty, SegmentText(style, segment, i, leading)),
                     SegmentTokensFrom(SpellingOf(style, twenty), segment, i, leading))
    decreases 4 - i
  {
    hide Spells, AllNumbers, DigitWithRank, TextTokens, Form, SpellingOf;
    var sp := SpellingOf(style, twenty);
    if i == 4 {
      NothingSpells(style);
      FormOfShort(twenty, 'x', 'x');
    } else if leading && segment[i] == '0' {
      SegmentSpells(style, twenty, segment, i + 1, true);
    } else {
      var digit, rest := DigitWithRank(style, segment, i), SegmentText(style, segment, i + 1, false);
      SegmentFirst(segment, i + 1, false);
      FormOfConcat(twenty, digit, rest);
      PlaceSpells(style, twenty, segment, i);
      SegmentSpells(style, twenty, segment, i + 1, false);
      SpellsIfConcat(style.OldKanji? && i == 0 ==> segment[i] == '0', true, style,
                     Form(twenty, digit), Form(twenty, rest),
                     TextTokens(sp, segment, i), SegmentTokensFrom(sp, segment, i + 1, false));
    }
  }

  function DigitsOf(s: string): (ds: seq<nat>)
    requires forall i | 0 <= i < |s| :: IsDigit(s[i])
    ensures |ds| == |s| && forall i | 0 <= i < |s| :: ds[i] == DigitOf(s[i]) < 10
  {
    seq(|s|, i requires 0 <= i < |s| => DigitOf(s[i]))
  }

  lemma PlacesFrom(spelling: Spelling, segment: Segment)
    ensures var t2, t3 := TextTokens(spelling, segment, 2), TextTokens(spelling, segment, 3);
      && SegmentTokensFrom(spelling, segment, 3, false) == t3
      && SegmentTokensFrom(spelling, segment, 2, false) == t2 + t3
      && SegmentTokensFrom(spelling, segment, 1, false) == TextTokens(spelling, segment, 1) + (t2 + t3)
      && SegmentTokensFrom(spelling, segment, 0, false)
           == TextTokens(spelling, segment, 0) + (TextTokens(spelling, segment, 1) + (t2 + t3))
  {
    hide TextTokens;
    assert SegmentTokensFrom(spelling, segment, 4, false) == [];
  }

  // Where ranks are written a zero reads as nothing, leading or not.
  lemma {:induction false} LeadingIsNothing(spelling: Spelling, segment: Segment, i: nat)
    requires i <= 4 && !spelling.Positional?
    ensures SegmentTokensFrom(spelling, segment, i, true) == SegmentTokensFrom(spelling, segment, i, false)
    decreases 4 - i
  {
    if i < 4 {
      LeadingIsNothing(spelling, segment, i + 1);
      assert segment[i] == '0' ==> TextTokens(spelling, segment, i) == [];
    }
  }

  lemma LeadingZeroIsSkipped(spelling: Spelling, segment: Segment, i: nat)
    requires i < 4
    ensures var zero := DigitOf(segment[i]) == 0;
      SegmentTokensFrom(spelling, segment, i, true)
        == SegmentTokensFrom(spelling, segment, if zero then i + 1 else i, zero)
  {
    hide TextTokens;
  }

  lemma FourTokens(spelling: Spelling, segment: Segment)
    ensures SegmentTokensFrom(spelling, segment, 0, true) == SegmentTokens(spelling, DigitsOf(segment))
  {
    hide SegmentTokensFrom;
    PlacesFrom(spelling, segment);
    if !spelling.Positional? {
      LeadingIsNothing(spelling, segment, 0);
    } else {
      var ds := DigitsOf(segment);
      assert TextTokens(Positional, segment, 2) + TextTokens(Positional, segment, 3) == [ds[2], ds[3]];
      for i := 0 to 4
        invariant SegmentTokensFrom(Positional, segment, 0, true) == SegmentTokensFrom(Positional, segment, i, true)
        invariant forall j | 0 <= j < i :: ds[j] == 0
      {
        LeadingZeroIsSkipped(Positional, segment, i);
        if ds[i] > 0 {
          return;
        }
      }
      assert SegmentTokensFrom(Positional, segment, 4, true) == [] by { NothingFromEnd(segment); }
    }
  }

  lemma NothingFromEnd(segment: Segment)
    ensures SegmentTokensFrom(Positional, segment, 4, true) == []
  {}

  lemma SpellsLength(style: Style, text: string, ns: seq<uint64>)
    requires Spells(style, text, ns)
    ensures |text| == |ns|
  {}

  lemma UnknownIsSomething(text: string)
    requires !AllNumbers(text)
    ensures text != ""
  {}

  lemma {:induction false} FormIsNothing(twenty: bool, s: string)
    ensures Form(twenty, s) == "" <==> s == ""
  {
    if |s| >= 2 {
      FormIsNothing(twenty, s[1..]);
    }
  }

  lemma RankIsNotTen(style: Style, rank: nat)
    ensures var s := BiggerRankText(style, rank); |s| <= 1 && (s != "" ==> s[0] != '拾')
  {}

  lemma GroupSpells(style: Style, twenty: bool, segment: Segment, rank: nat)
    requires rank <= 4 && (twenty ==> style.OldKanji?)
    ensures SpellsIf(style.OldKanji? ==> Written(DigitsOf(segment), rank), style,
                     Form(twenty, GroupText(style, segment, rank)),
                     GroupTokens(SpellingOf(style, twenty), DigitsOf(segment), rank))
  {
    hide Spells, AllNumbers, SegmentText, SegmentTokens, SegmentTokensFrom, BiggerRankText, Base, Form, SpellingOf;
    var sp, ds := SpellingOf(style, twenty), DigitsOf(segment);
    var s, t := SegmentText(style, segment, 0, true), SegmentTokens(sp, ds);
    var r := BiggerRankText(style, rank);
    var known := style.OldKanji? ==> segment[0] == '0';
    SegmentSpells(style, twenty, segment, 0, true);
    FourTokens(sp, segment);
    FormIsNothing(twenty, s);
    SegmentOfNothing(sp, segment);
    if known {
      SpellsLength(style, Form(twenty, s), t);
    } else {
      UnknownIsSomething(Form(twenty, s));
    }
    if s == "" {
      NothingSpells(style);
    } else {
      RankIsNotTen(style, rank);
      FormOfConcat(twenty, s, r);
      FormOfRank(twenty, r);
      BiggerRankSpells(style, rank);
      SpellsIfConcat(known, style.OldKanji? ==> rank != 1, style, Form(twenty, s), r, t,
                     if rank == 0 then [] else [Base(rank)]);
      assert t + [] == t;
    }
  }

  lemma FormOfRank(twenty: bool, s: string)
    requires |s| <= 1
    ensures Form(twenty, s) == s
  {
    FormOfShort(twenty, if s == "" then 'x' else s[0], 'x');
    assert s == "" || s == [s[0]];
  }

  lemma SegmentOfNothing(spelling: Spelling, segment: Segment)
    ensures SegmentTokens(spelling, DigitsOf(segment)) == [] <==> DigitsOf(segment) == [0, 0, 0, 0]
  {
    SegmentTokensOfZero(spelling, DigitsOf(segment));
    ValueOfSegment(DigitsOf(segment));
  }

  lemma {:induction false} NumberSpells(style: Style, twenty: bool, s: string)
    requires Digits4(s) && |s| <= 20 && (twenty ==> style.OldKanji?)
    ensures SpellsIf(style.OldKanji? ==> AllWritten(DigitsOf(s)), style, Form(twenty, NumberText(style, s)),
                     Tokens(SpellingOf(style, twenty), DigitsOf(s)))
    decreases |s|
  {
    hide Spells, AllNumbers, GroupText, GroupTokens, Form, SpellingOf, Written;
    if s == "" {
      NothingSpells(style);
      FormOfShort(twenty, 'x', 'x');
    } else {
      var segment: Segment, rank := s[..4], |s| / 4 - 1;
      var sp := SpellingOf(style, twenty);
      var group, rest := GroupText(style, segment, rank), NumberText(style, s[4..]);
      GroupSpells(style, twenty, segment, rank);
      NumberSpells(style, twenty, s[4..]);
      NumberFirst(s[4..]);
      FormOfConcat(twenty, group, rest);
      assert DigitsOf(s)[..4] == DigitsOf(segment) && DigitsOf(s)[4..] == DigitsOf(s[4..]);
      SpellsIfConcat(style.OldKanji? ==> Written(DigitsOf(segment), rank),
                     style.OldKanji? ==> AllWritten(DigitsOf(s[4..])), style, Form(twenty, group), Form(twenty, rest),
                     GroupTokens(sp, DigitsOf(segment), rank), Tokens(sp, DigitsOf(s[4..])));
    }
  }

  // ---- The number written back ----

  // A decimal string without its leading zeros.
  function Stripped(s: string): string {
    if s != "" && s[0] == '0' then Stripped(s[1..]) else s
  }

  lemma {:induction false} StrippedOfNext(s: string, c: char)
    ensures Stripped(s + [c]) == if AllZero(s) then (if c == '0' then "" else [c]) else Stripped(s) + [c]
  {
    var t := s + [c];
    if s != "" && s[0] == '0' {
      assert t[1..] == s[1..] + [c];
      StrippedOfNext(s[1..], c);
      assert AllZero(s) <==> AllZero(s[1..]);
    } else if s == "" {
      assert t == [c] && t[1..] == "";
    }
  }

  lemma DigitsOfNext(s: string)
    requires s != "" && forall i | 0 <= i < |s| :: IsDigit(s[i])
    ensures DigitsOf(s) == DigitsOf(s[..|s| - 1]) + [DigitOf(s[|s| - 1])]
  {}

  lemma {:induction false} DecimalIsStripped(s: string)
    requires forall i | 0 <= i < |s| :: IsDigit(s[i])
    ensures Value(DigitsOf(s)) == 0 <==> AllZero(s)
    ensures !AllZero(s) ==> Decimal(Value(DigitsOf(s))) == Stripped(s)
  {
    hide Value, Decimal, Stripped;
    if s == "" {
      assert DigitsOf(s) == [];
      NothingIsZero();
    } else {
      var p, c := s[..|s| - 1], s[|s| - 1];
      assert s == p + [c];
      DecimalIsStripped(p);
      DigitsOfNext(s);
      ValueOfNext(DigitsOf(p), DigitOf(c));
      StrippedOfNext(p, c);
      AllZeroOfNext(p, c);
      DecimalOfNext(Value(DigitsOf(p)), c);
    }
  }

  lemma AllZeroOfNext(p: string, c: char)
    ensures AllZero(p + [c]) <==> AllZero(p) && c == '0'
  {
    var s := p + [c];
    assert s[|p|] == c && forall i | 0 <= i < |p| :: s[i] == p[i];
  }

  lemma DecimalOfNext(n: nat, c: char)
    requires IsDigit(c)
    ensures Decimal(10 * n + DigitOf(c)) == if n == 0 then [c] else Decimal(n) + [c]
  {
    assert DecimalDigit(DigitOf(c)) == c;
  }

  // The decimal text of a number has that value.
  lemma {:induction false} DecimalUndone(n: nat)
    ensures forall i | 0 <= i < |Decimal(n)| :: IsDigit(Decimal(n)[i])
    ensures Value(DigitsOf(Decimal(n))) == n
  {
    hide Value;
    var c := DecimalDigit(n % 10);
    assert DigitOf(c) == n % 10;
    NothingIsZero();
    if n < 10 {
      assert DigitsOf(Decimal(n)) == [] + [DigitOf(c)];
      ValueOfNext([], DigitOf(c));
    } else {
      DecimalUndone(n / 10);
      assert DigitsOf(Decimal(n)) == DigitsOf(Decimal(n / 10)) + [DigitOf(c)];
      ValueOfNext(DigitsOf(Decimal(n / 10)), DigitOf(c));
    }
  }

  lemma {:induction false} ZerosCountForNothing(n: nat, s: string)
    requires forall i | 0 <= i < |s| :: IsDigit(s[i])
    ensures Value(DigitsOf(Zeros(n) + s)) == Value(DigitsOf(s))
  {
    hide Value, Power10;
    var z := Zeros(n);
    DecimalIsStripped(z);
    ValueOfConcat(DigitsOf(z), DigitsOf(s));
    assert DigitsOf(z + s) == DigitsOf(z) + DigitsOf(s);
  }

  // ---- The round trip ----

  // The reader knows and places every rank of the spelling: always, but for the old style.
  predicate Readable(style: Style, s: string)
    requires Digits4(s) && |s| <= 20
  {
    style.OldKanji? ==> OldReadable(DigitsOf(s))
  }

  // The round trip of one spelling. Read back, it is the number printed exactly if the number is
  // below 2^64 and, in the old style, the spelling is readable; otherwise it is refused. In the old
  // style the bound never matters.
  lemma SpellingIsRead(style: Style, twenty: bool, input: string, trimLeadingZeros: bool)
    requires IsDecimalInteger(input) && !AllZero(input) && |input| <= 20 && (twenty ==> style.OldKanji?)
    ensures var text, n := Form(twenty, NumberText(style, Filled(input))), Value(DigitsOf(input));
      && Normal(text, trimLeadingZeros)
           == (if Readable(style, Filled(input)) && n < LIMIT
               then Some(Normalized(KanjiText(text), Stripped(input))) else None)
      && (!style.Arabic() && Readable(style, Filled(input)) ==> KanjiText(text) == text)
      && (style.OldKanji? && Readable(style, Filled(input)) ==> n < LIMIT)
  {
    hide Value, Tokens, Meaning, NumberText, Decimal, KanjiOf, NumberOf, AllSound, AllWritten, Form;
    var s, sp := Filled(input), SpellingOf(style, twenty);
    var ds := DigitsOf(s);
    ZerosCountForNothing((4 - |input| % 4) % 4, input);
    DecimalIsStripped(input);
    NumberSpells(style, twenty, s);
    if style.OldKanji? {
      OldSoundAlike(sp, ds);
    } else {
      ModernIsSound(sp, ds);
    }
    if style.OldKanji? ==> AllWritten(ds) {
      TokensMean(sp, ds);
      TokensOfZero(sp, ds);
      FirstToken(sp, ds);
      assert KeptZeros(Tokens(sp, ds)) == 0;
      assert Zeros(0) + Decimal(Value(ds)) == Decimal(Value(ds));
      if style.OldKanji? {
        WrittenFits(ds);
      }
    }
  }

  // A candidate of the printer is the spelling of its style or, in the old style, that with the
  // character for twenty, or a single character for ten or a thousand.
  predicate FromPrinter(c: NumberString, input: string)
    requires Digits4(input)
  {
    || c.value == NumberText(c.style, input)
    || (c.style.OldKanji? && c.value == ReplaceTwoTen(NumberText(c.style, input)))
    || (c.style.OldKanji? && c.value == "拾" && input == "0010")
    || (c.style.OldKanji? && c.value == "阡" && input == "1000")
  }

  lemma CandidatesAreSpellings(input: string, n: nat)
    requires Digits4(input) && n <= 4
    ensures forall c | c in AllCandidates(input, n) :: FromPrinter(c, input)
  {
    hide NumberText, StyleCandidates, FromPrinter;
    if n > 0 {
      CandidatesAreSpellings(input, n - 1);
      CandidatesOfStyle(VARIATIONS[n - 1], input);
    }
  }

  lemma CandidatesOfStyle(style: Style, input: string)
    requires Digits4(input)
    ensures forall c | c in StyleCandidates(style, input) :: FromPrinter(c, input)
  {
    hide NumberText, ReplaceTwoTen, ContainsTwoTen;
  }

  // Whether a candidate can be read: in the old style, if it is the single character for ten, or
  // the groups of the number are readable.
  predicate CandidateReadable(c: NumberString, input: string)
    requires Digits4(input) && |input| <= 20
  {
    c.style.OldKanji? ==> c.value == "拾" || OldReadable(DigitsOf(input))
  }

  lemma TenIsRead(input: string, trimLeadingZeros: bool)
    requires IsDecimalInteger(input) && Filled(input) == "0010"
    ensures Normal("拾", trimLeadingZeros) == Some(Normalized("拾", Stripped(input)))
    ensures Value(DigitsOf(input)) == 10
  {
    TenIsTen(input);
    RankAloneMeansTen();
    TenCharacter();
    hide Value, Meaning, NumberOf, KanjiOf, Decimal, Stripped, Filled;
    CharacterSpells(OldKanji, '拾');
    assert KeptZeros([10]) == 0 && Zeros(0) + Decimal(10) == Decimal(10);
  }

  lemma TenIsTen(input: string)
    requires IsDecimalInteger(input) && Filled(input) == "0010"
    ensures Value(DigitsOf(input)) == 10 && Stripped(input) == Decimal(10)
  {
    hide Value, Decimal, Stripped;
    ZerosCountForNothing((4 - |input| % 4) % 4, input);
    ValueOfSegment(DigitsOf("0010"));
    DecimalIsStripped(input);
  }

  lemma TenCharacter()
    ensures NumberOf('拾') == Some(10) && KanjiOf('拾') == '拾' && NumberOf('阡') == None
  {}

  lemma RankAloneMeansTen()
    ensures Meaning([10]) == Some(10)
  {
    var ns: seq<uint64> := [10];
    assert ReduceDigits(ns, 0, 1000) == Reduced(false, 0, 0);
    assert ReduceDigits(ns, 0, 100) == Reduced(false, 0, 0);
    assert ReduceDigits(ns, 0, 10) == Reduced(true, 1, 10);
    assert ReduceCoefficient(ns, 0) == Reduced(true, 1, 10);
    assert !AllDigits(ns);
  }

  lemma ThousandIsRefused(trimLeadingZeros: bool)
    ensures Normal("阡", trimLeadingZeros) == None && !OldReadable(DigitsOf("1000"))
  {
    TenCharacter();
    assert "阡"[0] == '阡';
    assert DigitsOf("1000")[..4][0] == 1;
  }

  // The round trip of the program: whatever ArabicToKanji offers for a number other than zero,
  // NormalizeNumbers reads back as the same number exactly if the number is below 2^64 and the
  // candidate readable, and refuses otherwise.
  lemma CandidatesAreRead(input: string, trimLeadingZeros: bool)
    requires IsDecimalInteger(input) && !AllZero(input) && |input| <= 20
    ensures forall c | c in AllCandidates(Filled(input), 4) ::
      && Normal(c.value, trimLeadingZeros)
           == (if CandidateReadable(c, Filled(input)) && Value(DigitsOf(input)) < LIMIT
               then Some(Normalized(KanjiText(c.value), Stripped(input))) else None)
      && (!c.style.Arabic() && CandidateReadable(c, Filled(input)) ==> KanjiText(c.value) == c.value)
  {
    hide AllCandidates, NumberText, Normal, Value, KanjiText, OldReadable, FromPrinter;
    CandidatesAreSpellings(Filled(input), 4);
    forall c | c in AllCandidates(Filled(input), 4)
      ensures Normal(c.value, trimLeadingZeros)
           == (if CandidateReadable(c, Filled(input)) && Value(DigitsOf(input)) < LIMIT
               then Some(Normalized(KanjiText(c.value), Stripped(input))) else None)
      ensures !c.style.Arabic() && CandidateReadable(c, Filled(input)) ==> KanjiText(c.value) == c.value
    {
      CandidateIsRead(c, input, trimLeadingZeros);
    }
  }

  lemma CandidateIsRead(c: NumberString, input: string, trimLeadingZeros: bool)
    requires IsDecimalInteger(input) && !AllZero(input) && |input| <= 20 && FromPrinter(c, Filled(input))
    ensures Normal(c.value, trimLeadingZeros)
         == (if CandidateReadable(c, Filled(input)) && Value(DigitsOf(input)) < LIMIT
             then Some(Normalized(KanjiText(c.value), Stripped(input))) else None)
    ensures !c.style.Arabic() && CandidateReadable(c, Filled(input)) ==> KanjiText(c.value) == c.value
  {
    hide NumberText, Normal, KanjiText, Value, OldReadable;
    var s := Filled(input);
    if c.style.OldKanji? && c.value == "拾" && s == "0010" {
      TenIsRead(input, trimLeadingZeros);
      TenIsPlain();
    } else if c.style.OldKanji? && c.value == "阡" && s == "1000" {
      ThousandIsRefused(trimLeadingZeros);
    } else {
      var twenty := c.value != NumberText(c.style, s);
      SpellingIsRead(c.style, twenty, input, trimLeadingZeros);
      SpellingIsNotTen(s, twenty);
    }
  }

  lemma TenIsPlain()
    ensures KanjiText("拾") == "拾"
  {
    TenCharacter();
  }

  lemma SpellingIsNotTen(s: string, twenty: bool)
    requires Digits4(s)
    ensures Form(twenty, NumberText(OldKanji, s)) != "拾"
  {
    hide *;
    NumberFirst(s);
    FormFirst(twenty, NumberText(OldKanji, s));
  }

  lemma FormFirst(twenty: bool, t: string)
    requires t != "" ==> t[0] != '拾'
    ensures Form(twenty, t) != "拾"
  {
    assert "拾"[0] == '拾';
    if t != "" && twenty {
      var pair := |t| >= 2 && t[0] == '弐' && t[1] == '拾';
      ReplacedNext(t[0], if pair then t[2..] else t[1..]);
      assert t == if pair then ['弐', '拾'] + t[2..] else [t[0]] + t[1..];
      assert Form(twenty, t)[0] == if pair then '廿' else t[0];
    }
  }

  // Zero is printed and read back too.
  lemma ZeroIsRead(trimLeadingZeros: bool)
    ensures Normal("零", trimLeadingZeros) == Some(Normalized("零", "0"))
  {
    assert AllNumbers("零") && Numbers("零") == [0] && KanjiText("零") == "零";
    NothingIsZero();
    ValueOfNext([], 0);
    assert [] + [0] == [0];
    assert Meaning([0]) == Some(0);
    assert KeptZeros([0]) == 0 && Zeros(0) + Decimal(0) == "0";
  }

  lemma RankAfterOne()
    ensures Meaning([1, 10]) == None
  {
    var ns: seq<uint64> := [1, 10];
    assert ReduceDigits(ns, 0, 1000) == Reduced(false, 0, 0);
    assert ReduceDigits(ns, 0, 100) == Reduced(false, 0, 0);
    assert ReduceDigits(ns, 0, 10) == Reduced(false, 0, 0);
    assert ReduceOnes(ns, 0) == Reduced(true, 1, 1);
    assert !AllDigits(ns);
  }

  lemma OldTen()
    ensures NumberText(OldKanji, "0010") == "壱拾"
  {
    var ten: Segment := "0010";
    assert SegmentText(OldKanji, ten, 3, false) == "";
    assert SegmentText(OldKanji, ten, 2, true) == "壱拾";
    assert SegmentText(OldKanji, ten, 0, true) == "壱拾";
    assert "0010"[..4] == ten && "0010"[4..] == "";
  }

  // Ten, for one, is printed as "壱拾", one and ten, which the reader refuses.
  lemma OldStyleIsRefused(trimLeadingZeros: bool)
    ensures NumberText(OldKanji, "0010") == "壱拾"
    ensures Normal("壱拾", trimLeadingZeros) == None
  {
    assert AllNumbers("壱拾") ==> Numbers("壱拾") == [1, 10];
    RankAfterOne();
    OldTen();
  }
}
