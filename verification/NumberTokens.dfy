/**
 What the spellings of a number are as sequences of numbers, and how the reader takes them: each
 spelling is read back as the number it spells, except exactly where the old style puts a one before
 ten or a hundred.
 */
module NumberTokens {
  import opened Wrappers
  import opened NumberParser

  // How the digits of a number are written: by their places alone; with a rank after each digit
  // but one, as in kanji; with a rank after every digit, as in the old style; or the same with the
  // one character for twenty.
  datatype Spelling = Positional | Modern | Old | OldTwenty {
    predicate IsOld() {
      Old? || OldTwenty?
    }
  }

  // ---- One coefficient: places written as [digit, base], [base] or not at all ----

  // What a spelling with ranks writes for digit x at the place of the given base.
  function PlaceTokens(spelling: Spelling, x: nat, base: nat): seq<uint64>
    requires x < 10 && base in {10, 100, 1000}
  {
    if x == 0 then []
    else if x == 1 && !spelling.IsOld() then [base]
    else if x == 2 && base == 10 && spelling.OldTwenty? then [20]
    else [x, base]
  }

  function OnesTokens(x: nat): seq<uint64>
    requires x < 10
  {
    if x == 0 then [] else [x]
  }

  // Nothing for the place of this base is at i, and no zero or run of digits either.
  predicate NotHere(ns: seq<uint64>, i: nat, base: nat) {
    i >= |ns| ||
    (ns[i] != 0 &&
     if ns[i] < 10 then i + 1 >= |ns| || (ns[i + 1] >= 10 && ns[i + 1] != base)
     else ns[i] != base && (base == 10 ==> ns[i] != 20))
  }

  // The same for this base and all above it.
  predicate NoneFrom(ns: seq<uint64>, i: nat, base: nat) {
    && (base <= 10 ==> NotHere(ns, i, 10))
    && (base <= 100 ==> NotHere(ns, i, 100))
    && (base <= 1000 ==> NotHere(ns, i, 1000))
  }

  // t stands at i.
  predicate StandsAt(ns: seq<uint64>, i: nat, t: seq<uint64>) {
    i + |t| <= |ns| && ns[i..i + |t|] == t
  }

  lemma OnesRead(ns: seq<uint64>, i: nat, x: nat)
    requires x < 10 && StandsAt(ns, i, OnesTokens(x)) && Closed(ns, i + |OnesTokens(x)|)
    ensures ReduceOnes(ns, i) == Reduced(x > 0, i + |OnesTokens(x)|, x)
    ensures NoneFrom(ns, i, 10)
  {
    if x > 0 {
      assert ns[i] == OnesTokens(x)[0];
    }
  }

  lemma PlaceRead(spelling: Spelling, ns: seq<uint64>, i: nat, x: nat, base: nat)
    requires x < 10 && base in {10, 100, 1000} && StandsAt(ns, i, PlaceTokens(spelling, x, base))
    requires spelling.IsOld() && x == 1 ==> base == 1000
    requires NoneFrom(ns, i + |PlaceTokens(spelling, x, base)|, base)
    ensures ReduceDigits(ns, i, base) == Reduced(x > 0, i + |PlaceTokens(spelling, x, base)|, x * base)
    ensures NoneFrom(ns, i, 10 * base)
  {
    var t := PlaceTokens(spelling, x, base);
    assert |t| > 0 ==> ns[i] == t[0];
    assert |t| > 1 ==> ns[i + 1] == t[1];
  }

  function KanjiTokens(spelling: Spelling, a: nat, b: nat, c: nat, d: nat): seq<uint64>
    requires a < 10 && b < 10 && c < 10 && d < 10
  {
    PlaceTokens(spelling, a, 1000)
    + (PlaceTokens(spelling, b, 100) + (PlaceTokens(spelling, c, 10) + OnesTokens(d)))
  }

  function ArabicTokens(a: nat, b: nat, c: nat, d: nat): seq<uint64>
    requires a < 10 && b < 10 && c < 10 && d < 10
  {
    if a > 0 then [a, b, c, d] else if b > 0 then [b, c, d] else if c > 0 then [c, d] else OnesTokens(d)
  }

  lemma StandsInParts(ns: seq<uint64>, i: nat, t: seq<uint64>, u: seq<uint64>)
    requires StandsAt(ns, i, t + u)
    ensures StandsAt(ns, i, t) && StandsAt(ns, i + |t|, u)
  {
    assert (t + u)[..|t|] == t && (t + u)[|t|..] == u;
  }

  // Where each place of a coefficient ends.
  lemma KanjiStands(spelling: Spelling, ns: seq<uint64>, i: nat, a: nat, b: nat, c: nat, d: nat)
      returns (h: nat, t: nat, o: nat)
    requires a < 10 && b < 10 && c < 10 && d < 10 && StandsAt(ns, i, KanjiTokens(spelling, a, b, c, d))
    ensures h == i + |PlaceTokens(spelling, a, 1000)| && StandsAt(ns, i, PlaceTokens(spelling, a, 1000))
    ensures t == h + |PlaceTokens(spelling, b, 100)| && StandsAt(ns, h, PlaceTokens(spelling, b, 100))
    ensures o == t + |PlaceTokens(spelling, c, 10)| && StandsAt(ns, t, PlaceTokens(spelling, c, 10))
    ensures i + |KanjiTokens(spelling, a, b, c, d)| == o + |OnesTokens(d)| && StandsAt(ns, o, OnesTokens(d))
  {
    hide PlaceTokens, OnesTokens, StandsAt;
    var ta, tb := PlaceTokens(spelling, a, 1000), PlaceTokens(spelling, b, 100);
    var tc, td := PlaceTokens(spelling, c, 10), OnesTokens(d);
    h, t, o := i + |ta|, i + |ta| + |tb|, i + |ta| + |tb| + |tc|;
    StandsInParts(ns, i, ta, tb + (tc + td));
    StandsInParts(ns, h, tb, tc + td);
    StandsInParts(ns, t, tc, td);
  }

  lemma KanjiRead(spelling: Spelling, ns: seq<uint64>, i: nat, a: nat, b: nat, c: nat, d: nat)
    requires a < 10 && b < 10 && c < 10 && d < 10 && (spelling.IsOld() ==> b != 1 && c != 1)
    requires StandsAt(ns, i, KanjiTokens(spelling, a, b, c, d)) && Closed(ns, i + |KanjiTokens(spelling, a, b, c, d)|)
    ensures ReduceCoefficient(ns, i)
         == Reduced(a + b + c + d > 0, i + |KanjiTokens(spelling, a, b, c, d)|, 1000 * a + 100 * b + 10 * c + d)
  {
    hide PlaceTokens, OnesTokens, ReduceDigits, ReduceOnes, NoneFrom, StandsAt, ReduceCoefficient, KanjiTokens, Closed;
    var h, t, o := KanjiStands(spelling, ns, i, a, b, c, d);
    OnesRead(ns, o, d);
    PlaceRead(spelling, ns, t, c, 10);
    PlaceRead(spelling, ns, h, b, 100);
    PlaceRead(spelling, ns, i, a, 1000);
    FourPlaces(ns, i, ReduceDigits(ns, i, 1000), ReduceDigits(ns, h, 100), ReduceDigits(ns, t, 10), ReduceOnes(ns, o));
  }

  lemma FourPlaces(ns: seq<uint64>, i: nat, t: Reduced, h: Reduced, d: Reduced, o: Reduced)
    requires i <= |ns| && t == ReduceDigits(ns, i, 1000)
    requires t.begin <= |ns| && h == ReduceDigits(ns, t.begin, 100)
    requires h.begin <= |ns| && d == ReduceDigits(ns, h.begin, 10)
    requires d.begin <= |ns| && o == ReduceOnes(ns, d.begin) && Closed(ns, o.begin)
    ensures ReduceCoefficient(ns, i)
         == Reduced(t.ok || h.ok || d.ok || o.ok, o.begin, Read(t) + Read(h) + Read(d) + Read(o))
  {
    hide ReduceDigits, ReduceOnes, Closed;
  }

  lemma RunEnds(ns: seq<uint64>, i: nat, e: nat)
    requires i <= e <= |ns| && (forall j | i <= j < e :: ns[j] < 10) && (e < |ns| ==> ns[e] >= 10)
    ensures DigitRun(ns, i) == e
  {}

  lemma ValueOfNext(ds: seq<nat>, x: nat)
    ensures Value(ds + [x]) == 10 * Value(ds) + x
  {
    assert (ds + [x])[..|ds|] == ds;
  }

  lemma FourDigits(a: nat, b: nat, c: nat, d: nat)
    ensures Value([d]) == d
    ensures Value([c, d]) == 10 * c + d
    ensures Value([b, c, d]) == 100 * b + 10 * c + d
    ensures Value([a, b, c, d]) == 1000 * a + 100 * b + 10 * c + d
  {
    hide Value;
    assert Value([]) == 0 by { NothingIsZero(); }
    ValueOfDigits2(c, d);
    ValueOfDigits2(b, c);
    ValueOfDigits2(a, b);
    ValueOfNext([b, c], d);
    ValueOfNext([a, b], c);
    ValueOfNext([a, b, c], d);
    assert [b, c] + [d] == [b, c, d] && [a, b] + [c] == [a, b, c] && [a, b, c] + [d] == [a, b, c, d];
  }

  lemma NothingIsZero()
    ensures Value([]) == 0
  {}

  lemma ValueOfDigits2(c: nat, d: nat)
    ensures Value([d]) == d && Value([c, d]) == 10 * c + d
  {
    hide Value;
    NothingIsZero();
    ValueOfNext([], c);
    ValueOfNext([], d);
    ValueOfNext([c], d);
    assert [] + [c] == [c] && [] + [d] == [d] && [c] + [d] == [c, d];
  }

  lemma ArabicRead(ns: seq<uint64>, i: nat, a: nat, b: nat, c: nat, d: nat)
    requires a < 10 && b < 10 && c < 10 && d < 10
    requires StandsAt(ns, i, ArabicTokens(a, b, c, d)) && Closed(ns, i + |ArabicTokens(a, b, c, d)|)
    requires a + b + c + d > 0
    ensures ReduceCoefficient(ns, i)
         == Reduced(true, i + |ArabicTokens(a, b, c, d)|, 1000 * a + 100 * b + 10 * c + d)
  {
    hide ReduceCoefficient, Value, ReduceDigits;
    var t := ArabicTokens(a, b, c, d);
    FourDigits(a, b, c, d);
    if |t| >= 2 {
      RunIsRead(ns, i, t);
    } else {
      OnesRead(ns, i, d);
      NoneFromReadsNothing(ns, i);
      FourPlaces(ns, i, Reduced(false, i, 0), Reduced(false, i, 0), Reduced(false, i, 0), ReduceOnes(ns, i));
    }
  }

  lemma NoneFromReadsNothing(ns: seq<uint64>, i: nat)
    requires i <= |ns| && NoneFrom(ns, i, 10)
    ensures ReduceDigits(ns, i, 1000) == ReduceDigits(ns, i, 100) == ReduceDigits(ns, i, 10) == Reduced(false, i, 0)
  {}

  // Digits that stand at i, followed by none, are the run there.
  lemma RunStands(ns: seq<uint64>, i: nat, t: seq<uint64>)
    requires StandsAt(ns, i, t) && AllDigits(t) && Closed(ns, i + |t|)
    ensures DigitRun(ns, i) == i + |t|
    ensures forall j | 0 <= j < |t| :: ns[i + j] == t[j]
  {
    forall j | 0 <= j < |t| ensures ns[i + j] == t[j] {
      assert ns[i..i + |t|][j] == t[j];
    }
    forall j | i <= j < i + |t| ensures ns[j] < 10 {
      assert ns[i + (j - i)] == t[j - i];
    }
    RunEnds(ns, i, i + |t|);
  }

  // A run of two digits or more that fits is read at the place of the thousands.
  lemma RunIsRead(ns: seq<uint64>, i: nat, t: seq<uint64>)
    requires StandsAt(ns, i, t) && |t| >= 2 && AllDigits(t) && t[0] > 0 && Value(t) < 10000
    requires Closed(ns, i + |t|)
    ensures ReduceCoefficient(ns, i) == Reduced(true, i + |t|, Value(t))
  {
    hide ReduceDigits, ReduceOnes, ReduceCoefficient, Value, DigitRun, Closed;
    RunStands(ns, i, t);
    assert ns[i + 0] == t[0] && ns[i + 1] == t[1];
    RunAtThousands(ns, i, i + |t|);
    ClosedReadsNothing(ns, i + |t|);
    var none := Reduced(false, i + |t|, 0);
    FourPlaces(ns, i, Reduced(true, i + |t|, Value(t)), none, none, none);
  }

  lemma RunAtThousands(ns: seq<uint64>, i: nat, e: nat)
    requires i + 2 <= e <= |ns| && DigitRun(ns, i) == e && ns[i] > 0 && ns[i] < 10 && ns[i + 1] < 10
    requires Value(ns[i..e]) < 10000 && Closed(ns, e)
    ensures ReduceDigits(ns, i, 1000) == Reduced(true, e, Value(ns[i..e]))
  {
    hide Value, DigitRun;
  }

  // ---- Whole numbers as segments of four digits ----

  predicate Digits(ds: seq<nat>) {
    |ds| % 4 == 0 && |ds| <= 20 && forall i | 0 <= i < |ds| :: ds[i] < 10
  }

  predicate Segment4(ds: seq<nat>) {
    |ds| == 4 && forall i | 0 <= i < 4 :: ds[i] < 10
  }

  function SegmentTokens(spelling: Spelling, ds: seq<nat>): seq<uint64>
    requires Segment4(ds)
  {
    if spelling.Positional? then ArabicTokens(ds[0], ds[1], ds[2], ds[3])
    else KanjiTokens(spelling, ds[0], ds[1], ds[2], ds[3])
  }

  // No one is written before ten or a hundred.
  predicate Sound(spelling: Spelling, ds: seq<nat>)
    requires Segment4(ds)
  {
    spelling.IsOld() ==> ds[1] != 1 && ds[2] != 1
  }

  predicate AllSound(spelling: Spelling, ds: seq<nat>)
    requires Digits(ds)
    decreases |ds|
  {
    ds == [] || (Sound(spelling, ds[..4]) && AllSound(spelling, ds[4..]))
  }

  // The old style writes this group of the given rank with characters that the reader knows: not
  // the ones for a thousand and for ten thousand.
  predicate Written(ds: seq<nat>, rank: nat)
    requires Segment4(ds)
  {
    ds[0] == 0 && (rank == 1 ==> ds == [0, 0, 0, 0])
  }

  predicate AllWritten(ds: seq<nat>)
    requires Digits(ds)
    decreases |ds|
  {
    ds == [] || (Written(ds[..4], |ds| / 4 - 1) && AllWritten(ds[4..]))
  }

  // Every group of four has thousands digit 0, and hundreds and tens digits other than 1; and the
  // group of rank 1 is 0000.
  predicate OldReadable(ds: seq<nat>)
    requires Digits(ds)
  {
    AllWritten(ds) && AllSound(Old, ds)
  }

  function Power10(n: nat): nat {
    if n == 0 then 1 else 10 * Power10(n - 1)
  }

  function Base(rank: nat): (b: uint64)
    requires rank <= 4
  {
    [1, 1_0000, 1_0000_0000, 1_0000_0000_0000, 1_0000_0000_0000_0000][rank]
  }

  lemma BaseIncreases(rank: nat)
    requires rank <= 4
    ensures Base(rank) > 0
    ensures rank > 0 ==> Base(rank - 1) < Base(rank) && Base(rank) >= 10000
  {}

  lemma BaseOfLowest()
    ensures Base(0) == 1
  {}

  lemma BaseIsPower(rank: nat)
    requires rank <= 4
    ensures Base(rank) == Power10(4 * rank)
  {
    PowersOfTen();
  }

  function GroupTokens(spelling: Spelling, ds: seq<nat>, rank: nat): seq<uint64>
    requires Segment4(ds) && rank <= 4
  {
    var t := SegmentTokens(spelling, ds);
    if t == [] || rank == 0 then t else t + [Base(rank)]
  }

  function Tokens(spelling: Spelling, ds: seq<nat>): seq<uint64>
    requires Digits(ds)
    decreases |ds|
  {
    if ds == [] then [] else GroupTokens(spelling, ds[..4], |ds| / 4 - 1) + Tokens(spelling, ds[4..])
  }

  lemma SegmentTokensOfZero(spelling: Spelling, ds: seq<nat>)
    requires Segment4(ds)
    ensures SegmentTokens(spelling, ds) == [] <==> Value(ds) == 0
    ensures Value(ds) < 10000
  {
    ValueOfSegment(ds);
    hide Value;
  }

  lemma ValueOfSegment(ds: seq<nat>)
    requires Segment4(ds)
    ensures Value(ds) == 1000 * ds[0] + 100 * ds[1] + 10 * ds[2] + ds[3]
  {
    hide Value;
    FourDigits(ds[0], ds[1], ds[2], ds[3]);
    assert ds == [ds[0], ds[1], ds[2], ds[3]];
  }

  lemma SegmentRead(spelling: Spelling, ns: seq<uint64>, i: nat, ds: seq<nat>)
    requires Segment4(ds) && Value(ds) > 0 && Sound(spelling, ds)
    requires StandsAt(ns, i, SegmentTokens(spelling, ds)) && Closed(ns, i + |SegmentTokens(spelling, ds)|)
    ensures ReduceCoefficient(ns, i) == Reduced(true, i + |SegmentTokens(spelling, ds)|, Value(ds))
  {
    hide ReduceCoefficient, Value, KanjiTokens, ArabicTokens, StandsAt, Closed;
    ValueOfSegment(ds);
    if spelling.Positional? {
      ArabicRead(ns, i, ds[0], ds[1], ds[2], ds[3]);
    } else {
      KanjiRead(spelling, ns, i, ds[0], ds[1], ds[2], ds[3]);
    }
  }

  lemma {:induction false} ValueOfConcat(a: seq<nat>, b: seq<nat>)
    ensures Value(a + b) == Value(a) * Power10(|b|) + Value(b)
    decreases |b|
  {
    hide Value;
    if b == [] {
      NothingIsZero();
      assert a + b == a;
    } else {
      var b', x := b[..|b| - 1], b[|b| - 1];
      ValueOfConcat(a, b');
      ValueOfNext(a + b', x);
      ValueOfNext(b', x);
      assert a + b == a + b' + [x] && b == b' + [x];
      Shifted(Value(a), Power10(|b'|));
    }
  }

  lemma Shifted(v: nat, p: nat)
    ensures 10 * (v * p) == v * (10 * p)
  {}

  lemma FirstSegment(ds: seq<nat>)
    requires Digits(ds) && ds != []
    ensures 4 <= |ds| <= 20 && |ds| % 4 == 0 && Digits(ds[4..]) && Segment4(ds[..4])
  {}

  lemma ValueOfSegments(ds: seq<nat>)
    requires Digits(ds) && ds != []
    ensures 4 <= |ds| <= 20 && |ds| % 4 == 0 && Digits(ds[4..]) && Segment4(ds[..4])
    ensures Value(ds) == Value(ds[..4]) * Base(|ds| / 4 - 1) + Value(ds[4..])
  {
    FirstSegment(ds);
    hide Value, Base, Power10, Digits, Segment4;
    var rank := |ds| / 4 - 1;
    ValueOfConcat(ds[..4], ds[4..]);
    assert ds == ds[..4] + ds[4..];
    assert 4 * rank == |ds[4..]|;
    BaseIsPower(rank);
  }

  lemma TokensOfNext(spelling: Spelling, ds: seq<nat>)
    requires Digits(ds) && ds != []
    ensures var t, rank, u := SegmentTokens(spelling, ds[..4]), |ds| / 4 - 1, Tokens(spelling, ds[4..]);
      Tokens(spelling, ds) == if t == [] then u else if rank == 0 then t else t + ([Base(rank)] + u)
  {
    hide SegmentTokens, Base;
    var t, rank, u := SegmentTokens(spelling, ds[..4]), |ds| / 4 - 1, Tokens(spelling, ds[4..]);
    assert t != [] && rank > 0 ==> t + [Base(rank)] + u == t + ([Base(rank)] + u);
  }

  lemma {:induction false} TokensOfZero(spelling: Spelling, ds: seq<nat>)
    requires Digits(ds)
    ensures Tokens(spelling, ds) == [] <==> Value(ds) == 0
    decreases |ds|
  {
    hide SegmentTokens;
    if ds != [] {
      ValueOfSegments(ds);
      SegmentTokensOfZero(spelling, ds[..4]);
      TokensOfZero(spelling, ds[4..]);
      ProductOfPositives(Value(ds[..4]), Base(|ds| / 4 - 1));
    }
  }

  lemma ProductOfPositives(a: nat, b: nat)
    requires b > 0
    ensures a * b == 0 <==> a == 0
  {}

  // The groups from i on are read and add up to n.
  predicate Reads(ns: seq<uint64>, i: nat, lastBase: nat, n: nat) {
    i <= |ns| && var r := ReadGroups(ns, i, lastBase); r.Some? && Total(r.value) == n
  }

  lemma LastGroupReads(ns: seq<uint64>, i: nat, lastBase: nat, v: nat)
    requires i <= |ns| && ReduceCoefficient(ns, i) == Reduced(true, |ns|, v)
    ensures Reads(ns, i, lastBase, v)
  {
    hide ReduceCoefficient, Total;
    TotalOfNext(Group(v, 1), []);
    assert [Group(v, 1)] + [] == [Group(v, 1)];
  }

  lemma TotalOfNext(group: Group, rest: seq<Group>)
    ensures Total([group] + rest) == group.coefficient * group.base + Total(rest)
    ensures Total([]) == 0
  {
    assert ([group] + rest)[1..] == rest;
  }

  lemma GroupReads(ns: seq<uint64>, i: nat, lastBase: nat, e: nat, v: nat, n: nat, total: nat)
    requires i <= e < |ns| && ns[e] < lastBase && total == v * ns[e] + n
    requires if e + 1 == |ns| then n == 0 else Reads(ns, e + 1, ns[e], n)
    requires ReduceCoefficient(ns, i) == Reduced(true, e, v)
    ensures Reads(ns, i, lastBase, total)
  {
    hide ReduceCoefficient, Total;
    var group := Group(v, ns[e]);
    if e + 1 == |ns| {
      TotalOfNext(group, []);
      assert [group] + [] == [group];
    } else {
      TotalOfNext(group, ReadGroups(ns, e + 1, ns[e]).value);
    }
  }

  lemma GroupStands(spelling: Spelling, ns: seq<uint64>, i: nat, ds: seq<nat>, rank: nat, u: seq<uint64>)
    requires Segment4(ds) && Value(ds) > 0 && Sound(spelling, ds) && 0 < rank <= 4
    requires StandsAt(ns, i, SegmentTokens(spelling, ds) + ([Base(rank)] + u))
    ensures var e := i + |SegmentTokens(spelling, ds)|;
      && e < |ns| && ns[e] == Base(rank) && StandsAt(ns, e + 1, u)
      && ReduceCoefficient(ns, i) == Reduced(true, e, Value(ds))
  {
    hide SegmentTokens, Value, ReduceCoefficient, Base, StandsAt;
    var t := SegmentTokens(spelling, ds);
    BaseIncreases(rank);
    StandsInParts(ns, i, t, [Base(rank)] + u);
    StandsInParts(ns, i + |t|, [Base(rank)], u);
    FirstStands(ns, i + |t|, [Base(rank)]);
    SegmentRead(spelling, ns, i, ds);
  }

  lemma LastSegmentReads(spelling: Spelling, ns: seq<uint64>, i: nat, ds: seq<nat>, lastBase: nat)
    requires Segment4(ds) && Value(ds) > 0 && Sound(spelling, ds)
    requires StandsAt(ns, i, SegmentTokens(spelling, ds)) && |ns| == i + |SegmentTokens(spelling, ds)|
    ensures Reads(ns, i, lastBase, Value(ds))
  {
    hide SegmentTokens, Value, ReduceCoefficient, Reads, StandsAt;
    SegmentRead(spelling, ns, i, ds);
    LastGroupReads(ns, i, lastBase, Value(ds));
  }

  lemma {:induction false} GroupsRead(spelling: Spelling, ns: seq<uint64>, i: nat, ds: seq<nat>, lastBase: nat)
    requires Digits(ds) && Value(ds) > 0 && AllSound(spelling, ds) && Base(|ds| / 4 - 1) < lastBase
    requires StandsAt(ns, i, Tokens(spelling, ds)) && |ns| == i + |Tokens(spelling, ds)|
    ensures Reads(ns, i, lastBase, Value(ds))
    decreases |ds|
  {
    hide SegmentTokens, Value, ReduceCoefficient, Base, Reads, StandsAt, Tokens, Digits, Closed, Sound;
    NothingIsZero();
    ValueOfSegments(ds);
    var v, rank, rest := Value(ds[..4]), |ds| / 4 - 1, ds[4..];
    var t, u := SegmentTokens(spelling, ds[..4]), Tokens(spelling, rest);
    BaseIncreases(rank);
    SegmentTokensOfZero(spelling, ds[..4]);
    ProductOfPositives(v, Base(rank));
    TokensOfNext(spelling, ds);
    if v == 0 {
      GroupsRead(spelling, ns, i, rest, lastBase);
    } else if rank == 0 {
      BaseOfLowest();
      LastSegmentReads(spelling, ns, i, ds[..4], lastBase);
    } else {
      GroupStands(spelling, ns, i, ds[..4], rank, u);
      TokensOfZero(spelling, rest);
      if u != [] {
        GroupsRead(spelling, ns, i + |t| + 1, rest, Base(rank));
      }
      GroupReads(ns, i, lastBase, i + |t|, v, Value(rest), Value(ds));
    }
  }

  lemma FirstStands(ns: seq<uint64>, i: nat, t: seq<uint64>)
    requires StandsAt(ns, i, t) && t != []
    ensures i < |ns| && ns[i] == t[0]
  {}

  // ---- Tokens that are all digits ----

  lemma SegmentOfDigits(spelling: Spelling, ds: seq<nat>)
    requires Segment4(ds) && Value(ds) > 0
    requires AllDigits(SegmentTokens(spelling, ds))
    ensures Value(SegmentTokens(spelling, ds)) == Value(ds)
  {
    hide Value;
    var a, b, c, d := ds[0], ds[1], ds[2], ds[3];
    FourDigits(a, b, c, d);
    assert ds == [a, b, c, d];
    if !spelling.Positional? {
      OnlyOnesAreDigits(spelling, a, b, c, d);
      assert KanjiTokens(spelling, a, b, c, d) == [d];
    }
  }

  lemma OnlyOnesAreDigits(spelling: Spelling, a: nat, b: nat, c: nat, d: nat)
    requires a < 10 && b < 10 && c < 10 && d < 10
    ensures AllDigits(KanjiTokens(spelling, a, b, c, d)) ==> a == b == c == 0
  {
    var ta, tb := PlaceTokens(spelling, a, 1000), PlaceTokens(spelling, b, 100);
    var tc, td := PlaceTokens(spelling, c, 10), OnesTokens(d);
    var t := KanjiTokens(spelling, a, b, c, d);
    assert a > 0 ==> t[|ta| - 1] >= 10;
    assert b > 0 ==> t[|ta| + |tb| - 1] >= 10;
    assert c > 0 ==> t[|ta| + |tb| + |tc| - 1] >= 10;
  }

  lemma {:induction false} TokensOfDigits(spelling: Spelling, ds: seq<nat>)
    requires Digits(ds) && Value(ds) > 0
    ensures AllDigits(Tokens(spelling, ds)) ==> Value(Tokens(spelling, ds)) == Value(ds)
    decreases |ds|
  {
    hide SegmentTokens, Value, Base, Tokens;
    NothingIsZero();
    var v, rank, rest := Value(ds[..4]), |ds| / 4 - 1, ds[4..];
    var t := SegmentTokens(spelling, ds[..4]);
    ValueOfSegments(ds);
    SegmentTokensOfZero(spelling, ds[..4]);
    BaseIncreases(rank);
    ProductOfPositives(v, Base(rank));
    TokensOfNext(spelling, ds);
    if v == 0 {
      TokensOfDigits(spelling, rest);
    } else if rank > 0 {
      assert Tokens(spelling, ds)[|t|] == Base(rank);
    } else if AllDigits(t) {
      BaseOfLowest();
      SegmentOfDigits(spelling, ds[..4]);
    }
  }

  // ---- The ones that are refused ----

  // A one before a hundred or ten is read as the ones, and what follows is out of place.
  lemma UnsoundSegmentFails(spelling: Spelling, ns: seq<uint64>, i: nat, ds: seq<nat>)
    requires Segment4(ds) && ds[0] == 0 && !Sound(spelling, ds) && StandsAt(ns, i, SegmentTokens(spelling, ds))
    ensures i <= |ns| && !ReduceCoefficient(ns, i).ok
  {
    hide ReduceDigits, ReduceOnes, ReduceCoefficient, StandsAt, KanjiTokens, Closed, NoneFrom;
    var b, c := ds[1], ds[2];
    var h, t, o := KanjiStands(spelling, ns, i, 0, b, c, ds[3]);
    if b == 1 {
      PairStands(ns, i, 1, 100);
      OneOutOfPlace(ns, i, 100);
      FailsAtOnes(ns, i, i);
    } else {
      PairStands(ns, t, 1, 10);
      OneOutOfPlace(ns, t, 10);
      PlaceRead(spelling, ns, i, b, 100);
      FailsAtOnes(ns, i, t);
    }
  }

  lemma PairStands(ns: seq<uint64>, i: nat, x: uint64, y: uint64)
    requires StandsAt(ns, i, [x, y])
    ensures i + 1 < |ns| && ns[i] == x && ns[i + 1] == y
  {
    assert [x, y][0] == x && [x, y][1] == y;
  }

  // One and ten, or one and a hundred, at e: no place but the ones can begin there.
  lemma OneOutOfPlace(ns: seq<uint64>, e: nat, base: nat)
    requires e + 1 < |ns| && ns[e] == 1 && ns[e + 1] == base && base in {10, 100}
    ensures ReduceDigits(ns, e, 1000) == ReduceDigits(ns, e, 100) == ReduceDigits(ns, e, 10) == Reduced(false, e, 0)
    ensures ReduceOnes(ns, e) == Reduced(true, e + 1, 1) && !Closed(ns, e + 1)
    ensures base == 10 ==> NoneFrom(ns, e, 100)
  {}

  lemma FailsAtOnes(ns: seq<uint64>, i: nat, e: nat)
    requires i <= e < |ns| && ReduceOnes(ns, e) == Reduced(true, e + 1, 1) && !Closed(ns, e + 1)
    requires ReduceDigits(ns, e, 10) == Reduced(false, e, 0)
    requires (NoneFrom(ns, i, 1000) && ReduceDigits(ns, i, 100).begin == e)
          || (i == e && ReduceDigits(ns, i, 1000) == ReduceDigits(ns, i, 100) == Reduced(false, i, 0))
    ensures !ReduceCoefficient(ns, i).ok
  {
    if NoneFrom(ns, i, 1000) && ReduceDigits(ns, i, 100).begin == e {
      ThousandsPassed(ns, i);
    }
    hide ReduceDigits, ReduceOnes, NoneFrom, Closed;
  }

  lemma ThousandsPassed(ns: seq<uint64>, i: nat)
    requires i <= |ns| && NoneFrom(ns, i, 1000)
    ensures ReduceDigits(ns, i, 1000) == Reduced(false, i, 0)
  {}

  lemma GroupRefused(ns: seq<uint64>, i: nat, lastBase: nat)
    requires i <= |ns| && !ReduceCoefficient(ns, i).ok
    ensures ReadGroups(ns, i, lastBase) == None
  {
    hide ReduceCoefficient;
  }

  lemma RestRefused(ns: seq<uint64>, i: nat, lastBase: nat, e: nat, v: nat)
    requires i <= e && e + 1 < |ns|
    requires ReduceCoefficient(ns, i) == Reduced(true, e, v)
    ensures ReadGroups(ns, e + 1, ns[e]) == None ==> ReadGroups(ns, i, lastBase) == None
  {
    hide ReduceCoefficient;
  }

  lemma {:induction false} DigitsAreSound(spelling: Spelling, ds: seq<nat>)
    requires Digits(ds)
    ensures AllDigits(Tokens(spelling, ds)) ==> AllSound(spelling, ds)
    decreases |ds|
  {
    if ds != [] {
      hide Tokens, Base, SegmentTokens;
      var t, u := SegmentTokens(spelling, ds[..4]), Tokens(spelling, ds[4..]);
      DigitsAreSound(spelling, ds[4..]);
      TokensOfNext(spelling, ds);
      SegmentOfDigitsIsSound(spelling, ds[..4]);
      if AllDigits(Tokens(spelling, ds)) {
        TailOfDigits(t + [Base(|ds| / 4 - 1)], u);
        TailOfDigits(t, [Base(|ds| / 4 - 1)] + u);
      }
    }
  }

  lemma TailOfDigits(t: seq<uint64>, u: seq<uint64>)
    ensures AllDigits(t + u) ==> AllDigits(t) && AllDigits(u)
  {
    assert forall i | 0 <= i < |t| :: (t + u)[i] == t[i];
    assert forall i | 0 <= i < |u| :: (t + u)[|t| + i] == u[i];
  }

  lemma SegmentOfDigitsIsSound(spelling: Spelling, ds: seq<nat>)
    requires Segment4(ds)
    ensures AllDigits(SegmentTokens(spelling, ds)) ==> Sound(spelling, ds)
  {
    if !spelling.Positional? {
      OnlyOnesAreDigits(spelling, ds[0], ds[1], ds[2], ds[3]);
    }
  }

  lemma ZeroIsSound(spelling: Spelling, ds: seq<nat>)
    requires Segment4(ds) && Value(ds) == 0
    ensures Sound(spelling, ds)
  {
    FourDigits(ds[0], ds[1], ds[2], ds[3]);
    assert ds == [ds[0], ds[1], ds[2], ds[3]];
  }

  lemma HeadOrRest(spelling: Spelling, ds: seq<nat>)
    requires Digits(ds) && AllWritten(ds) && !AllSound(spelling, ds)
    ensures 4 <= |ds| <= 20 && |ds| % 4 == 0 && Segment4(ds[..4]) && Digits(ds[4..])
    ensures ds[..4][0] == 0 && AllWritten(ds[4..])
    ensures Sound(spelling, ds[..4]) ==> !AllSound(spelling, ds[4..])
  {}

  // A number with an unsound group is refused, wherever the group is.
  lemma {:induction false} GroupsRefused(spelling: Spelling, ns: seq<uint64>, i: nat, ds: seq<nat>, lastBase: nat)
    requires Digits(ds) && AllWritten(ds) && !AllSound(spelling, ds)
    requires StandsAt(ns, i, Tokens(spelling, ds)) && |ns| == i + |Tokens(spelling, ds)|
    ensures ReadGroups(ns, i, lastBase) == None
    decreases |ds|
  {
    hide *;
    HeadOrRest(spelling, ds);
    if Sound(spelling, ds[..4]) {
      RestIsThere(spelling, ds[4..]);
      var next, base := HeadPassed(spelling, ns, i, ds, lastBase);
      GroupsRefused(spelling, ns, next, ds[4..], base);
    } else {
      HeadRefused(spelling, ns, i, ds, lastBase);
    }
  }

  // A sound group is read, if it is not zero, and the rest is up next.
  lemma HeadPassed(spelling: Spelling, ns: seq<uint64>, i: nat, ds: seq<nat>, lastBase: nat)
      returns (next: nat, base: nat)
    requires Digits(ds) && |ds| > 4 && Segment4(ds[..4]) && Digits(ds[4..]) && Sound(spelling, ds[..4])
    requires StandsAt(ns, i, Tokens(spelling, ds)) && |ns| == i + |Tokens(spelling, ds)|
    requires Tokens(spelling, ds[4..]) != []
    ensures i <= next && StandsAt(ns, next, Tokens(spelling, ds[4..]))
    ensures |ns| == next + |Tokens(spelling, ds[4..])|
    ensures ReadGroups(ns, next, base) == None ==> ReadGroups(ns, i, lastBase) == None
  {
    hide *;
    FirstSegment(ds);
    SegmentTokensOfZero(spelling, ds[..4]);
    if Value(ds[..4]) == 0 {
      TokensOfNext(spelling, ds);
      return i, lastBase;
    }
    var e := HeadStands(spelling, ns, i, ds);
    RestRefused(ns, i, lastBase, e, Value(ds[..4]));
    return e + 1, ns[e];
  }

  lemma HeadStands(spelling: Spelling, ns: seq<uint64>, i: nat, ds: seq<nat>) returns (e: nat)
    requires Digits(ds) && |ds| > 4 && Segment4(ds[..4]) && Digits(ds[4..]) && Sound(spelling, ds[..4])
    requires StandsAt(ns, i, Tokens(spelling, ds)) && |ns| == i + |Tokens(spelling, ds)| && Value(ds[..4]) > 0
    ensures i <= e < |ns| && ReduceCoefficient(ns, i) == Reduced(true, e, Value(ds[..4]))
    ensures StandsAt(ns, e + 1, Tokens(spelling, ds[4..])) && |ns| == e + 1 + |Tokens(spelling, ds[4..])|
  {
    hide *;
    FirstSegment(ds);
    var g, rank, u := ds[..4], |ds| / 4 - 1, Tokens(spelling, ds[4..]);
    SegmentTokensOfZero(spelling, g);
    TokensOfNext(spelling, ds);
    PartsLength(SegmentTokens(spelling, g), Base(rank), u);
    GroupStands(spelling, ns, i, g, rank, u);
    e := i + |SegmentTokens(spelling, g)|;
  }

  lemma PartsLength(t: seq<uint64>, b: uint64, u: seq<uint64>)
    ensures |t + ([b] + u)| == |t| + 1 + |u|
  {}

  lemma HeadRefused(spelling: Spelling, ns: seq<uint64>, i: nat, ds: seq<nat>, lastBase: nat)
    requires Digits(ds) && |ds| >= 4 && Segment4(ds[..4]) && Digits(ds[4..])
    requires ds[..4][0] == 0 && !Sound(spelling, ds[..4]) && StandsAt(ns, i, Tokens(spelling, ds))
    ensures i <= |ns| && ReadGroups(ns, i, lastBase) == None
  {
    hide *;
    FirstSegment(ds);
    var g, rank := ds[..4], |ds| / 4 - 1;
    TokensOfNext(spelling, ds);
    SegmentTokensOfZero(spelling, g);
    if Value(g) == 0 {
      ZeroIsSound(spelling, g);
    }
    if rank > 0 {
      StandsInParts(ns, i, SegmentTokens(spelling, g), [Base(rank)] + Tokens(spelling, ds[4..]));
    }
    UnsoundSegmentFails(spelling, ns, i, g);
    GroupRefused(ns, i, lastBase);
  }

  lemma RestIsThere(spelling: Spelling, ds: seq<nat>)
    requires Digits(ds) && !AllSound(spelling, ds)
    ensures ds != [] && Tokens(spelling, ds) != []
  {
    DigitsAreSound(spelling, ds);
    if Tokens(spelling, ds) == [] {
      NoTokensAreDigits();
    }
  }

  lemma NoTokensAreDigits()
    ensures AllDigits([])
  {}

  // ---- What the tokens of a number mean ----

  // The reader takes the tokens of a number for that number, or refuses them if a group is unsound.
  lemma TokensMean(spelling: Spelling, ds: seq<nat>)
    requires Digits(ds) && Value(ds) > 0 && (spelling.IsOld() ==> AllWritten(ds))
    ensures Meaning(Tokens(spelling, ds)) == if AllSound(spelling, ds) then Some(Value(ds)) else None
  {
    ModernIsSound(spelling, ds);
    hide Tokens, Value, ReadGroups, Total, AllSound, AllWritten, Digits, Meaning, AllDigits, Reads;
    var ns := Tokens(spelling, ds);
    TokensOfZero(spelling, ds);
    DigitsAreSound(spelling, ds);
    MeaningCases(ns);
    if AllDigits(ns) {
      TokensOfDigits(spelling, ds);
    } else {
      WholeStands(ns);
      BaseBelowMax(ds);
      if AllSound(spelling, ds) {
        GroupsRead(spelling, ns, 0, ds, MAX);
      } else {
        GroupsRefused(spelling, ns, 0, ds, MAX);
      }
    }
  }

  lemma MeaningCases(ns: seq<uint64>)
    ensures ns != [] && AllDigits(ns) ==> Meaning(ns) == Some(Value(ns))
    ensures ns != [] && !AllDigits(ns) && ReadGroups(ns, 0, MAX) == None ==> Meaning(ns) == None
    ensures forall n: nat | ns != [] && !AllDigits(ns) && Reads(ns, 0, MAX, n) :: Meaning(ns) == Some(n)
  {
    hide Value, ReadGroups, Total, AllDigits;
  }

  lemma WholeStands(ns: seq<uint64>)
    ensures StandsAt(ns, 0, ns)
  {
    assert ns[0..|ns|] == ns;
  }

  lemma BaseBelowMax(ds: seq<nat>)
    requires Digits(ds) && Value(ds) > 0
    ensures ds != [] && 1 <= |ds| / 4 <= 5 && Base(|ds| / 4 - 1) < MAX
  {
    NothingIsZero();
    FirstSegment(ds);
    hide Value;
  }

  lemma {:induction false} ModernIsSound(spelling: Spelling, ds: seq<nat>)
    requires Digits(ds)
    ensures !spelling.IsOld() ==> AllSound(spelling, ds)
    decreases |ds|
  {
    if ds != [] {
      ModernIsSound(spelling, ds[4..]);
    }
  }

  lemma FirstOfSegment(spelling: Spelling, ds: seq<nat>)
    requires Segment4(ds)
    ensures var t := SegmentTokens(spelling, ds); t != [] ==> t[0] > 0
  {}

  lemma {:induction false} FirstToken(spelling: Spelling, ds: seq<nat>)
    requires Digits(ds) && Tokens(spelling, ds) != []
    ensures Tokens(spelling, ds)[0] > 0
    decreases |ds|
  {
    assert ds != [];
    FirstSegment(ds);
    hide Tokens, Base, SegmentTokens, Digits, Segment4;
    TokensOfNext(spelling, ds);
    FirstOfSegment(spelling, ds[..4]);
    if SegmentTokens(spelling, ds[..4]) == [] {
      FirstToken(spelling, ds[4..]);
    }
  }

  lemma {:induction false} OldSoundAlike(spelling: Spelling, ds: seq<nat>)
    requires Digits(ds) && spelling.IsOld()
    ensures AllSound(spelling, ds) <==> AllSound(Old, ds)
    decreases |ds|
  {
    if ds != [] {
      OldSoundAlike(spelling, ds[4..]);
    }
  }

  lemma {:induction false} ValueBelowPower(ds: seq<nat>)
    requires forall i | 0 <= i < |ds| :: ds[i] < 10
    ensures Value(ds) < Power10(|ds|)
  {
    if ds != [] {
      ValueBelowPower(ds[..|ds| - 1]);
    }
  }

  // What the old style writes with known characters is below 2^64, whatever its ranks.
  lemma WrittenFits(ds: seq<nat>)
    requires Digits(ds) && AllWritten(ds)
    ensures Value(ds) < LIMIT
  {
    ValueBelowPower(ds);
    if |ds| == 20 {
      ValueOfSegments(ds);
      ValueOfSegment(ds[..4]);
      ValueBelowPower(ds[4..]);
      PowersOfTen();
      assert Base(4) == 1_0000_0000_0000_0000;
      hide Value, Power10, Base;
      assert Value(ds[..4]) <= 999;
    } else {
      hide Value;
      PowersOfTen();
    }
  }

  lemma PowersOfTen()
    ensures Power10(0) == 1 && Power10(4) == 1_0000 && Power10(8) == 1_0000_0000
    ensures Power10(12) == 1_0000_0000_0000 && Power10(16) == 1_0000_0000_0000_0000
  {
    assert Power10(4) == 1_0000;
    assert Power10(8) == 1_0000_0000;
    assert Power10(12) == 1_0000_0000_0000;
    assert Power10(16) == 1_0000_0000_0000_0000;
  }
}
