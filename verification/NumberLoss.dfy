/**
 Which numbers an accepted sequence counts (src/base/number_util.cc). The reader can accept a
 sequence and yet lose numbers at its end: exactly where a run of digits does not fit its place.
 */
module NumberLoss {
  import opened Wrappers
  import opened NumberParser

  // ---- One place ----

  // The number at k belongs to what the place of this base reads from i on.
  predicate ReadAt(ns: seq<uint64>, i: nat, base: nat, k: nat)
    requires i <= |ns| && base in {10, 100, 1000}
  {
    ReduceDigits(ns, i, base).ok && SkipZeros(ns, i) <= k < ReduceDigits(ns, i, base).begin
  }

  // The place sends the cursor to the end.
  predicate ForcedAt(ns: seq<uint64>, i: nat, base: nat)
    requires i <= |ns|
  {
    ForcedToEnd(ns, SkipZeros(ns, i), base)
  }

  lemma {:induction false} SkippedAreZeros(ns: seq<uint64>, i: nat)
    requires i <= |ns|
    ensures forall k | i <= k < SkipZeros(ns, i) :: ns[k] == 0
    decreases |ns| - i
  {
    if i < |ns| && ns[i] == 0 {
      SkippedAreZeros(ns, i + 1);
    }
  }

  // Of the numbers a place passes, it reads all but zeros, or it is forced to the end and reads none.
  lemma PlaceCounts(ns: seq<uint64>, i: nat, base: nat)
    requires i <= |ns| && base in {10, 100, 1000}
    ensures var r := ReduceDigits(ns, i, base);
      if ForcedAt(ns, i, base) then r == Reduced(false, |ns|, 0) && SkipZeros(ns, i) < |ns| && ns[SkipZeros(ns, i)] > 0
      else forall k | i <= k < r.begin && ns[k] > 0 :: ReadAt(ns, i, base, k)
  {
    SkippedAreZeros(ns, i);
    if !ReduceDigits(ns, i, base).ok {
      FailedStepKeepsTail(ns, i, base);
    }
  }

  // ---- One coefficient ----

  // The number at k belongs to one of the four places read.
  predicate InPlace(ns: seq<uint64>, i: nat, k: nat)
    requires i <= |ns|
  {
    var t := ReduceDigits(ns, i, 1000).begin;
    var h := ReduceDigits(ns, t, 100).begin;
    var d := ReduceDigits(ns, h, 10).begin;
    ReadAt(ns, i, 1000, k) || ReadAt(ns, t, 100, k) || ReadAt(ns, h, 10, k) || (ReduceOnes(ns, d).ok && k == d)
  }

  // One of its three steps sends the cursor to the end.
  predicate Forced(ns: seq<uint64>, i: nat)
    requires i <= |ns|
  {
    var t := ReduceDigits(ns, i, 1000).begin;
    var h := ReduceDigits(ns, t, 100).begin;
    ForcedAt(ns, i, 1000) || ForcedAt(ns, t, 100) || ForcedAt(ns, h, 10)
  }

  // Where the first forced step stands; the end of the coefficient if there is none.
  function LostFromPlace(ns: seq<uint64>, i: nat): nat
    requires i <= |ns|
  {
    var t := ReduceDigits(ns, i, 1000).begin;
    var h := ReduceDigits(ns, t, 100).begin;
    if ForcedAt(ns, i, 1000) then SkipZeros(ns, i)
    else if ForcedAt(ns, t, 100) then SkipZeros(ns, t)
    else if ForcedAt(ns, h, 10) then SkipZeros(ns, h)
    else ReduceCoefficient(ns, i).begin
  }

  lemma EndReadsNothing(ns: seq<uint64>)
    ensures forall base, k | base in {10, 100, 1000} :: !ReadAt(ns, |ns|, base, k)
    ensures forall base | base in {10, 100, 1000} :: ReduceDigits(ns, |ns|, base) == Reduced(false, |ns|, 0)
    ensures ReduceOnes(ns, |ns|) == Reduced(false, |ns|, 0) && Closed(ns, |ns|)
    ensures !ForcedAt(ns, |ns|, 10) && !ForcedAt(ns, |ns|, 100)
  {}

  // Zeros apart, a coefficient counts exactly the numbers before its first forced step: all it
  // passes, if there is none.
  lemma CoefficientCounts(ns: seq<uint64>, i: nat)
    requires i <= |ns|
    ensures var begin, lost := ReduceCoefficient(ns, i).begin, LostFromPlace(ns, i);
      && i <= lost <= begin
      && (forall k | i <= k < begin && ns[k] > 0 :: InPlace(ns, i, k) <==> k < lost)
      && (lost < begin <==> Forced(ns, i)) && (lost < begin ==> ns[lost] > 0 && begin == |ns|)
  {
    hide ReduceDigits, SkipZeros, ForcedToEnd;
    var t := ReduceDigits(ns, i, 1000).begin;
    var h := ReduceDigits(ns, t, 100).begin;
    PlaceCounts(ns, i, 1000);
    PlaceCounts(ns, t, 100);
    PlaceCounts(ns, h, 10);
    SkippedAreZeros(ns, i);
    SkippedAreZeros(ns, t);
    SkippedAreZeros(ns, h);
    EndReadsNothing(ns);
  }

  // An accepted coefficient counts every number it passes but zeros if and only if none of its
  // steps is forced to the end.
  lemma CoefficientLosesIfForced(ns: seq<uint64>, i: nat)
    requires i <= |ns| && ReduceCoefficient(ns, i).ok
    ensures (forall k | i <= k < ReduceCoefficient(ns, i).begin && ns[k] > 0 :: InPlace(ns, i, k)) <==> !Forced(ns, i)
  {
    hide *;
    CoefficientCounts(ns, i);
  }

  // ---- The whole number ----

  // The number at k is in a place of a coefficient read from i on, or is one of their ranks.
  predicate Counted(ns: seq<uint64>, i: nat, k: nat)
    requires i <= |ns|
    decreases |ns| - i
  {
    var c := ReduceCoefficient(ns, i);
    c.ok && (InPlace(ns, i, k)
             || (c.begin < |ns| && (k == c.begin || (c.begin + 1 < |ns| && Counted(ns, c.begin + 1, k)))))
  }

  // A step of one of the coefficients read from i on sends the cursor to the end.
  predicate AnyForced(ns: seq<uint64>, i: nat)
    requires i <= |ns|
    decreases |ns| - i
  {
    var c := ReduceCoefficient(ns, i);
    Forced(ns, i) || (c.ok && c.begin + 1 < |ns| && AnyForced(ns, c.begin + 1))
  }

  // Where the first forced step from i on stands; the end if there is none.
  function LostFrom(ns: seq<uint64>, i: nat): nat
    requires i <= |ns|
    decreases |ns| - i
  {
    var c := ReduceCoefficient(ns, i);
    if Forced(ns, i) then LostFromPlace(ns, i)
    else if c.ok && c.begin + 1 < |ns| then LostFrom(ns, c.begin + 1)
    else |ns|
  }

  // Nothing outside what a coefficient passes is in its places.
  lemma InPlaceIsPassed(ns: seq<uint64>, i: nat, k: nat)
    requires i <= |ns| && InPlace(ns, i, k)
    ensures i <= k < ReduceCoefficient(ns, i).begin
  {
    hide ReduceDigits, SkipZeros;
  }

  lemma {:induction false} CountedIsLater(ns: seq<uint64>, i: nat, k: nat)
    requires i <= |ns| && Counted(ns, i, k)
    ensures i <= k < |ns|
    decreases |ns| - i
  {
    hide ReduceCoefficient, InPlace;
    var c := ReduceCoefficient(ns, i);
    if InPlace(ns, i, k) {
      InPlaceIsPassed(ns, i, k);
    } else if k != c.begin {
      CountedIsLater(ns, c.begin + 1, k);
    }
  }

  // What is counted before, at and behind the end of a coefficient.
  lemma CountedInParts(ns: seq<uint64>, i: nat, k: nat)
    requires i <= k < |ns| && ReduceCoefficient(ns, i).ok
    ensures var e := ReduceCoefficient(ns, i).begin;
      Counted(ns, i, k) <==>
        if k < e then InPlace(ns, i, k) else k == e || (e + 1 < |ns| && Counted(ns, e + 1, k))
  {
    hide ReduceCoefficient, InPlace;
    var e := ReduceCoefficient(ns, i).begin;
    if InPlace(ns, i, k) {
      InPlaceIsPassed(ns, i, k);
    }
    if e + 1 < |ns| && Counted(ns, e + 1, k) {
      CountedIsLater(ns, e + 1, k);
    }
  }

  lemma LostInParts(ns: seq<uint64>, i: nat)
    requires i <= |ns| && ReduceCoefficient(ns, i).ok
    ensures var e := ReduceCoefficient(ns, i).begin;
      && (Forced(ns, i) ==> LostFrom(ns, i) == LostFromPlace(ns, i) && AnyForced(ns, i))
      && (!Forced(ns, i) && e + 1 < |ns| ==>
            LostFrom(ns, i) == LostFrom(ns, e + 1) && AnyForced(ns, i) == AnyForced(ns, e + 1))
      && (!Forced(ns, i) && e + 1 >= |ns| ==> LostFrom(ns, i) == |ns| && !AnyForced(ns, i))
  {
    hide ReduceCoefficient, Forced, LostFromPlace;
  }

  lemma GroupsInParts(ns: seq<uint64>, i: nat, lastBase: nat)
    requires i <= |ns| && ReadGroups(ns, i, lastBase).Some?
    ensures var c := ReduceCoefficient(ns, i);
      c.ok && (c.begin + 1 < |ns| ==> ReadGroups(ns, c.begin + 1, ns[c.begin]).Some?)
  {
    hide ReduceCoefficient;
  }

  // Zeros apart, a sequence whose groups are read counts exactly the numbers before its first
  // forced step, and all if there is none.
  lemma {:induction false} GroupsCount(ns: seq<uint64>, i: nat, lastBase: nat)
    requires i <= |ns| && ReadGroups(ns, i, lastBase).Some?
    ensures i <= LostFrom(ns, i) <= |ns|
    ensures forall k | i <= k < |ns| && ns[k] > 0 :: Counted(ns, i, k) <==> k < LostFrom(ns, i)
    ensures LostFrom(ns, i) < |ns| <==> AnyForced(ns, i)
    ensures LostFrom(ns, i) < |ns| ==> ns[LostFrom(ns, i)] > 0
    decreases |ns| - i
  {
    hide *;
    GroupsInParts(ns, i, lastBase);
    CoefficientCounts(ns, i);
    LostInParts(ns, i);
    var e := ReduceCoefficient(ns, i).begin;
    if e + 1 < |ns| {
      GroupsCount(ns, e + 1, ns[e]);
    }
    forall k | i <= k < |ns| && ns[k] > 0 ensures Counted(ns, i, k) <==> k < LostFrom(ns, i) {
      CountedInParts(ns, i, k);
    }
  }

  // The number at k has a share in what the sequence means: all digits have, where there is nothing
  // else.
  predicate Matters(ns: seq<uint64>, k: nat) {
    AllDigits(ns) || Counted(ns, 0, k)
  }

  // A run of digits that does not fit its place stands where it sends the reader to the end.
  predicate LosesNumbers(ns: seq<uint64>) {
    !AllDigits(ns) && AnyForced(ns, 0)
  }

  // An accepted sequence counts every number in it but zeros if and only if none of its steps is
  // forced to the end; and what it loses then is all that stands from there on.
  lemma AcceptedCountsAll(ns: seq<uint64>)
    requires Meaning(ns).Some?
    ensures (forall k | 0 <= k < |ns| && ns[k] > 0 :: Matters(ns, k)) <==> !LosesNumbers(ns)
    ensures LosesNumbers(ns) ==> LostFrom(ns, 0) < |ns| && ns[LostFrom(ns, 0)] > 0
    ensures LosesNumbers(ns) ==> forall k | 0 <= k < |ns| && ns[k] > 0 :: Matters(ns, k) <==> k < LostFrom(ns, 0)
  {
    hide ReadGroups, Counted, AnyForced, LostFrom;
    if !AllDigits(ns) {
      GroupsCount(ns, 0, MAX);
    }
  }

  // The same of a text that is accepted.
  lemma NormalizedCountsAll(input: string, trimLeadingZeros: bool)
    requires Normal(input, trimLeadingZeros).Some?
    ensures var ns := Numbers(input);
      (forall k | 0 <= k < |ns| && ns[k] > 0 :: Matters(ns, k)) <==> !LosesNumbers(ns)
  {
    hide Meaning, Matters, LosesNumbers;
    AcceptedCountsAll(Numbers(input));
  }

  // ---- What is lost makes no difference ----

  lemma {:induction false} SkipZerosOfPrefix(ns: seq<uint64>, n: nat, i: nat)
    requires i <= n <= |ns|
    ensures SkipZeros(ns[..n], i) == if SkipZeros(ns, i) < n then SkipZeros(ns, i) else n
    decreases n - i
  {
    if i < n && ns[i] == 0 {
      SkipZerosOfPrefix(ns, n, i + 1);
    }
  }

  lemma {:induction false} DigitRunOfPrefix(ns: seq<uint64>, n: nat, i: nat)
    requires i <= n <= |ns| && DigitRun(ns, i) < n
    ensures DigitRun(ns[..n], i) == DigitRun(ns, i)
    decreases n - i
  {
    if i < n && ns[i] < 10 {
      DigitRunOfPrefix(ns, n, i + 1);
    }
  }

  // A place that is read and leaves a number below ten thousand next has ended with a rank.
  lemma RankedPlace(ns: seq<uint64>, i: nat, base: nat)
    requires i <= |ns| && base in {10, 100, 1000}
    requires ReduceDigits(ns, i, base).ok && !Closed(ns, ReduceDigits(ns, i, base).begin)
    ensures var j, e := SkipZeros(ns, i), ReduceDigits(ns, i, base).begin;
      j < |ns| && e == (if ns[j] < 10 then j + 2 else j + 1) && e <= |ns| && ns[e - 1] >= 10
  {
    hide Value, DigitRun;
  }

  lemma RankedPlaceOfPrefix(ns: seq<uint64>, n: nat, i: nat, base: nat)
    requires i <= n <= |ns| && base in {10, 100, 1000}
    requires ReduceDigits(ns, i, base).ok && !Closed(ns, ReduceDigits(ns, i, base).begin)
    requires ReduceDigits(ns, i, base).begin <= n
    ensures ReduceDigits(ns[..n], i, base) == ReduceDigits(ns, i, base)
  {
    hide Value, DigitRun, SkipZeros;
    SkipZerosOfPrefix(ns, n, i);
  }

  // A place that reads nothing and is not forced has seen no run of digits.
  lemma UnforcedFailure(ns: seq<uint64>, i: nat, base: nat)
    requires i <= |ns| && base in {10, 100, 1000}
    requires !ReduceDigits(ns, i, base).ok && !ForcedAt(ns, i, base)
    ensures var j := SkipZeros(ns, i);
      ReduceDigits(ns, i, base) == Reduced(false, j, 0) && !(j + 1 < |ns| && 0 < ns[j] < 10 && ns[j + 1] < 10)
  {
    hide Value, DigitRun, SkipZeros;
  }

  lemma FailedPlaceOfPrefix(ns: seq<uint64>, n: nat, i: nat, base: nat)
    requires i <= n <= |ns| && base in {10, 100, 1000}
    requires !ReduceDigits(ns, i, base).ok && !ForcedAt(ns, i, base)
    requires var j := SkipZeros(ns, i); j < n && (ns[j] < 10 ==> j + 1 < n)
    ensures ReduceDigits(ns[..n], i, base) == ReduceDigits(ns, i, base)
  {
    UnforcedFailure(ns, i, base);
    hide Value, DigitRun, SkipZeros, ForcedAt, ForcedToEnd;
    SkipZerosOfPrefix(ns, n, i);
  }

  // Before a rank of ten thousand or more at e a place sees nothing behind e.
  lemma PlaceOfPrefix(ns: seq<uint64>, n: nat, i: nat, base: nat, e: nat)
    requires i <= e < n <= |ns| && ns[e] >= 10000 && base in {10, 100, 1000} && !ForcedAt(ns, i, base)
    ensures ReduceDigits(ns[..n], i, base) == ReduceDigits(ns, i, base) && ReduceDigits(ns, i, base).begin <= e
  {
    SkipZerosStops(ns, i, e);
    DigitRunStops(ns, SkipZeros(ns, i), e);
    DigitRunOfPrefix(ns, n, SkipZeros(ns, i));
    SkipZerosOfPrefix(ns, n, i);
    hide Value, DigitRun, SkipZeros;
    var j := SkipZeros(ns, i);
    assert ns[..n][j..DigitRun(ns, j)] == ns[j..DigitRun(ns, j)];
  }

  lemma {:induction false} SkipZerosStops(ns: seq<uint64>, i: nat, e: nat)
    requires i <= e < |ns| && ns[e] > 0
    ensures SkipZeros(ns, i) <= e
    decreases e - i
  {
    if i < e && ns[i] == 0 {
      SkipZerosStops(ns, i + 1, e);
    }
  }

  lemma {:induction false} DigitRunStops(ns: seq<uint64>, i: nat, e: nat)
    requires i <= e < |ns| && ns[e] >= 10
    ensures DigitRun(ns, i) <= e
    decreases e - i
  {
    if i < e && ns[i] < 10 {
      DigitRunStops(ns, i + 1, e);
    }
  }

  // A coefficient with a rank behind it is read alike from any prefix that holds the rank.
  lemma CoefficientOfPrefix(ns: seq<uint64>, n: nat, i: nat)
    requires i <= n <= |ns| && ReduceCoefficient(ns, i).ok && !Forced(ns, i) && ReduceCoefficient(ns, i).begin < n
    ensures ReduceCoefficient(ns[..n], i) == ReduceCoefficient(ns, i)
  {
    hide ReduceDigits, ForcedAt;
    var e := ReduceCoefficient(ns, i).begin;
    var t := ReduceDigits(ns, i, 1000).begin;
    var h := ReduceDigits(ns, t, 100).begin;
    PlaceOfPrefix(ns, n, i, 1000, e);
    PlaceOfPrefix(ns, n, t, 100, e);
    PlaceOfPrefix(ns, n, h, 10, e);
  }

  lemma ZerosReadNothing(ns: seq<uint64>, i: nat, base: nat)
    requires i <= |ns| && SkipZeros(ns, i) == |ns| && base in {10, 100, 1000}
    ensures ReduceDigits(ns, i, base) == Reduced(false, |ns|, 0)
  {}

  lemma {:induction false} SkipZerosTwice(ns: seq<uint64>, i: nat)
    requires i <= |ns|
    ensures SkipZeros(ns, SkipZeros(ns, i)) == SkipZeros(ns, i)
    decreases |ns| - i
  {
    if i < |ns| && ns[i] == 0 {
      SkipZerosTwice(ns, i + 1);
    }
  }

  lemma ClosedIsNotForced(ns: seq<uint64>, i: nat, base: nat)
    requires i <= |ns| && Closed(ns, i)
    ensures !ForcedAt(ns, i, base)
  {}

  // The first three places of a coefficient, and those of the prefix before a forced step.
  lemma ForcedHundreds(ns: seq<uint64>, i: nat, t: Reduced, n: nat)
    requires i <= |ns| && ReduceCoefficient(ns, i).ok && t == ReduceDigits(ns, i, 1000)
    requires !ForcedAt(ns, i, 1000) && ForcedAt(ns, t.begin, 100) && n == SkipZeros(ns, t.begin)
    ensures ReduceCoefficient(ns, i) == Reduced(true, |ns|, t.num) && i < n
    ensures ReduceCoefficient(ns[..n], i) == Reduced(true, n, t.num) && !AllDigits(ns[..n])
  {
    hide ReduceDigits, ForcedAt, SkipZeros, Closed;
    PlaceCounts(ns, t.begin, 100);
    EndReadsNothing(ns);
    if Closed(ns, t.begin) {
      ClosedIsNotForced(ns, t.begin, 100);
    }
    assert t.ok;
    RankedPlace(ns, i, 1000);
    RankedPlaceOfPrefix(ns, n, i, 1000);
    SkipZerosOfPrefix(ns, n, t.begin);
    ZerosReadNothing(ns[..n], t.begin, 100);
    EndReadsNothing(ns[..n]);
    assert ns[..n][t.begin - 1] >= 10;
  }

  // Before a forced step of the tens the hundreds have been read, up to a rank.
  lemma TensFollowHundreds(ns: seq<uint64>, b: nat, h: Reduced)
    requires b <= |ns| && h == ReduceDigits(ns, b, 100) && !ForcedAt(ns, b, 100) && ForcedAt(ns, h.begin, 10)
    ensures h.ok && !Closed(ns, h.begin)
  {
    SkipZerosTwice(ns, b);
    if !h.ok {
      UnforcedFailure(ns, b, 100);
    }
    if Closed(ns, h.begin) {
      ClosedIsNotForced(ns, h.begin, 10);
    }
    hide ReduceDigits, SkipZeros, Value, DigitRun;
  }

  lemma ThousandsOfPrefix(ns: seq<uint64>, n: nat, i: nat, t: Reduced, h: Reduced)
    requires i <= n <= |ns| && t == ReduceDigits(ns, i, 1000) && !ForcedAt(ns, i, 1000)
    requires h == ReduceDigits(ns, t.begin, 100) && h.ok && !Closed(ns, h.begin) && h.begin <= n
    ensures ReduceDigits(ns[..n], i, 1000) == t
  {
    hide ReduceDigits, ForcedAt, SkipZeros, Closed;
    RankedPlace(ns, t.begin, 100);
    if t.ok {
      if Closed(ns, t.begin) {
        ClosedReadsNothing(ns, t.begin);
      }
      RankedPlaceOfPrefix(ns, n, i, 1000);
    } else {
      UnforcedFailure(ns, i, 1000);
      SkipZerosTwice(ns, i);
      FailedPlaceOfPrefix(ns, n, i, 1000);
    }
  }

  lemma ForcedTens(ns: seq<uint64>, i: nat, t: Reduced, h: Reduced, n: nat)
    requires i <= |ns| && ReduceCoefficient(ns, i).ok
    requires t == ReduceDigits(ns, i, 1000) && h == ReduceDigits(ns, t.begin, 100)
    requires !ForcedAt(ns, i, 1000) && !ForcedAt(ns, t.begin, 100) && ForcedAt(ns, h.begin, 10)
    requires n == SkipZeros(ns, h.begin)
    ensures ReduceCoefficient(ns, i) == Reduced(true, |ns|, Read(t) + h.num) && i < n
    ensures ReduceCoefficient(ns[..n], i) == Reduced(true, n, Read(t) + h.num) && !AllDigits(ns[..n])
  {
    hide ReduceDigits, ForcedAt, SkipZeros;
    PlaceCounts(ns, h.begin, 10);
    EndReadsNothing(ns);
    TensFollowHundreds(ns, t.begin, h);
    ThousandsOfPrefix(ns, n, i, t, h);
    RankedPlace(ns, t.begin, 100);
    RankedPlaceOfPrefix(ns, n, t.begin, 100);
    SkipZerosOfPrefix(ns, n, h.begin);
    ZerosReadNothing(ns[..n], h.begin, 10);
    EndReadsNothing(ns[..n]);
    assert ns[..n][h.begin - 1] >= 10;
  }

  // A coefficient that is forced to the end is read alike from the prefix that ends there; and that
  // has a rank in it.
  lemma ForcedCoefficientOfPrefix(ns: seq<uint64>, i: nat)
    requires i <= |ns| && ReduceCoefficient(ns, i).ok && Forced(ns, i)
    ensures var n := LostFromPlace(ns, i);
      && i < n <= |ns| && ReduceCoefficient(ns, i).begin == |ns|
      && ReduceCoefficient(ns[..n], i) == ReduceCoefficient(ns, i).(begin := n)
      && !AllDigits(ns[..n])
  {
    CoefficientCounts(ns, i);
    var t := ReduceDigits(ns, i, 1000);
    var h := ReduceDigits(ns, t.begin, 100);
    PlaceCounts(ns, i, 1000);
    EndReadsNothing(ns);
    hide ReduceDigits, ForcedAt, SkipZeros;
    if ForcedAt(ns, t.begin, 100) {
      ForcedHundreds(ns, i, t, SkipZeros(ns, t.begin));
    } else {
      ForcedTens(ns, i, t, h, SkipZeros(ns, h.begin));
    }
  }

  lemma GroupsOfLast(ns: seq<uint64>, i: nat, lastBase: nat)
    requires i <= |ns| && ReduceCoefficient(ns, i).ok && ReduceCoefficient(ns, i).begin == |ns|
    ensures ReadGroups(ns, i, lastBase) == Some([Group(ReduceCoefficient(ns, i).num, 1)])
  {
    hide ReduceCoefficient;
  }

  lemma GroupsOfPrefixStep(ns: seq<uint64>, n: nat, i: nat, lastBase: nat)
    requires i <= n <= |ns| && ReduceCoefficient(ns, i).ok && ReduceCoefficient(ns, i).begin + 1 < n
    requires ReduceCoefficient(ns[..n], i) == ReduceCoefficient(ns, i)
    requires var e := ReduceCoefficient(ns, i).begin; ReadGroups(ns[..n], e + 1, ns[e]) == ReadGroups(ns, e + 1, ns[e])
    ensures ReadGroups(ns[..n], i, lastBase) == ReadGroups(ns, i, lastBase)
  {
    hide ReduceCoefficient;
  }

  lemma {:induction false} GroupsOfPrefix(ns: seq<uint64>, i: nat, lastBase: nat)
    requires i <= |ns| && ReadGroups(ns, i, lastBase).Some? && AnyForced(ns, i)
    ensures var n := LostFrom(ns, i);
      i < n <= |ns| && ReadGroups(ns[..n], i, lastBase) == ReadGroups(ns, i, lastBase) && !AllDigits(ns[..n])
    decreases |ns| - i
  {
    hide *;
    GroupsInParts(ns, i, lastBase);
    LostInParts(ns, i);
    var e, n := ReduceCoefficient(ns, i).begin, LostFrom(ns, i);
    if Forced(ns, i) {
      ForcedCoefficientOfPrefix(ns, i);
      GroupsOfLast(ns, i, lastBase);
      GroupsOfLast(ns[..n], i, lastBase);
    } else {
      GroupsOfPrefix(ns, e + 1, ns[e]);
      CoefficientOfPrefix(ns, n, i);
      GroupsOfPrefixStep(ns, n, i, lastBase);
    }
  }

  // An accepted sequence that loses numbers means what it means without them.
  lemma LostTailIsIgnored(ns: seq<uint64>)
    requires Meaning(ns).Some? && LosesNumbers(ns)
    ensures LostFrom(ns, 0) <= |ns| && Meaning(ns[..LostFrom(ns, 0)]) == Meaning(ns)
  {
    hide ReadGroups, AnyForced, LostFrom, AllDigits, Total;
    GroupsOfPrefix(ns, 0, MAX);
  }

  // Zeros may be passed over in no place, and nothing is lost by it: a thousand, zero, zero.
  lemma ZerosArePassedOver()
    ensures var ns: seq<uint64> := [1000, 0, 0]; Meaning(ns) == Some(1000) && !LosesNumbers(ns) && !Matters(ns, 1)
  {
    var ns: seq<uint64> := [1000, 0, 0];
    assert SkipZeros(ns, 3) == SkipZeros(ns, 2) == SkipZeros(ns, 1) == 3 && SkipZeros(ns, 0) == 0;
    assert ReduceDigits(ns, 0, 1000) == Reduced(true, 1, 1000);
    assert ReduceDigits(ns, 1, 100) == Reduced(false, 3, 0);
    EndReadsNothing(ns);
    assert ReduceCoefficient(ns, 0) == Reduced(true, 3, 1000);
    assert !AllDigits(ns);
  }
}
