/**
 The reader of Japanese numbers (src/base/number_util.cc, from its overflow checks on): a sequence
 of numbers such as [1, 10000, 2, 1000, 3] is read as 12003.

 The functions read with unbounded arithmetic; the methods are the program's, in 64 bits with
 explicit overflow checks and a cursor they advance. Each method is proved to accept exactly when
 its function does with a result that fits, and to return that result.
 */
module NumberParser {
  import opened Decimals
  import opened Wrappers

  const LIMIT: nat := 0x1_0000_0000_0000_0000
  const MAX: nat := LIMIT - 1

  type uint64 = n: nat | n < LIMIT

  // ---- Overflow checks ----

  function AddAndCheckOverflow(a: uint64, b: uint64): (r: (bool, uint64))
    ensures r.0 <==> a + b < LIMIT
    ensures r.0 ==> r.1 == a + b
  {
    (!(b > MAX - a), (a + b) % LIMIT)
  }

  function MultiplyAndCheckOverflow(a: uint64, b: uint64): (r: (bool, uint64))
    ensures r.0 <==> a * b < LIMIT
    ensures r.0 ==> r.1 == a * b
  {
    MultiplyBounds(a, b);
    (!(a != 0 && b > MAX / a), (a * b) % LIMIT)
  }

  lemma MultiplyBounds(a: nat, b: nat)
    ensures a != 0 && b > MAX / a <==> a * b > MAX
  {
    if a != 0 {
      var q := MAX / a;
      assert a * q <= MAX < a * (q + 1);
      if b > q {
        assert a * b >= a * (q + 1);
      } else {
        assert a * b <= a * q;
      }
    }
  }

  // ---- Numbers written digit by digit ----

  // The number whose decimal digits are ds, most significant first.
  function Value(ds: seq<nat>): nat {
    if ds == [] then 0 else Value(ds[..|ds| - 1]) * 10 + ds[|ds| - 1]
  }

  lemma {:induction false} ValueOfPrefix(ds: seq<nat>, n: nat)
    requires n <= |ds|
    ensures Value(ds[..n]) <= Value(ds)
    decreases |ds|
  {
    if n < |ds| {
      ValueOfPrefix(ds[..|ds| - 1], n);
      assert ds[..|ds| - 1][..n] == ds[..n];
    } else {
      assert ds[..n] == ds;
    }
  }

  // Where the run of numbers below ten that starts at i ends.
  function DigitRun(ns: seq<uint64>, i: nat): (e: nat)
    requires i <= |ns|
    ensures i <= e <= |ns|
    ensures forall j | i <= j < e :: ns[j] < 10
    ensures e < |ns| ==> ns[e] >= 10
    decreases |ns| - i
  {
    if i < |ns| && ns[i] < 10 then DigitRun(ns, i + 1) else i
  }

  lemma OneMoreDigit(ns: seq<uint64>, first: nat, i: nat, e: nat)
    requires first <= i < e <= |ns|
    ensures Value(ns[first..i + 1]) == Value(ns[first..i]) * 10 + ns[i]
    ensures Value(ns[first..i + 1]) <= Value(ns[first..e])
  {
    assert ns[first..i + 1][..i - first] == ns[first..i];
    ValueOfPrefix(ns[first..e], i + 1 - first);
    assert ns[first..e][..i + 1 - first] == ns[first..i + 1];
  }

  method ReduceLeadingNumbersAsBase10System(ns: seq<uint64>, first: nat) returns (ok: bool, begin: nat, output: uint64)
    requires first <= |ns|
    ensures first <= begin <= |ns|
    ensures ok <==> Value(ns[first..DigitRun(ns, first)]) < LIMIT
    ensures ok ==> begin == DigitRun(ns, first) && output == Value(ns[first..begin])
  {
    hide MultiplyAndCheckOverflow, AddAndCheckOverflow;
    ghost var e := DigitRun(ns, first);
    begin, output := first, 0;
    while begin < |ns|
      invariant first <= begin <= e
      invariant output == Value(ns[first..begin])
    {
      if ns[begin] >= 10 {
        break;
      }
      // One digit more: both steps stay below the value of the whole run.
      OneMoreDigit(ns, first, begin, e);
      var m := MultiplyAndCheckOverflow(output, 10);
      if !m.0 {
        return false, begin, m.1;
      }
      var s := AddAndCheckOverflow(m.1, ns[begin]);
      if !s.0 {
        return false, begin, s.1;
      }
      output := s.1;
      begin := begin + 1;
    }
    return true, begin, output;
  }

  method InterpretNumbersAsBase10System(ns: seq<uint64>) returns (ok: bool, output: uint64)
    ensures ok <==> DigitRun(ns, 0) == |ns| && Value(ns) < LIMIT
    ensures ok ==> output == Value(ns)
  {
    var success, begin, value := ReduceLeadingNumbersAsBase10System(ns, 0);
    assert ns[0..|ns|] == ns;
    // Nothing but digits has been passed if the cursor is at the end.
    return success && begin == |ns|, value;
  }

  // ---- One coefficient below 10000 ----

  // What a step of the reader leaves: whether it read something, the cursor, and the number read.
  datatype Reduced = Reduced(ok: bool, begin: nat, num: nat)

  function SkipZeros(ns: seq<uint64>, i: nat): (j: nat)
    requires i <= |ns|
    ensures i <= j <= |ns| && (j < |ns| ==> ns[j] != 0)
    decreases |ns| - i
  {
    if i < |ns| && ns[i] == 0 then SkipZeros(ns, i + 1) else i
  }

  // Nothing follows, or a rank of 10000 or more.
  predicate Closed(ns: seq<uint64>, i: nat) {
    i >= |ns| || ns[i] >= 10000
  }

  // The run of digits at the cursor does not fit the place: the guard that ends the reading.
  predicate ForcedToEnd(ns: seq<uint64>, j: nat, base: nat)
    requires j <= |ns|
  {
    j + 1 < |ns| && 0 < ns[j] < 10 && ns[j + 1] < 10 &&
    var e := DigitRun(ns, j);
    Value(ns[j..e]) >= base * 10 || !Closed(ns, e)
  }

  function ReduceDigits(ns: seq<uint64>, i: nat, base: nat): (r: Reduced)
    requires i <= |ns| && base in {10, 100, 1000}
    ensures i <= r.begin <= |ns|
    ensures r.ok ==> i < r.begin
  {
    var j := SkipZeros(ns, i);
    if j == |ns| then Reduced(false, j, 0)
    else if ns[j] < 10 then
      if |ns| - j < 2 then Reduced(false, j, 0)
      else if ns[j + 1] < 10 then
        if ForcedToEnd(ns, j, base) then Reduced(false, |ns|, 0)
        else var e := DigitRun(ns, j); Reduced(true, e, Value(ns[j..e]))
      else if ns[j + 1] != base || (ns[j] == 1 && base != 1000) then Reduced(false, j, 0)
      else Reduced(true, j + 2, ns[j] * base)
    else if ns[j] == base || (base == 10 && ns[j] == 20) then Reduced(true, j + 1, ns[j])
    else Reduced(false, j, 0)
  }

  function ReduceOnes(ns: seq<uint64>, i: nat): (r: Reduced)
    requires i <= |ns|
    ensures i <= r.begin <= |ns| && (r.ok ==> i < r.begin && r.num < 10)
  {
    if i == |ns| || ns[i] >= 10 then Reduced(false, i, 0) else Reduced(true, i + 1, ns[i])
  }

  function Read(r: Reduced): nat {
    if r.ok then r.num else 0
  }

  function ReduceCoefficient(ns: seq<uint64>, i: nat): (r: Reduced)
    requires i <= |ns|
    ensures i <= r.begin <= |ns|
    ensures r.ok ==> i < r.begin && Closed(ns, r.begin)
  {
    var t := ReduceDigits(ns, i, 1000);
    var h := ReduceDigits(ns, t.begin, 100);
    var d := ReduceDigits(ns, h.begin, 10);
    var o := ReduceOnes(ns, d.begin);
    Reduced((t.ok || h.ok || d.ok || o.ok) && Closed(ns, o.begin), o.begin, Read(t) + Read(h) + Read(d) + Read(o))
  }

  // What a place can hold: at most nine times its base, or a run of digits that closes the coefficient.
  lemma PlaceBound(ns: seq<uint64>, i: nat, base: nat)
    requires i <= |ns| && base in {10, 100, 1000}
    ensures var r := ReduceDigits(ns, i, base);
      r.ok ==> r.num <= 9 * base || (r.num < 10 * base && Closed(ns, r.begin))
  {
    var j := SkipZeros(ns, i);
    if j + 1 < |ns| && ns[j] < 10 && ns[j + 1] == base {
      assert ns[j] * base <= 9 * base;
    }
  }

  lemma ClosedReadsNothing(ns: seq<uint64>, i: nat)
    requires i <= |ns| && Closed(ns, i)
    ensures forall base | base in {10, 100, 1000} :: ReduceDigits(ns, i, base) == Reduced(false, i, 0)
    ensures ReduceOnes(ns, i) == Reduced(false, i, 0)
  {}

  // The additions of the four places never reach 10000, whatever the numbers.
  lemma CoefficientBound(ns: seq<uint64>, i: nat)
    requires i <= |ns|
    ensures ReduceCoefficient(ns, i).num < 10000
  {
    var t := ReduceDigits(ns, i, 1000);
    var h := ReduceDigits(ns, t.begin, 100);
    var d := ReduceDigits(ns, h.begin, 10);
    PlaceBound(ns, i, 1000);
    PlaceBound(ns, t.begin, 100);
    PlaceBound(ns, h.begin, 10);
    if Closed(ns, t.begin) { ClosedReadsNothing(ns, t.begin); }
    if Closed(ns, h.begin) { ClosedReadsNothing(ns, h.begin); }
    if Closed(ns, d.begin) { ClosedReadsNothing(ns, d.begin); }
  }

  // ReduceDigitsHelper. On failure num is whatever it was.
  method ReduceDigitsHelper(ns: seq<uint64>, first: nat, base: uint64, was: uint64)
      returns (ok: bool, begin: nat, num: uint64)
    requires first <= |ns| && base in {10, 100, 1000}
    ensures (ok, begin) == (ReduceDigits(ns, first, base).ok, ReduceDigits(ns, first, base).begin)
    ensures ok ==> num == ReduceDigits(ns, first, base).num
  {
    begin, num := first, was;
    // The loop computes SkipZeros.
    while begin != |ns| && ns[begin] == 0
      invariant first <= begin <= |ns| && SkipZeros(ns, first) == SkipZeros(ns, begin)
    {
      begin := begin + 1;
    }
    if begin == |ns| {
      return false, begin, num;
    }
    var leadingNumber := ns[begin];
    if leadingNumber < 10 {
      if |ns| - begin < 2 {
        return false, begin, num;
      }
      var nextNumber := ns[begin + 1];
      // A second digit follows: the whole run has to fit this place.
      if nextNumber < 10 {
        ghost var j := begin;
        var reduced;
        reduced, begin, num := ReduceLeadingNumbersAsBase10System(ns, begin);
        if !reduced || num >= base * 10 || (begin != |ns| && ns[begin] < 10000) {
          assert ForcedToEnd(ns, j, base);
          begin := |ns|;  // The cursor passes what does not fit.
          return false, begin, num;
        }
        return true, begin, num;
      }
      // A digit with this rank behind it.
      if nextNumber != base || (leadingNumber == 1 && base != 1000) {
        return false, begin, num;
      }
      num := leadingNumber * base;
      begin := begin + 2;
      return true, begin, num;
    }
    // The rank alone, or the one character for twenty.
    if leadingNumber == base || (base == 10 && leadingNumber == 20) {
      num := leadingNumber;
      begin := begin + 1;
      return true, begin, num;
    }
    return false, begin, num;
  }

  method ReduceNumberLessThan10000(ns: seq<uint64>, first: nat) returns (ok: bool, begin: nat, num: uint64)
    requires first <= |ns|
    ensures Reduced(ok, begin, num) == ReduceCoefficient(ns, first)
    ensures num < 10000
  {
    hide ReduceDigits;
    CoefficientBound(ns, first);
    num := 0;
    var success := false;
    var n: uint64 := 0;
    var reduced;
    reduced, begin, n := ReduceDigitsHelper(ns, first, 1000, n);
    if reduced {
      num := num + n;
      success := true;
    }
    reduced, begin, n := ReduceDigitsHelper(ns, begin, 100, n);
    if reduced {
      num := num + n;
      success := true;
    }
    reduced, begin, n := ReduceDigitsHelper(ns, begin, 10, n);
    if reduced {
      num := num + n;
      success := true;
    }
    // The ones: at most one digit.
    if begin != |ns| && ns[begin] < 10 {
      num := num + ns[begin];
      begin := begin + 1;
      success := true;
    }
    return success && (begin == |ns| || ns[begin] >= 10000), begin, num;
  }

  // ---- The whole number ----

  // A coefficient with the rank that follows it; 1 where none does.
  datatype Group = Group(coefficient: nat, base: nat)

  // The groups read from i on, if the reading succeeds.
  function ReadGroups(ns: seq<uint64>, i: nat, lastBase: nat): (r: Option<seq<Group>>)
    requires i <= |ns|
    decreases |ns| - i
  {
    var c := ReduceCoefficient(ns, i);
    if !c.ok then None
    else if c.begin == |ns| then Some([Group(c.num, 1)])
    else if ns[c.begin] >= lastBase then None
    else
      var group := Group(c.num, ns[c.begin]);
      if c.begin + 1 == |ns| then Some([group])
      else
        match ReadGroups(ns, c.begin + 1, ns[c.begin])
        case None => None
        case Some(rest) => Some([group] + rest)
  }

  function Total(groups: seq<Group>): nat {
    if groups == [] then 0 else groups[0].coefficient * groups[0].base + Total(groups[1..])
  }

  // Strictly decreasing ranks of at least 10000, the last of which may be missing, each counted
  // less than 10000 times.
  predicate WellFormed(groups: seq<Group>, lastBase: nat) {
    forall k | 0 <= k < |groups| ::
      && groups[k].coefficient < 10000
      && groups[k].base < (if k == 0 then lastBase else groups[k - 1].base)
      && (groups[k].base >= 10000 || (k == |groups| - 1 && groups[k].base == 1))
  }

  lemma {:induction false} ReadGroupsWellFormed(ns: seq<uint64>, i: nat, lastBase: nat)
    requires i <= |ns| && lastBase > 1
    ensures var r := ReadGroups(ns, i, lastBase); r.Some? ==> r.value != [] && WellFormed(r.value, lastBase)
    decreases |ns| - i
  {
    hide ReduceCoefficient;
    var c := ReduceCoefficient(ns, i);
    CoefficientBound(ns, i);
    if c.ok && c.begin + 1 < |ns| && ns[c.begin] < lastBase {
      ReadGroupsWellFormed(ns, c.begin + 1, ns[c.begin]);
    }
  }

  method InterpretNumbersInJapaneseWay(ns: seq<uint64>) returns (ok: bool, output: uint64)
    ensures var r := ReadGroups(ns, 0, MAX);
      && (ok <==> r.Some? && Total(r.value) < LIMIT)
      && (ok ==> output == Total(r.value))
  {
    hide ReduceCoefficient, MultiplyAndCheckOverflow, AddAndCheckOverflow;
    var lastBase: uint64 := MAX;
    var begin := 0;
    output := 0;
    while true
      invariant begin <= |ns| && lastBase > 1
      invariant var r, s := ReadGroups(ns, 0, MAX), ReadGroups(ns, begin, lastBase);
        && (r.Some? <==> s.Some?)
        && (r.Some? ==> Total(r.value) == output + Total(s.value))
      decreases |ns| - begin
    {
      var reduced, coef;
      reduced, begin, coef := ReduceNumberLessThan10000(ns, begin);
      if !reduced {
        return false, output;
      }
      if begin == |ns| {
        var last := AddAndCheckOverflow(output, coef);
        return last.0, last.1;
      }
      if ns[begin] >= lastBase {
        return false, output;  // Ranks have to decrease.
      }
      // This group's share, with both steps checked.
      var delta := MultiplyAndCheckOverflow(coef, ns[begin]);
      if !delta.0 {
        return false, output;
      }
      var sum := AddAndCheckOverflow(output, delta.1);
      if !sum.0 {
        return false, output;
      }
      output := sum.1;
      lastBase := ns[begin];
      begin := begin + 1;
      if begin == |ns| {
        break;
      }
    }
    return true, output;
  }

  predicate AllDigits(ns: seq<uint64>) {
    forall i | 0 <= i < |ns| :: ns[i] < 10
  }

  // The number a sequence stands for, if any: its digits, where it has nothing else, or the total
  // of its groups.
  function Meaning(ns: seq<uint64>): Option<nat> {
    if ns == [] then None
    else if AllDigits(ns) then Some(Value(ns))
    else
      match ReadGroups(ns, 0, MAX)
      case None => None
      case Some(groups) => Some(Total(groups))
  }

  method MaxElement(ns: seq<uint64>) returns (max: uint64)
    requires ns != []
    ensures max in ns && forall i | 0 <= i < |ns| :: ns[i] <= max
  {
    max := ns[0];
    for i := 0 to |ns|
      invariant max in ns && forall j | 0 <= j < i :: ns[j] <= max
    {
      if ns[i] > max {
        max := ns[i];
      }
    }
  }

  // The reader is exact: it accepts the sequences that mean a number below 2^64, and no others.
  method NormalizeNumbersHelper(ns: seq<uint64>) returns (ok: bool, output: uint64)
    ensures ok <==> Meaning(ns).Some? && Meaning(ns).value < LIMIT
    ensures ok ==> Some(output) == Meaning(ns)
  {
    hide ReadGroups, Total;
    if ns == [] {
      return false, 0;
    }
    var max := MaxElement(ns);
    // No rank in it: the digits are the number.
    if max < 10 {
      RunOfAllDigits(ns, 0);
      ok, output := InterpretNumbersAsBase10System(ns);
      return;
    }
    ok, output := InterpretNumbersInJapaneseWay(ns);
  }

  lemma {:induction false} RunOfAllDigits(ns: seq<uint64>, i: nat)
    requires i <= |ns| && AllDigits(ns)
    ensures DigitRun(ns, i) == |ns|
    decreases |ns| - i
  {
    if i < |ns| {
      RunOfAllDigits(ns, i + 1);
    }
  }

  // A run of digits that does not fit its place hides everything after it: the tail below is
  // dropped, and the reading accepted, because a thousand had been read before.
  lemma MalformedTailIsDropped()
    ensures Meaning([1000, 1, 2, 10]) == Some(1000)
  {
    var ns: seq<uint64> := [1000, 1, 2, 10];
    assert ReduceDigits(ns, 0, 1000) == Reduced(true, 1, 1000);
    assert DigitRun(ns, 1) == 3;
    assert ForcedToEnd(ns, 1, 100);
    assert ReduceDigits(ns, 1, 100) == Reduced(false, 4, 0);
    assert ReduceCoefficient(ns, 0) == Reduced(true, 4, 1000);
    assert !AllDigits(ns);
  }

  // A step that reads nothing leaves the cursor at the next number that is not zero, except
  // exactly where that guard sends it to the end.
  lemma FailedStepKeepsTail(ns: seq<uint64>, i: nat, base: nat)
    requires i <= |ns| && base in {10, 100, 1000} && !ReduceDigits(ns, i, base).ok
    ensures ReduceDigits(ns, i, base).begin == SkipZeros(ns, i) <==> !ForcedToEnd(ns, SkipZeros(ns, i), base)
  {}

  // ---- Characters ----

  // KanjiNumberToArabicNumber for one character, as the number its digits spell
  // (src/data/preedit/kanjinumber-arabicnumber.tsv).
  function NumberOf(c: char): (r: Option<uint64>) {
    if '0' <= c <= '9' then Some((c - '0') as int)
    else if '０' <= c <= '９' then Some((c - '０') as int)
    else
      match c
      case '零' => Some(0) case '一' => Some(1) case '二' => Some(2) case '三' => Some(3) case '四' => Some(4)
      case '五' => Some(5) case '六' => Some(6) case '七' => Some(7) case '八' => Some(8) case '九' => Some(9)
      case '十' => Some(10) case '百' => Some(100) case '千' => Some(1000)
      case '万' => Some(1_0000) case '億' => Some(1_0000_0000)
      case '兆' => Some(1_0000_0000_0000) case '京' => Some(1_0000_0000_0000_0000)
      case '壱' => Some(1) case '弐' => Some(2) case '参' => Some(3)
      case '拾' => Some(10) case '廿' => Some(20) case '卅' => Some(30) case '卌' => Some(40)
      case _ => None
  }

  const KANJI_DIGITS: string := "〇一二三四五六七八九"

  // The character as it appears in the normalized kanji text.
  function KanjiOf(c: char): char {
    if '0' <= c <= '9' then KANJI_DIGITS[(c - '0') as int]
    else if '０' <= c <= '９' then KANJI_DIGITS[(c - '０') as int]
    else c
  }

  function KanjiText(s: string): (r: string)
    ensures |r| == |s|
  {
    seq(|s|, i requires 0 <= i < |s| => KanjiOf(s[i]))
  }

  predicate AllNumbers(s: string) {
    forall i | 0 <= i < |s| :: NumberOf(s[i]).Some?
  }

  function Numbers(s: string): (ns: seq<uint64>)
    requires AllNumbers(s)
    ensures |ns| == |s|
  {
    seq(|s|, i requires 0 <= i < |s| => NumberOf(s[i]).value)
  }

  // The zeros that the output keeps when leading zeros are not trimmed: all those in front of the
  // first other number, or all but one if there is no other.
  function KeptZeros(ns: seq<uint64>): nat {
    var z := SkipZeros(ns, 0);
    if z == |ns| && z > 0 then z - 1 else z
  }

  datatype Normalized = Normalized(kanji: string, arabic: string)

  // What NormalizeNumbers makes of a text.
  function Normal(input: string, trimLeadingZeros: bool): Option<Normalized> {
    if !AllNumbers(input) then None
    else
      var ns := Numbers(input);
      match Meaning(ns)
      case None => None
      case Some(n) =>
        if n >= LIMIT then None
        else Some(Normalized(KanjiText(input), Zeros(if trimLeadingZeros then 0 else KeptZeros(ns)) + Decimal(n)))
  }

  method NormalizeNumbers(input: string, trimLeadingZeros: bool)
      returns (ok: bool, kanjiOutput: string, arabicOutput: string)
    ensures ok == Normal(input, trimLeadingZeros).Some?
    ensures ok ==> Normal(input, trimLeadingZeros) == Some(Normalized(kanjiOutput, arabicOutput))
  {
    hide Meaning, NumberOf, KanjiOf, Decimal;
    var numbers: seq<uint64> := [];
    kanjiOutput, arabicOutput := "", "";
    for i := 0 to |input|
      invariant |numbers| == |kanjiOutput| == i
      invariant forall j | 0 <= j < i :: NumberOf(input[j]) == Some(numbers[j]) && kanjiOutput[j] == KanjiOf(input[j])
    {
      var n := NumberOf(input[i]);
      if n.None? {
        return false, kanjiOutput, arabicOutput;
      }
      kanjiOutput := kanjiOutput + [KanjiOf(input[i])];
      numbers := numbers + [n.value];
    }
    assert numbers == Numbers(input) && kanjiOutput == KanjiText(input);
    if numbers == [] {
      NothingMeansNothing();
      return false, kanjiOutput, arabicOutput;
    }

    // Every character was a number.
    var read, n := NormalizeNumbersHelper(numbers);
    if !read {
      return false, kanjiOutput, arabicOutput;
    }

    if !trimLeadingZeros {
      var numZeros := 0;
      while numZeros < |numbers|
        invariant numZeros <= |numbers| && SkipZeros(numbers, 0) == SkipZeros(numbers, numZeros)
      {
        if numbers[numZeros] != 0 {
          break;
        }
        numZeros := numZeros + 1;
      }
      if numZeros == |numbers| {
        numZeros := numZeros - 1;
      }
      arabicOutput := Zeros(numZeros);
    }
    assert arabicOutput == Zeros(if trimLeadingZeros then 0 else KeptZeros(numbers));
    arabicOutput := arabicOutput + Decimal(n);
    return true, kanjiOutput, arabicOutput;
  }

  lemma NothingMeansNothing()
    ensures Meaning([]) == None
  {}
}
