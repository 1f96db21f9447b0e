/**
 The steps of NumberParser case by case: what a place, a coefficient, a list of groups and a whole
 sequence read as, told from the numbers in it alone.
 */
module NumberReading {
  import opened Wrappers
  import opened NumberParser

  // What a run of digits comes to: each digit counts ten times what the next one does.
  lemma ValueIs(ds: seq<nat>, d: nat)
    ensures Value([]) == 0 && Value(ds + [d]) == 10 * Value(ds) + d
  {
    assert (ds + [d])[..|ds|] == ds;
  }

  // The place of base, where the next number other than zero stands at j: the rank by itself, twenty
  // in one, or a digit with its rank, where a one is only taken before a thousand.
  lemma PlaceIs(ns: seq<uint64>, i: nat, j: nat, base: nat)
    requires i <= j <= |ns| && (forall k | i <= k < j :: ns[k] == 0) && (j < |ns| ==> ns[j] != 0)
    requires base in {10, 100, 1000}
    ensures var r := ReduceDigits(ns, i, base);
      && (j == |ns| ==> r == Reduced(false, j, 0))
      && (j < |ns| && ns[j] >= 10 ==>
            r == if ns[j] == base || (base == 10 && ns[j] == 20) then Reduced(true, j + 1, ns[j])
                 else Reduced(false, j, 0))
      && (j + 1 == |ns| && ns[j] < 10 ==> r == Reduced(false, j, 0))
      && (j + 1 < |ns| && ns[j] < 10 && ns[j + 1] >= 10 ==>
            r == if ns[j + 1] == base && (ns[j] >= 2 || base == 1000) then Reduced(true, j + 2, ns[j] * base)
                 else Reduced(false, j, 0))
  {
    ZerosEnd(ns, i, j);
  }

  // Two or more digits in a row, from j to e, are read together where they fit the place and close
  // the coefficient; elsewhere they take the cursor to the end.
  lemma PlaceOfRun(ns: seq<uint64>, i: nat, j: nat, e: nat, base: nat)
    requires i <= j && j + 2 <= e <= |ns| && (forall k | i <= k < j :: ns[k] == 0) && ns[j] != 0
    requires (forall k | j <= k < e :: ns[k] < 10) && (e < |ns| ==> ns[e] >= 10)
    requires base in {10, 100, 1000}
    ensures ReduceDigits(ns, i, base)
         == if Value(ns[j..e]) < 10 * base && (e == |ns| || ns[e] >= 10000) then Reduced(true, e, Value(ns[j..e]))
            else Reduced(false, |ns|, 0)
  {
    ZerosEnd(ns, i, j);
    RunEnds(ns, j, e);
    hide DigitRun, SkipZeros, Value;
  }

  lemma {:induction false} ZerosEnd(ns: seq<uint64>, i: nat, j: nat)
    requires i <= j <= |ns| && (forall k | i <= k < j :: ns[k] == 0) && (j < |ns| ==> ns[j] != 0)
    ensures SkipZeros(ns, i) == j
    decreases j - i
  {
    if i < j {
      ZerosEnd(ns, i + 1, j);
    }
  }

  lemma {:induction false} RunEnds(ns: seq<uint64>, j: nat, e: nat)
    requires j <= e <= |ns| && (forall k | j <= k < e :: ns[k] < 10) && (e < |ns| ==> ns[e] >= 10)
    ensures DigitRun(ns, j) == e
    decreases e - j
  {
    if j < e {
      RunEnds(ns, j + 1, e);
    }
  }

  // A coefficient: thousands, hundreds, tens and at most one digit more, one of them at least, up to
  // the end or a rank of 10000 or more.
  lemma CoefficientIs(ns: seq<uint64>, i: nat)
    requires i <= |ns|
    ensures var t := ReduceDigits(ns, i, 1000);
      var h := ReduceDigits(ns, t.begin, 100);
      var d := ReduceDigits(ns, h.begin, 10);
      var one := d.begin < |ns| && ns[d.begin] < 10;
      var e := if one then d.begin + 1 else d.begin;
      ReduceCoefficient(ns, i)
        == Reduced((t.ok || h.ok || d.ok || one) && (e == |ns| || ns[e] >= 10000), e,
                   (if t.ok then t.num else 0) + (if h.ok then h.num else 0) + (if d.ok then d.num else 0)
                   + if one then ns[d.begin] else 0)
  {
    hide ReduceDigits;
  }

  // The groups from i on: a coefficient and, unless the sequence ends there, a rank below the one
  // before it, with what follows.
  lemma GroupsAre(ns: seq<uint64>, i: nat, lastBase: nat)
    requires i <= |ns|
    ensures var c := ReduceCoefficient(ns, i);
      && (!c.ok ==> ReadGroups(ns, i, lastBase) == None)
      && (c.ok && c.begin == |ns| ==> ReadGroups(ns, i, lastBase) == Some([Group(c.num, 1)]))
      && (c.ok && c.begin < |ns| && ns[c.begin] >= lastBase ==> ReadGroups(ns, i, lastBase) == None)
      && (c.ok && c.begin + 1 == |ns| && ns[c.begin] < lastBase ==>
            ReadGroups(ns, i, lastBase) == Some([Group(c.num, ns[c.begin])]))
      && (c.ok && c.begin + 1 < |ns| && ns[c.begin] < lastBase ==>
            var rest := ReadGroups(ns, c.begin + 1, ns[c.begin]);
            ReadGroups(ns, i, lastBase)
              == if rest.Some? then Some([Group(c.num, ns[c.begin])] + rest.value) else None)
  {
    hide ReduceCoefficient;
  }

  lemma TotalIs(coefficient: nat, base: nat, rest: seq<Group>)
    ensures Total([]) == 0 && Total([Group(coefficient, base)] + rest) == coefficient * base + Total(rest)
  {
    assert ([Group(coefficient, base)] + rest)[1..] == rest;
  }

  // The whole sequence: its digits, or else its groups, with ranks below the largest 64-bit number.
  lemma MeaningIs(ns: seq<uint64>)
    ensures Meaning(ns)
         == if ns == [] then None
            else if forall i | 0 <= i < |ns| :: ns[i] < 10 then Some(Value(ns))
            else
              var groups := ReadGroups(ns, 0, 0xFFFF_FFFF_FFFF_FFFF);
              if groups.Some? then Some(Total(groups.value)) else None
  {
    hide ReadGroups, Total, Value;
  }
}
