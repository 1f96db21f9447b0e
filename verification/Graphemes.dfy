/**
 The grouping of code points into user-perceived characters (src/base/util.cc,
 SplitStringToUtf8Graphemes), on the code points of the string.
 */
module Graphemes {

  type CodePoint = nat

  predicate IsRegionalIndicator(c: CodePoint) {
    0x1F1E6 <= c <= 0x1F1FF
  }

  // A flag: two regional indicators.
  predicate IsFlag(prev: CodePoint, c: CodePoint) {
    IsRegionalIndicator(prev) && IsRegionalIndicator(c)
  }

  predicate Extends(prev: CodePoint, c: CodePoint) {
    || c == 0x3099 || c == 0x309A                    // dakuten
    || 0xFE00 <= c <= 0xFE0F                         // SVS, VS15 and VS16 among them
    || 0xE0100 <= c <= 0xE01EF                       // IVS
    || 0x1F3FB <= c <= 0x1F3FF                       // emoji modifier
    || 0xE0020 <= c <= 0xE007F                       // emoji tag
    || (prev == 0xFE0F && c == 0x20E3)               // emoji keycap
    || c == 0x200D || prev == 0x200D                 // joiner
  }

  predicate Joins(prev: CodePoint, c: CodePoint) {
    IsFlag(prev, c) || Extends(prev, c)
  }

  // What the code point at n sees as the one before it: after a flag, and at first, U+0000.
  function Prev(cs: seq<CodePoint>, n: nat): CodePoint
    requires n <= |cs|
  {
    if n == 0 || IsFlag(Prev(cs, n - 1), cs[n - 1]) then 0 else cs[n - 1]
  }

  // A group begins at n.
  predicate Breaks(cs: seq<CodePoint>, n: nat)
    requires n < |cs|
  {
    n == 0 || !Joins(Prev(cs, n), cs[n])
  }

  function AppendToLast(gs: seq<seq<CodePoint>>, g: seq<CodePoint>): seq<seq<CodePoint>>
    requires gs != []
  {
    gs[..|gs| - 1] + [gs[|gs| - 1] + g]
  }

  // One more code point, in a group of its own or in the last one.
  function Grown(gs: seq<seq<CodePoint>>, breaks: bool, c: CodePoint): (r: seq<seq<CodePoint>>)
    ensures |r| == if breaks || gs == [] then |gs| + 1 else |gs|
  {
    if breaks || gs == [] then gs + [[c]] else AppendToLast(gs, [c])
  }

  // The groups of the first n code points.
  function Groups(cs: seq<CodePoint>, n: nat): (gs: seq<seq<CodePoint>>)
    requires n <= |cs|
    ensures gs == [] <==> n == 0
  {
    if n == 0 then [] else Grown(Groups(cs, n - 1), Breaks(cs, n - 1), cs[n - 1])
  }

  function Graphemes(cs: seq<CodePoint>): seq<seq<CodePoint>> {
    Groups(cs, |cs|)
  }

  function Concat(gs: seq<seq<CodePoint>>): seq<CodePoint> {
    if gs == [] then [] else Concat(gs[..|gs| - 1]) + gs[|gs| - 1]
  }

  // ---- Nothing is lost ----

  lemma ConcatOfNext(gs: seq<seq<CodePoint>>, g: seq<CodePoint>)
    ensures Concat(gs + [g]) == Concat(gs) + g
  {
    assert (gs + [g])[..|gs|] == gs;
  }

  lemma ConcatOfGrown(gs: seq<seq<CodePoint>>, breaks: bool, c: CodePoint)
    requires [] !in gs
    ensures Concat(Grown(gs, breaks, c)) == Concat(gs) + [c] && [] !in Grown(gs, breaks, c)
  {
    if breaks || gs == [] {
      ConcatOfNext(gs, [c]);
    } else {
      ConcatOfNext(gs[..|gs| - 1], gs[|gs| - 1] + [c]);
    }
  }

  lemma {:induction false} GroupsConcat(cs: seq<CodePoint>, n: nat)
    requires n <= |cs|
    ensures Concat(Groups(cs, n)) == cs[..n]
    ensures [] !in Groups(cs, n)
  {
    hide Breaks, Grown;
    if n > 0 {
      GroupsConcat(cs, n - 1);
      ConcatOfGrown(Groups(cs, n - 1), Breaks(cs, n - 1), cs[n - 1]);
      assert cs[..n] == cs[..n - 1] + [cs[n - 1]];
    }
  }

  lemma FirstBreaks(cs: seq<CodePoint>)
    requires cs != []
    ensures Breaks(cs, 0)
  {}

  lemma GraphemesConcat(cs: seq<CodePoint>)
    ensures Concat(Graphemes(cs)) == cs && [] !in Graphemes(cs)
  {
    GroupsConcat(cs, |cs|);
    assert cs[..|cs|] == cs;
  }

  // ---- Groups stand for themselves ----

  // From the first code point of a group on, it does not matter what came before.
  lemma {:induction false} PrevFromBreak(cs: seq<CodePoint>, a: nat, n: nat)
    requires a < n <= |cs| && Breaks(cs, a)
    ensures Prev(cs, n) == Prev(cs[a..], n - a)
    decreases n
  {
    if n > a + 1 {
      PrevFromBreak(cs, a, n - 1);
    } else {
      assert Prev(cs[a..], 1) == cs[a] && Prev(cs, a + 1) == cs[a];
    }
  }

  lemma GrownAfter(before: seq<seq<CodePoint>>, gs: seq<seq<CodePoint>>, breaks: bool, c: CodePoint)
    requires breaks || gs != []
    ensures Grown(before + gs, breaks, c) == before + Grown(gs, breaks, c)
  {}

  lemma {:induction false} GroupsFromBreak(cs: seq<CodePoint>, a: nat, n: nat)
    requires a <= n <= |cs| && (a < n ==> Breaks(cs, a))
    ensures Groups(cs, n) == Groups(cs, a) + Groups(cs[a..], n - a)
    decreases n
  {
    hide Joins, Prev, Grown;
    if n > a {
      GroupsFromBreak(cs, a, n - 1);
      if n > a + 1 {
        PrevFromBreak(cs, a, n - 1);
      }
      assert Breaks(cs, n - 1) == Breaks(cs[a..], n - 1 - a);
      hide Breaks;
      GrownAfter(Groups(cs, a), Groups(cs[a..], n - 1 - a), Breaks(cs, n - 1), cs[n - 1]);
    }
  }

  lemma OneGroup(cs: seq<CodePoint>)
    requires cs != []
    ensures Groups(cs, 1) == [[cs[0]]]
  {}

  lemma {:induction false} PrevOfPrefix(cs: seq<CodePoint>, m: nat, n: nat)
    requires n <= m <= |cs|
    ensures Prev(cs[..m], n) == Prev(cs, n)
    decreases n
  {
    if n > 0 {
      PrevOfPrefix(cs, m, n - 1);
    }
  }

  lemma {:induction false} GroupsOfPrefix(cs: seq<CodePoint>, m: nat, n: nat)
    requires n <= m <= |cs|
    ensures Groups(cs[..m], n) == Groups(cs, n)
    decreases n
  {
    hide Joins, Prev, Grown;
    if n > 0 {
      GroupsOfPrefix(cs, m, n - 1);
      PrevOfPrefix(cs, m, n - 1);
    }
  }

  // Where the first i groups end: a place where a group begins, or the end.
  lemma {:induction false} EndOfGroups(cs: seq<CodePoint>, n: nat, i: nat) returns (a: nat)
    requires n <= |cs| && i <= |Groups(cs, n)|
    ensures a <= n && Groups(cs, a) == Groups(cs, n)[..i]
    ensures if i < |Groups(cs, n)| then a < n && Breaks(cs, a) else a == n
    decreases n
  {
    hide Breaks;
    var gs := Groups(cs, n);
    if i == |gs| {
      a := n;
    } else {
      var before := Groups(cs, n - 1);
      FirstBreaks(cs);
      if i == |before| {
        a := n - 1;
      } else {
        a := EndOfGroups(cs, n - 1, i);
      }
    }
  }

  // Any run of groups, split again by itself, comes apart into the same groups.
  lemma GraphemesAreStable(cs: seq<CodePoint>, i: nat, j: nat)
    requires i <= j <= |Graphemes(cs)|
    ensures Graphemes(Concat(Graphemes(cs)[i..j])) == Graphemes(cs)[i..j]
  {
    hide Groups, Breaks;
    var gs := Graphemes(cs);
    if i < j {
      var a := EndOfGroups(cs, |cs|, i);
      var b := EndOfGroups(cs, |cs|, j);
      ConcatOfRun(gs, i, j);
      GroupsConcat(cs, a);
      GroupsConcat(cs, b);
      var run := Concat(gs[i..j]);
      assert cs[..b] == cs[..a] + run;
      assert cs[..b][a..] == run && run == cs[a..][..b - a];
      GroupsFromBreak(cs, a, b);
      GroupsOfPrefix(cs[a..], b - a, b - a);
      assert gs[..j] == gs[..i] + gs[i..j];
      assert Groups(cs[a..], b - a) == gs[i..j];
    } else {
      NoGroups();
    }
  }

  lemma NoGroups()
    ensures Graphemes(Concat([])) == []
  {}

  lemma {:induction false} ConcatOfRun(gs: seq<seq<CodePoint>>, i: nat, j: nat)
    requires i <= j <= |gs|
    ensures Concat(gs[..j]) == Concat(gs[..i]) + Concat(gs[i..j])
    decreases j
  {
    if i < j {
      ConcatOfRun(gs, i, j - 1);
      assert gs[..j] == gs[..j - 1] + [gs[j - 1]] && gs[i..j] == gs[i..j - 1] + [gs[j - 1]];
      ConcatOfNext(gs[..j - 1], gs[j - 1]);
      ConcatOfNext(gs[i..j - 1], gs[j - 1]);
    } else {
      assert Concat(gs[i..j]) == [];
    }
  }

  // ---- Where the groups begin ----

  // Where the run of regional indicators that ends just before n starts: at n, if there is none.
  function RunStart(cs: seq<CodePoint>, n: nat): (start: nat)
    requires n <= |cs|
    ensures start <= n && (forall i | start <= i < n :: 0x1F1E6 <= cs[i] <= 0x1F1FF)
    ensures start > 0 ==> !(0x1F1E6 <= cs[start - 1] <= 0x1F1FF)
  {
    if n == 0 || !IsRegionalIndicator(cs[n - 1]) then n else RunStart(cs, n - 1)
  }

  // The code point before n counts as an indicator when it is at an even distance from that start.
  lemma {:induction false} PrevOfRun(cs: seq<CodePoint>, n: nat)
    requires n <= |cs|
    ensures IsRegionalIndicator(Prev(cs, n)) <==> (n - RunStart(cs, n)) % 2 == 1
    ensures n > 0 && Prev(cs, n) != cs[n - 1] ==> IsRegionalIndicator(cs[n - 1])
  {
    if n > 0 {
      PrevOfRun(cs, n - 1);
    }
  }

  lemma BreakIs(cs: seq<CodePoint>, n: nat)
    requires n < |cs|
    ensures Breaks(cs, n) <==> n == 0 || !(IsFlag(Prev(cs, n), cs[n]) || Extends(cs[n - 1], cs[n]))
  {
    if n > 0 {
      PrevOfRun(cs, n);
    }
  }

  lemma BeginsAtBreak(cs: seq<CodePoint>, n: nat)
    requires n < |cs|
    ensures (exists i | 0 <= i < |Graphemes(cs)| :: |Concat(Graphemes(cs)[..i])| == n) <==> Breaks(cs, n)
  {
    hide Groups, Breaks, Concat;
    var gs := Graphemes(cs);
    if Breaks(cs, n) {
      GroupsFromBreak(cs, n, |cs|);
      GroupsConcat(cs, n);
      var i := |Groups(cs, n)|;
      assert gs[..i] == Groups(cs, n);
    }
    forall i | 0 <= i < |gs| && |Concat(gs[..i])| == n ensures Breaks(cs, n) {
      var a := EndOfGroups(cs, |cs|, i);
      GroupsConcat(cs, a);
    }
  }

  // A group begins at n unless one of the rules keeps n with the code point before it. The last rule
  // is that of flags: n is an indicator an odd way from where its run of indicators starts.
  lemma GroupBegins(cs: seq<CodePoint>, n: nat) returns (start: nat)
    requires n < |cs|
    ensures start <= n && (forall i | start <= i < n :: 0x1F1E6 <= cs[i] <= 0x1F1FF)
    ensures start > 0 ==> !(0x1F1E6 <= cs[start - 1] <= 0x1F1FF)
    ensures (exists i | 0 <= i < |Graphemes(cs)| :: |Concat(Graphemes(cs)[..i])| == n) <==>
      n == 0 || !(|| cs[n] == 0x3099 || cs[n] == 0x309A || cs[n] == 0x200D
                  || 0xFE00 <= cs[n] <= 0xFE0F || 0xE0100 <= cs[n] <= 0xE01EF
                  || 0x1F3FB <= cs[n] <= 0x1F3FF || 0xE0020 <= cs[n] <= 0xE007F
                  || (cs[n] == 0x20E3 && cs[n - 1] == 0xFE0F)
                  || cs[n - 1] == 0x200D
                  || (0x1F1E6 <= cs[n] <= 0x1F1FF && (n - start) % 2 == 1))
  {
    hide Graphemes, Breaks, Prev, RunStart, Concat;
    start := RunStart(cs, n);
    BeginsAtBreak(cs, n);
    BreakIs(cs, n);
    PrevOfRun(cs, n);
  }

  // What the concatenation of groups is.
  lemma ConcatIs(gs: seq<seq<CodePoint>>, g: seq<CodePoint>)
    ensures Concat([]) == [] && Concat(gs + [g]) == Concat(gs) + g
  {
    ConcatOfNext(gs, g);
  }

  // ---- Flags ----

  predicate AllRegional(cs: seq<CodePoint>) {
    forall k | 0 <= k < |cs| :: IsRegionalIndicator(cs[k])
  }

  lemma {:induction false} PrevOfFlags(cs: seq<CodePoint>, n: nat)
    requires n <= |cs| && AllRegional(cs)
    ensures Prev(cs, n) == if n % 2 == 0 then 0 else cs[n - 1]
  {
    if n > 0 {
      PrevOfFlags(cs, n - 1);
    }
  }

  lemma BreakOfFlags(cs: seq<CodePoint>, n: nat)
    requires n < |cs| && AllRegional(cs)
    ensures Breaks(cs, n) <==> n % 2 == 0
  {
    PrevOfFlags(cs, n);
  }

  // The first n code points in pairs, the last of which may lack its second.
  predicate InPairs(cs: seq<CodePoint>, n: nat, gs: seq<seq<CodePoint>>)
    requires n <= |cs|
  {
    |gs| == (n + 1) / 2 && forall k | 0 <= k < |gs| :: gs[k] == cs[2 * k..if 2 * k + 2 <= n then 2 * k + 2 else n]
  }

  lemma PairBegins(cs: seq<CodePoint>, n: nat, gs: seq<seq<CodePoint>>)
    requires 0 < n <= |cs| && n % 2 == 1 && InPairs(cs, n - 1, gs)
    ensures InPairs(cs, n, Grown(gs, true, cs[n - 1]))
  {
    assert cs[n - 1..n] == [cs[n - 1]];
  }

  lemma PairEnds(cs: seq<CodePoint>, n: nat, gs: seq<seq<CodePoint>>)
    requires 0 < n <= |cs| && n % 2 == 0 && InPairs(cs, n - 1, gs)
    ensures InPairs(cs, n, Grown(gs, false, cs[n - 1]))
  {
    assert cs[n - 2..n] == cs[n - 2..n - 1] + [cs[n - 1]];
  }

  // A run of regional indicators is read as pairs, from the left; an odd one is left alone.
  lemma {:induction false} FlagsPair(cs: seq<CodePoint>, n: nat)
    requires n <= |cs| && AllRegional(cs)
    ensures InPairs(cs, n, Groups(cs, n))
  {
    hide Breaks, AllRegional, InPairs, Grown, Groups;
    if n == 0 {
      NoPairs(cs);
    } else {
      FlagsPair(cs, n - 1);
      BreakOfFlags(cs, n - 1);
      GroupsOfNext(cs, n);
      if n % 2 == 1 {
        PairBegins(cs, n, Groups(cs, n - 1));
      } else {
        PairEnds(cs, n, Groups(cs, n - 1));
      }
    }
  }

  lemma NoPairs(cs: seq<CodePoint>)
    ensures Groups(cs, 0) == [] && InPairs(cs, 0, [])
  {}

  lemma GroupsOfNext(cs: seq<CodePoint>, n: nat)
    requires 0 < n <= |cs|
    ensures Groups(cs, n) == Grown(Groups(cs, n - 1), Breaks(cs, n - 1), cs[n - 1])
  {}

  // ---- The program ----

  method SplitStringToUtf8Graphemes(cs: seq<CodePoint>) returns (graphemes: seq<seq<CodePoint>>)
    ensures graphemes == Graphemes(cs)
  {
    graphemes := seq(|cs|, i requires 0 <= i < |cs| => [cs[i]]);
    if |graphemes| <= 1 {
      if cs == [] { NoGroups(); } else { OneGroup(cs); }
      return;
    }

    // The invariant: prev is what Prev says of the code points so far.
    var prev: CodePoint := 0x0000;
    var newGraphemes: seq<seq<CodePoint>> := [];
    for n := 0 to |cs|
      invariant newGraphemes == Groups(cs, n) && prev == Prev(cs, n)
    {
      var codepoint := cs[n];
      var isFlagSequence := IsRegionalIndicator(prev) && IsRegionalIndicator(codepoint);
      if isFlagSequence && newGraphemes != [] {
        newGraphemes := AppendToLast(newGraphemes, graphemes[n]);
        // A flag is complete: the next indicator begins another.
        prev := 0x0000;
        continue;
      }
      if Extends(prev, codepoint) && newGraphemes != [] {
        newGraphemes := AppendToLast(newGraphemes, graphemes[n]);
      } else {
        newGraphemes := newGraphemes + [graphemes[n]];
      }
      prev := codepoint;
    }
    graphemes := newGraphemes;
  }
}
