/**
 The digest of Sha1 in the terms of FIPS 180-4 alone: shifts, addition modulo 2^32 (that of the words
 themselves) and the constants, step by step and then as one statement about the digest.
 */
module Sha1Standard {
  import opened Sha1

  // ---- Section 5.1.1: the padded message ----

  lemma PaddedIs(m: seq<byte>)
    ensures var p := Padded(m);
      && |p| % 64 == 0 && |m| + 9 <= |p| < |m| + 73
      && p[..|m|] == m && p[|m|] == 0x80
      && (forall i | |m| < i < |p| - 8 :: p[i] == 0)
  {
    hide BigEndian64;
  }

  // Its last eight bytes: the number of bits, the most significant byte first.
  lemma LengthIs(m: seq<byte>, bits: nat)
    requires bits == 8 * |m|
    ensures |Padded(m)| >= 8
    ensures Padded(m)[|Padded(m)| - 8..]
         == [(bits / 0x100_0000_0000_0000 % 256) as byte, (bits / 0x1_0000_0000_0000 % 256) as byte,
             (bits / 0x100_0000_0000 % 256) as byte, (bits / 0x1_0000_0000 % 256) as byte,
             (bits / 0x100_0000 % 256) as byte, (bits / 0x1_0000 % 256) as byte,
             (bits / 0x100 % 256) as byte, (bits % 256) as byte]
  {
    hide *;
    LastEight(m);
    LengthBytes(bits);
  }

  lemma LastEight(m: seq<byte>)
    ensures |Padded(m)| >= 8 && Padded(m)[|Padded(m)| - 8..] == BigEndian64(8 * |m|)
  {
    hide BigEndian64;
  }

  lemma LengthBytes(n: nat)
    ensures BigEndian64(n)
         == [(n / 0x100_0000_0000_0000 % 256) as byte, (n / 0x1_0000_0000_0000 % 256) as byte,
             (n / 0x100_0000_0000 % 256) as byte, (n / 0x1_0000_0000 % 256) as byte,
             (n / 0x100_0000 % 256) as byte, (n / 0x1_0000 % 256) as byte,
             (n / 0x100 % 256) as byte, (n % 256) as byte]
  {}

  // ---- Section 6.1.2: the message schedule ----

  lemma FirstWords(block: seq<byte>, t: nat)
    requires |block| == 64 && t < 16
    ensures ScheduleWord(block, t)
         == (block[4 * t] as word << 24) | (block[4 * t + 1] as word << 16)
            | (block[4 * t + 2] as word << 8) | block[4 * t + 3] as word
  {}

  lemma LaterWords(block: seq<byte>, t: nat, p: word, q: word, r: word, s: word)
    requires |block| == 64 && 16 <= t < 80
    requires p == ScheduleWord(block, t - 3) && q == ScheduleWord(block, t - 8)
    requires r == ScheduleWord(block, t - 14) && s == ScheduleWord(block, t - 16)
    ensures ScheduleWord(block, t) == ((p ^ q ^ r ^ s) << 1) | ((p ^ q ^ r ^ s) >> 31)
  {
    hide *;
    LaterWord(block, t);
    MixedWordIs(p, q, r, s);
  }

  lemma LaterWord(block: seq<byte>, t: nat)
    requires |block| == 64 && 16 <= t < 80
    ensures ScheduleWord(block, t) == MixedWord(ScheduleWord(block, t - 3), ScheduleWord(block, t - 8),
                                                ScheduleWord(block, t - 14), ScheduleWord(block, t - 16))
  {
    hide WordAt, MixedWord;
  }

  lemma MixedWordIs(p: word, q: word, r: word, s: word)
    ensures MixedWord(p, q, r, s) == ((p ^ q ^ r ^ s) << 1) | ((p ^ q ^ r ^ s) >> 31)
  {
    hide Rotl;
    RotlIsShifts(p ^ q ^ r ^ s);
  }

  // ---- The 80 steps ----

  // Section 4.2.1: each constant is the whole part of 2^30 times a square root.
  lemma ConstantIsRoot(t: nat, n: nat)
    requires t < 80 && n == if t < 20 then 2 else if t < 40 then 3 else if t < 60 then 5 else 10
    ensures var k := K(t) as nat;
      k * k <= n * 0x1000_0000_0000_0000 < (k + 1) * (k + 1)
  {
    assert 0x5a827999 as word as nat == 0x5a827999;
    assert 0x6ed9eba1 as word as nat == 0x6ed9eba1;
    assert 0x8f1bbcdc as word as nat == 0x8f1bbcdc;
    assert 0xca62c1d6 as word as nat == 0xca62c1d6;
  }

  lemma ConstantIs(t: nat)
    ensures K(t) == if t < 20 then 0x5a827999 else if t < 40 then 0x6ed9eba1
                    else if t < 60 then 0x8f1bbcdc else 0xca62c1d6
  {}

  // One step, which leaves u: its first variable is a sum modulo 2^32, with f and k as below, and the
  // other four have moved on by one, one of them rotated.
  lemma StepIs(h: State, block: seq<byte>, t: nat, s: State, u: State,
               a5: word, b30: word, e: word, f: word, w: word, k: word)
    requires |block| == 64 && t < 80 && s == Working(h, block, t) && u == Working(h, block, t + 1)
    requires a5 == (s.a << 5) | (s.a >> 27)
    requires b30 == (s.b << 30) | (s.b >> 2)
    requires e == s.e && f == F(t, s.b, s.c, s.d) && w == ScheduleWord(block, t) && k == K(t)
    ensures u.a == a5 + f + e + w + k
    ensures u.b == s.a && u.c == b30 && u.d == s.c && u.e == s.d
  {
    hide *;
    RotatedByFive(s.a, a5);
    RotatedByThirty(s.b, b30);
    StepOf(h, block, t, s, a5, b30, f, w, k);
    SumIs(a5, f, e, w, k);
  }

  lemma StepOf(h: State, block: seq<byte>, t: nat, s: State, a5: word, b30: word, f: word, w: word, k: word)
    requires |block| == 64 && t < 80 && s == Working(h, block, t)
    requires a5 == Rotl(s.a, 5) && b30 == Rotl(s.b, 30)
    requires f == F(t, s.b, s.c, s.d) && w == ScheduleWord(block, t) && k == K(t)
    ensures Working(h, block, t + 1) == State(Sum5(a5, f, s.e, w, k), s.a, b30, s.c, s.d)
  {
    hide *;
    NextStep(h, block, t, s);
  }

  lemma RotatedByFive(x: word, r: word)
    requires r == (x << 5) | (x >> 27)
    ensures Rotl(x, 5) == r
  {
    hide Rotl;
    RotlIsShifts(x);
  }

  lemma RotatedByThirty(x: word, r: word)
    requires r == (x << 30) | (x >> 2)
    ensures Rotl(x, 30) == r
  {
    hide Rotl;
    RotlIsShifts(x);
  }

  lemma SumIs(p: word, q: word, r: word, s: word, t: word)
    ensures Sum5(p, q, r, s, t) == p + q + r + s + t
  {}

  // The functions of section 4.1.1.
  lemma FIs(t: nat, x: word, y: word, z: word)
    ensures F(t, x, y, z) == if t < 20 then (x & y) ^ (!x & z)
                             else if 40 <= t < 60 then (x & y) ^ (x & z) ^ (y & z)
                             else x ^ y ^ z
  {}

  // ---- The hash value ----

  // The working variables start as the hash value, which at the end they are added to.
  lemma CompressionIs(h: State, block: seq<byte>)
    requires |block| == 64
    ensures Working(h, block, 0) == h
    ensures Compress(h, block) == AddState(h, Working(h, block, 80))
  {
    hide *;
    StepsFromStart(h, block);
  }

  lemma AddStateIs(h: State, s: State)
    ensures AddState(h, s).a == h.a + s.a
    ensures AddState(h, s).b == h.b + s.b
    ensures AddState(h, s).c == h.c + s.c
    ensures AddState(h, s).d == h.d + s.d
    ensures AddState(h, s).e == h.e + s.e
  {
    hide *;
    AddedIs(h, s);
    PlusIs(h.a, s.a);
    PlusIs(h.b, s.b);
    PlusIs(h.c, s.c);
    PlusIs(h.d, s.d);
    PlusIs(h.e, s.e);
  }

  lemma AddedIs(h: State, s: State)
    ensures AddState(h, s) == State(Plus(h.a, s.a), Plus(h.b, s.b), Plus(h.c, s.c), Plus(h.d, s.d), Plus(h.e, s.e))
  {
    hide Plus;
  }

  lemma PlusIs(x: word, y: word)
    ensures Plus(x, y) == x + y
  {}

  // The initial hash value, section 5.3.1.
  lemma HashValueStarts(m: seq<byte>)
    ensures HashValue(m, 0) == State(0x67452301, 0xefcdab89, 0x98badcfe, 0x10325476, 0xc3d2e1f0)
  {
    hide Padded;
  }

  lemma HashValueIs(m: seq<byte>, n: nat)
    requires 64 * n + 64 <= |Padded(m)|
    ensures HashValue(m, n + 1) == Compress(HashValue(m, n), Padded(m)[64 * n..64 * n + 64])
  {
    hide Padded, Compress;
  }

  // Four bytes for each word of the last hash value.
  lemma DigestBytes(m: seq<byte>, j: nat, x: word)
    requires j < 5
    requires var h := HashValue(m, |Padded(m)| / 64); x == [h.a, h.b, h.c, h.d, h.e][j]
    ensures Digest(m)[4 * j..4 * j + 4]
         == [(x >> 24) as byte, ((x >> 16) & 0xff) as byte, ((x >> 8) & 0xff) as byte, (x & 0xff) as byte]
  {
    hide *;
    FiveWords(m, j, x);
    WordBytesAre(x);
  }

  lemma FiveWords(m: seq<byte>, j: nat, x: word)
    requires j < 5
    requires var h := HashValue(m, |Padded(m)| / 64); x == [h.a, h.b, h.c, h.d, h.e][j]
    ensures Digest(m)[4 * j..4 * j + 4] == WordBytes(x)
  {
    hide Padded, HashValue, WordBytes;
  }

  lemma WordBytesAre(x: word)
    ensures x >> 24 < 256
    ensures WordBytes(x)
         == [(x >> 24) as byte, ((x >> 16) & 0xff) as byte, ((x >> 8) & 0xff) as byte, (x & 0xff) as byte]
  {
    assert x >> 24 == (x >> 24) & 0xff;
  }

  // ---- All of it ----

  // w is the message schedule of a block.
  predicate IsSchedule(w: seq<word>, block: seq<byte>)
    requires |block| == 64
  {
    && |w| == 80
    && (forall t | 0 <= t < 16 :: w[t] == WordAt(block, 4 * t))
    && (forall t | 16 <= t < 80 :: w[t] == MixedWord(w[t - 3], w[t - 8], w[t - 14], w[t - 16]))
  }

  // v are the working variables before each of the 80 steps and after the last.
  predicate IsRun(v: seq<State>, w: seq<word>, h: State)
    requires |w| == 80
  {
    |v| == 81 && v[0] == h && forall t | 0 <= t < 80 ::
      v[t + 1] == State(Sum5(Rotl(v[t].a, 5), F(t, v[t].b, v[t].c, v[t].d), v[t].e, w[t], K(t)),
                        v[t].a, Rotl(v[t].b, 30), v[t].c, v[t].d)
  }

  // u is the hash value h with one block more.
  predicate IsHashed(u: State, h: State, block: seq<byte>, w: seq<word>, v: seq<State>) {
    |block| == 64 && IsSchedule(w, block) && IsRun(v, w, h) && u == AddState(h, v[80])
  }

  lemma {:induction false} ScheduleIs(w: seq<word>, block: seq<byte>, t: nat)
    requires |block| == 64 && IsSchedule(w, block) && t < 80
    ensures |w| == 80 && w[t] == ScheduleWord(block, t)
    decreases t
  {
    hide *;
    if t < 16 {
      FirstInSchedule(w, block, t);
      FirstWord(block, t);
    } else {
      LaterInSchedule(w, block, t);
      ScheduleIs(w, block, t - 3);
      ScheduleIs(w, block, t - 8);
      ScheduleIs(w, block, t - 14);
      ScheduleIs(w, block, t - 16);
      LaterWord(block, t);
    }
  }

  lemma LaterInSchedule(w: seq<word>, block: seq<byte>, t: nat)
    requires |block| == 64 && IsSchedule(w, block) && 16 <= t < 80
    ensures |w| == 80 && w[t] == MixedWord(w[t - 3], w[t - 8], w[t - 14], w[t - 16])
  {
    hide WordAt, MixedWord;
  }

  lemma FirstInSchedule(w: seq<word>, block: seq<byte>, t: nat)
    requires |block| == 64 && IsSchedule(w, block) && t < 16
    ensures |w| == 80 && w[t] == WordAt(block, 4 * t)
  {
    hide WordAt, MixedWord;
  }

  lemma FirstWord(block: seq<byte>, t: nat)
    requires |block| == 64 && t < 16
    ensures ScheduleWord(block, t) == WordAt(block, 4 * t)
  {
    hide WordAt;
  }

  lemma {:induction false} RunIs(v: seq<State>, w: seq<word>, h: State, block: seq<byte>, t: nat)
    requires |block| == 64 && IsSchedule(w, block) && IsRun(v, w, h) && t <= 80
    ensures v[t] == Working(h, block, t)
    decreases t
  {
    hide Working, ScheduleWord, WordAt, MixedWord, Sum5, Rotl, F, K, IsSchedule;
    if t == 0 {
      WorkingStarts(h, block);
    } else {
      RunIs(v, w, h, block, t - 1);
      ScheduleIs(w, block, t - 1);
      NextStep(h, block, t - 1, v[t - 1]);
    }
  }

  lemma WorkingStarts(h: State, block: seq<byte>)
    requires |block| == 64
    ensures Working(h, block, 0) == h
  {}

  // Whatever hash values, schedules and runs obey the standard on the blocks of the padded message,
  // the digest is made of the last hash value.
  lemma DigestIs(m: seq<byte>, hs: seq<State>, ws: seq<seq<word>>, vs: seq<seq<State>>, n: nat, j: nat, x: word)
    requires 64 * n == |Padded(m)| && |ws| == |vs| == n && |hs| == n + 1
    requires hs[0] == State(0x67452301, 0xefcdab89, 0x98badcfe, 0x10325476, 0xc3d2e1f0)
    requires forall i | 0 <= i < n :: IsHashed(hs[i + 1], hs[i], Padded(m)[64 * i..64 * i + 64], ws[i], vs[i])
    requires j < 5 && x == [hs[n].a, hs[n].b, hs[n].c, hs[n].d, hs[n].e][j]
    ensures Digest(m)[4 * j..4 * j + 4]
         == [(x >> 24) as byte, ((x >> 16) & 0xff) as byte, ((x >> 8) & 0xff) as byte, (x & 0xff) as byte]
  {
    hide *;
    HashesAre(m, hs, ws, vs, n);
    DigestBytes(m, j, x);
  }

  lemma {:induction false} HashesAre(m: seq<byte>, hs: seq<State>, ws: seq<seq<word>>, vs: seq<seq<State>>, n: nat)
    requires 64 * n <= |Padded(m)| && |ws| >= n && |vs| >= n && |hs| > n
    requires hs[0] == State(0x67452301, 0xefcdab89, 0x98badcfe, 0x10325476, 0xc3d2e1f0)
    requires forall i | 0 <= i < n :: IsHashed(hs[i + 1], hs[i], Padded(m)[64 * i..64 * i + 64], ws[i], vs[i])
    ensures hs[n] == HashValue(m, n)
    decreases n
  {
    hide *;
    if n == 0 {
      HashValueStarts(m);
    } else {
      var block := Padded(m)[64 * (n - 1)..64 * (n - 1) + 64];
      HashesAre(m, hs, ws, vs, n - 1);
      HashedOnce(hs[n], hs[n - 1], block, ws[n - 1], vs[n - 1]);
      HashValueIs(m, n - 1);
    }
  }

  lemma HashedOnce(u: State, h: State, block: seq<byte>, w: seq<word>, v: seq<State>)
    requires |block| == 64 && IsHashed(u, h, block, w, v)
    ensures u == Compress(h, block)
  {
    hide IsSchedule, IsRun, AddState, Compress, Working;
    RunIs(v, w, h, block, 80);
    CompressionIs(h, block);
  }
}
