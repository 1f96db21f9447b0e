/**
 SHA-1 (src/base/unverified_sha1.cc) against FIPS 180-4: the padding iterator yields the blocks of
 the padded message of section 5.1.1 one by one, and the digest is the hash computation of
 section 6.1.2 folded over them.
 */
module Sha1 {
  type byte = bv8
  type word = bv32

  const SIZE_LIMIT: nat := 0x1_0000_0000_0000_0000

  // ---- The padded message, section 5.1.1 ----

  function Zeros(n: nat): (r: seq<byte>)
    ensures |r| == n
  {
    seq(n, _ => 0)
  }

  // The eight bytes of a 64-bit number, most significant first; larger numbers wrap round.
  function BigEndian64(n: nat): (r: seq<byte>)
    ensures |r| == 8
  {
    [LowByte(n / 0x100_0000_0000_0000), LowByte(n / 0x1_0000_0000_0000),
     LowByte(n / 0x100_0000_0000), LowByte(n / 0x1_0000_0000),
     LowByte(n / 0x100_0000), LowByte(n / 0x1_0000), LowByte(n / 0x100), LowByte(n)]
  }

  function LowByte(n: nat): byte {
    (n % 256) as byte
  }

  // How many zero bytes follow the end marker of a message of n bytes.
  function ZeroFill(n: nat): (k: nat)
    ensures (n + k + 9) % 64 == 0
  {
    if n % 64 < 56 then 55 - n % 64 else 119 - n % 64
  }

  // It is the least number that leaves the last eight bytes of a block for the length.
  lemma ZeroFillIsLeast(n: nat, k: nat)
    requires (n + 1 + k) % 64 == 56
    ensures (n + 1 + ZeroFill(n)) % 64 == 56 && ZeroFill(n) <= k
  {}

  function Padded(m: seq<byte>): (r: seq<byte>)
    ensures |r| == |m| + ZeroFill(|m|) + 9 && |r| % 64 == 0
  {
    hide BigEndian64, ZeroFill;
    m + [0x80] + Zeros(ZeroFill(|m|)) + BigEndian64(8 * |m|)
  }

  function PaddedBlock(m: seq<byte>, i: nat): (r: seq<byte>)
    requires 64 * i + 64 <= |Padded(m)|
    ensures |r| == 64
  {
    Padded(m)[64 * i..64 * i + 64]
  }

  // What one block of the padded message holds, by where the message ends.

  lemma BlockInside(m: seq<byte>, i: nat)
    requires 64 * i + 64 <= |m|
    ensures 64 * i + 64 <= |Padded(m)| && PaddedBlock(m, i) == m[64 * i..64 * i + 64]
  {
    hide BigEndian64;
  }

  lemma BlockWithEnd(m: seq<byte>, i: nat)
    requires 64 * i <= |m| < 64 * i + 64
    ensures 64 * i + 64 <= |Padded(m)|
    ensures var rest := m[64 * i..];
      PaddedBlock(m, i) == rest + [0x80] +
        if |rest| < 56 then Zeros(55 - |rest|) + BigEndian64(8 * |m|) else Zeros(63 - |rest|)
  {
    hide BigEndian64;
    EndOffset(|m|, i);
  }

  lemma EndOffset(n: nat, i: nat)
    requires 64 * i <= n < 64 * i + 64
    ensures n % 64 == n - 64 * i
  {}

  lemma BlockAfterEnd(m: seq<byte>, i: nat)
    requires |m| < 64 * i && 64 * i + 64 <= |m| + ZeroFill(|m|) + 9
    ensures PaddedBlock(m, i) == Zeros(56) + BigEndian64(8 * |m|)
  {
    hide BigEndian64;
    EndOffset(|m|, i - 1);
  }

  // ---- The iterator ----

  // GetTotalMessageCount, in the 64-bit arithmetic of size_t.
  function TotalMessageCount(size: nat): nat {
    ((size + 1 + 8 + 63) % SIZE_LIMIT) / 64
  }

  // The count is right exactly when its own arithmetic does not wrap round.
  lemma CountIsExact(m: seq<byte>)
    requires |m| < SIZE_LIMIT
    ensures TotalMessageCount(|m|) == |Padded(m)| / 64 <==> |m| + 72 < SIZE_LIMIT
  {
    var n := |m|;
    var q, r, s := n / 64, n % 64, n + 72;
    var blocks := if r < 56 then q + 1 else q + 2;
    assert n == 64 * q + r;
    assert n + ZeroFill(n) + 9 == 64 * blocks;
    assert s / 64 == blocks;
    if s < SIZE_LIMIT {
      assert s % SIZE_LIMIT == s;
    } else {
      assert s % SIZE_LIMIT == s - SIZE_LIMIT < 72;
    }
  }

  // What follows the marker in its block, or in one after it.
  function RestOfBlock(source: seq<byte>, cursor: nat): seq<byte>
    requires cursor <= 64
  {
    if cursor > 56 then Zeros(64 - cursor) else Zeros(56 - cursor) + BigEndian64(8 * |source|)
  }

  class PaddedMessageIterator {
    const source: seq<byte>
    const numTotalMessage: nat
    var messageIndex: nat

    constructor (source: seq<byte>)
      ensures this.source == source && messageIndex == 0
      ensures numTotalMessage == TotalMessageCount(|source|)
    {
      this.source := source;
      numTotalMessage := TotalMessageCount(|source|);
      messageIndex := 0;
    }

    predicate HasMessage()
      reads this
    {
      messageIndex < numTotalMessage
    }

    // What of the message belongs to this block, and the marker if the message ends here.
    method FillData(dest: array<byte>) returns (full: bool, cursor: nat)
      requires dest.Length == 64
      requires 64 * messageIndex + 64 <= |Padded(source)|
      modifies dest
      ensures full ==> dest[..] == PaddedBlock(source, messageIndex)
      ensures !full ==> cursor <= 64
      ensures !full ==> PaddedBlock(source, messageIndex) == dest[..cursor] + RestOfBlock(source, cursor)
    {
      hide Padded, PaddedBlock, BigEndian64, Zeros;
      var baseIndex := messageIndex * 64;
      cursor := 0;
      if baseIndex < |source| {
        var rest := |source| - baseIndex;
        if rest >= 64 {
          BlockInside(source, messageIndex);
          Copy(source, baseIndex, dest, 64);
          return true, 64;
        }
        Copy(source, baseIndex, dest, rest);
        cursor := rest;
      }
      assert dest[..cursor] == if baseIndex < |source| then source[baseIndex..] else [];

      // The message ends in this block, or ended before it.
      if baseIndex + cursor == |source| {
        BlockWithEnd(source, messageIndex);
        dest[cursor] := 0x80;
        cursor := cursor + 1;
        assert dest[..cursor] == source[baseIndex..] + [0x80];
      } else {
        BlockAfterEnd(source, messageIndex);
      }
      return false, cursor;
    }

    method FillNextMessage(dest: array<byte>)
      requires dest.Length == 64
      requires 64 * messageIndex + 64 <= |Padded(source)|
      modifies dest
      ensures dest[..] == PaddedBlock(source, messageIndex)
    {
      hide Padded, PaddedBlock, BigEndian64, Zeros;
      var full, cursor := FillData(dest);
      if full {
        return;
      }
      ghost var start := dest[..cursor];
      if cursor > 56 {
        Fill(dest, cursor, 64);
        assert dest[..] == start + Zeros(64 - cursor);
        return;
      }
      Fill(dest, cursor, 56);
      assert dest[..56] == start + Zeros(56 - cursor);
      StoreLength(8 * |source|, dest);
    }

    method MoveNext()
      modifies this
      ensures messageIndex == old(messageIndex) + 1
    {
      messageIndex := messageIndex + 1;
    }
  }

  method Copy(source: seq<byte>, from: nat, dest: array<byte>, n: nat)
    requires from + n <= |source| && n <= dest.Length
    modifies dest
    ensures dest[..] == source[from..from + n] + old(dest[n..])
  {
    for j := 0 to n
      invariant forall k | 0 <= k < j :: dest[k] == source[from + k]
      invariant forall k | j <= k < dest.Length :: dest[k] == old(dest[k])
    {
      dest[j] := source[from + j];
    }
  }

  method Fill(dest: array<byte>, from: nat, to: nat)
    requires from <= to <= dest.Length
    modifies dest
    ensures dest[..] == old(dest[..from]) + Zeros(to - from) + old(dest[to..])
  {
    for j := from to to
      invariant dest[..] == old(dest[..from]) + Zeros(j - from) + old(dest[j..])
    {
      dest[j] := 0;
    }
  }

  // Writes the length over the last eight bytes of the block.
  method StoreLength(bits: nat, dest: array<byte>)
    requires dest.Length == 64
    modifies dest
    ensures dest[..] == old(dest[..56]) + BigEndian64(bits)
  {
    hide LowByte;
    var b := BigEndian64(bits);
    for j := 0 to 8
      invariant dest[..] == old(dest[..56]) + b[..j] + old(dest[56 + j..])
    {
      dest[56 + j] := b[j];
    }
  }

  // ---- Functions and constants, sections 3.2, 4.1.1 and 4.2.1 ----

  function Rotl(x: word, n: nat): word
    requires n < 32
  {
    x.RotateLeft(n)
  }

  // The rotation as section 3.2 defines it, for the three amounts in use.
  lemma RotlIsShifts(x: word)
    ensures Rotl(x, 1) == (x << 1) | (x >> 31)
    ensures Rotl(x, 5) == (x << 5) | (x >> 27)
    ensures Rotl(x, 30) == (x << 30) | (x >> 2)
  {}

  function F(t: nat, x: word, y: word, z: word): word {
    if t < 20 then (x & y) ^ (!x & z)
    else if t < 40 then x ^ y ^ z
    else if t < 60 then (x & y) ^ (x & z) ^ (y & z)
    else x ^ y ^ z
  }

  // The forms FIPS 180-1 gave for the first and third ranges.
  lemma FIsChooseAndMajority(t: nat, x: word, y: word, z: word)
    ensures t < 20 ==> F(t, x, y, z) == (x & y) | (!x & z)
    ensures 40 <= t < 60 ==> F(t, x, y, z) == (x & y) | (x & z) | (y & z)
  {}

  function K(t: nat): word {
    if t < 20 then 0x5a827999
    else if t < 40 then 0x6ed9eba1
    else if t < 60 then 0x8f1bbcdc
    else 0xca62c1d6
  }

  // ---- Words and bytes ----

  function WordAt(b: seq<byte>, i: nat): word
    requires i + 4 <= |b|
  {
    (b[i] as word << 24) | (b[i + 1] as word << 16) | (b[i + 2] as word << 8) | b[i + 3] as word
  }

  function WordBytes(w: word): (r: seq<byte>)
    ensures |r| == 4
  {
    [((w >> 24) & 0xff) as byte, ((w >> 16) & 0xff) as byte, ((w >> 8) & 0xff) as byte, (w & 0xff) as byte]
  }

  // Both conversions are big-endian: reading back what was written gives the word.
  lemma WordAtWordBytes(w: word)
    ensures WordAt(WordBytes(w), 0) == w
  {}

  // ---- The hash computation, section 6.1.2 ----

  datatype State = State(a: word, b: word, c: word, d: word, e: word)

  const INITIAL := State(0x67452301, 0xefcdab89, 0x98badcfe, 0x10325476, 0xc3d2e1f0)

  function MixedWord(p: word, q: word, r: word, s: word): word {
    Rotl(p ^ q ^ r ^ s, 1)
  }

  function ScheduleWord(block: seq<byte>, t: nat): word
    requires |block| == 64
  {
    if t < 16 then WordAt(block, 4 * t)
    else MixedWord(ScheduleWord(block, t - 3), ScheduleWord(block, t - 8),
                   ScheduleWord(block, t - 14), ScheduleWord(block, t - 16))
  }

  // Sums are modulo 2^32.
  function Sum5(p: word, q: word, r: word, s: word, t: word): word {
    p + q + r + s + t
  }

  function Plus(x: word, y: word): word { x + y }

  function AddState(h: State, s: State): State {
    State(Plus(h.a, s.a), Plus(h.b, s.b), Plus(h.c, s.c), Plus(h.d, s.d), Plus(h.e, s.e))
  }

  function Step(s: State, t: nat, w: word): State {
    State(Sum5(Rotl(s.a, 5), F(t, s.b, s.c, s.d), s.e, w, K(t)), s.a, Rotl(s.b, 30), s.c, s.d)
  }

  // The working variables after the first t of the 80 steps.
  function Working(h: State, block: seq<byte>, t: nat): State
    requires |block| == 64
  {
    if t == 0 then h else Step(Working(h, block, t - 1), t - 1, ScheduleWord(block, t - 1))
  }

  function Compress(h: State, block: seq<byte>): State
    requires |block| == 64
  {
    var s := Working(h, block, 80);
    AddState(h, s)
  }

  // The hash value after the first n blocks of the padded message.
  function HashValue(m: seq<byte>, n: nat): State
    requires 64 * n <= |Padded(m)|
  {
    if n == 0 then INITIAL else Compress(HashValue(m, n - 1), PaddedBlock(m, n - 1))
  }

  function StateBytes(h: State): (r: seq<byte>)
    ensures |r| == 20
  {
    WordBytes(h.a) + WordBytes(h.b) + WordBytes(h.c) + WordBytes(h.d) + WordBytes(h.e)
  }

  function Digest(m: seq<byte>): (r: seq<byte>)
    ensures |r| == 20
  {
    StateBytes(HashValue(m, |Padded(m)| / 64))
  }

  method MakeSchedule(message: seq<byte>, W: array<word>)
    requires |message| == 64 && W.Length == 80
    modifies W
    ensures forall t | 0 <= t < 80 :: W[t] == ScheduleWord(message, t)
  {
    hide WordAt, MixedWord;
    for i := 0 to 16
      invariant forall t | 0 <= t < i :: W[t] == ScheduleWord(message, t)
    {
      W[i] := WordAt(message, i * 4);
    }
    for t := 16 to 80
      invariant forall u | 0 <= u < t :: W[u] == ScheduleWord(message, u)
    {
      W[t] := MixedWord(W[t - 3], W[t - 8], W[t - 14], W[t - 16]);
    }
  }

  // The recursion of Working as the loop over steps follows it.

  lemma NextStep(h: State, block: seq<byte>, t: nat, s: State)
    requires |block| == 64 && s == Working(h, block, t)
    ensures Working(h, block, t + 1)
         == State(Sum5(Rotl(s.a, 5), F(t, s.b, s.c, s.d), s.e, ScheduleWord(block, t), K(t)),
                  s.a, Rotl(s.b, 30), s.c, s.d)
  {
    hide ScheduleWord, Rotl, F, K, Sum5, AddState;
  }

  lemma StepsFromStart(h: State, block: seq<byte>)
    requires |block| == 64
    ensures Working(h, block, 0) == h
    ensures var s := Working(h, block, 80);
      Compress(h, block) == AddState(h, s)
  {
    hide ScheduleWord, Step, AddState;
  }

  // The body of MakeDigestImpl's loop over blocks.
  method CompressBlock(H: State, message: array<byte>) returns (r: State)
    requires message.Length == 64
    ensures r == Compress(H, message[..])
  {
    hide ScheduleWord, Rotl, F, K, Sum5, AddState, Step, Working, Compress;
    ghost var block := message[..];
    StepsFromStart(H, block);
    var W := new word[80];
    MakeSchedule(message[..], W);
    var a, b, c, d, e := H.a, H.b, H.c, H.d, H.e;
    for t := 0 to 80
      invariant forall u | 0 <= u < 80 :: W[u] == ScheduleWord(block, u)
      invariant State(a, b, c, d, e) == Working(H, block, t)
    {
      NextStep(H, block, t, State(a, b, c, d, e));
      var T := Sum5(Rotl(a, 5), F(t, b, c, d), e, W[t], K(t));
      e := d;
      d := c;
      c := Rotl(b, 30);
      b := a;
      a := T;
    }
    r := AddState(H, State(a, b, c, d, e));
  }

  method MakeDigestImpl(source: seq<byte>) returns (digest: seq<byte>)
    requires |source| + 72 < SIZE_LIMIT
    ensures digest == Digest(source)
  {
    hide Padded, Compress, PaddedBlock;
    var H := INITIAL;
    CountIsExact(source);
    var it := new PaddedMessageIterator(source);
    while it.HasMessage()
      invariant fresh(it) && it.source == source && it.numTotalMessage == |Padded(source)| / 64
      invariant it.messageIndex <= it.numTotalMessage
      invariant H == HashValue(source, it.messageIndex)
      decreases it.numTotalMessage - it.messageIndex
    {
      var message := new byte[64];
      it.FillNextMessage(message);
      H := CompressBlock(H, message);
      it.MoveNext();
    }
    digest := StateBytes(H);
  }
}
