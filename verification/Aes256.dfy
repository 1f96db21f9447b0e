/**
 AES-256 on 16-byte blocks and its CBC chain (src/base/unverified_aes256.cc).

 The functions state each step as FIPS 197 does, on the block as a value; byte r + 4c of a block is
 row r of column c of the State. The methods are the program's: they overwrite a stretch of the
 caller's buffer, and each is proved to write exactly what its function says and nothing else.
 */
module Aes256 {
  import opened Gf256
  import opened AesSBox

  const KEY_SCHEDULE_BYTES: nat := 240

  type Block = s: seq<byte> | |s| == 16 witness seq(16, _ => 0)
  type Key = s: seq<byte> | |s| == 32 witness seq(32, _ => 0)
  type Schedule = s: seq<byte> | |s| == 240 witness seq(240, _ => 0)

  // Nr: the schedule holds one round key for each round and one to start with.
  function Nr(w: Schedule): (n: nat)
    ensures n == 14
  {
    |w| / 16 - 1
  }

  // ---- The steps of a round ----

  function XorBytes(a: Block, b: Block): (r: Block) {
    seq(16, i requires 0 <= i < 16 => a[i] ^ b[i])
  }

  function RoundKey(w: Schedule, round: nat): (r: Block)
    requires round <= Nr(w)
  {
    w[16 * round..16 * round + 16]
  }

  function SubBytes(b: Block): (r: Block) {
    seq(16, i requires 0 <= i < 16 => SBox(b[i]))
  }

  function InvSubBytes(b: Block): (r: Block) {
    seq(16, i requires 0 <= i < 16 => InvSBox(b[i]))
  }

  // Row r moves r columns to the left (section 5.1.2), or back to the right (section 5.3.1).
  function ShiftRows(b: Block): (r: Block) {
    seq(16, i requires 0 <= i < 16 => b[Cell(i % 4, i / 4 + i % 4)])
  }

  function InvShiftRows(b: Block): (r: Block) {
    seq(16, i requires 0 <= i < 16 => b[Cell(i % 4, i / 4 + 4 - i % 4)])
  }

  // The place in a block of row r, column c, where columns 4 to 7 are columns 0 to 3 again.
  function Cell(r: nat, c: nat): (i: nat)
    requires r < 4 && c < 8
    ensures i < 16
  {
    r + 4 * if c < 4 then c else c - 4
  }

  // One row of the column matrices, applied to a column read from its own row downwards.
  function MixByte(a: byte, b: byte, c: byte, d: byte): byte {
    Sum(Xtime(a), Times3(b), c, d)
  }

  function InvMixByte(a: byte, b: byte, c: byte, d: byte): byte {
    Sum(Times14(a), Times11(b), Times13(c), Times9(d))
  }

  function MixColumns(b: Block): (r: Block) {
    seq(16, i requires 0 <= i < 16 => MixByte(b[i], b[Below(i, 1)], b[Below(i, 2)], b[Below(i, 3)]))
  }

  function InvMixColumns(b: Block): (r: Block) {
    seq(16, i requires 0 <= i < 16 => InvMixByte(b[i], b[Below(i, 1)], b[Below(i, 2)], b[Below(i, 3)]))
  }

  // The place k rows below place i in its column, wrapping round at the foot.
  function Below(i: nat, k: nat): (j: nat)
    requires i < 16 && k < 4
    ensures j < 16
  {
    var r := i % 4 + k;
    Cell(if r < 4 then r else r - 4, i / 4)
  }

  // The matrix rows as FIPS 197 writes them, equations 5.6 and 5.10.
  lemma MixByteIsMatrixRow(a: byte, b: byte, c: byte, d: byte)
    ensures MixByte(a, b, c, d) == Mul(2, a) ^ Mul(3, b) ^ c ^ d
  {
    hide Mul, Xtime, Times3;
    XtimeIsMul(a);
    Times3IsMul(b);
  }

  lemma InvMixByteIsMatrixRow(a: byte, b: byte, c: byte, d: byte)
    ensures InvMixByte(a, b, c, d) == Mul(14, a) ^ Mul(11, b) ^ Mul(13, c) ^ Mul(9, d)
  {
    hide Mul, Times14, Times11, Times13, Times9;
    Times14IsMul(a);
    Times11IsMul(b);
    Times13IsMul(c);
    Times9IsMul(d);
  }

  // ---- Each step is undone by its inverse ----

  lemma XorUndoesXor(a: Block, k: Block)
    ensures XorBytes(XorBytes(a, k), k) == a
  {
    forall i | 0 <= i < 16 ensures XorBytes(XorBytes(a, k), k)[i] == a[i] {
      assert (a[i] ^ k[i]) ^ k[i] == a[i];
    }
  }

  lemma SubBytesInverse(b: Block)
    ensures InvSubBytes(SubBytes(b)) == b
    ensures SubBytes(InvSubBytes(b)) == b
  {
    forall i | 0 <= i < 16
      ensures InvSubBytes(SubBytes(b))[i] == b[i] && SubBytes(InvSubBytes(b))[i] == b[i]
    {
      InvSBoxUndoesSBox(b[i]);
    }
  }

  lemma ShiftRowsInverse(b: Block)
    ensures InvShiftRows(ShiftRows(b)) == b
    ensures ShiftRows(InvShiftRows(b)) == b
  {
    forall i | 0 <= i < 16
      ensures InvShiftRows(ShiftRows(b))[i] == b[i] && ShiftRows(InvShiftRows(b))[i] == b[i]
    {
      hide Cell;
      ShiftedBack(i);
      var right, left := Cell(i % 4, i / 4 + 4 - i % 4), Cell(i % 4, i / 4 + i % 4);
      assert ShiftRows(b)[right] == b[i] && InvShiftRows(b)[left] == b[i];
    }
  }

  lemma ShiftedBack(i: nat)
    requires i < 16
    ensures var j := Cell(i % 4, i / 4 + 4 - i % 4); Cell(j % 4, j / 4 + j % 4) == i
    ensures var j := Cell(i % 4, i / 4 + i % 4); Cell(j % 4, j / 4 + 4 - j % 4) == i
  {
    var r, c := i % 4, i / 4;
    var right := if c < r then c + 4 - r else c - r;
    var left := if c + r < 4 then c + r else c + r - 4;
    assert (r + 4 * right) % 4 == r && (r + 4 * right) / 4 == right;
    assert (r + 4 * left) % 4 == r && (r + 4 * left) / 4 == left;
  }

  lemma InvMixOfMix(a: byte, b: byte, c: byte, d: byte)
    ensures InvMixByte(MixByte(a, b, c, d), MixByte(b, c, d, a), MixByte(c, d, a, b), MixByte(d, a, b, c)) == a
  {
    SumTimes14(Xtime(a), Times3(b), c, d);
    SumTimes11(a, Xtime(b), Times3(c), d);
    SumTimes13(a, b, Xtime(c), Times3(d));
    SumTimes9(Times3(a), b, c, Xtime(d));
    SumTransposed(Times14(Xtime(a)), Times14(Times3(b)), Times14(c), Times14(d),
                  Times11(a), Times11(Xtime(b)), Times11(Times3(c)), Times11(d),
                  Times13(a), Times13(b), Times13(Xtime(c)), Times13(Times3(d)),
                  Times9(Times3(a)), Times9(b), Times9(c), Times9(Xtime(d)));
    InverseRows(a);
    InverseRows(b);
    InverseRows(c);
    InverseRows(d);
    SumRotated(Xtime(b), Times3(c), d, a);
    SumRotated2(Xtime(c), Times3(d), a, b);
    SumRotated3(Xtime(d), Times3(a), b, c);
    SumOfOne(a);
  }

  lemma MixOfInvMix(a: byte, b: byte, c: byte, d: byte)
    ensures MixByte(InvMixByte(a, b, c, d), InvMixByte(b, c, d, a), InvMixByte(c, d, a, b), InvMixByte(d, a, b, c)) == a
  {
    SumXtime(Times14(a), Times11(b), Times13(c), Times9(d));
    SumTimes3(Times14(b), Times11(c), Times13(d), Times9(a));
    SumTransposed(Xtime(Times14(a)), Xtime(Times11(b)), Xtime(Times13(c)), Xtime(Times9(d)),
                  Times3(Times9(a)), Times3(Times14(b)), Times3(Times11(c)), Times3(Times13(d)),
                  Times13(a), Times9(b), Times14(c), Times11(d),
                  Times11(a), Times13(b), Times9(c), Times14(d));
    SumRotated(Times3(Times14(b)), Times3(Times11(c)), Times3(Times13(d)), Times3(Times9(a)));
    SumRotated2(Times14(c), Times11(d), Times13(a), Times9(b));
    SumRotated3(Times14(d), Times11(a), Times13(b), Times9(c));
    InverseColumns(a);
    InverseColumns(b);
    InverseColumns(c);
    InverseColumns(d);
    SumOfOne(a);
  }

  lemma MixColumnsInverse(b: Block)
    ensures InvMixColumns(MixColumns(b)) == b
    ensures MixColumns(InvMixColumns(b)) == b
  {
    forall i | 0 <= i < 16
      ensures InvMixColumns(MixColumns(b))[i] == b[i] && MixColumns(InvMixColumns(b))[i] == b[i]
    {
      hide Below, MixByte, InvMixByte;
      BelowWraps(i);
      InvMixOfMix(b[i], b[Below(i, 1)], b[Below(i, 2)], b[Below(i, 3)]);
      MixOfInvMix(b[i], b[Below(i, 1)], b[Below(i, 2)], b[Below(i, 3)]);
    }
  }

  lemma BelowWraps(i: nat)
    requires i < 16
    ensures Below(Below(i, 1), 3) == Below(Below(i, 2), 2) == Below(Below(i, 3), 1) == i
    ensures Below(Below(i, 2), 3) == Below(Below(i, 3), 2) == Below(i, 1)
    ensures Below(Below(i, 1), 1) == Below(Below(i, 3), 3) == Below(i, 2)
    ensures Below(Below(i, 1), 2) == Below(Below(i, 2), 1) == Below(i, 3)
  {
    hide Below;
    BelowTwice(i, 1, 3);
    BelowTwice(i, 2, 2);
    BelowTwice(i, 3, 1);
    BelowTwice(i, 2, 3);
    BelowTwice(i, 3, 2);
    BelowTwice(i, 1, 1);
    BelowTwice(i, 3, 3);
    BelowTwice(i, 1, 2);
    BelowTwice(i, 2, 1);
  }

  lemma BelowTwice(i: nat, k: nat, l: nat)
    requires i < 16 && k < 4 && l < 4
    ensures Below(Below(i, k), l) == if k + l == 4 then i else Below(i, if k + l < 4 then k + l else k + l - 4)
  {
    var r, c := i % 4, i / 4;
    var s := if r + k < 4 then r + k else r + k - 4;
    assert Below(i, k) == s + 4 * c;
    assert (s + 4 * c) % 4 == s && (s + 4 * c) / 4 == c;
  }

  // ---- The cipher and its inverse (sections 5.1 and 5.3) ----

  function Round(w: Schedule, b: Block, round: nat): (r: Block)
    requires round <= Nr(w)
  {
    XorBytes(MixColumns(ShiftRows(SubBytes(b))), RoundKey(w, round))
  }

  function InvRound(w: Schedule, b: Block, round: nat): (r: Block)
    requires round <= Nr(w)
  {
    InvSubBytes(InvShiftRows(InvMixColumns(XorBytes(b, RoundKey(w, round)))))
  }

  // The State after the first n full rounds.
  function Rounds(w: Schedule, b: Block, n: nat): (r: Block)
    requires n <= Nr(w)
  {
    if n == 0 then XorBytes(b, RoundKey(w, 0)) else Round(w, Rounds(w, b, n - 1), n)
  }

  // The State after the inverse rounds n, n - 1, ..., 1.
  function InvRounds(w: Schedule, b: Block, n: nat): (r: Block)
    requires n <= Nr(w)
    decreases n
  {
    if n == 0 then b else InvRounds(w, InvRound(w, b, n), n - 1)
  }

  // The last round leaves out the mixing of columns.
  function LastRound(w: Schedule, b: Block): (r: Block) {
    XorBytes(ShiftRows(SubBytes(b)), RoundKey(w, Nr(w)))
  }

  function InvLastRound(w: Schedule, b: Block): (r: Block) {
    InvSubBytes(InvShiftRows(XorBytes(b, RoundKey(w, Nr(w)))))
  }

  function Cipher(w: Schedule, b: Block): (r: Block) {
    LastRound(w, Rounds(w, b, Nr(w) - 1))
  }

  function InvCipher(w: Schedule, b: Block): (r: Block) {
    XorBytes(InvRounds(w, InvLastRound(w, b), Nr(w) - 1), RoundKey(w, 0))
  }

  lemma RoundInverse(w: Schedule, b: Block, round: nat)
    requires round <= Nr(w)
    ensures InvRound(w, Round(w, b, round), round) == b
    ensures Round(w, InvRound(w, b, round), round) == b
  {
    hide SubBytes, ShiftRows, MixColumns, InvSubBytes, InvShiftRows, InvMixColumns, XorBytes;
    var mixed := MixColumns(ShiftRows(SubBytes(b)));
    XorUndoesXor(mixed, RoundKey(w, round));
    MixColumnsInverse(ShiftRows(SubBytes(b)));
    ShiftRowsInverse(SubBytes(b));
    SubBytesInverse(b);
    var keyed := XorBytes(b, RoundKey(w, round));
    XorUndoesXor(b, RoundKey(w, round));
    MixColumnsInverse(keyed);
    ShiftRowsInverse(InvMixColumns(keyed));
    SubBytesInverse(InvShiftRows(InvMixColumns(keyed)));
  }

  lemma {:induction false} InvRoundsUndoRounds(w: Schedule, b: Block, n: nat)
    requires n <= Nr(w)
    ensures InvRounds(w, Rounds(w, b, n), n) == XorBytes(b, RoundKey(w, 0))
  {
    hide Round, InvRound, XorBytes;
    if n > 0 {
      RoundInverse(w, Rounds(w, b, n - 1), n);
      InvRoundsUndoRounds(w, b, n - 1);
    }
  }

  lemma {:induction false} RoundsUndoInvRounds(w: Schedule, b: Block, n: nat)
    requires n <= Nr(w)
    ensures Rounds(w, XorBytes(InvRounds(w, b, n), RoundKey(w, 0)), n) == b
    decreases n
  {
    hide Round, InvRound, XorBytes;
    if n == 0 {
      XorUndoesXor(b, RoundKey(w, 0));
    } else {
      RoundInverse(w, b, n);
      RoundsUndoInvRounds(w, InvRound(w, b, n), n - 1);
    }
  }

  lemma LastRoundInverse(w: Schedule, b: Block)
    ensures InvLastRound(w, LastRound(w, b)) == b
    ensures LastRound(w, InvLastRound(w, b)) == b
  {
    hide SubBytes, ShiftRows, InvSubBytes, InvShiftRows, XorBytes;
    XorUndoesXor(ShiftRows(SubBytes(b)), RoundKey(w, Nr(w)));
    ShiftRowsInverse(SubBytes(b));
    SubBytesInverse(b);
    var keyed := XorBytes(b, RoundKey(w, Nr(w)));
    XorUndoesXor(b, RoundKey(w, Nr(w)));
    ShiftRowsInverse(keyed);
    SubBytesInverse(InvShiftRows(keyed));
  }

  // InverseTransformECB undoes TransformECB, and the reverse, for every schedule and every block.
  lemma CipherInverse(w: Schedule, b: Block)
    ensures InvCipher(w, Cipher(w, b)) == b
    ensures Cipher(w, InvCipher(w, b)) == b
  {
    hide LastRound, InvLastRound, XorBytes, Rounds, InvRounds;
    LastRoundInverse(w, Rounds(w, b, Nr(w) - 1));
    InvRoundsUndoRounds(w, b, Nr(w) - 1);
    XorUndoesXor(b, RoundKey(w, 0));

    LastRoundInverse(w, b);
    RoundsUndoInvRounds(w, InvLastRound(w, b), Nr(w) - 1);
  }

  // ---- Cipher block chaining (SP 800-38A, section 6.2) ----

  function CbcEncrypt(w: Schedule, iv: Block, data: seq<byte>): (r: seq<byte>)
    requires |data| % 16 == 0
    ensures |r| == |data|
    decreases |data|
  {
    if data == [] then []
    else
      var c := Cipher(w, XorBytes(data[..16], iv));
      c + CbcEncrypt(w, c, data[16..])
  }

  function CbcDecrypt(w: Schedule, iv: Block, data: seq<byte>): (r: seq<byte>)
    requires |data| % 16 == 0
    ensures |r| == |data|
    decreases |data|
  {
    if data == [] then []
    else XorBytes(InvCipher(w, data[..16]), iv) + CbcDecrypt(w, data[..16], data[16..])
  }

  function BlockAt(data: seq<byte>, j: nat): (r: Block)
    requires 16 * j + 16 <= |data|
  {
    data[16 * j..16 * j + 16]
  }

  lemma BlockAtLater(first: Block, rest: seq<byte>, j: nat)
    requires 16 * j <= |rest|
    ensures BlockAt(first + rest, j) == if j == 0 then first else BlockAt(rest, j - 1)
  {}

  // The recurrence of section 6.2: C(j) = CIPH(P(j) + C(j-1)), with the IV before the first block.
  lemma {:induction false} CbcEncryptRecurrence(w: Schedule, iv: Block, data: seq<byte>, j: nat)
    requires |data| % 16 == 0 && 16 * j + 16 <= |data|
    ensures var c := CbcEncrypt(w, iv, data);
      BlockAt(c, j) == Cipher(w, XorBytes(BlockAt(data, j), if j == 0 then iv else BlockAt(c, j - 1)))
    decreases j
  {
    hide Cipher, XorBytes;
    var first := Cipher(w, XorBytes(data[..16], iv));
    var rest := CbcEncrypt(w, first, data[16..]);
    var c := CbcEncrypt(w, iv, data);
    assert c == first + rest;
    if j > 0 {
      CbcEncryptRecurrence(w, first, data[16..], j - 1);
      BlockAtLater(first, rest, j);
      BlockAtLater(data[..16], data[16..], j);
      BlockAtLater(first, rest, j - 1);
      assert data == data[..16] + data[16..];
    }
  }

  // P(j) = CIPH^-1(C(j)) + C(j-1).
  lemma {:induction false} CbcDecryptRecurrence(w: Schedule, iv: Block, data: seq<byte>, j: nat)
    requires |data| % 16 == 0 && 16 * j + 16 <= |data|
    ensures BlockAt(CbcDecrypt(w, iv, data), j)
         == XorBytes(InvCipher(w, BlockAt(data, j)), if j == 0 then iv else BlockAt(data, j - 1))
    decreases j
  {
    hide InvCipher, XorBytes;
    var rest := CbcDecrypt(w, data[..16], data[16..]);
    assert CbcDecrypt(w, iv, data) == XorBytes(InvCipher(w, data[..16]), iv) + rest;
    if j > 0 {
      CbcDecryptRecurrence(w, data[..16], data[16..], j - 1);
      BlockAtLater(XorBytes(InvCipher(w, data[..16]), iv), rest, j);
      BlockAtLater(data[..16], data[16..], j);
      BlockAtLater(data[..16], data[16..], j - 1);
      assert data == data[..16] + data[16..];
    }
  }

  lemma {:induction false} CbcDecryptUndoesEncrypt(w: Schedule, iv: Block, data: seq<byte>)
    requires |data| % 16 == 0
    ensures CbcDecrypt(w, iv, CbcEncrypt(w, iv, data)) == data
    decreases |data|
  {
    hide Cipher, InvCipher, XorBytes;
    if data != [] {
      var x := XorBytes(data[..16], iv);
      var c := Cipher(w, x);
      CbcDecryptUndoesEncrypt(w, c, data[16..]);
      CipherInverse(w, x);
      XorUndoesXor(data[..16], iv);
      var all := CbcEncrypt(w, iv, data);
      assert all[..16] == c && all[16..] == CbcEncrypt(w, c, data[16..]);
      assert data == data[..16] + data[16..];
    }
  }

  lemma {:induction false} CbcEncryptUndoesDecrypt(w: Schedule, iv: Block, data: seq<byte>)
    requires |data| % 16 == 0
    ensures CbcEncrypt(w, iv, CbcDecrypt(w, iv, data)) == data
    decreases |data|
  {
    hide Cipher, InvCipher, XorBytes;
    if data != [] {
      var c: Block := data[..16];
      var p := XorBytes(InvCipher(w, c), iv);
      CbcEncryptUndoesDecrypt(w, c, data[16..]);
      CipherInverse(w, c);
      XorUndoesXor(InvCipher(w, c), iv);
      var all := CbcDecrypt(w, iv, data);
      assert all[..16] == p && all[16..] == CbcDecrypt(w, c, data[16..]);
      assert data == data[..16] + data[16..];
    }
  }

  // ---- Key expansion (section 5.2, with Nk = 8 and Nr = 14) ----

  type Word = s: seq<byte> | |s| == 4 witness seq(4, _ => 0)

  function SubWord(t: Word): (r: Word) {
    seq(4, i requires 0 <= i < 4 => SBox(t[i]))
  }

  function RotWord(t: Word): (r: Word) {
    t[1..] + t[..1]
  }

  // The round constant x^(i-1) of the field, for i >= 1.
  function Rcon(i: nat): byte {
    if i <= 1 then 1 else Xtime(Rcon(i - 1))
  }

  function RconWord(i: nat): (r: Word) {
    seq(4, j requires 0 <= j < 4 => if j == 0 then Rcon(i) else 0)
  }

  function XorWord(a: Word, b: Word): (r: Word) {
    seq(4, i requires 0 <= i < 4 => a[i] ^ b[i])
  }

  // What word m - 1 contributes to word m.
  function Transformed(m: nat, t: Word): (r: Word) {
    if m % 8 == 0 then XorWord(SubWord(RotWord(t)), RconWord(m / 8))
    else if m % 8 == 4 then SubWord(t)
    else t
  }

  function ExpandedWord(key: Key, m: nat): (r: Word) {
    if m < 8 then key[4 * m..4 * m + 4]
    else XorWord(ExpandedWord(key, m - 8), Transformed(m, ExpandedWord(key, m - 1)))
  }

  function ScheduleByte(key: Key, j: nat): byte {
    ExpandedWord(key, j / 4)[j % 4]
  }

  function KeySchedule(key: Key): (w: Schedule) {
    seq(240, j requires 0 <= j < 240 => ScheduleByte(key, j))
  }

  // ---- The program's steps, in place ----

  // s with the bytes from place at onwards overwritten by b.
  function Splice(s: seq<byte>, at: nat, b: seq<byte>): (r: seq<byte>)
    requires at + |b| <= |s|
  {
    s[..at] + b + s[at + |b|..]
  }

  lemma SpliceAgain(s: seq<byte>, at: nat, a: seq<byte>, b: seq<byte>)
    requires at + |a| <= |s| && |a| == |b|
    ensures Splice(Splice(s, at, a), at, b) == Splice(s, at, b)
    ensures Splice(s, at, a)[at..at + |a|] == a
  {}

  // The loops that add one block to another, in AddRoundKey and in the chains.
  method XorInto(block: array<byte>, at: nat, v: Block)
    requires at + 16 <= block.Length
    modifies block
    ensures block[..] == Splice(old(block[..]), at, XorBytes(old(block[at..at + 16]), v))
  {
    ghost var b: Block := block[at..at + 16];
    for j := 0 to 16
      invariant forall k | at <= k < at + j :: block[k] == old(block[k]) ^ v[k - at]
      invariant forall k | 0 <= k < block.Length && !(at <= k < at + j) :: block[k] == old(block[k])
    {
      block[at + j] := block[at + j] ^ v[j];
    }
    WholeIsSplice(block[..], old(block[..]), at, XorBytes(b, v));
  }

  method AddRoundKey(block: array<byte>, at: nat, w: array<byte>, k: nat)
    requires at + 16 <= block.Length && k + 16 <= w.Length && block != w
    modifies block
    ensures block[..] == Splice(old(block[..]), at, XorBytes(old(block[at..at + 16]), w[k..k + 16]))
  {
    hide XorBytes;
    XorInto(block, at, w[k..k + 16]);
  }

  // Recognises a splice from its bytes.
  lemma WholeIsSplice(t: seq<byte>, s: seq<byte>, at: nat, b: seq<byte>)
    requires at + |b| <= |s| == |t|
    requires forall j | at <= j < at + |b| :: t[j] == b[j - at]
    requires forall j | 0 <= j < |s| && !(at <= j < at + |b|) :: t[j] == s[j]
    ensures t == Splice(s, at, b)
  {}

  method SubBytesInPlace(block: array<byte>, at: nat)
    requires at + 16 <= block.Length
    modifies block
    ensures block[..] == Splice(old(block[..]), at, SubBytes(old(block[at..at + 16])))
  {
    hide SBox;
    ghost var b: Block := block[at..at + 16];
    for i := 0 to 16
      invariant forall j | at <= j < at + i :: block[j] == SBox(old(block[j]))
      invariant forall j | 0 <= j < block.Length && !(at <= j < at + i) :: block[j] == old(block[j])
    {
      block[at + i] := SBox(block[at + i]);
    }
    WholeIsSplice(block[..], old(block[..]), at, SubBytes(b));
  }

  method InvSubBytesInPlace(block: array<byte>, at: nat)
    requires at + 16 <= block.Length
    modifies block
    ensures block[..] == Splice(old(block[..]), at, InvSubBytes(old(block[at..at + 16])))
  {
    hide InvSBox;
    for i := 0 to 16
      invariant forall j | at <= j < at + i :: block[j] == InvSBox(old(block[j]))
      invariant forall j | 0 <= j < block.Length && !(at <= j < at + i) :: block[j] == old(block[j])
    {
      block[at + i] := InvSBox(block[at + i]);
    }
    WholeIsSplice(block[..], old(block[..]), at, InvSubBytes(old(block[at..at + 16])));
  }

  // Row r moved k columns to the left, the other rows as they were.
  function RotateRow(b: Block, r: nat, k: nat): (s: Block)
    requires r < 4 && k < 4
  {
    b[r := b[Cell(r, k)]][r + 4 := b[Cell(r, 1 + k)]][r + 8 := b[Cell(r, 2 + k)]][r + 12 := b[Cell(r, 3 + k)]]
  }

  lemma ShiftRowsByRow(b: Block)
    ensures ShiftRows(b) == RotateRow(RotateRow(RotateRow(b, 1, 1), 2, 2), 3, 3)
    ensures InvShiftRows(b) == RotateRow(RotateRow(RotateRow(b, 1, 3), 2, 2), 3, 1)
  {}

  // Moves the bytes at q, r and s to p, q and r, and the byte at p to s.
  method RotateCells(block: array<byte>, p: nat, q: nat, r: nat, s: nat)
    requires p < block.Length && q < block.Length && r < block.Length && s < block.Length
    requires p != q && p != r && p != s && q != r && q != s && r != s
    modifies block
    ensures block[p] == old(block[q]) && block[q] == old(block[r])
    ensures block[r] == old(block[s]) && block[s] == old(block[p])
    ensures forall j | 0 <= j < block.Length && j != p && j != q && j != r && j != s :: block[j] == old(block[j])
  {
    var x := block[p];
    block[p] := block[q];
    block[q] := block[r];
    block[r] := block[s];
    block[s] := x;
  }

  method RotateRowInPlace(block: array<byte>, at: nat, r: nat, k: nat)
    requires at + 16 <= block.Length && 1 <= r < 4 && 1 <= k < 4
    modifies block
    ensures block[..] == Splice(old(block[..]), at, RotateRow(old(block[at..at + 16]), r, k))
  {
    var p0, p1, p2, p3 := at + r, at + r + 4, at + r + 8, at + r + 12;
    if k == 1 {
      RotateCells(block, p0, p1, p2, p3);
    } else if k == 2 {
      block[p0], block[p2] := block[p2], block[p0];
      block[p1], block[p3] := block[p3], block[p1];
    } else {
      RotateCells(block, p0, p3, p2, p1);
    }
    RowOfSplice(block[..], old(block[..]), at, r, k);
  }

  lemma RowOfSplice(t: seq<byte>, s: seq<byte>, at: nat, r: nat, k: nat)
    requires at + 16 <= |s| == |t| && r < 4 && k < 4
    requires t[at + r] == s[at + Cell(r, k)] && t[at + r + 4] == s[at + Cell(r, 1 + k)]
    requires t[at + r + 8] == s[at + Cell(r, 2 + k)] && t[at + r + 12] == s[at + Cell(r, 3 + k)]
    requires forall j | 0 <= j < |s| && j != at + r && j != at + r + 4 && j != at + r + 8 && j != at + r + 12 ::
      t[j] == s[j]
    ensures t == Splice(s, at, RotateRow(s[at..at + 16], r, k))
  {}

  method ShiftRowsInPlace(block: array<byte>, at: nat)
    requires at + 16 <= block.Length
    modifies block
    ensures block[..] == Splice(old(block[..]), at, ShiftRows(old(block[at..at + 16])))
  {
    hide ShiftRows, RotateRow;
    ghost var whole, b: Block := block[..], block[at..at + 16];
    // Rows 1, 2 and 3 in turn, as ShiftRowsByRow has them.
    RotateRowInPlace(block, at, 1, 1);
    SpliceAgain(whole, at, RotateRow(b, 1, 1), RotateRow(RotateRow(b, 1, 1), 2, 2));
    RotateRowInPlace(block, at, 2, 2);
    SpliceAgain(whole, at, RotateRow(RotateRow(b, 1, 1), 2, 2), ShiftRows(b));
    ShiftRowsByRow(b);
    RotateRowInPlace(block, at, 3, 3);
  }

  method InvShiftRowsInPlace(block: array<byte>, at: nat)
    requires at + 16 <= block.Length
    modifies block
    ensures block[..] == Splice(old(block[..]), at, InvShiftRows(old(block[at..at + 16])))
  {
    hide InvShiftRows, RotateRow;
    ghost var whole, b: Block := block[..], block[at..at + 16];
    // Rows 1, 2 and 3 in turn, as ShiftRowsByRow has them.
    RotateRowInPlace(block, at, 1, 3);
    SpliceAgain(whole, at, RotateRow(b, 1, 3), RotateRow(RotateRow(b, 1, 3), 2, 2));
    RotateRowInPlace(block, at, 2, 2);
    SpliceAgain(whole, at, RotateRow(RotateRow(b, 1, 3), 2, 2), InvShiftRows(b));
    ShiftRowsByRow(b);
    RotateRowInPlace(block, at, 3, 1);
  }

  // What the mixing of the column that starts at place at will write there.
  method MixedColumn(block: array<byte>, at: nat) returns (c0: byte, c1: byte, c2: byte, c3: byte)
    requires at + 4 <= block.Length
    ensures var o := block[at..at + 4];
      && c0 == MixByte(o[0], o[1], o[2], o[3])
      && c1 == MixByte(o[1], o[2], o[3], o[0])
      && c2 == MixByte(o[2], o[3], o[0], o[1])
      && c3 == MixByte(o[3], o[0], o[1], o[2])
  {
    hide Xtime, Add, Sum;
    var a1, a2, a3 := new byte[4], new byte[4], new byte[4];
    for i := 0 to 4
      invariant forall j | 0 <= j < i :: a1[j] == block[at + j] && a2[j] == Xtime(a1[j]) && a3[j] == Times3(a1[j])
    {
      a1[i] := block[at + i];
      a2[i] := Xtime(a1[i]);
      a3[i] := Add(a2[i], a1[i]);
    }
    SumRotated3(a1[0], a2[1], a3[2], a1[3]);
    SumRotated2(a1[0], a1[1], a2[2], a3[3]);
    SumRotated(a3[0], a1[1], a1[2], a2[3]);
    c0 := Sum(a2[0], a3[1], a1[2], a1[3]);
    c1 := Sum(a1[0], a2[1], a3[2], a1[3]);
    c2 := Sum(a1[0], a1[1], a2[2], a3[3]);
    c3 := Sum(a3[0], a1[1], a1[2], a2[3]);
  }

  // The products of the four bytes of a column, by 9, 11, 13 and 14.
  method Products(block: array<byte>, at: nat)
      returns (a9: array<byte>, a11: array<byte>, a13: array<byte>, a14: array<byte>)
    requires at + 4 <= block.Length
    ensures a9.Length == a11.Length == a13.Length == a14.Length == 4
    ensures forall j | 0 <= j < 4 :: a9[j] == Times9(block[at + j]) && a11[j] == Times11(block[at + j])
    ensures forall j | 0 <= j < 4 :: a13[j] == Times13(block[at + j]) && a14[j] == Times14(block[at + j])
  {
    hide Xtime, Add;
    a9, a11, a13, a14 := new byte[4], new byte[4], new byte[4], new byte[4];
    for i := 0 to 4
      invariant forall j | 0 <= j < i :: a9[j] == Times9(block[at + j]) && a11[j] == Times11(block[at + j])
      invariant forall j | 0 <= j < i :: a13[j] == Times13(block[at + j]) && a14[j] == Times14(block[at + j])
    {
      var a1 := block[at + i];
      var a2 := Xtime(a1);
      var a2_2 := Xtime(a2);
      a9[i] := Add(Xtime(a2_2), a1);
      a11[i] := Add(Xtime(Add(a2_2, a1)), a1);
      var a2a1_2 := Xtime(Add(a2, a1));
      a13[i] := Add(Xtime(a2a1_2), a1);
      a14[i] := Xtime(Add(a2a1_2, a1));
    }
  }

  // The same for the inverse: each entry's multiples by nine, eleven, thirteen and fourteen, summed.
  method InvMixedColumn(block: array<byte>, at: nat) returns (c0: byte, c1: byte, c2: byte, c3: byte)
    requires at + 4 <= block.Length
    ensures var o := block[at..at + 4];
      && c0 == InvMixByte(o[0], o[1], o[2], o[3])
      && c1 == InvMixByte(o[1], o[2], o[3], o[0])
      && c2 == InvMixByte(o[2], o[3], o[0], o[1])
      && c3 == InvMixByte(o[3], o[0], o[1], o[2])
  {
    hide Xtime, Add, Sum, Times9, Times11, Times13, Times14;
    var a9, a11, a13, a14 := Products(block, at);
    SumRotated3(a9[0], a14[1], a11[2], a13[3]);
    SumRotated2(a13[0], a9[1], a14[2], a11[3]);
    SumRotated(a11[0], a13[1], a9[2], a14[3]);
    c0 := Sum(a14[0], a11[1], a13[2], a9[3]);
    c1 := Sum(a9[0], a14[1], a11[2], a13[3]);
    c2 := Sum(a13[0], a9[1], a14[2], a11[3]);
    c3 := Sum(a11[0], a13[1], a9[2], a14[3]);
  }

  // The four bytes that replace a column.
  function MixColumn(o: seq<byte>): (r: seq<byte>)
    requires |o| == 4
    ensures |r| == 4
  {
    [MixByte(o[0], o[1], o[2], o[3]), MixByte(o[1], o[2], o[3], o[0]),
     MixByte(o[2], o[3], o[0], o[1]), MixByte(o[3], o[0], o[1], o[2])]
  }

  function InvMixColumn(o: seq<byte>): (r: seq<byte>)
    requires |o| == 4
    ensures |r| == 4
  {
    [InvMixByte(o[0], o[1], o[2], o[3]), InvMixByte(o[1], o[2], o[3], o[0]),
     InvMixByte(o[2], o[3], o[0], o[1]), InvMixByte(o[3], o[0], o[1], o[2])]
  }

  lemma BelowInColumn(i: nat, k: nat, l: nat)
    requires i < 16 && i % 4 == 0 && k < 4 && l < 4
    ensures Below(i + k, l) == i + if k + l < 4 then k + l else k + l - 4
  {
    assert (i + k) % 4 == k && (i + k) / 4 == i / 4;
  }

  lemma MixColumnsByColumn(b: Block, i: nat)
    requires i < 16 && i % 4 == 0
    ensures MixColumns(b)[i..i + 4] == MixColumn(b[i..i + 4])
    ensures InvMixColumns(b)[i..i + 4] == InvMixColumn(b[i..i + 4])
  {
    hide MixByte, InvMixByte, Below;
    var o, m, v := b[i..i + 4], MixColumns(b), InvMixColumns(b);
    forall k | 0 <= k < 4
      ensures m[i + k] == MixColumn(o)[k] && v[i + k] == InvMixColumn(o)[k]
    {
      BelowInColumn(i, k, 1);
      BelowInColumn(i, k, 2);
      BelowInColumn(i, k, 3);
    }
  }

  lemma SpliceNothing(s: seq<byte>, at: nat)
    requires at <= |s|
    ensures Splice(s, at, []) == s
  {}

  lemma SpliceNext(s: seq<byte>, at: nat, m: seq<byte>, i: nat)
    requires at + |m| <= |s| && i + 4 <= |m|
    ensures Splice(s, at, m[..i])[at + i..at + i + 4] == s[at + i..at + i + 4]
    ensures Splice(Splice(s, at, m[..i]), at + i, m[i..i + 4]) == Splice(s, at, m[..i + 4])
  {}

  lemma SliceOfSlice(s: seq<byte>, at: nat, n: nat, i: nat)
    requires at + n <= |s| && i + 4 <= n
    ensures s[at..at + n][i..i + 4] == s[at + i..at + i + 4]
  {
    var t := s[at..at + n];
    assert forall j | 0 <= j < n :: t[j] == s[at + j];
  }

  method MixColumnsImpl(block: array<byte>, at: nat)
    requires at + 4 <= block.Length
    modifies block
    ensures block[..] == Splice(old(block[..]), at, MixColumn(old(block[at..at + 4])))
  {
    hide MixByte;
    var c0, c1, c2, c3 := MixedColumn(block, at);
    block[at], block[at + 1], block[at + 2], block[at + 3] := c0, c1, c2, c3;
    WholeIsSplice(block[..], old(block[..]), at, [c0, c1, c2, c3]);
  }

  method MixColumnsInPlace(block: array<byte>, at: nat)
    requires at + 16 <= block.Length
    modifies block
    ensures block[..] == Splice(old(block[..]), at, MixColumns(old(block[at..at + 16])))
  {
    hide MixColumns, MixColumn, Splice;
    ghost var whole, b: Block := block[..], block[at..at + 16];
    ghost var m := MixColumns(b);
    var i := 0;
    SpliceNothing(whole, at);
    while i < 16
      invariant i <= 16 && i % 4 == 0
      invariant block[..] == Splice(whole, at, m[..i])
    {
      SpliceNext(whole, at, m, i);
      SliceOfSlice(whole, at, 16, i);
      assert block[at + i..at + i + 4] == block[..][at + i..at + i + 4];
      MixColumnsByColumn(b, i);
      MixColumnsImpl(block, at + i);
      i := i + 4;
    }
    assert m[..16] == m;
  }

  method InvMixColumnsImpl(block: array<byte>, at: nat)
    requires at + 4 <= block.Length
    modifies block
    ensures block[..] == Splice(old(block[..]), at, InvMixColumn(old(block[at..at + 4])))
  {
    hide InvMixByte;
    var c0, c1, c2, c3 := InvMixedColumn(block, at);
    block[at], block[at + 1], block[at + 2], block[at + 3] := c0, c1, c2, c3;
    WholeIsSplice(block[..], old(block[..]), at, [c0, c1, c2, c3]);
  }

  method InvMixColumnsInPlace(block: array<byte>, at: nat)
    requires at + 16 <= block.Length
    modifies block
    ensures block[..] == Splice(old(block[..]), at, InvMixColumns(old(block[at..at + 16])))
  {
    hide InvMixColumns, InvMixColumn, Splice;
    ghost var whole, b: Block := block[..], block[at..at + 16];
    ghost var m := InvMixColumns(b);
    var i := 0;
    SpliceNothing(whole, at);
    while i < 16
      invariant i <= 16 && i % 4 == 0
      invariant block[..] == Splice(whole, at, m[..i])
    {
      SpliceNext(whole, at, m, i);
      SliceOfSlice(whole, at, 16, i);
      assert block[at + i..at + i + 4] == block[..][at + i..at + i + 4];
      MixColumnsByColumn(b, i);
      InvMixColumnsImpl(block, at + i);
      i := i + 4;
    }
    assert m[..16] == m;
  }

  // The bodies of the two loops over rounds.

  method RoundInPlace(w: array<byte>, block: array<byte>, at: nat, round: nat)
    requires w.Length == KEY_SCHEDULE_BYTES && at + 16 <= block.Length && w != block && round <= 14
    modifies block
    ensures block[..] == Splice(old(block[..]), at, Round(w[..], old(block[at..at + 16]), round))
  {
    hide XorBytes, SubBytes, ShiftRows, MixColumns, Splice;
    ghost var whole, b: Block, ws: Schedule := block[..], block[at..at + 16], w[..];
    ghost var s := SubBytes(b);
    SpliceAgain(whole, at, s, ShiftRows(s));
    SpliceAgain(whole, at, ShiftRows(s), MixColumns(ShiftRows(s)));
    SpliceAgain(whole, at, MixColumns(ShiftRows(s)), Round(ws, b, round));
    SubBytesInPlace(block, at);
    ShiftRowsInPlace(block, at);
    MixColumnsInPlace(block, at);
    AddRoundKey(block, at, w, 16 * round);
  }

  method InvRoundInPlace(w: array<byte>, block: array<byte>, at: nat, round: nat)
    requires w.Length == KEY_SCHEDULE_BYTES && at + 16 <= block.Length && w != block && round <= 14
    modifies block
    ensures block[..] == Splice(old(block[..]), at, InvRound(w[..], old(block[at..at + 16]), round))
  {
    hide XorBytes, InvSubBytes, InvShiftRows, InvMixColumns, Splice;
    ghost var whole, b: Block, ws: Schedule := block[..], block[at..at + 16], w[..];
    ghost var x := XorBytes(b, RoundKey(ws, round));
    SpliceAgain(whole, at, x, InvMixColumns(x));
    SpliceAgain(whole, at, InvMixColumns(x), InvShiftRows(InvMixColumns(x)));
    SpliceAgain(whole, at, InvShiftRows(InvMixColumns(x)), InvRound(ws, b, round));
    AddRoundKey(block, at, w, 16 * round);
    InvMixColumnsInPlace(block, at);
    InvShiftRowsInPlace(block, at);
    InvSubBytesInPlace(block, at);
  }

  method TransformECB(w: array<byte>, block: array<byte>, at: nat)
    requires w.Length == KEY_SCHEDULE_BYTES && at + 16 <= block.Length && w != block
    modifies block
    ensures block[..] == Splice(old(block[..]), at, Cipher(w[..], old(block[at..at + 16])))
  {
    hide XorBytes, SubBytes, ShiftRows, Round;
    ghost var whole, b: Block, ws: Schedule := block[..], block[at..at + 16], w[..];
    AddRoundKey(block, at, w, 0);
    for round := 1 to 14
      invariant w[..] == ws
      invariant block[..] == Splice(whole, at, Rounds(ws, b, round - 1))
    {
      ghost var s := Rounds(ws, b, round - 1);
      SpliceAgain(whole, at, s, Round(ws, s, round));
      RoundInPlace(w, block, at, round);
    }
    ghost var s := Rounds(ws, b, 13);
    SpliceAgain(whole, at, s, SubBytes(s));
    SpliceAgain(whole, at, SubBytes(s), ShiftRows(SubBytes(s)));
    SpliceAgain(whole, at, ShiftRows(SubBytes(s)), LastRound(ws, s));
    SubBytesInPlace(block, at);
    ShiftRowsInPlace(block, at);
    AddRoundKey(block, at, w, 16 * 14);
  }

  method InverseTransformECB(w: array<byte>, block: array<byte>, at: nat)
    requires w.Length == KEY_SCHEDULE_BYTES && at + 16 <= block.Length && w != block
    modifies block
    ensures block[..] == Splice(old(block[..]), at, InvCipher(w[..], old(block[at..at + 16])))
  {
    hide XorBytes, InvSubBytes, InvShiftRows, InvRound;
    ghost var whole, b: Block, ws: Schedule := block[..], block[at..at + 16], w[..];
    ghost var keyed := XorBytes(b, RoundKey(ws, 14));
    SpliceAgain(whole, at, keyed, InvShiftRows(keyed));
    SpliceAgain(whole, at, InvShiftRows(keyed), InvLastRound(ws, b));
    AddRoundKey(block, at, w, 16 * 14);
    InvShiftRowsInPlace(block, at);
    InvSubBytesInPlace(block, at);
    var round := 13;
    ghost var s := InvLastRound(ws, b);
    while round > 0
      invariant round <= 13 && w[..] == ws
      invariant block[..] == Splice(whole, at, s)
      invariant InvRounds(ws, InvLastRound(ws, b), 13) == InvRounds(ws, s, round)
    {
      SpliceAgain(whole, at, s, InvRound(ws, s, round));
      InvRoundInPlace(w, block, at, round);
      s := InvRound(ws, s, round);
      round := round - 1;
    }
    SpliceAgain(whole, at, s, XorBytes(s, RoundKey(ws, 0)));
    AddRoundKey(block, at, w, 0);
  }

  // ---- MakeKeySchedule ----

  lemma ByteOfWord(key: Key, m: nat, r: nat)
    requires r < 4
    ensures ScheduleByte(key, 4 * m + r) == ExpandedWord(key, m)[r]
  {
    assert (4 * m + r) / 4 == m && (4 * m + r) % 4 == r;
  }

  // How each byte after the key itself comes from earlier ones.
  lemma LaterWordByte(key: Key, m: nat, r: nat)
    requires m >= 8 && r < 4
    ensures ScheduleByte(key, 4 * m + r)
         == ScheduleByte(key, 4 * (m - 8) + r) ^ Transformed(m, ExpandedWord(key, m - 1))[r]
  {
    hide ScheduleByte, Transformed;
    ByteOfWord(key, m, r);
    ByteOfWord(key, m - 8, r);
  }

  lemma PlainWordByte(key: Key, m: nat, r: nat)
    requires m >= 8 && m % 8 != 0 && m % 8 != 4 && r < 4
    ensures ScheduleByte(key, 4 * m + r) == ScheduleByte(key, 4 * (m - 8) + r) ^ ScheduleByte(key, 4 * (m - 1) + r)
  {
    hide ScheduleByte, ExpandedWord;
    LaterWordByte(key, m, r);
    ByteOfWord(key, m - 1, r);
  }

  lemma SubWordByte(key: Key, m: nat, r: nat)
    requires m >= 8 && m % 8 == 4 && r < 4
    ensures ScheduleByte(key, 4 * m + r)
         == ScheduleByte(key, 4 * (m - 8) + r) ^ SBox(ScheduleByte(key, 4 * (m - 1) + r))
  {
    hide SBox, ScheduleByte, ExpandedWord;
    LaterWordByte(key, m, r);
    ByteOfWord(key, m - 1, r);
  }

  lemma RconWordByte(key: Key, base: nat, r: nat)
    requires base >= 1 && r < 4
    ensures var m := 8 * base;
      ScheduleByte(key, 4 * m + r)
        == ScheduleByte(key, 4 * (m - 8) + r)
           ^ (SBox(ScheduleByte(key, 4 * (m - 1) + if r < 3 then r + 1 else 0)) ^ if r == 0 then Rcon(base) else 0)
  {
    hide SBox, ScheduleByte, ExpandedWord, Rcon;
    var m := 8 * base;
    LaterWordByte(key, m, r);
    ByteOfWord(key, m - 1, if r < 3 then r + 1 else 0);
    RconTransformed(base, ExpandedWord(key, m - 1), r);
  }

  lemma RconTransformed(base: nat, t: Word, r: nat)
    requires r < 4
    ensures Transformed(8 * base, t)[r]
         == SBox(t[if r < 3 then r + 1 else 0]) ^ if r == 0 then Rcon(base) else 0
  {
    hide SBox, Rcon;
    assert (8 * base) % 8 == 0 && (8 * base) / 8 == base;
  }

  // The shifted one of the program is the round constant as long as nothing is shifted out.
  lemma RconIsShift(base: nat)
    requires 1 <= base <= 7
    ensures Rcon(base) == 1 << (base - 1)
  {
    assert Rcon(1) == 1;
    assert Rcon(2) == 2;
    assert Rcon(3) == 4;
    assert Rcon(4) == 8;
    assert Rcon(5) == 16;
    assert Rcon(6) == 32;
    assert Rcon(7) == 64;
  }

  predicate ScheduledUpTo(w: seq<byte>, key: Key, n: nat)
    requires n <= |w|
  {
    forall j | 0 <= j < n :: w[j] == ScheduleByte(key, j)
  }

  // Writes the next byte of the schedule, which v must be.
  method StoreNext(key: Key, w: array<byte>, k: nat, v: byte)
    requires w.Length == KEY_SCHEDULE_BYTES && k < 240 && ScheduledUpTo(w[..], key, k)
    requires v == ScheduleByte(key, k)
    modifies w
    ensures ScheduledUpTo(w[..], key, k + 1)
  {
    hide ScheduleByte;
    w[k] := v;
  }

  // The first word of a group of 32 bytes.
  method FillRconWord(key: Key, w: array<byte>, base: nat)
    requires w.Length == KEY_SCHEDULE_BYTES && 1 <= base <= 7 && ScheduledUpTo(w[..], key, 32 * base)
    modifies w
    ensures ScheduledUpTo(w[..], key, 32 * base + 4)
  {
    hide SBox, ScheduleByte, Rcon;
    var k := base * 32;
    var prev := k - 32;
    var rcon: byte := 1 << (base - 1);
    RconIsShift(base);
    RconWordByte(key, base, 0);
    RconWordByte(key, base, 1);
    RconWordByte(key, base, 2);
    RconWordByte(key, base, 3);
    XorZero(SBox(w[prev + 30]));
    XorZero(SBox(w[prev + 31]));
    XorZero(SBox(w[prev + 28]));
    StoreNext(key, w, k, w[prev] ^ (SBox(w[prev + 29]) ^ rcon));
    StoreNext(key, w, k + 1, w[prev + 1] ^ SBox(w[prev + 30]));
    StoreNext(key, w, k + 2, w[prev + 2] ^ SBox(w[prev + 31]));
    StoreNext(key, w, k + 3, w[prev + 3] ^ SBox(w[prev + 28]));
  }

  lemma XorZero(x: byte)
    ensures x ^ 0 == x
  {}

  method FillPlainWords(key: Key, w: array<byte>, base: nat, first: nat, last: nat)
    requires w.Length == KEY_SCHEDULE_BYTES && 1 <= base <= 7 && 32 * base + last <= 240
    requires (first == 4 && last == 16) || (first == 20 && last == 32)
    requires ScheduledUpTo(w[..], key, 32 * base + first)
    modifies w
    ensures ScheduledUpTo(w[..], key, 32 * base + last)
  {
    hide ScheduleByte;
    var k := 32 * base;
    for i := first to last
      invariant ScheduledUpTo(w[..], key, k + i)
    {
      PlainWordByte(key, 8 * base + i / 4, i % 4);
      StoreNext(key, w, k + i, w[k - 32 + i] ^ w[k + i - 4]);
    }
  }

  // The fifth word of a group.
  method FillSubWord(key: Key, w: array<byte>, base: nat)
    requires w.Length == KEY_SCHEDULE_BYTES && 1 <= base < 7 && ScheduledUpTo(w[..], key, 32 * base + 16)
    modifies w
    ensures ScheduledUpTo(w[..], key, 32 * base + 20)
  {
    hide SBox, ScheduleByte;
    var k := 32 * base;
    for i := 16 to 20
      invariant ScheduledUpTo(w[..], key, k + i)
    {
      SubWordByte(key, 8 * base + 4, i - 16);
      StoreNext(key, w, k + i, w[k - 32 + i] ^ SBox(w[k + i - 4]));
    }
  }

  method MakeKeySchedule(key: Key, w: array<byte>)
    requires w.Length == KEY_SCHEDULE_BYTES
    modifies w
    ensures w[..] == KeySchedule(key)
  {
    hide SBox, ScheduleByte;
    for i := 0 to 32
      invariant ScheduledUpTo(w[..], key, i)
    {
      KeyByte(key, i);
      w[i] := key[i];
    }
    var base := 1;
    while true
      invariant 1 <= base <= 7
      invariant ScheduledUpTo(w[..], key, 32 * base)
      decreases 7 - base
    {
      FillRconWord(key, w, base);
      FillPlainWords(key, w, base, 4, 16);
      if base == 7 {
        break;
      }
      FillSubWord(key, w, base);
      FillPlainWords(key, w, base, 20, 32);
      base := base + 1;
    }
  }

  lemma KeyByte(key: Key, j: nat)
    requires j < 32
    ensures ScheduleByte(key, j) == key[j]
  {}

  // ---- The chain, in place ----

  // One step of the chain as the whole buffer sees it: block i of the data, between the blocks
  // already done and the rest, is replaced by c.
  lemma ChainStep(whole: seq<byte>, done: seq<byte>, rest: seq<byte>, tail: seq<byte>, c: Block)
    requires |rest| >= 16 && whole == done + rest + tail
    ensures whole[|done|..|done| + 16] == rest[..16]
    ensures Splice(whole, |done|, c) == (done + c) + rest[16..] + tail
    ensures Splice(whole, |done|, c)[|done|..|done| + 16] == c
  {}

  // The body of TransformCBC's loop up to the saving of the new vector.
  method EncryptChained(w: array<byte>, block: array<byte>, src: nat, vec: Block)
    requires w.Length == KEY_SCHEDULE_BYTES && src + 16 <= block.Length && w != block
    modifies block
    ensures block[..] == Splice(old(block[..]), src, Cipher(w[..], XorBytes(old(block[src..src + 16]), vec)))
  {
    hide Cipher, XorBytes;
    ghost var whole, x := block[..], XorBytes(block[src..src + 16], vec);
    SpliceAgain(whole, src, x, Cipher(w[..], x));
    XorInto(block, src, vec);
    TransformECB(w, block, src);
  }

  method TransformCBC(key: Key, iv: Block, block: array<byte>, block_count: nat)
    requires block_count * 16 <= block.Length
    modifies block
    ensures var n := block_count * 16;
      block[..] == CbcEncrypt(KeySchedule(key), iv, old(block[..n])) + old(block[n..])
  {
    hide KeySchedule, Cipher, XorBytes, Splice;
    var w := new byte[240];
    MakeKeySchedule(key, w);
    ghost var ws := KeySchedule(key);
    ghost var p, tail := block[..block_count * 16], block[block_count * 16..];
    ghost var done, rest: seq<byte> := [], p;
    var vec: Block := iv;
    for i := 0 to block_count
      invariant w[..] == ws
      invariant |done| == 16 * i && |rest| == 16 * (block_count - i)
      invariant block[..] == done + rest + tail
      invariant CbcEncrypt(ws, iv, p) == done + CbcEncrypt(ws, vec, rest)
    {
      hide CbcEncrypt;
      var src := i * 16;
      ghost var whole := block[..];
      ghost var c := Cipher(ws, XorBytes(rest[..16], vec));
      ChainStep(whole, done, rest, tail, c);
      ChainAdvances(ws, vec, done, rest);
      assert block[src..src + 16] == whole[src..src + 16];
      EncryptChained(w, block, src, vec);
      assert block[src..src + 16] == block[..][src..src + 16];
      vec := block[src..src + 16];
      done, rest := done + c, rest[16..];
    }
  }

  // The body of InverseTransformCBC's loop.
  method DecryptChained(w: array<byte>, block: array<byte>, src: nat, prev: Block)
    requires w.Length == KEY_SCHEDULE_BYTES && src + 16 <= block.Length && w != block
    modifies block
    ensures block[..] == Splice(old(block[..]), src, XorBytes(InvCipher(w[..], old(block[src..src + 16])), prev))
  {
    hide InvCipher, XorBytes;
    ghost var whole, x := block[..], InvCipher(w[..], block[src..src + 16]);
    SpliceAgain(whole, src, x, XorBytes(x, prev));
    InverseTransformECB(w, block, src);
    assert block[src..src + 16] == x;
    XorInto(block, src, prev);
  }

  // One step of each chain, behind what is done.
  lemma ChainAdvances(w: Schedule, v: Block, done: seq<byte>, rest: seq<byte>)
    requires |rest| >= 16 && |rest| % 16 == 0
    ensures var c := Cipher(w, XorBytes(rest[..16], v));
      done + CbcEncrypt(w, v, rest) == (done + c) + CbcEncrypt(w, c, rest[16..])
    ensures var c := XorBytes(InvCipher(w, rest[..16]), v);
      done + CbcDecrypt(w, v, rest) == (done + c) + CbcDecrypt(w, rest[..16], rest[16..])
  {
    hide Cipher, InvCipher, XorBytes;
  }

  method InverseTransformCBC(key: Key, iv: Block, block: array<byte>, block_count: nat)
    requires block_count * 16 <= block.Length
    modifies block
    ensures var n := block_count * 16;
      block[..] == CbcDecrypt(KeySchedule(key), iv, old(block[..n])) + old(block[n..])
  {
    hide KeySchedule, InvCipher, XorBytes, Splice;
    var w := new byte[240];
    MakeKeySchedule(key, w);
    ghost var ws := KeySchedule(key);
    ghost var p, tail := block[..block_count * 16], block[block_count * 16..];
    ghost var done, rest: seq<byte> := [], p;
    var prev_block: Block := iv;
    for i := 0 to block_count
      invariant w[..] == ws
      invariant |done| == 16 * i && |rest| == 16 * (block_count - i)
      invariant block[..] == done + rest + tail
      invariant CbcDecrypt(ws, iv, p) == done + CbcDecrypt(ws, prev_block, rest)
    {
      hide CbcDecrypt;
      var src := i * 16;
      ghost var whole := block[..];
      ghost var c := XorBytes(InvCipher(ws, rest[..16]), prev_block);
      ChainStep(whole, done, rest, tail, c);
      ChainAdvances(ws, prev_block, done, rest);
      assert block[src..src + 16] == whole[src..src + 16];
      var original_current_block: Block := block[src..src + 16];
      DecryptChained(w, block, src, prev_block);
      prev_block := original_current_block;
      done, rest := done + c, rest[16..];
    }
  }

  // Running one transformation over the other in the same buffer restores it.
  method CbcInPlaceRoundTrip(key: Key, iv: Block, block: array<byte>, block_count: nat)
    requires block_count * 16 <= block.Length
    modifies block
    ensures block[..] == old(block[..])
  {
    hide KeySchedule, CbcEncrypt, CbcDecrypt;
    ghost var n, whole := block_count * 16, block[..];
    CbcDecryptUndoesEncrypt(KeySchedule(key), iv, whole[..n]);
    TransformCBC(key, iv, block, block_count);
    InverseTransformCBC(key, iv, block, block_count);
  }

  // So does running them the other way round.
  method CbcInPlaceReverseRoundTrip(key: Key, iv: Block, block: array<byte>, block_count: nat)
    requires block_count * 16 <= block.Length
    modifies block
    ensures block[..] == old(block[..])
  {
    hide KeySchedule, CbcEncrypt, CbcDecrypt;
    ghost var n, whole := block_count * 16, block[..];
    CbcEncryptUndoesDecrypt(KeySchedule(key), iv, whole[..n]);
    InverseTransformCBC(key, iv, block, block_count);
    TransformCBC(key, iv, block, block_count);
  }
}
