/**
 The cipher and its chain byte by byte, as FIPS 197 and SP 800-38A define them: what the composition
 of steps in Aes256 comes to, in terms of the bytes of the State, the table and the field alone.
 */
module AesStandard {
  import opened Gf256
  import opened AesSBox
  import opened Aes256

  // ---- The field and the table ----

  // Multiplication by x, section 4.2.1.
  lemma DoublingIs(x: byte)
    ensures Xtime(x) == if x & 0x80 == 0 then x << 1 else (x << 1) ^ 0x1b
  {}

  // What determines multiplication: by nothing, by one bit more, and by a factor moved up.
  lemma ProductIs(c: byte, x: byte)
    ensures Mul(0, x) == 0
    ensures Mul(c ^ 1, x) == Mul(c, x) ^ x
  {
    hide Xtime;
  }

  lemma ProductOfDouble(c: byte, x: byte)
    requires c < 0x80
    ensures Mul(c << 1, x) == Mul(c, Xtime(x))
  {
    var x1 := Xtime(x);
    var x2, x3 := Xtime(x1), Xtime(Xtime(x1));
    var x4, x5 := Xtime(x3), Xtime(Xtime(x3));
    var x6, x7 := Xtime(x5), Xtime(Xtime(x5));
    var x8 := Xtime(x7);
    hide *;
    BitsOfDouble(c);
    ProductIsSum(c << 1, x, x1, x2, x3, x4, x5, x6, x7);
    ProductIsSum(c, x1, x2, x3, x4, x5, x6, x7, x8);
    AbsentTerm(x);
    AbsentTerm(x8);
    SumWithoutFirst(Term(c & 0x01 == 0, x1), Term(c & 0x02 == 0, x2), Term(c & 0x04 == 0, x3), Term(c & 0x08 == 0, x4),
                    Term(c & 0x10 == 0, x5), Term(c & 0x20 == 0, x6), Term(c & 0x40 == 0, x7));
    SumWithoutLast(Term(c & 0x01 == 0, x1), Term(c & 0x02 == 0, x2), Term(c & 0x04 == 0, x3), Term(c & 0x08 == 0, x4),
                   Term(c & 0x10 == 0, x5), Term(c & 0x20 == 0, x6), Term(c & 0x40 == 0, x7));
  }

  // What a bit of the factor adds to a product.
  function Term(absent: bool, x: byte): byte { if absent then 0 else x }

  function Sum7(a: byte, b: byte, c: byte, d: byte, e: byte, f: byte, g: byte): byte { a ^ b ^ c ^ d ^ e ^ f ^ g }

  function Sum8(a: byte, b: byte, c: byte, d: byte, e: byte, f: byte, g: byte, h: byte): byte {
    a ^ b ^ c ^ d ^ e ^ f ^ g ^ h
  }

  lemma ProductIsSum(c: byte, x: byte, x1: byte, x2: byte, x3: byte, x4: byte, x5: byte, x6: byte, x7: byte)
    requires x1 == Xtime(x) && x2 == Xtime(x1) && x3 == Xtime(x2) && x4 == Xtime(x3)
    requires x5 == Xtime(x4) && x6 == Xtime(x5) && x7 == Xtime(x6)
    ensures Mul(c, x) == Sum8(Term(c & 0x01 == 0, x), Term(c & 0x02 == 0, x1), Term(c & 0x04 == 0, x2),
                              Term(c & 0x08 == 0, x3), Term(c & 0x10 == 0, x4), Term(c & 0x20 == 0, x5),
                              Term(c & 0x40 == 0, x6), Term(c & 0x80 == 0, x7))
  {
    hide *;
    ProductIsLiterally(c, x);
    TermIs(c & 0x01 == 0, x);
    TermIs(c & 0x02 == 0, x1);
    TermIs(c & 0x04 == 0, x2);
    TermIs(c & 0x08 == 0, x3);
    TermIs(c & 0x10 == 0, x4);
    TermIs(c & 0x20 == 0, x5);
    TermIs(c & 0x40 == 0, x6);
    TermIs(c & 0x80 == 0, x7);
  }

  lemma ProductIsLiterally(c: byte, x: byte)
    ensures var x1 := Xtime(x);
      var x2, x3 := Xtime(x1), Xtime(Xtime(x1));
      var x4, x5 := Xtime(x3), Xtime(Xtime(x3));
      var x6, x7 := Xtime(x5), Xtime(Xtime(x5));
      Mul(c, x) == Sum8(if c & 0x01 == 0 then 0 else x, if c & 0x02 == 0 then 0 else x1,
                        if c & 0x04 == 0 then 0 else x2, if c & 0x08 == 0 then 0 else x3,
                        if c & 0x10 == 0 then 0 else x4, if c & 0x20 == 0 then 0 else x5,
                        if c & 0x40 == 0 then 0 else x6, if c & 0x80 == 0 then 0 else x7)
  {
    hide Xtime;
  }

  lemma TermIs(absent: bool, x: byte)
    ensures Term(absent, x) == if absent then 0 else x
  {}

  lemma SumWithoutFirst(b: byte, c: byte, d: byte, e: byte, f: byte, g: byte, h: byte)
    ensures Sum8(0, b, c, d, e, f, g, h) == Sum7(b, c, d, e, f, g, h)
  {}

  lemma SumWithoutLast(a: byte, b: byte, c: byte, d: byte, e: byte, f: byte, g: byte)
    ensures Sum8(a, b, c, d, e, f, g, 0) == Sum7(a, b, c, d, e, f, g)
  {}

  lemma AbsentTerm(x: byte)
    ensures Term(true, x) == 0
  {}

  lemma BitsOfDouble(c: byte)
    requires c < 0x80
    ensures (c << 1) & 0x01 == 0 && c & 0x80 == 0
    ensures ((c << 1) & 0x02 == 0) == (c & 0x01 == 0) && ((c << 1) & 0x04 == 0) == (c & 0x02 == 0)
    ensures ((c << 1) & 0x08 == 0) == (c & 0x04 == 0) && ((c << 1) & 0x10 == 0) == (c & 0x08 == 0)
    ensures ((c << 1) & 0x20 == 0) == (c & 0x10 == 0) && ((c << 1) & 0x40 == 0) == (c & 0x20 == 0)
    ensures ((c << 1) & 0x80 == 0) == (c & 0x40 == 0)
  {}

  // The affine map of section 5.1.1.
  lemma AffineIs(b: byte)
    ensures Affine(b) == b ^ ((b << 1) | (b >> 7)) ^ ((b << 2) | (b >> 6)) ^ ((b << 3) | (b >> 5))
                           ^ ((b << 4) | (b >> 4)) ^ 0x63
  {}

  // ---- The State, byte by byte ----

  // Before the first round, section 5.1.
  lemma StateAtFirst(w: Schedule, b: Block, i: nat)
    requires i < 16
    ensures Rounds(w, b, 0)[i] == b[i] ^ w[i]
  {}

  // Rows and columns counted round past the last.
  function Wrap(i: nat): (j: nat)
    requires i < 12
    ensures j < 4
  {
    if i < 4 then i else if i < 8 then i - 4 else i - 8
  }

  function At(b: Block, r: nat, c: nat): byte
    requires r < 8 && c < 12
  {
    b[Wrap(r) + 4 * Wrap(c)]
  }

  lemma ShiftedByte(b: Block, r: nat, c: nat)
    requires r < 8 && c < 4
    ensures At(ShiftRows(SubBytes(b)), r, c) == SBox(At(b, r, c + r))
  {
    hide SBox;
    var row := Wrap(r);
    assert (row + 4 * c) % 4 == row && (row + 4 * c) / 4 == c;
  }

  function MatrixRow(a: byte, b: byte, c: byte, d: byte): byte { Mul(2, a) ^ Mul(3, b) ^ c ^ d }

  lemma MatrixRowPlus(a: byte, b: byte, c: byte, d: byte, k: byte)
    ensures Add(MatrixRow(a, b, c, d), k) == Mul(2, a) ^ Mul(3, b) ^ c ^ d ^ k
  {
    hide Mul;
  }

  lemma MixedByte(b: Block, r: nat, c: nat)
    requires r < 4 && c < 4
    ensures At(MixColumns(b), r, c) == MatrixRow(At(b, r, c), At(b, r + 1, c), At(b, r + 2, c), At(b, r + 3, c))
  {
    var i := r + 4 * c;
    hide Below, MixColumns, MatrixRow;
    MixedPlace(b, i);
    BelowIs(r, c, 1);
    BelowIs(r, c, 2);
    BelowIs(r, c, 3);
  }

  lemma MixedPlace(b: Block, i: nat)
    requires i < 16
    ensures MixColumns(b)[i] == MatrixRow(b[i], b[Below(i, 1)], b[Below(i, 2)], b[Below(i, 3)])
  {
    hide Mul, MixByte, Below;
    MixByteIsMatrixRow(b[i], b[Below(i, 1)], b[Below(i, 2)], b[Below(i, 3)]);
  }

  lemma BelowIs(r: nat, c: nat, k: nat)
    requires r < 4 && c < 4 && k < 4
    ensures Below(r + 4 * c, k) == Wrap(r + k) + 4 * c
  {
    assert (r + 4 * c) % 4 == r && (r + 4 * c) / 4 == c;
  }

  lemma SubstitutedRow(s: Block, r: nat, c: nat)
    requires r < 4 && c < 4
    ensures At(MixColumns(ShiftRows(SubBytes(s))), r, c)
         == MatrixRow(SBox(At(s, r, c + r)), SBox(At(s, r + 1, c + (r + 1))),
                      SBox(At(s, r + 2, c + (r + 2))), SBox(At(s, r + 3, c + (r + 3))))
  {
    hide *;
    MixedByte(ShiftRows(SubBytes(s)), r, c);
    ShiftedByte(s, r, c);
    ShiftedByte(s, r + 1, c);
    ShiftedByte(s, r + 2, c);
    ShiftedByte(s, r + 3, c);
  }

  // Each of the rounds 1 to 13: the byte of row r, column c after it, from the State s before it.
  lemma StateAfterRound(w: Schedule, b: Block, n: nat, s: Block, r: nat, c: nat)
    requires 1 <= n <= 13 && s == Rounds(w, b, n - 1) && r < 4 && c < 4
    ensures Rounds(w, b, n)[r + 4 * c]
         == Mul(2, SBox(s[r + 4 * ((c + r) % 4)]))
            ^ Mul(3, SBox(s[(r + 1) % 4 + 4 * ((c + r + 1) % 4)]))
            ^ SBox(s[(r + 2) % 4 + 4 * ((c + r + 2) % 4)])
            ^ SBox(s[(r + 3) % 4 + 4 * ((c + r + 3) % 4)])
            ^ w[16 * n + r + 4 * c]
  {
    hide *;
    StateStep(w, b, n, s, r, c);
    MatrixRowPlus(SBox(s[r + 4 * ((c + r) % 4)]),
                  SBox(s[(r + 1) % 4 + 4 * ((c + r + 1) % 4)]),
                  SBox(s[(r + 2) % 4 + 4 * ((c + r + 2) % 4)]),
                  SBox(s[(r + 3) % 4 + 4 * ((c + r + 3) % 4)]),
                  w[16 * n + r + 4 * c]);
  }

  lemma StateStep(w: Schedule, b: Block, n: nat, s: Block, r: nat, c: nat)
    requires 1 <= n <= 13 && s == Rounds(w, b, n - 1) && r < 4 && c < 4
    ensures Rounds(w, b, n)[r + 4 * c]
         == Add(MatrixRow(SBox(s[r + 4 * ((c + r) % 4)]),
                          SBox(s[(r + 1) % 4 + 4 * ((c + r + 1) % 4)]),
                          SBox(s[(r + 2) % 4 + 4 * ((c + r + 2) % 4)]),
                          SBox(s[(r + 3) % 4 + 4 * ((c + r + 3) % 4)])),
                w[16 * n + r + 4 * c])
  {
    hide *;
    RoundsStep(w, b, n);
    RoundedByte(w, s, n, r, c);
    SubstitutedRow(s, r, c);
    RowOfBytes(s, r, c);
  }

  lemma RowOfBytes(s: Block, r: nat, c: nat)
    requires r < 4 && c < 4
    ensures MatrixRow(SBox(At(s, r, c + r)), SBox(At(s, r + 1, c + (r + 1))),
                      SBox(At(s, r + 2, c + (r + 2))), SBox(At(s, r + 3, c + (r + 3))))
         == MatrixRow(SBox(s[r + 4 * ((c + r) % 4)]),
                      SBox(s[(r + 1) % 4 + 4 * ((c + r + 1) % 4)]),
                      SBox(s[(r + 2) % 4 + 4 * ((c + r + 2) % 4)]),
                      SBox(s[(r + 3) % 4 + 4 * ((c + r + 3) % 4)]))
  {
    hide *;
    AtOwnRow(s, r, c);
    AtLowerRow(s, r, c, 1);
    AtLowerRow(s, r, c, 2);
    AtLowerRow(s, r, c, 3);
  }

  lemma AtOwnRow(s: Block, r: nat, c: nat)
    requires r < 4 && c < 4
    ensures At(s, r, c + r) == s[r + 4 * ((c + r) % 4)]
  {
    WrapIs(c + r);
  }

  lemma AtLowerRow(s: Block, r: nat, c: nat, k: nat)
    requires r < 4 && c < 4 && k < 4
    ensures At(s, r + k, c + (r + k)) == s[(r + k) % 4 + 4 * ((c + r + k) % 4)]
  {
    WrapIs(r + k);
    WrapIs(c + (r + k));
    assert c + (r + k) == c + r + k;
  }

  lemma WrapIs(i: nat)
    requires i < 12
    ensures Wrap(i) == i % 4
  {}

  lemma RoundsStep(w: Schedule, b: Block, n: nat)
    requires 1 <= n <= 14
    ensures Rounds(w, b, n) == Round(w, Rounds(w, b, n - 1), n)
  {
    hide Round, XorBytes;
  }

  lemma RoundedByte(w: Schedule, s: Block, n: nat, r: nat, c: nat)
    requires n <= 13 && r < 4 && c < 4
    ensures Round(w, s, n)[r + 4 * c] == Add(At(MixColumns(ShiftRows(SubBytes(s))), r, c), w[16 * n + r + 4 * c])
  {
    hide MixColumns, ShiftRows, SubBytes;
  }

  // After the last round, which mixes no columns.
  lemma StateAtLast(w: Schedule, b: Block, s: Block, r: nat, c: nat)
    requires s == Rounds(w, b, 13) && r < 4 && c < 4
    ensures Cipher(w, b)[r + 4 * c] == SBox(s[r + 4 * ((c + r) % 4)]) ^ w[224 + r + 4 * c]
  {
    hide *;
    LastStep(w, b, s, r, c);
    AddTwo(SBox(s[r + 4 * ((c + r) % 4)]), w[224 + r + 4 * c]);
  }

  lemma LastStep(w: Schedule, b: Block, s: Block, r: nat, c: nat)
    requires s == Rounds(w, b, 13) && r < 4 && c < 4
    ensures Cipher(w, b)[r + 4 * c] == Add(SBox(s[r + 4 * ((c + r) % 4)]), w[224 + r + 4 * c])
  {
    hide *;
    LastByte(w, b, r, c);
    ShiftedByte(s, r, c);
    AtOwnRow(s, r, c);
  }

  lemma LastByte(w: Schedule, b: Block, r: nat, c: nat)
    requires r < 4 && c < 4
    ensures Cipher(w, b)[r + 4 * c] == Add(At(ShiftRows(SubBytes(Rounds(w, b, 13))), r, c), w[224 + r + 4 * c])
  {
    hide Rounds, ShiftRows, SubBytes;
  }

  // ---- The chain, byte by byte (SP 800-38A, section 6.2) ----

  // Each block is the cipher of its plain text added to the block before it, or to the IV.
  lemma ChainEncrypts(w: Schedule, iv: Block, data: seq<byte>, j: nat)
    requires |data| % 16 == 0 && 16 * j + 16 <= |data|
    ensures var c := CbcEncrypt(w, iv, data);
      |c| == |data| &&
      c[16 * j..16 * j + 16]
        == Cipher(w, seq(16, i requires 0 <= i < 16 =>
                           data[16 * j + i] ^ if j == 0 then iv[i] else c[16 * (j - 1) + i]))
  {
    hide Cipher, CbcEncrypt;
    var c := CbcEncrypt(w, iv, data);
    CbcEncryptRecurrence(w, iv, data, j);
    var previous := if j == 0 then iv else BlockAt(c, j - 1);
    assert XorBytes(BlockAt(data, j), previous)
        == seq(16, i requires 0 <= i < 16 => data[16 * j + i] ^ if j == 0 then iv[i] else c[16 * (j - 1) + i]);
  }

  // Each byte is that of the deciphered block added to the cipher text before it, or to the IV.
  lemma ChainDecrypts(w: Schedule, iv: Block, data: seq<byte>, j: nat, i: nat)
    requires |data| % 16 == 0 && 16 * j + 16 <= |data| && i < 16
    ensures var p := CbcDecrypt(w, iv, data);
      |p| == |data| &&
      p[16 * j + i] == InvCipher(w, data[16 * j..16 * j + 16])[i] ^ if j == 0 then iv[i] else data[16 * (j - 1) + i]
  {
    hide InvCipher, CbcDecrypt;
    var p := CbcDecrypt(w, iv, data);
    CbcDecryptRecurrence(w, iv, data, j);
    assert p[16 * j + i] == BlockAt(p, j)[i];
  }

  // ---- The key schedule, byte by byte (section 5.2) ----

  // Bytes 0 to 31 are the key. Each eight words begin with one that is rotated, substituted and
  // given the round constant.
  lemma ScheduleBegins(key: Key, j: nat)
    requires j < 32
    ensures KeySchedule(key)[j] == key[j]
  {
    hide *;
    ByteOfSchedule(key, j);
    KeyByte(key, j);
  }

  lemma ScheduleHead(key: Key, i: nat)
    requires 1 <= i <= 7
    ensures var w := KeySchedule(key);
      w[32 * i] == w[32 * i - 32] ^ (SBox(w[32 * i - 3]) ^ [1, 2, 4, 8, 16, 32, 64][i - 1])
  {
    hide *;
    ByteOfSchedule(key, 32 * i);
    ByteOfSchedule(key, 32 * i - 32);
    ByteOfSchedule(key, 32 * i - 3);
    RoundConstantIs(i);
    RconWordByte(key, i, 0);
  }

  // The other three bytes of that word: the bytes before them in the word before, again rotated.
  lemma ScheduleRotated(key: Key, i: nat, r: nat)
    requires 1 <= i <= 7 && 1 <= r <= 3
    ensures var w := KeySchedule(key);
      w[32 * i + r] == w[32 * i + r - 32] ^ SBox(w[if r == 3 then 32 * i - 4 else 32 * i + r - 3])
  {
    hide *;
    ByteOfSchedule(key, 32 * i + r);
    ByteOfSchedule(key, 32 * i + r - 32);
    ByteOfSchedule(key, if r == 3 then 32 * i - 4 else 32 * i + r - 3);
    RconWordByte(key, i, r);
    XorNone(SBox(ScheduleByte(key, if r == 3 then 32 * i - 4 else 32 * i + r - 3)));
  }

  // The word in the middle of the eight is substituted only.
  lemma ScheduleMiddle(key: Key, i: nat, r: nat)
    requires 1 <= i <= 6 && r <= 3
    ensures var w := KeySchedule(key);
      w[32 * i + 16 + r] == w[32 * i + r - 16] ^ SBox(w[32 * i + r + 12])
  {
    hide *;
    ByteOfSchedule(key, 32 * i + 16 + r);
    ByteOfSchedule(key, 32 * i + r - 16);
    ByteOfSchedule(key, 32 * i + r + 12);
    SubWordByte(key, 8 * i + 4, r);
  }

  // The other six are only added to the words before them.
  lemma ScheduleRest(key: Key, j: nat)
    requires 32 <= j < 240 && 4 <= j % 32 && !(16 <= j % 32 < 20)
    ensures var w := KeySchedule(key);
      w[j] == w[j - 32] ^ w[j - 4]
  {
    hide *;
    ByteOfSchedule(key, j);
    ByteOfSchedule(key, j - 32);
    ByteOfSchedule(key, j - 4);
    var m, r := j / 4, j % 4;
    assert m % 8 != 0 && m % 8 != 4 && 4 * m + r == j;
    PlainWordByte(key, m, r);
  }

  lemma ByteOfSchedule(key: Key, j: nat)
    requires j < 240
    ensures KeySchedule(key)[j] == ScheduleByte(key, j)
  {
    hide ScheduleByte;
  }

  lemma RoundConstantIs(base: nat)
    requires 1 <= base <= 7
    ensures Rcon(base) == [1, 2, 4, 8, 16, 32, 64][base - 1]
  {
    RconIsShift(base);
  }

  lemma XorNone(x: byte)
    ensures x ^ 0 == x
  {}

  // ---- In place ----

  // What the methods on a buffer mean by a splice.
  lemma SpliceIs(s: seq<byte>, at: nat, b: seq<byte>, j: nat)
    requires at + |b| <= |s| && j < |s|
    ensures |Splice(s, at, b)| == |s|
    ensures Splice(s, at, b)[j] == if at <= j < at + |b| then b[j - at] else s[j]
  {}
}
