/**
 The obfuscator of src/base/encryptor.cc: AES-256 in a CBC chain under the padding rule of section
 6.3 of RFC 5652, keys derived with SHA-1, and the salt framing of ProtectData on Linux.

 Encrypted and Decrypted say what the in-place routines make of the caller's bytes; the theorems
 are that each is the other's inverse, wherever Decrypted accepts at all.
 */
module Encryptor {
  import opened Wrappers
  import Aes256
  import Sha1

  type byte = bv8

  const BLOCK_SIZE: nat := 16
  const KEY_SIZE: nat := 32
  const SALT_SIZE: nat := 32

  // ---- Padding ----

  function GetEncryptedSize(size: nat): (r: nat)
    ensures size < r <= size + 16 && r % 16 == 0
  {
    (size / BLOCK_SIZE + 1) * BLOCK_SIZE
  }

  function Repeated(n: nat, v: byte): (r: seq<byte>)
    ensures |r| == n
  {
    seq(n, _ => v)
  }

  function Padded(data: seq<byte>): (r: seq<byte>)
    ensures |r| == GetEncryptedSize(|data|)
  {
    var n := GetEncryptedSize(|data|) - |data|;
    data + Repeated(n, n as byte)
  }

  // What DecryptArray keeps of the chain's output, if it accepts it.
  function Unpadded(data: seq<byte>): Option<seq<byte>> {
    if data == [] then None
    else
      var n := data[|data| - 1] as nat;
      if n == 0 || n > BLOCK_SIZE || |data| <= n then None
      else if data[|data| - n..] != Repeated(n, data[|data| - 1]) then None
      else Some(data[..|data| - n])
  }

  // Among whole numbers of blocks, exactly the paddings of non-empty strings are accepted, and
  // each gives back its string.
  lemma UnpaddedIsExact(data: seq<byte>, p: seq<byte>)
    requires |data| % 16 == 0
    ensures Unpadded(data) == Some(p) <==> p != [] && data == Padded(p)
  {
    if Unpadded(data) == Some(p) {
      var n := data[|data| - 1] as nat;
      assert |p| + n == |data|;
      WholeBlocks(|p|, n);
      assert data == p + Repeated(n, n as byte);
    }
    if p != [] && data == Padded(p) {
      PaddedIsUnpadded(p);
    }
  }

  lemma PaddedIsUnpadded(p: seq<byte>)
    requires p != []
    ensures Unpadded(Padded(p)) == Some(p)
  {
    var data := Padded(p);
    var n := GetEncryptedSize(|p|) - |p|;
    assert data[|data| - 1] == n as byte;
    assert data[|data| - n..] == Repeated(n, n as byte);
    assert data[..|data| - n] == p;
  }

  lemma WholeBlocks(size: nat, n: nat)
    requires 1 <= n <= 16 && (size + n) % 16 == 0
    ensures GetEncryptedSize(size) == size + n
  {}

  // ---- Encryption as a function of the bytes ----

  function Encrypted(key: Aes256.Key, iv: Aes256.Block, p: seq<byte>): (c: seq<byte>) {
    hide Aes256.CbcEncrypt, Aes256.KeySchedule;
    Aes256.CbcEncrypt(Aes256.KeySchedule(key), iv, Padded(p))
  }

  function Decrypted(key: Aes256.Key, iv: Aes256.Block, c: seq<byte>): Option<seq<byte>> {
    hide Aes256.CbcDecrypt, Aes256.KeySchedule;
    if c == [] || |c| % BLOCK_SIZE != 0 then None
    else Unpadded(Aes256.CbcDecrypt(Aes256.KeySchedule(key), iv, c))
  }

  // The padding: up to the next whole block, and a whole one more where the end is one already, each
  // byte of it saying how many there are.
  lemma PaddedBytes(p: seq<byte>, i: nat)
    requires i < |Padded(p)|
    ensures |Padded(p)| == |p| + 16 - |p| % 16
    ensures Padded(p)[i] == if i < |p| then p[i] else (16 - |p| % 16) as byte
  {
    assert |p| == 16 * (|p| / 16) + |p| % 16;
  }

  // What is encrypted is the padded text, in the chain of the expanded key.
  lemma EncryptedIs(key: Aes256.Key, iv: Aes256.Block, p: seq<byte>, padded: seq<byte>)
    requires |padded| == |p| + 16 - |p| % 16
    requires forall i | 0 <= i < |padded| :: padded[i] == if i < |p| then p[i] else (16 - |p| % 16) as byte
    ensures Encrypted(key, iv, p) == Aes256.CbcEncrypt(Aes256.KeySchedule(key), iv, padded)
  {
    hide Aes256.CbcEncrypt, Aes256.KeySchedule, Padded;
    forall i | 0 <= i < |Padded(p)| ensures Padded(p)[i] == if i < |p| then p[i] else (16 - |p| % 16) as byte {
      PaddedBytes(p, i);
    }
    assert |Padded(p)| == |padded| by { PaddedBytes(p, 0); }
    assert Padded(p) == padded;
  }

  // Decryption accepts exactly the encryptions of non-empty strings, and gives back the string.
  lemma DecryptedIsExact(key: Aes256.Key, iv: Aes256.Block, c: seq<byte>, p: seq<byte>)
    ensures Decrypted(key, iv, c) == Some(p) <==> p != [] && c == Encrypted(key, iv, p)
  {
    hide Aes256.CbcDecrypt, Aes256.CbcEncrypt, Aes256.KeySchedule;
    var w := Aes256.KeySchedule(key);
    Aes256.CbcDecryptUndoesEncrypt(w, iv, Padded(p));
    UnpaddedIsExact(Padded(p), p);
    if c != [] && |c| % 16 == 0 {
      Aes256.CbcEncryptUndoesDecrypt(w, iv, c);
      UnpaddedIsExact(Aes256.CbcDecrypt(w, iv, c), p);
    }
  }

  // ---- Keys ----

  // One half of CryptDeriveKey: 64 copies of a constant, the hash added over the first of them.
  function KeyBlock(c: byte, hash: seq<byte>): (r: seq<byte>)
    requires |hash| <= 64
    ensures |r| == 64
  {
    seq(64, i requires 0 <= i < 64 => if i < |hash| then c ^ hash[i] else c)
  }

  function DerivedKey(password: seq<byte>, salt: seq<byte>): (r: seq<byte>)
    ensures |r| == 40
  {
    hide Sha1.Digest;
    var hash := Sha1.Digest(password + salt);
    Sha1.Digest(KeyBlock(0x36, hash)) + Sha1.Digest(KeyBlock(0x5c, hash))
  }

  // MakeDigest is asked only for strings whose padded size fits in size_t.
  predicate Hashable(password: seq<byte>, salt: seq<byte>) {
    |password| + |salt| + 72 < Sha1.SIZE_LIMIT
  }

  method GetMSCryptDeriveKeyWithSHA1(password: seq<byte>, salt: seq<byte>) returns (key: seq<byte>)
    requires Hashable(password, salt)
    ensures key == DerivedKey(password, salt)
  {
    hide Sha1.Digest;
    var buf1 := new byte[64](_ => 0x36);
    var buf2 := new byte[64](_ => 0x5c);
    var hash := Sha1.MakeDigestImpl(password + salt);
    for i := 0 to |hash|
      invariant forall j | 0 <= j < 64 :: buf1[j] == if j < i then 0x36 ^ hash[j] else 0x36
      invariant forall j | 0 <= j < 64 :: buf2[j] == if j < i then 0x5c ^ hash[j] else 0x5c
    {
      buf1[i] := buf1[i] ^ hash[i];
      buf2[i] := buf2[i] ^ hash[i];
    }
    assert buf1[..] == KeyBlock(0x36, hash) && buf2[..] == KeyBlock(0x5c, hash);
    var first := Sha1.MakeDigestImpl(buf1[..]);
    var second := Sha1.MakeDigestImpl(buf2[..]);
    key := first + second;
  }

  // What the derived key is: two digests, of 64 bytes of 0x36 and of 64 of 0x5c, to the first twenty
  // of which the digest of the password and the salt has been added.
  lemma DerivedKeyIs(password: seq<byte>, salt: seq<byte>, first: seq<byte>, second: seq<byte>)
    requires |first| == |second| == 64
    requires forall i | 0 <= i < 20 :: first[i] == 0x36 ^ Sha1.Digest(password + salt)[i]
    requires forall i | 0 <= i < 20 :: second[i] == 0x5c ^ Sha1.Digest(password + salt)[i]
    requires forall i | 20 <= i < 64 :: first[i] == 0x36
    requires forall i | 20 <= i < 64 :: second[i] == 0x5c
    ensures DerivedKey(password, salt) == Sha1.Digest(first) + Sha1.Digest(second)
  {
    hide Sha1.Digest;
    var hash := Sha1.Digest(password + salt);
    assert first == KeyBlock(0x36, hash);
    assert second == KeyBlock(0x5c, hash);
  }

  class Key {
    var key: Aes256.Key
    var iv: Aes256.Block
    var isAvailable: bool

    constructor ()
      ensures !isAvailable
    {
      key, iv, isAvailable := seq(32, _ => 0), seq(16, _ => 0), false;
    }

    method DeriveFromPassword(password: seq<byte>, salt: seq<byte>, newIv: Option<Aes256.Block>) returns (ok: bool)
      requires Hashable(password, salt)
      modifies this
      ensures ok == (!old(isAvailable) && password != [])
      ensures !ok ==> key == old(key) && iv == old(iv) && isAvailable == old(isAvailable)
      ensures ok ==> isAvailable && key == DerivedKey(password, salt)[..KEY_SIZE]
      ensures ok ==> iv == if newIv.Some? then newIv.value else Repeated(16, 0)
    {
      if isAvailable || password == [] {
        return false;
      }
      if newIv.Some? {
        iv := newIv.value;
      } else {
        iv := Repeated(16, 0);
      }
      var derived := GetMSCryptDeriveKeyWithSHA1(password, salt);
      key := derived[..KEY_SIZE];
      isAvailable := true;
      return true;
    }
  }

  // ---- The routines over a buffer ----

  method EncryptArray(key: Key, buf: array?<byte>, size: nat) returns (ok: bool, newSize: nat)
    requires buf != null && size != 0 && key.isAvailable ==> GetEncryptedSize(size) <= buf.Length
    modifies buf
    ensures ok == (key.isAvailable && buf != null && size != 0)
    ensures !ok ==> newSize == size && (buf != null ==> buf[..] == old(buf[..]))
    ensures ok ==> newSize == GetEncryptedSize(size)
    ensures ok ==> buf[..] == Encrypted(key.key, key.iv, old(buf[..size])) + old(buf[newSize..])
  {
    hide Aes256.CbcEncrypt, Aes256.KeySchedule;
    if !key.isAvailable || buf == null || size == 0 {
      return false, size;
    }
    var encSize := GetEncryptedSize(size);
    var paddingSize := encSize - size;
    var paddingValue := paddingSize as byte;
    for i := size to encSize
      invariant buf[..] == old(buf[..size]) + Repeated(i - size, paddingValue) + old(buf[i..])
    {
      buf[i] := paddingValue;
    }
    assert buf[..encSize] == Padded(old(buf[..size]));
    Aes256.TransformCBC(key.key, key.iv, buf, encSize / BLOCK_SIZE);
    return true, encSize;
  }

  lemma TailIsRepeated(d: seq<byte>, n: nat, v: byte)
    requires n <= |d|
    ensures d[|d| - n..] == Repeated(n, v) <==> forall j | |d| - n <= j < |d| :: d[j] == v
  {
    var tail := d[|d| - n..];
    if tail == Repeated(n, v) {
      forall j | |d| - n <= j < |d| ensures d[j] == v {
        assert d[j] == tail[j - (|d| - n)];
      }
    }
  }

  // The end of DecryptArray: the checks on the padding.
  method RemovePadding(buf: array<byte>, size: nat) returns (ok: bool, newSize: nat)
    requires 0 < size <= buf.Length
    ensures ok == Unpadded(buf[..size]).Some? && newSize <= size && (!ok ==> newSize == size)
    ensures ok ==> Unpadded(buf[..size]) == Some(buf[..newSize])
  {
    ghost var d := buf[..size];
    var paddingValue := buf[size - 1];
    var paddingSize := paddingValue as nat;
    if paddingValue == 0x00 || paddingSize > BLOCK_SIZE {
      return false, size;
    }
    if size <= paddingSize {
      return false, size;
    }
    TailIsRepeated(d, paddingSize, paddingValue);
    for i := size - paddingSize to size
      invariant forall j | size - paddingSize <= j < i :: d[j] == paddingValue
    {
      if buf[i] != paddingValue {
        return false, size;
      }
    }
    assert d[..|d| - paddingSize] == buf[..size - paddingSize];
    return true, size - paddingSize;
  }

  // A refused buffer is left as the checks found it: untouched when its size is wrong, already
  // run through the inverse chain when its padding is.
  method DecryptArray(key: Key, buf: array?<byte>, size: nat) returns (ok: bool, newSize: nat)
    requires buf != null ==> size <= buf.Length
    modifies buf
    ensures ok == (key.isAvailable && buf != null && Decrypted(key.key, key.iv, old(buf[..size])).Some?)
    ensures newSize <= size && (!ok ==> newSize == size)
    ensures ok ==> Decrypted(key.key, key.iv, old(buf[..size])) == Some(buf[..newSize])
    ensures buf != null && !(key.isAvailable && size % 16 == 0) ==> buf[..] == old(buf[..])
    ensures buf != null && key.isAvailable && size % 16 == 0 ==>
      buf[..] == Aes256.CbcDecrypt(Aes256.KeySchedule(key.key), key.iv, old(buf[..size])) + old(buf[size..])
  {
    hide Aes256.CbcDecrypt, Aes256.KeySchedule, Unpadded;
    if !key.isAvailable || buf == null || size == 0 {
      return false, size;
    }
    if size < BLOCK_SIZE || size % BLOCK_SIZE != 0 {
      return false, size;
    }
    ghost var d := Aes256.CbcDecrypt(Aes256.KeySchedule(key.key), key.iv, buf[..size]);
    Aes256.InverseTransformCBC(key.key, key.iv, buf, size / BLOCK_SIZE);
    assert buf[..size] == d;
    ok, newSize := RemovePadding(buf, size);
  }

  // ---- The routines over a string ----

  // A growable byte string, which the routines resize in place.
  class ByteString {
    var data: array<byte>

    constructor (s: seq<byte>)
      ensures data[..] == s && fresh(data)
    {
      data := new byte[|s|](i requires 0 <= i < |s| => s[i]);
    }

    method Resize(n: nat)
      modifies this
      ensures fresh(data) && data.Length == n
      ensures n <= old(data.Length) ==> data[..] == old(data[..n])
      ensures n > old(data.Length) ==> data[..] == old(data[..]) + Repeated(n - old(data.Length), 0)
    {
      var was := data;
      data := new byte[n](i requires 0 <= i < n reads was => if i < was.Length then was[i] else 0);
    }
  }

  method EncryptString(key: Key, data: ByteString?) returns (ok: bool)
    modifies data, if data == null then {} else {data.data}
    ensures ok == (key.isAvailable && data != null && old(data.data[..]) != [])
    ensures ok ==> data.data[..] == Encrypted(key.key, key.iv, old(data.data[..]))
    // Without a key the string has grown by then, and stays so.
    ensures !ok && data != null ==> var s := old(data.data[..]);
      data.data[..] == s + Repeated(if s == [] then 0 else GetEncryptedSize(|s|) - |s|, 0)
  {
    if data == null || data.data.Length == 0 {
      return false;
    }
    var size := data.data.Length;
    ghost var p := data.data[..];
    data.Resize(GetEncryptedSize(size));
    assert data.data[..size] == p;
    ok, size := EncryptArray(key, data.data, size);
  }

  method DecryptString(key: Key, data: ByteString?) returns (ok: bool)
    modifies data, if data == null then {} else {data.data}
    ensures ok == (key.isAvailable && data != null && Decrypted(key.key, key.iv, old(data.data[..])).Some?)
    ensures ok ==> Decrypted(key.key, key.iv, old(data.data[..])) == Some(data.data[..])
    // A refused string keeps its length: its bytes stay when that is no number of blocks, and are
    // run through the inverse chain when only the padding is wrong.
    ensures !ok && data != null ==> data.data == old(data.data)
    ensures !ok && data != null ==> var s := old(data.data[..]);
      data.data[..] == if key.isAvailable && |s| % 16 == 0
        then Aes256.CbcDecrypt(Aes256.KeySchedule(key.key), key.iv, s) else s
  {
    if data == null || data.data.Length == 0 {
      return false;
    }
    var size := data.data.Length;
    assert data.data[..size] == data.data[..] && data.data[size..] == [];
    ok, size := DecryptArray(key, data.data, size);
    if !ok {
      return false;
    }
    data.Resize(size);
  }

  // ---- ProtectData and UnprotectData on Linux ----

  function SaltedKey(password: seq<byte>, salt: seq<byte>): (r: Aes256.Key) {
    DerivedKey(password, salt)[..KEY_SIZE]
  }

  function Protected(password: seq<byte>, salt: seq<byte>, p: seq<byte>): seq<byte> {
    salt + Encrypted(SaltedKey(password, salt), Repeated(16, 0), p)
  }

  function Unprotected(password: seq<byte>, c: seq<byte>): Option<seq<byte>> {
    if |c| < SALT_SIZE || password == [] then None
    else Decrypted(SaltedKey(password, c[..SALT_SIZE]), Repeated(16, 0), c[SALT_SIZE..])
  }

  // 32 bytes of salt in front, a key of the first 32 derived bytes, and a chain that starts with zeros.
  lemma ProtectedIs(password: seq<byte>, salt: seq<byte>, p: seq<byte>)
    ensures Protected(password, salt, p) == salt + Encrypted(DerivedKey(password, salt)[..32], seq(16, _ => 0), p)
  {
    hide DerivedKey, Encrypted;
    assert Repeated(16, 0) == seq(16, _ => 0);
  }

  lemma UnprotectedNeeds(password: seq<byte>, c: seq<byte>)
    ensures |c| < 32 || password == [] ==> Unprotected(password, c) == None
    ensures SALT_SIZE == 32
  {
    hide Decrypted, SaltedKey;
  }

  // A cipher text opens exactly when it is some salt followed by the encryption of a non-empty
  // text under the key derived from that salt.
  lemma UnprotectedIsExact(password: seq<byte>, c: seq<byte>, p: seq<byte>)
    requires password != []
    ensures Unprotected(password, c) == Some(p)
       <==> |c| >= SALT_SIZE && p != [] && c == Protected(password, c[..SALT_SIZE], p)
  {
    hide Decrypted, Encrypted, SaltedKey;
    if |c| >= SALT_SIZE {
      var salt := c[..SALT_SIZE];
      DecryptedIsExact(SaltedKey(password, salt), Repeated(16, 0), c[SALT_SIZE..], p);
      assert c == salt + c[SALT_SIZE..];
      var e := Encrypted(SaltedKey(password, salt), Repeated(16, 0), p);
      assert (salt + e)[SALT_SIZE..] == e;
    }
  }

  lemma UnprotectUndoesProtect(password: seq<byte>, salt: seq<byte>, p: seq<byte>)
    requires password != [] && |salt| == SALT_SIZE && p != []
    ensures Unprotected(password, Protected(password, salt, p)) == Some(p)
  {
    hide Encrypted, Unprotected;
    var c := Protected(password, salt, p);
    assert c[..SALT_SIZE] == salt;
    UnprotectedIsExact(password, c, p);
  }

  method ProtectData(plainText: seq<byte>, password: Option<seq<byte>>, salt: seq<byte>)
      returns (ok: bool, cipherText: seq<byte>)
    requires |salt| == SALT_SIZE && (password.Some? ==> Hashable(password.value, salt))
    ensures ok == (password.Some? && password.value != [] && plainText != [])
    ensures ok ==> cipherText == Protected(password.value, salt, plainText)
  {
    hide DerivedKey, Encrypted;
    cipherText := [];
    if password.None? {
      return false, [];
    }
    var key := new Key();
    var derived := key.DeriveFromPassword(password.value, salt, None);
    if !derived {
      return false, [];
    }
    var buf := new ByteString(plainText);
    ok := EncryptString(key, buf);
    if ok {
      cipherText := salt + buf.data[..];
    }
  }

  method UnprotectData(cipherText: seq<byte>, password: Option<seq<byte>>) returns (ok: bool, plainText: seq<byte>)
    requires password.Some? ==> |password.value| + SALT_SIZE + 72 < Sha1.SIZE_LIMIT
    ensures ok == (password.Some? && Unprotected(password.value, cipherText).Some?)
    ensures ok ==> Unprotected(password.value, cipherText) == Some(plainText)
  {
    hide DerivedKey, Decrypted;
    plainText := [];
    if |cipherText| < SALT_SIZE || password.None? {
      return false, [];
    }
    var salt := cipherText[..SALT_SIZE];
    var key := new Key();
    var derived := key.DeriveFromPassword(password.value, salt, None);
    if !derived {
      return false, [];
    }
    var buf := new ByteString(cipherText[SALT_SIZE..]);
    ok := DecryptString(key, buf);
    if ok {
      plainText := buf.data[..];
    }
  }
}
