# Verified models of Mozc's algorithmic kernels

Dafny models of eight self-contained kernels of Mozc, the Japanese input method, with proofs of what
they are for. `dafny verify dfyconfig.toml` checks everything.

Each module follows one source file, or proves theorems about one that does. Code that computes in place is modelled in place: methods on
arrays and classes with the source's fields, proved against specification functions; the theorems are
about those functions, so they hold of the methods.

- `Gf256`, `AesSBox`, `Aes256`: the AES-256 cipher in CBC mode (FIPS 197, SP 800-38A). The main result
  is that both transformations undo each other in the caller's buffer for every key, IV and number of
  blocks. `AesStandard` tells every byte of the cipher, the chain and the key schedule by the tables and
  the field alone.
- `Sha1`: the padding iterator and the digest (FIPS 180-4). `Sha1Standard` states what it computes with
  shifts, additions and constants.
- `Encryptor`: padding, key derivation, encryption of buffers and strings, and the framing of protected
  data on Linux. Encryption is a bijection between the non-empty strings and what decryption accepts.
- `Session`, `SessionTheorems`, `Client`: the client's connection and session protocol. `Session` states
  it as functions with the server and the launcher as oracles, `Client` is the object with its fields,
  proved to do the same, `SessionTheorems` proves what holds over all runs, and `SessionCases` what each
  function does case by case and what a command replays, in which order, and keeps.
- `NumberParser`, `NumberPrinter`: Japanese numbers read and printed. `NumberTokens` and
  `NumberRoundTrip` prove which printed numbers are read back, in all four styles; `NumberLoss` proves
  which numbers of an accepted sequence the reader counts. `NumberReading` and `NumberTexts` tell what
  the reader takes and what both write, character by character. `Decimals` is shared by them.
- `RecursiveMutex`: the recursive mutex as a state machine of atomic steps of any number of threads. A
  relaxed read of the owner may return any store that is not older than what its thread has seen.
- `Utf8`, `SplitCsv`, `Graphemes`: the UTF-8 codec with its two iterators, the CSV splitter, and the
  grouping of code points. `Utf8Standard` holds the decoder against the byte sequences of RFC 2279.
- `CodegenStream`: the stream buffer that writes bytes as the definition of an array.

Where the code and its comments, names or documentation differ, the model follows the code:

- `GF_p8_mul3` multiplies by 2 (`src/base/unverified_aes256.cc:100-103`).
- `EncryptString` fails with the string already lengthened if the key is not available
  (`src/base/encryptor.cc:161-165`); `Encryptor.EncryptString` says so.
- Once the client is in SERVER_FATAL it is said to do nothing (`src/client/client.cc:144`), but
  `CheckVersionOrRestartServer` and `Reset` can leave that state; see
  `SessionTheorems.CheckRevivesOldProtocol`.
- A run of digits that does not fit its place makes the number reader skip to the end, so that a
  malformed tail after a place that was read is dropped rather than refused
  (`src/base/number_util.cc:697-702`). `NumberLoss.AcceptedCountsAll` says exactly when an accepted
  sequence loses numbers, and `NumberLoss.LostTailIsIgnored` that it then means what it means without
  them; `NumberParser.MalformedTailIsDropped` is an instance.
- The old style of ArabicToKanji is not always read back by NormalizeNumbers, which refuses a one
  before ten or a hundred and does not know two of its characters; `NumberRoundTrip.SpellingIsRead`
  gives the exact condition.
- The encoder writes five bytes up to 0x7FFFFFF, where five bytes carry only 0x3FFFFFF
  (`src/base/util.cc:569`), and nothing for NUL; the exact range is in `Utf8.DecodeUndoesEncode`.
- A line that ends with a comma after a quoted field loses the empty field
  (`src/base/util.cc:247-250`); see `SplitCsv.SplitUndoesJoin`.
- The digest's block count wraps for sizes within 72 of 2^64 (`src/base/unverified_sha1.cc:185`); see
  `Sha1.CountIsExact`.
- Bytes put before a definition is opened wait in the buffer and come out in it, as long as they fit
  (`CodegenStream.StrayBytesWait`, `CodegenStream.EarlyBytesComeFirst`); beyond that a single byte is
  lost and a larger write goes out at once, outside any definition
  (`src/base/codegen_bytearray_stream.cc:99-116`; `CodegenStream.StrayPut`, `CodegenStream.StrayWrite`).

## Model

| member | source | states |
|---|---|---|
| Gf256.XtimeIsShifted | src/base/unverified_aes256.cc:100-103 | the doubling step is the shift with reduction by 0x1b of section 4.2.1 of FIPS 197 (multiplication by x, whatever its name says) |
| Gf256.XtimeIsMul | src/base/unverified_aes256.cc:100-103 | it is multiplication by 2 in GF(2^8), for every byte |
| Gf256.Times9IsMul | src/base/unverified_aes256.cc:126-130 | the program's chain of doublings for 9 is that multiplication |
| Gf256.Times11IsMul | src/base/unverified_aes256.cc:126-130 | the same for 11 |
| Gf256.Times13IsMul | src/base/unverified_aes256.cc:131-132 | the same for 13 |
| Gf256.Times14IsMul | src/base/unverified_aes256.cc:131-133 | the same for 14 |
| Gf256.InverseRows | src/base/unverified_aes256.cc:135-138 | the inverse column matrix undoes the column matrix: the row identity over all byte quadruples |
| Gf256.InverseColumns | src/base/unverified_aes256.cc:114-138 | and the other way round |
| AesSBox.InvSBoxUndoesSBox | src/base/unverified_aes256.cc:43-89 | the two tables are inverse to each other, both ways, for every byte |
| AesSBox.SBoxIsAffineOfInverse | src/base/unverified_aes256.cc:43-65 | every table entry is the affine image of a byte whose GF(2^8) product with the index is 1 (0 for index 0), section 5.1.1 of FIPS 197 |
| Aes256.MixByteIsMatrixRow | src/base/unverified_aes256.cc:105-118 | each new byte of a column is the matrix row of section 5.1.3 of FIPS 197 |
| Aes256.InvMixByteIsMatrixRow | src/base/unverified_aes256.cc:120-139 | each new byte is the matrix row of section 5.3.3 |
| Aes256.SubBytesInverse | src/base/unverified_aes256.cc:211-221 | SubBytes and InvSubBytes undo each other on every block |
| Aes256.ShiftRowsByRow | src/base/unverified_aes256.cc:235-291 | the row swaps amount to moving every byte as sections 5.1.2 and 5.3.1 of FIPS 197 define |
| Aes256.ShiftRowsInverse | src/base/unverified_aes256.cc:235-291 | ShiftRows and InvShiftRows undo each other on every block |
| Aes256.MixColumnsInverse | src/base/unverified_aes256.cc:223-233 | MixColumns and InvMixColumns undo each other on every block |
| Aes256.RoundInverse | src/base/unverified_aes256.cc:296-317 | one round and its inverse undo each other under any round key |
| Aes256.InvRoundsUndoRounds | src/base/unverified_aes256.cc:296-317 | any number of rounds is undone by the same rounds taken backwards |
| Aes256.RoundsUndoInvRounds | src/base/unverified_aes256.cc:296-317 | and the other way round |
| Aes256.LastRoundInverse | src/base/unverified_aes256.cc:302-311 | the last round without MixColumns and the first of the inverse undo each other |
| Aes256.CipherInverse | src/base/unverified_aes256.cc:293-319 | for every schedule of 240 bytes and every block, decryption undoes encryption and encryption undoes decryption |
| Aes256.CbcEncryptRecurrence | src/base/unverified_aes256.cc:151-158 | every block of the chain satisfies the recurrence of section 6.2 of SP 800-38A |
| Aes256.CbcDecryptRecurrence | src/base/unverified_aes256.cc:169-178 | every block of the inverse chain satisfies its recurrence |
| Aes256.CbcDecryptUndoesEncrypt | src/base/unverified_aes256.cc:143-179 | for every schedule, IV and number of blocks the inverse chain restores the data |
| Aes256.CbcEncryptUndoesDecrypt | src/base/unverified_aes256.cc:143-179 | and the chain restores what the inverse chain was given |
| Aes256.XorInto | src/base/unverified_aes256.cc:153-155 | adds 16 bytes to one block of a buffer, which AesStandard.StateAtFirst and AesStandard.ChainEncrypts tell byte by byte, and touches no other byte |
| Aes256.AddRoundKey | src/base/unverified_aes256.cc:93-98 | the same with a round key out of the schedule |
| Aes256.SubBytesInPlace | src/base/unverified_aes256.cc:211-215 | the loop puts the substituted block in place, and only there |
| Aes256.InvSubBytesInPlace | src/base/unverified_aes256.cc:217-221 | likewise |
| Aes256.RotateCells | src/base/unverified_aes256.cc:240-244 | four cells move round by one, the rest stays |
| Aes256.ShiftRowsInPlace | src/base/unverified_aes256.cc:235-262 | the swaps put the shifted block in place, and only there |
| Aes256.InvShiftRowsInPlace | src/base/unverified_aes256.cc:264-291 | likewise |
| Aes256.MixedColumn | src/base/unverified_aes256.cc:106-117 | the sums of the three local arrays are the mixed column |
| Aes256.InvMixedColumn | src/base/unverified_aes256.cc:121-138 | the sums of the four local arrays are the inversely mixed column |
| Aes256.Products | src/base/unverified_aes256.cc:121-134 | the local arrays hold the products by 9, 11, 13 and 14 |
| Aes256.MixColumnsImpl | src/base/unverified_aes256.cc:105-118 | one column is mixed in place |
| Aes256.InvMixColumnsImpl | src/base/unverified_aes256.cc:120-139 | one column is inversely mixed in place |
| Aes256.MixColumnsInPlace | src/base/unverified_aes256.cc:223-227 | the four columns of one block are mixed in place, nothing else changes |
| Aes256.InvMixColumnsInPlace | src/base/unverified_aes256.cc:229-233 | likewise |
| Aes256.RoundInPlace | src/base/unverified_aes256.cc:297-300 | the body of the round loop refines the round |
| Aes256.InvRoundInPlace | src/base/unverified_aes256.cc:313-316 | the body of the inverse round loop refines the inverse round |
| Aes256.TransformECB | src/base/unverified_aes256.cc:293-305 | the loop over rounds refines the cipher on one block of any buffer, touching only that block; AesStandard gives each byte of that cipher |
| Aes256.InverseTransformECB | src/base/unverified_aes256.cc:307-319 | likewise for the inverse cipher |
| Aes256.RconIsShift | src/base/unverified_aes256.cc:187-191 | the shifted one is the round constant x^(base-1) for 1 <= base <= 7 |
| Aes256.RconWordByte | src/base/unverified_aes256.cc:191-195 | the first word of each group obeys the word recursion with rotation, substitution and constant (section 5.2 of FIPS 197) |
| Aes256.SubWordByte | src/base/unverified_aes256.cc:202-204 | the fifth word obeys it with substitution only |
| Aes256.PlainWordByte | src/base/unverified_aes256.cc:196-207 | the other words obey it without either |
| Aes256.FillRconWord | src/base/unverified_aes256.cc:191-195 | writes the first word of a group as the recursion has it |
| Aes256.FillSubWord | src/base/unverified_aes256.cc:202-204 | writes the fifth word |
| Aes256.FillPlainWords | src/base/unverified_aes256.cc:196-207 | writes the other words |
| Aes256.MakeKeySchedule | src/base/unverified_aes256.cc:181-209 | all 240 bytes are those of the word-recursive Key Expansion for Nk = 8 and Nr = 14, for every key |
| Aes256.EncryptChained | src/base/unverified_aes256.cc:152-156 | one step of the chain on its block of the buffer |
| Aes256.TransformCBC | src/base/unverified_aes256.cc:143-159 | the first block_count * 16 bytes become their CBC encryption, the rest of the buffer stays |
| Aes256.InverseTransformCBC | src/base/unverified_aes256.cc:161-179 | likewise for decryption, with the saved previous ciphertext block |
| Aes256.DecryptChained | src/base/unverified_aes256.cc:170-176 | one step of the inverse chain on its block of the buffer |
| Aes256.CbcInPlaceRoundTrip | src/base/unverified_aes256.cc:143-179 | running the second over the first in the same buffer restores every byte |
| Aes256.CbcInPlaceReverseRoundTrip | src/base/unverified_aes256.cc:143-179 | and the first over the second |
| AesStandard.DoublingIs | src/base/unverified_aes256.cc:100-103 | the doubling step bit by bit: a shift, and 0x1b where the top bit was set |
| AesStandard.ProductIs | src/base/unverified_aes256.cc:100-139 | the product of the field for the factor 0 and for one bit more |
| AesStandard.ProductOfDouble | src/base/unverified_aes256.cc:100-139 | and for a factor moved up by one: with the former, these fix the product of any two bytes |
| AesStandard.AffineIs | src/base/unverified_aes256.cc:43-65 | the affine map of section 5.1.1 of FIPS 197 as rotations |
| AesStandard.StateAtFirst | src/base/unverified_aes256.cc:293-295 | byte i of the State before the first round is byte i of the block added to byte i of the schedule |
| AesStandard.StateAfterRound | src/base/unverified_aes256.cc:296-300 | for each of the rounds 1 to 13, every byte after it from the four bytes before it, the table, the products by 2 and 3 and the schedule alone |
| AesStandard.StateAtLast | src/base/unverified_aes256.cc:302-304 | every byte of the result, from State 13, the table and the schedule |
| AesStandard.ChainEncrypts | src/base/unverified_aes256.cc:143-159 | every block of the chain is the cipher of the bytewise sum of its plain text and the block before it or the IV |
| AesStandard.ChainDecrypts | src/base/unverified_aes256.cc:161-179 | every byte of the inverse chain is that of the deciphered block added to the cipher text before it or the IV |
| AesStandard.ScheduleBegins | src/base/unverified_aes256.cc:183 | the first 32 bytes of the schedule are the key |
| AesStandard.ScheduleHead | src/base/unverified_aes256.cc:185-192 | the first byte of each eight words, with the round constants 1, 2, 4, ..., 64 written out |
| AesStandard.ScheduleRotated | src/base/unverified_aes256.cc:193-195 | the other bytes of that word, rotated and substituted |
| AesStandard.ScheduleMiddle | src/base/unverified_aes256.cc:202-204 | the word in the middle, substituted only |
| AesStandard.ScheduleRest | src/base/unverified_aes256.cc:196-207 | the other words, byte by byte |
| AesStandard.SpliceIs | src/base/unverified_aes256.cc:143-179 | what writing a stretch of a buffer means, place by place |
| Sha1.ZeroFillIsLeast | src/base/unverified_sha1.cc:150-162 | the zero fill is the least that leaves eight bytes of the last block for the length (section 5.1.1 of FIPS 180-4) |
| Sha1.BlockInside | src/base/unverified_sha1.cc:128-133 | a block that lies within the message is its 64 bytes |
| Sha1.BlockWithEnd | src/base/unverified_sha1.cc:135-162 | the block the message ends in holds the rest of it, the marker, zeros, and the length if at most 55 bytes precede the marker |
| Sha1.BlockAfterEnd | src/base/unverified_sha1.cc:161-168 | a block after the end holds zeros and the length |
| Sha1.CountIsExact | src/base/unverified_sha1.cc:175-187 | the number of blocks is right if and only if the size plus 72 does not pass 2^64 |
| Sha1.PaddedMessageIterator.constructor | src/base/unverified_sha1.cc:114-117 | starts at block 0 with the block count computed |
| Sha1.PaddedMessageIterator.FillData | src/base/unverified_sha1.cc:126-144 | copies what of the message belongs to the block, and the marker where the message ends |
| Sha1.PaddedMessageIterator.FillNextMessage | src/base/unverified_sha1.cc:121-169 | for every message and block index the buffer becomes that block of the padded message |
| Sha1.PaddedMessageIterator.MoveNext | src/base/unverified_sha1.cc:171 | goes on to the next block |
| Sha1.StoreLength | src/base/unverified_sha1.cc:164-168 | the last eight bytes become the bit length, most significant byte first |
| Sha1.RotlIsShifts | src/base/unverified_sha1.cc:72-77 | the rotation is the two shifts of section 3.2, for the amounts in use |
| Sha1.FIsChooseAndMajority | src/base/unverified_sha1.cc:52-68 | the revised forms of f equal the original choose and majority |
| Sha1.WordAtWordBytes | src/base/unverified_sha1.cc:93-104 | storing a word and loading it give it back |
| Sha1.MakeSchedule | src/base/unverified_sha1.cc:207-214 | the 80 words are those of step 1 of section 6.1.2, which Sha1Standard.FirstWords and Sha1Standard.LaterWords write out |
| Sha1.CompressBlock | src/base/unverified_sha1.cc:207-235 | one round of the loop is one step of the fold over blocks |
| Sha1.MakeDigestImpl | src/base/unverified_sha1.cc:194-239 | the digest is the fold of the compression over the blocks of the padded message, for every message whose block count does not wrap; Sha1Standard.DigestIs says what that fold computes |
| Sha1Standard.PaddedIs | src/base/unverified_sha1.cc:119-173 | the padded message: the message, the marker, zeros, in whole blocks |
| Sha1Standard.LengthIs | src/base/unverified_sha1.cc:164-168 | and in its last eight bytes the number of bits, modulo 2^64 and the most significant byte first |
| Sha1Standard.FirstWords | src/base/unverified_sha1.cc:207-211 | the first 16 words of the schedule are four bytes each, the most significant first |
| Sha1Standard.LaterWords | src/base/unverified_sha1.cc:212-214 | each later word is the exclusive or of four earlier ones shifted round by one, with the shifts written out |
| Sha1Standard.ConstantIsRoot | src/base/unverified_sha1.cc:79-91 | each of the four constants is the whole part of 2^30 times the square root of 2, 3, 5 or 10 |
| Sha1Standard.ConstantIs | src/base/unverified_sha1.cc:79-91 | their values and the steps they are used in |
| Sha1Standard.StepIs | src/base/unverified_sha1.cc:222-229 | one step: all five new working variables, with shifts and addition modulo 2^32 |
| Sha1Standard.SumIs | src/base/unverified_sha1.cc:223 | the sum of a step is addition modulo 2^32 |
| Sha1Standard.FIs | src/base/unverified_sha1.cc:50-68 | the functions of section 4.1.1 and the steps they are used in |
| Sha1Standard.CompressionIs | src/base/unverified_sha1.cc:216-235 | the working variables start as the hash value and are added to it at the end |
| Sha1Standard.AddStateIs | src/base/unverified_sha1.cc:231-235 | those five additions, modulo 2^32 |
| Sha1Standard.HashValueStarts | src/base/unverified_sha1.cc:195-200 | the initial hash value |
| Sha1Standard.HashValueIs | src/base/unverified_sha1.cc:202-236 | each block of the padded message takes the hash value one compression further |
| Sha1Standard.DigestBytes | src/base/unverified_sha1.cc:93-104 | the digest is the five words of the last hash value, each as four bytes |
| Sha1Standard.DigestIs | src/base/unverified_sha1.cc:194-239 | all of it: any hash values, schedules and working variables that obey the standard on the blocks of the padded message end in the digest |
| Encryptor.GetEncryptedSize | src/base/encryptor.cc:116-122 | the least multiple of 16 above the size |
| Encryptor.UnpaddedIsExact | src/base/encryptor.cc:235-255 | data is unpadded to p if and only if p is not empty and data is p padded (section 6.3 of RFC 5652) |
| Encryptor.PaddedIsUnpadded | src/base/encryptor.cc:195-202 | padding is undone for every non-empty text |
| Encryptor.DecryptedIsExact | src/base/encryptor.cc:155-257 | for every key and IV, c decrypts to p if and only if p is not empty and c is the encryption of p: the two are inverse bijections |
| Encryptor.GetMSCryptDeriveKeyWithSHA1 | src/base/encryptor.cc:93-112 | the 40 bytes are the digests of the two constant blocks mixed with the digest of password and salt |
| Encryptor.DerivedKeyIs | src/base/encryptor.cc:93-112 | the derived key is two digests, in this order: of 64 bytes of 0x36 and of 64 of 0x5c, to the first twenty of which the digest of password and salt is added |
| Encryptor.PaddedBytes | src/base/encryptor.cc:195-202 | every byte of a padded text: up to the next whole block or a whole one more, each saying how many were added |
| Encryptor.EncryptedIs | src/base/encryptor.cc:183-210 | the encryption is the chain of the expanded key over the text padded so |
| Encryptor.Key.DeriveFromPassword | src/base/encryptor.cc:124-153 | sets key and IV once; refuses a second time or an empty password and then changes nothing |
| Encryptor.EncryptArray | src/base/encryptor.cc:183-210 | exactly when it succeeds, and the whole buffer after it: the encryption, then what lay behind |
| Encryptor.RemovePadding | src/base/encryptor.cc:235-256 | the checks of the padding, in place, are those of the exact unpadding |
| Encryptor.DecryptArray | src/base/encryptor.cc:212-257 | exactly when it succeeds, the plain text it leaves, and what becomes of the buffer when it fails |
| Encryptor.ByteString.constructor | src/base/encryptor.cc:155-156 | a mutable string with its characters |
| Encryptor.ByteString.Resize | src/base/encryptor.cc:161 | std::string::resize: shortens, or appends zero bytes |
| Encryptor.EncryptString | src/base/encryptor.cc:155-167 | the string becomes its encryption; a missing key leaves it lengthened with zeros |
| Encryptor.DecryptString | src/base/encryptor.cc:169-181 | the string becomes the text of which it is the encryption; it fails if there is none, and then keeps its length, its bytes unchanged or run through the inverse chain |
| Encryptor.UnprotectedIsExact | src/base/encryptor.cc:366-432 | a protected text opens to p if and only if it is a 32-byte salt and the encryption of p under the key of that salt |
| Encryptor.UnprotectUndoesProtect | src/base/encryptor.cc:366-432 | whatever is protected, under any salt, opens to itself |
| Encryptor.ProtectedIs | src/base/encryptor.cc:371-397 | a protected text is the salt and the encryption under the first 32 derived bytes with an IV of zeros |
| Encryptor.UnprotectedNeeds | src/base/encryptor.cc:400-410 | nothing shorter than 32 bytes opens, nor anything without a password |
| Encryptor.ProtectData | src/base/encryptor.cc:371-397 | salt and encryption, and exactly when it succeeds |
| Encryptor.UnprotectData | src/base/encryptor.cc:400-432 | exactly when it succeeds, and with what |
| SessionTheorems.CallOutcome | src/client/client.cc:627-715 | what one request can change: status, version and the log; and that a failed status sends nothing |
| SessionTheorems.EnsureConnectionOutcome | src/client/client.cc:137-186 | it fails if and only if it ends in SERVER_FATAL |
| SessionTheorems.CheckVersionOutcome | src/client/client.cc:737-810 | one version check reboots one server at most, and reports at most once on its way to failing |
| SessionTheorems.EnsureSessionOutcome | src/client/client.cc:188-217 | it succeeds if and only if it ends in SERVER_OK; at most two starts then, three otherwise |
| SessionTheorems.PushKeepsJournal | src/client/client.cc:259-283 | recording an input keeps the journal the oldest 512 of the inputs consumed since the last reset |
| SessionTheorems.ReplayOutcome | src/client/client.cc:248-257 | the loop sends the entries in order under the current session id up to the first failed call |
| SessionTheorems.PlaybackOutcome | src/client/client.cc:242-257 | playback sends the whole journal of consumed inputs, its beginning up to the first failure, or nothing; never one with a gap |
| SessionTheorems.CheckedCallOutcome | src/client/client.cc:613-625 | a checked call sends its input at most once and succeeds only with the reply to it |
| SessionTheorems.SecondTrialOutcome | src/client/client.cc:393-414 | what the second trial sends, starts, reboots and reports; what it replays first is in SessionCases.CommandReplays |
| SessionTheorems.PlaybackIsQuiet | src/client/client.cc:242-257 | playback, whatever the journal, sends and starts nothing else |
| SessionTheorems.SecondTrialKeepsJournal | src/client/client.cc:393-421 | the second trial keeps the journal exact |
| SessionTheorems.CommandOutcome | src/client/client.cc:369-423 | from any state, one command sends its input at most twice under the then current id, starts a server at most five times, reboots at most once for each check, and succeeds only with the reply to the last of those sends |
| SessionTheorems.CommandKeepsJournal | src/client/client.cc:369-423 | one command keeps the journal exact |
| SessionTheorems.StepKeepsJournal | src/client/client.cc:242-306 | every public method keeps the journal exact |
| SessionTheorems.StepReports | src/client/client.cc:137-217 | a public method other than the two that revive reports a fatal error only if it ends in SERVER_FATAL, and never leaves SERVER_FATAL |
| SessionTheorems.RunKeepsJournal | src/client/client.cc:259-306 | over every run of all public methods the journal is exact and within 512 entries |
| SessionTheorems.RunReports | src/client/client.cc:137-217 | over every run of the others, fatal errors are reported at most twice in all |
| SessionTheorems.FatalIsFinal | src/client/client.cc:143-146 | once SERVER_FATAL, always, over every run of the others |
| SessionTheorems.CheckRevivesOldProtocol | src/client/client.cc:354-367 | CheckVersionOrRestartServer can leave SERVER_FATAL if and only if the last protocol version seen is older than the client's |
| SessionTheorems.ResetRevives | src/client/client.cc:812-816 | Reset always leaves it |
| SessionTheorems.FiveStartsHappen | src/client/client.cc:369-423 | the bound of five starts is reached |
| SessionCases.ConnectionCases | src/client/client.cc:137-186 | for each of the eight statuses, what happens, in which order, and the status and result after it |
| SessionCases.CallCases | src/client/client.cc:627-715 | which request goes out, whether it succeeds, and every field after it, for every answer of the other side |
| SessionCases.FailedCall | src/client/client.cc:630-635 | after a failure nothing goes out |
| SessionCases.CheckedCallCases | src/client/client.cc:613-625 | a failed call with another protocol version becomes a version mismatch |
| SessionCases.ShutdownCases | src/client/client.cc:545-611 | the request of a shutdown, and the waiting after it |
| SessionCases.TakeDownCases | src/client/client.cc:768-789 | a server is killed exactly if it did not answer or did not go away by itself |
| SessionCases.CheckCases | src/client/client.cc:737-810 | each of the two trials of a version check: which answers end it, and how, and which take the server down |
| SessionCases.RestartCases | src/client/client.cc:354-367 | a failed check is followed by a connection |
| SessionCases.CreateCases | src/client/client.cc:442-474 | a session is asked for with id 0 and gets the id of the reply |
| SessionCases.EnsureSessionCases | src/client/client.cc:188-217 | when a session is made, and what follows success or failure |
| SessionCases.PushCases | src/client/client.cc:259-283 | the journal after a reply: unchanged, one input longer while there are fewer than 512, or empty after a key that brought a result |
| SessionCases.ExactMeans | src/client/client.cc:259-283 | the journal is exact if it holds the oldest 512 of the inputs consumed since it was last emptied, ids aside |
| SessionCases.StampedIs | src/client/client.cc:249-250 | a replayed entry is the recorded input under the new id |
| SessionCases.ResetCases | src/client/client.cc:286-306 | what emptying the journal and Reset change |
| SessionCases.CommandCases | src/client/client.cc:369-393 | which outcomes of the first send lead to success, to failure and to a second trial |
| SessionCases.SecondTrialCases | src/client/client.cc:393-421 | the second trial: a session, the playback, the send, and what becomes of the journal |
| SessionCases.CommandReplays | src/client/client.cc:393-421 | when the first send ended in SERVER_SHUTDOWN or was answered for another session, and a new session was made, the inputs consumed so far are sent again under its id: all of them unless interrupted, none at 512 or more; in the one log of all events they stand before the input itself, and the command succeeds exactly with its answer |
| SessionCases.ReplayHappens | src/client/client.cc:369-423 | such a replay: one input under session 1, the server lost, and the log of what is then sent in session 2 |
| SessionCases.CommandReplaysNothing | src/client/client.cc:369-391 | in every other case nothing is replayed, and the command succeeds exactly with the answer to the first send |
| SessionCases.CommandConsumes | src/client/client.cc:369-423 | which input a command adds to those consumed, and when it drops them all |
| Client.Client.constructor | src/client/client.cc:98-107 | a fresh client is in the initial state |
| Client.Client.OnFatal | src/client/client.cc:724-728 | counts one report |
| Client.Client.StartServer | src/client/client.cc:717-722 | asks the launcher once |
| Client.Client.WaitServer | src/client/client.cc:786-788 | asks the launcher to wait |
| Client.Client.ForceTerminateServer | src/client/client.cc:780-784 | asks the launcher to kill |
| Client.Client.EnsureConnection | src/client/client.cc:137-186 | the fields and the result become what the function of the same name says |
| Client.Client.Call | src/client/client.cc:627-715 | likewise |
| Client.Client.CallAndCheckVersion | src/client/client.cc:613-625 | likewise |
| Client.Client.CallCommand | src/client/client.cc:605-611 | likewise |
| Client.Client.ShutdownServerNow | src/client/client.cc:545-552 | likewise, for Shutdown |
| Client.Client.TakeDownServer | src/client/client.cc:768-789 | likewise, for the part that takes down a server of another version |
| Client.Client.CheckVersionOrRestartServerInternal | src/client/client.cc:737-810 | the loop of two trials does what the recursion of the model says |
| Client.Client.CheckVersionOrRestartServer | src/client/client.cc:354-367 | likewise |
| Client.Client.CreateSession | src/client/client.cc:442-474 | likewise |
| Client.Client.EnsureSession | src/client/client.cc:188-217 | likewise |
| Client.Client.ResetHistory | src/client/client.cc:286-306 | empties the journal |
| Client.Client.PushHistory | src/client/client.cc:259-283 | likewise |
| Client.Client.PlaybackHistory | src/client/client.cc:242-257 | the loop over the journal does what the recursion of the model says |
| Client.Client.EnsureCallCommand | src/client/client.cc:369-423 | the fields, the trace, the log and the result become what the function says, of which SessionCases.CommandReplays, CommandReplaysNothing and CommandConsumes tell what is sent, in which order, and kept |
| Client.Client.SecondTrial | src/client/client.cc:393-421 | likewise, for the second trial, with the playback before the send |
| Client.Client.Reset | src/client/client.cc:812-816 | likewise |
| NumberParser.AddAndCheckOverflow | src/base/number_util.cc:537-545 | accepts exactly the sums below 2^64 |
| NumberParser.MultiplyAndCheckOverflow | src/base/number_util.cc:549-557 | accepts exactly the products below 2^64 |
| NumberParser.ReduceLeadingNumbersAsBase10System | src/base/number_util.cc:614-629 | reads the whole run of digits, and fails exactly if its value does not fit |
| NumberParser.InterpretNumbersAsBase10System | src/base/number_util.cc:635-642 | accepts exactly the sequences of digits whose value fits |
| NumberParser.ReduceDigitsHelper | src/base/number_util.cc:674-725 | the cursor, the result and success are those of the place read |
| NumberParser.CoefficientBound | src/base/number_util.cc:750-777 | the four places never add up to 10000, whatever the numbers |
| NumberParser.ReduceNumberLessThan10000 | src/base/number_util.cc:750-777 | a coefficient below 10000, and the additions stay exact |
| NumberParser.ReadGroupsWellFormed | src/base/number_util.cc:783-808 | the groups read have strictly decreasing ranks of at least 10000, but for the last one's, and coefficients below 10000 |
| NumberParser.InterpretNumbersInJapaneseWay | src/base/number_util.cc:783-808 | accepts exactly if the groups are read and their unwrapped sum fits, and returns it |
| NumberParser.NormalizeNumbersHelper | src/base/number_util.cc:812-824 | accepts exactly the sequences that mean a number below 2^64 |
| NumberParser.MalformedTailIsDropped | src/base/number_util.cc:697-702 | 1000, 1, 2, 10 is accepted as 1000: the tail is dropped |
| NumberLoss.PlaceCounts | src/base/number_util.cc:674-725 | a place reads every number it passes but zeros, or it is forced to the end and reads none |
| NumberLoss.CoefficientCounts | src/base/number_util.cc:750-777 | zeros apart, a coefficient counts exactly the numbers before its first forced step |
| NumberLoss.CoefficientLosesIfForced | src/base/number_util.cc:697-702 | an accepted coefficient counts every number it passes but zeros if and only if none of its three steps is forced to the end |
| NumberLoss.GroupsCount | src/base/number_util.cc:783-808 | the same over all groups of a sequence |
| NumberLoss.AcceptedCountsAll | src/base/number_util.cc:812-824 | an accepted sequence counts every number in it but zeros if and only if no step is forced; what it loses otherwise is all that stands from there on |
| NumberLoss.NormalizedCountsAll | src/base/number_util.cc:827-909 | the same of every text that is accepted |
| NumberLoss.LostTailIsIgnored | src/base/number_util.cc:697-702 | an accepted sequence that loses numbers means what it means without them |
| NumberLoss.ZerosArePassedOver | src/base/number_util.cc:677-683 | zeros can be passed over in no place with nothing lost |
| NumberReading.ValueIs | src/base/number_util.cc:614-629 | a run of digits counts in tens |
| NumberReading.PlaceIs | src/base/number_util.cc:674-725 | what a place reads after leading zeros: its rank, the one character for twenty, or a digit and its rank, a one only before a thousand |
| NumberReading.PlaceOfRun | src/base/number_util.cc:689-706 | two digits or more in a row are read together if they fit the place and close the coefficient; else the cursor goes to the end |
| NumberReading.CoefficientIs | src/base/number_util.cc:744-777 | a coefficient is its thousands, hundreds and tens and at most one digit, one of them at least |
| NumberReading.GroupsAre | src/base/number_util.cc:783-808 | the groups, with ranks that decrease |
| NumberReading.TotalIs | src/base/number_util.cc:796-806 | each group counts its coefficient times its rank |
| NumberReading.MeaningIs | src/base/number_util.cc:812-824 | a sequence is its digits, or its groups |
| NumberTexts.NumberTable | src/base/number_util.cc:837-853 | the number of each character the reader knows, and that there is no other |
| NumberTexts.KanjiCharacter | src/base/number_util.cc:858-867 | a character of the kanji text stands for the same number unless that is zero, is no Arabic digit, and is the one the printer writes for the digit |
| NumberTexts.AcceptedIs | src/base/number_util.cc:827-885 | a text is accepted if and only if all its characters are numbers and together mean one below 2^64 |
| NumberTexts.NormalKanji | src/base/number_util.cc:858-867 | the kanji text of every accepted input, character by character |
| NumberTexts.NormalArabic | src/base/number_util.cc:880-909 | the decimal text of every accepted input: its number without leading zeros, behind the zeros that are kept |
| NumberTexts.DigitsAre | src/base/number_util.cc:614-629 | the digits of a decimal text, one by one |
| NumberParser.NormalizeNumbers | src/base/number_util.cc:827-909 | the kanji text and the decimal text, exactly when there is a number; NumberTexts.NormalKanji and NumberTexts.NormalArabic tell each character of the two |
| NumberPrinter.Filled | src/base/number_util.cc:230-235 | the least filling to whole groups of four |
| NumberPrinter.SpellDigit | src/base/number_util.cc:280-292 | one digit with its rank in the style |
| NumberPrinter.SpellSegment | src/base/number_util.cc:272-294 | the loop over four digits spells the segment |
| NumberPrinter.LowestStep | src/base/number_util.cc:270-298 | spelling one more segment puts its text and rank before the rest |
| NumberPrinter.SpellNumber | src/base/number_util.cc:267-298 | the loop over segments spells the number |
| NumberPrinter.AppendCandidates | src/base/number_util.cc:247-319 | the candidates of one style, in order, are appended |
| NumberPrinter.Segments | src/base/number_util.cc:237-242 | the pieces of four digits, lowest first |
| NumberPrinter.ArabicToKanji | src/base/number_util.cc:201-323 | exactly when it accepts, and all candidates of the four styles in order |
| NumberTexts.DigitTable | src/base/number_util.cc:62-69 | the character of each digit in each style |
| NumberTexts.BigRankTable | src/base/number_util.cc:73-77 | the character of each rank of ten thousands |
| NumberTexts.PositionalSegment | src/base/number_util.cc:272-283 | four digits in the styles with digits: what is left without leading zeros |
| NumberTexts.KanjiSegment | src/base/number_util.cc:272-294 | four digits in kanji, place by place: a one is left out before its rank |
| NumberTexts.OldSegment | src/base/number_util.cc:272-294 | four digits in the old style, where it is not |
| NumberTexts.NumberTextIs | src/base/number_util.cc:267-298 | the text of a number: each group with its rank, a group of zeros left out |
| NumberTexts.FilledIs | src/base/number_util.cc:230-235 | the filling is zeros in front |
| NumberTexts.CandidatesAre | src/base/number_util.cc:247-319 | the whole list of candidates in order, with descriptions and styles |
| NumberTokens.PlaceRead | src/base/number_util.cc:674-725 | a digit spelled at its place is read back at that place, and only there |
| NumberTokens.KanjiRead | src/base/number_util.cc:750-777 | a kanji coefficient is read back as its four digits |
| NumberTokens.ArabicRead | src/base/number_util.cc:750-777 | so is one written in digits |
| NumberTokens.GroupsRead | src/base/number_util.cc:783-808 | the groups of a printed number are read back to its value |
| NumberTokens.GroupsRefused | src/base/number_util.cc:707-776 | a number of the old style with a one before ten or a hundred in any of its groups is refused, wherever the group stands |
| NumberTokens.TokensMean | src/base/number_util.cc:812-824 | the reader takes what a spelling reads as for the number spelled, or refuses it exactly if the spelling is old and puts a one before ten or a hundred |
| NumberTokens.WrittenFits | src/base/number_util.cc:267-298 | what the old style writes with known characters is below 2^64 |
| NumberRoundTrip.NumberSpells | src/base/number_util.cc:267-298 | every character of a spelling is a number to the reader, and together they are the expected tokens; in the old style exactly if no group has a thousand and the group of ten thousands is zero |
| NumberRoundTrip.ReplacedConcat | src/base/number_util.cc:305-311 | replacing two-ten by the character for twenty goes piece by piece |
| NumberRoundTrip.CandidateIsRead | src/base/number_util.cc:201-323 | the round trip of one candidate, told by where it comes from |
| NumberRoundTrip.DecimalIsStripped | src/base/number_util.cc:894 | the decimal text of the value of a string is the string without leading zeros |
| NumberRoundTrip.DecimalUndone | src/base/number_util.cc:894 | and it has that value |
| NumberRoundTrip.SpellingIsRead | src/base/number_util.cc:201-323 | for every non-zero decimal string of at most 20 digits and each of the four styles, with the character for twenty or not, the spelling is read back as the same number if and only if that is below 2^64 and, in the old style, every group has thousands digit 0 and hundreds and tens digits other than 1 and the group of ten thousands is 0000; otherwise it is refused |
| NumberRoundTrip.CandidatesAreRead | src/base/number_util.cc:674-909 | the same of every candidate ArabicToKanji offers, the single characters for ten (read) and for a thousand (refused) included; what is read in the styles without digits is already in normal form |
| NumberRoundTrip.ZeroIsRead | src/base/number_util.cc:215-222 | zero is printed and read back |
| NumberRoundTrip.OldStyleIsRefused | src/base/number_util.cc:288-292 | one number the old style condition shuts out: ten, written as one and ten |
| RecursiveMutex.StepKeepsInvariant | src/base/thread.h:356-392 | every atomic step of every thread keeps the invariant |
| RecursiveMutex.RunKeepsInvariant | src/base/thread.h:356-392 | so does every interleaving of any number of threads |
| RecursiveMutex.MutualExclusion | src/base/thread.h:356-388 | at most one thread is between lock() and unlock(); it is the owner, holds the inner mutex, and the depth counts its locks |
| RecursiveMutex.OwnerHolds | src/base/thread.h:404 | if the owner is t then t holds the inner mutex |
| RecursiveMutex.OwnerReadIsExact | src/base/thread.h:359-392 | whatever stale value a relaxed read of the owner returns, it is the reader's own id if and only if the reader holds the lock |
| RecursiveMutex.DepthIsTheHolders | src/base/thread.h:363-379 | the depth is touched only by the holder of the inner mutex, and what it read is still there when it writes |
| RecursiveMutex.OthersLeaveDepth | src/base/thread.h:405 | no step of another thread changes the depth |
| RecursiveMutex.DepthIsZeroOnAcquire | src/base/thread.h:367-370 | whoever acquires the inner mutex finds depth and owner zero |
| RecursiveMutex.AllGivenBack | src/base/thread.h:350-354 | when every lock is given back the mutex is as built |
| RecursiveMutex.WaitingIsForAnother | src/base/thread.h:356-367 | a thread that waits, waits for another one, which can step or is in its critical section |
| RecursiveMutex.StepRefinesLock | src/base/thread.h:356-388 | each step is one step of an atomic recursive lock, or none |
| RecursiveMutex.StaleReadHappens | src/base/thread.h:360 | a read can return another thread's id though the owner is none, and then takes the slow path |
| RecursiveMutex.LockTakes | src/base/thread.h:356-373 | a call of lock() that finds the mutex free ends with the thread holding it as the owner, at depth one |
| RecursiveMutex.LockCounts | src/base/thread.h:359-365 | one by the owner only counts |
| RecursiveMutex.UnlockCounts | src/base/thread.h:375-381 | so does an unlock() above depth one |
| RecursiveMutex.UnlockReleases | src/base/thread.h:375-387 | the last one clears the owner while it still holds the inner mutex, and then frees it |
| Utf8.MasksAreRanges | src/base/util.cc:339-434 | the bit masks that classify a byte are ranges |
| Utf8.FoldedUndoesTrailing | src/base/util.cc:454-462 | folding trailing bytes undoes cutting a number into digits of six bits |
| Utf8.TrailingUndoesFolded | src/base/util.cc:454-462 | and the other way round |
| Utf8.DecodeUndoesEncode | src/base/util.cc:382-586 | whatever follows, decoding an encoded code point gives it and the rest back if and only if it is in 1..0x3FFFFFF or 0x8000000..0x7FFFFFFF |
| Utf8.EncodeUndoesDecode | src/base/util.cc:382-586 | encoding a decoded code point gives the bytes it took if and only if it is one of those, and fewer bytes otherwise |
| Utf8Standard.EncodableIs | src/base/util.cc:535-586 | the encodable code points, as a range |
| Utf8Standard.DecodedIs | src/base/util.cc:382-470 | a string decodes to a code point of 31 bits and a rest if and only if it is the shortest form of section 2 of RFC 2279 of that code point, in one to six bytes written out, and that rest |
| Utf8Standard.DecodedFits | src/base/util.cc:382-470 | nothing decodes to more than 31 bits |
| Utf8Standard.CodePointsAre | src/base/util.cc:352-359 | the code points of a string go on after its first |
| Utf8Standard.CodePointsEnd | src/base/util.cc:352-359 | and end where none can be decoded |
| Utf8Standard.SplitLastIs | src/base/util.cc:472-508 | what is split off at the end is one whole sequence, if the string ends with one |
| Utf8Standard.BackwardIs | src/base/util.cc:86-97 | going backwards, one after the other |
| Utf8.SplitLastOfSequence | src/base/util.cc:472-508 | a sequence at the end of any string is split off whole |
| Utf8.ForwardOfConcat | src/base/util.cc:352-359 | decoding goes on behind a valid string as if that were not there |
| Utf8.BackwardOfConcat | src/base/util.cc:86-97 | so does decoding backwards, before one |
| Utf8.WalksAreReversed | src/base/util.cc:62-97 | a string is consumed whole backwards if and only if it is valid, and then the two iterators meet exactly reversed code points |
| Utf8.StringRoundTrip | src/base/util.cc:352-367 | Utf32ToUtf8 undoes Utf8ToUtf32 if and only if the string is valid and its code points are encodable |
| Utf8.CodePointRoundTrip | src/base/util.cc:352-367 | Utf8ToUtf32 undoes Utf32ToUtf8 if and only if all code points are encodable |
| Utf8.FoldTrailingBytes | src/base/util.cc:454-462 | the loop over trailing bytes checks and folds them |
| Utf8.SplitFirstChar32 | src/base/util.cc:382-470 | the result, the code point and the rest are those of the first sequence |
| Utf8.SplitLastChar32 | src/base/util.cc:472-508 | likewise for the last |
| Utf8.IsValidUtf8 | src/base/util.cc:510-520 | decides whether the string is made of sequences only |
| Utf8.EncodedBytes | src/base/util.cc:535-586 | each byte of an encoding is its six bits |
| Utf8.EncodeShort | src/base/util.cc:536-546 | nothing for NUL, and one byte below 0x80 |
| Utf8.Encode2 | src/base/util.cc:547-552 | two bytes, written out |
| Utf8.Encode3 | src/base/util.cc:553-559 | three bytes |
| Utf8.Encode4 | src/base/util.cc:560-567 | four bytes |
| Utf8.Encode5 | src/base/util.cc:568-577 | five bytes |
| Utf8.Encode6 | src/base/util.cc:578-586 | six bytes |
| Utf8.CodepointToUtf8 | src/base/util.cc:535-586 | the buffer begins with the encoding and NUL, and nothing behind changes |
| Utf8.CodepointToUtf8Append | src/base/util.cc:528-533 | appends the encoding |
| Utf8.Utf8ToUtf32 | src/base/util.cc:352-359 | the code points up to the first invalid sequence |
| Utf8.Utf32ToUtf8 | src/base/util.cc:361-367 | the encodings one after the other |
| Utf8.ConstChar32Iterator.constructor | src/base/util.cc:62-65 | all code points of the string remain |
| Utf8.ConstChar32Iterator.Advance | src/base/util.cc:72-76 | the code points of what was left of the string remain |
| Utf8.ConstChar32Iterator.Get | src/base/util.cc:67-70 | the next of those that remain |
| Utf8.ConstChar32Iterator.Next | src/base/util.cc:72-76 | one less remains |
| Utf8.ConstChar32Iterator.Done | src/base/util.cc:78 | whether none remains |
| Utf8.ConstChar32ReverseIterator.constructor | src/base/util.cc:80-84 | all code points of the string remain |
| Utf8.ConstChar32ReverseIterator.Advance | src/base/util.cc:91-95 | the code points of what was left of the string remain |
| Utf8.ConstChar32ReverseIterator.Get | src/base/util.cc:86-89 | the next of those that remain |
| Utf8.ConstChar32ReverseIterator.Next | src/base/util.cc:91-95 | one less remains |
| Utf8.ConstChar32ReverseIterator.Done | src/base/util.cc:97 | whether none remains |
| SplitCsv.SplitUndoesJoin | src/base/util.cc:217-258 | splitting undoes joining for any mix of quoted fields and plain bare ones, except that a bare empty field at the end, alone or after a quoted one, is lost and nothing else |
| SplitCsv.QuotedRoundTrip | src/base/util.cc:217-258 | any list of arbitrary fields, all quoted, comes back |
| SplitCsv.BareRoundTrip | src/base/util.cc:217-258 | fields joined as they stand come back if and only if they are plain and not one single empty field |
| SplitCsv.FieldsAreNoLonger | src/base/util.cc:217-258 | splitting never yields more text than it was given, and as much only of plain fields |
| SplitCsv.QuotedUndoesDoubled | src/base/util.cc:232-242 | reading a quoted field undoes doubling its quotes |
| SplitCsv.FieldsOfAnyBare | src/base/util.cc:228-252 | any field without a quote in front: blanks before it are skipped, it ends at the comma, and an empty one follows if that ends the line |
| SplitCsv.FieldsOfAnyQuoted | src/base/util.cc:228-252 | any quoted field, closed or not, with blanks before it and anything between its quote and the comma |
| SplitCsv.QuotedIs | src/base/util.cc:232-240 | where a quoted field ends and what a doubled quote stands for |
| SplitCsv.CellsAre | src/base/util.cc:217-258 | how a field is written, bare or in quotes, in the lines of the round trips |
| SplitCsv.LinesAre | src/base/util.cc:217-258 | and how the line is made of them |
| SplitCsv.PlainIs | src/base/util.cc:217-258 | the fields that can stand bare |
| SplitCsv.FindComma | src/base/util.cc:241-244 | std::find of a comma |
| SplitCsv.SkipBlanks | src/base/util.cc:228-230 | skips the blanks in front of a field |
| SplitCsv.MoveQuoted | src/base/util.cc:232-240 | the text of a quoted field is moved down in the shared buffer; the write pointer never passes the read pointer and what is unread stays |
| SplitCsv.NextField | src/base/util.cc:228-252 | one round of the loop takes one field off the line |
| SplitCsv.SplitCSV | src/base/util.cc:217-258 | the in-place loop yields the fields of the line |
| Graphemes.GraphemesConcat | src/base/util.cc:136-215 | the groups concatenate to the input and none is empty |
| Graphemes.GraphemesAreStable | src/base/util.cc:136-215 | re-splitting the concatenation of any run of groups gives that run |
| Graphemes.GroupsFromBreak | src/base/util.cc:150-212 | from the start of a group on, what came before does not matter |
| Graphemes.FlagsPair | src/base/util.cc:175-200 | regional indicators are grouped in pairs from the left |
| Graphemes.GroupBegins | src/base/util.cc:150-212 | a group begins at a code point if and only if it is the first, or none of the rules joins it to the one before, each with its code points; regional indicators join at an odd distance from the start of their run |
| Graphemes.ConcatIs | src/base/util.cc:136-215 | the concatenation of groups, in which those places are counted |
| Graphemes.SplitStringToUtf8Graphemes | src/base/util.cc:136-215 | the loop computes the groups, whose beginnings Graphemes.GroupBegins gives, and the early return for short input agrees with it |
| CodegenStream.BodyUndone | src/base/codegen_bytearray_stream.cc:134-145 | the hex literals decode to exactly the bytes, in order |
| CodegenStream.LinesOfTwenty | src/base/codegen_bytearray_stream.cc:136-144 | each literal takes six characters, and a line breaks before every twentieth byte and nowhere else |
| CodegenStream.ElementIs | src/base/codegen_bytearray_stream.cc:134-145 | each element character by character, and the line end before every twentieth |
| CodegenStream.DecimalIsRead | src/base/codegen_bytearray_stream.cc:82-84 | a printed number is read back, and has no leading zero |
| CodegenStream.DefinitionIs | src/base/codegen_bytearray_stream.cc:61-87 | the whole text of a definition, with the number of bytes read back from it |
| CodegenStream.RefusedIs | src/base/codegen_bytearray_stream.cc:61-78 | opening and closing that are refused change nothing |
| CodegenStream.BodyOfConcat | src/base/codegen_bytearray_stream.cc:134-145 | writing bytes in two portions gives the same text as at once |
| CodegenStream.DoneCarries | src/base/codegen_bytearray_stream.cc:90-131 | whatever one operation does with the buffer, its bytes are added to the definition in order |
| CodegenStream.AllDoneCarries | src/base/codegen_bytearray_stream.cc:90-131 | the same for any sequence of puts, writes and flushes |
| CodegenStream.DefinitionIsExact | src/base/codegen_bytearray_stream.cc:61-145 | opened, filled and closed, the output is the definition of exactly the bytes put, with their number, for a buffer of any size; bytes already waiting in the buffer come first |
| CodegenStream.DefinitionsAreExact | src/base/codegen_bytearray_stream.cc:61-145 | the same for any number of definitions one after the other |
| CodegenStream.StrayWrite | src/base/codegen_bytearray_stream.cc:99-110 | a write that does not fit while no definition is open goes out at once, ahead of the bytes waiting |
| CodegenStream.StrayPut | src/base/codegen_bytearray_stream.cc:113-116 | a byte put to a full buffer while no definition is open is lost |
| CodegenStream.StrayBytesWait | src/base/codegen_bytearray_stream.cc:90-131 | with no definition open, every byte of any sequence of operations waits in the buffer in order if and only if the bytes fit it |
| CodegenStream.EarlyBytesComeFirst | src/base/codegen_bytearray_stream.cc:61-131 | bytes put before a definition is opened come out in it, ahead of its own, if they fit |
| CodegenStream.BasicCodeGenByteArrayStreamBuf.constructor | src/base/codegen_bytearray_stream.cc:51-58 | an empty buffer of the given size over the given stream |
| CodegenStream.BasicCodeGenByteArrayStreamBuf.WriteBytes | src/base/codegen_bytearray_stream.cc:134-145 | appends the literals of the bytes |
| CodegenStream.BasicCodeGenByteArrayStreamBuf.Overflow | src/base/codegen_bytearray_stream.cc:113-131 | flushes the buffer and the byte, unless no definition is open |
| CodegenStream.BasicCodeGenByteArrayStreamBuf.Sputc | src/base/codegen_bytearray_stream.cc:113-131 | std::streambuf::sputc over this buffer; it succeeds exactly if there is room or a definition is open |
| CodegenStream.BasicCodeGenByteArrayStreamBuf.Xsputn | src/base/codegen_bytearray_stream.cc:99-110 | buffers what fits and writes the rest out |
| CodegenStream.BasicCodeGenByteArrayStreamBuf.Sync | src/base/codegen_bytearray_stream.cc:90-95 | flushes |
| CodegenStream.BasicCodeGenByteArrayStreamBuf.OpenVarDef | src/base/codegen_bytearray_stream.cc:61-71 | begins a definition unless one is open or the name is empty |
| CodegenStream.BasicCodeGenByteArrayStreamBuf.CloseVarDef | src/base/codegen_bytearray_stream.cc:74-87 | flushes and ends the definition with its size |

## Left out

- The strength of the cipher, the digest and the key derivation; only their functional behaviour is claimed.
- Windows and macOS branches of the encryptor, the password manager and the random salt: password and salt are parameters.
- Null pointers for the size argument of EncryptArray and DecryptArray.
- The DEBUG and macOS branches of the client, its log output and the history snapshot file.
- Contents of the messages: an input keeps its type, its id and one number for the rest; an output keeps id, consumed, mode, result and error code.
- A null client factory and a failing serialization; both are taken not to occur. What a reply that cannot be parsed leaves in the output is arbitrary.
- DeleteSession and the destructor of the client, launching of tools and the browser, and the individual methods that send one plain request, which are one method of the model.
- The process id passed to the launcher when it waits, and the version strings: only whether the server's is older.
- NormalizeNumbersWithSuffix, and the printers other than ArabicToKanji (separated, wide, Roman, circled and other forms, radixes).
- NumberParser.NumberOf: the table is that of src/data/preedit/kanjinumber-arabicnumber.tsv; the double array that encodes it is not part of this model.
- TaskManager, BackgroundFuture and AtomicSharedPtr of thread.h.
- Overflow of the recursion depth of the mutex, an int in the program and unbounded here.
- RecursiveMutex.OwnerReadIsExact: reads of values that are stored later in time are not modelled; stores are made under the inner mutex and stand in their order.
- The inner mutex itself, which is taken to exclude, and to pass on what its last holder has seen.
- SplitStringToUtf8Chars: graphemes are grouped from a list of code points.
- Case mapping, script types, brackets, serialization of integers and the other helpers of util.cc.
- Failure of the stream below CodegenStream, moving of stream objects, and wrap-around of its byte count.
- Allocation failure and the limits of size_t for buffers, except where stated.
