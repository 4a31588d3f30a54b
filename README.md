# go-crypto: the AES engine and the command-line tool around it

This project models, in Dafny, the core of `go-crypto`. That core is:

- **The AES engine** (`aes/aes.go`).
  - An `Encryptor` holds a key, an IV and a mode.
  - It pads with PKCS#7 (section 6.3 of RFC 5652).
  - It dispatches to the five modes of NIST SP 800-38A: ECB, CBC, CTR, CFB and OFB.
- **Key derivation of `crypto-cli`** (`crypto-cli/utils/utils.go`).
  - The key bytes are written out in lower-case base16 (section 8 of RFC 4648).
  - They are then stretched or cut cyclically by `repeat` to `bits/8` bytes.
  - `bits` and the mode come from an `aes-<bits>-<mode>` security string.
  - The same file also chooses the stream cipher for the file-encryption path.
- **The `encrypt` and `decrypt` functions of the command files** (`crypto-cli/cmd/encrypt.go` and `crypto-cli/cmd/decrypt.go`).
  - The `encrypt` function writes the IV and a separator. It then writes one record per chunk of at most 100 MiB, each record followed by the separator.
  - The `decrypt` function reads `'\n'`-terminated records, skips the first one and decrypts the others.
  - The `encrypt` and `decrypt` commands of the CLI do not call these functions. Their `Run` handlers call `EncData` and `DecData` of the external `EncryptionFile` library instead.
  - Of the two selectors in `crypto-cli/utils/utils.go`, `InitDecCipher` is on the path the `decrypt` command takes.
- **The build-identification strings** (`version/version.go`).

## Modules

| module | models |
|---|---|
| `Bytes` | the shared vocabulary: Go's `byte`, `Result` for Go's `(T, error)` pair, and Go's `copy` |
| `Padding` | `PKCS7Padding` and `PKCS7UnPadding` |
| `Aes` | the mode constants, the `Encryptor` class, and `Encrypt`/`Decrypt` (a method and the function that specifies it), including the ECB loops over arrays |
| `Text`, `Strconv`, `Hex` | the parts of Go's `strings`, `strconv` and `encoding/hex` that key derivation relies on |
| `Utils` | `repeat`, `InitAesEncryptor`, `InitEncCipher` and `InitDecCipher` |
| `EncryptCmd` | the `encrypt` function's chunked read/encrypt/self-check/write loop, `initEncryptor` and `moveOutputFile` |
| `DecryptCmd` | the `decrypt` function's line-reading loop and `initDecryptor` |
| `Version` | `GetApp`, `GetVersion` and `FullVersionInfo` |

### The abstract cipher library

The AES block cipher (FIPS 197) and the CBC, CTR, CFB and OFB objects of Go's `crypto/cipher` are foreign code.

- They enter the model as `Aes.Library`, a value made of functions.
- The library's `Valid()` states what the engine relies on, and only that:
  - for every AES key, the block functions are a permutation of 16-byte blocks and undo each other;
  - CBC decryption undoes CBC encryption on whole blocks;
  - CFB decryption undoes CFB encryption;
  - the CTR and OFB key streams undo themselves;
  - every mode preserves the length.
- Every property of the engine is proved for every library that satisfies `Valid()`.

### Errors, panics and mutable state

- Go runtime panics and `log.Fatalf` aborts become explicit error values. Examples: a slice out of range, a division by zero, or an index into an empty slice.
- The state the source updates in place is a class with `modifies` clauses:
  - the `Encryptor`'s IV;
  - the read position of the input file;
  - the `strings.Builder` of `FullVersionInfo`.
- The arrays the source fills in loops stay arrays:
  - the ECB output buffers;
  - `repeat`'s destination;
  - the base16 buffer;
  - the reused 100 MiB `cipherBuf`.

### How each loop is specified

Each command loop is a method proved equal to a function of its input:

- `EncryptCmd.EncryptFileSpec` is the output and status of `encrypt` on an input file.
- `DecryptCmd.DecryptFileSpec` is the same for `decrypt`.

Lemmas then state what those functions mean:

- which records get written, in which order;
- where a run aborts;
- which inputs are encrypted in full.

The two framing formats are not inverses of each other:

- `encrypt` ends records with `datacloak-cipher-block-separator`.
- `decrypt` splits on `'\n'`.

So no file-level round trip is claimed. `DecryptEncryptedLines` states what does hold: a file of `'\n'`-terminated ciphertexts decrypts to the plaintexts, in order.

## Model

| member | source | states |
|---|---|---|
| Bytes.CopyAt | crypto-cli/utils/utils.go:59-61 | `copy(dst[at:], src)` puts `src` at offset `at` and leaves the bytes before and after it unchanged |
| Padding.Pad | aes/aes.go:132-136 | the padded text keeps the plaintext as a prefix; its length is a multiple of the block size and grows by 1 to `blockSize` bytes; every added byte holds the number of bytes added (mod 256) |
| Padding.Unpad | aes/aes.go:139-143 | empty input and a last byte larger than the length are the two panics; otherwise the result is the input minus exactly as many trailing bytes as the last byte says |
| Padding.PadFullBlock | aes/aes_test.go:53-64 | an input that already fills whole blocks gets one whole extra block, every byte of it equal to the block size |
| Padding.UnpadPad | aes/aes.go:132-143 | for block sizes 1..255, unpadding undoes padding |
| Padding.UnpadIgnoresPaddingValues | aes/aes.go:139-143 | unpadding never looks at the dropped bytes: inputs that agree on the last byte and on the kept prefix unpad to the same plaintext |
| Padding.PadTestVectors | aes/aes_test.go:42-78 | the three padding vectors of the test file (block size 10) |
| Aes.EcbLength | aes/aes.go:49-51 | ECB over whole blocks preserves the length in both directions |
| Aes.EcbBlock | aes/aes.go:49-51 | ECB ciphertext block `i` is the block cipher applied to plaintext block `i` alone |
| Aes.EcbEqualBlocks | aes/aes.go:46-51 | equal plaintext blocks give equal ECB ciphertext blocks |
| Aes.EcbInverse | aes/aes.go:49-51 | the ECB decryption loop undoes the ECB encryption loop |
| Aes.EncryptResult | aes/aes.go:32-69 | key sizes other than 16/24/32 are refused; unknown modes are refused; the IV is sliced (and can panic) only in CBC/CTR/CFB/OFB; success exactly for a valid key and either ECB or a known mode with an IV of at least one block; the ciphertext is as long as the padded plaintext |
| Aes.DecryptBlocks | aes/aes.go:84-106 | the mode dispatch of `Decrypt` preserves the length and succeeds exactly for a known mode whose input, for ECB and CBC, is whole blocks |
| Aes.DecryptResult | aes/aes.go:71-110 | a bad key size is refused first; an IV shorter than one block panics in every mode, ECB included; unknown modes are refused; the plaintext is never longer than the ciphertext |
| Aes.EncryptDecryptRoundTrip | aes/aes_test.go:142-196 | for every key size and every mode, with an IV of at least one block, `Decrypt(Encrypt(x)) == x` |
| Aes.EncryptEcbBlocks | aes/aes.go:42-51 | the loop fills a fresh buffer with exactly the ECB encryption of the padded text |
| Aes.DecryptEcbBlocks | aes/aes.go:82-91 | the loop yields the ECB decryption of whole-block input, and reports the panic of a partial final block |
| Aes.Encryptor.constructor | aes/aes.go:124-129 | `NewEncryptor` stores key and mode and leaves the IV unset |
| Aes.Encryptor.GetIV | aes/aes.go:112-114 | the stored IV, which is either unset or exactly one block |
| Aes.Encryptor.SetIV | aes/aes.go:116-122 | an IV shorter than 16 bytes is refused with nothing changed; otherwise exactly its first 16 bytes are stored; key and mode never change |
| Aes.Encryptor.Encrypt | aes/aes.go:32-69 | the method computes `EncryptResult` of its key, IV and mode |
| Aes.Encryptor.Decrypt | aes/aes.go:71-110 | the method computes `DecryptResult` of its key, IV and mode |
| Text.Split | crypto-cli/utils/utils.go:35 | `strings.Split` on one character: at least one field, no field holds the separator, and the fields join back to the input |
| Text.SplitJoin | crypto-cli/utils/utils.go:35-38 | splitting undoes joining fields that are free of the separator |
| Text.ToUpper | crypto-cli/utils/utils.go:45 | same length, each ASCII letter upper-cased, every other character kept |
| Text.ToUpperIdempotent | crypto-cli/utils/utils.go:45 | upper-casing twice is upper-casing once, and no lower-case ASCII letter is left |
| Strconv.ParseInt | crypto-cli/utils/utils.go:39-42 | a parsed value lies in the `int64` range; the empty string is a syntax error; without a `-` the value is non-negative; success needs at least one digit |
| Strconv.FormatNat | crypto-cli/utils/utils.go:39 | the printer that `ParseInt` inverts yields one or more decimal digits |
| Strconv.DigitsValueFormatNat | crypto-cli/utils/utils.go:39 | reading the printed digits back gives the number |
| Strconv.ParseUnsigned | crypto-cli/utils/utils.go:39-42 | an unsigned run of digits parses to its value, or is a range error above the `int64` maximum |
| Strconv.ParseNegative | crypto-cli/utils/utils.go:39-42 | a `-` and a run of digits parse to the negated value, or are a range error below the `int64` minimum |
| Strconv.ParseFormat | crypto-cli/utils/utils.go:39-42 | `ParseInt` inverts decimal printing on the whole `int64` range |
| Strconv.ParseOutOfRange | crypto-cli/utils/utils.go:39-42 | digits beyond the `int64` range are a range error |
| Strconv.KeyLengthDigits | crypto-cli/utils/utils.go:39 | the digits `128`, `256` and `16` have those values |
| Strconv.ParseKeyLengths | crypto-cli/utils/utils.go:39-42 | the shipped key lengths parse (`128`, `256`, `+16`) |
| Strconv.ParseRejects | crypto-cli/utils/utils.go:39-42 | the empty field, a lone `-` and `1_0` are syntax errors |
| Hex.Encode | crypto-cli/utils/utils.go:32-33 | the encoding is exactly twice as long as its input |
| Hex.EncodeLowerCase | crypto-cli/utils/utils.go:32-33 | the encoding uses only `0`-`9` and `a`-`f` |
| Hex.DigitValue | crypto-cli/utils/utils.go:32-33 | a digit's value is below 16 |
| Hex.DecodeEncodeByte | crypto-cli/utils/utils.go:32-33 | a byte's two digits decode back to it |
| Hex.DecodeEncode | crypto-cli/utils/utils.go:32-33 | decoding undoes the encoding, so the encoding loses nothing |
| Hex.EncodeInto | crypto-cli/utils/utils.go:32-33 | filling the preallocated buffer produces exactly `Encode` of the source |
| Utils.GoDiv | crypto-cli/utils/utils.go:43 | Go's integer `/` truncates toward zero, for negative dividends too |
| Utils.Cycle | crypto-cli/utils/utils.go:58-60 | `k` whole copies of the source have `k` times its length |
| Utils.CycleIndex | crypto-cli/utils/utils.go:58-60 | byte `j` of the copies is source byte `j mod |src|` |
| Utils.Repeated | crypto-cli/utils/utils.go:50-63 | a negative size panics; a source at least as long as `size` is cut to it; an empty source with a positive size divides by zero; otherwise the result has `size` bytes with `r[j] == src[j mod |src|]` |
| Utils.RepeatTestVectors | crypto-cli/utils/utils_test.go:78-125 | the four cases of `Test_repeat` |
| Utils.RepeatedCycles | crypto-cli/utils/utils.go:55-62 | a source shorter than `size` is repeated `size / |src|` whole times, then its first `size mod |src|` bytes |
| Utils.Repeat | crypto-cli/utils/utils.go:50-63 | the counted copy loop computes `Repeated` |
| Utils.KeyMaterial | crypto-cli/utils/utils.go:22-30 | a key without a leading `@` is used byte for byte |
| Utils.ParseSecurity | crypto-cli/utils/utils.go:35-45 | success exactly when there are three `-`-separated fields and the second parses; the bit count is then non-negative and an `int64`; the mode is the upper-cased third field; every failure names the security string |
| Utils.DeriveKeyAndMode | crypto-cli/utils/utils.go:16-45 | a key-file error or an unparsable security string aborts with that error; on success the mode is the parsed mode |
| Utils.DerivedKeyShape | crypto-cli/utils/utils.go:32-43 | with non-empty key material the key has exactly `bits/8` bytes, byte `j` being hex digit `j mod (2 * |material|)` of the material |
| Utils.EmptyKeyMaterialPanics | crypto-cli/utils/utils.go:43-56 | empty key material with a key of at least one byte makes `repeat` divide by zero |
| Utils.SplitAes256 | crypto-cli/cmd/root.go:25-31 | `aes-256-<m>` splits into `aes`, `256` and `m` |
| Utils.ShippedCipherFields | crypto-cli/cmd/root.go:25-31 | every whitelisted security string splits into `aes`, `256` and a shipped mode |
| Utils.ShippedSecurityParses | crypto-cli/utils/utils.go:35-45 | every whitelisted security string parses to 256 bits and one of the engine's five modes |
| Utils.ShippedModeUpper | crypto-cli/utils/utils.go:45 | upper-casing a shipped mode field gives the engine's mode constant (`cbc` gives `CBC`) |
| Utils.ShippedCiphersDeriveAes256 | crypto-cli/utils/utils.go:16-47 | a whitelisted security string with non-empty key material derives a 32-byte key and a mode the engine accepts |
| Utils.WrongFieldCountRejected | crypto-cli/utils/utils.go:35-38 | a security string without exactly three fields aborts |
| Utils.UnparsableKeyLengthRejected | crypto-cli/utils/utils.go:39-42 | a key-length field that is not a decimal `int64` aborts |
| Utils.InitAesEncryptor | crypto-cli/utils/utils.go:16-48 | a derivation error propagates; otherwise a fresh engine with the derived key and mode and the IV unset |
| Utils.SecurityMode | crypto-cli/utils/utils.go:107-112 | fails exactly when the security string does not have three fields |
| Utils.InitEncCipher | crypto-cli/utils/utils.go:107-125 | accepts exactly CBC, CFB, CTR and OFB (so ECB is refused) and picks an encrypting constructor |
| Utils.InitDecCipher | crypto-cli/utils/utils.go:127-145 | accepts exactly the same four modes as written |
| Utils.DecCipherCfbMismatch | crypto-cli/utils/utils.go:135-136 | as written, the decrypting constructor is the inverse of the encrypting one for every accepted mode except CFB |
| Utils.InitDecCipherIntended | crypto-cli/utils/utils.go:127-145 | the corrected selector accepts the same four modes |
| Utils.IntendedDecCipherInverts | crypto-cli/utils/utils.go:107-145 | the corrected selector accepts exactly what `InitEncCipher` accepts, and always picks the inverse constructor |
| Utils.EcbRefusedBySelectors | crypto-cli/utils/utils.go:112-124 | the shipped `aes-256-ecb` is refused by both selectors |
| EncryptCmd.ChunkSize | crypto-cli/cmd/encrypt.go:84-89 | `getLen` is at most 100 MiB and at most the file length, and positive for a non-empty file |
| EncryptCmd.LoopBound | crypto-cli/cmd/encrypt.go:85-95 | the loop makes at least one pass |
| EncryptCmd.LoopCoversFile | crypto-cli/cmd/encrypt.go:84-95 | `forNum + 1` reads of `getLen` bytes cover the whole file |
| EncryptCmd.Chunks | crypto-cli/cmd/encrypt.go:94-96 | every chunk is non-empty and at most `getLen` bytes |
| EncryptCmd.FlattenChunks | crypto-cli/cmd/encrypt.go:94-96 | the chunks laid end to end are the input |
| EncryptCmd.ChunksShape | crypto-cli/cmd/encrypt.go:94-96 | for a length of `q * size + r`: `q` full chunks, then one of `r` bytes when `r > 0` |
| EncryptCmd.ChunkCount | crypto-cli/cmd/encrypt.go:85-98 | there are `ceil(|input| / getLen)` chunks |
| EncryptCmd.FileReader.constructor | crypto-cli/cmd/encrypt.go:61 | the opened file starts at position 0 |
| EncryptCmd.FileReader.Read | crypto-cli/cmd/encrypt.go:96-99 | an empty buffer reads nothing and never sees EOF; at the end of the file EOF is returned; otherwise the front of the buffer gets the next bytes and the position advances by their number |
| EncryptCmd.ReadLoopIsChunks | crypto-cli/cmd/encrypt.go:95-99 | with enough passes, the loop reads exactly the chunks of the input |
| EncryptCmd.ReadChunksOfInput | crypto-cli/cmd/encrypt.go:81-99 | the loop reads the chunks of a non-empty file, and one empty chunk from an empty file |
| EncryptCmd.StepCases | crypto-cli/cmd/encrypt.go:103-114 | an encrypt error and a decrypt error each abort with that error; when both succeed, decryption gives the chunk back and the self-check passes exactly when the chunk fills the buffer |
| EncryptCmd.StepFullChunk | crypto-cli/cmd/encrypt.go:103-114 | with a working key, IV and mode, a full chunk passes and yields its encryption, and any other chunk fails the self-check |
| EncryptCmd.IntendedStepSucceeds | crypto-cli/cmd/encrypt.go:103-114 | with the comparison against `cipherBuf[:n]`, every chunk passes and yields its encryption |
| EncryptCmd.EmitAllOk | crypto-cli/cmd/encrypt.go:119-124 | when every pass succeeds, each record is written followed by the separator, in order |
| EncryptCmd.EmitFirstErr | crypto-cli/cmd/encrypt.go:100-124 | the first failing pass aborts with its error after exactly the records before it |
| EncryptCmd.RemainingStep | crypto-cli/cmd/encrypt.go:95-124 | one pass: EOF ends the loop; a fatal error ends it with nothing more written; otherwise the record and the separator come before the rest of the loop's output |
| EncryptCmd.SealChunk | crypto-cli/cmd/encrypt.go:103-114 | encrypt, decrypt and compare with the whole buffer give the as-written outcome of one pass |
| EncryptCmd.NextRecord | crypto-cli/cmd/encrypt.go:96-114 | one read and seal: given what the remaining iterations write from the unread bytes, EOF or a fatal error ends it, and otherwise the record and separator come before what the iterations after this one write |
| EncryptCmd.EncryptFile | crypto-cli/cmd/encrypt.go:73-125 | the IV, the separator, then the loop's records: output and status equal `EncryptFileSpec` of the input |
| EncryptCmd.Records | crypto-cli/cmd/encrypt.go:103 | one record per chunk |
| EncryptCmd.SameChunkSameRecord | crypto-cli/cmd/encrypt.go:103 | one `Encryptor`, so one IV, for all chunks: equal chunks give byte-identical records |
| EncryptCmd.FullChunksOutcomes | crypto-cli/cmd/encrypt.go:103-114 | as written, chunks that fill the buffer yield their records and shorter ones fail the self-check |
| EncryptCmd.FullChunksEmit | crypto-cli/cmd/encrypt.go:103-124 | as written, chunks that all fill the buffer are all written |
| EncryptCmd.RemainingAllFull | crypto-cli/cmd/encrypt.go:95-125 | as written, a loop whose every read fills the buffer writes every record, then stops without error |
| EncryptCmd.FullReads | crypto-cli/cmd/encrypt.go:84-96 | a file of at most 100 MiB, or of a multiple of it, is read in full-buffer chunks |
| EncryptCmd.EncryptFileCompletes | crypto-cli/cmd/encrypt.go:73-125 | such a file is encrypted in full: IV, separator, then every chunk's record and separator |
| EncryptCmd.ShortLastChunkAborts | crypto-cli/cmd/encrypt.go:112-114 | as written, a file over 100 MiB whose length is not a multiple of 100 MiB aborts at its short last chunk, after the records of the full chunks |
| EncryptCmd.IntendedEmitAll | crypto-cli/cmd/encrypt.go:103-124 | corrected, every chunk's record is written |
| EncryptCmd.ReadCoversInput | crypto-cli/cmd/encrypt.go:81-99 | the chunks read make up the file, and there are `ceil(|input| / getLen)` of them |
| EncryptCmd.IntendedEncryptFileFrames | crypto-cli/cmd/encrypt.go:73-125 | corrected, every file is written in full: IV, separator, then one record and separator per chunk, in read order |
| EncryptCmd.File250MiB | crypto-cli/cmd/encrypt.go:84-114 | a 250 MiB file has 3 chunks; as written it writes 2 records and then aborts; corrected it writes all 3 |
| EncryptCmd.InitEncryptor | crypto-cli/cmd/encrypt.go:128-139 | the derived engine with the 16 random bytes as its IV, or the derivation error |
| EncryptCmd.OutputTarget | crypto-cli/cmd/encrypt.go:141-146 | rename to `conf.Out` when it is set, otherwise to `conf.File` |
| DecryptCmd.IndexOfNewline | crypto-cli/cmd/decrypt.go:67 | the first `'\n'`, or the length when there is none |
| DecryptCmd.LinesCons | crypto-cli/cmd/decrypt.go:67 | reading a line followed by more data returns that line and then the records of the rest |
| DecryptCmd.LinesAreLines | crypto-cli/cmd/decrypt.go:67 | every record read before EOF ends in its only `'\n'` |
| DecryptCmd.FragmentHasNoNewline | crypto-cli/cmd/decrypt.go:67-70 | what is read together with EOF holds no `'\n'` |
| DecryptCmd.LinesSplit | crypto-cli/cmd/decrypt.go:65-70 | the records and the final fragment make up the file |
| DecryptCmd.LinesOfConcat | crypto-cli/cmd/decrypt.go:65-70 | splitting undoes laying lines end to end before a fragment without `'\n'` |
| DecryptCmd.LineReader.constructor | crypto-cli/cmd/decrypt.go:65 | the reader starts at the front of the file |
| DecryptCmd.LineReader.ReadBytes | crypto-cli/cmd/decrypt.go:67-70 | EOF exactly when no `'\n'` is left, and then the reader is at the end; otherwise the next record, ending in its only `'\n'`, and the reader moves past it |
| DecryptCmd.TrimLine | crypto-cli/cmd/decrypt.go:81 | trimming a record removes exactly its `'\n'` |
| DecryptCmd.Payloads | crypto-cli/cmd/decrypt.go:75-81 | one ciphertext per record after the first |
| DecryptCmd.RemainingStep | crypto-cli/cmd/decrypt.go:66-89 | one pass: the first record is skipped; a later one is decrypted and either aborts the run or puts its plaintext before the rest of the output |
| DecryptCmd.NextPlaintext | crypto-cli/cmd/decrypt.go:67-84 | one read, skip or decrypt, related to the loop's output from the unread bytes |
| DecryptCmd.DecryptFile | crypto-cli/cmd/decrypt.go:63-90 | output and status equal `DecryptFileSpec` of the input |
| DecryptCmd.PayloadsOfLines | crypto-cli/cmd/decrypt.go:67-81 | for a file of lines and a fragment, ciphertext `k` is line `k + 1` without its `'\n'` |
| DecryptCmd.FirstLineIgnored | crypto-cli/cmd/decrypt.go:75-79 | files that differ only in their first line give the same run |
| DecryptCmd.FragmentIgnored | crypto-cli/cmd/decrypt.go:67-70 | a final fragment without `'\n'` never changes the run |
| DecryptCmd.CollectAllOk | crypto-cli/cmd/decrypt.go:86-89 | when every decryption succeeds, the plaintexts are written in order |
| DecryptCmd.CollectFirstErr | crypto-cli/cmd/decrypt.go:81-89 | the first failing decryption aborts the run after exactly the plaintexts before it |
| DecryptCmd.DecryptFileAllOk | crypto-cli/cmd/decrypt.go:63-90 | when every ciphertext of the file decrypts, the output is the plaintexts in file order |
| DecryptCmd.DecryptFileFirstErr | crypto-cli/cmd/decrypt.go:81-84 | a decryption error aborts the run after exactly the plaintexts before it |
| DecryptCmd.DecryptEncryptedLines | crypto-cli/cmd/decrypt.go:63-90 | a header line followed by `'\n'`-terminated encryptions (with no `'\n'` inside them) decrypts to the plaintexts, in order |
| DecryptCmd.InitDecryptor | crypto-cli/cmd/decrypt.go:93-106 | a derivation error aborts; a file shorter than 16 bytes aborts; otherwise the derived engine with the first 16 bytes of the file as its IV |
| DecryptCmd.HeaderHoldsIV | crypto-cli/cmd/decrypt.go:102-106 | a file written by `encrypt` with a one-block IV starts with that IV |
| Version.GetApp | version/version.go:17-22 | `App` when it is `None`; otherwise `App`, a `-` and the branch |
| Version.ShortHash | version/version.go:27-30 | at most 7 characters and a prefix of the hash; the whole hash when it is that short |
| Version.GetVersion | version/version.go:25-34 | `Version` when the hash is `None`; otherwise the branch, a `-` and a prefix of the hash of at most 7 characters |
| Version.AppSplits | version/version.go:17-22 | with no `-` in the name or the branch, the application name splits back into both |
| Version.VersionSplits | version/version.go:25-34 | with no `-` in the branch or the hash, the version splits back into the branch and a hash prefix of at most 7 characters |
| Version.Builder.constructor | version/version.go:37 | an empty builder |
| Version.Builder.WriteString | version/version.go:38-42 | appends the string |
| Version.Fields | version/version.go:38-42 | line `i` is caption `i`, its value and a space |
| Version.WriteNext | version/version.go:38-42 | each write appends the next line of the report |
| Version.FullVersionInfo | version/version.go:36-44 | the five writes produce the report |
| Version.LinesJoin | version/version.go:36-44 | the report is its lines joined by `'\n'`, with a final `'\n'` |
| Version.ReportSplits | version/version.go:36-44 | when no value holds `'\n'`, the report splits into the five lines (Application, Version, Git Branch, Git Commit, Build Time), each its value followed by `" "`, and an empty tail |
| Version.DefaultBuild | version/version.go:9-15 | in a plain build every value, the application name and the version are `None` |

## Left out

- The AES block cipher and the CBC, CTR, CFB and OFB implementations of `crypto/cipher` are foreign code. They are the abstract `Aes.Library`, with only the inverse and length properties stated.
- Aes.Encryptor.Encrypt and Aes.Encryptor.Decrypt: the error text is not modelled. Each error is a constructor of `Aes.Error`.
- Aes.Encryptor.SetIV and Padding.Pad: Go slice aliasing is modelled as value copies.
  - Go's `SetIV` keeps a sub-slice of the caller's buffer.
  - Go's `PKCS7Padding` can `append` into the caller's backing array (for example `cipherBuf[:n]`).
- The `EncryptionFile` library is an external hybrid-RSA service and is not part of this model. Its entry points are `EncData`, `DecData`, `GenRsaKey`, `GenEncCipher` and `GenDecCipher`.
- Utils.InitEncCipher and Utils.InitDecCipher return the name of the `crypto/cipher` constructor they select. The `EncCipher`/`DecCipher` structures they fill for that library are not modelled.
- The `decrypt` command of the CLI does not run the modelled `decrypt` function. Its `Run` handler calls `DecData` directly (`crypto-cli/cmd/decrypt.go:32-36`). Its `PreRun: initDecryptor` line is commented out (`crypto-cli/cmd/decrypt.go:31`), so `initDecryptor` never runs either. `DecryptCmd.DecryptFile` and `DecryptCmd.InitDecryptor` model those functions as written, not the command.
- The `encrypt` command of the CLI does not run the modelled `encrypt` function. Its `Run` handler calls `EncData` directly (`crypto-cli/cmd/encrypt.go:34-38`). Its `PreRun: initEncryptor` line is commented out (`crypto-cli/cmd/encrypt.go:33`), so `initEncryptor` and the deferred `moveOutputFile` never run either. EncryptCmd.EncryptFile, EncryptCmd.InitEncryptor and EncryptCmd.OutputTarget model those functions as written, not the command.
- Strconv.ParseInt checks every character before it checks the range. Go's `strconv.ParseInt` reports a range error as soon as the digits read so far overflow, so for `99999999999999999999x` Go gives `ErrRange` and the model gives `ErrSyntax`. The only caller, `Utils.ParseSecurity`, discards the error kind, so nothing else in the model changes.
- Files are byte sequences.
  - Open, Stat, OpenFile, Rename, bufio flushing and write errors are not modelled.
  - The output file names `ciphered-file.bin` and `plaintext.txt` are not modelled.
  - The `'@'` key file is read from a map that stands for the file system.
- EncryptCmd.FileReader.Read models full reads: a read returns as many bytes as the buffer holds or the file has left.
- DecryptCmd.LineReader.ReadBytes: read errors other than EOF, which the loop logs and skips with `continue`, are not modelled.
- EncryptCmd.InitEncryptor takes the 16 random IV bytes as a parameter, and requires exactly 16 of them. The read from `crypto/rand` is not modelled.
- EncryptCmd.EncryptFile: Go's `int64` file length and `int(forNum+1)` conversion are unbounded naturals.
- EncryptCmd.EncryptFile follows the self-check as written (see Findings). The corrected loop is the specification function `EncryptCmd.IntendedEncryptFile`, not a second method.
- Text.ToUpper upper-cases ASCII letters only. Go's Unicode case mapping is not modelled.
- Text.Split covers one-character separators only, which is all the source uses.
- Version.FullVersionInfo formats with string concatenation. The `fmt.Sprintf` verbs are not modelled.
- `crypto-cli/cmd/root.go` is Cobra/viper wiring and is not part of this model.
  - Its separator constant is `EncryptCmd.Separator`.
  - Its five-string whitelist is `Utils.ShippedCiphers`.
- Logging and printing (`log.Printf`, `fmt.Println`) are not modelled.
- `crypto-cli/config/config.go` is a plain struct and is `Utils.Config` here.
- The `InitAesEncryptor` cases of `crypto-cli/utils/utils_test.go` set a field that `config.Config` does not have. They are not modelled. The `Test_repeat` cases are (`Utils.RepeatTestVectors`).

## Findings

| source | as written | input that shows it | evidently intended | confidence | as-written member | corrected member |
|---|---|---|---|---|---|---|
| crypto-cli/cmd/encrypt.go:112 | the self-check compares the decrypted chunk with the whole buffer `cipherBuf`, not with the `n` bytes read | a 250 MiB file: the third read returns 50 MiB into the 100 MiB buffer, so the comparison fails and the run aborts after writing two records | compare with `cipherBuf[:n]`, so every file is encrypted in full; the defect lies in the `encrypt` function, which the shipped `encrypt` command does not call | not executed | EncryptCmd.ShortLastChunkAborts | EncryptCmd.IntendedEncryptFileFrames |
| crypto-cli/utils/utils.go:136 | `InitDecCipher` selects `cipher.NewCFBEncrypter` for CFB | the security string `aes-256-cfb`: the decrypting side gets the same constructor as the encrypting side, not its inverse | `cipher.NewCFBDecrypter`, as `aes/aes.go` uses for CFB decryption; the defect lies on the path the `decrypt` command takes (`crypto-cli/cmd/decrypt.go:126`) | not executed | Utils.DecCipherCfbMismatch | Utils.IntendedDecCipherInverts |
