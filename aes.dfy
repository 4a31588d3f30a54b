/** The multi-mode AES engine of aes/aes.go: an `Encryptor` that owns a key, an
    IV and a mode, pads with PKCS#7 and dispatches to the five modes of
    NIST SP 800-38A (ECB section 6.1, CBC 6.2, CFB 6.3, OFB 6.4, CTR 6.5).

    The AES block primitive (FIPS 197) and the CBC, CTR, CFB and OFB
    implementations of Go's crypto/cipher are library code; they enter the
    model as a `Library` value whose `Valid()` states what the engine relies
    on: a per-key block permutation and length-preserving, invertible modes. */
module Aes {
  import opened Bytes
  import Padding

  /** `aes.BlockSize`. */
  const BlockSize: nat := 16

  /** `Mode` is a Go string type; any string can be cast to it, so any string
      can reach the mode switch. */
  type Mode = string

  const ModeECB: Mode := "ECB"
  const ModeCBC: Mode := "CBC"
  const ModeCTR: Mode := "CTR"
  const ModeCFB: Mode := "CFB"
  const ModeOFB: Mode := "OFB"

  /** One of the five mode constants. */
  predicate IsMode(m: Mode) {
    m == ModeECB || m == ModeCBC || m == ModeCTR || m == ModeCFB || m == ModeOFB
  }

  /** The key lengths `aes.NewCipher` accepts (AES-128, AES-192, AES-256). */
  predicate ValidKeySize(n: int) {
    n == 16 || n == 24 || n == 32
  }

  /** The error returns of aes.go, and the runtime panics that inputs can
      provoke there, which the model returns as errors too. */
  datatype Error =
    | KeySizeError(size: nat)              // aes.NewCipher refused the key
    | InvalidEncryptMode(mode: Mode)       // default branch of Encrypt's switch
    | InvalidDecryptMode(mode: Mode)       // default branch of Decrypt's switch
    | IVTooShort(length: nat)              // SetIV refused the IV
    | IVSlicePanic(length: nat)            // e.iv[:blockSize] out of range
    | InputNotFullBlocks(length: nat)      // a partial block reached the block cipher
    | UnpaddingPanic(cause: Padding.UnpadError)

  /** The library the engine calls: the AES block cipher of `crypto/aes` and the
      mode objects of `crypto/cipher`, each as a function of (key, iv, input).
      `ctr` and `ofb` are Go's `XORKeyStream` for `NewCTR` and `NewOFB`, which
      the engine uses in both directions. */
  datatype Library = Library(
    encryptBlock: (seq<byte>, seq<byte>) -> seq<byte>,
    decryptBlock: (seq<byte>, seq<byte>) -> seq<byte>,
    cbcEncrypt: (seq<byte>, seq<byte>, seq<byte>) -> seq<byte>,
    cbcDecrypt: (seq<byte>, seq<byte>, seq<byte>) -> seq<byte>,
    ctr: (seq<byte>, seq<byte>, seq<byte>) -> seq<byte>,
    cfbEncrypt: (seq<byte>, seq<byte>, seq<byte>) -> seq<byte>,
    cfbDecrypt: (seq<byte>, seq<byte>, seq<byte>) -> seq<byte>,
    ofb: (seq<byte>, seq<byte>, seq<byte>) -> seq<byte>)
  {
    /** For one AES key `k` and one block `b`: the block functions map blocks
        to blocks and undo each other. */
    ghost predicate BlockPermutation(k: seq<byte>, b: seq<byte>) {
      && |encryptBlock(k, b)| == BlockSize && |decryptBlock(k, b)| == BlockSize
      && decryptBlock(k, encryptBlock(k, b)) == b && encryptBlock(k, decryptBlock(k, b)) == b
    }

    /** For one key, IV and whole-block input: CBC preserves the length and
        CBC decryption undoes CBC encryption. */
    ghost predicate CbcInverse(k: seq<byte>, iv: seq<byte>, x: seq<byte>) {
      && |cbcEncrypt(k, iv, x)| == |x| && |cbcDecrypt(k, iv, x)| == |x|
      && cbcDecrypt(k, iv, cbcEncrypt(k, iv, x)) == x
    }

    /** For one key, IV and input of any length: the CTR and OFB key streams
        preserve the length and undo themselves; CFB decryption undoes CFB
        encryption. */
    ghost predicate StreamInverse(k: seq<byte>, iv: seq<byte>, x: seq<byte>) {
      && |ctr(k, iv, x)| == |x| && ctr(k, iv, ctr(k, iv, x)) == x
      && |ofb(k, iv, x)| == |x| && ofb(k, iv, ofb(k, iv, x)) == x
      && |cfbEncrypt(k, iv, x)| == |x| && |cfbDecrypt(k, iv, x)| == |x|
      && cfbDecrypt(k, iv, cfbEncrypt(k, iv, x)) == x
    }

    /** What the engine relies on, for every AES key and one-block IV. The
        triggers keep each fact dormant until a proof names the instance. */
    ghost predicate Valid() {
      && (forall k, b {:trigger BlockPermutation(k, b)} |
            ValidKeySize(|k|) && |b| == BlockSize :: BlockPermutation(k, b))
      && (forall k, iv, x {:trigger CbcInverse(k, iv, x)} |
            ValidKeySize(|k|) && |iv| == BlockSize && |x| % BlockSize == 0 :: CbcInverse(k, iv, x))
      && (forall k, iv, x {:trigger StreamInverse(k, iv, x)} |
            ValidKeySize(|k|) && |iv| == BlockSize :: StreamInverse(k, iv, x))
    }
  }

  /** Electronic codebook over whole blocks: the block function `f` applied to
      each block by itself, in order. */
  function Ecb(f: (seq<byte>, seq<byte>) -> seq<byte>, key: seq<byte>, data: seq<byte>): seq<byte>
    requires |data| % BlockSize == 0
    decreases |data|
  {
    if |data| == 0 then []
    else Ecb(f, key, data[..|data| - BlockSize]) + f(key, data[|data| - BlockSize..])
  }

  /** ECB over one more block appends that block's image. */
  lemma EcbExtend(f: (seq<byte>, seq<byte>) -> seq<byte>, key: seq<byte>, data: seq<byte>, bs: nat)
    requires bs % BlockSize == 0 && bs + BlockSize <= |data|
    ensures Ecb(f, key, data[..bs + BlockSize]) == Ecb(f, key, data[..bs]) + f(key, data[bs..bs + BlockSize])
  {
    assert data[..bs + BlockSize][..bs] == data[..bs];
    assert data[..bs + BlockSize][bs..] == data[bs..bs + BlockSize];
  }

  /** In a whole-block input, a block starting before the end ends inside it. */
  lemma NextBlockFits(bs: nat, i: nat, n: nat)
    requires bs == i * BlockSize && bs < n && n % BlockSize == 0
    ensures bs + BlockSize <= n
  {
    DivModUnique(n, BlockSize, n / BlockSize, 0);
  }

  /** ECB with the library's block cipher preserves the length. */
  lemma {:induction false} EcbLength(lib: Library, key: seq<byte>, data: seq<byte>)
    requires lib.Valid() && ValidKeySize(|key|) && |data| % BlockSize == 0
    ensures |Ecb(lib.encryptBlock, key, data)| == |data|
    ensures |Ecb(lib.decryptBlock, key, data)| == |data|
    decreases |data|
  {
    if |data| > 0 {
      assert lib.BlockPermutation(key, data[|data| - BlockSize..]);
      EcbLength(lib, key, data[..|data| - BlockSize]);
    }
  }

  /** In ECB, ciphertext block `i` is the block cipher applied to plaintext
      block `i` alone, whatever the other blocks hold. */
  lemma {:induction false} EcbBlock(lib: Library, key: seq<byte>, data: seq<byte>, i: nat)
    requires lib.Valid() && ValidKeySize(|key|) && |data| % BlockSize == 0
    requires (i + 1) * BlockSize <= |data|
    ensures |Ecb(lib.encryptBlock, key, data)| == |data|
    ensures Ecb(lib.encryptBlock, key, data)[i * BlockSize..(i + 1) * BlockSize]
         == lib.encryptBlock(key, data[i * BlockSize..(i + 1) * BlockSize])
    decreases |data|
  {
    EcbLength(lib, key, data);
    var front := data[..|data| - BlockSize];
    EcbLength(lib, key, front);
    if (i + 1) * BlockSize < |data| {
      EcbBlock(lib, key, front, i);
      assert data[i * BlockSize..(i + 1) * BlockSize] == front[i * BlockSize..(i + 1) * BlockSize];
    } else {
      assert data[i * BlockSize..(i + 1) * BlockSize] == data[|data| - BlockSize..];
    }
  }

  /** Two equal plaintext blocks give equal ciphertext blocks in ECB, the
      weakness the engine keeps. */
  lemma EcbEqualBlocks(lib: Library, key: seq<byte>, data: seq<byte>, i: nat, j: nat)
    requires lib.Valid() && ValidKeySize(|key|) && |data| % BlockSize == 0
    requires (i + 1) * BlockSize <= |data| && (j + 1) * BlockSize <= |data|
    requires data[i * BlockSize..(i + 1) * BlockSize] == data[j * BlockSize..(j + 1) * BlockSize]
    ensures |Ecb(lib.encryptBlock, key, data)| == |data|
    ensures Ecb(lib.encryptBlock, key, data)[i * BlockSize..(i + 1) * BlockSize]
         == Ecb(lib.encryptBlock, key, data)[j * BlockSize..(j + 1) * BlockSize]
  {
    EcbBlock(lib, key, data, i);
    EcbBlock(lib, key, data, j);
  }

  /** ECB decryption undoes ECB encryption. */
  lemma {:induction false} EcbInverse(lib: Library, key: seq<byte>, data: seq<byte>)
    requires lib.Valid() && ValidKeySize(|key|) && |data| % BlockSize == 0
    ensures |Ecb(lib.encryptBlock, key, data)| == |data|
    ensures Ecb(lib.decryptBlock, key, Ecb(lib.encryptBlock, key, data)) == data
    decreases |data|
  {
    EcbLength(lib, key, data);
    if |data| > 0 {
      var front := data[..|data| - BlockSize];
      var last := data[|data| - BlockSize..];
      assert lib.BlockPermutation(key, last);
      EcbLength(lib, key, front);
      EcbInverse(lib, key, front);
      var c := Ecb(lib.encryptBlock, key, data);
      assert c[..|c| - BlockSize] == Ecb(lib.encryptBlock, key, front);
      assert c[|c| - BlockSize..] == lib.encryptBlock(key, last);
      assert data == front + last;
    }
  }

  /** The specification of `Encrypt` (aes.go:32-69): build the block cipher
      (which checks the key), pad, then dispatch on the mode. The IV is sliced
      only in the four modes that use it. */
  function EncryptResult(lib: Library, key: seq<byte>, iv: seq<byte>, mode: Mode, plaintext: seq<byte>)
    : (r: Result<seq<byte>, Error>)
    requires lib.Valid()
    ensures !ValidKeySize(|key|) ==> r == Err(KeySizeError(|key|))
    ensures ValidKeySize(|key|) && !IsMode(mode) ==> r == Err(InvalidEncryptMode(mode))
    ensures ValidKeySize(|key|) && IsMode(mode) && mode != ModeECB && |iv| < BlockSize ==>
              r == Err(IVSlicePanic(|iv|))
    ensures r.Ok? <==> ValidKeySize(|key|) && (mode == ModeECB || (IsMode(mode) && |iv| >= BlockSize))
    ensures r.Ok? ==> |r.value| == |Padding.Pad(plaintext, BlockSize)| && |r.value| % BlockSize == 0
  {
    if !ValidKeySize(|key|) then Err(KeySizeError(|key|))
    else
      var padded := Padding.Pad(plaintext, BlockSize);
      if mode == ModeECB then
        EcbLength(lib, key, padded);
        Ok(Ecb(lib.encryptBlock, key, padded))
      else if !IsMode(mode) then Err(InvalidEncryptMode(mode))
      else if |iv| < BlockSize then Err(IVSlicePanic(|iv|))
      else
        var iv16 := iv[..BlockSize];
        assert lib.CbcInverse(key, iv16, padded) && lib.StreamInverse(key, iv16, padded);
        if mode == ModeCBC then Ok(lib.cbcEncrypt(key, iv16, padded))
        else if mode == ModeCTR then Ok(lib.ctr(key, iv16, padded))
        else if mode == ModeCFB then Ok(lib.cfbEncrypt(key, iv16, padded))
        else Ok(lib.ofb(key, iv16, padded))
  }

  /** The mode-specific half of `Decrypt` (aes.go:85-106), before unpadding. */
  function DecryptBlocks(lib: Library, key: seq<byte>, iv16: seq<byte>, mode: Mode, ciphertext: seq<byte>)
    : (r: Result<seq<byte>, Error>)
    requires lib.Valid() && ValidKeySize(|key|) && |iv16| == BlockSize
    ensures r.Ok? ==> |r.value| == |ciphertext|
    ensures r.Ok? <==> IsMode(mode) && ((mode == ModeECB || mode == ModeCBC) ==> |ciphertext| % BlockSize == 0)
  {
    if mode == ModeECB then
      if |ciphertext| % BlockSize != 0 then Err(InputNotFullBlocks(|ciphertext|))
      else
        EcbLength(lib, key, ciphertext);
        Ok(Ecb(lib.decryptBlock, key, ciphertext))
    else if mode == ModeCBC then
      if |ciphertext| % BlockSize != 0 then Err(InputNotFullBlocks(|ciphertext|))
      else
        assert lib.CbcInverse(key, iv16, ciphertext);
        Ok(lib.cbcDecrypt(key, iv16, ciphertext))
    else if IsMode(mode) then
      assert lib.StreamInverse(key, iv16, ciphertext);
      if mode == ModeCTR then Ok(lib.ctr(key, iv16, ciphertext))
      else if mode == ModeCFB then Ok(lib.cfbDecrypt(key, iv16, ciphertext))
      else Ok(lib.ofb(key, iv16, ciphertext))
    else Err(InvalidDecryptMode(mode))
  }

  /** The specification of `Decrypt` (aes.go:71-110): build the block cipher,
      slice the IV (in every mode, ECB included), decrypt by mode, unpad. */
  function DecryptResult(lib: Library, key: seq<byte>, iv: seq<byte>, mode: Mode, ciphertext: seq<byte>)
    : (r: Result<seq<byte>, Error>)
    requires lib.Valid()
    ensures !ValidKeySize(|key|) ==> r == Err(KeySizeError(|key|))
    ensures ValidKeySize(|key|) && |iv| < BlockSize ==> r == Err(IVSlicePanic(|iv|))
    ensures ValidKeySize(|key|) && |iv| >= BlockSize && !IsMode(mode) ==> r == Err(InvalidDecryptMode(mode))
    ensures r.Ok? ==> |r.value| <= |ciphertext|
  {
    if !ValidKeySize(|key|) then Err(KeySizeError(|key|))
    else if |iv| < BlockSize then Err(IVSlicePanic(|iv|))
    else
      match DecryptBlocks(lib, key, iv[..BlockSize], mode, ciphertext)
      case Err(e) => Err(e)
      case Ok(plain) =>
        match Padding.Unpad(plain)
        case Err(e) => Err(UnpaddingPanic(e))
        case Ok(p) => Ok(p)
  }

  /** For every key size and every mode, with an IV of at least one block,
      decrypting what `Encrypt` produced gives back the plaintext. */
  lemma EncryptDecryptRoundTrip(lib: Library, key: seq<byte>, iv: seq<byte>, mode: Mode, plaintext: seq<byte>)
    requires lib.Valid() && ValidKeySize(|key|) && IsMode(mode) && |iv| >= BlockSize
    ensures EncryptResult(lib, key, iv, mode, plaintext).Ok?
    ensures DecryptResult(lib, key, iv, mode, EncryptResult(lib, key, iv, mode, plaintext).value) == Ok(plaintext)
  {
    var padded := Padding.Pad(plaintext, BlockSize);
    var c := EncryptResult(lib, key, iv, mode, plaintext).value;
    var iv16 := iv[..BlockSize];
    if mode == ModeECB {
      EcbInverse(lib, key, padded);
    } else {
      assert lib.CbcInverse(key, iv16, padded) && lib.StreamInverse(key, iv16, padded);
    }
    assert DecryptBlocks(lib, key, iv[..BlockSize], mode, c) == Ok(padded);
    Padding.UnpadPad(plaintext, BlockSize);
  }

  /** The ECB loop of `Encrypt` (aes.go:49-51): a fresh output array filled one
      block at a time by the block cipher. */
  method EncryptEcbBlocks(lib: Library, key: seq<byte>, padded: seq<byte>) returns (ciphertext: seq<byte>)
    requires lib.Valid() && ValidKeySize(|key|) && |padded| % BlockSize == 0
    ensures ciphertext == Ecb(lib.encryptBlock, key, padded)
  {
    var out := new byte[|padded|];
    var bs, be := 0, BlockSize;
    ghost var i := 0;
    while bs < |padded|
      invariant 0 <= bs <= |padded| && bs == i * BlockSize && be == bs + BlockSize && bs % BlockSize == 0
      invariant out[..bs] == Ecb(lib.encryptBlock, key, padded[..bs])
    {
      NextBlockFits(bs, i, |padded|);
      assert lib.BlockPermutation(key, padded[bs..be]);
      CopyAt(out, bs, lib.encryptBlock(key, padded[bs..be]));
      EcbExtend(lib.encryptBlock, key, padded, bs);
      bs, be, i := bs + BlockSize, be + BlockSize, i + 1;
      DivModUnique(bs, BlockSize, i, 0);
    }
    assert padded[..bs] == padded && out[..bs] == out[..];
    ciphertext := out[..];
  }

  /** The ECB loop of `Decrypt` (aes.go:89-91): block by block into a fresh
      array; a partial final block makes the block cipher panic. */
  method DecryptEcbBlocks(lib: Library, key: seq<byte>, ciphertext: seq<byte>) returns (r: Result<seq<byte>, Error>)
    requires lib.Valid() && ValidKeySize(|key|)
    ensures |ciphertext| % BlockSize != 0 ==> r == Err(InputNotFullBlocks(|ciphertext|))
    ensures |ciphertext| % BlockSize == 0 ==> r == Ok(Ecb(lib.decryptBlock, key, ciphertext))
  {
    var out := new byte[|ciphertext|];
    var bs, be := 0, BlockSize;
    ghost var i := 0;
    while bs < |ciphertext|
      invariant 0 <= bs <= |ciphertext| && bs == i * BlockSize && be == bs + BlockSize && bs % BlockSize == 0
      invariant out[..bs] == Ecb(lib.decryptBlock, key, ciphertext[..bs])
    {
      if be > |ciphertext| {
        DivModUnique(|ciphertext|, BlockSize, i, |ciphertext| - bs);
        return Err(InputNotFullBlocks(|ciphertext|));
      }
      assert lib.BlockPermutation(key, ciphertext[bs..be]);
      CopyAt(out, bs, lib.decryptBlock(key, ciphertext[bs..be]));
      EcbExtend(lib.decryptBlock, key, ciphertext, bs);
      bs, be, i := bs + BlockSize, be + BlockSize, i + 1;
      DivModUnique(bs, BlockSize, i, 0);
    }
    assert ciphertext[..bs] == ciphertext && out[..bs] == out[..];
    return Ok(out[..]);
  }

  /** An `Encryptor`: key and mode fixed at construction, IV set by `SetIV`. */
  class Encryptor {
    var key: seq<byte>
    var iv: seq<byte>
    var mode: Mode

    /** The IV is either unset or exactly one block: only `SetIV` stores it. */
    ghost predicate Valid()
      reads this
    {
      |iv| == 0 || |iv| == BlockSize
    }

    /** `NewEncryptor(key, mode)`: stores key and mode, leaves the IV unset and
        does not yet check the key length. */
    constructor (key: seq<byte>, mode: Mode)
      ensures Valid()
      ensures this.key == key && this.mode == mode && iv == []
    {
      this.key := key;
      this.mode := mode;
      this.iv := [];
    }

    /** `GetIV`: the stored IV, empty while unset. */
    function GetIV(): (r: seq<byte>)
      requires Valid()
      reads this
      ensures r == [] || |r| == BlockSize
      ensures r == iv
    {
      iv
    }

    /** `SetIV`: refuses an IV shorter than one block, otherwise keeps its first
        block; key and mode are untouched. */
    method SetIV(newIV: seq<byte>) returns (r: Result<(), Error>)
      requires Valid()
      modifies this`iv
      ensures Valid()
      ensures key == old(key) && mode == old(mode)
      ensures |newIV| < BlockSize ==> r == Err(IVTooShort(|newIV|)) && iv == old(iv)
      ensures |newIV| >= BlockSize ==> r == Ok(()) && iv == newIV[..BlockSize]
    {
      if |newIV| < BlockSize {
        return Err(IVTooShort(|newIV|));
      }
      iv := newIV[..BlockSize];
      return Ok(());
    }

    /** `Encrypt`: check the key, pad, dispatch on the mode. */
    method Encrypt(lib: Library, plaintext: seq<byte>) returns (r: Result<seq<byte>, Error>)
      requires lib.Valid()
      ensures r == EncryptResult(lib, key, iv, mode, plaintext)
    {
      if !ValidKeySize(|key|) {
        return Err(KeySizeError(|key|));
      }
      var padded := Padding.Pad(plaintext, BlockSize);
      if mode == ModeECB {
        var ciphertext := EncryptEcbBlocks(lib, key, padded);
        return Ok(ciphertext);
      }
      if !IsMode(mode) {
        return Err(InvalidEncryptMode(mode));
      }
      if |iv| < BlockSize {
        return Err(IVSlicePanic(|iv|));
      }
      var iv16 := iv[..BlockSize];
      if mode == ModeCBC {
        r := Ok(lib.cbcEncrypt(key, iv16, padded));
      } else if mode == ModeCTR {
        r := Ok(lib.ctr(key, iv16, padded));
      } else if mode == ModeCFB {
        r := Ok(lib.cfbEncrypt(key, iv16, padded));
      } else {
        r := Ok(lib.ofb(key, iv16, padded));
      }
    }

    /** `Decrypt`: check the key, slice the IV, dispatch on the mode, unpad. */
    method Decrypt(lib: Library, ciphertext: seq<byte>) returns (r: Result<seq<byte>, Error>)
      requires lib.Valid()
      ensures r == DecryptResult(lib, key, iv, mode, ciphertext)
    {
      if !ValidKeySize(|key|) {
        return Err(KeySizeError(|key|));
      }
      if |iv| < BlockSize {
        return Err(IVSlicePanic(|iv|));
      }
      var iv16 := iv[..BlockSize];
      var plain: seq<byte>;
      if mode == ModeECB {
        var blocks := DecryptEcbBlocks(lib, key, ciphertext);
        if blocks.Err? {
          return Err(blocks.error);
        }
        plain := blocks.value;
      } else if mode == ModeCBC {
        if |ciphertext| % BlockSize != 0 {
          return Err(InputNotFullBlocks(|ciphertext|));
        }
        plain := lib.cbcDecrypt(key, iv16, ciphertext);
      } else if mode == ModeCTR {
        plain := lib.ctr(key, iv16, ciphertext);
      } else if mode == ModeCFB {
        plain := lib.cfbDecrypt(key, iv16, ciphertext);
      } else if mode == ModeOFB {
        plain := lib.ofb(key, iv16, ciphertext);
      } else {
        return Err(InvalidDecryptMode(mode));
      }
      assert DecryptBlocks(lib, key, iv16, mode, ciphertext) == Ok(plain);
      match Padding.Unpad(plain)
      case Err(e) => r := Err(UnpaddingPanic(e));
      case Ok(p) => r := Ok(p);
    }
  }
}
