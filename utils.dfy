/** Key derivation and cipher selection of crypto-cli/utils/utils.go: the
    configured key bytes are base16-encoded, stretched or cut cyclically to
    `bits/8` bytes, and paired with the upper-cased mode of an
    `aes-<bits>-<mode>` security string. */
module Utils {
  import opened Bytes
  import Text
  import Strconv
  import Hex
  import Aes

  /** `config.Config`. The private key is a Go string used as raw bytes, so it
      is kept as bytes; the other strings are ASCII command-line values. */
  datatype Config = Config(
    publicKey: string,
    privateKey: seq<byte>,
    generateKey: bool,
    security: string,
    file: string,
    out: string)

  /** The runtime panics of `repeat`. */
  datatype Panic =
    | SliceBoundsOutOfRange(size: int)   // src[:size] with a negative size
    | IntegerDivideByZero                // size / len(src) with an empty src

  /** The ways key derivation and cipher selection abort (`log.Fatalf`, or a
      panic inside `repeat`). */
  datatype InitError =
    | KeyFileUnreadable(path: seq<byte>)
    | MalformedSecurity(security: string)
    | RepeatPanic(cause: Panic)
    | InvalidSecurityMode(security: string)

  /** The mode fields of the shipped security strings. */
  const ShippedModes: set<string> := {"ecb", "cbc", "ctr", "cfb", "ofb"}

  /** The five security strings the command line accepts (crypto-cli/cmd/root.go):
      AES-256 with each of the five modes. */
  const ShippedCiphers: set<string> := set m | m in ShippedModes :: "aes-256-" + m

  /** Go's `/` on integers: truncation toward zero. */
  function GoDiv(a: int, b: int): (q: int)
    requires b > 0
    ensures a >= 0 ==> q == a / b
    ensures a < 0 ==> q == -((-a) / b)
  {
    if a >= 0 then a / b else -((-a) / b)
  }

  /** `k` copies of `src`, one after the other. */
  function Cycle(src: seq<byte>, k: nat): (r: seq<byte>)
    ensures |r| == k * |src|
    decreases k
  {
    if k == 0 then []
    else
      var r := Cycle(src, k - 1) + src;
      assert (k - 1) * |src| + |src| == k * |src|;
      r
  }

  /** Position `j` of the repetition holds the byte of `src` at `j mod |src|`. */
  lemma {:induction false} CycleIndex(src: seq<byte>, k: nat, j: int)
    requires |src| > 0 && 0 <= j < k * |src|
    ensures Cycle(src, k)[j] == src[j % |src|]
    decreases k
  {
    var front := Cycle(src, k - 1);
    if j < (k - 1) * |src| {
      CycleIndex(src, k - 1, j);
    } else {
      DivModUnique(j, |src|, k - 1, j - (k - 1) * |src|);
    }
  }

  /** `repeat(src, size)`: the first `size` bytes of `src` when it is long
      enough, otherwise `src` repeated cyclically up to length `size`. A
      negative size, or an empty `src` with a positive size, panics. */
  function Repeated(src: seq<byte>, size: int): (r: Result<seq<byte>, Panic>)
    ensures size < 0 ==> r == Err(SliceBoundsOutOfRange(size))
    ensures 0 <= size <= |src| ==> r == Ok(src[..size])
    ensures |src| == 0 < size ==> r == Err(IntegerDivideByZero)
    ensures 0 < |src| < size ==>
              r.Ok? && |r.value| == size && forall j :: 0 <= j < size ==> r.value[j] == src[j % |src|]
  {
    if |src| >= size then
      if size < 0 then Err(SliceBoundsOutOfRange(size)) else Ok(src[..size])
    else if |src| == 0 then Err(IntegerDivideByZero)
    else
      var m, n := size / |src|, size % |src|;
      var r := Cycle(src, m) + src[..n];
      assert forall j :: 0 <= j < size ==> r[j] == src[j % |src|] by {
        forall j | 0 <= j < size ensures r[j] == src[j % |src|] {
          if j < m * |src| {
            CycleIndex(src, m, j);
          } else {
            DivModUnique(j, |src|, m, j - m * |src|);
          }
        }
      }
      Ok(r)
  }

  /** The four cases of crypto-cli/utils/utils_test.go, `Test_repeat`. */
  lemma RepeatTestVectors()
    ensures Repeated([1, 2, 3, 4, 5, 1, 2, 3, 4, 5], 10) == Ok([1, 2, 3, 4, 5, 1, 2, 3, 4, 5])
    ensures Repeated([1, 2, 3, 4, 5], 10) == Ok([1, 2, 3, 4, 5, 1, 2, 3, 4, 5])
    ensures Repeated([1, 2, 3], 10) == Ok([1, 2, 3, 1, 2, 3, 1, 2, 3, 1])
    ensures Repeated([1, 2, 3, 1, 2, 3, 1, 2, 3, 1], 5) == Ok([1, 2, 3, 1, 2])
  {
    assert [1, 2, 3, 4, 5, 1, 2, 3, 4, 5][..10] == [1, 2, 3, 4, 5, 1, 2, 3, 4, 5];
    assert [1, 2, 3, 1, 2, 3, 1, 2, 3, 1][..5] == [1, 2, 3, 1, 2];
    var r1 := Repeated([1, 2, 3, 4, 5], 10);
    assert r1.value == [1, 2, 3, 4, 5, 1, 2, 3, 4, 5] by {
      forall j | 0 <= j < 10 ensures r1.value[j] == [1, 2, 3, 4, 5, 1, 2, 3, 4, 5][j] {}
    }
    var r2 := Repeated([1, 2, 3], 10);
    assert r2.value == [1, 2, 3, 1, 2, 3, 1, 2, 3, 1] by {
      forall j | 0 <= j < 10 ensures r2.value[j] == [1, 2, 3, 1, 2, 3, 1, 2, 3, 1][j] {}
    }
  }

  /** When `src` is shorter than `size`, `repeat` lays `size / |src|` whole
      copies and then the first `size % |src|` bytes. */
  lemma RepeatedCycles(src: seq<byte>, size: int)
    requires 0 < |src| < size
    ensures Repeated(src, size) == Ok(Cycle(src, size / |src|) + src[..size % |src|])
  {
  }

  /** `repeat`: a fresh buffer of `size` bytes filled by whole copies of `src`
      in a counted loop, then the remainder. */
  method Repeat(src: seq<byte>, size: int) returns (r: Result<seq<byte>, Panic>)
    ensures r == Repeated(src, size)
  {
    if |src| >= size {
      if size < 0 {
        return Err(SliceBoundsOutOfRange(size));
      }
      return Ok(src[..size]);
    }
    var dst := new byte[size];
    if |src| == 0 {
      return Err(IntegerDivideByZero);
    }
    var m := size / |src|;
    var n := size % |src|;
    ghost var at := 0;
    var i := 0;
    while i < m
      invariant 0 <= i <= m && at == i * |src| && at + (m - i) * |src| + n == size
      invariant dst[..at] == Cycle(src, i)
    {
      assert (m - i) * |src| == (m - i - 1) * |src| + |src|;
      assert (i + 1) * |src| == i * |src| + |src|;
      MulMonotonic(0, m - i - 1, |src|);
      CopyAt(dst, i * |src|, src);
      at, i := at + |src|, i + 1;
    }
    CopyAt(dst, m * |src|, src[..n]);
    assert dst[..] == dst[..at + n];
    RepeatedCycles(src, size);
    return Ok(dst[..]);
  }

  /** The key material: the bytes of the file named after a leading `@`, or
      the configured key itself. `files` stands for the file system. */
  function KeyMaterial(conf: Config, files: map<seq<byte>, seq<byte>>): (r: Result<seq<byte>, InitError>)
    ensures (|conf.privateKey| == 0 || conf.privateKey[0] != '@' as int) ==> r == Ok(conf.privateKey)
  {
    if |conf.privateKey| > 0 && conf.privateKey[0] == '@' as int then
      var path := conf.privateKey[1..];
      if path in files then Ok(files[path]) else Err(KeyFileUnreadable(path))
    else Ok(conf.privateKey)
  }

  /** The key length in bits and the mode of `aes-<bits>-<mode>`: exactly three
      `-`-separated fields, the second a decimal `int64`. The bit count can
      never be negative, since a `-` would make a fourth field. */
  function ParseSecurity(security: string): (r: Result<(int, Aes.Mode), InitError>)
    ensures r.Err? ==> r.error == MalformedSecurity(security)
    ensures r.Ok? <==> |Text.Split(security, '-')| == 3 && Strconv.ParseInt(Text.Split(security, '-')[1]).Ok?
    ensures r.Ok? ==> 0 <= r.value.0 <= Strconv.MaxInt64
    ensures r.Ok? ==> r.value.1 == Text.ToUpper(Text.Split(security, '-')[2])
  {
    var fields := Text.Split(security, '-');
    if |fields| != 3 then Err(MalformedSecurity(security))
    else
      match Strconv.ParseInt(fields[1])
      case Err(_) => Err(MalformedSecurity(security))
      case Ok(bits) => Ok((bits, Text.ToUpper(fields[2])))
  }

  /** What `InitAesEncryptor` computes before building the engine: the key is
      the lower-case hex of the key material, repeated to `bits/8` bytes, and
      the mode is the upper-cased third field. */
  function DeriveKeyAndMode(conf: Config, files: map<seq<byte>, seq<byte>>)
    : (r: Result<(seq<byte>, Aes.Mode), InitError>)
    ensures KeyMaterial(conf, files).Err? ==> r == Err(KeyMaterial(conf, files).error)
    ensures KeyMaterial(conf, files).Ok? && ParseSecurity(conf.security).Err? ==>
              r == Err(MalformedSecurity(conf.security))
    ensures r.Ok? ==> r.value.1 == ParseSecurity(conf.security).value.1
  {
    match KeyMaterial(conf, files)
    case Err(e) => Err(e)
    case Ok(material) =>
      match ParseSecurity(conf.security)
      case Err(e) => Err(e)
      case Ok((bits, mode)) =>
        match Repeated(Hex.Encode(material), GoDiv(bits, 8))
        case Err(p) => Err(RepeatPanic(p))
        case Ok(key) => Ok((key, mode))
  }

  /** With non-empty key material the derived key has exactly `bits/8` bytes,
      byte `j` being hex digit `j mod (2 * |material|)` of the material. */
  lemma DerivedKeyShape(conf: Config, files: map<seq<byte>, seq<byte>>)
    requires KeyMaterial(conf, files).Ok? && |KeyMaterial(conf, files).value| > 0
    requires ParseSecurity(conf.security).Ok?
    ensures DeriveKeyAndMode(conf, files).Ok?
    ensures |DeriveKeyAndMode(conf, files).value.0| == ParseSecurity(conf.security).value.0 / 8
    ensures forall j :: 0 <= j < |DeriveKeyAndMode(conf, files).value.0| ==>
              DeriveKeyAndMode(conf, files).value.0[j]
                == Hex.Encode(KeyMaterial(conf, files).value)[j % (2 * |KeyMaterial(conf, files).value|)]
  {
    var hex := Hex.Encode(KeyMaterial(conf, files).value);
    var size := ParseSecurity(conf.security).value.0 / 8;
    assert GoDiv(ParseSecurity(conf.security).value.0, 8) == size;
    var key := Repeated(hex, size);
    assert DeriveKeyAndMode(conf, files) == Ok((key.value, ParseSecurity(conf.security).value.1));
    if size <= |hex| {
      forall j | 0 <= j < size ensures key.value[j] == hex[j % |hex|] {
        DivModUnique(j, |hex|, 0, j);
      }
    }
  }

  /** Empty key material (an empty key string, or an empty key file) makes
      `repeat` divide by zero as soon as the key has at least one byte. */
  lemma EmptyKeyMaterialPanics(conf: Config, files: map<seq<byte>, seq<byte>>)
    requires KeyMaterial(conf, files) == Ok([])
    requires ParseSecurity(conf.security).Ok? && ParseSecurity(conf.security).value.0 >= 8
    ensures DeriveKeyAndMode(conf, files) == Err(RepeatPanic(IntegerDivideByZero))
  {
    assert Hex.Encode([]) == [];
  }

  /** "aes-256-<m>" splits into "aes", "256" and `m` when `m` has no `-`. */
  lemma SplitAes256(m: string)
    requires '-' !in m
    ensures Text.Split("aes-256-" + m, '-') == ["aes", "256", m]
  {
    var fields := ["aes", "256", m];
    assert fields[1..] == ["256", m] && ["256", m][1..] == [m];
    assert Text.Join(["256", m], '-') == "256" + "-" + m;
    assert Text.Join(fields, '-') == "aes" + "-" + Text.Join(["256", m], '-');
    assert "aes" + "-" + ("256" + "-" + m) == "aes-256-" + m;
    Text.SplitJoin(fields, '-');
  }

  /** The shipped security strings split into "aes", "256" and the mode. */
  lemma ShippedCipherFields(s: string)
    requires s in ShippedCiphers
    ensures s[8..] in ShippedModes
    ensures Text.Split(s, '-') == ["aes", "256", s[8..]]
  {
    var m :| m in ShippedModes && s == "aes-256-" + m;
    assert s[8..] == m;
    assert '-' !in m;
    SplitAes256(m);
  }

  /** Each shipped security string parses to 256 bits and an upper-cased
      mode that is one of the engine's five. */
  lemma ShippedSecurityParses(s: string)
    requires s in ShippedCiphers
    ensures ParseSecurity(s) == Ok((256, Text.ToUpper(s[8..])))
    ensures Aes.IsMode(Text.ToUpper(s[8..]))
  {
    ShippedCipherFields(s);
    Strconv.ParseKeyLengths();
    ShippedModeUpper(s[8..]);
  }

  /** Upper-casing a shipped mode field gives the engine's mode constant. */
  lemma ShippedModeUpper(m: string)
    requires m in ShippedModes
    ensures Aes.IsMode(Text.ToUpper(m))
  {
    if m == "ecb" {
      assert Text.ToUpper(m) == Aes.ModeECB;
    } else if m == "cbc" {
      assert Text.ToUpper(m) == Aes.ModeCBC;
    } else if m == "ctr" {
      assert Text.ToUpper(m) == Aes.ModeCTR;
    } else if m == "cfb" {
      assert Text.ToUpper(m) == Aes.ModeCFB;
    } else {
      assert Text.ToUpper(m) == Aes.ModeOFB;
    }
  }

  /** With a shipped security string, any non-empty key material gives a
      32-byte key (AES-256) and a mode the engine accepts. */
  lemma ShippedCiphersDeriveAes256(conf: Config, files: map<seq<byte>, seq<byte>>)
    requires conf.security in ShippedCiphers
    requires KeyMaterial(conf, files).Ok? && |KeyMaterial(conf, files).value| > 0
    ensures DeriveKeyAndMode(conf, files).Ok?
    ensures |DeriveKeyAndMode(conf, files).value.0| == 32
    ensures Aes.IsMode(DeriveKeyAndMode(conf, files).value.1)
  {
    ShippedSecurityParses(conf.security);
    DerivedKeyShape(conf, files);
  }

  /** A security string that does not have exactly three `-`-separated
      fields aborts the run. */
  lemma WrongFieldCountRejected(fields: seq<string>)
    requires |fields| >= 1 && |fields| != 3
    requires forall i :: 0 <= i < |fields| ==> '-' !in fields[i]
    ensures ParseSecurity(Text.Join(fields, '-')) == Err(MalformedSecurity(Text.Join(fields, '-')))
  {
    Text.SplitJoin(fields, '-');
  }

  /** A key-length field that is not a decimal `int64` aborts the run. */
  lemma UnparsableKeyLengthRejected(cipher: string, bits: string, mode: string)
    requires '-' !in cipher && '-' !in bits && '-' !in mode
    requires Strconv.ParseInt(bits).Err?
    ensures ParseSecurity(Text.Join([cipher, bits, mode], '-'))
         == Err(MalformedSecurity(Text.Join([cipher, bits, mode], '-')))
  {
    Text.SplitJoin([cipher, bits, mode], '-');
  }

  /** `InitAesEncryptor`: read the key material, hex-encode it into a fresh
      buffer, parse the security string, stretch the key, upper-case the mode
      and build the engine with its IV unset. */
  method InitAesEncryptor(conf: Config, files: map<seq<byte>, seq<byte>>)
    returns (r: Result<Aes.Encryptor, InitError>)
    ensures DeriveKeyAndMode(conf, files).Err? ==> r.Err? && r.error == DeriveKeyAndMode(conf, files).error
    ensures DeriveKeyAndMode(conf, files).Ok? ==>
              && r.Ok? && fresh(r.value) && r.value.Valid() && r.value.iv == []
              && r.value.key == DeriveKeyAndMode(conf, files).value.0
              && r.value.mode == DeriveKeyAndMode(conf, files).value.1
  {
    var material := KeyMaterial(conf, files);
    if material.Err? {
      return Err(material.error);
    }
    var hexKey := new byte[Hex.EncodedLen(|material.value|)];
    Hex.EncodeInto(hexKey, material.value);
    var securities := Text.Split(conf.security, '-');
    if |securities| != 3 {
      return Err(MalformedSecurity(conf.security));
    }
    var keyLen := Strconv.ParseInt(securities[1]);
    if keyLen.Err? {
      return Err(MalformedSecurity(conf.security));
    }
    var key := Repeat(hexKey[..], GoDiv(keyLen.value, 8));
    if key.Err? {
      return Err(RepeatPanic(key.error));
    }
    var mode := Text.ToUpper(securities[2]);
    var e := new Aes.Encryptor(key.value, mode);
    return Ok(e);
  }

  /** The `crypto/cipher` constructor handed to the file-encryption library. */
  datatype StreamConstructor =
    | NewCBCEncrypter | NewCBCDecrypter | NewCFBEncrypter | NewCFBDecrypter | NewCTR | NewOFB

  /** The constructor whose stream undoes the given one: CBC and CFB have
      separate encrypter and decrypter, CTR and OFB streams undo themselves. */
  function Inverse(c: StreamConstructor): StreamConstructor {
    match c
    case NewCBCEncrypter => NewCBCDecrypter
    case NewCBCDecrypter => NewCBCEncrypter
    case NewCFBEncrypter => NewCFBDecrypter
    case NewCFBDecrypter => NewCFBEncrypter
    case NewCTR => NewCTR
    case NewOFB => NewOFB
  }

  /** The upper-cased mode field of the security string, as both cipher
      selectors compute it (no key length is parsed there). */
  function SecurityMode(conf: Config): (r: Result<Aes.Mode, InitError>)
    ensures r.Err? <==> |Text.Split(conf.security, '-')| != 3
    ensures r.Err? ==> r.error == MalformedSecurity(conf.security)
  {
    var fields := Text.Split(conf.security, '-');
    if |fields| != 3 then Err(MalformedSecurity(conf.security)) else Ok(Text.ToUpper(fields[2]))
  }

  /** The streaming modes the file-encryption path accepts. ECB is not one. */
  predicate IsStreamMode(m: Aes.Mode) {
    m == Aes.ModeCBC || m == Aes.ModeCFB || m == Aes.ModeCTR || m == Aes.ModeOFB
  }

  /** `InitEncCipher`: the encrypting constructor for CBC, CFB, CTR or OFB. */
  function InitEncCipher(conf: Config): (r: Result<StreamConstructor, InitError>)
    ensures r.Ok? <==> SecurityMode(conf).Ok? && IsStreamMode(SecurityMode(conf).value)
    ensures SecurityMode(conf).Ok? && !IsStreamMode(SecurityMode(conf).value) ==>
              r == Err(InvalidSecurityMode(conf.security))
    ensures r.Ok? ==> r.value in {NewCBCEncrypter, NewCFBEncrypter, NewCTR, NewOFB}
  {
    match SecurityMode(conf)
    case Err(e) => Err(e)
    case Ok(m) =>
      if m == Aes.ModeCBC then Ok(NewCBCEncrypter)
      else if m == Aes.ModeCFB then Ok(NewCFBEncrypter)
      else if m == Aes.ModeCTR then Ok(NewCTR)
      else if m == Aes.ModeOFB then Ok(NewOFB)
      else Err(InvalidSecurityMode(conf.security))
  }

  /** `InitDecCipher` as written: for CFB it selects the CFB *encrypter*. */
  function InitDecCipher(conf: Config): (r: Result<StreamConstructor, InitError>)
    ensures r.Ok? <==> SecurityMode(conf).Ok? && IsStreamMode(SecurityMode(conf).value)
    ensures SecurityMode(conf).Ok? && !IsStreamMode(SecurityMode(conf).value) ==>
              r == Err(InvalidSecurityMode(conf.security))
  {
    match SecurityMode(conf)
    case Err(e) => Err(e)
    case Ok(m) =>
      if m == Aes.ModeCBC then Ok(NewCBCDecrypter)
      else if m == Aes.ModeCFB then Ok(NewCFBEncrypter)
      else if m == Aes.ModeCTR then Ok(NewCTR)
      else if m == Aes.ModeOFB then Ok(NewOFB)
      else Err(InvalidSecurityMode(conf.security))
  }

  /** For CFB the decrypting side does not get the inverse of the encrypting
      side's constructor; for the other three modes it does. */
  lemma DecCipherCfbMismatch(conf: Config)
    requires InitEncCipher(conf).Ok?
    ensures InitDecCipher(conf).Ok?
    ensures (InitDecCipher(conf).value == Inverse(InitEncCipher(conf).value))
              <==> SecurityMode(conf).value != Aes.ModeCFB
  {
  }

  /** `InitDecCipher` with the CFB decrypter in the CFB branch. */
  function InitDecCipherIntended(conf: Config): (r: Result<StreamConstructor, InitError>)
    ensures r.Ok? <==> SecurityMode(conf).Ok? && IsStreamMode(SecurityMode(conf).value)
  {
    match SecurityMode(conf)
    case Err(e) => Err(e)
    case Ok(m) =>
      if m == Aes.ModeCBC then Ok(NewCBCDecrypter)
      else if m == Aes.ModeCFB then Ok(NewCFBDecrypter)
      else if m == Aes.ModeCTR then Ok(NewCTR)
      else if m == Aes.ModeOFB then Ok(NewOFB)
      else Err(InvalidSecurityMode(conf.security))
  }

  /** The corrected selector always pairs the encrypting constructor with its
      inverse, and both sides reject the same security strings. */
  lemma IntendedDecCipherInverts(conf: Config)
    ensures InitEncCipher(conf).Ok? <==> InitDecCipherIntended(conf).Ok?
    ensures InitEncCipher(conf).Ok? ==> InitDecCipherIntended(conf).value == Inverse(InitEncCipher(conf).value)
  {
  }

  /** ECB is refused by both selectors even though "aes-256-ecb" is a shipped
      security string. */
  lemma EcbRefusedBySelectors(conf: Config)
    requires conf.security in ShippedCiphers && conf.security[8..] == "ecb"
    ensures InitEncCipher(conf) == Err(InvalidSecurityMode(conf.security))
    ensures InitDecCipher(conf) == Err(InvalidSecurityMode(conf.security))
  {
    ShippedCipherFields(conf.security);
    assert Text.ToUpper("ecb") == "ECB";
  }
}
