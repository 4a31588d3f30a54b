/** Base16 with the lower-case alphabet (section 8 of RFC 4648), as Go's
    `encoding/hex` writes it: two digits per byte, high nibble first. */
module Hex {
  import opened Bytes

  /** `hextable`: the digits `0123456789abcdef` as bytes. */
  const Alphabet: seq<byte> := [48, 49, 50, 51, 52, 53, 54, 55, 56, 57, 97, 98, 99, 100, 101, 102]

  /** `hex.EncodedLen`. */
  function EncodedLen(n: nat): nat {
    n * 2
  }

  /** The two digits of one byte: `hextable[v>>4]`, `hextable[v&0x0f]`. */
  function EncodeByte(b: byte): seq<byte> {
    [Alphabet[b / 16], Alphabet[b % 16]]
  }

  /** The encoding of a whole byte sequence, byte after byte. */
  function Encode(src: seq<byte>): (r: seq<byte>)
    ensures |r| == EncodedLen(|src|)
    decreases |src|
  {
    if |src| == 0 then [] else Encode(src[..|src| - 1]) + EncodeByte(src[|src| - 1])
  }

  /** The encoding uses only `0`-`9` and the lower-case letters `a`-`f`. */
  lemma {:induction false} EncodeLowerCase(src: seq<byte>)
    ensures forall i :: 0 <= i < |Encode(src)| ==>
              48 <= Encode(src)[i] <= 57 || 97 <= Encode(src)[i] <= 102
    decreases |src|
  {
    if |src| > 0 {
      EncodeLowerCase(src[..|src| - 1]);
      var b := src[|src| - 1];
      assert b / 16 < 16 && b % 16 < 16;
    }
  }

  /** Why a byte sequence is not base16. */
  datatype HexError = ErrLength | InvalidByte(b: byte)

  /** The value of one digit; upper-case digits are accepted too. */
  function DigitValue(c: byte): (r: Result<nat, HexError>)
    ensures r.Ok? ==> r.value < 16
  {
    if 48 <= c <= 57 then Ok(c - 48)
    else if 97 <= c <= 102 then Ok(c - 87)
    else if 65 <= c <= 70 then Ok(c - 55)
    else Err(InvalidByte(c))
  }

  /** One byte from its two digits, high nibble first. */
  function DecodePair(hi: byte, lo: byte): Result<byte, HexError> {
    match DigitValue(hi)
    case Err(e) => Err(e)
    case Ok(h) =>
      match DigitValue(lo)
      case Err(e) => Err(e)
      case Ok(l) => Ok(h * 16 + l)
  }

  /** Decoding, the reference inverse of `Encode`: pairs of digits back to bytes. */
  function Decode(s: seq<byte>): Result<seq<byte>, HexError>
    decreases |s|
  {
    if |s| == 0 then Ok([])
    else if |s| == 1 then Err(ErrLength)
    else
      match Decode(s[..|s| - 2])
      case Err(e) => Err(e)
      case Ok(front) =>
        match DecodePair(s[|s| - 2], s[|s| - 1])
        case Err(e) => Err(e)
        case Ok(b) => Ok(front + [b])
  }

  /** Each digit of the alphabet has its position as its value. */
  lemma AlphabetDigit(d: nat)
    requires d < 16
    ensures DigitValue(Alphabet[d]) == Ok(d)
  {
    assert Alphabet[d] == if d < 10 then 48 + d else 87 + d;
  }

  /** The two digits of a byte decode back to it. */
  lemma DecodeEncodeByte(b: byte)
    ensures DecodePair(Alphabet[b / 16], Alphabet[b % 16]) == Ok(b)
  {
    AlphabetDigit(b / 16);
    AlphabetDigit(b % 16);
  }

  /** Decoding undoes encoding, so the encoding loses nothing. */
  lemma {:induction false} DecodeEncode(src: seq<byte>)
    ensures Decode(Encode(src)) == Ok(src)
    decreases |src|
  {
    if |src| > 0 {
      var front, b := src[..|src| - 1], src[|src| - 1];
      DecodeEncode(front);
      var e := Encode(src);
      assert e == Encode(front) + EncodeByte(b);
      assert e[..|e| - 2] == Encode(front);
      DecodeEncodeByte(b);
      assert DecodePair(e[|e| - 2], e[|e| - 1]) == Ok(b);
      assert front + [b] == src;
    }
  }

  /** `hex.Encode(dst, src)`: fills the preallocated `dst` two digits per
      source byte. */
  method EncodeInto(dst: array<byte>, src: seq<byte>)
    requires dst.Length == EncodedLen(|src|)
    modifies dst
    ensures dst[..] == Encode(src)
  {
    var i, j := 0, 1;
    while i < |src|
      invariant 0 <= i <= |src| && j == 2 * i + 1
      invariant dst[..2 * i] == Encode(src[..i])
    {
      var v := src[i];
      dst[j - 1] := Alphabet[v / 16];
      dst[j] := Alphabet[v % 16];
      assert src[..i + 1][..i] == src[..i];
      assert dst[..2 * i + 2] == dst[..2 * i] + EncodeByte(v);
      i, j := i + 1, j + 2;
    }
    assert src[..i] == src && dst[..2 * i] == dst[..];
  }
}
