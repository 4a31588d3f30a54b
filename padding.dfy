/** PKCS#7 padding (section 6.3 of RFC 5652) as `PKCS7Padding` and
    `PKCS7UnPadding` in aes/aes.go implement it. */
module Padding {
  import opened Bytes

  /** Why unpadding cannot go on: Go panics in both cases (an index or a
      slice bound out of range); the model returns the reason instead. */
  datatype UnpadError =
    | EmptyInput                                   // plaintext[length-1] with length 0
    | PaddingExceedsLength(length: nat, padding: byte)  // plaintext[:length-padding] below 0

  /** `PKCS7Padding(plaintext, blockSize)`: append `p = blockSize - len % blockSize`
      bytes, each holding `byte(p)` (Go's conversion keeps the low 8 bits). */
  function Pad(plaintext: seq<byte>, blockSize: int): (r: seq<byte>)
    requires blockSize > 0
    ensures |r| % blockSize == 0
    ensures |plaintext| < |r| <= |plaintext| + blockSize
    ensures r[..|plaintext|] == plaintext
    ensures forall i :: |plaintext| <= i < |r| ==> r[i] == (|r| - |plaintext|) % 256
  {
    var padding := blockSize - |plaintext| % blockSize;
    DivModUnique(|plaintext| + padding, blockSize, |plaintext| / blockSize + 1, 0);
    plaintext + seq(padding, _ => padding % 256)
  }

  /** `PKCS7UnPadding(plaintext)`: the last byte `p` says how many bytes to drop;
      the dropped bytes themselves are never looked at. */
  function Unpad(data: seq<byte>): (r: Result<seq<byte>, UnpadError>)
    ensures |data| == 0 ==> r == Err(EmptyInput)
    ensures |data| > 0 && data[|data| - 1] > |data| ==>
              r == Err(PaddingExceedsLength(|data|, data[|data| - 1]))
    ensures r.Ok? <==> |data| > 0 && data[|data| - 1] <= |data|
    ensures r.Ok? ==> |r.value| == |data| - data[|data| - 1] && r.value == data[..|r.value|]
  {
    if |data| == 0 then Err(EmptyInput)
    else
      var padding := data[|data| - 1];
      if padding > |data| then Err(PaddingExceedsLength(|data|, padding))
      else Ok(data[..|data| - padding])
  }

  /** When the input already fills whole blocks, a whole extra block holding
      the value `blockSize` is appended (aes/aes_test.go, case "equal-blockSize"). */
  lemma PadFullBlock(plaintext: seq<byte>, blockSize: int)
    requires 0 < blockSize < 256 && |plaintext| % blockSize == 0
    ensures Pad(plaintext, blockSize) == plaintext + seq(blockSize, _ => blockSize)
  {
    var r := Pad(plaintext, blockSize);
    assert |r| == |plaintext| + blockSize;
    var expected := plaintext + seq(blockSize, _ => blockSize);
    forall i | 0 <= i < |r| ensures r[i] == expected[i] {
      if i < |plaintext| {
        assert r[i] == r[..|plaintext|][i];
      }
    }
  }

  /** Unpadding undoes padding whenever the padding count fits in one byte. */
  lemma UnpadPad(plaintext: seq<byte>, blockSize: int)
    requires 0 < blockSize <= 255
    ensures Unpad(Pad(plaintext, blockSize)) == Ok(plaintext)
  {
    var r := Pad(plaintext, blockSize);
    assert r[|r| - 1] == |r| - |plaintext|;
  }

  /** Unpadding is permissive: inputs that differ only inside the region the
      last byte marks as padding unpad to the same result, whether or not that
      region holds a valid PKCS#7 padding. */
  lemma UnpadIgnoresPaddingValues(a: seq<byte>, b: seq<byte>)
    requires |a| == |b| > 0 && a[|a| - 1] == b[|b| - 1] <= |a|
    requires a[..|a| - a[|a| - 1]] == b[..|b| - b[|b| - 1]]
    ensures Unpad(a) == Unpad(b) && Unpad(a).Ok?
  {
  }

  /** The three padding vectors of aes/aes_test.go (block size 10). */
  lemma PadTestVectors()
    ensures Pad([1, 2, 3, 4, 5], 10) == [1, 2, 3, 4, 5, 5, 5, 5, 5, 5]
    ensures Pad([1, 2, 3, 4, 5, 10, 11, 12, 13, 14], 10)
         == [1, 2, 3, 4, 5, 10, 11, 12, 13, 14, 10, 10, 10, 10, 10, 10, 10, 10, 10, 10]
    ensures Pad([1, 2, 3, 4, 5, 10, 11, 12, 13, 14, 1, 2, 3, 4, 5], 10)
         == [1, 2, 3, 4, 5, 10, 11, 12, 13, 14, 1, 2, 3, 4, 5, 5, 5, 5, 5, 5]
  {
  }
}
