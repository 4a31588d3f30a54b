/** The `encrypt` command of crypto-cli/cmd/encrypt.go: write the IV and a
    separator, then read the input in chunks of at most 100 MiB into one
    reused buffer, encrypt each chunk with the same `Encryptor`, check that it
    decrypts back, and write each ciphertext followed by the separator.

    Files are byte sequences; reads are full (a read returns as many bytes as
    the buffer holds or the file has left). */
module EncryptCmd {
  import opened Bytes
  import Aes
  import Utils

  /** `cipherBlockSep` (crypto-cli/cmd/root.go): the ASCII bytes of
      `datacloak-cipher-block-separator`. */
  const Separator: seq<byte> :=
    [100, 97, 116, 97, 99, 108, 111, 97, 107, 45, 99, 105, 112, 104, 101, 114,
     45, 98, 108, 111, 99, 107, 45, 115, 101, 112, 97, 114, 97, 116, 111, 114]

  /** `maxLen`: 100 MiB. */
  const MaxLen: nat := 1024 * 1024 * 100

  /** The reasons the command aborts with `log.Fatalf` inside its loop. */
  datatype Fatal =
    | EncryptFailed(cause: Aes.Error)
    | DecryptFailed(cause: Aes.Error)
    | NotEqualOriginal

  /** The output written and whether the run got to the end. */
  datatype Run = Run(output: seq<byte>, status: Result<(), Fatal>)

  function Min(a: nat, b: nat): nat {
    if a <= b then a else b
  }

  /** `getLen`: the whole file when it fits in 100 MiB, else 100 MiB. */
  function ChunkSize(fLen: nat): (g: nat)
    ensures g <= MaxLen && g <= fLen
    ensures fLen > 0 ==> g > 0
  {
    if fLen > MaxLen then MaxLen else fLen
  }

  /** `forNum + 1`: the most iterations the read loop makes. */
  function LoopBound(fLen: nat): (k: nat)
    ensures k >= 1
  {
    (if fLen > MaxLen then fLen / MaxLen else 0) + 1
  }

  /** The loop bound and the chunk size together cover the whole file. */
  lemma LoopCoversFile(fLen: nat)
    ensures fLen <= LoopBound(fLen) * ChunkSize(fLen)
  {
    if fLen > MaxLen {
      var q := fLen / MaxLen;
      assert fLen == q * MaxLen + fLen % MaxLen;
      assert LoopBound(fLen) * ChunkSize(fLen) == q * MaxLen + MaxLen;
    }
  }

  /** Consecutive pieces of `data`, each `size` bytes except a shorter last one. */
  function Chunks(data: seq<byte>, size: nat): (r: seq<seq<byte>>)
    requires size > 0
    ensures forall i :: 0 <= i < |r| ==> 0 < |r[i]| <= size
    decreases |data|
  {
    if |data| == 0 then []
    else
      var n := Min(size, |data|);
      [data[..n]] + Chunks(data[n..], size)
  }

  /** The pieces laid end to end. */
  function Flatten(pieces: seq<seq<byte>>): seq<byte>
    decreases |pieces|
  {
    if |pieces| == 0 then [] else pieces[0] + Flatten(pieces[1..])
  }

  /** Chunking loses nothing and reorders nothing. */
  lemma {:induction false} FlattenChunks(data: seq<byte>, size: nat)
    requires size > 0
    ensures Flatten(Chunks(data, size)) == data
    decreases |data|
  {
    if |data| > 0 {
      var n := Min(size, |data|);
      FlattenChunks(data[n..], size);
      assert Chunks(data, size)[1..] == Chunks(data[n..], size);
      assert data[..n] + data[n..] == data;
    }
  }

  /** For `|data| == q * size + r` with `r < size`: `q` full chunks, then one of
      `r` bytes when `r > 0`. */
  lemma {:induction false} ChunksShape(data: seq<byte>, size: nat, q: nat, r: nat)
    requires size > 0 && r < size && |data| == q * size + r
    ensures |Chunks(data, size)| == q + (if r > 0 then 1 else 0)
    ensures forall i :: 0 <= i < q ==> |Chunks(data, size)[i]| == size
    ensures r > 0 ==> |Chunks(data, size)[q]| == r
    decreases q
  {
    if q > 0 {
      assert q * size == (q - 1) * size + size;
      ChunksShape(data[size..], size, q - 1, r);
      var c := Chunks(data, size);
      assert c[1..] == Chunks(data[size..], size);
    }
  }

  /** Rounding `q * d + r` up to a multiple of `d`. */
  lemma CeilDiv(x: nat, d: nat, q: nat, r: nat)
    requires d > 0 && r < d && x == q * d + r
    ensures (x + d - 1) / d == q + (if r > 0 then 1 else 0)
  {
    if r > 0 {
      assert (q + 1) * d == q * d + d;
      DivModUnique(x + d - 1, d, q + 1, r - 1);
    } else {
      DivModUnique(x + d - 1, d, q, d - 1);
    }
  }

  /** The number of chunks is `ceil(|data| / size)`. */
  lemma ChunkCount(data: seq<byte>, size: nat)
    requires size > 0
    ensures |Chunks(data, size)| == (|data| + size - 1) / size
  {
    var q, r := |data| / size, |data| % size;
    assert |data| == q * size + r;
    ChunksShape(data, size, q, r);
    CeilDiv(|data|, size, q, r);
  }

  /** The input file, read front to back (`os.File.Read` with full reads). */
  class FileReader {
    const data: seq<byte>
    var pos: nat

    ghost predicate Valid()
      reads this
    {
      pos <= |data|
    }

    constructor (data: seq<byte>)
      ensures Valid() && this.data == data && pos == 0
    {
      this.data := data;
      pos := 0;
    }

    /** A read into an empty buffer returns nothing and no EOF; at the end
        of the file it returns EOF; otherwise it fills the front of `buf`
        with the next bytes. */
    method Read(buf: array<byte>) returns (n: nat, eof: bool)
      requires Valid()
      modifies this`pos, buf
      ensures Valid()
      ensures buf.Length == 0 ==> n == 0 && !eof && pos == old(pos)
      ensures buf.Length > 0 && old(pos) == |data| ==> n == 0 && eof && pos == old(pos)
      ensures buf.Length > 0 && old(pos) < |data| ==> !eof
      ensures !eof ==> n == Min(buf.Length, |data| - old(pos)) && pos == old(pos) + n
      ensures !eof ==> buf[..n] == data[old(pos)..pos]
    {
      if buf.Length == 0 {
        return 0, false;
      }
      if pos == |data| {
        return 0, true;
      }
      n := Min(buf.Length, |data| - pos);
      CopyAt(buf, 0, data[pos..pos + n]);
      pos := pos + n;
      eof := false;
    }
  }

  /** The chunks the read loop hands on: at most `k` reads of up to `g` bytes
      from `rest`, stopping at EOF (an empty buffer never reaches EOF). */
  function ReadLoop(rest: seq<byte>, g: nat, k: nat): seq<seq<byte>>
    decreases k
  {
    if k == 0 || (g > 0 && |rest| == 0) then []
    else
      var n := Min(g, |rest|);
      [rest[..n]] + ReadLoop(rest[n..], g, k - 1)
  }

  /** With enough iterations the loop reads exactly the chunks of the input. */
  lemma {:induction false} ReadLoopIsChunks(rest: seq<byte>, g: nat, k: nat)
    requires g > 0 && |rest| <= k * g
    ensures ReadLoop(rest, g, k) == Chunks(rest, g)
    decreases k
  {
    if |rest| > 0 {
      var n := Min(g, |rest|);
      assert k * g == (k - 1) * g + g;
      ReadLoopIsChunks(rest[n..], g, k - 1);
    }
  }

  /** What the loop reads from the whole input: its chunks, or one empty
      chunk for an empty file (a zero-length buffer never sees EOF). */
  lemma ReadChunksOfInput(input: seq<byte>)
    ensures |input| == 0 ==> ReadLoop(input, ChunkSize(|input|), LoopBound(|input|)) == [[]]
    ensures |input| > 0 ==>
              ReadLoop(input, ChunkSize(|input|), LoopBound(|input|)) == Chunks(input, ChunkSize(|input|))
  {
    if |input| > 0 {
      LoopCoversFile(|input|);
      ReadLoopIsChunks(input, ChunkSize(|input|), LoopBound(|input|));
    }
  }

  /** A key, IV and mode with which the engine encrypts and decrypts. */
  predicate Ready(key: seq<byte>, iv: seq<byte>, mode: Aes.Mode) {
    Aes.ValidKeySize(|key|) && Aes.IsMode(mode) && |iv| >= Aes.BlockSize
  }

  /** One loop iteration after the read, as written: encrypt, decrypt, and
      compare with the whole buffer of `bufLen` bytes. Decryption gives the
      chunk back (`StepCases`), so the comparison succeeds exactly when the
      chunk fills the buffer. */
  function Step(lib: Aes.Library, key: seq<byte>, iv: seq<byte>, mode: Aes.Mode, bufLen: nat, chunk: seq<byte>)
    : Result<seq<byte>, Fatal>
    requires lib.Valid()
  {
    match Aes.EncryptResult(lib, key, iv, mode, chunk)
    case Err(e) => Err(EncryptFailed(e))
    case Ok(ciphertext) =>
      match Aes.DecryptResult(lib, key, iv, mode, ciphertext)
      case Err(e) => Err(DecryptFailed(e))
      case Ok(_) => if |chunk| != bufLen then Err(NotEqualOriginal) else Ok(ciphertext)
  }

  /** One iteration with the self-check comparing the decryption with the
      bytes read, `cipherBuf[:n]`. */
  function IntendedStep(lib: Aes.Library, key: seq<byte>, iv: seq<byte>, mode: Aes.Mode, chunk: seq<byte>)
    : Result<seq<byte>, Fatal>
    requires lib.Valid()
  {
    match Aes.EncryptResult(lib, key, iv, mode, chunk)
    case Err(e) => Err(EncryptFailed(e))
    case Ok(ciphertext) =>
      match Aes.DecryptResult(lib, key, iv, mode, ciphertext)
      case Err(e) => Err(DecryptFailed(e))
      case Ok(plaintext) => if plaintext != chunk then Err(NotEqualOriginal) else Ok(ciphertext)
  }

  /** The outcomes of one iteration, in the order the loop meets them: when
      both directions succeed the key, IV and mode work and decryption gives
      the chunk back. */
  lemma StepCases(lib: Aes.Library, key: seq<byte>, iv: seq<byte>, mode: Aes.Mode, bufLen: nat, chunk: seq<byte>)
    requires lib.Valid()
    ensures var e := Aes.EncryptResult(lib, key, iv, mode, chunk);
            && (e.Err? ==> Step(lib, key, iv, mode, bufLen, chunk) == Err(EncryptFailed(e.error)))
            && (e.Ok? && Aes.DecryptResult(lib, key, iv, mode, e.value).Err? ==>
                  Step(lib, key, iv, mode, bufLen, chunk) == Err(DecryptFailed(Aes.DecryptResult(lib, key, iv, mode, e.value).error)))
            && (e.Ok? && Aes.DecryptResult(lib, key, iv, mode, e.value).Ok? ==>
                  && Ready(key, iv, mode)
                  && Aes.DecryptResult(lib, key, iv, mode, e.value).value == chunk
                  && Step(lib, key, iv, mode, bufLen, chunk) == if |chunk| == bufLen then Ok(e.value) else Err(NotEqualOriginal))
  {
    var e := Aes.EncryptResult(lib, key, iv, mode, chunk);
    if e.Ok? && Aes.DecryptResult(lib, key, iv, mode, e.value).Ok? {
      Aes.EncryptDecryptRoundTrip(lib, key, iv, mode, chunk);
    }
  }

  /** A chunk that fills the buffer passes the self-check and gives its
      encryption; any other chunk fails it. */
  lemma StepFullChunk(lib: Aes.Library, key: seq<byte>, iv: seq<byte>, mode: Aes.Mode, bufLen: nat, chunk: seq<byte>)
    requires lib.Valid() && Ready(key, iv, mode)
    ensures Aes.EncryptResult(lib, key, iv, mode, chunk).Ok?
    ensures |chunk| == bufLen ==>
              Step(lib, key, iv, mode, bufLen, chunk) == Ok(Aes.EncryptResult(lib, key, iv, mode, chunk).value)
    ensures |chunk| != bufLen ==> Step(lib, key, iv, mode, bufLen, chunk) == Err(NotEqualOriginal)
  {
    Aes.EncryptDecryptRoundTrip(lib, key, iv, mode, chunk);
  }

  /** With a working key, IV and mode the corrected step always succeeds. */
  lemma IntendedStepSucceeds(lib: Aes.Library, key: seq<byte>, iv: seq<byte>, mode: Aes.Mode, chunk: seq<byte>)
    requires lib.Valid() && Ready(key, iv, mode)
    ensures Aes.EncryptResult(lib, key, iv, mode, chunk).Ok?
    ensures IntendedStep(lib, key, iv, mode, chunk) == Ok(Aes.EncryptResult(lib, key, iv, mode, chunk).value)
  {
    Aes.EncryptDecryptRoundTrip(lib, key, iv, mode, chunk);
  }

  /** Each iteration's outcome, as written, for the chunks read. */
  function Outcomes(lib: Aes.Library, key: seq<byte>, iv: seq<byte>, mode: Aes.Mode, bufLen: nat, chunks: seq<seq<byte>>)
    : (r: seq<Result<seq<byte>, Fatal>>)
    requires lib.Valid()
    ensures |r| == |chunks|
  {
    seq(|chunks|, i requires 0 <= i < |chunks| => Step(lib, key, iv, mode, bufLen, chunks[i]))
  }

  /** Each iteration's outcome, corrected, for the chunks read. */
  function IntendedOutcomes(lib: Aes.Library, key: seq<byte>, iv: seq<byte>, mode: Aes.Mode, chunks: seq<seq<byte>>)
    : (r: seq<Result<seq<byte>, Fatal>>)
    requires lib.Valid()
    ensures |r| == |chunks|
  {
    seq(|chunks|, i requires 0 <= i < |chunks| => IntendedStep(lib, key, iv, mode, chunks[i]))
  }

  /** `run` with `prefix` written before it. */
  function Prepend(prefix: seq<byte>, run: Run): Run {
    Run(prefix + run.output, run.status)
  }

  /** Writing `a` and then `b` in front of a run writes `a + b`. */
  lemma PrependTwice(a: seq<byte>, b: seq<byte>, run: Run)
    ensures Prepend(a, Prepend(b, run)) == Prepend(a + b, run)
  {
    assert a + (b + run.output) == (a + b) + run.output;
  }

  /** Writing `a` in front of a run that wrote nothing. */
  lemma PrependNothing(a: seq<byte>, status: Result<(), Fatal>)
    ensures Prepend(a, Run([], status)) == Run(a, status)
  {
    assert a + [] == a;
  }

  /** What the loop writes for the iterations' outcomes: each record followed
      by the separator, up to the first fatal error. */
  function Emit(outcomes: seq<Result<seq<byte>, Fatal>>): Run
    decreases |outcomes|
  {
    if |outcomes| == 0 then Run([], Ok(()))
    else
      match outcomes[0]
      case Err(f) => Run([], Err(f))
      case Ok(record) => Prepend(record + Separator, Emit(outcomes[1..]))
  }

  /** Each record followed by the separator. */
  function Frame(records: seq<seq<byte>>): seq<byte>
    decreases |records|
  {
    if |records| == 0 then [] else records[0] + Separator + Frame(records[1..])
  }

  /** When every iteration succeeds, every record is written, in order. */
  lemma {:induction false} EmitAllOk(outcomes: seq<Result<seq<byte>, Fatal>>, records: seq<seq<byte>>)
    requires |outcomes| == |records|
    requires forall i :: 0 <= i < |outcomes| ==> outcomes[i] == Ok(records[i])
    ensures Emit(outcomes) == Run(Frame(records), Ok(()))
    decreases |outcomes|
  {
    if |outcomes| > 0 {
      EmitAllOk(outcomes[1..], records[1..]);
    }
  }

  /** The first failing iteration ends the run with its error, after the
      records of the iterations before it. */
  lemma {:induction false} EmitFirstErr(outcomes: seq<Result<seq<byte>, Fatal>>, records: seq<seq<byte>>, f: Fatal)
    requires |records| < |outcomes| && outcomes[|records|] == Err(f)
    requires forall i :: 0 <= i < |records| ==> outcomes[i] == Ok(records[i])
    ensures Emit(outcomes) == Run(Frame(records), Err(f))
    decreases |records|
  {
    if |records| > 0 {
      EmitFirstErr(outcomes[1..], records[1..], f);
    }
  }

  /** What the read loop as written writes from the unread bytes `rest` with
      at most `k` iterations left: the outcomes of the chunks it reads, each
      record followed by the separator, up to the first fatal error. */
  function Remaining(lib: Aes.Library, key: seq<byte>, iv: seq<byte>, mode: Aes.Mode, g: nat, rest: seq<byte>, k: nat): Run
    requires lib.Valid()
  {
    Emit(Outcomes(lib, key, iv, mode, g, ReadLoop(rest, g, k)))
  }

  /** The whole run of `encrypt` as written on an input file: the IV, the
      separator, then the loop's output. */
  function EncryptFileSpec(lib: Aes.Library, key: seq<byte>, iv: seq<byte>, mode: Aes.Mode, input: seq<byte>): Run
    requires lib.Valid()
  {
    Prepend(iv + Separator, Remaining(lib, key, iv, mode, ChunkSize(|input|), input, LoopBound(|input|)))
  }

  /** The outcomes of the chunks read: the first read's, then the rest's. */
  lemma OutcomesOfRead(lib: Aes.Library, key: seq<byte>, iv: seq<byte>, mode: Aes.Mode, g: nat, rest: seq<byte>, k: nat)
    requires lib.Valid() && k > 0 && (g == 0 || |rest| > 0)
    ensures var n := Min(g, |rest|);
            Outcomes(lib, key, iv, mode, g, ReadLoop(rest, g, k))
            == [Step(lib, key, iv, mode, g, rest[..n])] + Outcomes(lib, key, iv, mode, g, ReadLoop(rest[n..], g, k - 1))
  {
  }

  /** The loop's output for one more outcome in front of `rest`. */
  lemma EmitNext(outcome: Result<seq<byte>, Fatal>, rest: seq<Result<seq<byte>, Fatal>>)
    ensures outcome.Ok? ==> Emit([outcome] + rest) == Prepend(outcome.value + Separator, Emit(rest))
    ensures outcome.Err? ==> Emit([outcome] + rest) == Run([], Err(outcome.error))
  {
    assert ([outcome] + rest)[1..] == rest;
  }

  /** One iteration of the loop: EOF ends it, a fatal error ends it with
      nothing more written, and a record comes before the remaining
      iterations' output. */
  lemma RemainingStep(lib: Aes.Library, key: seq<byte>, iv: seq<byte>, mode: Aes.Mode, g: nat, rest: seq<byte>, k: nat)
    requires lib.Valid() && k > 0
    ensures g > 0 && |rest| == 0 ==> Remaining(lib, key, iv, mode, g, rest, k) == Run([], Ok(()))
    ensures g == 0 || |rest| > 0 ==>
              var n := Min(g, |rest|);
              var o := Step(lib, key, iv, mode, g, rest[..n]);
              && (o.Err? ==> Remaining(lib, key, iv, mode, g, rest, k) == Run([], Err(o.error)))
              && (o.Ok? ==> Remaining(lib, key, iv, mode, g, rest, k)
                            == Prepend(o.value + Separator, Remaining(lib, key, iv, mode, g, rest[n..], k - 1)))
  {
    if g == 0 || |rest| > 0 {
      var n := Min(g, |rest|);
      OutcomesOfRead(lib, key, iv, mode, g, rest, k);
      EmitNext(Step(lib, key, iv, mode, g, rest[..n]), Outcomes(lib, key, iv, mode, g, ReadLoop(rest[n..], g, k - 1)));
    }
  }

  /** The corrected run of `encrypt` on an input file. */
  function IntendedEncryptFile(lib: Aes.Library, key: seq<byte>, iv: seq<byte>, mode: Aes.Mode, input: seq<byte>): Run
    requires lib.Valid()
  {
    var g := ChunkSize(|input|);
    Prepend(iv + Separator, Emit(IntendedOutcomes(lib, key, iv, mode, ReadLoop(input, g, LoopBound(|input|)))))
  }

  /** The body of one iteration after the read: encrypt the `n` bytes read
      into `buf`, decrypt the result, and compare it with all of `buf`. */
  method SealChunk(lib: Aes.Library, enc: Aes.Encryptor, buf: array<byte>, n: nat) returns (r: Result<seq<byte>, Fatal>)
    requires lib.Valid() && n <= buf.Length
    ensures r == Step(lib, enc.key, enc.iv, enc.mode, buf.Length, buf[..n])
  {
    var chunk := buf[..n];
    StepCases(lib, enc.key, enc.iv, enc.mode, buf.Length, chunk);
    var ciphertext := enc.Encrypt(lib, chunk);
    if ciphertext.Err? {
      return Err(EncryptFailed(ciphertext.error));
    }
    var plaintext := enc.Decrypt(lib, ciphertext.value);
    if plaintext.Err? {
      return Err(DecryptFailed(plaintext.error));
    }
    assert plaintext.value == buf[..] <==> n == buf.Length by {
      if n == buf.Length {
        assert buf[..] == buf[..n];
      }
    }
    if plaintext.value != buf[..] {
      return Err(NotEqualOriginal);
    }
    return Ok(ciphertext.value);
  }

  /** One pass of the loop body: read into `buf`, stop at EOF, else seal the
      bytes read. `rem` is what the loop's remaining `k + 1` iterations
      write and `next` what the `k` after this one write: EOF ends the loop,
      a fatal error ends it, and a record comes before `next`. */
  method NextRecord(lib: Aes.Library, enc: Aes.Encryptor, reader: FileReader, buf: array<byte>,
                    ghost key: seq<byte>, ghost iv: seq<byte>, ghost mode: Aes.Mode, ghost k: nat, ghost rem: Run)
    returns (eof: bool, record: Result<seq<byte>, Fatal>, ghost next: Run)
    requires lib.Valid() && reader.Valid()
    requires enc.key == key && enc.iv == iv && enc.mode == mode
    requires rem == Remaining(lib, key, iv, mode, buf.Length, reader.data[reader.pos..], k + 1)
    modifies reader, buf
    ensures reader.Valid()
    ensures next == Remaining(lib, key, iv, mode, buf.Length, reader.data[reader.pos..], k)
    ensures eof ==> rem == Run([], Ok(()))
    ensures !eof && record.Err? ==> rem == Run([], Err(record.error))
    ensures !eof && record.Ok? ==> rem == Prepend(record.value + Separator, next)
  {
    ghost var pos := reader.pos;
    RemainingStep(lib, key, iv, mode, buf.Length, reader.data[pos..], k + 1);
    var n;
    n, eof := reader.Read(buf);
    next := Remaining(lib, key, iv, mode, buf.Length, reader.data[reader.pos..], k);
    if eof {
      return eof, Ok([]), next;
    }
    ghost var rest := reader.data[pos..];
    assert rest[..n] == buf[..n] && rest[n..] == reader.data[reader.pos..];
    record := SealChunk(lib, enc, buf, n);
  }

  /** `encrypt`: the header, then the read-encrypt-check-write loop over the
      reused buffer `cipherBuf`. On a fatal error what was already written
      stays in the output. */
  method EncryptFile(lib: Aes.Library, enc: Aes.Encryptor, input: seq<byte>) returns (written: seq<byte>, r: Result<(), Fatal>)
    requires lib.Valid() && enc.Valid()
    ensures Run(written, r) == EncryptFileSpec(lib, enc.key, enc.iv, enc.mode, input)
  {
    ghost var key, iv, mode := enc.key, enc.iv, enc.mode;
    var reader := new FileReader(input);
    written := enc.GetIV() + Separator;
    var fLen := |input|;
    var getLen := ChunkSize(fLen);
    var forNum := LoopBound(fLen) - 1;
    var cipherBuf := new byte[getLen];
    ghost var spec := EncryptFileSpec(lib, key, iv, mode, input);
    assert input[reader.pos..] == input;
    ghost var left: nat := forNum + 1;
    ghost var rem := Remaining(lib, key, iv, mode, getLen, input, left);
    var i := 0;
    while i < forNum + 1
      invariant 0 <= i <= forNum + 1
      invariant reader.Valid() && reader.data == input && cipherBuf.Length == getLen
      invariant left == forNum + 1 - i
      invariant rem == Remaining(lib, key, iv, mode, cipherBuf.Length, reader.data[reader.pos..], left)
      invariant spec == Prepend(written, rem)
    {
      var eof, record, next := NextRecord(lib, enc, reader, cipherBuf, key, iv, mode, left - 1, rem);
      if eof {
        Stop(spec, written, rem, Ok(()));
        r := Ok(());
        return;
      }
      if record.Err? {
        Stop(spec, written, rem, Err(record.error));
        r := Err(record.error);
        return;
      }
      Advance(spec, written, rem, record.value + Separator, next);
      written := written + (record.value + Separator);
      rem, left := next, left - 1;
      i := i + 1;
    }
    assert rem == Run([], Ok(()));
    Stop(spec, written, rem, Ok(()));
    r := Ok(());
  }

  /** The loop's invariant across one written record. */
  lemma Advance(spec: Run, written: seq<byte>, rem: Run, record: seq<byte>, next: Run)
    requires spec == Prepend(written, rem) && rem == Prepend(record, next)
    ensures spec == Prepend(written + record, next)
  {
    PrependTwice(written, record, next);
  }

  /** The loop's invariant when it stops: what was written is the whole run. */
  lemma Stop(spec: Run, written: seq<byte>, rem: Run, status: Result<(), Fatal>)
    requires spec == Prepend(written, rem) && rem == Run([], status)
    ensures spec == Run(written, status)
  {
    PrependNothing(written, status);
  }

  /** The records for `chunks`: every chunk encrypted under the same key, IV
      and mode. */
  function Records(lib: Aes.Library, key: seq<byte>, iv: seq<byte>, mode: Aes.Mode, chunks: seq<seq<byte>>)
    : (r: seq<seq<byte>>)
    requires lib.Valid() && Ready(key, iv, mode)
    ensures |r| == |chunks|
  {
    seq(|chunks|, i requires 0 <= i < |chunks| => Aes.EncryptResult(lib, key, iv, mode, chunks[i]).value)
  }

  /** The IV is reused: equal chunks give byte-identical records. */
  lemma SameChunkSameRecord(lib: Aes.Library, key: seq<byte>, iv: seq<byte>, mode: Aes.Mode,
                            chunks: seq<seq<byte>>, i: nat, j: nat)
    requires lib.Valid() && Ready(key, iv, mode)
    requires i < |chunks| && j < |chunks| && chunks[i] == chunks[j]
    ensures Records(lib, key, iv, mode, chunks)[i] == Records(lib, key, iv, mode, chunks)[j]
  {
  }

  /** The as-written outcomes of chunks that all fill the buffer are their
      records. */
  lemma FullChunksOutcomes(lib: Aes.Library, key: seq<byte>, iv: seq<byte>, mode: Aes.Mode,
                           bufLen: nat, chunks: seq<seq<byte>>)
    requires lib.Valid() && Ready(key, iv, mode)
    ensures forall i :: 0 <= i < |chunks| && |chunks[i]| == bufLen ==>
              Outcomes(lib, key, iv, mode, bufLen, chunks)[i] == Ok(Records(lib, key, iv, mode, chunks)[i])
    ensures forall i :: 0 <= i < |chunks| && |chunks[i]| != bufLen ==>
              Outcomes(lib, key, iv, mode, bufLen, chunks)[i] == Err(NotEqualOriginal)
  {
    forall i | 0 <= i < |chunks|
      ensures |chunks[i]| == bufLen ==>
                Outcomes(lib, key, iv, mode, bufLen, chunks)[i] == Ok(Records(lib, key, iv, mode, chunks)[i])
      ensures |chunks[i]| != bufLen ==> Outcomes(lib, key, iv, mode, bufLen, chunks)[i] == Err(NotEqualOriginal)
    {
      StepFullChunk(lib, key, iv, mode, bufLen, chunks[i]);
    }
  }

  /** As written, chunks that all fill the buffer are all written. */
  lemma FullChunksEmit(lib: Aes.Library, key: seq<byte>, iv: seq<byte>, mode: Aes.Mode,
                       bufLen: nat, chunks: seq<seq<byte>>)
    requires lib.Valid() && Ready(key, iv, mode)
    requires forall i :: 0 <= i < |chunks| ==> |chunks[i]| == bufLen
    ensures Emit(Outcomes(lib, key, iv, mode, bufLen, chunks)) == Run(Frame(Records(lib, key, iv, mode, chunks)), Ok(()))
  {
    FullChunksOutcomes(lib, key, iv, mode, bufLen, chunks);
    EmitAllOk(Outcomes(lib, key, iv, mode, bufLen, chunks), Records(lib, key, iv, mode, chunks));
  }

  /** As written, a loop whose every read fills the buffer writes every
      record. */
  lemma RemainingAllFull(lib: Aes.Library, key: seq<byte>, iv: seq<byte>, mode: Aes.Mode, g: nat, rest: seq<byte>, k: nat)
    requires lib.Valid() && Ready(key, iv, mode)
    requires forall i :: 0 <= i < |ReadLoop(rest, g, k)| ==> |ReadLoop(rest, g, k)[i]| == g
    ensures Remaining(lib, key, iv, mode, g, rest, k) == Run(Frame(Records(lib, key, iv, mode, ReadLoop(rest, g, k))), Ok(()))
  {
    FullChunksEmit(lib, key, iv, mode, g, ReadLoop(rest, g, k));
  }

  /** A file whose length is at most 100 MiB or a multiple of it is read in
      chunks that all fill the buffer. */
  lemma FullReads(input: seq<byte>)
    requires |input| <= MaxLen || |input| % MaxLen == 0
    ensures var chunks := ReadLoop(input, ChunkSize(|input|), LoopBound(|input|));
            forall i :: 0 <= i < |chunks| ==> |chunks[i]| == ChunkSize(|input|)
  {
    var g := ChunkSize(|input|);
    ReadChunksOfInput(input);
    if |input| > MaxLen {
      var q := |input| / MaxLen;
      assert |input| == q * MaxLen;
      ChunksShape(input, g, q, 0);
    } else if |input| > 0 {
      ChunksShape(input, g, 1, 0);
    }
  }

  /** As written, a file whose length is at most 100 MiB or a multiple of it is
      encrypted in full: the IV, the separator, then the record of every chunk
      read (`ReadCoversInput` says what those chunks are). */
  lemma EncryptFileCompletes(lib: Aes.Library, key: seq<byte>, iv: seq<byte>, mode: Aes.Mode, input: seq<byte>)
    requires lib.Valid() && Ready(key, iv, mode)
    requires |input| <= MaxLen || |input| % MaxLen == 0
    ensures EncryptFileSpec(lib, key, iv, mode, input)
         == Run(iv + Separator + Frame(Records(lib, key, iv, mode, ReadLoop(input, ChunkSize(|input|), LoopBound(|input|)))), Ok(()))
  {
    FullReads(input);
    RemainingAllFull(lib, key, iv, mode, ChunkSize(|input|), input, LoopBound(|input|));
  }

  /** As written, a file longer than 100 MiB whose length is not a multiple of
      100 MiB aborts at its last chunk: the self-check compares that short
      chunk with the whole buffer. Only the full chunks' records are written. */
  lemma ShortLastChunkAborts(lib: Aes.Library, key: seq<byte>, iv: seq<byte>, mode: Aes.Mode, input: seq<byte>)
    requires lib.Valid() && Ready(key, iv, mode)
    requires |input| > MaxLen && |input| % MaxLen != 0
    ensures |Chunks(input, MaxLen)| == |input| / MaxLen + 1
    ensures EncryptFileSpec(lib, key, iv, mode, input)
         == Run(iv + Separator + Frame(Records(lib, key, iv, mode, Chunks(input, MaxLen)[..|input| / MaxLen])),
                Err(NotEqualOriginal))
  {
    var q := |input| / MaxLen;
    var chunks := Chunks(input, MaxLen);
    ReadChunksOfInput(input);
    ChunksShape(input, MaxLen, q, |input| % MaxLen);
    FullChunksOutcomes(lib, key, iv, mode, MaxLen, chunks);
    var records := Records(lib, key, iv, mode, chunks[..q]);
    assert forall i :: 0 <= i < q ==> records[i] == Records(lib, key, iv, mode, chunks)[i];
    EmitFirstErr(Outcomes(lib, key, iv, mode, MaxLen, chunks), records, NotEqualOriginal);
  }

  /** The corrected loop writes the record of every chunk it reads. */
  lemma IntendedEmitAll(lib: Aes.Library, key: seq<byte>, iv: seq<byte>, mode: Aes.Mode, chunks: seq<seq<byte>>)
    requires lib.Valid() && Ready(key, iv, mode)
    ensures Emit(IntendedOutcomes(lib, key, iv, mode, chunks)) == Run(Frame(Records(lib, key, iv, mode, chunks)), Ok(()))
  {
    forall i | 0 <= i < |chunks|
      ensures IntendedOutcomes(lib, key, iv, mode, chunks)[i] == Ok(Records(lib, key, iv, mode, chunks)[i])
    {
      IntendedStepSucceeds(lib, key, iv, mode, chunks[i]);
    }
    EmitAllOk(IntendedOutcomes(lib, key, iv, mode, chunks), Records(lib, key, iv, mode, chunks));
  }

  /** The chunks read from a file make it up, and there are
      `ceil(|input| / getLen)` of them (one empty chunk for an empty file). */
  lemma ReadCoversInput(input: seq<byte>)
    ensures var chunks := ReadLoop(input, ChunkSize(|input|), LoopBound(|input|));
            && chunks == (if |input| == 0 then [[]] else Chunks(input, ChunkSize(|input|)))
            && Flatten(chunks) == input
            && (|input| > 0 ==> |chunks| == (|input| + ChunkSize(|input|) - 1) / ChunkSize(|input|))
  {
    ReadChunksOfInput(input);
    if |input| > 0 {
      FlattenChunks(input, ChunkSize(|input|));
      ChunkCount(input, ChunkSize(|input|));
    } else {
      assert Flatten([[]]) == [];
    }
  }

  /** Corrected, every input is encrypted in full: one record per chunk, in
      read order. */
  lemma IntendedEncryptFileFrames(lib: Aes.Library, key: seq<byte>, iv: seq<byte>, mode: Aes.Mode, input: seq<byte>)
    requires lib.Valid() && Ready(key, iv, mode)
    ensures var chunks := if |input| == 0 then [[]] else Chunks(input, ChunkSize(|input|));
            IntendedEncryptFile(lib, key, iv, mode, input)
            == Run(iv + Separator + Frame(Records(lib, key, iv, mode, chunks)), Ok(()))
  {
    ReadChunksOfInput(input);
    IntendedEmitAll(lib, key, iv, mode, ReadLoop(input, ChunkSize(|input|), LoopBound(|input|)));
  }

  /** A 250 MiB file: three chunks; as written two records then an abort,
      corrected three records. */
  lemma File250MiB(lib: Aes.Library, key: seq<byte>, iv: seq<byte>, mode: Aes.Mode, input: seq<byte>)
    requires lib.Valid() && Ready(key, iv, mode)
    requires |input| == 250 * 1024 * 1024
    ensures |Chunks(input, MaxLen)| == 3
    ensures EncryptFileSpec(lib, key, iv, mode, input).status == Err(NotEqualOriginal)
    ensures EncryptFileSpec(lib, key, iv, mode, input).output
         == iv + Separator + Frame(Records(lib, key, iv, mode, Chunks(input, MaxLen)[..2]))
    ensures IntendedEncryptFile(lib, key, iv, mode, input)
         == Run(iv + Separator + Frame(Records(lib, key, iv, mode, Chunks(input, MaxLen))), Ok(()))
  {
    DivModUnique(|input|, MaxLen, 2, 50 * 1024 * 1024);
    ShortLastChunkAborts(lib, key, iv, mode, input);
    IntendedEncryptFileFrames(lib, key, iv, mode, input);
  }

  /** `initEncryptor`: derive the engine from the configuration and give it the
      16 bytes drawn from the random source (a parameter here). */
  method InitEncryptor(conf: Utils.Config, files: map<seq<byte>, seq<byte>>, random: seq<byte>)
    returns (r: Result<Aes.Encryptor, Utils.InitError>)
    requires |random| == Aes.BlockSize
    ensures Utils.DeriveKeyAndMode(conf, files).Err? ==> r.Err? && r.error == Utils.DeriveKeyAndMode(conf, files).error
    ensures Utils.DeriveKeyAndMode(conf, files).Ok? ==>
              && r.Ok? && fresh(r.value) && r.value.Valid() && r.value.iv == random
              && r.value.key == Utils.DeriveKeyAndMode(conf, files).value.0
              && r.value.mode == Utils.DeriveKeyAndMode(conf, files).value.1
  {
    r := Utils.InitAesEncryptor(conf, files);
    if r.Ok? {
      var _ := r.value.SetIV(random);
      assert random[..Aes.BlockSize] == random;
    }
  }

  /** `moveOutputFile`: the name the temporary output is renamed to. */
  function OutputTarget(conf: Utils.Config): (target: string)
    ensures target == conf.out || target == conf.file
    ensures target == conf.file <== conf.out == ""
    ensures conf.out != "" ==> target == conf.out
  {
    if conf.out != "" then conf.out else conf.file
  }
}
