/** The `decrypt` command of crypto-cli/cmd/decrypt.go: the file is read as
    `'\n'`-terminated records, the first record (the IV line) is skipped, every
    later record loses its `'\n'` and is decrypted, and the plaintexts are
    written in order; a decryption error aborts the run. `initDecryptor` takes
    the IV from the first 16 bytes of the file. */
module DecryptCmd {
  import opened Bytes
  import Aes
  import Utils
  import EncryptCmd

  /** The delimiter handed to `ReadBytes`. */
  const Newline: byte := 10

  /** What the run wrote and how it ended: `Ok` at EOF, or the error that
      made it abort (`log.Fatalf`). */
  datatype Run = Run(output: seq<byte>, status: Result<(), Aes.Error>)

  /** `run` with `prefix` written before it. */
  function Prepend(prefix: seq<byte>, run: Run): Run {
    Run(prefix + run.output, run.status)
  }

  /** The position of the first `'\n'` in `s`, or `|s|` when there is none. */
  function IndexOfNewline(s: seq<byte>): (i: nat)
    ensures i <= |s|
    ensures i < |s| ==> s[i] == Newline
    ensures forall j :: 0 <= j < i ==> s[j] != Newline
    decreases |s|
  {
    if |s| == 0 || s[0] == Newline then 0 else 1 + IndexOfNewline(s[1..])
  }

  /** A record as `ReadBytes('\n')` returns it before EOF: bytes without a
      `'\n'`, then the `'\n'`. */
  predicate IsLine(l: seq<byte>) {
    |l| > 0 && l[|l| - 1] == Newline && Newline !in l[..|l| - 1]
  }

  /** The records `ReadBytes('\n')` returns before it reports EOF, in order. */
  function Lines(data: seq<byte>): seq<seq<byte>>
    decreases |data|
  {
    var i := IndexOfNewline(data);
    if i == |data| then [] else [data[..i + 1]] + Lines(data[i + 1..])
  }

  /** The bytes after the last `'\n'`, which `ReadBytes` returns with EOF. */
  function Fragment(data: seq<byte>): seq<byte>
    decreases |data|
  {
    var i := IndexOfNewline(data);
    if i == |data| then data else Fragment(data[i + 1..])
  }

  /** The records one after the other. */
  function Concat(pieces: seq<seq<byte>>): seq<byte>
    decreases |pieces|
  {
    if |pieces| == 0 then [] else pieces[0] + Concat(pieces[1..])
  }

  /** The first record of `l + rest` is the line `l`. */
  lemma LinesCons(l: seq<byte>, rest: seq<byte>)
    requires IsLine(l)
    ensures IndexOfNewline(l + rest) == |l| - 1
    ensures Lines(l + rest) == [l] + Lines(rest)
    ensures Fragment(l + rest) == Fragment(rest)
  {
    var s := l + rest;
    assert s[..|l|] == l && s[|l|..] == rest;
  }

  /** Every record the reader returns before EOF is a line. */
  lemma {:induction false} LinesAreLines(data: seq<byte>)
    ensures forall k :: 0 <= k < |Lines(data)| ==> IsLine(Lines(data)[k])
    decreases |data|
  {
    var i := IndexOfNewline(data);
    if i < |data| {
      var l, rest := data[..i + 1], data[i + 1..];
      LinesAreLines(rest);
      assert l[..|l| - 1] == data[..i];
      var lines := Lines(data);
      assert lines == [l] + Lines(rest);
      forall k | 1 <= k < |lines|
        ensures IsLine(lines[k])
      {
        assert lines[k] == Lines(rest)[k - 1];
      }
    }
  }

  /** The fragment returned with EOF holds no `'\n'`. */
  lemma {:induction false} FragmentHasNoNewline(data: seq<byte>)
    ensures Newline !in Fragment(data)
    decreases |data|
  {
    if IndexOfNewline(data) < |data| {
      FragmentHasNoNewline(data[IndexOfNewline(data) + 1..]);
    }
  }

  /** Cutting a file into records loses nothing: the records and then the
      fragment are the file. */
  lemma {:induction false} LinesSplit(data: seq<byte>)
    ensures Concat(Lines(data)) + Fragment(data) == data
    decreases |data|
  {
    var i := IndexOfNewline(data);
    if i < |data| {
      var l, rest := data[..i + 1], data[i + 1..];
      LinesSplit(rest);
      assert Lines(data) == [l] + Lines(rest);
      ConcatCons(l, Lines(rest));
      assert Fragment(data) == Fragment(rest);
      assert l + rest == data;
      Regroup(l, Concat(Lines(rest)), Fragment(rest), rest, data, Concat(Lines(data)), Fragment(data));
    }
  }

  /** The bookkeeping of `LinesSplit`'s step: `x == l + c`, `y == f`,
      `c + f == rest` and `l + rest == data` give `x + y == data`. */
  lemma Regroup(l: seq<byte>, c: seq<byte>, f: seq<byte>, rest: seq<byte>, data: seq<byte>,
                x: seq<byte>, y: seq<byte>)
    requires x == l + c && y == f && c + f == rest && l + rest == data
    ensures x + y == data
  {
    assert (l + c) + f == l + (c + f);
  }

  /** Laying out one more piece in front. */
  lemma ConcatCons(p: seq<byte>, pieces: seq<seq<byte>>)
    ensures Concat([p] + pieces) == p + Concat(pieces)
  {
    assert ([p] + pieces)[1..] == pieces;
  }

  /** The converse: lines followed by a fragment without `'\n'` are read back
      as exactly those lines and that fragment. */
  lemma {:induction false} LinesOfConcat(lines: seq<seq<byte>>, frag: seq<byte>)
    requires forall k :: 0 <= k < |lines| ==> IsLine(lines[k])
    requires Newline !in frag
    ensures Lines(Concat(lines) + frag) == lines
    ensures Fragment(Concat(lines) + frag) == frag
    decreases |lines|
  {
    if |lines| == 0 {
      assert Concat(lines) + frag == frag;
      assert IndexOfNewline(frag) == |frag|;
    } else {
      LinesOfConcat(lines[1..], frag);
      assert Concat(lines) + frag == lines[0] + (Concat(lines[1..]) + frag);
      LinesCons(lines[0], Concat(lines[1..]) + frag);
      assert [lines[0]] + lines[1..] == lines;
    }
  }

  /** `bufio.Reader` over the input file: `pos` bytes are consumed. */
  class LineReader {
    const data: seq<byte>
    var pos: nat

    ghost predicate Valid()
      reads this
    {
      pos <= |data|
    }

    constructor (data: seq<byte>)
      ensures Valid() && this.data == data && pos == 0
    {
      this.data := data;
      pos := 0;
    }

    /** `ReadBytes('\n')`: the next record, up to and including its `'\n'`;
        at the end, the unterminated rest together with `io.EOF`. */
    method ReadBytes() returns (line: seq<byte>, eof: bool)
      requires Valid()
      modifies this`pos
      ensures Valid()
      ensures eof <==> Lines(data[old(pos)..]) == []
      ensures eof ==> pos == |data| && line == Fragment(data[old(pos)..])
      ensures !eof ==> old(pos) < pos && IsLine(line)
                       && Lines(data[old(pos)..]) == [line] + Lines(data[pos..])
    {
      var rest := data[pos..];
      var i := IndexOfNewline(rest);
      if i == |rest| {
        pos := |data|;
        return rest, true;
      }
      line := rest[..i + 1];
      pos := pos + i + 1;
      assert line[..|line| - 1] == rest[..i];
      assert rest[i + 1..] == data[pos..];
      eof := false;
    }
  }

  /** `bytes.TrimSuffix(line, []byte("\n"))`. */
  function TrimNewline(line: seq<byte>): seq<byte> {
    if |line| > 0 && line[|line| - 1] == Newline then line[..|line| - 1] else line
  }

  /** A line loses exactly its `'\n'`, and what is left holds none. */
  lemma TrimLine(l: seq<byte>)
    requires IsLine(l)
    ensures TrimNewline(l) + [Newline] == l && Newline !in TrimNewline(l)
  {
  }

  /** Every record without its `'\n'`. */
  function Trimmed(lines: seq<seq<byte>>): (r: seq<seq<byte>>)
    ensures |r| == |lines|
  {
    seq(|lines|, i requires 0 <= i < |lines| => TrimNewline(lines[i]))
  }

  /** What the loop decrypts from the rest of the file: the records without
      their `'\n'`, after the first when it is still to be skipped. */
  function Pending(rest: seq<byte>, skip: bool): seq<seq<byte>> {
    var lines := Lines(rest);
    if skip && |lines| > 0 then Trimmed(lines[1..]) else Trimmed(lines)
  }

  /** The ciphertexts of a whole file: every record after the IV line. */
  function Payloads(data: seq<byte>): (r: seq<seq<byte>>)
    ensures |r| == if |Lines(data)| == 0 then 0 else |Lines(data)| - 1
  {
    Pending(data, true)
  }

  /** The decryption of each ciphertext. */
  function Plaintexts(lib: Aes.Library, key: seq<byte>, iv: seq<byte>, mode: Aes.Mode, payloads: seq<seq<byte>>)
    : (r: seq<Result<seq<byte>, Aes.Error>>)
    requires lib.Valid()
    ensures |r| == |payloads|
  {
    seq(|payloads|, i requires 0 <= i < |payloads| => Aes.DecryptResult(lib, key, iv, mode, payloads[i]))
  }

  /** What the loop writes for the decryptions: the plaintexts in order, up to
      the first error, which ends the run. */
  function Collect(outcomes: seq<Result<seq<byte>, Aes.Error>>): Run
    decreases |outcomes|
  {
    if |outcomes| == 0 then Run([], Ok(()))
    else
      match outcomes[0]
      case Err(e) => Run([], Err(e))
      case Ok(plaintext) => Prepend(plaintext, Collect(outcomes[1..]))
  }

  /** What the loop still writes from the unread bytes `rest`. */
  function Remaining(lib: Aes.Library, key: seq<byte>, iv: seq<byte>, mode: Aes.Mode, rest: seq<byte>, skip: bool): Run
    requires lib.Valid()
  {
    Collect(Plaintexts(lib, key, iv, mode, Pending(rest, skip)))
  }

  /** The whole run of `decrypt` on an input file. */
  function DecryptFileSpec(lib: Aes.Library, key: seq<byte>, iv: seq<byte>, mode: Aes.Mode, data: seq<byte>): Run
    requires lib.Valid()
  {
    Collect(Plaintexts(lib, key, iv, mode, Payloads(data)))
  }

  /** One more record in front of the pending ones. */
  lemma PendingCons(l: seq<byte>, rest: seq<byte>, lines: seq<seq<byte>>)
    requires lines == [l] + Lines(rest)
    ensures Trimmed(lines) == [TrimNewline(l)] + Trimmed(Lines(rest))
    ensures Trimmed(lines[1..]) == Trimmed(Lines(rest))
  {
    assert lines[1..] == Lines(rest);
  }

  /** The decryptions of one more ciphertext in front. */
  lemma PlaintextsCons(lib: Aes.Library, key: seq<byte>, iv: seq<byte>, mode: Aes.Mode,
                       p: seq<byte>, ps: seq<seq<byte>>)
    requires lib.Valid()
    ensures Plaintexts(lib, key, iv, mode, [p] + ps)
         == [Aes.DecryptResult(lib, key, iv, mode, p)] + Plaintexts(lib, key, iv, mode, ps)
  {
  }

  /** What the loop writes for one more outcome in front. */
  lemma CollectNext(outcome: Result<seq<byte>, Aes.Error>, rest: seq<Result<seq<byte>, Aes.Error>>)
    ensures outcome.Ok? ==> Collect([outcome] + rest) == Prepend(outcome.value, Collect(rest))
    ensures outcome.Err? ==> Collect([outcome] + rest) == Run([], Err(outcome.error))
  {
    assert ([outcome] + rest)[1..] == rest;
  }

  /** One pass of the loop: EOF ends it; the first record is skipped; any
      other record is decrypted, and its error ends the run or its plaintext
      comes before the rest. */
  lemma RemainingStep(lib: Aes.Library, key: seq<byte>, iv: seq<byte>, mode: Aes.Mode,
                      rest: seq<byte>, skip: bool, line: seq<byte>, after: seq<byte>)
    requires lib.Valid()
    requires Lines(rest) == [line] + Lines(after)
    ensures skip ==> Remaining(lib, key, iv, mode, rest, true) == Remaining(lib, key, iv, mode, after, false)
    ensures !skip ==>
              var o := Aes.DecryptResult(lib, key, iv, mode, TrimNewline(line));
              && (o.Err? ==> Remaining(lib, key, iv, mode, rest, false) == Run([], Err(o.error)))
              && (o.Ok? ==> Remaining(lib, key, iv, mode, rest, false)
                            == Prepend(o.value, Remaining(lib, key, iv, mode, after, false)))
  {
    PendingCons(line, after, Lines(rest));
    if !skip {
      PlaintextsCons(lib, key, iv, mode, TrimNewline(line), Trimmed(Lines(after)));
      CollectNext(Aes.DecryptResult(lib, key, iv, mode, TrimNewline(line)),
                  Plaintexts(lib, key, iv, mode, Trimmed(Lines(after))));
    }
  }

  /** Writing `a` and then `b` in front of a run writes `a + b`. */
  lemma PrependTwice(a: seq<byte>, b: seq<byte>, run: Run)
    ensures Prepend(a, Prepend(b, run)) == Prepend(a + b, run)
  {
    assert a + (b + run.output) == (a + b) + run.output;
  }

  /** Writing `a` in front of a run that wrote nothing. */
  lemma PrependNothing(a: seq<byte>, status: Result<(), Aes.Error>)
    ensures Prepend(a, Run([], status)) == Run(a, status)
  {
    assert a + [] == a;
  }

  /** One pass of the loop body in `decrypt`: read a record; at EOF stop;
      skip it while `num` is 0; otherwise decrypt it without its `'\n'`. */
  method NextPlaintext(lib: Aes.Library, enc: Aes.Encryptor, br: LineReader, num: nat,
                       ghost key: seq<byte>, ghost iv: seq<byte>, ghost mode: Aes.Mode)
    returns (eof: bool, plaintext: Result<seq<byte>, Aes.Error>)
    requires lib.Valid() && br.Valid()
    requires enc.key == key && enc.iv == iv && enc.mode == mode
    modifies br
    ensures br.Valid()
    ensures eof ==> Remaining(lib, key, iv, mode, br.data[old(br.pos)..], num == 0) == Run([], Ok(()))
    ensures !eof ==> old(br.pos) < br.pos
    ensures !eof && num == 0 ==>
              Remaining(lib, key, iv, mode, br.data[old(br.pos)..], true)
              == Remaining(lib, key, iv, mode, br.data[br.pos..], false)
    ensures !eof && num != 0 && plaintext.Err? ==>
              Remaining(lib, key, iv, mode, br.data[old(br.pos)..], false) == Run([], Err(plaintext.error))
    ensures !eof && num != 0 && plaintext.Ok? ==>
              Remaining(lib, key, iv, mode, br.data[old(br.pos)..], false)
              == Prepend(plaintext.value, Remaining(lib, key, iv, mode, br.data[br.pos..], false))
  {
    ghost var rest := br.data[br.pos..];
    var line;
    line, eof := br.ReadBytes();
    if eof {
      return eof, Ok([]);
    }
    RemainingStep(lib, key, iv, mode, rest, num == 0, line, br.data[br.pos..]);
    if num == 0 {
      return eof, Ok([]);
    }
    plaintext := enc.Decrypt(lib, TrimNewline(line));
  }

  /** `decrypt`: read records until EOF, skip the first, decrypt each later
      one without its `'\n'` and append the plaintext; the first decryption
      error aborts, keeping what was already written. */
  method DecryptFile(lib: Aes.Library, enc: Aes.Encryptor, input: seq<byte>) returns (output: seq<byte>, r: Result<(), Aes.Error>)
    requires lib.Valid()
    ensures Run(output, r) == DecryptFileSpec(lib, enc.key, enc.iv, enc.mode, input)
  {
    ghost var key, iv, mode := enc.key, enc.iv, enc.mode;
    ghost var spec := DecryptFileSpec(lib, key, iv, mode, input);
    var br := new LineReader(input);
    output := [];
    var num := 0;
    assert input[br.pos..] == input;
    while true
      invariant br.Valid() && br.data == input
      invariant spec == Prepend(output, Remaining(lib, key, iv, mode, input[br.pos..], num == 0))
      decreases |input| - br.pos
    {
      var eof, plaintext := NextPlaintext(lib, enc, br, num, key, iv, mode);
      if eof {
        PrependNothing(output, Ok(()));
        return output, Ok(());
      }
      if num == 0 {
        num := num + 1;
        continue;
      }
      if plaintext.Err? {
        PrependNothing(output, Err(plaintext.error));
        return output, Err(plaintext.error);
      }
      PrependTwice(output, plaintext.value, Remaining(lib, key, iv, mode, input[br.pos..], false));
      output := output + plaintext.value;
      num := num + 1;
    }
  }

  /** The ciphertexts of a file made of lines and a final fragment: every line
      after the first, without its `'\n'`. */
  lemma PayloadsOfLines(lines: seq<seq<byte>>, frag: seq<byte>)
    requires forall k :: 0 <= k < |lines| ==> IsLine(lines[k])
    requires Newline !in frag
    ensures |Payloads(Concat(lines) + frag)| == if |lines| == 0 then 0 else |lines| - 1
    ensures forall k :: 0 <= k < |Payloads(Concat(lines) + frag)| ==>
              Payloads(Concat(lines) + frag)[k] + [Newline] == lines[k + 1]
  {
    LinesOfConcat(lines, frag);
    forall k | 1 <= k < |lines| {
      TrimLine(lines[k]);
    }
  }

  /** The IV line is never decrypted: files that differ only in their first
      line give the same run. */
  lemma FirstLineIgnored(lib: Aes.Library, key: seq<byte>, iv: seq<byte>, mode: Aes.Mode,
                         first: seq<byte>, other: seq<byte>, rest: seq<byte>)
    requires lib.Valid() && IsLine(first) && IsLine(other)
    ensures DecryptFileSpec(lib, key, iv, mode, first + rest) == DecryptFileSpec(lib, key, iv, mode, other + rest)
  {
    LinesCons(first, rest);
    LinesCons(other, rest);
    assert Payloads(first + rest) == Trimmed(Lines(rest)) == Payloads(other + rest) by {
      assert ([first] + Lines(rest))[1..] == Lines(rest);
      assert ([other] + Lines(rest))[1..] == Lines(rest);
    }
  }

  /** A final fragment without `'\n'` is never decrypted: the loop stops at
      EOF before it. */
  lemma FragmentIgnored(lib: Aes.Library, key: seq<byte>, iv: seq<byte>, mode: Aes.Mode,
                        lines: seq<seq<byte>>, frag: seq<byte>)
    requires lib.Valid()
    requires forall k :: 0 <= k < |lines| ==> IsLine(lines[k])
    requires Newline !in frag
    ensures DecryptFileSpec(lib, key, iv, mode, Concat(lines) + frag)
         == DecryptFileSpec(lib, key, iv, mode, Concat(lines))
  {
    LinesOfConcat(lines, frag);
    LinesOfConcat(lines, []);
    assert Concat(lines) + [] == Concat(lines);
  }

  /** When every decryption succeeds, the output is the plaintexts one after
      the other. */
  lemma {:induction false} CollectAllOk(outcomes: seq<Result<seq<byte>, Aes.Error>>, plaintexts: seq<seq<byte>>)
    requires |outcomes| == |plaintexts|
    requires forall i :: 0 <= i < |outcomes| ==> outcomes[i] == Ok(plaintexts[i])
    ensures Collect(outcomes) == Run(Concat(plaintexts), Ok(()))
    decreases |outcomes|
  {
    if |outcomes| > 0 {
      CollectAllOk(outcomes[1..], plaintexts[1..]);
    }
  }

  /** The first failing decryption aborts the run with its error, after the
      plaintexts before it. */
  lemma {:induction false} CollectFirstErr(outcomes: seq<Result<seq<byte>, Aes.Error>>,
                                           plaintexts: seq<seq<byte>>, e: Aes.Error)
    requires |plaintexts| < |outcomes| && outcomes[|plaintexts|] == Err(e)
    requires forall i :: 0 <= i < |plaintexts| ==> outcomes[i] == Ok(plaintexts[i])
    ensures Collect(outcomes) == Run(Concat(plaintexts), Err(e))
    decreases |plaintexts|
  {
    if |plaintexts| > 0 {
      CollectFirstErr(outcomes[1..], plaintexts[1..], e);
    }
  }

  /** The first decryptions, entry by entry. */
  lemma PlaintextsMatch(lib: Aes.Library, key: seq<byte>, iv: seq<byte>, mode: Aes.Mode,
                        payloads: seq<seq<byte>>, plaintexts: seq<seq<byte>>)
    requires lib.Valid() && |plaintexts| <= |payloads|
    requires forall i :: 0 <= i < |plaintexts| ==>
               Aes.DecryptResult(lib, key, iv, mode, payloads[i]) == Ok(plaintexts[i])
    ensures forall i :: 0 <= i < |plaintexts| ==> Plaintexts(lib, key, iv, mode, payloads)[i] == Ok(plaintexts[i])
  {
  }

  /** When every ciphertext of the file decrypts, the output is the
      concatenation of the plaintexts, in file order. */
  lemma DecryptFileAllOk(lib: Aes.Library, key: seq<byte>, iv: seq<byte>, mode: Aes.Mode,
                         data: seq<byte>, plaintexts: seq<seq<byte>>)
    requires lib.Valid()
    requires |plaintexts| == |Payloads(data)|
    requires forall i :: 0 <= i < |plaintexts| ==>
               Aes.DecryptResult(lib, key, iv, mode, Payloads(data)[i]) == Ok(plaintexts[i])
    ensures DecryptFileSpec(lib, key, iv, mode, data) == Run(Concat(plaintexts), Ok(()))
  {
    var payloads := Payloads(data);
    PlaintextsMatch(lib, key, iv, mode, payloads, plaintexts);
    CollectAllOk(Plaintexts(lib, key, iv, mode, payloads), plaintexts);
  }

  /** A decryption error aborts the run: only the plaintexts of the records
      before it are written. */
  lemma DecryptFileFirstErr(lib: Aes.Library, key: seq<byte>, iv: seq<byte>, mode: Aes.Mode,
                            data: seq<byte>, plaintexts: seq<seq<byte>>, e: Aes.Error)
    requires lib.Valid()
    requires |plaintexts| < |Payloads(data)|
    requires forall i :: 0 <= i < |plaintexts| ==>
               Aes.DecryptResult(lib, key, iv, mode, Payloads(data)[i]) == Ok(plaintexts[i])
    requires Aes.DecryptResult(lib, key, iv, mode, Payloads(data)[|plaintexts|]) == Err(e)
    ensures DecryptFileSpec(lib, key, iv, mode, data) == Run(Concat(plaintexts), Err(e))
  {
    var payloads := Payloads(data);
    PlaintextsMatch(lib, key, iv, mode, payloads, plaintexts);
    assert Plaintexts(lib, key, iv, mode, payloads)[|plaintexts|] == Err(e);
    CollectFirstErr(Plaintexts(lib, key, iv, mode, payloads), plaintexts, e);
  }

  /** A file of one header line and then one line per ciphertext, each
      produced by `Encrypt` under the same key, IV and mode and free of
      `'\n'`, decrypts to the plaintexts one after the other. */
  lemma DecryptEncryptedLines(lib: Aes.Library, key: seq<byte>, iv: seq<byte>, mode: Aes.Mode,
                              header: seq<byte>, plaintexts: seq<seq<byte>>, lines: seq<seq<byte>>)
    requires lib.Valid() && EncryptCmd.Ready(key, iv, mode)
    requires IsLine(header) && |lines| == |plaintexts| + 1 && lines[0] == header
    requires forall i :: 0 <= i < |plaintexts| ==>
               && Aes.EncryptResult(lib, key, iv, mode, plaintexts[i]).Ok?
               && lines[i + 1] == Aes.EncryptResult(lib, key, iv, mode, plaintexts[i]).value + [Newline]
               && Newline !in Aes.EncryptResult(lib, key, iv, mode, plaintexts[i]).value
    ensures DecryptFileSpec(lib, key, iv, mode, Concat(lines)) == Run(Concat(plaintexts), Ok(()))
  {
    forall k | 0 <= k < |lines|
      ensures IsLine(lines[k])
    {
      if k > 0 {
        var c := Aes.EncryptResult(lib, key, iv, mode, plaintexts[k - 1]).value;
        assert lines[k][..|lines[k]| - 1] == c;
      }
    }
    var data := Concat(lines);
    PayloadsOfLines(lines, []);
    assert Concat(lines) + [] == data;
    forall i | 0 <= i < |plaintexts|
      ensures Aes.DecryptResult(lib, key, iv, mode, Payloads(data)[i]) == Ok(plaintexts[i])
    {
      var c := Aes.EncryptResult(lib, key, iv, mode, plaintexts[i]).value;
      assert Payloads(data)[i] + [Newline] == c + [Newline];
      assert Payloads(data)[i] == (c + [Newline])[..|c|];
      Aes.EncryptDecryptRoundTrip(lib, key, iv, mode, plaintexts[i]);
    }
    DecryptFileAllOk(lib, key, iv, mode, data, plaintexts);
  }

  /** Why `initDecryptor` aborts. */
  datatype InitError =
    | KeyDerivationFailed(cause: Utils.InitError)   // inside `InitAesEncryptor`
    | ReadFullFailed(n: nat)                        // `io.ReadFull` of the IV read only `n` bytes

  /** `initDecryptor`: derive the engine from the configuration, then take the
      first 16 bytes of the input file as its IV. */
  method InitDecryptor(conf: Utils.Config, files: map<seq<byte>, seq<byte>>, fileData: seq<byte>)
    returns (r: Result<Aes.Encryptor, InitError>)
    ensures Utils.DeriveKeyAndMode(conf, files).Err? ==>
              r == Err(KeyDerivationFailed(Utils.DeriveKeyAndMode(conf, files).error))
    ensures Utils.DeriveKeyAndMode(conf, files).Ok? && |fileData| < Aes.BlockSize ==>
              r == Err(ReadFullFailed(|fileData|))
    ensures Utils.DeriveKeyAndMode(conf, files).Ok? && |fileData| >= Aes.BlockSize ==>
              && r.Ok? && fresh(r.value) && r.value.Valid() && r.value.iv == fileData[..Aes.BlockSize]
              && r.value.key == Utils.DeriveKeyAndMode(conf, files).value.0
              && r.value.mode == Utils.DeriveKeyAndMode(conf, files).value.1
  {
    var e := Utils.InitAesEncryptor(conf, files);
    if e.Err? {
      return Err(KeyDerivationFailed(e.error));
    }
    if |fileData| < Aes.BlockSize {
      return Err(ReadFullFailed(|fileData|));
    }
    var iv := fileData[..Aes.BlockSize];
    var _ := e.value.SetIV(iv);
    return Ok(e.value);
  }

  /** A file written by `encrypt` with a one-block IV starts with that IV, so
      `initDecryptor` recovers it whatever the run wrote after it; this holds
      for the loop as written and for the corrected one. */
  lemma HeaderHoldsIV(lib: Aes.Library, key: seq<byte>, iv: seq<byte>, mode: Aes.Mode, input: seq<byte>)
    requires lib.Valid() && |iv| == Aes.BlockSize
    ensures |EncryptCmd.EncryptFileSpec(lib, key, iv, mode, input).output| >= Aes.BlockSize
    ensures EncryptCmd.EncryptFileSpec(lib, key, iv, mode, input).output[..Aes.BlockSize] == iv
    ensures |EncryptCmd.IntendedEncryptFile(lib, key, iv, mode, input).output| >= Aes.BlockSize
    ensures EncryptCmd.IntendedEncryptFile(lib, key, iv, mode, input).output[..Aes.BlockSize] == iv
  {
  }
}
