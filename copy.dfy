/** The copy engine: fast_copy tries sendfile and falls back to the buffered
    read/write loop of standard_copy, crediting processed_bytes as it goes.
    The system calls are oracles: the answers the storage gives during one
    call are inputs, listed in a CopyEnv. */
module CopyEngine {
  import opened Common

  const BufferSize: nat := 256 * 1024

  /** One round of the buffered loop: what read() returned, and what the
      write() of that chunk returned. */
  datatype Chunk = Chunk(got: int, put: int)

  /** The storage's answers during one fast_copy call. */
  datatype CopyEnv = CopyEnv(
    srcOpens: bool,        // open(src, O_RDONLY) succeeds
    dstOpens: bool,        // open(dst, O_WRONLY|O_CREAT|O_TRUNC) succeeds
    size: nat,             // st_size from fstat of the source
    sends: seq<int>,       // successive sendfile() results; 0 once exhausted
    bufferOk: bool,        // malloc of the fallback buffer succeeds
    chunks: seq<Chunk>)    // successive read()/write() results; read gives 0 once exhausted

  function ReadAt(chunks: seq<Chunk>, i: nat): int {
    if i < |chunks| then chunks[i].got else 0
  }

  function SendAt(sends: seq<int>, i: nat): int {
    if i < |sends| then sends[i] else 0
  }

  /** How a transfer loop ended and what it added to processed_bytes. */
  datatype Transfer = Transfer(ok: bool, credited: int)

  /** The read/write loop of standard_copy from round i on: it stops on a
      read of 0 (success), a negative read or a short write (failure). */
  function Buffered(chunks: seq<Chunk>, i: nat): Transfer
    decreases |chunks| - i
  {
    var n := ReadAt(chunks, i);
    if n < 0 then Transfer(false, 0)
    else if n == 0 then Transfer(true, 0)
    else if chunks[i].put != n then Transfer(false, 0)
    else
      var rest := Buffered(chunks, i + 1);
      Transfer(rest.ok, n + rest.credited)
  }

  /** standard_copy as a whole: a failed malloc fails at once. */
  function StandardCopySpec(bufferOk: bool, chunks: seq<Chunk>): Transfer {
    if !bufferOk then Transfer(false, 0) else Buffered(chunks, 0)
  }

  function SumGot(cs: seq<Chunk>): int {
    if cs == [] then 0 else cs[0].got + SumGot(cs[1..])
  }

  /** A round in which a positive amount was read and all of it written. */
  predicate Written(c: Chunk) {
    c.got > 0 && c.put == c.got
  }

  /** The number of fully written rounds from round i on. */
  function WrittenRun(chunks: seq<Chunk>, i: nat): (k: nat)
    ensures i + k <= |chunks| || k == 0
    decreases |chunks| - i
  {
    if i < |chunks| && Written(chunks[i]) then 1 + WrittenRun(chunks, i + 1) else 0
  }

  /** What the buffered loop credits is exactly the bytes of the rounds that
      were fully written before it stopped, and it succeeds exactly when it
      stopped at end of file. */
  lemma {:induction false} BufferedCreditsWrittenRounds(chunks: seq<Chunk>, i: nat)
    requires i <= |chunks|
    ensures var k := WrittenRun(chunks, i);
      && (forall j :: i <= j < i + k ==> Written(chunks[j]))
      && Buffered(chunks, i).credited == SumGot(chunks[i..i + k])
      && (Buffered(chunks, i).ok <==> ReadAt(chunks, i + k) == 0)
    decreases |chunks| - i
  {
    if i < |chunks| && Written(chunks[i]) {
      BufferedCreditsWrittenRounds(chunks, i + 1);
      var k := WrittenRun(chunks, i + 1);
      assert chunks[i..i + 1 + k][1..] == chunks[i + 1..i + 1 + k];
    } else {
      assert chunks[i..i] == [];
    }
  }

  /** A source whose reads all succeed and are all fully written is copied
      in full: success, and exactly the bytes read are credited. */
  lemma {:induction false} BufferedCleanCopy(chunks: seq<Chunk>, i: nat)
    requires i <= |chunks|
    requires forall j :: i <= j < |chunks| ==> Written(chunks[j])
    ensures Buffered(chunks, i) == Transfer(true, SumGot(chunks[i..]))
    decreases |chunks| - i
  {
    if i < |chunks| {
      BufferedCleanCopy(chunks, i + 1);
      assert chunks[i..][1..] == chunks[i + 1..];
    }
  }

  /** standard_copy(sfd, dfd): reads into a BUFFER_SIZE buffer and writes
      each chunk out, adding each fully written chunk to processed_bytes;
      a short write fails at once, a negative read ends the loop in failure. */
  method StandardCopy(bufferOk: bool, chunks: seq<Chunk>, c: Counters) returns (status: int)
    modifies c
    ensures status == (if StandardCopySpec(bufferOk, chunks).ok then 0 else -1)
    ensures c.processedBytes == old(c.processedBytes) + StandardCopySpec(bufferOk, chunks).credited
    ensures c.processedFiles == old(c.processedFiles)
    ensures c.totalFiles == old(c.totalFiles) && c.totalBytes == old(c.totalBytes)
  {
    if !bufferOk {
      return -1;
    }
    var i := 0;
    var n := ReadAt(chunks, i);
    while n > 0
      invariant n == ReadAt(chunks, i)
      invariant Buffered(chunks, 0) ==
        Transfer(Buffered(chunks, i).ok, c.processedBytes - old(c.processedBytes) + Buffered(chunks, i).credited)
      invariant c.processedFiles == old(c.processedFiles)
      invariant c.totalFiles == old(c.totalFiles) && c.totalBytes == old(c.totalBytes)
      decreases |chunks| - i
    {
      if chunks[i].put != n {
        return -1;
      }
      c.processedBytes := c.processedBytes + n;
      i := i + 1;
      n := ReadAt(chunks, i);
    }
    return if n == 0 then 0 else -1;
  }

  /** How the sendfile loop ended, with the final offset. */
  datatype SendEnd = Complete(offset: nat) | Stalled(offset: nat) | Broken(offset: nat)

  /** The sendfile loop of fast_copy from call i on, at `offset`: it runs
      while offset < size; a negative result breaks to the fallback, a zero
      result ends it early. */
  function SendLoop(size: nat, sends: seq<int>, offset: nat, i: nat): SendEnd
    decreases |sends| - i
  {
    if offset >= size then Complete(offset)
    else
      var sent := SendAt(sends, i);
      if sent < 0 then Broken(offset)
      else if sent == 0 then Stalled(offset)
      else SendLoop(size, sends, offset + sent, i + 1)
  }

  /** sendfile keeps its contract: it never sends more than it was asked for. */
  predicate SendsWithin(size: nat, sends: seq<int>, offset: nat, i: nat)
    decreases |sends| - i
  {
    offset >= size ||
    var sent := SendAt(sends, i);
    sent <= 0 || (sent <= size - offset && SendsWithin(size, sends, offset + sent, i + 1))
  }

  /** With such a sendfile the loop ends exactly at the file size when it
      completes, and short of it otherwise. */
  lemma {:induction false} SendLoopOffset(size: nat, sends: seq<int>, offset: nat, i: nat)
    requires offset <= size && SendsWithin(size, sends, offset, i)
    ensures SendLoop(size, sends, offset, i).Complete? ==> SendLoop(size, sends, offset, i).offset == size
    ensures !SendLoop(size, sends, offset, i).Complete? ==> SendLoop(size, sends, offset, i).offset < size
    decreases |sends| - i
  {
    if offset < size {
      var sent := SendAt(sends, i);
      if sent > 0 {
        SendLoopOffset(size, sends, offset + sent, i + 1);
      }
    }
  }

  datatype Fd = SrcFd | DstFd

  /** The status fast_copy returns, its net change to processed_bytes, and
      the descriptors it closes, in order. */
  datatype CopyResult = CopyResult(status: int, credited: int, closed: seq<Fd>)

  function FastCopySpec(dst: Option<string>, env: CopyEnv): CopyResult {
    if !env.srcOpens then CopyResult(-1, 0, [])
    else if dst.None? || !env.dstOpens then CopyResult(-1, 0, [SrcFd])
    else if env.size == 0 then CopyResult(0, 0, [SrcFd, DstFd])
    else
      match SendLoop(env.size, env.sends, 0, 0)
      case Complete(o) => CopyResult(0, o, [SrcFd, DstFd])
      case Stalled(o) => CopyResult(-1, o, [SrcFd, DstFd])
      case Broken(_) =>
        var t := StandardCopySpec(env.bufferOk, env.chunks);
        CopyResult(if t.ok then 0 else -1, t.credited, [SrcFd, DstFd])
  }

  /** The error and edge paths of fast_copy: a source that does not open
      fails with nothing to close and no credit; a destination that does not
      open (or is absent) closes the source only; an empty file succeeds;
      sendfile returning 0 short of the size fails; every path that opened
      both descriptors closes both. */
  lemma FastCopyPaths(dst: Option<string>, env: CopyEnv)
    ensures !env.srcOpens ==> FastCopySpec(dst, env) == CopyResult(-1, 0, [])
    ensures env.srcOpens && (dst.None? || !env.dstOpens) ==> FastCopySpec(dst, env) == CopyResult(-1, 0, [SrcFd])
    ensures env.srcOpens && dst.Some? && env.dstOpens ==> FastCopySpec(dst, env).closed == [SrcFd, DstFd]
    ensures env.srcOpens && dst.Some? && env.dstOpens && env.size == 0 ==> FastCopySpec(dst, env) == CopyResult(0, 0, [SrcFd, DstFd])
    ensures env.size > 0 && SendLoop(env.size, env.sends, 0, 0).Stalled? ==> FastCopySpec(dst, env).status == -1
  {
  }

  /** A sendfile copy that succeeds credits exactly the file size. */
  lemma FastCopyFullCredit(dst: Option<string>, env: CopyEnv)
    requires env.srcOpens && dst.Some? && env.dstOpens && env.size > 0
    requires SendsWithin(env.size, env.sends, 0, 0)
    requires SendLoop(env.size, env.sends, 0, 0).Complete?
    ensures FastCopySpec(dst, env) == CopyResult(0, env.size, [SrcFd, DstFd])
  {
    SendLoopOffset(env.size, env.sends, 0, 0);
  }

  /** When sendfile fails partway, the partial credit is taken back, so the
      file's net credit is what standard_copy credited, whatever the offset
      reached; a clean buffered copy thus credits the bytes read exactly once. */
  lemma FallbackCreditsOnce(dst: Option<string>, env: CopyEnv)
    requires env.srcOpens && dst.Some? && env.dstOpens && env.size > 0
    requires SendLoop(env.size, env.sends, 0, 0).Broken?
    ensures FastCopySpec(dst, env).credited == StandardCopySpec(env.bufferOk, env.chunks).credited
    ensures env.bufferOk && (forall j :: 0 <= j < |env.chunks| ==> Written(env.chunks[j])) ==>
      FastCopySpec(dst, env) == CopyResult(0, SumGot(env.chunks), [SrcFd, DstFd])
    ensures env.bufferOk && ReadsWhole(env) ==> FastCopySpec(dst, env) == CopyResult(0, env.size, [SrcFd, DstFd])
  {
    if env.bufferOk && (forall j :: 0 <= j < |env.chunks| ==> Written(env.chunks[j])) {
      BufferedCleanCopy(env.chunks, 0);
      assert env.chunks[0..] == env.chunks;
    }
  }

  /** The fallback's reads return the whole file: every round reads a
      positive amount and writes all of it, the rounds add up to st_size,
      and the read after them returns 0. */
  predicate ReadsWhole(env: CopyEnv) {
    && (forall j :: 0 <= j < |env.chunks| ==> Written(env.chunks[j]))
    && SumGot(env.chunks) == env.size
  }

  /** With a sendfile that keeps its contract and a fallback that reads the
      whole file, every fast_copy that reports success credits exactly
      st_size, over whichever path it took. */
  lemma SuccessCreditsSize(dst: Option<string>, env: CopyEnv)
    requires SendsWithin(env.size, env.sends, 0, 0) && ReadsWhole(env)
    ensures FastCopySpec(dst, env).status == 0 ==> FastCopySpec(dst, env).credited == env.size
  {
    if env.srcOpens && dst.Some? && env.dstOpens && env.size > 0 {
      match SendLoop(env.size, env.sends, 0, 0)
      case Complete(_) => FastCopyFullCredit(dst, env);
      case Stalled(_) =>
      case Broken(_) => FallbackCreditsOnce(dst, env);
    }
  }

  /** fast_copy(src, dst), Linux branch. Throughout the sendfile loop the
      bytes it has credited equal `offset`; on a sendfile failure both files
      are rewound, `offset` is subtracted and standard_copy decides. */
  method FastCopy(src: string, dst: Option<string>, env: CopyEnv, c: Counters)
      returns (status: int, closed: seq<Fd>)
    modifies c
    ensures CopyResult(status, c.processedBytes - old(c.processedBytes), closed) == FastCopySpec(dst, env)
    ensures c.processedFiles == old(c.processedFiles)
    ensures c.totalFiles == old(c.totalFiles) && c.totalBytes == old(c.totalBytes)
  {
    if !env.srcOpens {
      return -1, [];
    }
    if dst.None? || !env.dstOpens {
      return -1, [SrcFd];
    }
    var success := false;
    if env.size > 0 {
      var offset: nat := 0;
      var i := 0;
      var fellBack := false;
      while offset < env.size
        invariant i <= |env.sends|
        invariant c.processedBytes == old(c.processedBytes) + offset
        invariant SendLoop(env.size, env.sends, 0, 0) == SendLoop(env.size, env.sends, offset, i)
        invariant c.processedFiles == old(c.processedFiles)
        invariant c.totalFiles == old(c.totalFiles) && c.totalBytes == old(c.totalBytes)
        invariant !fellBack
        decreases |env.sends| - i
      {
        var sent := SendAt(env.sends, i);
        if sent < 0 {
          // fallback: lseek both descriptors to 0, give back the partial credit
          c.processedBytes := c.processedBytes - offset;
          var st := StandardCopy(env.bufferOk, env.chunks, c);
          success := st == 0;
          fellBack := true;
          break;
        }
        if sent == 0 {
          break;
        }
        offset := offset + sent;
        i := i + 1;
        c.processedBytes := c.processedBytes + sent;
      }
      if !fellBack && offset >= env.size {
        success := true;
      }
    } else {
      success := true;
    }
    closed := [SrcFd, DstFd];
    status := if success then 0 else -1;
  }
}
