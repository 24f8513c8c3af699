/**
 * The body copy of `do_POST`: while fewer than `content_length` bytes have been
 * written, read a chunk of at most 64 KiB from the request stream and write it
 * to the open file.
 */
module Transfer {
  import opened Bytes

  /** The largest chunk one `read` asks for: `64 * 1024`. */
  const CHUNK_CAP: nat := 64 * 1024

  /** `min(64 * 1024, content_length - bytes_read)`, asked for while `bytes_read < content_length`. */
  function ChunkSize(payload: int, bytesRead: nat): (n: nat)
    requires bytesRead < payload
    ensures 0 < n <= CHUNK_CAP && n <= payload - bytesRead
    ensures n == CHUNK_CAP || n == payload - bytesRead
  {
    Min(CHUNK_CAP, payload - bytesRead)
  }

  /**
   * Where the I/O of the upload raises, if anywhere: `open` itself, or the `read`
   * or the `write` of one iteration of the copy loop (iterations count from 0).
   */
  datatype Fault =
    | NoFault
    | OpenFails(message: string)
    | ReadFails(iteration: nat, message: string)
    | WriteFails(iteration: nat, message: string)
  {
    /** The copy loop raises at iteration `call` or at a later one, should it get that far. */
    predicate PendingFrom(call: nat) {
      (ReadFails? || WriteFails?) && iteration >= call
    }
  }

  datatype CopyOutcome =
    | Copied(end: nat)                                     // the loop ended; the stream is at `end`
    | CopyFailed(message: string, fileEnd: nat, end: nat)  // an I/O call raised; the file holds the stream up to `fileEnd`
    | CopyDiverges                                         // the stream ran out; `read` returns b"" forever

  /** The bytes still to copy: the loop runs while this is positive. */
  function Remaining(payload: int, bytesRead: nat): nat {
    Max(0, payload - bytesRead)
  }

  /** How one iteration of the copy loop ends: the loop stops with an outcome, or goes on from stream position `next`. */
  datatype Step = Stop(outcome: CopyOutcome) | Continue(next: nat)

  /**
   * One iteration of the copy loop, which runs while `bytesRead < payload`. A
   * read returns what the stream still holds up to the chunk size, and a write
   * takes the whole chunk.
   */
  function Iteration(s: seq<Byte>, pos: nat, payload: int, bytesRead: nat, call: nat, fault: Fault): (st: Step)
    requires pos <= |s| && bytesRead < payload
    ensures st.Continue? ==> pos < st.next <= |s| && st.next <= pos + ChunkSize(payload, bytesRead)
  {
    if fault.ReadFails? && fault.iteration == call then Stop(CopyFailed(fault.message, pos, pos))
    else
      var next := Min(pos + ChunkSize(payload, bytesRead), |s|);
      if fault.WriteFails? && fault.iteration == call then Stop(CopyFailed(fault.message, pos, next))
      else if next == pos then
        Stop(if fault.PendingFrom(call) then CopyFailed(fault.message, pos, pos) else CopyDiverges)
      else Continue(next)
  }

  /**
   * The copy loop from stream position `pos`, with `bytesRead` of the `payload`
   * bytes written, at iteration `call`: iterations until `payload` bytes are
   * written or one of them stops it.
   */
  function CopyFrom(s: seq<Byte>, pos: nat, payload: int, bytesRead: nat, call: nat, fault: Fault): (r: CopyOutcome)
    requires pos <= |s|
    decreases Remaining(payload, bytesRead)
  {
    if bytesRead >= payload then Copied(pos)
    else match Iteration(s, pos, payload, bytesRead, call, fault)
      case Stop(outcome) => outcome
      case Continue(next) => CopyFrom(s, next, payload, bytesRead + (next - pos), call + 1, fault)
  }

  /** An iteration that goes on leaves the rest of the loop to the next one. */
  lemma CopyContinues(s: seq<Byte>, pos: nat, payload: int, bytesRead: nat, call: nat, fault: Fault, next: nat, bytesRead': nat)
    requires pos <= |s| && bytesRead < payload
    requires Iteration(s, pos, payload, bytesRead, call, fault) == Continue(next)
    requires bytesRead' == bytesRead + (next - pos)
    ensures CopyFrom(s, pos, payload, bytesRead, call, fault) == CopyFrom(s, next, payload, bytesRead', call + 1, fault)
  {
  }

  /**
   * Where the loop leaves the stream: a completed loop has taken exactly what
   * was still to copy, a failed one no more than that, with the file holding
   * part of what it took; and only a pending fault makes it fail, with the
   * fault's message.
   */
  lemma {:induction false} CopyFromBounds(s: seq<Byte>, pos: nat, payload: int, bytesRead: nat, call: nat, fault: Fault)
    requires pos <= |s|
    ensures var r := CopyFrom(s, pos, payload, bytesRead, call, fault);
      && (r.Copied? ==> r.end == pos + Remaining(payload, bytesRead) <= |s|)
      && (r.CopyFailed? ==> pos <= r.fileEnd <= r.end <= |s| && r.end <= pos + Remaining(payload, bytesRead))
      && (r.CopyFailed? ==> fault.PendingFrom(call) && r.message == fault.message)
    decreases Remaining(payload, bytesRead)
  {
    if bytesRead < payload {
      match Iteration(s, pos, payload, bytesRead, call, fault)
      case Stop(_) =>
      case Continue(next) =>
        CopyFromBounds(s, next, payload, bytesRead + (next - pos), call + 1, fault);
    }
  }

  /** The bytes in `j` full chunks. */
  function FullChunks(j: nat): nat {
    if j == 0 then 0 else CHUNK_CAP + FullChunks(j - 1)
  }

  lemma {:induction false} FullChunksIsProduct(j: nat)
    ensures FullChunks(j) == CHUNK_CAP * j
  {
    if j > 0 {
      FullChunksIsProduct(j - 1);
    }
  }

  /** The loop gets to iteration `k` (counted from `call`) when the stream holds enough. */
  predicate Reaches(payload: int, bytesRead: nat, call: nat, k: nat) {
    call <= k && FullChunks(k - call) < Remaining(payload, bytesRead)
  }

  /**
   * With the whole payload in the stream and no fault in an iteration the loop
   * gets to, the loop copies exactly the payload (nothing when it is not positive).
   */
  lemma {:induction false} CopyCompletes(s: seq<Byte>, pos: nat, payload: int, bytesRead: nat, call: nat, fault: Fault)
    requires pos + Remaining(payload, bytesRead) <= |s|
    requires !(fault.PendingFrom(call) && Reaches(payload, bytesRead, call, fault.iteration))
    ensures CopyFrom(s, pos, payload, bytesRead, call, fault) == Copied(pos + Remaining(payload, bytesRead))
    decreases Remaining(payload, bytesRead)
  {
    if bytesRead < payload {
      var n := ChunkSize(payload, bytesRead);
      assert !(fault.PendingFrom(call) && fault.iteration == call);
      if fault.PendingFrom(call + 1) {
        assert FullChunks(fault.iteration - call) == CHUNK_CAP + FullChunks(fault.iteration - (call + 1));
      }
      CopyCompletes(s, pos + n, payload, bytesRead + n, call + 1, fault);
    }
  }

  /**
   * How the loop raises at a fault `j` iterations on: with `j` full chunks in the
   * file; a failed read has taken nothing more from the stream, a failed write
   * has taken the chunk it was given.
   */
  function FailureAt(pos: nat, payload: int, bytesRead: nat, call: nat, fault: Fault): CopyOutcome
    requires fault.PendingFrom(call)
  {
    var j := fault.iteration - call;
    if fault.ReadFails? then CopyFailed(fault.message, pos + FullChunks(j), pos + FullChunks(j))
    else CopyFailed(fault.message, pos + FullChunks(j), pos + Min(FullChunks(j + 1), Remaining(payload, bytesRead)))
  }

  lemma FailureAtStep(pos: nat, payload: int, bytesRead: nat, call: nat, fault: Fault)
    requires fault.PendingFrom(call + 1) && CHUNK_CAP <= payload - bytesRead
    ensures FailureAt(pos, payload, bytesRead, call, fault) ==
            FailureAt(pos + CHUNK_CAP, payload, bytesRead + CHUNK_CAP, call + 1, fault)
  {
    var j := fault.iteration - call;
    assert FullChunks(j) == CHUNK_CAP + FullChunks(j - 1);
    assert FullChunks(j + 1) == CHUNK_CAP + FullChunks(j);
  }

  /** With the whole payload in the stream, the loop raises at a fault in an iteration it gets to, as FailureAt says. */
  lemma {:induction false} CopyFailsAtFault(s: seq<Byte>, pos: nat, payload: int, bytesRead: nat, call: nat, fault: Fault)
    requires pos + Remaining(payload, bytesRead) <= |s|
    requires fault.PendingFrom(call) && Reaches(payload, bytesRead, call, fault.iteration)
    ensures CopyFrom(s, pos, payload, bytesRead, call, fault) == FailureAt(pos, payload, bytesRead, call, fault)
    decreases Remaining(payload, bytesRead)
  {
    if fault.iteration > call {
      assert FullChunks(fault.iteration - call) == CHUNK_CAP + FullChunks(fault.iteration - (call + 1));
      CopyFullChunk(s, pos, payload, bytesRead, call, fault);
      CopyFailsAtFault(s, pos + CHUNK_CAP, payload, bytesRead + CHUNK_CAP, call + 1, fault);
      FailureAtStep(pos, payload, bytesRead, call, fault);
    }
  }

  /** An iteration without a fault that reads a full chunk moves on to the next one. */
  lemma CopyFullChunk(s: seq<Byte>, pos: nat, payload: int, bytesRead: nat, call: nat, fault: Fault)
    requires pos + CHUNK_CAP <= |s| && CHUNK_CAP < payload - bytesRead
    requires !(fault.PendingFrom(call) && fault.iteration == call)
    ensures CopyFrom(s, pos, payload, bytesRead, call, fault) ==
            CopyFrom(s, pos + CHUNK_CAP, payload, bytesRead + CHUNK_CAP, call + 1, fault)
  {
    assert ChunkSize(payload, bytesRead) == CHUNK_CAP;
  }

  /**
   * When the stream ends before the payload does, the loop never completes: it
   * raises at a fault still to come, reached at the latest while it spins on
   * empty reads, and otherwise loops forever.
   */
  lemma {:induction false} CopyWhenShort(s: seq<Byte>, pos: nat, payload: int, bytesRead: nat, call: nat, fault: Fault)
    requires pos <= |s| < pos + Remaining(payload, bytesRead)
    ensures !CopyFrom(s, pos, payload, bytesRead, call, fault).Copied?
    ensures CopyFrom(s, pos, payload, bytesRead, call, fault).CopyDiverges? <==> !fault.PendingFrom(call)
    decreases Remaining(payload, bytesRead)
  {
    var n := ChunkSize(payload, bytesRead);
    var next := Min(pos + n, |s|);
    if next != pos && !(fault.PendingFrom(call) && fault.iteration == call) {
      CopyWhenShort(s, next, payload, bytesRead + (next - pos), call + 1, fault);
    }
  }
}
