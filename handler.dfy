/**
 * `UploaderHTTPHander.do_POST`: parse `Content-Length`, scan the multipart
 * headers, copy the payload into `directory/filename`, and answer 200 or 500.
 */
module Handler {
  import opened Wrappers
  import opened Bytes
  import opened Utf8
  import opened PyInt
  import opened Headers
  import opened Transfer
  import opened Streams

  // ---------------------------------------------------------------------------
  // Responses and outcomes

  /** What `send_response`, `send_header("Content-type", …)` and `wfile.write` put on the wire. */
  datatype Response = Response(status: int, contentType: string, body: string)

  const JSON: string := "application/json"
  const ERROR_PREFIX: string := "{\"message\": \"Error uploading file: "
  const ERROR_SUFFIX: string := "\"}"

  /** The answer to an upload that went through: 200, the JSON content type, no body. */
  const SUCCESS: Response := Response(200, JSON, "")

  /** The answer to an exception in the `try`: 500 and `{"message": "Error uploading file: <e>"}`. */
  function ErrorResponse(cause: string): Response {
    Response(500, JSON, ERROR_PREFIX + cause + ERROR_SUFFIX)
  }

  /** The cause an error body carries, when it has the error body's shape. */
  function CauseOf(body: string): (cause: Option<string>)
    ensures cause.Some? ==> body == ERROR_PREFIX + cause.value + ERROR_SUFFIX
  {
    if |body| >= |ERROR_PREFIX| + |ERROR_SUFFIX|
       && body[..|ERROR_PREFIX|] == ERROR_PREFIX
       && body[|body| - |ERROR_SUFFIX|..] == ERROR_SUFFIX
    then
      var cause := body[|ERROR_PREFIX|..|body| - |ERROR_SUFFIX|];
      assert body == body[..|ERROR_PREFIX|] + cause + body[|body| - |ERROR_SUFFIX|..];
      Some(cause)
    else None
  }

  /** The cause is put into the body as it is (no JSON escaping) and can be read back from it. */
  lemma ErrorBodyCarriesCause(cause: string)
    ensures CauseOf(ErrorResponse(cause).body) == Some(cause)
  {
    var body := ErrorResponse(cause).body;
    assert body[..|ERROR_PREFIX|] == ERROR_PREFIX;
    assert body[|body| - |ERROR_SUFFIX|..] == ERROR_SUFFIX;
    assert body[|ERROR_PREFIX|..|body| - |ERROR_SUFFIX|] == cause;
  }

  /** The exceptions raised before the `try`, which no handler in `do_POST` catches. */
  datatype HandlerError =
    | ContentLengthMissing  // `int(None)`: TypeError
    | ContentLengthInvalid  // `int(text)`: ValueError
    | HeaderUndecodable     // `decode()` of a header line: UnicodeDecodeError
    | FilenameNoMatch       // `re.search(...).group(1)` on None: AttributeError
    | FilenameUnbound       // `filename` never assigned: UnboundLocalError

  function ErrorOf(e: LineError): HandlerError {
    match e
    case UndecodableLine => HeaderUndecodable
    case NoFilenameMatch => FilenameNoMatch
  }

  datatype PostOutcome =
    | Responded(response: Response)  // `do_POST` returned after sending `response`
    | Raised(error: HandlerError)    // `do_POST` raised `error` before sending anything
    | Diverges                       // `do_POST` never returns

  /**
   * All `do_POST` does, for the handler's `directory`, the `Content-Length`
   * header (when there is one), the body stream `s` read from `pos`, and the
   * place `fault` where the I/O of the upload raises: how it ends, where the
   * stream is left, and the file it leaves behind with its contents. For a run
   * that never returns, the stream and the file are as they are once it has
   * begun to spin.
   */
  datatype Effect = Effect(outcome: PostOutcome, streamEnd: nat, file: Option<(Path, seq<Byte>)>)

  function Post(directory: string, contentLength: Option<string>, s: seq<Byte>, pos: nat, fault: Fault): (e: Effect)
    requires pos <= |s|
    ensures pos <= e.streamEnd <= |s|
  {
    if contentLength.None? then Effect(Raised(ContentLengthMissing), pos, None)
    else match ParseInt(contentLength.value)
      case None => Effect(Raised(ContentLengthInvalid), pos, None)
      case Some(declared) =>
        ScanBounds(s, pos, 0, Unbound);
        match Scan(s, pos, 0, Unbound)
        case ScanDiverges => Effect(Diverges, |s|, None)
        case Aborted(at, error) => Effect(Raised(ErrorOf(error)), LineEnd(s, at), None)
        case Scanned(deductable, filename, end) =>
          if filename.Unbound? then Effect(Raised(FilenameUnbound), end, None)
          else Upload(Join(directory, filename.name), s, end, declared - deductable, fault)
  }

  /**
   * The `try` block of `do_POST`, with the stream at `pos` after the headers:
   * open `path`, copy `payload` bytes into it, and answer 200, or 500 when the
   * I/O raises.
   */
  function Upload(path: Path, s: seq<Byte>, pos: nat, payload: int, fault: Fault): (e: Effect)
    requires pos <= |s|
    ensures pos <= e.streamEnd <= |s|
  {
    if fault.OpenFails? then Effect(Responded(ErrorResponse(fault.message)), pos, None)
    else
      CopyFromBounds(s, pos, payload, 0, 0, fault);
      match CopyFrom(s, pos, payload, 0, 0, fault)
      case Copied(e) => Effect(Responded(SUCCESS), e, Some((path, s[pos..e])))
      case CopyFailed(message, fileEnd, e) => Effect(Responded(ErrorResponse(message)), e, Some((path, s[pos..fileEnd])))
      case CopyDiverges => Effect(Diverges, |s|, Some((path, s[pos..])))
  }

  /** The files once the file an effect leaves behind, if any, is written. */
  function Updated(files: map<Path, seq<Byte>>, file: Option<(Path, seq<Byte>)>): map<Path, seq<Byte>> {
    if file.Some? then files[file.value.0 := file.value.1] else files
  }


  // ---------------------------------------------------------------------------
  // What do_POST promises

  /**
   * `open(path, "wb")` truncates: after two uploads to the same path in which
   * the second one opens the file, the path holds what the second one wrote,
   * and nothing of the first upload is left in the files.
   */
  lemma SecondUploadReplacesFirst(files: map<Path, seq<Byte>>, path: Path,
                                  s1: seq<Byte>, pos1: nat, payload1: int, fault1: Fault,
                                  s2: seq<Byte>, pos2: nat, payload2: int, fault2: Fault)
    requires pos1 <= |s1| && pos2 <= |s2|
    requires !fault2.OpenFails?
    ensures var e1 := Upload(path, s1, pos1, payload1, fault1);
      var e2 := Upload(path, s2, pos2, payload2, fault2);
      && e2.file.Some? && e2.file.value.0 == path
      && path in Updated(Updated(files, e1.file), e2.file)
      && Updated(Updated(files, e1.file), e2.file)[path] == e2.file.value.1
      && Updated(Updated(files, e1.file), e2.file) == Updated(files, e2.file)
  {
  }

  /** The request headers are usable: `Content-Length` is there and `int()` accepts it. */
  predicate LengthParses(contentLength: Option<string>) {
    contentLength.Some? && ParseInt(contentLength.value).Some?
  }

  /**
   * Unfolding lemma for `Post`, used to split the proofs below. The two stages
   * of `do_POST`: when `Content-Length` parses and the headers
   * end normally with a filename, what follows is the `try` block on the rest of
   * the stream; otherwise no file is opened, and `do_POST` raises, or runs
   * forever exactly when the header scan does.
   */
  lemma PostStages(directory: string, contentLength: Option<string>, s: seq<Byte>, pos: nat, fault: Fault)
    requires pos <= |s|
    ensures var scan := Scan(s, pos, 0, Unbound);
      var e := Post(directory, contentLength, s, pos, fault);
      if LengthParses(contentLength) && scan.Scanned? && scan.filename.Bound? then
        && scan.end <= |s|
        && e == Upload(Join(directory, scan.filename.name), s, scan.end, ParseInt(contentLength.value).value - scan.deductable, fault)
      else
        && e.file.None?
        && (e.outcome.Raised? || e.outcome.Diverges?)
        && (e.outcome.Diverges? <==> LengthParses(contentLength) && scan.ScanDiverges?)
  {
    ScanBounds(s, pos, 0, Unbound);
  }

  /** Unfolding lemma for `Post`: once the headers end normally with a filename, all that is left of `do_POST` is the `try` block. */
  lemma PostUploads(directory: string, text: string, s: seq<Byte>, pos: nat, fault: Fault, declared: int, deductable: nat, name: seq<Byte>, end: nat)
    requires pos <= |s|
    requires ParseInt(text) == Some(declared)
    requires Scan(s, pos, 0, Unbound) == Scanned(deductable, Bound(name), end)
    ensures end <= |s|
    ensures Post(directory, Some(text), s, pos, fault) == Upload(Join(directory, name), s, end, declared - deductable, fault)
  {
    PostStages(directory, Some(text), s, pos, fault);
  }

  /**
   * The `try` block never lets an exception out: it answers 200 with no body,
   * or 500 with the message of the I/O error it caught, or runs forever.
   */
  lemma UploadAnswers(path: Path, s: seq<Byte>, pos: nat, payload: int, fault: Fault)
    requires pos <= |s|
    ensures var e := Upload(path, s, pos, payload, fault);
      && (e.outcome.Responded? || e.outcome.Diverges?)
      && (e.outcome.Responded? ==>
            e.outcome.response == SUCCESS || (!fault.NoFault? && e.outcome.response == ErrorResponse(fault.message)))
  {
    CopyFromBounds(s, pos, payload, 0, 0, fault);
  }

  /** A 200 from the `try` block means the copy took the whole payload from the stream into the file. */
  lemma UploadSuccessCopiedPayload(path: Path, s: seq<Byte>, pos: nat, payload: int, fault: Fault)
    requires pos <= |s|
    requires Upload(path, s, pos, payload, fault).outcome == Responded(SUCCESS)
    ensures var e := Upload(path, s, pos, payload, fault);
      && e.streamEnd == pos + Remaining(payload, 0)
      && e.file == Some((path, s[pos..e.streamEnd]))
  {
    CopyFromBounds(s, pos, payload, 0, 0, fault);
  }

  /** The `try` block answers 200 when the whole payload is there and no I/O error comes in time. */
  lemma UploadSucceeds(path: Path, s: seq<Byte>, pos: nat, payload: int, fault: Fault)
    requires pos + Remaining(payload, 0) <= |s|
    requires !fault.OpenFails?
    requires !(fault.PendingFrom(0) && Reaches(payload, 0, 0, fault.iteration))
    ensures var stop := pos + Remaining(payload, 0);
      Upload(path, s, pos, payload, fault) == Effect(Responded(SUCCESS), stop, Some((path, s[pos..stop])))
  {
    CopyCompletes(s, pos, payload, 0, 0, fault);
  }

  /** The `try` block answers 500 at an I/O error in an iteration the copy gets to, with the full chunks before it in the file. */
  lemma UploadFails(path: Path, s: seq<Byte>, pos: nat, payload: int, fault: Fault)
    requires pos + Remaining(payload, 0) <= |s|
    requires fault.PendingFrom(0) && Reaches(payload, 0, 0, fault.iteration)
    ensures pos + CHUNK_CAP * fault.iteration <= |s|
    ensures var e := Upload(path, s, pos, payload, fault);
      && e.outcome == Responded(ErrorResponse(fault.message))
      && e.file == Some((path, s[pos..pos + CHUNK_CAP * fault.iteration]))
  {
    CopyFailsAtFault(s, pos, payload, 0, 0, fault);
    FullChunksIsProduct(fault.iteration);
  }

  /** The `try` block runs forever exactly when the stream ends before the payload and no I/O error is still to come. */
  lemma UploadDiverges(path: Path, s: seq<Byte>, pos: nat, payload: int, fault: Fault)
    requires pos <= |s|
    ensures Upload(path, s, pos, payload, fault).outcome.Diverges? <==>
      !fault.OpenFails? && |s| < pos + Remaining(payload, 0) && !fault.PendingFrom(0)
  {
    if !fault.OpenFails? {
      if |s| < pos + Remaining(payload, 0) {
        CopyWhenShort(s, pos, payload, 0, 0, fault);
      } else if fault.PendingFrom(0) && Reaches(payload, 0, 0, fault.iteration) {
        CopyFailsAtFault(s, pos, payload, 0, 0, fault);
      } else {
        CopyCompletes(s, pos, payload, 0, 0, fault);
      }
    }
  }

  /**
   * Every exception that escapes `do_POST` comes from the header stage, before
   * the `try`: no response is sent and no file is opened. The header stage
   * fails exactly when `Content-Length` is missing or not a number, a header
   * line is bad, or the scan ends with `filename` unbound.
   */
  lemma HeaderFailuresRaise(directory: string, contentLength: Option<string>, s: seq<Byte>, pos: nat, fault: Fault)
    requires pos <= |s|
    ensures var e := Post(directory, contentLength, s, pos, fault);
      e.outcome.Raised? ==> e.file.None?
    ensures var e := Post(directory, contentLength, s, pos, fault);
      e.outcome.Raised? <==>
        || !LengthParses(contentLength)
        || Scan(s, pos, 0, Unbound).Aborted?
        || (Scan(s, pos, 0, Unbound).Scanned? && Scan(s, pos, 0, Unbound).filename.Unbound?)
  {
    PostStages(directory, contentLength, s, pos, fault);
    var scan := Scan(s, pos, 0, Unbound);
    if LengthParses(contentLength) && scan.Scanned? && scan.filename.Bound? {
      UploadAnswers(Join(directory, scan.filename.name), s, scan.end, ParseInt(contentLength.value).value - scan.deductable, fault);
    }
  }

  /** Unfolding lemma for `Post`: `do_POST` raises UnboundLocalError exactly when the headers end normally with `filename` never assigned. */
  lemma RaisesUnboundAfterScan(directory: string, contentLength: Option<string>, s: seq<Byte>, pos: nat, fault: Fault)
    requires pos <= |s|
    ensures Post(directory, contentLength, s, pos, fault).outcome == Raised(FilenameUnbound) <==>
      LengthParses(contentLength) && Scan(s, pos, 0, Unbound).Scanned? && Scan(s, pos, 0, Unbound).filename.Unbound?
  {
    ScanBounds(s, pos, 0, Unbound);
  }

  /**
   * `do_POST` raises UnboundLocalError exactly when the headers end normally
   * and no disposition line came before the blank line.
   */
  lemma UnboundWithoutDisposition(directory: string, contentLength: Option<string>, s: seq<Byte>, pos: nat, fault: Fault)
    requires pos <= |s|
    ensures Post(directory, contentLength, s, pos, fault).outcome == Raised(FilenameUnbound) <==>
      && LengthParses(contentLength)
      && Scan(s, pos, 0, Unbound).Scanned?
      && Scan(s, pos, 0, Unbound).end >= 2
      && NoDispositionBefore(s, pos, Scan(s, pos, 0, Unbound).end - 2)
  {
    var raises := Post(directory, contentLength, s, pos, fault).outcome == Raised(FilenameUnbound);
    var scan := Scan(s, pos, 0, Unbound);
    RaisesUnboundAfterScan(directory, contentLength, s, pos, fault);
    assert raises <==> LengthParses(contentLength) && scan.Scanned? && scan.filename.Unbound?;
    if scan.Scanned? {
      ScanLeavesUnbound(s, pos, 0);
    }
  }

  /**
   * `do_POST` answers 200 with no body, or 500 with the message of the I/O error
   * that the `try` caught; without an I/O error there is no 500.
   */
  lemma ResponsesComeFromUpload(directory: string, contentLength: Option<string>, s: seq<Byte>, pos: nat, fault: Fault)
    requires pos <= |s|
    ensures var e := Post(directory, contentLength, s, pos, fault);
      e.outcome.Responded? ==>
        e.outcome.response == SUCCESS || (!fault.NoFault? && e.outcome.response == ErrorResponse(fault.message))
    ensures var e := Post(directory, contentLength, s, pos, fault);
      e.outcome.Responded? && e.outcome.response.status == 500 ==>
        !fault.NoFault? && e.outcome.response == ErrorResponse(fault.message)
  {
    PostStages(directory, contentLength, s, pos, fault);
    var scan := Scan(s, pos, 0, Unbound);
    if LengthParses(contentLength) && scan.Scanned? && scan.filename.Bound? {
      UploadAnswers(Join(directory, scan.filename.name), s, scan.end, ParseInt(contentLength.value).value - scan.deductable, fault);
    }
  }

  /**
   * With the whole payload in the stream after the blank line and no I/O error
   * in an iteration the copy gets to, `do_POST` answers 200, leaves the stream
   * just past the payload, and leaves the payload in `directory/filename`: the
   * next `Content-Length - deductable` bytes, or nothing when that is not positive.
   */
  lemma UploadCompletes(directory: string, text: string, s: seq<Byte>, pos: nat, fault: Fault, declared: int, deductable: nat, name: seq<Byte>, end: nat)
    requires pos <= |s|
    requires ParseInt(text) == Some(declared)
    requires Scan(s, pos, 0, Unbound) == Scanned(deductable, Bound(name), end)
    requires !fault.OpenFails?
    requires end + Remaining(declared - deductable, 0) <= |s|
    requires !(fault.PendingFrom(0) && Reaches(declared - deductable, 0, 0, fault.iteration))
    ensures var e := Post(directory, Some(text), s, pos, fault);
      var stop := end + Remaining(declared - deductable, 0);
      e == Effect(Responded(SUCCESS), stop, Some((Join(directory, name), s[end..stop])))
    ensures deductable + Remaining(declared - deductable, 0) == Max(declared, deductable)
  {
    PostUploads(directory, text, s, pos, fault, declared, deductable, name, end);
    UploadSucceeds(Join(directory, name), s, end, declared - deductable, fault);
  }

  /**
   * A 200 means the upload went through: the file holds the bytes after the
   * blank line, as many as `Content-Length` declares beyond the header bytes,
   * and the stream is left just past them.
   */
  lemma SuccessWritesPayload(directory: string, contentLength: Option<string>, s: seq<Byte>, pos: nat, fault: Fault)
    requires pos <= |s|
    requires Post(directory, contentLength, s, pos, fault).outcome == Responded(SUCCESS)
    ensures LengthParses(contentLength)
    ensures Scan(s, pos, 0, Unbound).Scanned? && Scan(s, pos, 0, Unbound).filename.Bound?
    ensures var scan := Scan(s, pos, 0, Unbound);
      var e := Post(directory, contentLength, s, pos, fault);
      && e.streamEnd == scan.end + Remaining(ParseInt(contentLength.value).value - scan.deductable, 0)
      && e.file == Some((Join(directory, scan.filename.name), s[scan.end..e.streamEnd]))
      && scan.deductable + |e.file.value.1| == Max(ParseInt(contentLength.value).value, scan.deductable)
  {
    PostStages(directory, contentLength, s, pos, fault);
    var scan := Scan(s, pos, 0, Unbound);
    var payload := ParseInt(contentLength.value).value - scan.deductable;
    UploadSuccessCopiedPayload(Join(directory, scan.filename.name), s, scan.end, payload, fault);
  }

  /**
   * With the whole payload in the stream, an I/O error at iteration `k` of the
   * copy loop, which the loop gets to, gives the 500 with its message, and the
   * file keeps the `k` full chunks written before it.
   */
  lemma UploadFailsAtFault(directory: string, text: string, s: seq<Byte>, pos: nat, fault: Fault, declared: int, deductable: nat, name: seq<Byte>, end: nat)
    requires pos <= |s|
    requires ParseInt(text) == Some(declared)
    requires Scan(s, pos, 0, Unbound) == Scanned(deductable, Bound(name), end)
    requires end + Remaining(declared - deductable, 0) <= |s|
    requires fault.PendingFrom(0) && Reaches(declared - deductable, 0, 0, fault.iteration)
    ensures var e := Post(directory, Some(text), s, pos, fault);
      && e.outcome == Responded(ErrorResponse(fault.message))
      && end + CHUNK_CAP * fault.iteration <= |s|
      && e.file == Some((Join(directory, name), s[end..end + CHUNK_CAP * fault.iteration]))
  {
    PostUploads(directory, text, s, pos, fault, declared, deductable, name, end);
    UploadFails(Join(directory, name), s, end, declared - deductable, fault);
  }

  /**
   * `do_POST` runs forever exactly when the stream ends before the blank line,
   * or before the payload ends with no I/O error still to come to stop the copy.
   */
  lemma DivergesOnShortStream(directory: string, contentLength: Option<string>, s: seq<Byte>, pos: nat, fault: Fault)
    requires pos <= |s|
    ensures var scan := Scan(s, pos, 0, Unbound);
      Post(directory, contentLength, s, pos, fault).outcome.Diverges? <==>
        && LengthParses(contentLength)
        && (|| scan.ScanDiverges?
            || (&& scan.Scanned? && scan.filename.Bound? && !fault.OpenFails?
                && |s| < scan.end + Remaining(ParseInt(contentLength.value).value - scan.deductable, 0)
                && !fault.PendingFrom(0)))
  {
    PostStages(directory, contentLength, s, pos, fault);
    var scan := Scan(s, pos, 0, Unbound);
    if LengthParses(contentLength) && scan.Scanned? && scan.filename.Bound? {
      UploadDiverges(Join(directory, scan.filename.name), s, scan.end, ParseInt(contentLength.value).value - scan.deductable, fault);
    }
  }

  // ---------------------------------------------------------------------------
  // The handler

  /** The part of an `UploaderHTTPHander` that `do_POST` uses. */
  class UploaderHandler {
    const directory: string
    /** `self.headers["Content-Length"]`: None when the request has no such header. */
    const contentLength: Option<string>
    const rfile: RequestStream
    const disk: FileSystem

    constructor (directory: string, contentLength: Option<string>, rfile: RequestStream, disk: FileSystem)
      ensures this.directory == directory && this.contentLength == contentLength
      ensures this.rfile == rfile && this.disk == disk
    {
      this.directory := directory;
      this.contentLength := contentLength;
      this.rfile := rfile;
      this.disk := disk;
    }

    /**
     * The header loop: read lines, count them into `deductable`, stop at
     * b"\r\n", and take `filename` from each disposition line.
     */
    method ScanHeaders() returns (r: ScanOutcome)
      requires rfile.Valid()
      modifies rfile
      ensures rfile.Valid()
      ensures r == Scan(rfile.data, old(rfile.pos), 0, Unbound)
      ensures r.Scanned? ==> rfile.pos == r.end
      ensures r.Aborted? ==> r.at < |rfile.data| && rfile.pos == LineEnd(rfile.data, r.at)
      ensures r.ScanDiverges? ==> rfile.pos == |rfile.data|
    {
      ghost var s := rfile.data;
      ghost var start := rfile.pos;
      var deductable: nat := 0;
      var filename := Unbound;
      while true
        invariant rfile.Valid()
        invariant Scan(s, start, 0, Unbound) == Scan(s, rfile.pos, deductable, filename)
        decreases |s| - rfile.pos
      {
        if rfile.pos == |rfile.data| {
          // `readable()` stays true and `readline()` returns b"" from now on
          return ScanDiverges;
        }
        var at := rfile.pos;
        var line := rfile.ReadLine();
        var deductable' := deductable + |line|;
        var filename' := filename;
        if IsBlank(line) {
          return Scanned(deductable', filename, rfile.pos);
        } else if !PrefixDecodes(line) {
          return Aborted(at, UndecodableLine);
        } else if IsDisposition(line) {
          if !IsUtf8(line) {
            return Aborted(at, UndecodableLine);
          }
          match FilenameOf(line)
          case None =>
            return Aborted(at, NoFilenameMatch);
          case Some(name) =>
            filename' := Bound(name);
        }
        ScanMovesOn(s, at, deductable, filename, rfile.pos, deductable', filename');
        deductable, filename := deductable', filename';
      }
    }

    /**
     * The copy loop, into the file `f` that `open` has just created: read chunks
     * of at most 64 KiB and write them until `payload` bytes are written.
     */
    method CopyBody(f: OutputFile, payload: int, fault: Fault) returns (r: CopyOutcome)
      requires rfile.Valid() && f.contents == []
      modifies rfile, f
      ensures rfile.Valid()
      ensures r == CopyFrom(rfile.data, old(rfile.pos), payload, 0, 0, fault)
      ensures r.Copied? ==> rfile.pos == r.end && old(rfile.pos) <= r.end && f.contents == rfile.data[old(rfile.pos)..r.end]
      ensures r.CopyFailed? ==> rfile.pos == r.end && old(rfile.pos) <= r.fileEnd <= r.end && f.contents == rfile.data[old(rfile.pos)..r.fileEnd]
      ensures r.CopyDiverges? ==> rfile.pos == |rfile.data| && f.contents == rfile.data[old(rfile.pos)..]
    {
      ghost var s := rfile.data;
      ghost var start := rfile.pos;
      var bytesRead: nat := 0;
      var call: nat := 0;
      while bytesRead < payload
        invariant rfile.Valid() && rfile.pos == start + bytesRead
        invariant f.contents == s[start..rfile.pos]
        invariant CopyFrom(s, start, payload, 0, 0, fault) == CopyFrom(s, rfile.pos, payload, bytesRead, call, fault)
        decreases payload - bytesRead
      {
        ghost var before := rfile.pos;
        var step, written := CopyChunk(f, payload, bytesRead, call, fault);
        if step.Stop? {
          return step.outcome;
        }
        SliceSplit(s, start, before, rfile.pos);
        CopyContinues(s, before, payload, bytesRead, call, fault, rfile.pos, bytesRead + written);
        bytesRead := bytesRead + written;
        call := call + 1;
      }
      return Copied(rfile.pos);
    }

    /**
     * One pass of the copy loop's body, at iteration `call` with `bytesRead`
     * bytes written: read a chunk and write it to `f`. `written` is what
     * `f.write` returns when the loop goes on.
     */
    method CopyChunk(f: OutputFile, payload: int, bytesRead: nat, call: nat, fault: Fault) returns (step: Step, written: nat)
      requires rfile.Valid() && bytesRead < payload
      modifies rfile, f
      ensures rfile.Valid()
      ensures step == Iteration(rfile.data, old(rfile.pos), payload, bytesRead, call, fault)
      ensures step.Continue? ==> rfile.pos == step.next && written == step.next - old(rfile.pos)
      ensures step.Continue? ==> f.contents == old(f.contents) + rfile.data[old(rfile.pos)..step.next]
      ensures step.Stop? && step.outcome.CopyFailed? ==> rfile.pos == step.outcome.end
      ensures step.Stop? && step.outcome.CopyFailed? ==> f.contents == old(f.contents)
      ensures step.Stop? && step.outcome.CopyDiverges? ==> rfile.pos == |rfile.data| && f.contents == old(f.contents)
    {
      var chunkSize := ChunkSize(payload, bytesRead);
      if fault.ReadFails? && fault.iteration == call {
        return Stop(CopyFailed(fault.message, rfile.pos, rfile.pos)), 0;
      }
      var before := rfile.pos;
      var chunk := rfile.Read(chunkSize);
      if fault.WriteFails? && fault.iteration == call {
        return Stop(CopyFailed(fault.message, before, rfile.pos)), 0;
      }
      if |chunk| == 0 {
        // `read` returns b"" from now on, and the loop spins without end
        // unless a fault still to come is reached
        if fault.PendingFrom(call) {
          return Stop(CopyFailed(fault.message, rfile.pos, rfile.pos)), 0;
        }
        return Stop(CopyDiverges), 0;
      }
      written := f.Write(chunk);
      step := Continue(rfile.pos);
    }

    /** `do_POST`, with `fault` saying where, if anywhere, its file I/O raises. */
    method DoPost(fault: Fault) returns (outcome: PostOutcome)
      requires rfile.Valid()
      modifies rfile, disk
      ensures rfile.Valid()
      ensures var e := Post(directory, contentLength, rfile.data, old(rfile.pos), fault);
        outcome == e.outcome && rfile.pos == e.streamEnd && disk.files == Updated(old(disk.files), e.file)
    {
      if contentLength.None? {
        return Raised(ContentLengthMissing);
      }
      var declared := ParseInt(contentLength.value);
      if declared.None? {
        return Raised(ContentLengthInvalid);
      }
      var scan := ScanHeaders();
      if scan.ScanDiverges? {
        return Diverges;
      } else if scan.Aborted? {
        return Raised(ErrorOf(scan.error));
      }
      var payload := declared.value - scan.deductable;
      if scan.filename.Unbound? {
        return Raised(FilenameUnbound);
      }
      var path := Join(directory, scan.filename.name);
      outcome := UploadFile(path, payload, fault);
    }

    /** The `try` block: open `path`, copy the payload into it, and answer. */
    method UploadFile(path: Path, payload: int, fault: Fault) returns (outcome: PostOutcome)
      requires rfile.Valid()
      modifies rfile, disk
      ensures rfile.Valid()
      ensures var e := Upload(path, rfile.data, old(rfile.pos), payload, fault);
        outcome == e.outcome && rfile.pos == e.streamEnd && disk.files == Updated(old(disk.files), e.file)
    {
      if fault.OpenFails? {
        return Responded(ErrorResponse(fault.message));
      }
      ghost var before := disk.files;
      var f := disk.Open(path);
      var copy := CopyBody(f, payload, fault);
      disk.Close(f);
      assert disk.files == before[path := f.contents];
      match copy
      case Copied(_) =>
        outcome := Responded(SUCCESS);
      case CopyFailed(message, _, _) =>
        outcome := Responded(ErrorResponse(message));
      case CopyDiverges =>
        outcome := Diverges;
    }
  }
}
