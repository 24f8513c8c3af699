# quickupload: the POST handler

A Dafny model of `UploaderHTTPHander.do_POST` in `quickupload.py`, the part of
the upload server that receives a file. The handler proceeds in four steps:

1. It reads `Content-Length` with `int()`.
2. It scans the multipart part headers at the start of the request body, one
   `readline()` at a time:
   - every line's length is added to `deductable`;
   - the scan stops at the first line equal to `b"\r\n"`;
   - each line starting with `Content-Disposition` sets `filename` from the
     regex `filename="(.+)"`.
3. It opens `os.path.join(directory, filename)` for writing. It then copies
   `Content-Length - deductable` bytes from the stream into the file, in reads
   of at most 64 KiB.
4. It answers 200 when the copy is done, or 500 with
   `{"message": "Error uploading file: <e>"}` when the `try` block catches an
   I/O error.

The project's files:

- `bytes.dfy`: bytes, the ASCII constants, and slicing helpers.
- `wrappers.dfy`: `Option`.
- `pyint.dfy`: `int()` on a decimal string (the whitespace `int()` strips, an optional sign,
  digits with single underscores, the 4300-digit limit).
- `utf8.dfy`: the well-formedness test that `bytes.decode()` makes. It follows
  table 3-7 of the Unicode Standard, chapter 3.
- `headers.dfy`:
  - `readline()` lines;
  - the disposition test and the `filename="(.+)"` search;
  - the header loop as the function `Scan`;
  - the lemmas about `Scan`: where it stops, what it counts, which filename
    it keeps, and where it raises.
- `transfer.dfy`: the copy loop as the function `CopyFrom`, one `Iteration` at
  a time, and the lemmas about it: completion, failure at a fault, and
  running forever on a short stream.
- `streams.dfy`: the mutable objects the handler uses, as classes:
  - `self.rfile` is `RequestStream`, with its data and read position;
  - the file opened by `open(..., "wb")` is `OutputFile`;
  - the directory's files are `FileSystem`, a map from path to contents.
- `handler.dfy`:
  - `Post` and `Upload`: the whole handler as a function of its inputs;
  - the class `UploaderHandler`: `DoPost`, `ScanHeaders`, `CopyBody`,
    `CopyChunk` and `UploadFile`. They run the two `while` loops over the
    stream and file objects, and each is proved to do what `Scan`, `CopyFrom`
    or `Post` says;
  - the end-to-end lemmas.

Some things are inputs of the model, not parts of it:

- The request body is a byte sequence given to `RequestStream`.
- `self.headers["Content-Length"]` is an `Option<string>`.
- Where the file I/O raises is a `Fault` parameter: the `open`, or the `read`
  or `write` of one copy iteration, each with its message.

The handler has no code that stops these two cases, so the model gives the
outcome `Diverges` for both:

- the header loop reads `b""` forever once the stream runs out before a blank
  line, because `readable()` stays true;
- the copy loop spins forever on a stream shorter than the payload, because
  its EOF `break` is commented out.

Where the code differs from what an upload server would be expected to do, the model follows the code:

- **Header-stage errors are not answered.** This covers:
  - a missing or non-numeric `Content-Length`;
  - a header line that does not decode;
  - a disposition line without a match;
  - `filename` never being assigned.

  All of these raise before the `try` at line 166, so no 500 is sent. They are
  `Raised` outcomes, with no response and no file.
- **A negative payload is accepted.** When `Content-Length - deductable` is
  negative or zero, nothing is checked: the file is created empty and the
  answer is 200.
- **A short stream hangs.** When the stream ends early, the code does not
  report an I/O error; the copy loop runs forever.
- **Decoding can raise.** The first 19 bytes of every non-blank header line
  are decoded as UTF-8, and so is every whole disposition line. A line that
  does not decode makes `do_POST` raise `UnicodeDecodeError`. The model
  includes this error path.

## Model

| member | source | states |
|---|---|---|
| Headers.Line | quickupload.py:156 | the bytes `readline()` returns at a position, CR kept; characterised by `LineEnd` and `LineEndIsReadline` |
| Headers.NextNewline | quickupload.py:156 | the first LF at or after `k`, or the end of the stream |
| Headers.LineEnd | quickupload.py:156 | `readline()` ends just past an LF or at the end of the stream, and the line is non-empty unless the stream is exhausted |
| Headers.LineEndIsReadline | quickupload.py:156 | the line `readline()` returns has no LF before its last byte, and ends with its LF or at the end of the stream |
| Headers.IsBlank | quickupload.py:159 | `line == b"\r\n"`: two bytes, CR then LF; `IsBlankIsCRLF` proves it is equality with `CRLF` |
| Headers.IsBlankIsCRLF | quickupload.py:159 | the blank-line test is equality with exactly `b"\r\n"` |
| Headers.IsDisposition | quickupload.py:161 | `line[:19].decode() == "Content-Disposition"` as a case-sensitive byte-prefix test; `ConstantsSpellTheirText` ties the constant to the text |
| Headers.PrefixDecodes | quickupload.py:161 | the slice `line[:19]` decodes (it may cut a character in two); `Utf8.AsciiBytesAreUtf8` and `Utf8.LoneHighByteIsNotUtf8` characterise the test |
| Headers.ConstantsSpellTheirText | quickupload.py:161-162 | the byte constants are the ASCII of `Content-Disposition` and `filename="` |
| Headers.LastQuoteIsLast | quickupload.py:162 | the greedy `.+` ends at the last quote of the range, and there is none when the range holds no quote |
| Headers.ClosingQuoteIsLongest | quickupload.py:162 | the matches starting at one position end at quotes before the next LF, and the longest of them is the one found |
| Headers.MatchFromIsLeftmostLongest | quickupload.py:162 | `re.search` finds the leftmost match and, at that start, the longest; `None` means no match from there on |
| Headers.MatchFrom | quickupload.py:162 | `re.search` from a start position; characterised by `MatchFromIsLeftmostLongest` |
| Headers.FilenameOf | quickupload.py:162 | `re.search(r'filename="(.+)"', line).group(1)`, or None for no match; characterised by `FilenameIsLeftmostLongestMatch` |
| Headers.FilenameIsLeftmostLongestMatch | quickupload.py:162 | a filename exists exactly when the regex matches the line; it is at least one byte, has no LF, and runs from the leftmost `filename="` to the last quote after it |
| Headers.Examine | quickupload.py:159-162 | the `if`/`elif` of the header loop on one line: end, raise with a reason, assign `filename`, or pass over |
| Headers.Passes | quickupload.py:159-162 | the loop goes on past the line: not blank, decodes, and a disposition line has a match; agrees with `Examine` by `ExamineAgrees` |
| Headers.LineErrorOf | quickupload.py:161-162 | the exception a non-passing, non-blank line raises; agrees with `Examine` by `ExamineAgrees` |
| Headers.Reassign | quickupload.py:161-162 | `filename` after a line that passes: the match on a disposition line, unchanged otherwise; agrees with `Examine` by `ExamineAgrees` |
| Headers.ExamineAgrees | quickupload.py:155-162 | the loop body's branches: a blank line ends it, a passing line assigns or keeps `filename`, and any other line raises for the reason the `if`/`elif` gives |
| Headers.Scan | quickupload.py:154-162 | the header loop (the first `while` of `do_POST`) from a stream position with the running `deductable` and `filename`: ends at a blank line, raises at a bad line, or runs forever at the end of the stream. Characterised by `ScanStopsAtFirstBlankLine`, `ScanTakesLastDisposition`, `ScanLeavesUnbound`, `ScanAbortsAtFirstBadLine`, `ScanDivergesWithoutBlankLine` and `ScanEndsAtBlankLine`; `UploaderHandler.ScanHeaders` is proved to compute it |
| Headers.ScanLine | quickupload.py:156-162 | one pass of the header loop's body at a line inside the stream |
| Headers.ScanBounds | quickupload.py:154-162 | a normal end comes at least two bytes (the blank line) after the start, and an abort is at a line inside the stream |
| Headers.ScanStopsAtFirstBlankLine | quickupload.py:154-160 | after a normal scan, `deductable` counts exactly the bytes read, including the blank line, and the stream is just past it. The blank line is the first the scan met, and every line before it let the scan go on |
| Headers.ScanTakesLastDisposition | quickupload.py:161-162 | after a normal scan, `filename` is the match of the last disposition line read, or keeps its earlier value when there was none |
| Headers.ScanLeavesUnbound | quickupload.py:161-165 | starting with `filename` unbound, a normal scan leaves it unbound exactly when no disposition line was read |
| Headers.ScanAbortsAtFirstBadLine | quickupload.py:161-162 | a scan that raises does so at the first line whose decode fails or whose disposition line has no regex match, with that reason |
| Headers.ScanDivergesWithoutBlankLine | quickupload.py:155-160 | a scan that never ends has read every line of the stream without meeting a blank line, and then reads `b""` again and again |
| Headers.ScanEndsAtBlankLine | quickupload.py:155-160 | when the scan reaches a blank line without raising, it does not loop forever |
| Utf8.IsUtf8 | quickupload.py:161-162 | `bytes.decode()` succeeds: the bytes are a sequence of well-formed characters. Used for `line[:19].decode()` (through `PrefixDecodes`) and for `line.decode()`; characterised by `CharWidth`, `AsciiBytesAreUtf8` and `LoneHighByteIsNotUtf8` |
| Utf8.CharWidth | quickupload.py:161-162 | a well-formed character takes at most four bytes, and exactly one when it is ASCII |
| Utf8.AsciiBytesAreUtf8 | quickupload.py:161-162 | ASCII-only lines always decode |
| Utf8.LoneHighByteIsNotUtf8 | quickupload.py:161-162 | a lone byte of 0x80 or above does not decode |
| PyInt.ParseInt | quickupload.py:152 | `int()` on the header text: the C-locale ASCII whitespace and the non-ASCII `str.isspace()` characters stripped, an optional sign, digits with single underscores, at most 4300 digits; None where `int()` raises ValueError. Characterised by `ParseShowRoundTrip` and `TooManyDigitsRaise` |
| PyInt.SeparatorIsNotStripped | quickupload.py:152 | a leading U+001C makes `int()` raise, while a leading space and a trailing tab are stripped |
| PyInt.ParseShowRoundTrip | quickupload.py:152 | `int()` reads back every integer that `str()` writes, that is, one of at most 4300 digits |
| PyInt.TooManyDigitsRaise | quickupload.py:152 | a numeral, signed or not, of more than 4300 digits makes `int()` raise, whatever its value |
| Transfer.ChunkSize | quickupload.py:170 | each requested chunk is positive and at most 64 KiB and at most what is left; it is one of the two |
| Transfer.Iteration | quickupload.py:170-174 | an iteration that goes on advances the stream by at least one byte and at most the chunk size |
| Transfer.CopyFrom | quickupload.py:167-174 | the copy loop (the second `while` of `do_POST`) from a stream position, `bytes_read` and iteration count: completes, fails at a fault, or runs forever. Characterised by `CopyFromBounds`, `CopyCompletes`, `CopyFailsAtFault` and `CopyWhenShort`; `UploaderHandler.CopyBody` is proved to compute it |
| Transfer.CopyContinues | quickupload.py:169-174 | an iteration that goes on leaves the rest of the loop to the next one |
| Transfer.CopyFromBounds | quickupload.py:168-174 | a completed copy took exactly the payload from the stream, a failed one no more. The file holds part of what was taken. Only a pending fault fails the loop, with that fault's message |
| Transfer.CopyCompletes | quickupload.py:168-174 | with the whole payload in the stream and no fault in an iteration the loop gets to, the loop copies exactly the payload |
| Transfer.CopyFailsAtFault | quickupload.py:167-174 | a fault in an iteration the loop gets to makes it raise there, with the full chunks before it in the file |
| Transfer.CopyWhenShort | quickupload.py:169-174 | a stream shorter than the payload never completes the loop: it raises at a fault still to come, or spins forever when there is none |
| Streams.RequestStream.ReadLine | quickupload.py:156 | `readline()` returns the line at the read position and moves past it |
| Streams.RequestStream.Read | quickupload.py:171 | `read(n)` returns the next `n` bytes or what is left, and moves past them |
| Streams.OutputFile.Write | quickupload.py:174 | `write` appends the whole chunk and returns its length |
| Streams.FileSystem.Open | quickupload.py:167 | opening with `"wb"` creates or truncates the file |
| Streams.FileSystem.Close | quickupload.py:167-174 | leaving the `with` block, normally or by an exception, leaves on disk what was written |
| Handler.ErrorResponse | quickupload.py:180-184 | the 500 answer with `Content-type: application/json` and the body `{"message": "Error uploading file: <e>"}`; its inverse is `CauseOf` (`ErrorBodyCarriesCause`). The 200 answer of lines 176-178 is the constant `SUCCESS`, the only other response (`ResponsesComeFromUpload`) |
| Handler.CauseOf | quickupload.py:184 | reads the cause back out of a body of the error shape |
| Handler.ErrorBodyCarriesCause | quickupload.py:184 | the 500 body carries the caught error's text unchanged, and it can be read back |
| Handler.Post | quickupload.py:151-184 | the handler only reads the stream forward, never past its end |
| Handler.Upload | quickupload.py:166-184 | the `try` block only reads the stream forward, never past its end |
| Handler.SecondUploadReplacesFirst | quickupload.py:165-167 | after two uploads to one path where the second opens the file, the path holds what the second wrote, and the files are as if the first never happened |
| Handler.PostStages | quickupload.py:152-166 | an unfolding lemma of `Post`: with a parsed length and a normal scan that bound a filename, the rest is the `try` block on `Content-Length - deductable` bytes; otherwise no file is opened, and the handler raises, or runs forever exactly when the scan does |
| Handler.PostUploads | quickupload.py:164-166 | an unfolding lemma of `Post`: once the headers end with a filename, the handler is the `try` block on `directory/filename` with payload `Content-Length - deductable` |
| Handler.UploadAnswers | quickupload.py:166-184 | the `try` block lets no exception out: it answers 200, or 500 with the fault's message, or runs forever |
| Handler.UploadSuccessCopiedPayload | quickupload.py:167-179 | a 200 from the `try` block means the file holds exactly the payload bytes that follow in the stream |
| Handler.UploadSucceeds | quickupload.py:166-179 | with the whole payload present and no fault in time, the answer is 200 and the file holds exactly the payload |
| Handler.UploadFails | quickupload.py:166-184 | a fault the copy gets to in iteration `k` gives the 500 with its message, and the file keeps the `k` full 64 KiB chunks written before it |
| Handler.UploadDiverges | quickupload.py:167-174 | the `try` block runs forever exactly when `open` succeeds, the stream is shorter than the payload, and no read or write fault is still to come |
| Handler.HeaderFailuresRaise | quickupload.py:152-166 | `do_POST` raises exactly when `Content-Length` is missing or not a number, a header line raises, or the headers end with `filename` unbound; a raise leaves no file |
| Handler.RaisesUnboundAfterScan | quickupload.py:162-165 | an unfolding lemma of `Post`: `UnboundLocalError` is raised exactly when the length parses and the headers end normally with `filename` never assigned |
| Handler.UnboundWithoutDisposition | quickupload.py:154-165 | `UnboundLocalError` is raised exactly when the length parses, the headers end normally, and no disposition line came before the blank line |
| Handler.ResponsesComeFromUpload | quickupload.py:166-184 | every response is 200 with no body, or 500 carrying the message of an I/O fault; without a fault there is no 500 |
| Handler.UploadCompletes | quickupload.py:152-179 | with the payload in the stream and no fault in time, the answer is 200. The stream is left just past the payload, and the file holds the next `Content-Length - deductable` bytes (none when that is not positive). `deductable` plus the file's length is the larger of `Content-Length` and `deductable` |
| Handler.SuccessWritesPayload | quickupload.py:152-179 | a 200 means the length parsed and the scan bound a filename. The file holds the bytes right after the blank line, as many as `Content-Length - deductable`, and the stream is just past them |
| Handler.UploadFailsAtFault | quickupload.py:166-184 | an I/O fault at iteration `k`, which the copy reaches, gives the 500 with its message, and the file keeps `k` full chunks |
| Handler.DivergesOnShortStream | quickupload.py:155-174 | `do_POST` runs forever exactly when the length parses and either the stream ends before a blank line, or it ends before the payload with `open` succeeding and no fault still to come |
| Handler.UploaderHandler.ScanHeaders | quickupload.py:154-162 | the header loop returns what `Scan` says, and leaves the stream at the blank line's end, past the bad line, or at the end of the stream |
| Handler.UploaderHandler.CopyChunk | quickupload.py:170-174 | one pass of the copy loop's body does what `Iteration` says to the stream and appends the chunk it read to the file |
| Handler.UploaderHandler.CopyBody | quickupload.py:168-174 | the copy loop returns what `CopyFrom` says, and the file holds exactly the stream bytes it took (up to the failed write when there is one) |
| Handler.UploaderHandler.UploadFile | quickupload.py:166-184 | the `try` block gives the answer, the stream position and the directory's files that `Upload` says |
| Handler.UploaderHandler.DoPost | quickupload.py:151-184 | `do_POST` gives the outcome, the stream position and the directory's files that `Post` says |

## Left out

- `HTML_TEMPLATE` and its script, `do_GET`, `get_interface_ip`, `run` and the argument parsing: a fixed page, socket I/O and server start-up. None of them touch the upload logic.
- `__init__`: the directory is a constructor parameter; `os.getcwd` and `os.makedirs` are filesystem effects outside the handler.
- `os.path.join`: an opaque pair `Join(directory, filename)`. The model does not say which pairs name the same file, so it does not capture that an absolute filename discards the directory, or that `../` escapes it.
- `BaseHTTPRequestHandler` internals: how the request headers are parsed and what `send_response`, `send_header` and `end_headers` put on the wire. A response is the triple of status, content type and body.
- PyInt.ParseInt: accepts ASCII digits only, while Python's `int()` also accepts the decimal digits of other scripts (none of them is a Latin-1 character, so none reaches a header value). The digit limit is the default 4300; a changed `sys.set_int_max_str_digits` is not modelled.
- I/O errors in the header stage: `readline()` is taken never to raise, and a client disconnect there shows only as the end of the stream.
- Streams.OutputFile.Write: always takes the whole chunk. The model does not cover buffering or partial writes, or an error when the file is closed.
- Transfer.CopyFrom: one fault per request. Errors at two different calls are not modelled, since the first one ends the `try` block.
- Errors raised while writing the response to `wfile` are not modelled.
- The filename stays the bytes it was matched from; their conversion to a Python string is part of `Join`.
- The trailing multipart boundary: when `Content-Length` covers it, it is copied into the file like any other payload byte. The model captures this, but no lemma singles it out.
- Chunk sizes: no lemma states the final chunk size as a remainder modulo 64 KiB. `Transfer.ChunkSize` says each chunk is the cap or what is left.
