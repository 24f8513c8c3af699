/**
 * The multipart header scan at the start of the request body: lines as
 * `readline()` returns them, the disposition-line test, the `filename="(.+)"`
 * search, and the scan that accumulates `deductable` up to the blank line.
 */
module Headers {
  import opened Wrappers
  import opened Bytes
  import opened Utf8

  // ---------------------------------------------------------------------------
  // Lines

  /** Index of the first LF at or after `k`, or `|s|` when there is none. */
  function NextNewline(s: seq<Byte>, k: nat): (n: nat)
    requires k <= |s|
    ensures k <= n <= |s|
    ensures n < |s| ==> s[n] == LF
    decreases |s| - k
  {
    if k == |s| || s[k] == LF then k else NextNewline(s, k + 1)
  }

  /** No LF lies between `k` and the LF `NextNewline` finds. */
  lemma {:induction false} NextNewlineIsFirst(s: seq<Byte>, k: nat)
    requires k <= |s|
    ensures forall i | k <= i < NextNewline(s, k) :: s[i] != LF
    decreases |s| - k
  {
    if k < |s| && s[k] != LF {
      NextNewlineIsFirst(s, k + 1);
    }
  }

  /**
   * Where the line that `readline()` returns at `pos` ends: just past the next
   * LF, or at the end of the stream.  At the end of the stream the line is empty.
   */
  function LineEnd(s: seq<Byte>, pos: nat): (e: nat)
    requires pos <= |s|
    ensures pos <= e <= |s|
    ensures pos < |s| ==> pos < e
    ensures e == |s| || s[e - 1] == LF
  {
    var n := NextNewline(s, pos);
    if n < |s| then n + 1 else |s|
  }

  /**
   * `readline()` semantics: the line at `pos` is non-empty unless the stream is
   * exhausted, ends with its only LF or at the end of the stream, and has no LF
   * before its last byte.
   */
  lemma LineEndIsReadline(s: seq<Byte>, pos: nat)
    requires pos <= |s|
    ensures var e := LineEnd(s, pos);
      && (pos < |s| ==> pos < e)
      && (e == |s| || s[e - 1] == LF)
      && (forall i | pos <= i < e - 1 :: s[i] != LF)
  {
    NextNewlineIsFirst(s, pos);
  }

  /** The bytes `readline()` returns at `pos`; a CR stays inside the line. */
  function Line(s: seq<Byte>, pos: nat): seq<Byte>
    requires pos <= |s|
  {
    s[pos..LineEnd(s, pos)]
  }

  /** `line == b"\r\n"`. */
  predicate IsBlank(line: seq<Byte>) {
    |line| == 2 && line[0] == CR && line[1] == LF
  }

  lemma IsBlankIsCRLF(line: seq<Byte>)
    ensures IsBlank(line) <==> line == CRLF
  {
    if IsBlank(line) {
      assert line == [line[0], line[1]];
    }
  }

  /** `q` is where a line starts when the stream is read line by line from `from`. */
  ghost predicate IsLineStart(s: seq<Byte>, from: nat, q: nat)
    requires from <= |s|
    decreases |s| - from
  {
    from <= q <= |s| && (q == from || (from < |s| && IsLineStart(s, LineEnd(s, from), q)))
  }

  /** Reading one line from `pos` moves on to the line starts after it. */
  lemma LineStartStep(s: seq<Byte>, pos: nat)
    requires pos < |s|
    ensures forall q :: IsLineStart(s, pos, q) <==> (q == pos || IsLineStart(s, LineEnd(s, pos), q))
  {
  }

  // ---------------------------------------------------------------------------
  // The disposition line and its filename

  /** The bytes of "Content-Disposition". */
  const DISPOSITION: seq<Byte> :=
    [0x43, 0x6f, 0x6e, 0x74, 0x65, 0x6e, 0x74, 0x2d, 0x44, 0x69, 0x73, 0x70, 0x6f, 0x73, 0x69, 0x74, 0x69, 0x6f, 0x6e]

  /** The bytes of `filename="`, the literal part of the regex before its group. */
  const FILENAME_OPEN: seq<Byte> := [0x66, 0x69, 0x6c, 0x65, 0x6e, 0x61, 0x6d, 0x65, 0x3d, 0x22]

  /** The two constants spell the texts the handler compares with. */
  lemma ConstantsSpellTheirText()
    ensures DISPOSITION == Ascii("Content-Disposition")
    ensures FILENAME_OPEN == Ascii("filename=\"")
  {
  }

  /** `line[:19].decode() == "Content-Disposition"`: a case-sensitive prefix test. */
  predicate IsDisposition(line: seq<Byte>) {
    |line| >= |DISPOSITION| && line[..|DISPOSITION|] == DISPOSITION
  }

  /**
   * The regex `filename="(.+)"` matches `l` starting at `i` with its closing
   * quote at `j`: `.` matches any byte but LF, and `.+` needs one byte at least.
   */
  ghost predicate IsMatch(l: seq<Byte>, i: nat, j: nat) {
    && i + |FILENAME_OPEN| < j < |l|
    && l[i..i + |FILENAME_OPEN|] == FILENAME_OPEN
    && l[j] == QUOTE
    && (forall k | i + |FILENAME_OPEN| <= k < j :: l[k] != LF)
  }

  /** The last quote in `l[lo..hi]`. */
  function LastQuote(l: seq<Byte>, lo: nat, hi: nat): (r: Option<nat>)
    requires hi <= |l|
    ensures r.Some? ==> lo <= r.value < hi && l[r.value] == QUOTE
    decreases hi
  {
    if hi <= lo then None
    else if l[hi - 1] == QUOTE then Some(hi - 1)
    else LastQuote(l, lo, hi - 1)
  }

  /** `LastQuote` finds the last quote of the range, and no quote when there is none. */
  lemma {:induction false} LastQuoteIsLast(l: seq<Byte>, lo: nat, hi: nat)
    requires hi <= |l|
    ensures LastQuote(l, lo, hi).Some? ==> forall k | LastQuote(l, lo, hi).value < k < hi :: l[k] != QUOTE
    ensures LastQuote(l, lo, hi).None? ==> forall k | lo <= k < hi :: l[k] != QUOTE
    decreases hi
  {
    if lo < hi && l[hi - 1] != QUOTE {
      LastQuoteIsLast(l, lo, hi - 1);
    }
  }

  /** The quote that closes the longest match starting at `i`, if any match starts there. */
  function ClosingQuote(l: seq<Byte>, i: nat): Option<nat>
    requires i + |FILENAME_OPEN| <= |l|
  {
    if l[i..i + |FILENAME_OPEN|] == FILENAME_OPEN then
      LastQuote(l, i + |FILENAME_OPEN| + 1, NextNewline(l, i + |FILENAME_OPEN|))
    else None
  }

  /**
   * `re.search` from position `i`: the first start where the pattern matches,
   * with the greedy `.+` reaching the last quote before the next LF.
   */
  function MatchFrom(l: seq<Byte>, i: nat): Option<(nat, nat)>
    requires i <= |l|
    decreases |l| - i, 1
  {
    if i + |FILENAME_OPEN| > |l| then None else MatchAt(l, i)
  }

  /** The search at a start `i` with room for `filename="`: a match there, or the search from `i + 1`. */
  function MatchAt(l: seq<Byte>, i: nat): Option<(nat, nat)>
    requires i + |FILENAME_OPEN| <= |l|
    decreases |l| - i, 0
  {
    match ClosingQuote(l, i)
    case Some(j) => Some((i, j))
    case None => MatchFrom(l, i + 1)
  }

  /** `re.search(r'filename="(.+)"', line).group(1)`, or None when there is no match. */
  function FilenameOf(line: seq<Byte>): Option<seq<Byte>> {
    match MatchFrom(line, 0)
    case Some((i, j)) => if i + |FILENAME_OPEN| <= j <= |line| then Some(line[i + |FILENAME_OPEN|..j]) else None
    case None => None
  }

  /** A match at `i` ending at `j` is, of all matches from `from` on, the leftmost and then the longest. */
  ghost predicate IsLeftmostLongest(l: seq<Byte>, from: nat, i: nat, j: nat) {
    && from <= i
    && IsMatch(l, i, j)
    && (forall i': nat, j': nat | from <= i' && IsMatch(l, i', j') :: i < i' || (i == i' && j' <= j))
  }

  /** The matches that start at `i` are those ending at a quote before the next LF, and ClosingQuote finds the last of them. */
  lemma ClosingQuoteIsLongest(l: seq<Byte>, i: nat)
    requires i + |FILENAME_OPEN| <= |l|
    ensures ClosingQuote(l, i).Some? ==> IsMatch(l, i, ClosingQuote(l, i).value)
    ensures ClosingQuote(l, i).Some? ==> forall j: nat | IsMatch(l, i, j) :: j <= ClosingQuote(l, i).value
    ensures ClosingQuote(l, i).None? ==> forall j: nat :: !IsMatch(l, i, j)
  {
    var w := |FILENAME_OPEN|;
    var stop := NextNewline(l, i + w);
    NextNewlineIsFirst(l, i + w);
    LastQuoteIsLast(l, i + w + 1, stop);
    // no match starting at `i` ends at or after the next LF
    assert forall j: nat | IsMatch(l, i, j) :: j < stop;
  }

  lemma {:induction false} MatchFromIsLeftmostLongest(l: seq<Byte>, from: nat)
    requires from <= |l|
    ensures MatchFrom(l, from).Some? ==> IsLeftmostLongest(l, from, MatchFrom(l, from).value.0, MatchFrom(l, from).value.1)
    ensures MatchFrom(l, from).None? ==> forall i: nat, j: nat | from <= i :: !IsMatch(l, i, j)
    decreases |l| - from
  {
    if from + |FILENAME_OPEN| > |l| {
      forall i: nat, j: nat | from <= i ensures !IsMatch(l, i, j) { }
    } else {
      ClosingQuoteIsLongest(l, from);
      assert MatchFrom(l, from) == MatchAt(l, from);
      if ClosingQuote(l, from).None? {
        MatchFromIsLeftmostLongest(l, from + 1);
      }
    }
  }

  /**
   * The filename taken from a disposition line: present exactly when the regex
   * matches, at least one byte long, free of LF, and the text between the leftmost
   * `filename="` and the last quote after it.
   */
  lemma FilenameIsLeftmostLongestMatch(line: seq<Byte>)
    ensures FilenameOf(line).Some? <==> exists i: nat, j: nat :: IsMatch(line, i, j)
    ensures FilenameOf(line).Some? ==>
      && |FilenameOf(line).value| >= 1
      && (forall k | 0 <= k < |FilenameOf(line).value| :: FilenameOf(line).value[k] != LF)
      && exists i: nat, j: nat :: IsLeftmostLongest(line, 0, i, j) && FilenameOf(line).value == line[i + |FILENAME_OPEN|..j]
  {
    MatchFromIsLeftmostLongest(line, 0);
    if MatchFrom(line, 0).Some? {
      var (i, j) := MatchFrom(line, 0).value;
      assert IsMatch(line, i, j);
      var name := line[i + |FILENAME_OPEN|..j];
      assert FilenameOf(line) == Some(name);
      forall k | 0 <= k < |name| ensures name[k] != LF {
        assert name[k] == line[i + |FILENAME_OPEN| + k];
      }
    }
  }

  // ---------------------------------------------------------------------------
  // The header scan

  /** The Python variable `filename`, which stays unbound until a disposition line assigns it. */
  datatype Binding = Unbound | Bound(name: seq<Byte>)

  /** Why a header line makes `do_POST` raise. */
  datatype LineError =
    | UndecodableLine   // `decode()` raises UnicodeDecodeError
    | NoFilenameMatch   // `re.search` returns None and `.group` raises AttributeError

  datatype ScanOutcome =
    | Scanned(deductable: nat, filename: Binding, end: nat)  // the blank line was read; the stream is at `end`
    | Aborted(at: nat, error: LineError)                     // the line at `at` raised `error`
    | ScanDiverges                                            // the stream ran out first; `readline()` returns b"" forever

  /** `line[:19].decode()` succeeds; the slice may cut a character in two. */
  predicate PrefixDecodes(line: seq<Byte>) {
    IsUtf8(line[..Min(|DISPOSITION|, |line|)])
  }

  /** What one pass of the header loop does with the line it has read. */
  datatype LineVerdict =
    | EndOfHeaders             // the line is b"\r\n": `break`
    | Raises(error: LineError) // a `decode()` or the `.group` call raises
    | Assigns(name: seq<Byte>) // a disposition line: `filename` is assigned its match
    | Skips                    // any other line, counted and passed over

  /** The `if`/`elif` of the header loop, applied to one line. */
  function Examine(line: seq<Byte>): LineVerdict {
    if IsBlank(line) then EndOfHeaders
    else if !PrefixDecodes(line) then Raises(UndecodableLine)
    else if IsDisposition(line) then
      if !IsUtf8(line) then Raises(UndecodableLine)
      else match FilenameOf(line)
        case None => Raises(NoFilenameMatch)
        case Some(name) => Assigns(name)
    else Skips
  }

  /**
   * The loop reads `line` and goes on to the next one: the line is not blank,
   * what is decoded of it decodes, and a disposition line has a filename match
   * (Examine's `Assigns` and `Skips`).
   */
  predicate Passes(line: seq<Byte>) {
    && !IsBlank(line)
    && PrefixDecodes(line)
    && (IsDisposition(line) ==> IsUtf8(line) && FilenameOf(line).Some?)
  }

  /** Why a line that neither passes nor is blank makes the loop raise: only a disposition line gets past the prefix test. */
  function LineErrorOf(line: seq<Byte>): LineError
    requires !Passes(line) && !IsBlank(line)
  {
    if !PrefixDecodes(line) || !IsUtf8(line) then UndecodableLine else NoFilenameMatch
  }

  /**
   * Passes, Reassign and LineErrorOf take the branches of the loop body as
   * Examine lays them out.
   */
  lemma ExamineAgrees(line: seq<Byte>, filename: Binding)
    ensures Passes(line) <==> Examine(line).Assigns? || Examine(line).Skips?
    ensures IsBlank(line) <==> Examine(line).EndOfHeaders?
    ensures Examine(line).Assigns? ==> Reassign(line, filename) == Bound(Examine(line).name)
    ensures Examine(line).Skips? ==> Reassign(line, filename) == filename
    ensures Examine(line).Raises? ==> LineErrorOf(line) == Examine(line).error
  {
  }

  /** The binding of `filename` after the loop has passed over `line`. */
  function Reassign(line: seq<Byte>, filename: Binding): Binding
    requires Passes(line)
  {
    if IsDisposition(line) then Bound(FilenameOf(line).value) else filename
  }

  /**
   * The loop of `do_POST` that reads header lines, from stream position `pos` with
   * the running `deductable` and `filename`. `readable()` stays true, so at the
   * end of the stream the loop goes on reading b"" forever.
   */
  function Scan(s: seq<Byte>, pos: nat, deductable: nat, filename: Binding): (r: ScanOutcome)
    requires pos <= |s|
    decreases |s| - pos, 1
  {
    if pos == |s| then ScanDiverges else ScanLine(s, pos, deductable, filename)
  }

  /**
   * One pass of the loop body at a line of the stream: a line that passes is
   * counted and the loop goes on after it; any other ends the loop as Examine says.
   */
  function ScanLine(s: seq<Byte>, pos: nat, deductable: nat, filename: Binding): (r: ScanOutcome)
    requires pos < |s|
    decreases |s| - pos, 0
  {
    var line := Line(s, pos);
    if Passes(line) then Scan(s, LineEnd(s, pos), deductable + |line|, Reassign(line, filename))
    else if IsBlank(line) then Scanned(deductable + |line|, filename, LineEnd(s, pos))
    else Aborted(pos, LineErrorOf(line))
  }

  /**
   * Where a scan stops: a normal end comes after the two bytes of the blank
   * line, and an abort is at a line inside the stream.
   */
  lemma {:induction false} ScanBounds(s: seq<Byte>, pos: nat, d: nat, f: Binding)
    requires pos <= |s|
    ensures var r := Scan(s, pos, d, f);
      && (r.Scanned? ==> pos + 2 <= r.end <= |s|)
      && (r.Aborted? ==> pos <= r.at < |s|)
    decreases |s| - pos
  {
    if pos < |s| && Passes(Line(s, pos)) {
      ScanStep(s, pos, d, f);
      ScanBounds(s, LineEnd(s, pos), d + |Line(s, pos)|, Reassign(Line(s, pos), f));
    }
  }

  /** One step of the scan past a line that neither ends nor aborts it. */
  lemma ScanStep(s: seq<Byte>, pos: nat, d: nat, f: Binding)
    requires pos < |s|
    requires Passes(Line(s, pos))
    ensures Scan(s, pos, d, f) == Scan(s, LineEnd(s, pos), d + |Line(s, pos)|, Reassign(Line(s, pos), f))
  {
  }

  /** ScanStep with the state after the line given by name, as the header loop holds it. */
  lemma ScanMovesOn(s: seq<Byte>, pos: nat, d: nat, f: Binding, pos': nat, d': nat, f': Binding)
    requires pos < |s| && Passes(Line(s, pos))
    requires pos' == LineEnd(s, pos) && d' == d + |Line(s, pos)| && f' == Reassign(Line(s, pos), f)
    ensures Scan(s, pos, d, f) == Scan(s, pos', d', f')
  {
  }

  /** The scan has read the line at `q` and moved past it without stopping. */
  ghost predicate ReadBefore(s: seq<Byte>, pos: nat, q: nat, stop: nat)
    requires pos <= |s|
  {
    IsLineStart(s, pos, q) && q < stop
  }

  /** Reading the line at `pos` leaves the lines read after it. */
  lemma ReadBeforeStep(s: seq<Byte>, pos: nat, stop: nat)
    requires pos < |s|
    ensures forall q {:trigger ReadBefore(s, pos, q, stop)} ::
      ReadBefore(s, pos, q, stop) <==> (q == pos && pos < stop) || ReadBefore(s, LineEnd(s, pos), q, stop)
  {
    LineStartStep(s, pos);
  }

  /** Every line read from `pos` before `stop` let the scan go on. */
  ghost predicate PassedBefore(s: seq<Byte>, pos: nat, stop: nat)
    requires pos <= |s|
  {
    forall q {:trigger ReadBefore(s, pos, q, stop)} | ReadBefore(s, pos, q, stop) :: Passes(Line(s, q))
  }

  /** No line the scan read from `pos` before `stop` is a disposition line. */
  ghost predicate NoDispositionBefore(s: seq<Byte>, pos: nat, stop: nat)
    requires pos <= |s|
  {
    forall q: nat {:trigger ReadBefore(s, pos, q, stop)} | ReadBefore(s, pos, q, stop) :: !IsDisposition(Line(s, q))
  }

  /** The last disposition line the scan read before `stop` starts at `q`. */
  ghost predicate LastDisposition(s: seq<Byte>, pos: nat, q: nat, stop: nat)
    requires pos <= |s|
  {
    && ReadBefore(s, pos, q, stop)
    && IsDisposition(Line(s, q))
    && (forall q' {:trigger ReadBefore(s, pos, q', stop)} | ReadBefore(s, pos, q', stop) && q < q' :: !IsDisposition(Line(s, q')))
  }

  /**
   * `r` ends a scan from `pos` with `d` bytes already counted normally: it has
   * counted exactly the bytes it read, the last line it read is `b"\r\n"`, and
   * every line before it let the scan go on.
   */
  ghost predicate StopsAtFirstBlank(s: seq<Byte>, pos: nat, d: nat, r: ScanOutcome)
    requires pos <= |s|
  {
    && r.Scanned?
    && r.deductable == d + (r.end - pos)
    && pos + 2 <= r.end <= |s|
    && IsLineStart(s, pos, r.end - 2)
    && IsBlank(Line(s, r.end - 2))
    && PassedBefore(s, pos, r.end - 2)
  }

  lemma StopsAtFirstBlankStep(s: seq<Byte>, pos: nat, d: nat, r: ScanOutcome)
    requires pos < |s| && Passes(Line(s, pos))
    requires StopsAtFirstBlank(s, LineEnd(s, pos), d + |Line(s, pos)|, r)
    ensures StopsAtFirstBlank(s, pos, d, r)
  {
    LineStartStep(s, pos);
    ReadBeforeStep(s, pos, r.end - 2);
  }

  /** A scan that ends normally stops at the first blank line and counts every byte it read. */
  lemma {:induction false} ScanStopsAtFirstBlankLine(s: seq<Byte>, pos: nat, d: nat, f: Binding)
    requires pos <= |s|
    requires Scan(s, pos, d, f).Scanned?
    ensures StopsAtFirstBlank(s, pos, d, Scan(s, pos, d, f))
    decreases |s| - pos
  {
    if pos < |s| && Passes(Line(s, pos)) {
      ScanStep(s, pos, d, f);
      ScanStopsAtFirstBlankLine(s, LineEnd(s, pos), d + |Line(s, pos)|, Reassign(Line(s, pos), f));
      StopsAtFirstBlankStep(s, pos, d, Scan(s, pos, d, f));
    }
  }

  lemma LastDispositionStep(s: seq<Byte>, pos: nat, q: nat, stop: nat)
    requires pos < |s|
    requires LastDisposition(s, LineEnd(s, pos), q, stop)
    ensures LastDisposition(s, pos, q, stop)
  {
    ReadBeforeStep(s, pos, stop);
  }

  /** Where the last disposition line among those read from `pos` before `stop` starts. */
  ghost function LastDispositionIn(s: seq<Byte>, pos: nat, stop: nat): (r: Option<nat>)
    requires pos <= |s|
    ensures r.Some? ==> pos <= r.value < stop && r.value < |s|
    decreases |s| - pos
  {
    if pos >= stop || pos == |s| then None
    else match LastDispositionIn(s, LineEnd(s, pos), stop)
      case Some(q) => Some(q)
      case None => if IsDisposition(Line(s, pos)) then Some(pos) else None
  }

  lemma {:induction false} LastDispositionInIsLast(s: seq<Byte>, pos: nat, stop: nat)
    requires pos <= |s|
    ensures LastDispositionIn(s, pos, stop).Some? ==> LastDisposition(s, pos, LastDispositionIn(s, pos, stop).value, stop)
    ensures LastDispositionIn(s, pos, stop).None? ==> NoDispositionBefore(s, pos, stop)
    decreases |s| - pos
  {
    if pos < stop && pos < |s| {
      var e := LineEnd(s, pos);
      LastDispositionInIsLast(s, e, stop);
      ReadBeforeStep(s, pos, stop);
      if LastDispositionIn(s, e, stop).Some? {
        LastDispositionStep(s, pos, LastDispositionIn(s, e, stop).value, stop);
      }
    }
  }

  /** The binding `g` is that of the last disposition line before `stop`, or `f` when there is none. */
  ghost predicate BindsLast(s: seq<Byte>, pos: nat, stop: nat, f: Binding, g: Binding)
    requires pos <= |s|
  {
    match LastDispositionIn(s, pos, stop)
    case None => g == f
    case Some(q) => FilenameOf(Line(s, q)).Some? && g == Bound(FilenameOf(Line(s, q)).value)
  }

  lemma BindsLastStep(s: seq<Byte>, pos: nat, stop: nat, f: Binding, g: Binding)
    requires pos < |s| && pos < stop
    requires Passes(Line(s, pos))
    requires BindsLast(s, LineEnd(s, pos), stop, Reassign(Line(s, pos), f), g)
    ensures BindsLast(s, pos, stop, f, g)
  {
  }

  /** The scan that ended normally in `r` holds the filename of the last disposition line read from `pos`, or `f`. */
  ghost predicate ScanBindsLast(s: seq<Byte>, pos: nat, f: Binding, r: ScanOutcome)
    requires pos <= |s|
  {
    r.Scanned? && pos + 2 <= r.end && BindsLast(s, pos, r.end - 2, f, r.filename)
  }

  lemma ScanBindsLastStep(s: seq<Byte>, pos: nat, f: Binding, r: ScanOutcome)
    requires pos < |s| && Passes(Line(s, pos))
    requires ScanBindsLast(s, LineEnd(s, pos), Reassign(Line(s, pos), f), r)
    ensures ScanBindsLast(s, pos, f, r)
  {
    BindsLastStep(s, pos, r.end - 2, f, r.filename);
  }

  /** The filename the scan ends with comes from the last disposition line before the blank line. */
  lemma {:induction false} ScanBindsLastDisposition(s: seq<Byte>, pos: nat, d: nat, f: Binding)
    requires pos <= |s|
    requires Scan(s, pos, d, f).Scanned?
    ensures ScanBindsLast(s, pos, f, Scan(s, pos, d, f))
    decreases |s| - pos
  {
    if !IsBlank(Line(s, pos)) {
      assert pos < |s| && Passes(Line(s, pos));
      ScanStep(s, pos, d, f);
      ScanBindsLastDisposition(s, LineEnd(s, pos), d + |Line(s, pos)|, Reassign(Line(s, pos), f));
      ScanBindsLastStep(s, pos, f, Scan(s, pos, d, f));
    }
  }

  /** `g` holds the filename of the last disposition line read from `pos` before `stop`, if there is one. */
  ghost predicate FilenameFromLast(s: seq<Byte>, pos: nat, stop: nat, g: Binding)
    requires pos <= |s|
  {
    forall q: nat {:trigger LastDisposition(s, pos, q, stop)} | LastDisposition(s, pos, q, stop) :: g.Bound? && FilenameOf(Line(s, q)) == Some(g.name)
  }

  /** The binding that BindsLast describes is the last disposition line's filename, or `f` when there is none. */
  lemma BindsLastTakesLast(s: seq<Byte>, pos: nat, stop: nat, f: Binding, g: Binding)
    requires pos <= |s|
    requires BindsLast(s, pos, stop, f, g)
    ensures NoDispositionBefore(s, pos, stop) ==> g == f
    ensures FilenameFromLast(s, pos, stop, g)
  {
    LastDispositionInIsLast(s, pos, stop);
    if LastDispositionIn(s, pos, stop).Some? {
      var last := LastDispositionIn(s, pos, stop).value;
      assert ReadBefore(s, pos, last, stop) && IsDisposition(Line(s, last));
    }
    forall q: nat | LastDisposition(s, pos, q, stop)
      ensures g.Bound? && FilenameOf(Line(s, q)) == Some(g.name)
    {
      LastDispositionIsUnique(s, pos, q, stop);
    }
  }

  /**
   * After a normal scan, `filename` holds the match of the last disposition line
   * read, and keeps its value from before the scan when no disposition line was read.
   */
  lemma ScanTakesLastDisposition(s: seq<Byte>, pos: nat, d: nat, f: Binding)
    requires pos <= |s|
    requires Scan(s, pos, d, f).Scanned?
    ensures Scan(s, pos, d, f).end >= 2
    ensures var r := Scan(s, pos, d, f);
      NoDispositionBefore(s, pos, r.end - 2) ==> r.filename == f
    ensures var r := Scan(s, pos, d, f);
      FilenameFromLast(s, pos, r.end - 2, r.filename)
  {
    var r := Scan(s, pos, d, f);
    ScanBindsLastDisposition(s, pos, d, f);
    assert ScanBindsLast(s, pos, f, r);
    BindsLastTakesLast(s, pos, r.end - 2, f, r.filename);
  }

  /** Starting from an unbound filename, the binding stays unbound exactly when no disposition line comes before `stop`. */
  lemma BindsLastLeavesUnbound(s: seq<Byte>, pos: nat, stop: nat, g: Binding)
    requires pos <= |s|
    requires BindsLast(s, pos, stop, Unbound, g)
    ensures g.Unbound? <==> NoDispositionBefore(s, pos, stop)
  {
    LastDispositionInIsLast(s, pos, stop);
    if LastDispositionIn(s, pos, stop).Some? {
      var last := LastDispositionIn(s, pos, stop).value;
      assert ReadBefore(s, pos, last, stop) && IsDisposition(Line(s, last));
    }
  }

  /**
   * A scan that starts with `filename` unbound and ends normally leaves it
   * unbound exactly when it read no disposition line.
   */
  lemma ScanLeavesUnbound(s: seq<Byte>, pos: nat, d: nat)
    requires pos <= |s|
    requires Scan(s, pos, d, Unbound).Scanned?
    ensures Scan(s, pos, d, Unbound).end >= 2
    ensures var r := Scan(s, pos, d, Unbound);
      r.filename.Unbound? <==> NoDispositionBefore(s, pos, r.end - 2)
  {
    var r := Scan(s, pos, d, Unbound);
    ScanBindsLastDisposition(s, pos, d, Unbound);
    assert ScanBindsLast(s, pos, Unbound, r);
    BindsLastLeavesUnbound(s, pos, r.end - 2, r.filename);
  }

  /** There is at most one last disposition line, and LastDispositionIn finds it. */
  lemma LastDispositionIsUnique(s: seq<Byte>, pos: nat, q: nat, stop: nat)
    requires pos <= |s|
    requires LastDisposition(s, pos, q, stop)
    ensures LastDispositionIn(s, pos, stop) == Some(q)
  {
    LastDispositionInIsLast(s, pos, stop);
    if LastDispositionIn(s, pos, stop).Some? {
      var last := LastDispositionIn(s, pos, stop).value;
      assert !(q < last) && !(last < q);
    }
  }

  /**
   * The scan from `pos` raised in `r` at the line `r.at`, for the reason `r.error`
   * names, and every line before it let the scan go on.
   */
  ghost predicate AbortsAt(s: seq<Byte>, pos: nat, r: ScanOutcome)
    requires pos <= |s|
  {
    && r.Aborted?
    && IsLineStart(s, pos, r.at) && r.at < |s|
    && !IsBlank(Line(s, r.at))
    && (r.error.UndecodableLine? ==>
          !PrefixDecodes(Line(s, r.at)) || (IsDisposition(Line(s, r.at)) && !IsUtf8(Line(s, r.at))))
    && (r.error.NoFilenameMatch? ==>
          IsDisposition(Line(s, r.at)) && IsUtf8(Line(s, r.at)) && FilenameOf(Line(s, r.at)).None?)
    && PassedBefore(s, pos, r.at)
  }

  lemma AbortsAtStep(s: seq<Byte>, pos: nat, r: ScanOutcome)
    requires pos < |s| && Passes(Line(s, pos))
    requires AbortsAt(s, LineEnd(s, pos), r)
    ensures AbortsAt(s, pos, r)
  {
    LineStartStep(s, pos);
    ReadBeforeStep(s, pos, r.at);
  }

  /** A scan that raises stops at the first header line that does not decode or has no filename match. */
  lemma {:induction false} ScanAbortsAtFirstBadLine(s: seq<Byte>, pos: nat, d: nat, f: Binding)
    requires pos <= |s|
    requires Scan(s, pos, d, f).Aborted?
    ensures AbortsAt(s, pos, Scan(s, pos, d, f))
    decreases |s| - pos
  {
    if pos < |s| && Passes(Line(s, pos)) {
      ScanStep(s, pos, d, f);
      ScanAbortsAtFirstBadLine(s, LineEnd(s, pos), d + |Line(s, pos)|, Reassign(Line(s, pos), f));
      AbortsAtStep(s, pos, Scan(s, pos, d, f));
    }
  }

  lemma PassedBeforeStep(s: seq<Byte>, pos: nat)
    requires pos < |s| && Passes(Line(s, pos))
    requires IsLineStart(s, LineEnd(s, pos), |s|) && PassedBefore(s, LineEnd(s, pos), |s|)
    ensures IsLineStart(s, pos, |s|) && PassedBefore(s, pos, |s|)
  {
    LineStartStep(s, pos);
    ReadBeforeStep(s, pos, |s|);
  }

  /**
   * A scan that never ends has read the whole stream, and every line in it let
   * the scan go on; it then reads the empty line at the end of the stream again
   * and again.
   */
  lemma {:induction false} ScanDivergesWithoutBlankLine(s: seq<Byte>, pos: nat, d: nat, f: Binding)
    requires pos <= |s|
    requires Scan(s, pos, d, f).ScanDiverges?
    ensures IsLineStart(s, pos, |s|) && Line(s, |s|) == []
    ensures PassedBefore(s, pos, |s|)
    decreases |s| - pos
  {
    if pos < |s| && Passes(Line(s, pos)) {
      ScanStep(s, pos, d, f);
      ScanDivergesWithoutBlankLine(s, LineEnd(s, pos), d + |Line(s, pos)|, Reassign(Line(s, pos), f));
      PassedBeforeStep(s, pos);
    }
  }

  /** A stream with a blank line that the scan reaches without raising never makes the scan loop forever. */
  lemma ScanEndsAtBlankLine(s: seq<Byte>, pos: nat, d: nat, f: Binding, q: nat)
    requires pos <= |s|
    requires ReadBefore(s, pos, q, |s|) && IsBlank(Line(s, q))
    ensures !Scan(s, pos, d, f).ScanDiverges?
  {
    if Scan(s, pos, d, f).ScanDiverges? {
      ScanDivergesWithoutBlankLine(s, pos, d, f);
    }
  }
}
