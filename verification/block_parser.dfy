/** The record parser `file_to_dict`: a state machine over the lines of a text
    file in which every 91st line (counting from 0) opens a record. A record
    is stored when the next header arrives and, for the last record, when the
    input runs out. Storing follows `dict` semantics: a repeated key keeps its
    original position and takes the new value list.

    The pass is written for any way of reading header and continuation lines
    (a `LineReader`); `FileToDict` instantiates it with the line format of
    `LineFormat`. */
module BlockParser {
  import opened Results
  import opened AssocList
  import opened Text
  import opened LineFormat

  /** Lines per record: one header line followed by ninety continuation lines. */
  const BlockLines: nat := 91

  /** The `ValueError` raised when a header line does not split into exactly
      two pieces: the line's 0-based number and the number of pieces. */
  datatype ParseError = UnpackError(lineNumber: nat, parts: nat)

  /** How header and continuation lines are read: a header yields a key and
      its first samples, or the number of pieces its split produced; a
      continuation line yields samples. */
  datatype LineReader<N, C> = LineReader(header: string -> Result<Entry<N, C>, nat>, continuation: string -> seq<C>)

  /** The line format `file_to_dict` reads, with the given extractors. */
  function Reader<N, C>(ex: Extractors<N, C>): LineReader<N, C> {
    LineReader(line => ParseHeader(ex, line), line => ContinuationValues(ex, line))
  }

  // ---------------------------------------------------------------------
  // The parser as written: one left-to-right pass over the lines.
  // ---------------------------------------------------------------------

  /** The loop variables of `file_to_dict`: the dictionary built so far, the
      key of the open record (`None` before the first header) and the samples
      collected for it. */
  datatype ParserState<N, C> = ParserState(dict: seq<Entry<N, C>>, current: Option<seq<N>>, values: seq<C>)

  /** The state before the first line. */
  function Initial<N, C>(): ParserState<N, C> {
    ParserState([], None, [])
  }

  /** The open record, stored into the dictionary if there is one. */
  function Flush<N(==, !new), C>(st: ParserState<N, C>): seq<Entry<N, C>> {
    if st.current.Some? then Insert(st.dict, st.current.value, st.values) else st.dict
  }

  /** One iteration of the loop: line `lineNumber` is `line`. */
  function Step<N(==, !new), C>(rd: LineReader<N, C>, st: ParserState<N, C>, lineNumber: nat, line: string)
    : Result<ParserState<N, C>, ParseError>
  {
    if lineNumber % BlockLines == 0 then
      var dict := Flush(st);
      match rd.header(line)
      case Err(parts) => Err(UnpackError(lineNumber, parts))
      case Ok(header) => Ok(ParserState(dict, Some(header.0), header.1))
    else
      Ok(st.(values := st.values + rd.continuation(line)))
  }

  /** The state after the loop has consumed all of `lines`. */
  function Run<N(==, !new), C>(rd: LineReader<N, C>, lines: seq<string>): Result<ParserState<N, C>, ParseError>
    decreases |lines|
  {
    if lines == [] then Ok(Initial())
    else
      match Run(rd, lines[..|lines| - 1])
      case Err(e) => Err(e)
      case Ok(st) => Step(rd, st, |lines| - 1, lines[|lines| - 1])
  }

  /** The dictionary left after the loop and the final store. */
  function Parse<N(==, !new), C>(rd: LineReader<N, C>, lines: seq<string>): Result<seq<Entry<N, C>>, ParseError>
  {
    match Run(rd, lines)
    case Err(e) => Err(e)
    case Ok(st) => Ok(Flush(st))
  }

  /** `file_to_dict` on a file whose lines are `lines`. */
  function FileToDict<N(==, !new), C>(ex: Extractors<N, C>, lines: seq<string>): Result<seq<Entry<N, C>>, ParseError>
  {
    Parse(Reader(ex), lines)
  }

  // ---------------------------------------------------------------------
  // The record format, described block by block.
  // ---------------------------------------------------------------------

  /** The number of records (complete or not) in `n` lines: ceil(n / 91). */
  function BlockCount(n: nat): nat {
    (n + BlockLines - 1) / BlockLines
  }

  /** One past the last line of record `b` in a file of `n` lines. */
  function BlockEnd(n: nat, b: nat): nat {
    if (b + 1) * BlockLines <= n then (b + 1) * BlockLines else n
  }

  /** The samples of the continuation lines `lo` to `hi - 1`, in line order. */
  function Continuations<N, C>(rd: LineReader<N, C>, lines: seq<string>, lo: nat, hi: nat): seq<C>
    requires hi <= |lines|
    decreases hi
  {
    if hi <= lo then [] else Continuations(rd, lines, lo, hi - 1) + rd.continuation(lines[hi - 1])
  }

  /** Record `b` read from its own lines only: the header at line `91 * b`
      and the continuation lines up to the next header or the end. */
  function ParseBlock<N, C>(rd: LineReader<N, C>, lines: seq<string>, b: nat): Result<Entry<N, C>, ParseError>
    requires b * BlockLines < |lines|
  {
    var start := b * BlockLines;
    match rd.header(lines[start])
    case Err(parts) => Err(UnpackError(start, parts))
    case Ok(header) => Ok((header.0, header.1 + Continuations(rd, lines, start + 1, BlockEnd(|lines|, b))))
  }

  /** Record `b` when its header reads as `h`. */
  lemma ParseBlockOk<N, C>(rd: LineReader<N, C>, lines: seq<string>, b: nat, h: Entry<N, C>)
    requires b * BlockLines < |lines| && rd.header(lines[b * BlockLines]) == Ok(h)
    ensures ParseBlock(rd, lines, b) == Ok((h.0, h.1 + Continuations(rd, lines, b * BlockLines + 1, BlockEnd(|lines|, b))))
  {
  }

  /** The first `k` records, or the error of the first bad header among them. */
  function ParseBlocks<N, C>(rd: LineReader<N, C>, lines: seq<string>, k: nat): (r: Result<seq<Entry<N, C>>, ParseError>)
    requires k <= BlockCount(|lines|)
    ensures r.Ok? ==> |r.value| == k
  {
    if k == 0 then Ok([])
    else
      match ParseBlocks(rd, lines, k - 1)
      case Err(e) => Err(e)
      case Ok(entries) =>
        match ParseBlock(rd, lines, k - 1)
        case Err(e) => Err(e)
        case Ok(entry) => Ok(entries + [entry])
  }

  /** The dictionary the file describes: every record, stored in file order. */
  function Reference<N(==, !new), C>(rd: LineReader<N, C>, lines: seq<string>): Result<seq<Entry<N, C>>, ParseError>
  {
    match ParseBlocks(rd, lines, BlockCount(|lines|))
    case Err(e) => Err(e)
    case Ok(entries) => Ok(InsertAll([], entries))
  }

  // ---------------------------------------------------------------------
  // The pass and the block-by-block description agree.
  // ---------------------------------------------------------------------

  /** How line `i` sits among the records: it belongs to record `i / 91`,
      which is the last record of the first `i + 1` lines, and it opens that
      record exactly when `i` is a multiple of 91. */
  lemma LinePlacement(i: nat)
    ensures BlockCount(i + 1) == i / BlockLines + 1
    ensures (i / BlockLines) * BlockLines <= i
    ensures i % BlockLines == 0 ==> (i / BlockLines) * BlockLines == i && BlockCount(i) == i / BlockLines
    ensures i % BlockLines != 0 ==> (i / BlockLines) * BlockLines < i && BlockCount(i) == i / BlockLines + 1
    ensures BlockEnd(i + 1, i / BlockLines) == i + 1
  {
  }

  /** Continuation samples depend only on the lines they are read from. */
  lemma {:induction false} ContinuationsFrame<N, C>(rd: LineReader<N, C>, lines: seq<string>, other: seq<string>, lo: nat, hi: nat)
    requires hi <= |lines| && hi <= |other|
    requires forall j :: lo <= j < hi ==> lines[j] == other[j]
    ensures Continuations(rd, lines, lo, hi) == Continuations(rd, other, lo, hi)
    decreases hi
  {
    if hi > lo {
      ContinuationsFrame(rd, lines, other, lo, hi - 1);
    }
  }

  /** Records that lie wholly inside a prefix of the file read the same in
      the prefix as in the whole file. */
  lemma {:induction false} ParseBlocksFrame<N, C>(rd: LineReader<N, C>, lines: seq<string>, prefix: seq<string>, k: nat)
    requires |prefix| <= |lines| && prefix == lines[..|prefix|]
    requires k * BlockLines <= |prefix|
    ensures k <= BlockCount(|prefix|) && k <= BlockCount(|lines|)
    ensures ParseBlocks(rd, lines, k) == ParseBlocks(rd, prefix, k)
    decreases k
  {
    if k > 0 {
      ParseBlocksFrame(rd, lines, prefix, k - 1);
      var b := k - 1;
      assert BlockEnd(|lines|, b) == BlockEnd(|prefix|, b) == k * BlockLines;
      ContinuationsFrame(rd, lines, prefix, b * BlockLines + 1, k * BlockLines);
      assert lines[b * BlockLines] == prefix[b * BlockLines];
    }
  }

  /** The parser state once the records `entries` have been read, the last
      of them still open. */
  function OpenState<N(==, !new), C>(entries: seq<Entry<N, C>>): ParserState<N, C>
    requires |entries| > 0
  {
    var last := entries[|entries| - 1];
    ParserState(InsertAll([], entries[..|entries| - 1]), Some(last.0), last.1)
  }

  /** What the loop invariant promises after the non-empty prefix `lines`:
      every record but the last stored in order, the last one open with
      exactly the samples of its own lines read so far. */
  function Expected<N(==, !new), C>(rd: LineReader<N, C>, lines: seq<string>): Result<ParserState<N, C>, ParseError>
    requires |lines| > 0
  {
    match ParseBlocks(rd, lines, BlockCount(|lines|))
    case Err(e) => Err(e)
    case Ok(entries) => Ok(OpenState(entries))
  }

  /** The first line opens the first record. */
  lemma FirstStep<N(!new), C>(rd: LineReader<N, C>, lines: seq<string>)
    requires |lines| == 1
    ensures Run(rd, lines) == Expected(rd, lines)
  {
    assert Run(rd, lines[..0]) == Ok(Initial());
    assert BlockCount(1) == 1 && BlockEnd(1, 0) == 1;
    assert ParseBlocks(rd, lines, 0) == Ok([]);
    match rd.header(lines[0])
    case Err(parts) =>
    case Ok(h) =>
      assert h.1 + [] == h.1;
  }

  /** A header line closes the open record and opens a new one. */
  lemma HeaderStep<N(!new), C>(rd: LineReader<N, C>, lines: seq<string>)
    requires |lines| > 1 && (|lines| - 1) % BlockLines == 0
    requires Run(rd, lines[..|lines| - 1]) == Expected(rd, lines[..|lines| - 1])
    ensures Run(rd, lines) == Expected(rd, lines)
  {
    var i := |lines| - 1;
    var prefix := lines[..i];
    var b := i / BlockLines;
    LinePlacement(i);
    assert BlockCount(|prefix|) == b && BlockCount(|lines|) == b + 1;
    assert b * BlockLines == i && BlockEnd(|lines|, b) == i + 1;
    ParseBlocksFrame(rd, lines, prefix, b);
    match ParseBlocks(rd, prefix, b)
    case Err(e) =>
      assert Run(rd, prefix) == Err(e);
    case Ok(entries) =>
      HeaderOpensRecord(rd, lines, entries);
  }

  /** The header step once the records before it read as `entries`: the
      last of them is stored and the header's record is opened. */
  lemma HeaderOpensRecord<N(!new), C>(rd: LineReader<N, C>, lines: seq<string>, entries: seq<Entry<N, C>>)
    requires |entries| > 0 && |entries| * BlockLines == |lines| - 1 && (|lines| - 1) % BlockLines == 0
    requires BlockCount(|lines|) == |entries| + 1 && BlockEnd(|lines|, |entries|) == |lines|
    requires ParseBlocks(rd, lines, |entries|) == Ok(entries)
    requires Run(rd, lines[..|lines| - 1]) == Ok(OpenState(entries))
    ensures Run(rd, lines) == Expected(rd, lines)
  {
    var i := |lines| - 1;
    var b := |entries|;
    var st := OpenState(entries);
    assert entries[..b - 1] + [entries[b - 1]] == entries;
    assert Flush(st) == InsertAll([], entries);
    assert Run(rd, lines) == Step(rd, st, i, lines[i]);
    match rd.header(lines[i])
    case Err(parts) =>
      assert ParseBlock(rd, lines, b) == Err(UnpackError(i, parts));
    case Ok(h) =>
      assert Continuations(rd, lines, i + 1, i + 1) == [];
      assert ParseBlock(rd, lines, b) == Ok((h.0, h.1 + []));
      assert h.1 + [] == h.1;
      assert (entries + [(h.0, h.1 + [])])[..b] == entries;
  }

  /** A continuation line at index `i` extends the samples of the record
      it belongs to, read from the lines before it. */
  lemma ContinuationExtendsBlock<N, C>(rd: LineReader<N, C>, lines: seq<string>, b: nat)
    requires |lines| > 1 && b * BlockLines < |lines| - 1 < (b + 1) * BlockLines
    ensures ParseBlock(rd, lines, b)
         == match ParseBlock(rd, lines[..|lines| - 1], b)
            case Err(e) => Err(e)
            case Ok(entry) => Ok((entry.0, entry.1 + rd.continuation(lines[|lines| - 1])))
  {
    var i := |lines| - 1;
    var prefix := lines[..i];
    var start := b * BlockLines;
    ContinuationsFrame(rd, lines, prefix, start + 1, i);
    assert lines[start] == prefix[start];
    assert BlockEnd(|prefix|, b) == i && BlockEnd(|lines|, b) == i + 1;
    match rd.header(lines[start])
    case Err(parts) =>
    case Ok(h) =>
      var before := Continuations(rd, prefix, start + 1, i);
      var added := rd.continuation(lines[i]);
      assert Continuations(rd, lines, start + 1, i + 1) == before + added;
      ParseBlockOk(rd, prefix, b, h);
      ParseBlockOk(rd, lines, b, h);
      assert h.1 + (before + added) == (h.1 + before) + added;
  }

  /** In the record description, a continuation line extends the samples
      of the last record and changes nothing else. */
  lemma ContinuationExtendsLastBlock<N, C>(rd: LineReader<N, C>, lines: seq<string>)
    requires |lines| > 1 && (|lines| - 1) % BlockLines != 0
    ensures BlockCount(|lines|) == BlockCount(|lines| - 1) > 0
    ensures ParseBlocks(rd, lines, BlockCount(|lines|))
         == match ParseBlocks(rd, lines[..|lines| - 1], BlockCount(|lines|))
            case Err(e) => Err(e)
            case Ok(es) => Ok(es[..|es| - 1] + [(es[|es| - 1].0, es[|es| - 1].1 + rd.continuation(lines[|lines| - 1]))])
  {
    var i := |lines| - 1;
    var prefix := lines[..i];
    var b := i / BlockLines;
    LinePlacement(i);
    ParseBlocksFrame(rd, lines, prefix, b);
    ContinuationExtendsBlock(rd, lines, b);
    match ParseBlocks(rd, prefix, b)
    case Err(e) =>
    case Ok(entries) =>
      match ParseBlock(rd, prefix, b)
      case Err(e) =>
      case Ok(entry) =>
        assert (entries + [entry])[..b] == entries;
  }

  /** A continuation line adds its samples to the open record only. */
  lemma ContinuationStep<N(!new), C>(rd: LineReader<N, C>, lines: seq<string>)
    requires |lines| > 1 && (|lines| - 1) % BlockLines != 0
    requires Run(rd, lines[..|lines| - 1]) == Expected(rd, lines[..|lines| - 1])
    ensures Run(rd, lines) == Expected(rd, lines)
  {
    var i := |lines| - 1;
    var prefix := lines[..i];
    ContinuationExtendsLastBlock(rd, lines);
    match ParseBlocks(rd, prefix, BlockCount(i))
    case Err(e) =>
    case Ok(es) =>
      var last := (es[|es| - 1].0, es[|es| - 1].1 + rd.continuation(lines[i]));
      assert (es[..|es| - 1] + [last])[..|es| - 1] == es[..|es| - 1];
  }

  /** The loop invariant of `file_to_dict` holds after every non-empty
      prefix of the file. */
  lemma {:induction false} RunInvariant<N(!new), C>(rd: LineReader<N, C>, lines: seq<string>)
    requires |lines| > 0
    ensures Run(rd, lines) == Expected(rd, lines)
    decreases |lines|
  {
    var i := |lines| - 1;
    if i == 0 {
      FirstStep(rd, lines);
    } else {
      RunInvariant(rd, lines[..i]);
      if i % BlockLines == 0 {
        HeaderStep(rd, lines);
      } else {
        ContinuationStep(rd, lines);
      }
    }
  }

  /** `file_to_dict` stores every record of the file, the last one included,
      exactly as the record format describes it. */
  lemma ParseMatchesReference<N(!new), C>(rd: LineReader<N, C>, lines: seq<string>)
    ensures Parse(rd, lines) == Reference(rd, lines)
  {
    if lines != [] {
      RunInvariant(rd, lines);
      match ParseBlocks(rd, lines, BlockCount(|lines|))
      case Err(e) =>
      case Ok(entries) =>
        assert entries[..|entries| - 1] + [entries[|entries| - 1]] == entries;
    }
  }

  // ---------------------------------------------------------------------
  // What follows for `file_to_dict`.
  // ---------------------------------------------------------------------

  /** The records of the file, each read from its own lines. */
  function Records<N, C>(ex: Extractors<N, C>, lines: seq<string>): Result<seq<Entry<N, C>>, ParseError> {
    ParseBlocks(Reader(ex), lines, BlockCount(|lines|))
  }

  /** `file_to_dict` succeeds exactly when every record can be read, and
      an empty file gives an empty dictionary. */
  lemma FileToDictSucceeds<N(!new), C>(ex: Extractors<N, C>, lines: seq<string>)
    ensures FileToDict(ex, lines).Ok? <==> Records(ex, lines).Ok?
    ensures lines == [] ==> FileToDict(ex, lines) == Ok([])
  {
    ParseMatchesReference(Reader(ex), lines);
  }

  /** The keys `file_to_dict` stores: each once, in the order of the first
      record that carries it, so there are at most ceil(lines / 91) of them. */
  lemma FileToDictKeys<N(!new), C>(ex: Extractors<N, C>, lines: seq<string>)
    requires FileToDict(ex, lines).Ok?
    ensures Records(ex, lines).Ok?
    ensures var d := FileToDict(ex, lines).value;
            && DistinctKeys(d)
            && Keys(d) == FirstOccurrences(Keys(Records(ex, lines).value))
            && |d| <= BlockCount(|lines|)
  {
    ParseMatchesReference(Reader(ex), lines);
    InsertAllKeys(Records(ex, lines).value);
    InsertAllDistinctKeys(Records(ex, lines).value);
  }

  /** No record is lost and a repeated key takes the samples of its last
      record: the dictionary maps every key to the samples of the last
      record carrying it, the last record of the file included. */
  lemma FileToDictLastRecordWins<N(!new), C>(ex: Extractors<N, C>, lines: seq<string>, k: seq<N>)
    requires FileToDict(ex, lines).Ok?
    ensures Records(ex, lines).Ok?
    ensures Lookup(FileToDict(ex, lines).value, k) == LastValue(Records(ex, lines).value, k)
  {
    ParseMatchesReference(Reader(ex), lines);
    InsertAllLastWins(Records(ex, lines).value, k);
  }

  /** When no two records share a key, the dictionary lists the records
      themselves, in file order. */
  lemma FileToDictDistinctRecords<N(!new), C>(ex: Extractors<N, C>, lines: seq<string>)
    requires Records(ex, lines).Ok? && DistinctKeys(Records(ex, lines).value)
    ensures FileToDict(ex, lines) == Records(ex, lines)
  {
    ParseMatchesReference(Reader(ex), lines);
    InsertAllDistinct(Records(ex, lines).value);
  }

  /** Line `i` opens a record whose header `rd` cannot read. */
  predicate HeaderFails<N, C>(rd: LineReader<N, C>, lines: seq<string>, i: nat) {
    i < |lines| && i % BlockLines == 0 && rd.header(lines[i]).Err?
  }

  /** The only record header among lines `b * 91` to `b * 91 + 90` is the
      first of them. */
  lemma OneHeaderPerBlock(i: nat, b: nat)
    requires i % BlockLines == 0 && b * BlockLines <= i < (b + 1) * BlockLines
    ensures i == b * BlockLines
  {
    var r := i - b * BlockLines;
    assert 0 <= r < 91 && i == b * 91 + r;
    assert (b * 91 + r) % 91 == r;
  }

  /** Reading the first `k` records fails exactly when one of their
      headers cannot be read, and then it reports the first such header. */
  lemma {:induction false} ParseBlocksFailure<N, C>(rd: LineReader<N, C>, lines: seq<string>, k: nat)
    requires k <= BlockCount(|lines|)
    ensures ParseBlocks(rd, lines, k).Err? <==> exists i: nat :: i < k * BlockLines && HeaderFails(rd, lines, i)
    ensures ParseBlocks(rd, lines, k).Err? ==>
              var e := ParseBlocks(rd, lines, k).error;
              && HeaderFails(rd, lines, e.lineNumber)
              && rd.header(lines[e.lineNumber]) == Err(e.parts)
              && forall j: nat :: j < e.lineNumber ==> !HeaderFails(rd, lines, j)
    decreases k
  {
    if k > 0 {
      var b := k - 1;
      var start := b * BlockLines;
      assert k * BlockLines == start + BlockLines;
      assert start % BlockLines == 0;
      ParseBlocksFailure(rd, lines, b);
      forall i: nat | start <= i < k * BlockLines && HeaderFails(rd, lines, i)
        ensures i == start
      {
        OneHeaderPerBlock(i, b);
      }
      match ParseBlocks(rd, lines, b)
      case Err(e) =>
        assert ParseBlocks(rd, lines, k) == Err(e);
      case Ok(entries) =>
        match rd.header(lines[start])
        case Err(parts) =>
          assert ParseBlocks(rd, lines, k) == Err(UnpackError(start, parts));
          assert HeaderFails(rd, lines, start);
        case Ok(h) =>
          assert ParseBlocks(rd, lines, k).Ok?;
          assert !HeaderFails(rd, lines, start);
    }
  }

  /** `file_to_dict` raises exactly when some line at a multiple of 91 does
      not contain the separator exactly once; the error names the first such
      line and the number of pieces its split produced. */
  lemma FileToDictFailure<N(!new), C>(ex: Extractors<N, C>, lines: seq<string>)
    ensures FileToDict(ex, lines).Err? <==>
              exists i: nat :: i < |lines| && i % BlockLines == 0 && Count(lines[i], Separator) != 1
    ensures FileToDict(ex, lines).Err? ==>
              var e := FileToDict(ex, lines).error;
              && e.lineNumber < |lines| && e.lineNumber % BlockLines == 0
              && e.parts == Count(lines[e.lineNumber], Separator) + 1
              && forall j: nat :: j < e.lineNumber && j % BlockLines == 0 ==> Count(lines[j], Separator) == 1
  {
    var rd := Reader(ex);
    var n := |lines|;
    ParseMatchesReference(rd, lines);
    ParseBlocksFailure(rd, lines, BlockCount(n));
    HeaderFailsIsBadSeparator(ex, lines);
    CoveredByBlocks(n);
  }

  /** A header line fails to read exactly when its separator count is not one. */
  lemma HeaderFailsIsBadSeparator<N, C>(ex: Extractors<N, C>, lines: seq<string>)
    ensures forall i: nat :: HeaderFails(Reader(ex), lines, i) <==>
              i < |lines| && i % BlockLines == 0 && Count(lines[i], Separator) != 1
  {
  }

  /** Every line lies within the records the file is cut into. */
  lemma CoveredByBlocks(n: nat)
    ensures n <= BlockCount(n) * BlockLines
  {
    if n > 0 {
      LinePlacement(n - 1);
      var q := (n - 1) / BlockLines;
      assert q * BlockLines <= n - 1;
      assert n - 1 < q * BlockLines + BlockLines;
    }
  }

  /** Continuation samples read from a slice of the file are those read at
      the same lines of the whole file. */
  lemma {:induction false} ContinuationsShift<N, C>(rd: LineReader<N, C>, lines: seq<string>, off: nat, end: nat, lo: nat, hi: nat)
    requires off <= lo && off <= hi <= end <= |lines|
    ensures Continuations(rd, lines[off..end], lo - off, hi - off) == Continuations(rd, lines, lo, hi)
    decreases hi
  {
    if lo < hi {
      ContinuationsShift(rd, lines, off, end, lo, hi - 1);
      assert lines[off..end][hi - 1 - off] == lines[hi - 1];
    }
  }

  /** Read on its own, a record's slice of the file is a single record
      equal to the one read in place. */
  lemma SliceIsOneBlock<N, C>(rd: LineReader<N, C>, lines: seq<string>, b: nat)
    requires b * BlockLines < |lines|
    ensures var chunk := lines[b * BlockLines..BlockEnd(|lines|, b)];
            && BlockCount(|chunk|) == 1
            && ParseBlocks(rd, chunk, 1)
               == match ParseBlock(rd, lines, b)
                  case Ok(entry) => Ok([entry])
                  case Err(e) => Err(UnpackError(0, e.parts))
  {
    var start := b * BlockLines;
    var chunk := lines[start..BlockEnd(|lines|, b)];
    assert 1 <= |chunk| <= BlockLines;
    assert BlockCount(|chunk|) == 1;
    assert ParseBlocks(rd, chunk, 0) == Ok([]);
    assert 0 * BlockLines == 0 && chunk[0] == lines[start];
    match rd.header(lines[start])
    case Err(parts) =>
    case Ok(h) =>
      SliceBlockOk(rd, lines, b, h);
      assert [] + [ParseBlock(rd, lines, b).value] == [ParseBlock(rd, lines, b).value];
  }

  /** A record whose header reads as `h` reads the same from its own slice
      of the file. */
  lemma SliceBlockOk<N, C>(rd: LineReader<N, C>, lines: seq<string>, b: nat, h: Entry<N, C>)
    requires b * BlockLines < |lines| && rd.header(lines[b * BlockLines]) == Ok(h)
    ensures ParseBlock(rd, lines[b * BlockLines..BlockEnd(|lines|, b)], 0) == ParseBlock(rd, lines, b)
  {
    var start := b * BlockLines;
    var end := BlockEnd(|lines|, b);
    var chunk := lines[start..end];
    assert 1 <= |chunk| <= BlockLines && BlockEnd(|chunk|, 0) == |chunk|;
    assert 0 * BlockLines == 0 && chunk[0] == lines[start];
    ContinuationsShift(rd, lines, start, end, start + 1, end);
    ParseBlockOk(rd, chunk, 0, h);
    ParseBlockOk(rd, lines, b, h);
  }

  /** No samples leak between records: record `b` is exactly what
      `file_to_dict` returns for a file made of that record's lines alone. */
  lemma BlockStandsAlone<N(!new), C>(ex: Extractors<N, C>, lines: seq<string>, b: nat)
    requires b * BlockLines < |lines|
    ensures FileToDict(ex, lines[b * BlockLines..BlockEnd(|lines|, b)])
         == match ParseBlock(Reader(ex), lines, b)
            case Ok(entry) => Ok([entry])
            case Err(e) => Err(UnpackError(0, e.parts))
  {
    var chunk := lines[b * BlockLines..BlockEnd(|lines|, b)];
    ParseMatchesReference(Reader(ex), chunk);
    SliceIsOneBlock(Reader(ex), lines, b);
    match ParseBlock(Reader(ex), lines, b)
    case Err(e) =>
    case Ok(entry) =>
      assert InsertAll([], [entry]) == [entry];
  }
}
