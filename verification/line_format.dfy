/** How `file_to_dict` reads one line of a record.

    A header line looks like `(x, y, z, w),[c0, c1, ...` : the numbers before
    the separator `),[` form the record's key, the complex literals after it
    start the record's value list. A continuation line carries more complex
    literals, the last one of a record possibly closed by `]`.

    The two regular-expression extractors (numbers in the key text, complex
    literals in the value text, each together with its `float` or `complex`
    conversion) are parameters of the model. */
module LineFormat {
  import opened Results
  import opened Text

  /** The text that ends the key tuple and opens the value list of a header. */
  const Separator: string := "),["

  /** The two regular-expression extractors, each with its conversion:
      `numbers` finds the numeric literals of a key text and converts them
      with `float`; `complexes` finds the complex literals of a value text
      and converts them with `complex`. */
  datatype Extractors<N, C> = Extractors(numbers: string -> seq<N>, complexes: string -> seq<C>)

  /** One stored record: the key tuple and its list of complex samples. */
  type Entry<N, C> = (seq<N>, seq<C>)

  /** The separator cannot overlap itself, so `re.split` cuts a line at every
      occurrence of it. */
  lemma SeparatorDoesNotOverlap()
    ensures |Separator| == 3 && !SelfOverlapping(Separator)
  {
    forall k | 0 < k < 3 ensures Separator[k..] != Separator[..3 - k] {
      if k == 1 {
        assert Separator[k..][0] == ',';
      } else {
        assert Separator[k..][0] == '[';
      }
    }
  }

  /** Splitting a header line on the separator and unpacking the pieces
      into a key text and a value text: succeeds exactly when the separator
      occurs once, and then cuts the line around it; otherwise the unpack
      fails, reporting how many pieces it was given. */
  function SplitHeader(line: string): (r: Result<(string, string), nat>)
    ensures r.Ok? <==> Count(line, Separator) == 1
    ensures r.Ok? ==> r.value.0 + Separator + r.value.1 == line
    ensures r.Err? ==> r.error == Count(line, Separator) + 1
  {
    SeparatorDoesNotOverlap();
    SplitCount(line, Separator);
    SplitJoin(line, Separator);
    var parts := Split(line, Separator);
    if |parts| == 2 then
      assert Join(parts, Separator) == parts[0] + Separator + parts[1];
      Ok((parts[0], parts[1]))
    else Err(|parts|)
  }

  /** Reading a header line that was assembled from a key text and a value
      text around a single separator gives back those two texts. */
  lemma {:induction false} SplitHeaderOfAssembled(keyText: string, tail: string)
    requires Count(keyText + Separator + tail, Separator) == 1
    ensures SplitHeader(keyText + Separator + tail) == Ok((keyText, tail))
  {
    var line := keyText + Separator + tail;
    var halves := SplitHeader(line).value;
    assert OccursAt(line, Separator, |keyText|) by {
      assert line[|keyText|..|keyText| + |Separator|] == Separator;
    }
    assert OccursAt(line, Separator, |halves.0|) by {
      assert line == halves.0 + Separator + halves.1;
      assert line[|halves.0|..|halves.0| + |Separator|] == Separator;
    }
    if |halves.0| < |keyText| {
      CountTwoOccurrences(line, Separator, |halves.0|, |keyText|);
    } else if |keyText| < |halves.0| {
      CountTwoOccurrences(line, Separator, |keyText|, |halves.0|);
    } else {
      assert halves.0 == line[..|keyText|] == keyText;
      assert halves.1 == line[|keyText| + |Separator|..] == tail;
    }
  }

  /** The samples a header contributes: the complex literals of the text
      after the separator, unless that text is blank. */
  function HeaderValues<N, C>(ex: Extractors<N, C>, tail: string): (vs: seq<C>)
    ensures Strip(tail) == [] ==> vs == []
  {
    if Strip(tail) != [] then ex.complexes(tail) else []
  }

  /** A header line turned into its key and its first samples. The key is
      extracted from the text before the separator with `)` appended. */
  function ParseHeader<N, C>(ex: Extractors<N, C>, line: string): (r: Result<Entry<N, C>, nat>)
    ensures r.Ok? <==> Count(line, Separator) == 1
  {
    match SplitHeader(line)
    case Err(parts) => Err(parts)
    case Ok(halves) => Ok((ex.numbers(halves.0 + ")"), HeaderValues(ex, halves.1)))
  }

  /** The key of a header is what the number extractor finds in the text
      before the separator with `)` appended; its first samples are what
      the value text after the separator holds. */
  lemma HeaderOfAssembled<N, C>(ex: Extractors<N, C>, keyText: string, tail: string)
    requires Count(keyText + Separator + tail, Separator) == 1
    ensures ParseHeader(ex, keyText + Separator + tail) == Ok((ex.numbers(keyText + ")"), HeaderValues(ex, tail)))
  {
    SplitHeaderOfAssembled(keyText, tail);
  }

  /** A continuation line after `line.strip().rstrip(']')`. */
  function Cleaned(line: string): string {
    TrimEnd(Strip(line), IsCloseBracket)
  }

  /** A continuation line the parser skips: nothing is left of it after
      stripping whitespace and closing brackets. */
  predicate IsBlankContinuation(line: string) {
    Strip(Cleaned(line)) == []
  }

  /** The samples a continuation line contributes. */
  function ContinuationValues<N, C>(ex: Extractors<N, C>, line: string): (vs: seq<C>)
    ensures IsBlankContinuation(line) ==> vs == []
  {
    if !IsBlankContinuation(line) then ex.complexes(Cleaned(line)) else []
  }

  /** A continuation line is skipped exactly when, once surrounding
      whitespace is removed, it consists of closing brackets only (or of
      nothing at all). */
  lemma BlankContinuation(line: string)
    ensures IsBlankContinuation(line) <==> forall i :: 0 <= i < |Strip(line)| ==> Strip(line)[i] == ']'
  {
    var t := Strip(line);
    var u := Cleaned(line);
    if IsBlankContinuation(line) {
      assert u == [];
      forall i | 0 <= i < |t| ensures t[i] == ']' {
        assert IsCloseBracket(t[i]);
      }
    }
    if forall i :: 0 <= i < |t| ==> t[i] == ']' {
      assert u == [];
    }
  }
}
