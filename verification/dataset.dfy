/** The dataset adapter `rEPhiDataset`: the parsed dictionary together with
    its keys (positions) and its value lists (fields) as parallel rows, and
    the optional hooks applied when an item is fetched. Tensors are modelled
    as sequences of rows. */
module Dataset {
  import opened Results
  import opened AssocList
  import opened LineFormat
  import opened BlockParser

  /** The `IndexError` of indexing a tensor's first dimension. */
  datatype IndexError = OutOfBounds(index: int, size: nat)

  /** An `rEPhiDataset`: `entries` is `self.EPhi_positions`, `positions` and
      `fields` are the rows of `self.positions` and `self.EPhi`. */
  datatype EPhiDataset<!N, !C> = EPhiDataset(
    entries: seq<Entry<N, C>>,
    positions: seq<seq<N>>,
    fields: seq<seq<C>>,
    transform: Option<seq<C> -> seq<C>>,
    targetTransform: Option<seq<N> -> seq<N>>)

  /** The rows line up with the dictionary they were built from. */
  ghost predicate WellFormed<N, C>(ds: EPhiDataset<N, C>) {
    && |ds.positions| == |ds.entries|
    && |ds.fields| == |ds.entries|
    && (forall i :: 0 <= i < |ds.entries| ==> ds.positions[i] == ds.entries[i].0)
    && (forall i :: 0 <= i < |ds.entries| ==> ds.fields[i] == ds.entries[i].1)
  }

  /** `rEPhiDataset(file_path, transform, target_transform)` on a file whose
      lines are `lines`. */
  function Load<N(==, !new), C>(
    ex: Extractors<N, C>, lines: seq<string>,
    transform: Option<seq<C> -> seq<C>>, targetTransform: Option<seq<N> -> seq<N>>)
    : (r: Result<EPhiDataset<N, C>, ParseError>)
    ensures r.Ok? <==> FileToDict(ex, lines).Ok?
    ensures r.Err? ==> r.error == FileToDict(ex, lines).error
    ensures r.Ok? ==> && r.value.entries == FileToDict(ex, lines).value
                      && WellFormed(r.value)
                      && r.value.transform == transform
                      && r.value.targetTransform == targetTransform
  {
    match FileToDict(ex, lines)
    case Err(e) => Err(e)
    case Ok(d) => Ok(EPhiDataset(d, Keys(d), Values(d), transform, targetTransform))
  }

  /** `__len__`: the number of entries of the dictionary. */
  function Length<N, C>(ds: EPhiDataset<N, C>): nat {
    |ds.entries|
  }

  /** `rows[idx]` on a tensor: an index below zero counts from the end, and
      an index outside `-|rows| .. |rows| - 1` raises. */
  function Row<T>(rows: seq<T>, idx: int): Result<T, IndexError> {
    if 0 <= idx < |rows| then Ok(rows[idx])
    else if -|rows| <= idx < 0 then Ok(rows[|rows| + idx])
    else Err(OutOfBounds(idx, |rows|))
  }

  /** An optional hook applied to a value: the value itself when the hook
      is `None`. */
  function Apply<T>(hook: Option<T -> T>, x: T): T {
    match hook
    case None => x
    case Some(f) => f(x)
  }

  /** `__getitem__(idx)`: the position row and the field row at `idx`, the
      field passed through `transform` and the position through
      `target_transform`. */
  function GetItem<N, C>(ds: EPhiDataset<N, C>, idx: int): Result<(seq<N>, seq<C>), IndexError> {
    match Row(ds.positions, idx)
    case Err(e) => Err(e)
    case Ok(position) =>
      match Row(ds.fields, idx)
      case Err(e) => Err(e)
      case Ok(field) => Ok((Apply(ds.targetTransform, position), Apply(ds.transform, field)))
  }

  /** Indexing a loaded dataset: its length is the number of dictionary
      entries; item `idx` exists exactly for `-len <= idx < len`; a negative
      index names the same item as `idx + len`; and item `idx` pairs the
      idx-th key, passed through `target_transform` only, with the idx-th
      value list, passed through `transform` only. */
  lemma LoadedIndexing<N(!new), C>(
    ex: Extractors<N, C>, lines: seq<string>,
    transform: Option<seq<C> -> seq<C>>, targetTransform: Option<seq<N> -> seq<N>>, idx: int)
    requires Load(ex, lines, transform, targetTransform).Ok?
    ensures var ds := Load(ex, lines, transform, targetTransform).value;
            var d := FileToDict(ex, lines).value;
            && Length(ds) == |d|
            && (GetItem(ds, idx).Ok? <==> -|d| <= idx < |d|)
            && (-|d| <= idx < 0 ==> GetItem(ds, idx) == GetItem(ds, idx + |d|))
            && (0 <= idx < |d| ==> GetItem(ds, idx) == Ok((Apply(targetTransform, d[idx].0), Apply(transform, d[idx].1))))
  {
  }

  /** When no two records share a key, item `idx` of the dataset is record
      `idx` of the file, with the hooks applied. */
  lemma ItemIsRecord<N(!new), C>(
    ex: Extractors<N, C>, lines: seq<string>,
    transform: Option<seq<C> -> seq<C>>, targetTransform: Option<seq<N> -> seq<N>>, idx: int)
    requires Load(ex, lines, transform, targetTransform).Ok?
    requires Records(ex, lines).Ok? && DistinctKeys(Records(ex, lines).value)
    requires 0 <= idx < |Records(ex, lines).value|
    ensures var ds := Load(ex, lines, transform, targetTransform).value;
            var record := Records(ex, lines).value[idx];
            GetItem(ds, idx) == Ok((Apply(targetTransform, record.0), Apply(transform, record.1)))
  {
    var records := Records(ex, lines).value;
    FileToDictDistinctRecords(ex, lines);
    assert FileToDict(ex, lines).value == records;
    LoadedIndexing(ex, lines, transform, targetTransform, idx);
    assert FileToDict(ex, lines).value[idx] == records[idx];
  }
}
