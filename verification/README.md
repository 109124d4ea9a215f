# EPhi record parser and dataset adapter, modelled in Dafny

`EPhi_Prediction.py` trains a small regressor from antenna-array geometry to a
complex far-field pattern (EPhi). Its own logic is the reader for the training
data. The model covers that reader and the two helpers around it:

- `file_to_dict`: the text file is cut into records of 91 lines. Line `i`
  (0-based) opens a record exactly when `i % 91 == 0`. A header line
  `(x, y, z, w),[c0, c1, ...` is split on `),[`. The numbers before the
  separator, with `)` appended, form the key. The complex literals after it
  start the record's sample list. Each of the next 90 lines adds the complex
  literals left after `strip().rstrip(']')`; a line that is blank after that
  adds nothing. A record is stored when the next header arrives, and the last
  one is stored when the input runs out. Storing follows Python `dict`
  semantics: a repeated key keeps its first position and takes the new list.
- `rEPhiDataset`: length and indexing over the parsed dictionary. Keys and
  value lists become two parallel row sequences. Negative indices count from
  the end, as tensor indexing does. `transform` is applied to the field only
  and `target_transform` to the position only.
- `ComplexConvNetwork.num_flat_features`: the product of every dimension
  after the batch dimension.

Modules, leaves first:

- `Results` (`results.dfy`): `Option` and `Result`.
- `Text` (`text.dfy`): `str.strip()` with Python's whitespace set,
  `str.rstrip(']')`, and `re.split` on a literal pattern, with its inverse
  `Join` and an occurrence count.
- `AssocList` (`assoc_list.dfy`): the insertion-ordered dictionary.
- `LineFormat` (`line_format.dfy`): reading one header or continuation line.
- `BlockParser` (`block_parser.dfy`): the parser as written, a left-to-right
  fold over the lines. It is proved equal to an independent block-by-block
  description of the format, `Reference`, which reads record `b` from lines
  `91*b .. 91*b+90` alone and stores the records in file order.
- `Dataset` (`dataset.dfy`): `rEPhiDataset`.
- `FlatFeatures` (`flat_features.dfy`): `num_flat_features`.

The regular-expression extractors are parameters of the model
(`LineFormat.Extractors`). `numbers` is the pattern on line 23 together with
`float`. `complexes` is the pattern on line 12 together with `complex`. Both
are arbitrary total functions from text to a sequence of values, so they
never raise. Every property below therefore holds for any such extractors,
and for any reader of header and continuation lines where the statement is
about `LineReader`. The file is given as its sequence of lines.

Two behaviours of the code that the model keeps as they are:

- A header line without exactly one `),[` makes the two-way unpack on line
  21 raise `ValueError`. The model returns `Err(UnpackError(line, pieces))`.
  This is the only error the model raises; the conversion errors it leaves
  out are listed under "Left out".
- Keys are not checked for uniqueness. A repeated key overwrites the earlier
  value list and keeps the earlier position (lines 20 and 38).

## Model

| member | source | states |
|---|---|---|
| Text.TrimStart | EPhi_Prediction.py:26 | The result is a suffix of the input; every dropped character is droppable; the first kept character is not. |
| Text.TrimEnd | EPhi_Prediction.py:31 | `rstrip`: the result is a prefix of the input; every dropped character is droppable; the last kept character is not. |
| Text.Strip | EPhi_Prediction.py:31-32 | `strip()` is the stretch of the input between its leading and its trailing whitespace runs. It is empty exactly when every character is whitespace; otherwise it neither starts nor ends with whitespace. |
| Text.Split | EPhi_Prediction.py:21 | `re.split` on the literal `),[` yields at least one piece. Its content is pinned down by `Text.SplitJoin` and `Text.SplitCount`. |
| Text.SplitJoin | EPhi_Prediction.py:21 | Gluing the pieces of `re.split` back together with the separator gives the original line. |
| Text.SplitCount | EPhi_Prediction.py:21 | For a separator that cannot overlap itself, `re.split` yields one more piece than there are occurrences. |
| LineFormat.SeparatorDoesNotOverlap | EPhi_Prediction.py:21 | The pattern `),[` matches three characters, and no proper suffix of it is also a prefix. |
| LineFormat.SplitHeader | EPhi_Prediction.py:21 | The unpack succeeds exactly when `),[` occurs once. The two halves then rebuild the line around the separator. On failure the error carries the number of pieces (occurrences + 1). |
| LineFormat.SplitHeaderOfAssembled | EPhi_Prediction.py:21 | A line built as key text + `),[` + value text, with one separator, splits back into exactly those two texts. |
| LineFormat.HeaderValues | EPhi_Prediction.py:26-28 | A value text that is blank after `strip()` contributes no samples. |
| LineFormat.ParseHeader | EPhi_Prediction.py:21-28 | A header line is read successfully exactly when it contains the separator once. |
| LineFormat.HeaderOfAssembled | EPhi_Prediction.py:21-28 | For a line assembled from key text and value text: the key is the number extractor applied to key text + `)`; the first samples are those of the value text. |
| LineFormat.Cleaned | EPhi_Prediction.py:31 | `line.strip().rstrip(']')`. It has no contract of its own; `LineFormat.BlankContinuation` characterises it. |
| LineFormat.IsBlankContinuation | EPhi_Prediction.py:32 | The test `if line.strip()` after cleaning. It has no contract of its own; `LineFormat.BlankContinuation` characterises it. |
| LineFormat.ContinuationValues | EPhi_Prediction.py:31-34 | A continuation line that is blank after `strip().rstrip(']')` contributes no samples. |
| LineFormat.BlankContinuation | EPhi_Prediction.py:31-32 | A continuation line is skipped exactly when its stripped text consists only of `]` characters (or is empty). |
| AssocList.IndexOf | EPhi_Prediction.py:20 | Finds the first entry with the key, and finds none exactly when the key is absent. |
| AssocList.Lookup | EPhi_Prediction.py:20 | The program never reads the dict by key; `Lookup` is the observer used to state what the store on line 20 does. It is absent exactly when `k` is not among the keys; when present, the pair of `k` and the result is an entry of the dict. |
| AssocList.Insert | EPhi_Prediction.py:20 | `data_dict[current_key] = values`. It has no contract of its own; `AssocList.InsertLookup` and `AssocList.InsertKeys` characterise it. |
| AssocList.InsertLookup | EPhi_Prediction.py:20 | After `d[k] = v`, looking up `k` gives `v` and every other key reads as before. |
| AssocList.InsertKeys | EPhi_Prediction.py:20 | `d[k] = v` keeps the key order when `k` is present and appends `k` (and the entry) otherwise; distinct keys stay distinct. |
| AssocList.InsertAllDistinctKeys | EPhi_Prediction.py:20 | A sequence of stores into an empty dict never stores a key twice. |
| AssocList.InsertAllKeys | EPhi_Prediction.py:20 | After a sequence of stores the keys are the stored keys in order of first store, so there are no more entries than stores. |
| AssocList.InsertAllLastWins | EPhi_Prediction.py:20 | After a sequence of stores each key maps to the value of its last store. |
| AssocList.InsertAllDistinct | EPhi_Prediction.py:20 | When no key repeats, a sequence of stores into an empty dict yields the entries themselves, in order. |
| BlockParser.Flush | EPhi_Prediction.py:19-20 | Storing the open record, if any. It has no contract of its own; `BlockParser.ParseMatchesReference` characterises it. |
| BlockParser.Step | EPhi_Prediction.py:17-34 | One loop iteration: header lines (index a multiple of 91) store the open record and open a new one, other lines extend the open record. It has no contract of its own; `BlockParser.RunInvariant` characterises it. |
| BlockParser.Run | EPhi_Prediction.py:15-34 | The loop over all lines. It has no contract of its own; `BlockParser.RunInvariant` characterises it. |
| BlockParser.Parse | EPhi_Prediction.py:15-40 | The loop followed by the final store. It has no contract of its own; `BlockParser.ParseMatchesReference` characterises it. |
| BlockParser.FileToDict | EPhi_Prediction.py:9-40 | `file_to_dict` with the line format of `LineFormat`. It has no contract of its own; the `BlockParser.FileToDict*` lemmas characterise it. |
| BlockParser.ParseBlocks | EPhi_Prediction.py:17-34 | Reading the first `k` records block by block, when it succeeds, yields exactly `k` records. |
| BlockParser.LinePlacement | EPhi_Prediction.py:17-18 | Line `i` belongs to record `i / 91`, the last record of the first `i + 1` lines. It opens that record exactly when `i % 91 == 0`; otherwise it continues the record opened before it. |
| BlockParser.RunInvariant | EPhi_Prediction.py:15-34 | The loop invariant after any non-empty prefix of the lines: every record but the last stored in order, the last open with exactly the samples of its own lines so far, or the error of the first bad header. |
| BlockParser.ParseMatchesReference | EPhi_Prediction.py:9-40 | The pass as written, including the final store after the loop, equals the block-by-block reference for every input. |
| BlockParser.FileToDictSucceeds | EPhi_Prediction.py:15-40 | `file_to_dict` succeeds exactly when every record can be read; an empty file gives an empty dict. |
| BlockParser.FileToDictKeys | EPhi_Prediction.py:20-23 | The stored keys are distinct, in the order of the first record carrying each, and number at most ceil(lines / 91). |
| BlockParser.FileToDictLastRecordWins | EPhi_Prediction.py:19-20 | Each key maps to the samples of the last record carrying it, the final record of the file included (no trailing record is lost). |
| BlockParser.FileToDictDistinctRecords | EPhi_Prediction.py:36-38 | When no two records share a key, the dict lists every record of the file, in file order, the last included. |
| BlockParser.ParseBlocksFailure | EPhi_Prediction.py:18-21 | Reading records fails exactly when one of their headers cannot be read, and the error reports the first such header and its piece count. |
| BlockParser.HeaderFailsIsBadSeparator | EPhi_Prediction.py:18-21 | A record header fails to read exactly when its line does not contain `),[` once. |
| BlockParser.FileToDictFailure | EPhi_Prediction.py:17-21 | `file_to_dict` raises exactly when some line at a multiple of 91 lacks a single `),[`. The error names the first such line and its piece count. |
| BlockParser.BlockStandsAlone | EPhi_Prediction.py:24-34 | No samples leak between records: record `b` is what `file_to_dict` returns for a file made of that record's lines alone. |
| Dataset.Load | EPhi_Prediction.py:43-48 | Construction fails exactly when `file_to_dict` does, with the same error. On success the stored dict is the parsed one, the position and field rows are its keys and value lists in order, and both hooks are kept. |
| Dataset.Length | EPhi_Prediction.py:50-51 | `__len__`. It has no contract of its own; `Dataset.LoadedIndexing` characterises it. |
| Dataset.Row | EPhi_Prediction.py:54-55 | Tensor indexing on the first dimension, negative indices from the end, `IndexError` otherwise. It has no contract of its own; `Dataset.LoadedIndexing` characterises it. |
| Dataset.GetItem | EPhi_Prediction.py:53-60 | `__getitem__`. It has no contract of its own; `Dataset.LoadedIndexing` characterises it. |
| Dataset.LoadedIndexing | EPhi_Prediction.py:50-60 | `len` is the number of dict entries. Item `idx` exists exactly for `-len <= idx < len`, and a negative index names item `idx + len`. Item `idx` pairs the idx-th key, passed through `target_transform` only, with the idx-th value list, passed through `transform` only. |
| Dataset.ItemIsRecord | EPhi_Prediction.py:44-60 | When no two records share a key, item `idx` is record `idx` of the file with the hooks applied. |
| FlatFeatures.NumFlatFeatures | EPhi_Prediction.py:87-92 | The result is the product of all dimensions after the first, and 1 when there are none. |
| FlatFeatures.FlattenKeepsElements | EPhi_Prediction.py:87-92 | The batch size times `num_flat_features` is the tensor's element count, and changing the batch size does not change `num_flat_features`. |

## Left out

- Opening and reading the file (line 14). The model takes the file as a sequence of lines.
- The number and complex-literal regular expressions (lines 12, 23, 27, 33) and the `float` / `complex` conversions (lines 23, 28, 34). They are opaque extractor parameters, so the model says nothing about which tokens they find or how they round.
- Key equality is equality of the extractor's number type. In Python the keys are float tuples, so `-0.0` and `0.0` would name the same key and `nan` never equals itself. The model inherits whatever equality the instantiated type has.
- Tensor construction (lines 45-46): `float32` / `complex64` rounding. Rows are kept as plain sequences of the parsed values.
- Dataset.Load: the errors `torch.tensor` raises on ragged input are not modelled. Line 45 raises when the key tuples have different lengths, for instance when key texts hold different numbers of numbers. Line 46 raises when the value lists have different lengths. The model keeps ragged rows as they are, so "fails exactly when `file_to_dict` does" holds only for files whose keys all have one length and whose value lists all have one length.
- LineFormat.ParseHeader: conversion errors are not modelled. `complex(num)` on lines 28 and 34 raises `ValueError` on some matches the loose pattern on line 12 accepts (its nine wildcards match commas and spaces, so ` 1.5, 2.5, 3.5+1j` matches and `complex` rejects it). The extractors are total functions, so "read successfully exactly when the separator occurs once" holds only for extractors that never raise.
- BlockParser.HeaderFailsIsBadSeparator: for the same reason, "a header fails exactly when its separator count is not one" holds only for extractors that never raise; a `complex` conversion error on line 28 is a further way for a header to fail that the model omits.
- BlockParser.FileToDictFailure: for the same reason, "raises exactly when some line at a multiple of 91 lacks a single `),[`" holds only for extractors that never raise; the program also raises from `complex` on lines 28 and 34.
- The network, its forward pass, training, evaluation, loss and optimizer (lines 62-85, 95-155). These are framework calls over floating point.
- The random array layout and the AEP simulator (lines 157-163): randomness and an external module that is not part of this model.
- The `rep` / `rEPhi_model` comparison (lines 165-174), which is tensor glue.
- The serialize-then-parse round trip of a whole record is covered only at the header level (`LineFormat.HeaderOfAssembled`). The model has no serializer, and the extractors are opaque, so the samples of a continuation line cannot be predicted from its text.
- The real/imaginary interleaving of the network's output layout, which belongs to the training code.
