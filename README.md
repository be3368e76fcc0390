# File intake of the data-sense dashboard's `FileDropzone`

This project models the file-selection logic of the `FileDropzone` React
component (`src/components/FileDropzone.tsx`) and proves properties of it.
The component keeps an ordered list of selected files, `files`, which starts
empty. It is configured by the props `acceptedFileTypes` (default
`.csv .xlsx .json .xml .txt`) and `maxFiles` (default 5). Three handlers
change the list:

- `validateAndAddFiles(batch)` rejects the whole batch when
  `files.length + batch.length > maxFiles`. Otherwise it keeps the files
  whose extension is accepted and appends them, in order.
- `removeFile(i)` drops the element at position `i`.
- the "Clear all" button empties the list.

Each handler reports through toast notifications and the `onFilesSelected`
callback. In the model these reports are returned as a sequence of `Event`
values, in the order the code issues them.

Files:

- `text.dfy` (module `Text`) models the JavaScript string built-ins the
  component uses: `split` with a one-character separator, `toLowerCase`
  (ASCII only), and the decimal rendering of a number in a template literal.
- `dropzone.dfy` (module `Dropzone`) holds the pure intake logic and the
  `FileDropzone` class. The pure logic covers the extension, the acceptance
  rule, the batch filter, `AddBatch`, `RemoveAt`, `ClearSelection`, and
  sessions of operations. The class has the `files` field and one method per
  handler. Each method is proved equal to the pure `Step` of its operation
  and keeps the capacity invariant.

Modelling decisions:

- The capacity invariant is `files == [] || |files| <= maxFiles`. It holds
  for every `maxFiles`, negative ones included: with a negative `maxFiles`
  every add is refused, so the list stays empty. For a non-negative
  `maxFiles` it is the same as `|files| <= maxFiles`. With a negative
  `maxFiles` even an empty batch is refused with the capacity toast, whose
  number then starts with '-' (`CapacityMessage`).
- When every file of a within-capacity batch is rejected, the code neither
  calls `onFilesSelected` nor shows the success toast. The model follows
  the code (line 67).
- "Clear all" calls `onFilesSelected([])` but shows no toast (lines 132-135).
- `removeFile` with an out-of-range index leaves the list as it is. It still
  calls `onFilesSelected` and shows "File removed" (lines 75-80).
- The page renders "Clear all" and the remove buttons only while the list is
  non-empty (line 125), and passes `removeFile` only indices of rendered
  entries (line 163). Sessions (`Op`, `Run`) also allow clearing an empty
  list and out-of-range removals. This over-approximates what the page can
  do, so `RunWithinMax` covers every session the page can produce.
- Entries of `acceptedFileTypes` are compared verbatim. An entry holding an
  upper-case letter therefore never matches (`UpperCaseEntryNeverMatches`).

## Model

| member | source | states |
|---|---|---|
| `Text.Split` | src/components/FileDropzone.tsx:57 | `split(".")` always yields at least one piece, so `pop()` never comes back empty-handed |
| `Text.SplitInverse` | src/components/FileDropzone.tsx:57 | no piece of `split(".")` contains the separator, and joining the pieces with the separator gives back the name |
| `Text.LastPieceIsMaximalSuffix` | src/components/FileDropzone.tsx:57 | `LastPiece`, i.e. `split('.').pop()`, is the longest dot-free suffix of the name: a suffix, free of dots, and either the whole name or preceded by a dot |
| `Text.SplitSingleton` | src/components/FileDropzone.tsx:57 | a name splits into a single piece exactly when it holds no dot |
| `Text.LastPieceCons` | src/components/FileDropzone.tsx:57 | `pop()` after one more leading character gives the whole string when it has no dot, else the previous last piece |
| `Text.SplitWithoutSeparator` | src/components/FileDropzone.tsx:57 | a name without a dot splits into itself alone |
| `Text.LastPieceAfterSeparator` | src/components/FileDropzone.tsx:57 | the last piece of `stem + "." + tail`, with `tail` dot-free, is `tail` |
| `Text.Lower` | src/components/FileDropzone.tsx:57 | `toLowerCase` keeps the length |
| `Text.LowerAt` | src/components/FileDropzone.tsx:57 | `toLowerCase` lowers each character in place (ASCII) |
| `Text.LowerAppend` | src/components/FileDropzone.tsx:57 | lowering a concatenation is concatenating the lowered parts |
| `Text.LowerResult` | src/components/FileDropzone.tsx:57 | a lowered string holds no upper-case letter, and lowering twice is lowering once |
| `Text.NatToDecimal` | src/components/FileDropzone.tsx:71 | the count in the success toast renders as a non-empty string of digits without a leading zero |
| `Text.IntToDecimal` | src/components/FileDropzone.tsx:51 | `maxFiles` renders with a leading '-' exactly when it is negative |
| `Text.DecimalRoundTrip` | src/components/FileDropzone.tsx:71 | reading back the rendered number gives the number |
| `Text.DecimalInjective` | src/components/FileDropzone.tsx:71 | distinct counts render as distinct strings |
| `Dropzone.Extension` | src/components/FileDropzone.tsx:57 | the extension is never empty and starts with '.' (the rest is pinned down by the rows below) |
| `Dropzone.ExtensionShape` | src/components/FileDropzone.tsx:57 | the extension starts with '.', and after it has no further dot and no upper-case letter |
| `Dropzone.ExtensionAfterLastDot` | src/components/FileDropzone.tsx:57 | for a name with a dot, the extension is '.' plus the lowered text after the last dot |
| `Dropzone.ExtensionWithoutDot` | src/components/FileDropzone.tsx:57 | for a name without a dot, the extension is '.' plus the whole lowered name, so `csv` reads as `.csv` |
| `Dropzone.LastPieceLower` | src/components/FileDropzone.tsx:57 | the text after the last dot of a lowered name is the lowered text after the last dot of the name |
| `Dropzone.ExtensionIgnoresCase` | src/components/FileDropzone.tsx:57 | the extension, and so acceptance, does not depend on the case of the name |
| `Dropzone.AcceptsDottedName` | src/components/FileDropzone.tsx:57-58 | `Accepts`: a name with a dot is accepted iff '.' plus its lowered text after the last dot is listed, or `'*'` is |
| `Dropzone.AcceptsDotlessName` | src/components/FileDropzone.tsx:57-58 | `Accepts`: a name without a dot is accepted iff '.' plus the whole lowered name is listed, or `'*'` is |
| `Dropzone.UpperCaseEntryNeverMatches` | src/components/FileDropzone.tsx:58 | an accepted-types entry with an upper-case letter never equals a file's extension |
| `Dropzone.Survivors` | src/components/FileDropzone.tsx:56-65 | the filtered batch is no longer than the batch, and each kept file comes from the batch and is accepted |
| `Dropzone.TypeErrors` | src/components/FileDropzone.tsx:60-62 | the filter emits no more errors than the batch has files, and every one is a `TypeError` event |
| `Dropzone.FilterStep` | src/components/FileDropzone.tsx:56-65 | one more file through the filter is appended when it passes and yields one type error carrying its name when it does not |
| `Dropzone.FilterByType` | src/components/FileDropzone.tsx:56-65 | the one-pass `newFiles.filter` with its per-file error toast collects exactly the files that pass and one type error per rejected file, in batch order |
| `Dropzone.FilterPartitions` | src/components/FileDropzone.tsx:56-65 | every file of the batch is either kept or reported: the two counts add up to the batch size |
| `Dropzone.SurvivorsAppend` | src/components/FileDropzone.tsx:56-65 | the filter keeps relative order: filtering `a + b` gives filtered `a` followed by filtered `b` |
| `Dropzone.TypeErrorsAppend` | src/components/FileDropzone.tsx:60-62 | type errors come out in batch order: those of `a + b` are those of `a` followed by those of `b` |
| `Dropzone.SurvivorsMultiplicity` | src/components/FileDropzone.tsx:56-65 | an accepted file is kept exactly as many times as it occurs in the batch, and a rejected file never |
| `Dropzone.TypeErrorsNameRejected` | src/components/FileDropzone.tsx:60-62 | every rejected file of the batch yields a type error carrying its name |
| `Dropzone.TypeErrorsOnlyRejected` | src/components/FileDropzone.tsx:60-62 | every type error names a rejected file of the batch |
| `Dropzone.AllPassKeepsAll` | src/components/FileDropzone.tsx:56-65 | when every file passes, the filter keeps the whole batch and emits no type error |
| `Dropzone.WildcardKeepsAll` | src/components/FileDropzone.tsx:58 | with `'*'` accepted the filter keeps the whole batch and emits no type error |
| `Dropzone.AddBatch` | src/components/FileDropzone.tsx:48-73 | adding keeps the selection within capacity and leaves the existing entries untouched at the front |
| `Dropzone.AddOverCapacity` | src/components/FileDropzone.tsx:50-53 | a batch larger than the remaining room, counted before filtering, leaves the selection unchanged and emits exactly one capacity error naming `maxFiles` and no callback |
| `Dropzone.AddWithinCapacity` | src/components/FileDropzone.tsx:56-69 | within capacity the new selection is the old one followed by the accepted files of the batch in order, stays within `maxFiles`, and the events start with the type errors |
| `Dropzone.AddAnnouncements` | src/components/FileDropzone.tsx:67-72 | the selection changes iff some file is accepted; with none accepted the events are exactly the type errors; otherwise they are the type errors followed by exactly one callback on the new list and one success toast for the number of files added |
| `Dropzone.WildcardNoTypeError` | src/components/FileDropzone.tsx:58-62 | with `'*'` accepted, adding never emits a type error |
| `Dropzone.DropIndex` | src/components/FileDropzone.tsx:76 | the positional filter shortens the list by one exactly when the index is in range |
| `Dropzone.DropIndexRemovesOne` | src/components/FileDropzone.tsx:76 | the positional filter yields `files[..i] + files[i+1..]` for an index in range and the list itself otherwise |
| `Dropzone.RemoveAt` | src/components/FileDropzone.tsx:75-80 | removal never lengthens the list |
| `Dropzone.RemoveAnnounces` | src/components/FileDropzone.tsx:75-80 | removal keeps the selection within capacity, removes exactly position `i` when in range, and always emits the callback and "File removed" |
| `Dropzone.ClearSelection` | src/components/FileDropzone.tsx:132-135 | "Clear all" empties the selection and reports `[]` to the callback |
| `Dropzone.ClearIdempotent` | src/components/FileDropzone.tsx:132-135 | clearing twice gives the same state and report as clearing once |
| `Dropzone.StepWithinCapacity` | src/components/FileDropzone.tsx:50-80 | every add, removal and clear keeps the selection within capacity |
| `Dropzone.Step` | src/components/FileDropzone.tsx:48-80 | an add never loses or reorders existing files, a removal never lengthens the list, and a clear empties it |
| `Dropzone.Run` | src/components/FileDropzone.tsx:22-80 | every session of handlers from the empty selection stays within capacity |
| `Dropzone.RunWithinMax` | src/components/FileDropzone.tsx:22-80 | from the empty selection, any sequence of operations leaves at most `maxFiles` files |
| `Dropzone.ToastOf` | src/components/FileDropzone.tsx:51-79 | every event but the callback shows a toast; capacity and type errors are `error` toasts, an add is the one `success` toast |
| `Dropzone.RejectionMessage` | src/components/FileDropzone.tsx:61 | the type-error toast is an error ending with the rejected file's name |
| `Dropzone.AddedMessage` | src/components/FileDropzone.tsx:71 | `SuccessMessage`: the success message starts with the exact count and says "files" iff the count exceeds one |
| `Dropzone.SuccessTailShape` | src/components/FileDropzone.tsx:71 | after the count the success message reads " file", followed by "s" exactly when the count exceeds one |
| `Dropzone.CapacityMessage` | src/components/FileDropzone.tsx:51 | the capacity toast is an error; between its fixed text and " files" stands a '-' exactly when `maxFiles` is negative, followed by digits that read back as the magnitude of `maxFiles` |
| `Dropzone.SignedNumberBetween` | src/components/FileDropzone.tsx:51 | an integer rendered between two texts is found again: sign right after the prefix, digits reading back as its magnitude |
| `Dropzone.ExampleMixedBatch` | src/components/FileDropzone.tsx:48-73 | with the default props, `a.csv` and `b.pdf` add `a.csv` and emit one type error for `b.pdf` and a success for one file |
| `Dropzone.ExampleMixedBatchTypes` | src/components/FileDropzone.tsx:57-58 | with the default props, `a.csv` is accepted and `b.pdf` is not |
| `Dropzone.AcceptedThenRejected` | src/components/FileDropzone.tsx:48-73 | from the empty selection with room for two, an accepted file followed by a rejected one adds the first, reports the second by name, then calls back and announces one file |
| `Dropzone.FilterAcceptedThenRejected` | src/components/FileDropzone.tsx:56-65 | on a two-file batch whose first file passes and second does not, the filter keeps the first and reports the second |
| `Dropzone.ExampleCaseAndNoDot` | src/components/FileDropzone.tsx:57-58 | with the default props, `A.CSV` and the dotless `csv` are both accepted |
| `Dropzone.ExampleRemoveMiddle` | src/components/FileDropzone.tsx:75-76 | removing position 1 of three files keeps the first and the third |
| `Dropzone.FileDropzone.constructor` | src/components/FileDropzone.tsx:15-22 | mounting stores the props and starts with an empty selection |
| `Dropzone.FileDropzone.Default` | src/components/FileDropzone.tsx:17-18 | the default props are the five listed types and `maxFiles = 5` |
| `Dropzone.FileDropzone.ValidateAndAddFiles` | src/components/FileDropzone.tsx:48-73 | the one-pass filter with its per-file type errors, then the append, produce exactly `AddBatch`'s outcome and keep the capacity invariant |
| `Dropzone.FileDropzone.RemoveFile` | src/components/FileDropzone.tsx:75-80 | the new list is `files[..i] + files[i+1..]` (unchanged when out of range), as `RemoveAt` gives, and the capacity invariant holds |
| `Dropzone.FileDropzone.ClearAll` | src/components/FileDropzone.tsx:132-135 | the list becomes empty with the one callback event, as `ClearSelection` gives |

## Left out

- Full Unicode `toLowerCase`: only ASCII letters are lowered.
- A non-integer `maxFiles`: the prop is a JavaScript number; the model takes an integer.
- `NatToDecimal`/`IntToDecimal` render every integer in plain digits. JavaScript switches to exponent form from 1e21 upward ("1e+21"), so a `maxFiles` that large would show differently in the capacity toast.
- The KB size display `(file.size / 1024).toFixed(2)` (line 154): floating-point formatting. The size is carried but never examined.
- `isDragging` and the drag handlers (lines 21-39): a visual hover flag with no bearing on the selection. The drop and file-input handlers are both modelled as a call to `ValidateAndAddFiles`.
- The toast library and `onFilesSelected` are returned as `Event` values rather than called; what the host page does with them is not part of this model.
- React's batched state updates and stale closures between rapid events: each operation runs atomically on the current state.
- The rendering of the list and of the props (lines 82-176), and all other components and pages, which hold no selection logic.
