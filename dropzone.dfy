/** The file-intake selection of the `FileDropzone` component: an ordered
    list of selected files, capped at `maxFiles`, grown by batches filtered on
    their extension, shrunk by position and cleared. Toast notifications and
    the `onFilesSelected` callback are returned as `Event` values. */
module Dropzone {
  import opened Text

  /** A browser `File` as the dropzone uses it: its name and its size in bytes. */
  datatype FileRec = FileRec(name: string, size: nat)

  /** What an operation announces, in the order it announces it. */
  datatype Event =
    | CapacityError(maxFiles: int)     // toast.error: too many files
    | TypeError(name: string)          // toast.error: unsupported extension
    | Added(count: nat)                // toast.success: files added
    | Removed                          // toast.info: file removed
    | Changed(files: seq<FileRec>)     // onFilesSelected(files)

  datatype Severity = Success | Info | Error

  datatype Toast = Toast(severity: Severity, message: string)

  datatype Option<T> = None | Some(value: T)

  /** The component's two props that shape the selection. */
  datatype Config = Config(acceptedFileTypes: seq<string>, maxFiles: int)

  /** The selection after an operation, and what the operation announced. */
  datatype Outcome = Outcome(files: seq<FileRec>, events: seq<Event>)

  const DefaultAcceptedFileTypes: seq<string> := [".csv", ".xlsx", ".json", ".xml", ".txt"]
  const DefaultMaxFiles: int := 5
  const DefaultConfig: Config := Config(DefaultAcceptedFileTypes, DefaultMaxFiles)

  /** The accepted-types entry that lets every file through. */
  const Wildcard: string := "*"

  // ---------------------------------------------------------------------
  // Extensions and the acceptance rule

  /** `.` followed by the lower-cased last piece of `name.split('.')`. */
  function Extension(name: string): (ext: string)
    ensures |ext| >= 1 && ext[0] == '.'
  {
    "." + Lower(LastPiece(name, '.'))
  }

  /** The extension starts with '.', and after it holds no dot and no upper-case letter. */
  lemma ExtensionShape(name: string)
    ensures var ext := Extension(name);
      |ext| >= 1 && ext[0] == '.' &&
      forall i :: 1 <= i < |ext| ==> ext[i] != '.' && !IsUpper(ext[i])
  {
    var last := LastPiece(name, '.');
    SplitInverse(name, '.');
    assert forall i :: 0 <= i < |last| ==> last[i] != '.';
    LowerAt(last);
    LowerResult(last);
  }

  /** A name with a dot: the extension is what follows the last dot, lower-cased. */
  lemma ExtensionAfterLastDot(stem: string, ext: string)
    requires '.' !in ext
    ensures Extension(stem + "." + ext) == "." + Lower(ext)
  {
    LastPieceAfterSeparator(stem, '.', ext);
  }

  /** A name without a dot: the extension is the whole name, lower-cased. */
  lemma ExtensionWithoutDot(name: string)
    requires '.' !in name
    ensures Extension(name) == "." + Lower(name)
  {
    SplitWithoutSeparator(name, '.');
  }

  /** The extension does not depend on the case of the name. */
  lemma ExtensionIgnoresCase(name: string)
    ensures Extension(Lower(name)) == Extension(name)
  {
    var last := LastPiece(name, '.');
    LastPieceLower(name);
    LowerResult(last);
    assert Extension(Lower(name)) == "." + Lower(Lower(last));
  }

  /** Lower-casing a name lower-cases the last piece of its split: dots sit
      at the same places before and after lowering. */
  lemma LastPieceLower(s: string)
    ensures LastPiece(Lower(s), '.') == Lower(LastPiece(s, '.'))
  {
    var l := LastPiece(s, '.');
    LastPieceIsMaximalSuffix(s, '.');
    LowerAt(l);
    assert '.' !in Lower(l);
    if |l| == |s| {
      assert s == l;
      SplitWithoutSeparator(Lower(s), '.');
    } else {
      var stem := s[..|s| - |l| - 1];
      assert s == stem + ['.'] + l;
      LowerAppend(stem + ['.'], l);
      LowerAppend(stem, ['.']);
      assert Lower(['.']) == ['.'];
      LastPieceAfterSeparator(Lower(stem), '.', Lower(l));
    }
  }

  /** The acceptance rule: the file's extension is listed verbatim, or the wildcard is. */
  predicate Accepts(acceptedFileTypes: seq<string>, file: FileRec)
  {
    Extension(file.name) in acceptedFileTypes || Wildcard in acceptedFileTypes
  }

  /** A name with a dot is accepted exactly when '.' plus its lowered text
      after the last dot is listed, or the wildcard is. */
  lemma AcceptsDottedName(acceptedFileTypes: seq<string>, stem: string, ext: string, size: nat)
    requires '.' !in ext
    ensures Accepts(acceptedFileTypes, FileRec(stem + "." + ext, size)) <==>
      ("." + Lower(ext) in acceptedFileTypes || Wildcard in acceptedFileTypes)
  {
    ExtensionAfterLastDot(stem, ext);
  }

  /** A name without a dot is accepted exactly when '.' plus the whole lowered
      name is listed, or the wildcard is. */
  lemma AcceptsDotlessName(acceptedFileTypes: seq<string>, name: string, size: nat)
    requires '.' !in name
    ensures Accepts(acceptedFileTypes, FileRec(name, size)) <==>
      ("." + Lower(name) in acceptedFileTypes || Wildcard in acceptedFileTypes)
  {
    ExtensionWithoutDot(name);
  }

  /** An accepted-types entry holding an upper-case letter never matches an extension. */
  lemma UpperCaseEntryNeverMatches(name: string, entry: string, i: nat)
    requires i < |entry| && IsUpper(entry[i])
    ensures Extension(name) != entry
  {
    ExtensionShape(name);
  }

  // ---------------------------------------------------------------------
  // The type filter over a batch

  /** `Accepts` as the callback handed to the filter: the filter lemmas are
      stated for any such callback, and `Keep` is how the component's rule
      is plugged in. */
  function Keep(acceptedFileTypes: seq<string>): FileRec -> bool
  {
    file => Accepts(acceptedFileTypes, file)
  }

  /** The files of `batch` that pass the type filter, in batch order. */
  function Survivors(batch: seq<FileRec>, keep: FileRec -> bool): (valid: seq<FileRec>)
    ensures |valid| <= |batch|
    ensures forall f :: f in valid ==> f in batch && keep(f)
    decreases |batch|
  {
    if batch == [] then []
    else
      var file := batch[|batch| - 1];
      var valid := Survivors(batch[..|batch| - 1], keep);
      if keep(file) then valid + [file] else valid
  }

  /** One type error per rejected file of `batch`, in batch order. */
  function TypeErrors(batch: seq<FileRec>, keep: FileRec -> bool): (errors: seq<Event>)
    ensures |errors| <= |batch|
    ensures forall i :: 0 <= i < |errors| ==> errors[i].TypeError?
    decreases |batch|
  {
    if batch == [] then []
    else
      var file := batch[|batch| - 1];
      var errors := TypeErrors(batch[..|batch| - 1], keep);
      if keep(file) then errors else errors + [TypeError(file.name)]
  }

  lemma KeepIsAccepts(acceptedFileTypes: seq<string>, file: FileRec)
    ensures Keep(acceptedFileTypes)(file) == (Extension(file.name) in acceptedFileTypes || Wildcard in acceptedFileTypes)
  {
  }

  /** One more file through the filter: it is appended when it passes, and
      yields one type error when it does not. */
  lemma FilterStep(batch: seq<FileRec>, k: nat, keep: FileRec -> bool)
    requires k < |batch|
    ensures Survivors(batch[..k + 1], keep) ==
      Survivors(batch[..k], keep) + (if keep(batch[k]) then [batch[k]] else [])
    ensures TypeErrors(batch[..k + 1], keep) ==
      TypeErrors(batch[..k], keep) + (if keep(batch[k]) then [] else [TypeError(batch[k].name)])
  {
    assert batch[..k + 1][..k] == batch[..k];
  }

  /** The `newFiles.filter` pass of `validateAndAddFiles`: one visit per
      file, in order, collecting the files that pass and announcing a type
      error for each one that does not. */
  method FilterByType(newFiles: seq<FileRec>, acceptedFileTypes: seq<string>)
    returns (validFiles: seq<FileRec>, errors: seq<Event>)
    ensures validFiles == Survivors(newFiles, Keep(acceptedFileTypes))
    ensures errors == TypeErrors(newFiles, Keep(acceptedFileTypes))
  {
    validFiles, errors := [], [];
    var k := 0;
    while k < |newFiles|
      invariant 0 <= k <= |newFiles|
      invariant validFiles == Survivors(newFiles[..k], Keep(acceptedFileTypes))
      invariant errors == TypeErrors(newFiles[..k], Keep(acceptedFileTypes))
    {
      var file := newFiles[k];
      var fileExtension := Extension(file.name);
      var isAccepted := fileExtension in acceptedFileTypes || Wildcard in acceptedFileTypes;
      if !isAccepted {
        errors := errors + [TypeError(file.name)];
      } else {
        validFiles := validFiles + [file];
      }
      KeepIsAccepts(acceptedFileTypes, file);
      FilterStep(newFiles, k, Keep(acceptedFileTypes));
      k := k + 1;
    }
    assert newFiles[..k] == newFiles;
  }

  /** Each file of the batch is either kept or reported, never both. */
  lemma {:induction false} FilterPartitions(batch: seq<FileRec>, keep: FileRec -> bool)
    ensures |TypeErrors(batch, keep)| + |Survivors(batch, keep)| == |batch|
    decreases |batch|
  {
    if batch != [] {
      FilterPartitions(batch[..|batch| - 1], keep);
    }
  }

  /** The filter keeps relative order: it distributes over concatenation. */
  lemma {:induction false} SurvivorsAppend(a: seq<FileRec>, b: seq<FileRec>, keep: FileRec -> bool)
    ensures Survivors(a + b, keep) == Survivors(a, keep) + Survivors(b, keep)
    decreases |b|
  {
    if b != [] {
      var b' := b[..|b| - 1];
      var ab := a + b;
      SurvivorsAppend(a, b', keep);
      assert ab[..|ab| - 1] == a + b';
      assert ab[|ab| - 1] == b[|b| - 1];
      assert Survivors(ab, keep) == Survivors(a + b', keep) + Survivors([b[|b| - 1]], keep);
      assert Survivors(b, keep) == Survivors(b', keep) + Survivors([b[|b| - 1]], keep);
    } else {
      assert a + b == a;
    }
  }

  /** Type errors come out in batch order: they distribute over concatenation. */
  lemma {:induction false} TypeErrorsAppend(a: seq<FileRec>, b: seq<FileRec>, keep: FileRec -> bool)
    ensures TypeErrors(a + b, keep) == TypeErrors(a, keep) + TypeErrors(b, keep)
    decreases |b|
  {
    if b != [] {
      var b' := b[..|b| - 1];
      var ab := a + b;
      TypeErrorsAppend(a, b', keep);
      assert ab[..|ab| - 1] == a + b';
      assert ab[|ab| - 1] == b[|b| - 1];
      assert TypeErrors(ab, keep) == TypeErrors(a + b', keep) + TypeErrors([b[|b| - 1]], keep);
      assert TypeErrors(b, keep) == TypeErrors(b', keep) + TypeErrors([b[|b| - 1]], keep);
    } else {
      assert a + b == a;
    }
  }

  /** Every accepted file is kept as often as it occurs, every rejected one dropped. */
  lemma {:induction false} SurvivorsMultiplicity(batch: seq<FileRec>, keep: FileRec -> bool, f: FileRec)
    ensures multiset(Survivors(batch, keep))[f] ==
      if keep(f) then multiset(batch)[f] else 0
    decreases |batch|
  {
    if batch != [] {
      var prefix := batch[..|batch| - 1];
      SurvivorsMultiplicity(prefix, keep, f);
      assert batch == prefix + [batch[|batch| - 1]];
    }
  }

  /** Every rejected file of the batch is reported by a type error carrying
      its name (FilterPartitions counts one error per rejected file). */
  lemma {:induction false} TypeErrorsNameRejected(batch: seq<FileRec>, keep: FileRec -> bool, f: FileRec)
    requires f in batch && !keep(f)
    ensures TypeError(f.name) in TypeErrors(batch, keep)
    decreases |batch|
  {
    var prefix := batch[..|batch| - 1];
    if batch[|batch| - 1] != f {
      assert batch == prefix + [batch[|batch| - 1]];
      TypeErrorsNameRejected(prefix, keep, f);
    }
  }

  /** Conversely, every type error names a rejected file of the batch. */
  lemma {:induction false} TypeErrorsOnlyRejected(batch: seq<FileRec>, keep: FileRec -> bool, e: Event)
    requires e in TypeErrors(batch, keep)
    ensures exists f :: f in batch && !keep(f) && e == TypeError(f.name)
    decreases |batch|
  {
    var prefix := batch[..|batch| - 1];
    var file := batch[|batch| - 1];
    if e in TypeErrors(prefix, keep) {
      TypeErrorsOnlyRejected(prefix, keep, e);
      var f :| f in prefix && !keep(f) && e == TypeError(f.name);
      assert f in batch;
    } else {
      assert file in batch && !keep(file) && e == TypeError(file.name);
    }
  }

  /** When every file passes, the filter keeps the whole batch and emits no type error. */
  lemma {:induction false} AllPassKeepsAll(batch: seq<FileRec>, keep: FileRec -> bool)
    requires forall f :: keep(f)
    ensures Survivors(batch, keep) == batch
    ensures TypeErrors(batch, keep) == []
    decreases |batch|
  {
    if batch != [] {
      var prefix := batch[..|batch| - 1];
      AllPassKeepsAll(prefix, keep);
      assert batch == prefix + [batch[|batch| - 1]];
    }
  }

  /** With the wildcard listed every file passes and no type error is emitted. */
  lemma WildcardKeepsAll(batch: seq<FileRec>, acceptedFileTypes: seq<string>)
    requires Wildcard in acceptedFileTypes
    ensures Survivors(batch, Keep(acceptedFileTypes)) == batch
    ensures TypeErrors(batch, Keep(acceptedFileTypes)) == []
  {
    assert forall f :: Keep(acceptedFileTypes)(f);
    AllPassKeepsAll(batch, Keep(acceptedFileTypes));
  }

  // ---------------------------------------------------------------------
  // The three operations on the selection

  /** The capacity rule, stated for any `maxFiles`: a selection is within
      capacity when it is empty or no longer than `maxFiles`. */
  predicate WithinCapacity(files: seq<FileRec>, maxFiles: int)
  {
    files == [] || |files| <= maxFiles
  }

  /** `validateAndAddFiles`: the capacity check on the raw batch, then the
      type filter, then the append and its announcements. */
  function AddBatch(config: Config, files: seq<FileRec>, batch: seq<FileRec>): (r: Outcome)
    ensures WithinCapacity(files, config.maxFiles) ==> WithinCapacity(r.files, config.maxFiles)
    ensures |r.files| >= |files| && r.files[..|files|] == files
  {
    if |files| + |batch| > config.maxFiles then
      Outcome(files, [CapacityError(config.maxFiles)])
    else
      var validFiles := Survivors(batch, Keep(config.acceptedFileTypes));
      var errors := TypeErrors(batch, Keep(config.acceptedFileTypes));
      if |validFiles| > 0 then
        var updatedFiles := files + validFiles;
        Outcome(updatedFiles, errors + [Changed(updatedFiles), Added(|validFiles|)])
      else
        Outcome(files, errors)
  }

  /** A batch too large for the remaining room is refused whole, with one
      capacity error naming `maxFiles` and no callback, whatever its types. */
  lemma AddOverCapacity(config: Config, files: seq<FileRec>, batch: seq<FileRec>)
    requires |files| + |batch| > config.maxFiles
    ensures AddBatch(config, files, batch).files == files
    ensures AddBatch(config, files, batch).events == [CapacityError(config.maxFiles)]
  {
  }

  /** A batch within capacity appends exactly its accepted files, in order,
      after the untouched old selection; one type error per rejected file. */
  lemma AddWithinCapacity(config: Config, files: seq<FileRec>, batch: seq<FileRec>)
    requires |files| + |batch| <= config.maxFiles
    ensures var r := AddBatch(config, files, batch);
      r.files == files + Survivors(batch, Keep(config.acceptedFileTypes)) &&
      |r.files| <= config.maxFiles &&
      r.events[..|TypeErrors(batch, Keep(config.acceptedFileTypes))|] == TypeErrors(batch, Keep(config.acceptedFileTypes))
  {
  }

  /** When no file of the batch is accepted nothing changes and neither the
      callback nor the success toast fires; otherwise both fire once, the
      toast with the number of files actually added. */
  lemma AddAnnouncements(config: Config, files: seq<FileRec>, batch: seq<FileRec>)
    requires |files| + |batch| <= config.maxFiles
    ensures var r := AddBatch(config, files, batch);
      (r.files == files <==> Survivors(batch, Keep(config.acceptedFileTypes)) == []) &&
      (r.files == files ==> r.events == TypeErrors(batch, Keep(config.acceptedFileTypes))) &&
      (r.files != files ==>
        r.events == TypeErrors(batch, Keep(config.acceptedFileTypes)) + [Changed(r.files), Added(|r.files| - |files|)])
  {
  }

  /** With the wildcard listed, a batch within capacity raises no type error. */
  lemma WildcardNoTypeError(config: Config, files: seq<FileRec>, batch: seq<FileRec>)
    requires Wildcard in config.acceptedFileTypes
    ensures forall e :: e in AddBatch(config, files, batch).events ==> !e.TypeError?
  {
    WildcardKeepsAll(batch, config.acceptedFileTypes);
  }

  /** `files.filter((_, index) => index !== i)`: drops the element at position `i`. */
  function DropIndex<T>(s: seq<T>, i: int): (r: seq<T>)
    ensures |r| == if 0 <= i < |s| then |s| - 1 else |s|
    decreases |s|
  {
    if s == [] then []
    else DropIndex(s[..|s| - 1], i) + (if i == |s| - 1 then [] else [s[|s| - 1]])
  }

  /** Dropping by position removes exactly the `i`-th element and keeps the
      order of the rest; an index out of range removes nothing. */
  lemma {:induction false} DropIndexRemovesOne<T>(s: seq<T>, i: int)
    ensures DropIndex(s, i) == if 0 <= i < |s| then s[..i] + s[i + 1..] else s
    decreases |s|
  {
    if s != [] {
      var p, last := s[..|s| - 1], s[|s| - 1];
      DropIndexRemovesOne(p, i);
      assert DropIndex(s, i) == DropIndex(p, i) + (if i == |s| - 1 then [] else [last]);
      if 0 <= i < |s| - 1 {
        CutBeforeLast(s, i);
      } else if i == |s| - 1 {
        assert p == s[..i] + s[i + 1..];
      } else {
        assert p + [last] == s;
      }
    }
  }

  /** Cutting position `i` out of `s`, for `i` before the last position,
      is cutting it out of all but the last element and then appending that. */
  lemma CutBeforeLast<T>(s: seq<T>, i: int)
    requires 0 <= i < |s| - 1
    ensures var p := s[..|s| - 1];
      s[..i] + s[i + 1..] == p[..i] + p[i + 1..] + [s[|s| - 1]]
  {
    var p := s[..|s| - 1];
    assert s[..i] == p[..i];
    assert s[i + 1..] == p[i + 1..] + [s[|s| - 1]];
  }

  /** `removeFile(i)`: the positional filter, the callback, then the info toast. */
  function RemoveAt(files: seq<FileRec>, indexToRemove: int): (r: Outcome)
    ensures |r.files| <= |files|
  {
    var updatedFiles := DropIndex(files, indexToRemove);
    Outcome(updatedFiles, [Changed(updatedFiles), Removed])
  }

  /** Removal always announces itself, and keeps the selection within capacity. */
  lemma RemoveAnnounces(files: seq<FileRec>, indexToRemove: int, maxFiles: int)
    requires WithinCapacity(files, maxFiles)
    ensures var r := RemoveAt(files, indexToRemove);
      WithinCapacity(r.files, maxFiles) &&
      r.files == (if 0 <= indexToRemove < |files| then files[..indexToRemove] + files[indexToRemove + 1..] else files) &&
      r.events == [Changed(r.files), Removed]
  {
    DropIndexRemovesOne(files, indexToRemove);
  }

  /** The "Clear all" handler: empty selection, reported to the callback. */
  function ClearSelection(files: seq<FileRec>): (r: Outcome)
    ensures r.files == [] && r.events == [Changed([])]
  {
    Outcome([], [Changed([])])
  }

  /** Clearing twice is clearing once. */
  lemma ClearIdempotent(files: seq<FileRec>)
    ensures ClearSelection(ClearSelection(files).files) == ClearSelection(files)
  {
  }

  // ---------------------------------------------------------------------
  // Sessions: any sequence of operations from the empty selection

  datatype Op = Add(batch: seq<FileRec>) | Remove(index: int) | Clear

  /** One handler run on the current selection. */
  function Step(config: Config, files: seq<FileRec>, op: Op): (r: Outcome)
    ensures op.Add? ==> |r.files| >= |files| && r.files[..|files|] == files
    ensures op.Remove? ==> |r.files| <= |files|
    ensures op.Clear? ==> r.files == []
  {
    match op
    case Add(batch) => AddBatch(config, files, batch)
    case Remove(i) => RemoveAt(files, i)
    case Clear => ClearSelection(files)
  }

  /** The selection after running `ops` in order on a freshly mounted component. */
  function Run(config: Config, ops: seq<Op>): (r: seq<FileRec>)
    ensures WithinCapacity(r, config.maxFiles)
    decreases |ops|
  {
    if ops == [] then []
    else
      var files := Run(config, ops[..|ops| - 1]);
      StepWithinCapacity(config, files, ops[|ops| - 1]);
      Step(config, files, ops[|ops| - 1]).files
  }

  /** Every operation keeps the selection within capacity. */
  lemma StepWithinCapacity(config: Config, files: seq<FileRec>, op: Op)
    requires WithinCapacity(files, config.maxFiles)
    ensures WithinCapacity(Step(config, files, op).files, config.maxFiles)
  {
  }

  /** From the empty selection, any session of adds, removals and clears
      leaves at most `maxFiles` files (for a non-negative `maxFiles`). */
  lemma RunWithinMax(config: Config, ops: seq<Op>)
    requires config.maxFiles >= 0
    ensures |Run(config, ops)| <= config.maxFiles
  {
  }

  // ---------------------------------------------------------------------
  // Toast messages

  /** The plural ending of "file" in the success toast. */
  function Plural(n: nat): string
  {
    if n > 1 then "s" else ""
  }

  /** The text of the success toast for `n` added files. */
  function SuccessMessage(n: nat): string
  {
    NatToDecimal(n) + SuccessTail(n)
  }

  /** The success message after the count. */
  function SuccessTail(n: nat): string
  {
    " file" + Plural(n) + " added successfully"
  }

  /** The toast an event shows, if it is a toast and not the callback. */
  function ToastOf(e: Event): (t: Option<Toast>)
    ensures t.Some? <==> !e.Changed?
    ensures t.Some? ==> (t.value.severity == Error <==> e.CapacityError? || e.TypeError?)
    ensures t.Some? ==> (t.value.severity == Success <==> e.Added?)
  {
    match e
    case CapacityError(m) => Some(Toast(Error, "You can only upload a maximum of " + IntToDecimal(m) + " files"))
    case TypeError(name) => Some(Toast(Error, "File type not supported: " + name))
    case Added(n) => Some(Toast(Success, SuccessMessage(n)))
    case Removed => Some(Toast(Info, "File removed"))
    case Changed(_) => None
  }

  /** The success message starts with the exact count, and says "files" iff the count exceeds one. */
  lemma AddedMessage(n: nat)
    ensures var msg := SuccessMessage(n);
      var d := |NatToDecimal(n)|;
      |msg| > d + 5 && (forall i :: 0 <= i < d ==> IsDigit(msg[i])) &&
      DecimalValue(msg[..d]) == n &&
      msg[d..d + 5] == " file" &&
      (msg[d + 5] == 's' <==> n > 1)
  {
    SuccessTailShape(n);
    CountThenNoun(n, SuccessTail(n), n > 1);
  }

  /** The text after the count: " file", then "s" exactly for a plural. */
  lemma SuccessTailShape(n: nat)
    ensures var tail := SuccessTail(n);
      |tail| > 5 && tail[..5] == " file" && (tail[5] == 's' <==> n > 1)
  {
    var rest := Plural(n) + " added successfully";
    assert SuccessTail(n) == " file" + rest;
    assert rest[0] == if n > 1 then 's' else ' ';
  }

  /** A rendered count followed by " file" and a plural mark reads back as that count and that mark. */
  lemma CountThenNoun(n: nat, tail: string, plural: bool)
    requires |tail| > 5 && tail[..5] == " file" && (tail[5] == 's' <==> plural)
    ensures var msg := NatToDecimal(n) + tail;
      var d := |NatToDecimal(n)|;
      |msg| > d + 5 && (forall i :: 0 <= i < d ==> IsDigit(msg[i])) &&
      DecimalValue(msg[..d]) == n &&
      msg[d..d + 5] == " file" &&
      (msg[d + 5] == 's' <==> plural)
  {
    DecimalPrefix(n, tail);
    var msg, d := NatToDecimal(n) + tail, |NatToDecimal(n)|;
    assert msg[d..d + 5] == tail[..5] && msg[d + 5] == tail[5];
  }

  /** A message that starts with a rendered number reads that number back. */
  lemma DecimalPrefix(n: nat, tail: string)
    ensures var msg := NatToDecimal(n) + tail;
      var d := |NatToDecimal(n)|;
      msg[..d] == NatToDecimal(n) && msg[d..] == tail &&
      (forall i :: 0 <= i < d ==> IsDigit(msg[i])) &&
      DecimalValue(msg[..d]) == n
  {
    var msg := NatToDecimal(n) + tail;
    assert msg[..|NatToDecimal(n)|] == NatToDecimal(n);
    DecimalRoundTrip(n);
  }

  /** The capacity toast is an error naming `maxFiles`, with a leading '-'
      exactly when `maxFiles` is negative. */
  lemma CapacityMessage(maxFiles: int)
    ensures ToastOf(CapacityError(maxFiles)).Some?
    ensures var msg := ToastOf(CapacityError(maxFiles)).value.message;
      var p := |"You can only upload a maximum of "|;
      var start := if maxFiles < 0 then p + 1 else p;
      var end := |msg| - |" files"|;
      ToastOf(CapacityError(maxFiles)).value.severity == Error &&
      p < end && start < end &&
      msg[..p] == "You can only upload a maximum of " && msg[end..] == " files" &&
      (msg[p] == '-' <==> maxFiles < 0) &&
      (forall i :: start <= i < end ==> IsDigit(msg[i])) &&
      DecimalValue(msg[start..end]) == if maxFiles < 0 then -maxFiles else maxFiles
  {
    SignedNumberBetween("You can only upload a maximum of ", maxFiles, " files");
  }

  /** A rendered integer between a prefix and a suffix: the sign sits right
      after the prefix, and the digits after it read back as the magnitude. */
  lemma SignedNumberBetween(prefix: string, m: int, suffix: string)
    ensures var msg := prefix + IntToDecimal(m) + suffix;
      var p := |prefix|;
      var start := if m < 0 then p + 1 else p;
      var end := |msg| - |suffix|;
      p < end && start < end &&
      msg[..p] == prefix && msg[end..] == suffix &&
      (msg[p] == '-' <==> m < 0) &&
      (forall i :: start <= i < end ==> IsDigit(msg[i])) &&
      DecimalValue(msg[start..end]) == if m < 0 then -m else m
  {
    if m < 0 {
      assert IntToDecimal(m) == "-" + NatToDecimal(-m);
      MinusNumberBetween(prefix, -m, suffix);
    } else {
      assert IntToDecimal(m) == NatToDecimal(m);
      NumberBetween(prefix, m, suffix);
      assert IsDigit((prefix + IntToDecimal(m) + suffix)[|prefix|]);
    }
  }

  /** A '-' and a rendered natural number between a prefix and a suffix. */
  lemma MinusNumberBetween(prefix: string, n: nat, suffix: string)
    ensures var msg := prefix + ("-" + NatToDecimal(n)) + suffix;
      var p := |prefix|;
      var end := |msg| - |suffix|;
      p + 1 < end && msg[..p] == prefix && msg[p] == '-' && msg[end..] == suffix &&
      (forall i :: p + 1 <= i < end ==> IsDigit(msg[i])) &&
      DecimalValue(msg[p + 1..end]) == n
  {
    var head := prefix + "-";
    var msg := prefix + ("-" + NatToDecimal(n)) + suffix;
    assert msg == head + NatToDecimal(n) + suffix;
    NumberBetween(head, n, suffix);
    assert msg[..|head|][..|prefix|] == prefix;
    assert msg[|prefix|] == msg[..|head|][|prefix|];
  }

  /** A rendered natural number between a head and a suffix: the digits
      between them read back as the number. */
  lemma NumberBetween(head: string, n: nat, suffix: string)
    ensures var msg := head + NatToDecimal(n) + suffix;
      var start, end := |head|, |msg| - |suffix|;
      start < end && msg[..start] == head && msg[end..] == suffix &&
      (forall i :: start <= i < end ==> IsDigit(msg[i])) &&
      DecimalValue(msg[start..end]) == n
  {
    var num := NatToDecimal(n);
    Between(head, num, suffix);
    DecimalRoundTrip(n);
  }

  /** The three parts of `a + b + c` are found again by slicing. */
  lemma Between(a: string, b: string, c: string)
    ensures var s := a + b + c;
      s[..|a|] == a && s[|a|..|a| + |b|] == b && s[|a| + |b|..] == c &&
      forall i :: |a| <= i < |a| + |b| ==> s[i] == b[i - |a|]
  {
    var s := a + b + c;
    assert s[..|a|] == a;
    assert s[|a|..|a| + |b|] == b;
    assert s[|a| + |b|..] == c;
  }

  /** The type-error toast is an error ending with the rejected file's name. */
  lemma RejectionMessage(name: string)
    ensures ToastOf(TypeError(name)).Some?
    ensures var t := ToastOf(TypeError(name)).value;
      t.severity == Error && |t.message| > |name| &&
      t.message[|t.message| - |name|..] == name
  {
    var msg := ToastOf(TypeError(name)).value.message;
    assert msg == "File type not supported: " + name;
    assert msg[|msg| - |name|..] == name;
  }

  // ---------------------------------------------------------------------
  // Worked examples

  /** An empty default dropzone given `a.csv` and `b.pdf` keeps `a.csv`,
      rejects `b.pdf` by name and reports one added file. */
  lemma ExampleMixedBatch(a: FileRec, b: FileRec)
    requires a.name == "a.csv" && b.name == "b.pdf"
    ensures AddBatch(DefaultConfig, [], [a, b]) ==
      Outcome([a], [TypeError("b.pdf"), Changed([a]), Added(1)])
  {
    ExampleMixedBatchTypes(a, b);
    KeepIsAccepts(DefaultAcceptedFileTypes, a);
    KeepIsAccepts(DefaultAcceptedFileTypes, b);
    AcceptedThenRejected(DefaultConfig, a, b);
  }

  /** From the empty selection, a batch of one accepted then one rejected
      file adds the first and reports the second. */
  lemma AcceptedThenRejected(config: Config, a: FileRec, b: FileRec)
    requires config.maxFiles >= 2
    requires Keep(config.acceptedFileTypes)(a) && !Keep(config.acceptedFileTypes)(b)
    ensures AddBatch(config, [], [a, b]) == Outcome([a], [TypeError(b.name), Changed([a]), Added(1)])
  {
    FilterAcceptedThenRejected([a, b], Keep(config.acceptedFileTypes));
  }

  /** The filter on a two-file batch whose first file passes and second does not. */
  lemma FilterAcceptedThenRejected(batch: seq<FileRec>, keep: FileRec -> bool)
    requires |batch| == 2 && keep(batch[0]) && !keep(batch[1])
    ensures Survivors(batch, keep) == [batch[0]]
    ensures TypeErrors(batch, keep) == [TypeError(batch[1].name)]
  {
    FilterStep(batch, 0, keep);
    FilterStep(batch, 1, keep);
    assert batch[..0] == [] && batch[..2] == batch;
  }

  lemma ExampleMixedBatchTypes(a: FileRec, b: FileRec)
    requires a.name == "a.csv" && b.name == "b.pdf"
    ensures Accepts(DefaultAcceptedFileTypes, a) && !Accepts(DefaultAcceptedFileTypes, b)
  {
    ExtensionAfterLastDot("a", "csv");
    ExtensionAfterLastDot("b", "pdf");
    assert "a" + "." + "csv" == a.name;
    assert "b" + "." + "pdf" == b.name;
    assert Lower("csv") == "csv";
    assert Lower("pdf") == "pdf";
    assert Extension(a.name) == DefaultAcceptedFileTypes[0];
    assert Extension(b.name)[1] == 'p';
    assert forall e :: e in DefaultAcceptedFileTypes ==> |e| >= 2 && e[1] != 'p';
  }

  /** Upper-case names match lower-case entries; a dotless name is its own extension. */
  lemma ExampleCaseAndNoDot(f: FileRec, g: FileRec)
    requires f.name == "A.CSV" && g.name == "csv"
    ensures Accepts(DefaultAcceptedFileTypes, f) && Accepts(DefaultAcceptedFileTypes, g)
  {
    ExtensionAfterLastDot("A", "CSV");
    assert "A" + "." + "CSV" == f.name;
    assert Lower("CSV") == "csv";
    assert Extension(f.name) == DefaultAcceptedFileTypes[0];
    ExtensionWithoutDot(g.name);
    assert Lower("csv") == "csv";
    assert Extension(g.name) == DefaultAcceptedFileTypes[0];
  }

  /** Removing position 1 of three files keeps the first and the third. */
  lemma ExampleRemoveMiddle(a: FileRec, b: FileRec, c: FileRec)
    ensures RemoveAt([a, b, c], 1).files == [a, c]
  {
    DropIndexRemovesOne([a, b, c], 1);
  }

  // ---------------------------------------------------------------------
  // The component

  /** The component instance: its props and its `files` state. */
  class FileDropzone {
    const acceptedFileTypes: seq<string>
    const maxFiles: int
    var files: seq<FileRec>

    /** The selection never exceeds `maxFiles`. */
    ghost predicate Valid()
      reads this
    {
      WithinCapacity(files, maxFiles)
    }

    function ConfigOf(): Config
    {
      Config(acceptedFileTypes, maxFiles)
    }

    /** Mounting with explicit props: the selection starts empty. */
    constructor (acceptedFileTypes: seq<string>, maxFiles: int)
      ensures Valid()
      ensures this.acceptedFileTypes == acceptedFileTypes && this.maxFiles == maxFiles
      ensures files == []
    {
      this.acceptedFileTypes := acceptedFileTypes;
      this.maxFiles := maxFiles;
      files := [];
    }

    /** Mounting with the default props. */
    constructor Default()
      ensures Valid()
      ensures ConfigOf() == DefaultConfig
      ensures files == []
    {
      acceptedFileTypes := DefaultAcceptedFileTypes;
      maxFiles := DefaultMaxFiles;
      files := [];
    }

    /** `validateAndAddFiles`: one pass over the batch emitting a type error
        per rejected file, then the append and its announcements. */
    method ValidateAndAddFiles(newFiles: seq<FileRec>) returns (events: seq<Event>)
      requires Valid()
      modifies this`files
      ensures Valid()
      ensures Outcome(files, events) == Step(ConfigOf(), old(files), Add(newFiles))
    {
      if |files| + |newFiles| > maxFiles {
        events := [CapacityError(maxFiles)];
        return;
      }
      var validFiles;
      validFiles, events := FilterByType(newFiles, acceptedFileTypes);
      if |validFiles| > 0 {
        var updatedFiles := files + validFiles;
        files := updatedFiles;
        events := events + [Changed(updatedFiles), Added(|validFiles|)];
      }
    }

    /** `removeFile`: drop position `indexToRemove`, report, show the info toast. */
    method RemoveFile(indexToRemove: int) returns (events: seq<Event>)
      requires Valid()
      modifies this`files
      ensures Valid()
      ensures Outcome(files, events) == Step(ConfigOf(), old(files), Remove(indexToRemove))
      ensures files == if 0 <= indexToRemove < |old(files)|
                       then old(files)[..indexToRemove] + old(files)[indexToRemove + 1..]
                       else old(files)
    {
      DropIndexRemovesOne(files, indexToRemove);
      var updatedFiles := DropIndex(files, indexToRemove);
      files := updatedFiles;
      events := [Changed(updatedFiles), Removed];
    }

    /** The "Clear all" button: empty the selection and report it. */
    method ClearAll() returns (events: seq<Event>)
      requires Valid()
      modifies this`files
      ensures Valid()
      ensures Outcome(files, events) == Step(ConfigOf(), old(files), Clear)
      ensures files == []
    {
      files := [];
      events := [Changed([])];
    }
  }
}
