/** The state of the page component `App` (src/App.tsx): the selected files keyed 1..n,
    the aggregate progress, the batch status, the chosen target format and the archive,
    with the handlers that change them. The transcoding engine is a parameter. */
module App {
  import opened Wrappers
  import opened Web
  import FileName

  /** Per-file status as App.tsx declares it (it has no "waiting"). */
  datatype FileStatus = Ready | Converting | Converted | Error

  /** Status of the batch as a whole. */
  datatype ConvertStatus = Idle | Converting | Converted

  /** One entry of the selection: the file, its status, and the blob or message it ended with. */
  datatype SelectedFile = SelectedFile(data: SourceFile, status: FileStatus, convertedBlob: Option<Blob>, error: Option<string>)

  /** What a failed engine call threw: an `Error` instance with its message, or any other value. */
  datatype Thrown = ErrorInstance(message: string) | OtherValue

  /** What the engine does with one file: produce the converted bytes, or throw. */
  datatype EngineOutcome = Output(bytes: seq<Byte>) | Threw(thrown: Thrown)

  /** The engine: staging file i under its name, running `-i <name> output_<i>.<format>`
      and reading the output back, as one opaque call. */
  type Engine = (nat, SourceFile, string) -> EngineOutcome

  /** A file offered for download: its name and its blob. */
  datatype Download = Download(name: string, blob: Blob)

  const UnknownError: string := "Unknown error"

  // ---------------------------------------------------------------------------
  // Specification functions
  // ---------------------------------------------------------------------------

  /** The MIME type given to a blob converted to `format`. */
  function AudioMimeType(format: string): string
  {
    "audio/" + format
  }

  /** The archive entry name of a converted file: its name without extension, a dot, the format. */
  function EntryName(fileName: string, format: string): string
  {
    FileName.WithoutExtension(fileName) + "." + format
  }

  /** The message recorded for a failure: the thrown error's message, or "Unknown error"
      when the value is not an error or its message is empty. */
  function ErrorMessage(e: Thrown): (msg: string)
    ensures msg != ""
    ensures e.ErrorInstance? && e.message != "" ==> msg == e.message
    ensures !e.ErrorInstance? || e.message == "" ==> msg == UnknownError
  {
    if e.ErrorInstance? && e.message != "" then e.message else UnknownError
  }

  /** The keys whose entry has status converted. */
  function ConvertedKeys(files: map<int, SelectedFile>): set<int>
  {
    set k | k in files && files[k].status == FileStatus.Converted
  }

  /** Aggregate progress, kept as the two counts it is computed from. */
  datatype Progress = Progress(converted: nat, total: nat) {
    /** The percentage shown: 100 times converted over total; 0 when there is no file. */
    function Percent(): real
    {
      if total == 0 then 0.0 else 100.0 * (converted as real) / (total as real)
    }
  }

  /** Aggregate progress of a map: its converted entries over its size. */
  function ProgressOf(files: map<int, SelectedFile>): Progress
  {
    Progress(|ConvertedKeys(files)|, |files|)
  }

  /** Status, blob and message that agree: a blob exactly when converted, a message exactly when failed. */
  predicate Consistent(status: FileStatus, blob: Option<Blob>, error: Option<string>)
  {
    && (status == FileStatus.Converted <==> blob.Some?)
    && (status == FileStatus.Error <==> error.Some?)
  }

  /** The job invariant of one entry. */
  predicate WellFormedEntry(f: SelectedFile)
  {
    Consistent(f.status, f.convertedBlob, f.error)
  }

  predicate WellFormed(files: map<int, SelectedFile>)
  {
    forall k :: k in files ==> WellFormedEntry(files[k])
  }

  /** The entry `handleFileChange` builds for a freshly selected file. */
  function Fresh(file: SourceFile): SelectedFile
  {
    SelectedFile(file, FileStatus.Ready, None, None)
  }

  /** `order` lists the keys `keys`, each exactly once: the iteration order of a JavaScript Map. */
  predicate ListsKeys(order: seq<int>, keys: set<int>)
  {
    && (forall i, j :: 0 <= i < j < |order| ==> order[i] != order[j])
    && (forall j :: 0 <= j < |order| ==> order[j] in keys)
    && (forall k :: k in keys ==> k in order)
  }

  /** The map a non-empty selection becomes: key i + 1 holds file i, ready. */
  function SelectionMap(selection: seq<SourceFile>): map<int, SelectedFile>
  {
    if |selection| == 0 then map[]
    else
      var n := |selection| - 1;
      SelectionMap(selection[..n])[n + 1 := Fresh(selection[n])]
  }

  /** The keys 1..n in insertion order. */
  function Ids(n: nat): seq<int>
  {
    seq(n, i => i + 1)
  }

  /** The state file i (at position i of the key order) ends in after the engine ran on it. */
  function Finished(i: nat, file: SourceFile, format: string, engine: Engine): SelectedFile
  {
    match engine(i, file, format)
    case Output(bytes) => SelectedFile(file, FileStatus.Converted, Some(Blob(bytes, AudioMimeType(format))), None)
    case Threw(e) => SelectedFile(file, FileStatus.Error, None, Some(ErrorMessage(e)))
  }

  /** The map after the callbacks for the first n keys have run: each key still present
      gets its finished state; an absent key is skipped. */
  function Processed(files: map<int, SelectedFile>, keys: seq<int>, n: nat, format: string, engine: Engine): map<int, SelectedFile>
    requires n <= |keys|
  {
    if n == 0 then files
    else
      var m := Processed(files, keys, n - 1, format, engine);
      var k := keys[n - 1];
      if k in m then m[k := Finished(n - 1, m[k].data, format, engine)] else m
  }

  predicate Succeeds(srcs: seq<SourceFile>, j: nat, format: string, engine: Engine)
    requires j < |srcs|
  {
    engine(j, srcs[j], format).Output?
  }

  /** `zip.file(...)` for file i when the engine succeeds on it: its blob under its entry
      name, replacing an entry of the same name; a failed file adds nothing. */
  function ZipAdd(zip: map<string, Blob>, i: nat, file: SourceFile, format: string, engine: Engine): map<string, Blob>
  {
    match engine(i, file, format)
    case Output(bytes) => zip[EntryName(file.name, format) := Blob(bytes, AudioMimeType(format))]
    case Threw(_) => zip
  }

  /** The archive built from the files `srcs`, in order: one entry per successful file,
      a later entry of the same name replacing an earlier one. */
  function ZipOf(srcs: seq<SourceFile>, format: string, engine: Engine): map<string, Blob>
  {
    if |srcs| == 0 then map[]
    else
      var n := |srcs| - 1;
      ZipAdd(ZipOf(srcs[..n], format, engine), n, srcs[n], format, engine)
  }

  /** Extending the files by one adds that file's entry, if any, to the archive. */
  lemma ZipOfSnoc(srcs: seq<SourceFile>, i: nat, format: string, engine: Engine)
    requires i < |srcs|
    ensures ZipOf(srcs[..i + 1], format, engine) == ZipAdd(ZipOf(srcs[..i], format, engine), i, srcs[i], format, engine)
  {
    assert srcs[..i + 1][..i] == srcs[..i];
  }

  /** The files held under `keys`, in that order. */
  function Sources(files: map<int, SelectedFile>, keys: seq<int>): (srcs: seq<SourceFile>)
    requires forall j :: 0 <= j < |keys| ==> keys[j] in files
    ensures |srcs| == |keys|
    ensures forall j :: 0 <= j < |keys| ==> srcs[j] == files[keys[j]].data
  {
    seq(|keys|, j requires 0 <= j < |keys| => files[keys[j]].data)
  }

  /** The name `handleDownloadFile` gives a download, as written: the current format selection. */
  function DownloadNameAsWritten(fileName: string, selectFormat: string): string
  {
    EntryName(fileName, selectFormat)
  }

  /** The subtype of an `audio/...` MIME type: the format a converted blob was made in. */
  function AudioSubtype(mimeType: string): string
  {
    if |mimeType| >= 6 && mimeType[..6] == "audio/" then mimeType[6..] else ""
  }

  /** The download name corrected: the extension is the format the blob was converted to. */
  function DownloadName(fileName: string, blob: Blob): string
  {
    FileName.WithoutExtension(fileName) + "." + AudioSubtype(blob.mimeType)
  }

  // ---------------------------------------------------------------------------
  // Lemmas about the specification
  // ---------------------------------------------------------------------------

  /** A subset is no larger than its superset, and equal to it when as large. */
  lemma SubsetSize(a: set<int>, b: set<int>)
    requires a <= b
    ensures |a| <= |b|
    ensures |a| == |b| ==> a == b
  {
    assert b == a + (b - a);
    assert a * (b - a) == {};
    if |a| == |b| {
      assert |b - a| == 0;
      forall x | x in b ensures x in a {
        assert x !in b - a;
      }
    }
  }

  /** The percentage of a part r of a positive whole n lies in [0, 100], and is 100
      exactly when the part is the whole. */
  lemma ShareBounds(r: real, n: real)
    requires 0.0 <= r <= n && n > 0.0
    ensures 0.0 <= 100.0 * r / n <= 100.0
    ensures 100.0 * r / n == 100.0 <==> r == n
  {
    var q := 100.0 * r / n;
    assert q * n == 100.0 * r;
    assert (q - 100.0) * n == 100.0 * (r - n);
  }

  /** Progress lies in [0, 100], and is 100 exactly when the selection is non-empty and
      every entry is converted. */
  lemma ProgressBounds(files: map<int, SelectedFile>)
    ensures ProgressOf(files).converted <= ProgressOf(files).total == |files|
    ensures 0.0 <= ProgressOf(files).Percent() <= 100.0
    ensures ProgressOf(files).Percent() == 100.0 <==>
      |files| > 0 && forall k :: k in files ==> files[k].status == FileStatus.Converted
  {
    var c := ConvertedKeys(files);
    SubsetSize(c, files.Keys);
    if |files| > 0 {
      ShareBounds(|c| as real, |files| as real);
      if ProgressOf(files).Percent() == 100.0 {
        forall k | k in files ensures files[k].status == FileStatus.Converted {
          assert k in c;
        }
      }
      if forall k :: k in files ==> files[k].status == FileStatus.Converted {
        assert c == files.Keys;
      }
    }
  }

  /** Key k of a selection's map is present exactly for 1 <= k <= n, and holds file k - 1. */
  lemma {:induction false} SelectionMapAt(selection: seq<SourceFile>, k: int)
    ensures k in SelectionMap(selection) <==> 1 <= k <= |selection|
    ensures k in SelectionMap(selection) ==> SelectionMap(selection)[k] == Fresh(selection[k - 1])
    decreases |selection|
  {
    if |selection| > 0 {
      var n := |selection| - 1;
      SelectionMapAt(selection[..n], k);
    }
  }

  /** Adding one more file to a selection adds one more key. */
  lemma SelectionMapSnoc(selection: seq<SourceFile>, file: SourceFile)
    ensures SelectionMap(selection + [file]) == SelectionMap(selection)[|selection| + 1 := Fresh(file)]
  {
    assert (selection + [file])[..|selection|] == selection;
  }

  /** A selection of n files has n entries. */
  lemma {:induction false} SelectionMapSize(selection: seq<SourceFile>)
    ensures |SelectionMap(selection)| == |selection|
    decreases |selection|
  {
    if |selection| > 0 {
      var n := |selection| - 1;
      SelectionMapSize(selection[..n]);
      SelectionMapAt(selection[..n], n + 1);
    }
  }

  /** A selection of n files becomes n entries under the keys 1..n, key i + 1 holding
      file i as ready, the keys listed in that order. */
  lemma SelectionMapShape(selection: seq<SourceFile>)
    ensures forall k :: k in SelectionMap(selection) <==> 1 <= k <= |selection|
    ensures forall k :: k in SelectionMap(selection) ==> SelectionMap(selection)[k] == Fresh(selection[k - 1])
    ensures |SelectionMap(selection)| == |selection|
  {
    forall k
      ensures k in SelectionMap(selection) <==> 1 <= k <= |selection|
      ensures k in SelectionMap(selection) ==> SelectionMap(selection)[k] == Fresh(selection[k - 1])
    {
      SelectionMapAt(selection, k);
    }
    SelectionMapSize(selection);
  }

  /** The keys 1..n list the keys of the map of n files, each once. */
  lemma SelectionMapListed(selection: seq<SourceFile>)
    ensures ListsKeys(Ids(|selection|), SelectionMap(selection).Keys)
  {
    var keys, ids := SelectionMap(selection).Keys, Ids(|selection|);
    forall j | 0 <= j < |ids| ensures ids[j] in keys {
      SelectionMapAt(selection, ids[j]);
    }
    forall k | k in keys ensures k in ids {
      SelectionMapAt(selection, k);
      assert ids[k - 1] == k;
    }
  }

  /** A fresh selection has nothing converted, progress 0 and only well-formed entries. */
  lemma SelectionMapIsReady(selection: seq<SourceFile>)
    ensures ConvertedKeys(SelectionMap(selection)) == {} && ProgressOf(SelectionMap(selection)).Percent() == 0.0
    ensures WellFormed(SelectionMap(selection))
  {
    var m := SelectionMap(selection);
    forall k | k in m ensures m[k].status == FileStatus.Ready {
      SelectionMapAt(selection, k);
    }
    assert ConvertedKeys(m) == {};
  }

  /** The `forEach` of `handleFileChange`: file i goes under key i + 1, ready, and the
      keys are inserted in the order 1..n. */
  method NewFileMap(selection: seq<SourceFile>) returns (fileMap: map<int, SelectedFile>, keys: seq<int>)
    ensures fileMap == SelectionMap(selection) && keys == Ids(|selection|)
  {
    fileMap, keys := map[], [];
    var i := 0;
    while i < |selection|
      invariant 0 <= i <= |selection|
      invariant fileMap == SelectionMap(selection[..i])
      invariant keys == Ids(i)
    {
      assert selection[..i + 1] == selection[..i] + [selection[i]];
      SelectionMapSnoc(selection[..i], selection[i]);
      fileMap := fileMap[i + 1 := Fresh(selection[i])];
      keys := keys + [i + 1];
      i := i + 1;
    }
    assert selection[..i] == selection;
  }

  /** Only successful files reach the archive, every successful file does, and each entry
      holds the bytes of the last successful file of that name. */
  lemma {:induction false} ZipHoldsOnlySuccesses(srcs: seq<SourceFile>, format: string, engine: Engine)
    ensures forall name :: name in ZipOf(srcs, format, engine) ==>
      exists j :: 0 <= j < |srcs| && Succeeds(srcs, j, format, engine) && EntryName(srcs[j].name, format) == name
    ensures forall j :: 0 <= j < |srcs| && Succeeds(srcs, j, format, engine) ==>
      EntryName(srcs[j].name, format) in ZipOf(srcs, format, engine)
    decreases |srcs|
  {
    if |srcs| > 0 {
      var n := |srcs| - 1;
      var prefix := srcs[..n];
      ZipHoldsOnlySuccesses(prefix, format, engine);
      forall j | 0 <= j < n ensures srcs[j] == prefix[j] && (Succeeds(srcs, j, format, engine) <==> Succeeds(prefix, j, format, engine)) {
      }
    }
  }

  /** Last write wins: the entry of a name holds the blob of the last successful file with that name. */
  lemma {:induction false} ZipLastWriteWins(srcs: seq<SourceFile>, format: string, engine: Engine, j: nat)
    requires j < |srcs| && Succeeds(srcs, j, format, engine)
    requires forall l :: j < l < |srcs| && Succeeds(srcs, l, format, engine) ==>
      EntryName(srcs[l].name, format) != EntryName(srcs[j].name, format)
    ensures EntryName(srcs[j].name, format) in ZipOf(srcs, format, engine)
    ensures ZipOf(srcs, format, engine)[EntryName(srcs[j].name, format)]
         == Blob(engine(j, srcs[j], format).bytes, AudioMimeType(format))
    decreases |srcs|
  {
    var n := |srcs| - 1;
    if j < n {
      var prefix := srcs[..n];
      forall l | j < l < n && Succeeds(prefix, l, format, engine)
        ensures EntryName(prefix[l].name, format) != EntryName(prefix[j].name, format)
      {
        assert prefix[l] == srcs[l];
      }
      ZipLastWriteWins(prefix, format, engine, j);
    }
  }

  /** The number of successful files among `srcs`. */
  function SuccessCount(srcs: seq<SourceFile>, format: string, engine: Engine): nat
  {
    if |srcs| == 0 then 0
    else
      var n := |srcs| - 1;
      SuccessCount(srcs[..n], format, engine) + (if engine(n, srcs[n], format).Output? then 1 else 0)
  }

  /** Distinct entry names among the successful files. */
  predicate DistinctEntryNames(srcs: seq<SourceFile>, format: string, engine: Engine)
  {
    forall i, j :: 0 <= i < j < |srcs| && Succeeds(srcs, i, format, engine) && Succeeds(srcs, j, format, engine) ==>
      EntryName(srcs[i].name, format) != EntryName(srcs[j].name, format)
  }

  /** The archive never has more entries than there are successful files. */
  lemma {:induction false} ZipSizeBound(srcs: seq<SourceFile>, format: string, engine: Engine)
    ensures |ZipOf(srcs, format, engine)| <= SuccessCount(srcs, format, engine)
    decreases |srcs|
  {
    if |srcs| > 0 {
      ZipSizeBound(srcs[..|srcs| - 1], format, engine);
    }
  }

  /** Distinct entry names among some files stay distinct among the first of them. */
  lemma DistinctEntryNamesPrefix(srcs: seq<SourceFile>, n: nat, format: string, engine: Engine)
    requires n <= |srcs| && DistinctEntryNames(srcs, format, engine)
    ensures DistinctEntryNames(srcs[..n], format, engine)
  {
    var prefix := srcs[..n];
    forall i, j | 0 <= i < j < |prefix| && Succeeds(prefix, i, format, engine) && Succeeds(prefix, j, format, engine)
      ensures EntryName(prefix[i].name, format) != EntryName(prefix[j].name, format)
    {
      assert prefix[i] == srcs[i] && prefix[j] == srcs[j];
    }
  }

  /** When no two successful files share an entry name, the archive has one entry per
      successful file. */
  lemma {:induction false} ZipSizeExact(srcs: seq<SourceFile>, format: string, engine: Engine)
    requires DistinctEntryNames(srcs, format, engine)
    ensures |ZipOf(srcs, format, engine)| == SuccessCount(srcs, format, engine)
    decreases |srcs|
  {
    if |srcs| > 0 {
      var n := |srcs| - 1;
      var prefix := srcs[..n];
      DistinctEntryNamesPrefix(srcs, n, format, engine);
      ZipSizeExact(prefix, format, engine);
      if Succeeds(srcs, n, format, engine) {
        var name := EntryName(srcs[n].name, format);
        ZipHoldsOnlySuccesses(prefix, format, engine);
        forall j | 0 <= j < n && Succeeds(prefix, j, format, engine)
          ensures EntryName(prefix[j].name, format) != name
        {
          assert prefix[j] == srcs[j];
        }
        assert name !in ZipOf(prefix, format, engine);
      }
    }
  }

  /** Running the callbacks for the first n of distinct keys keeps the key set and every
      file, finishes the entries under those n keys and leaves the others untouched. */
  lemma {:induction false} ProcessedFacts(files: map<int, SelectedFile>, keys: seq<int>, n: nat, format: string, engine: Engine)
    requires n <= |keys|
    requires forall i, j :: 0 <= i < j < |keys| ==> keys[i] != keys[j]
    ensures Processed(files, keys, n, format, engine).Keys == files.Keys
    ensures forall k :: k in files ==> Processed(files, keys, n, format, engine)[k].data == files[k].data
    ensures forall j :: 0 <= j < n && keys[j] in files ==>
      Processed(files, keys, n, format, engine)[keys[j]] == Finished(j, files[keys[j]].data, format, engine)
    ensures forall j :: n <= j < |keys| && keys[j] in files ==>
      Processed(files, keys, n, format, engine)[keys[j]] == files[keys[j]]
  {
    if n > 0 {
      ProcessedFacts(files, keys, n - 1, format, engine);
      var m := Processed(files, keys, n - 1, format, engine);
      forall j | 0 <= j < |keys| && j != n - 1 && keys[j] in files
        ensures Processed(files, keys, n, format, engine)[keys[j]] == m[keys[j]]
      {
        assert keys[j] != keys[n - 1];
      }
    }
  }

  /** Running the callbacks for the first n keys keeps key `k` present or absent as it was,
      and keeps its file. */
  lemma {:induction false} ProcessedKeeps(files: map<int, SelectedFile>, keys: seq<int>, n: nat, format: string, engine: Engine, k: int)
    requires n <= |keys|
    ensures k in Processed(files, keys, n, format, engine) <==> k in files
    ensures k in files ==> Processed(files, keys, n, format, engine)[k].data == files[k].data
  {
    if n > 0 {
      ProcessedKeeps(files, keys, n - 1, format, engine, k);
    }
  }

  /** Running the callbacks for all of the distinct keys keeps the key set and finishes the
      entry under every key. */
  lemma ProcessedAll(files: map<int, SelectedFile>, keys: seq<int>, format: string, engine: Engine)
    requires forall i, j :: 0 <= i < j < |keys| ==> keys[i] != keys[j]
    ensures Processed(files, keys, |keys|, format, engine).Keys == files.Keys
    ensures forall j :: 0 <= j < |keys| && keys[j] in files ==>
      Processed(files, keys, |keys|, format, engine)[keys[j]] == Finished(j, files[keys[j]].data, format, engine)
  {
    ProcessedFacts(files, keys, |keys|, format, engine);
  }

  /** One step of the batch over the keys `keys` of `files`, whose files are `srcs`: the
      callback for key i finishes its entry and adds its archive entry, if any. */
  lemma BatchStep(files: map<int, SelectedFile>, keys: seq<int>, srcs: seq<SourceFile>, i: nat, format: string, engine: Engine)
    requires i < |keys| == |srcs| && keys[i] in files && srcs[i] == files[keys[i]].data
    ensures keys[i] in Processed(files, keys, i, format, engine)
    ensures Processed(files, keys, i, format, engine)[keys[i]].data == srcs[i]
    ensures Processed(files, keys, i + 1, format, engine)
         == Processed(files, keys, i, format, engine)[keys[i] := Finished(i, srcs[i], format, engine)]
    ensures ZipOf(srcs[..i + 1], format, engine) == ZipAdd(ZipOf(srcs[..i], format, engine), i, srcs[i], format, engine)
  {
    ProcessedKeeps(files, keys, i, format, engine, keys[i]);
    ZipOfSnoc(srcs, i, format, engine);
  }

  /** After a batch every file is in a terminal status and well formed: converted exactly
      when its engine call succeeded. */
  lemma BatchEndsTerminal(files0: map<int, SelectedFile>, keys: seq<int>, files: map<int, SelectedFile>,
                          format: string, engine: Engine)
    requires forall j :: 0 <= j < |keys| ==> keys[j] in files0 && keys[j] in files
    requires forall k :: k in files ==> k in keys
    requires forall j :: 0 <= j < |keys| ==> files[keys[j]] == Finished(j, files0[keys[j]].data, format, engine)
    ensures WellFormed(files)
    ensures forall k :: k in files ==> files[k].status == FileStatus.Converted || files[k].status == FileStatus.Error
  {
    forall k | k in files
      ensures WellFormedEntry(files[k])
      ensures files[k].status == FileStatus.Converted || files[k].status == FileStatus.Error
    {
      var j :| 0 <= j < |keys| && keys[j] == k;
    }
  }

  /** Aggregate progress after a batch is 100 exactly when there was a file and every engine
      call succeeded; a single failure keeps it below 100. */
  lemma BatchProgressFull(files0: map<int, SelectedFile>, keys: seq<int>, files: map<int, SelectedFile>,
                          format: string, engine: Engine)
    requires forall j :: 0 <= j < |keys| ==> keys[j] in files0 && keys[j] in files
    requires forall k :: k in files ==> k in keys
    requires forall j :: 0 <= j < |keys| ==> files[keys[j]] == Finished(j, files0[keys[j]].data, format, engine)
    ensures ProgressOf(files).Percent() == 100.0 <==>
      |keys| > 0 && forall j :: 0 <= j < |keys| ==> engine(j, files0[keys[j]].data, format).Output?
  {
    ProgressBounds(files);
    if |keys| > 0 {
      assert keys[0] in files;
    }
    if |keys| == 0 {
      assert forall k :: k !in files.Keys;
      assert files.Keys == {};
    }
    if forall j :: 0 <= j < |keys| ==> engine(j, files0[keys[j]].data, format).Output? {
      forall k | k in files ensures files[k].status == FileStatus.Converted {
        var j :| 0 <= j < |keys| && keys[j] == k;
      }
    }
    if ProgressOf(files).Percent() == 100.0 {
      assert forall k :: k in files ==> files[k].status == FileStatus.Converted;
      forall j | 0 <= j < |keys| ensures engine(j, files0[keys[j]].data, format).Output? {
        assert keys[j] in files;
        assert files[keys[j]].status == FileStatus.Converted;
      }
    }
  }

  /** Three files whose second conversion fails: the first and third end converted, the
      second ends with its message, and the archive holds exactly two entries. */
  lemma OneFailureDoesNotStopTheBatch(a: SourceFile, b: SourceFile, c: SourceFile, engine: Engine)
    requires engine(0, a, "mp3").Output? && engine(1, b, "mp3").Threw? && engine(2, c, "mp3").Output?
    requires EntryName(a.name, "mp3") != EntryName(c.name, "mp3")
    ensures Finished(0, a, "mp3", engine).status == FileStatus.Converted
    ensures Finished(1, b, "mp3", engine).status == FileStatus.Error
    ensures Finished(2, c, "mp3", engine).status == FileStatus.Converted
    ensures |ZipOf([a, b, c], "mp3", engine)| == 2
  {
    var srcs := [a, b, c];
    assert srcs[..2] == [a, b] && [a, b][..1] == [a] && [a][..0] == [];
    assert SuccessCount([a], "mp3", engine) == 1;
    assert SuccessCount([a, b], "mp3", engine) == 1;
    assert SuccessCount(srcs, "mp3", engine) == 2;
    assert DistinctEntryNames(srcs, "mp3", engine);
    ZipSizeExact(srcs, "mp3", engine);
  }

  /** The subtype of the MIME type given to a converted blob is its format. */
  lemma AudioSubtypeOfMimeType(format: string)
    ensures AudioSubtype(AudioMimeType(format)) == format
  {
    var mime := AudioMimeType(format);
    assert mime[..6] == "audio/" && mime[6..] == format;
  }

  /** `updateFileStatus` with agreeing status, blob and message keeps the job invariant. */
  lemma UpdateKeepsWellFormed(files: map<int, SelectedFile>, id: int, status: FileStatus, blob: Option<Blob>, error: Option<string>)
    requires WellFormed(files) && id in files && Consistent(status, blob, error)
    ensures WellFormed(files[id := SelectedFile(files[id].data, status, blob, error)])
  {
  }

  /** The finding: after converting to one format and then picking another, the download name
      as written no longer matches the archive entry nor the blob's type, while the corrected
      name does. */
  lemma DownloadNameUsesStaleFormat()
    ensures var blob := Blob([], AudioMimeType("mp3"));
      && DownloadNameAsWritten("song.wav", "wav") == "song.wav"
      && EntryName("song.wav", "mp3") == "song.mp3"
      && DownloadNameAsWritten("song.wav", "wav") != EntryName("song.wav", "mp3")
      && DownloadName("song.wav", blob) == EntryName("song.wav", "mp3")
  {
    assert "song.wav" == "song" + [FileName.Dot] + "wav";
    FileName.BeforeLastDot("song", "wav");
    AudioSubtypeOfMimeType("mp3");
    assert "song" + "." + "wav" == "song.wav";
    assert "song" + "." + "mp3" == "song.mp3";
    assert "song.wav"[5] != "song.mp3"[5];
  }

  /** The corrected download name of a file converted to `format` is its archive entry name,
      whatever the format selection is at download time. */
  lemma DownloadNameMatchesArchiveEntry(i: nat, file: SourceFile, format: string, engine: Engine)
    requires Finished(i, file, format, engine).convertedBlob.Some?
    ensures DownloadName(file.name, Finished(i, file, format, engine).convertedBlob.value) == EntryName(file.name, format)
  {
    AudioSubtypeOfMimeType(format);
  }

  // ---------------------------------------------------------------------------
  // The component state
  // ---------------------------------------------------------------------------

  class AppState {
    /** `filesToConvert`: the selected files by key ... */
    var files: map<int, SelectedFile>
    /** ... and the Map's insertion order of those keys. */
    var order: seq<int>
    /** `conversionProgress`, as the counts it is computed from */
    var progress: Progress
    /** `convertStatus` */
    var convertStatus: ConvertStatus
    /** `selectFormat`; "" while no format is chosen */
    var selectFormat: string
    /** `zipFile`: the archive's entries by name */
    var zipFile: map<string, Blob>

    /** The key order lists every key of the map once. */
    ghost predicate Valid()
      reads this
    {
      ListsKeys(order, files.Keys)
    }

    /** The initial state: nothing selected, progress 0, idle, no format, an empty archive. */
    constructor ()
      ensures Valid()
      ensures files == map[] && order == [] && progress == Progress(0, 0)
      ensures convertStatus == ConvertStatus.Idle && selectFormat == "" && zipFile == map[]
    {
      files, order, progress := map[], [], Progress(0, 0);
      convertStatus, selectFormat, zipFile := ConvertStatus.Idle, "", map[];
    }

    /** `updateFileStatus`: an absent id changes nothing; a present one gets the new status,
        blob and message (its file kept), and progress is recounted over the updated map. */
    method UpdateFileStatus(id: int, status: FileStatus, blob: Option<Blob>, error: Option<string>)
      requires Valid()
      modifies this`files, this`progress
      ensures Valid() && files.Keys == old(files).Keys
      ensures id !in old(files) ==> files == old(files) && progress == old(progress)
      ensures id in old(files) ==>
        && files == old(files)[id := SelectedFile(old(files)[id].data, status, blob, error)]
        && progress == ProgressOf(files)
    {
      if id !in files {
        return;
      }
      var file := files[id];
      files := files[id := SelectedFile(file.data, status, blob, error)];
      progress := Progress(|ConvertedKeys(files)|, |files|);
    }

    /** `handleFileChange`: a non-empty selection replaces the map by keys 1..n, key i + 1
        holding file i as ready; an empty one keeps the map. Either way the batch is idle. */
    method HandleFileChange(selection: seq<SourceFile>)
      requires Valid()
      modifies this
      ensures Valid()
      ensures |selection| > 0 ==> files == SelectionMap(selection) && order == Ids(|selection|)
      ensures |selection| == 0 ==> files == old(files) && order == old(order)
      ensures convertStatus == ConvertStatus.Idle
      ensures progress == old(progress) && selectFormat == old(selectFormat) && zipFile == old(zipFile)
    {
      if |selection| > 0 {
        var fileMap, keys := NewFileMap(selection);
        SelectionMapListed(selection);
        files, order := fileMap, keys;
      }
      convertStatus := ConvertStatus.Idle;
    }

    /** `handleSelectFormat`: records the format and makes the batch idle; the files keep their states. */
    method HandleSelectFormat(format: string)
      requires Valid()
      modifies this
      ensures Valid()
      ensures selectFormat == format && convertStatus == ConvertStatus.Idle
      ensures files == old(files) && order == old(order) && progress == old(progress) && zipFile == old(zipFile)
    {
      selectFormat := format;
      convertStatus := ConvertStatus.Idle;
    }

    /** One file of `convertFiles` (the callback run for key `key` at position i): a key no
        longer in the map is skipped; otherwise the file is marked converting, the engine runs,
        and on success its blob goes into the archive under its entry name and the file is
        marked converted; on a throw the file is marked failed with the message. */
    method ConvertOne(key: int, i: nat, format: string, engine: Engine, zip: map<string, Blob>)
      returns (zip': map<string, Blob>)
      requires Valid()
      modifies this`files, this`progress
      ensures Valid() && files.Keys == old(files).Keys
      ensures key !in old(files) ==> files == old(files) && progress == old(progress) && zip' == zip
      ensures key in old(files) ==>
        && files == old(files)[key := Finished(i, old(files)[key].data, format, engine)]
        && progress == ProgressOf(files)
        && zip' == ZipAdd(zip, i, old(files)[key].data, format, engine)
    {
      if key !in files {
        return zip;
      }
      var selected := files[key];
      UpdateFileStatus(key, FileStatus.Converting, None, None);
      ghost var converting := files;
      var file := selected.data;
      match engine(i, file, format)
      case Output(bytes) =>
        var blob := Blob(bytes, AudioMimeType(format));
        zip' := zip[EntryName(file.name, format) := blob];
        UpdateFileStatus(key, FileStatus.Converted, Some(blob), None);
        assert files == converting[key := Finished(i, file, format, engine)];
      case Threw(e) =>
        zip' := zip;
        UpdateFileStatus(key, FileStatus.Error, None, Some(ErrorMessage(e)));
        assert files == converting[key := Finished(i, file, format, engine)];
    }

    /** The batch of `convertFiles` (sequential here): every file, in key order, is converted
        by `ConvertOne`; the archive built along the way is returned. */
    method ConvertAll(format: string, engine: Engine) returns (zip: map<string, Blob>)
      requires Valid()
      modifies this`files, this`progress
      ensures Valid() && files.Keys == old(files).Keys
      ensures forall j :: 0 <= j < |order| ==> files[order[j]] == Finished(j, old(files)[order[j]].data, format, engine)
      ensures zip == ZipOf(Sources(old(files), order), format, engine)
      ensures |order| > 0 ==> progress == ProgressOf(files)
      ensures |order| == 0 ==> progress == old(progress)
    {
      var keys := order;
      ghost var files0, progress0 := files, progress;
      ghost var srcs := Sources(files0, keys);
      zip := map[];
      var i := 0;
      while i < |keys|
        invariant 0 <= i <= |keys|
        invariant Valid()
        invariant files == Processed(files0, keys, i, format, engine)
        invariant zip == ZipOf(srcs[..i], format, engine)
        invariant i > 0 ==> progress == ProgressOf(files)
        invariant i == 0 ==> progress == progress0
      {
        var key := keys[i];
        BatchStep(files0, keys, srcs, i, format, engine);
        zip := ConvertOne(key, i, format, engine, zip);
        i := i + 1;
      }
      assert srcs[..|keys|] == srcs;
      ProcessedAll(files0, keys, format, engine);
    }

    /** `convertFiles`: without a format nothing happens. Otherwise every file, in key order,
        passes through converting and ends converted (with its blob) or failed (with its
        message); the archive is rebuilt from the successes alone; the batch ends converted. */
    method ConvertFiles(engine: Engine)
      requires Valid()
      modifies this
      ensures Valid()
      ensures old(selectFormat) == "" ==>
        && files == old(files) && order == old(order) && progress == old(progress)
        && convertStatus == old(convertStatus) && zipFile == old(zipFile)
      ensures old(selectFormat) != "" ==>
        && order == old(order) && files.Keys == old(files).Keys
        && (forall j :: 0 <= j < |order| ==> files[order[j]] == Finished(j, old(files)[order[j]].data, old(selectFormat), engine))
        && zipFile == ZipOf(Sources(old(files), old(order)), old(selectFormat), engine)
        && (|order| > 0 ==> progress == ProgressOf(files))
        && (|order| == 0 ==> progress == old(progress))
        && convertStatus == ConvertStatus.Converted
      ensures old(selectFormat) != "" ==>
        && WellFormed(files)
        && forall k :: k in files ==> files[k].status == FileStatus.Converted || files[k].status == FileStatus.Error
      ensures selectFormat == old(selectFormat)
    {
      if selectFormat == "" {
        return;
      }
      convertStatus := ConvertStatus.Converting;
      var format := selectFormat;
      ghost var files0 := files;
      var zip := ConvertAll(format, engine);
      BatchEndsTerminal(files0, order, files, format, engine);
      zipFile := zip;
      convertStatus := ConvertStatus.Converted;
    }

    /** `handleDownloadFile`: offers a download only for a present, converted entry with a blob,
        named after the format selected now; that agrees with the corrected `DownloadName`
        exactly while the selection is still the blob's format. */
    method HandleDownloadFile(id: int) returns (d: Option<Download>)
      ensures d.Some? <==>
        id in files && files[id].status == FileStatus.Converted && files[id].convertedBlob.Some?
      ensures d.Some? ==>
        && d.value.blob == files[id].convertedBlob.value
        && d.value.name == DownloadNameAsWritten(files[id].data.name, selectFormat)
      ensures d.Some? && AudioSubtype(d.value.blob.mimeType) == selectFormat ==>
        d.value.name == DownloadName(files[id].data.name, d.value.blob)
    {
      if id !in files {
        return None;
      }
      var file := files[id];
      if file.status != FileStatus.Converted || file.convertedBlob.None? {
        return None;
      }
      var blob := file.convertedBlob.value;
      return Some(Download(DownloadNameAsWritten(file.data.name, selectFormat), Blob(blob.bytes, blob.mimeType)));
    }

    /** `handleReset`: an empty selection, progress 0, idle, no format, an empty archive. */
    method HandleReset()
      modifies this
      ensures Valid()
      ensures files == map[] && order == [] && progress == Progress(0, 0)
      ensures convertStatus == ConvertStatus.Idle && selectFormat == "" && zipFile == map[]
    {
      files, order := map[], [];
      progress := Progress(0, 0);
      convertStatus := ConvertStatus.Idle;
      selectFormat := "";
      zipFile := map[];
    }
  }
}
