# audio-converter: the file registry and the row actions, in Dafny

The page of audio-converter lets a user choose several audio files and a target format. It
converts every file with an in-browser transcoding engine, shows per-file and aggregate
progress, and offers the results one by one or as a zip archive. This project models the
bookkeeping around the engine. It has two parts.

- **The page state** (`App`, src/App.tsx), a class `App.AppState` with these fields:
  - the selection, a map from keys 1..n to entries `{file, status, blob?, message?}`, plus
    the Map's insertion order of its keys;
  - the aggregate progress;
  - the batch status `idle | converting | converted`;
  - the chosen format;
  - the archive, a map from entry name to blob.

  Its methods are the page's handlers: `updateFileStatus`, `handleFileChange`,
  `handleSelectFormat`, `convertFiles` (split into the per-file callback `ConvertOne` and the
  batch loop `ConvertAll`), `handleDownloadFile` and `handleReset`. Each is proved against
  specification functions:
  - `ProgressOf` is the count formula;
  - `SelectionMap` is the map a selection becomes;
  - `Finished` is the state a file ends in after the engine ran on it;
  - `ZipOf` is the archive built from the successes.

  The lemmas then prove what those functions promise: progress bounds, terminal coverage,
  "only successes reach the archive", last write wins, and entry counts.
- **The name helper** (`FileName`): `getFileNameWithoutExtension` is written as the source
  writes it, with JavaScript's `split`/`slice(0, -1)`/`join` on ".". It is proved equal to
  "the text before the last dot".
- **One row of the file list** (`FileItem`, src/compoments/FileItem.tsx):
  - the five-status tables for click handler, button variant and label;
  - the cursor and progress-bar rules;
  - a class `FileItem.ActionButton` holding the label and variant state, with the mount
    and prop-change effects, the click dispatch and the hover pair `handleMouseEnter` /
    `handleMouseLeave`.

The transcoding engine (`writeFile` / `exec` / `readFile`) is a function parameter
`engine(i, file, format)`. It yields the output bytes or a thrown value. Files are
processed one after another in the Map's key order. Aggregate progress is kept as the pair
(converted count, map size). `Progress.Percent()` gives the number shown:
100 · converted / size, and 0 when there is no file.

Where the design description and the code disagree, the model follows the code:
- `handleFileChange` (src/App.tsx:157-168) keeps the previous progress value and the
  previous archive. It only replaces the map and sets the batch idle.
- `handleSelectFormat` (src/App.tsx:170-175) does not reset the files to ready. A converted
  file keeps its status and blob.
- `convertFiles` checks only that a format is chosen (src/App.tsx:107-109). With an empty
  map it still ends in "converted". The form's HTML `required` attributes are not modelled.
- App.tsx has no "waiting" status and no per-file progress events. Its four-status type
  (src/App.tsx:20) is kept apart from FileItem's five-status type.
- `handleReset` has no precondition on the batch status.
- The batch is bounded-concurrent in the source; see "Left out".

## Model

| member | source | states |
|---|---|---|
| FileName.Split | src/App.tsx:100 | `split(".")` gives one more piece than there are dots; no piece contains a dot; joining them with "." gives the name back |
| FileName.BeforeLastDot | src/App.tsx:99-101 | for a name `a + "." + b` where `b` has no dot, the name without extension is `a` |
| FileName.WithoutExtensionIsTextBeforeLastDot | src/App.tsx:99-101 | the name without extension is the text before the last dot, or "" when there is no dot; that text, a dot and the extension give back the name |
| FileName.WithoutExtensionExamples | src/App.tsx:99-101 | "song.wav" gives "song", "a.b.c" gives "a.b", "song" gives "" |
| App.ErrorMessage | src/App.tsx:141-144 | the recorded message is never empty: the thrown error's message when it is an `Error` with a message, "Unknown error" otherwise |
| App.ShareBounds | src/App.tsx:96 | the percentage of a part of a positive whole lies in [0, 100] and is 100 exactly when the part is the whole |
| App.ProgressBounds | src/App.tsx:93-96 | the converted count is at most the map size; the percentage lies in [0, 100] and is 100 exactly when the map is non-empty and every entry is converted |
| App.UpdateKeepsWellFormed | src/App.tsx:90-91 | an update with agreeing status, blob and message keeps every entry well formed (blob exactly when converted, message exactly when failed) |
| App.AppState.constructor | src/App.tsx:32-42 | the initial state: empty map, progress 0, idle, no format, empty archive |
| App.AppState.UpdateFileStatus | src/App.tsx:82-97 | an absent id changes nothing; a present id gets the new status, blob and message with its file kept, all other entries and the key set stay, and progress is recounted over the updated map |
| App.NewFileMap | src/App.tsx:160-163 | the `forEach` builds exactly the selection's map, with keys inserted in the order 1..n |
| App.SelectionMapShape | src/App.tsx:160-163 | the map of n files has exactly the keys 1..n, key i + 1 holds file i as ready, and its size is n |
| App.SelectionMapListed | src/App.tsx:160-164 | the keys 1..n list the new map's keys, each exactly once |
| App.SelectionMapIsReady | src/App.tsx:160-163 | a fresh selection has nothing converted, progress 0 and only well-formed entries |
| App.AppState.HandleFileChange | src/App.tsx:157-168 | a non-empty selection replaces the map and key order by the selection's; an empty one keeps them; the batch becomes idle; progress, format and archive are kept |
| App.AppState.HandleSelectFormat | src/App.tsx:170-175 | the format is recorded and the batch becomes idle; files, progress and archive are unchanged |
| App.AppState.ConvertOne | src/App.tsx:119-145 | a key not in the map is skipped; otherwise the file ends as `Finished` (converted with the engine's bytes as `audio/<format>`, or failed with its message), progress is recounted, and the archive gains that file's entry only on success |
| App.AppState.ConvertAll | src/App.tsx:115-148 | every key, in Map order, is finished from its original file; the key set and order are kept; the archive is `ZipOf` the files in that order; progress is recounted when there was a file |
| App.AppState.ConvertFiles | src/App.tsx:103-155 | without a format nothing changes; with one, every entry ends finished, so converted or failed and well formed; the archive is rebuilt from the successes alone, and the batch ends converted |
| App.ProcessedFacts | src/App.tsx:116-147 | running the callbacks for the first n keys keeps every key and file, finishes each of those n entries and leaves the others untouched |
| App.BatchEndsTerminal | src/App.tsx:119-145 | after a batch every entry is converted or failed, and well formed |
| App.BatchProgressFull | src/App.tsx:93-96 | after a batch the percentage is 100 exactly when there was a file and every engine call succeeded |
| App.OneFailureDoesNotStopTheBatch | src/App.tsx:141-145 | a failure in the middle of three files leaves the other two converted, and the archive holds their two entries |
| App.ZipHoldsOnlySuccesses | src/App.tsx:135-138 | every archive entry is the entry name of a successful file, and every successful file has its entry |
| App.ZipLastWriteWins | src/App.tsx:135-138 | an entry holds the blob of the last successful file with that name |
| App.ZipSizeBound | src/App.tsx:135-138 | the archive has at most as many entries as there are successful files |
| App.ZipSizeExact | src/App.tsx:135-138 | when no two successful files share an entry name, the archive has exactly one entry per successful file |
| App.AudioSubtypeOfMimeType | src/App.tsx:132-134 | the subtype of the MIME type `audio/<format>` is the format |
| App.AppState.HandleDownloadFile | src/App.tsx:177-191 | a download is offered exactly for a present, converted entry with a blob; it carries that blob named `<name without extension>.<format selected now>`, which is the corrected name whenever the selection is still the blob's format |
| App.DownloadNameUsesStaleFormat | src/App.tsx:186-188 | as written, a file converted to mp3 and downloaded after the selection changed to wav is named "song.wav", unlike its archive entry "song.mp3" |
| App.DownloadNameMatchesArchiveEntry | src/App.tsx:186-188 | the corrected download name, taken from the blob's own format, of a converted file is its archive entry name |
| App.AppState.HandleReset | src/App.tsx:198-206 | empty map and order, progress 0, idle, no format, empty archive |
| FileItem.HandlerFor | src/compoments/FileItem.tsx:35-41 | remove exactly for ready and failed files, download exactly for converted ones, no handler exactly for waiting and converting ones |
| FileItem.Variant | src/compoments/FileItem.tsx:51-57 | "outline-success" exactly when converted, "danger" exactly on error, "outline-secondary" for every other status |
| FileItem.BaseLabelRoundTrip | src/compoments/FileItem.tsx:63-69 | every base label reads back as its own status, so the table is injective; "Remove" is no status's base label; only converting shows the progress |
| FileItem.HoverRestoresBaseLabel | src/compoments/FileItem.tsx:74-86 | enter then leave restores the base label for every status; for ready and failed files leave restores it from any label |
| FileItem.HoverShowsRemoveOnlyWhenClickRemoves | src/compoments/FileItem.tsx:74-78 | hovering shows "Remove" exactly when a click would remove; for other statuses enter and leave keep the label |
| FileItem.CursorMatchesHandler | src/compoments/FileItem.tsx:96-101 | the cursor is "pointer" exactly when a click has a handler, and "wait" exactly for waiting and converting files |
| FileItem.ProgressBarShownWhileConverting | src/compoments/FileItem.tsx:132-134 | the bar is visible exactly while converting and hidden otherwise |
| FileItem.ActionButton.constructor | src/compoments/FileItem.tsx:50-72 | after mounting both effects have run: the label and variant are the table values of the status |
| FileItem.ActionButton.SetFile | src/compoments/FileItem.tsx:50-72 | new props rerun the variant effect on a status change and the label effect on a status or progress change; otherwise the state is kept |
| FileItem.ActionButton.HandleActionLayerClick | src/compoments/FileItem.tsx:34-48 | the click calls remove with the row id for ready and failed files, download for converted ones, and nothing exactly when the cursor waits |
| FileItem.ActionButton.HandleMouseEnter | src/compoments/FileItem.tsx:74-78 | the label becomes "Remove" for ready and failed files and is unchanged otherwise |
| FileItem.ActionButton.HandleMouseLeave | src/compoments/FileItem.tsx:80-86 | the label becomes "-" for ready files and "Error" for failed ones, and is unchanged otherwise |

## Left out

- Engine loading (`load`, `toBlobURL`, the unpkg URLs, src/App.tsx:65-80, 208-210) is network I/O against a foreign WASM engine. The model assumes a loaded engine.
- The engine calls `writeFile` / `exec` / `readFile` (src/App.tsx:128-131) are replaced by the `engine` parameter. It receives the position i, so the per-position output name `output_<i>.<format>` is left implicit.
- `pLimit(5)` and `Promise.all` (src/App.tsx:19, 116-118) are concurrency. The files are processed one at a time in key order; interleavings of up to five callbacks are not modelled.
- App.AppState.ConvertFiles: its contract states the state after the batch. The transient "converting" batch status and each file's transient "converting" status (src/App.tsx:111, 125) are visible in the bodies but not in the ensures, because only the awaited end state is observable.
- `JSZip.generateAsync`, `new Blob` / `new File` and the `converted_files.zip` wrapper (src/App.tsx:40-42, 150-153, 203-205) are library calls. The archive is a map from entry name to blob, and `zipFile` holds that map.
- The Blob's MIME-type normalisation by the browser is not modelled; `new Blob([b], {type})` (src/App.tsx:181-183) is taken to keep the bytes and type.
- `URL.createObjectURL`, the temporary link, `click` and `revokeObjectURL` (src/App.tsx:184-190), and `handleDownloadAll` (src/App.tsx:193-196), are browser download mechanics. `HandleDownloadFile` returns the name and blob that would be downloaded.
- A missing `FileList` (`event.target.files` null, src/App.tsx:158-159) is treated as an empty selection.
- `event.preventDefault` / `stopPropagation` are not modelled; neither are the `required` form validation, the `disabled` fieldset while converting, and the rest of the JSX (src/App.tsx:212-362, src/compoments/FileItem.tsx:88-145). App.tsx renders its own list there and does not use `FileItem`.
- Floating-point progress is modelled as exact counts with a `real` percentage. `toFixed(2)` formatting (src/App.tsx:284, src/compoments/FileItem.tsx:66) is kept abstract: the converting label is `Percent(progress)`.
- FileItem.ActionButton.constructor: the empty initial label and variant before the first effects run (src/compoments/FileItem.tsx:31-32) are not a state the model exposes.
- React's state scheduling (`useState` setters applied on the next render, `useCallback` closures) is not modelled. `updateFileStatus` mutates the shared Map in place before recounting, so it is modelled as an immediate field update.
- src/compoments/Footer.tsx (static markup) and vite.config.ts (build configuration) are not part of this model.

## Findings

| source | as written | input that shows it | evidently intended | confidence | as-written member | corrected member |
|---|---|---|---|---|---|---|
| src/App.tsx:186-188 | the download name's extension is the format selected when Download is clicked, not the format the blob was converted to | convert "song.wav" to mp3, then select "wav" in the format box (files stay converted), then click Download: the file is named "song.wav" but holds `audio/mp3` bytes, while its archive entry is "song.mp3" | the extension is the format the blob was converted to, so the download matches its archive entry (the handler itself is modelled as written) | medium, not executed | App.DownloadNameAsWritten, App.DownloadNameUsesStaleFormat | App.DownloadName, App.DownloadNameMatchesArchiveEntry |
