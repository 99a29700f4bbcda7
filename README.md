# DocumentUpload form and upload workflow, in Dafny

This project models the logic of the `DocumentUpload` component of a
SharePoint Framework web part. The user drops files, fills in the metadata
fields configured for the web part and picks a destination document library.
Each file is then uploaded and its list item patched with the metadata.

The model covers:

- the component state: the files with their tri-state `success` flag, the
  selected library, the fields, the `uploading` flag and the activity log
  (`Types`);
- the form updates `setFieldValue`, `setDocumentLibrary`, `setFiles`,
  `clearForm` and the field replacement in `componentDidUpdate`, as pure
  state updates (`Updaters`, `Fields`, `Libraries`) and as methods of a class
  `DocumentUpload` that change its fields in place (`Component`);
- the submission gate `validForm`, the submit-button count, the
  library-option filter and the metadata payload sent with every file;
- the upload workflow of `uploadDocuments` (`Settling`). Each file's chain
  (upload, fetch the item, patch it) ends in at most one state update. Those
  updates run one at a time, in any order, so a submission is modelled as a
  sequence of settle events. The remote calls are abstract outcomes
  (`ChainResult`): everything resolved, the item fetch or patch was
  rejected, or the upload was rejected with some error message;
- the classification of a rejected upload: the error message is
  JSON-stringified, lower-cased and searched for "already exists"
  (`ErrorText`);
- the file-type icon URL chosen from a file name (`Icons`).

Behaviour of the code that the model keeps on purpose:

- `!!fld.Value` treats `undefined`, `null`, `false`, `0` and `""` as unfilled.
- Files are marked by name, so files that share a name are marked together.
- A rejected item fetch or patch is not returned to the outer `.catch`, so no
  update runs. The file stays unsettled, never marked failed, and
  `uploading` stays true.
- An upload rejected without `error.message` marks nothing: the catch
  handler throws (`JSON.stringify(undefined)` is not a string) before its
  update.
- `uploading` is computed from `prevState.filesToUpload`. The `map` just
  before it has already changed those same file objects in place, so the
  flag reflects the new outcomes. The model reads it from the marked list.
- `success` flags are never reset before a new submission. When failed files
  are submitted again, the first chain to settle can set `uploading` to false
  while other chains are still in flight (`ResubmitEndsUploadingEarly`).

## Model

| member | source | states |
|---|---|---|
| `Fields.AssignValue` | src/webparts/documentUpload/components/DocumentUpload.tsx:67-79 | same length; only fields whose internal name equals the key get the new value; names, sort order and all other values unchanged |
| `Fields.ClearValues` | src/webparts/documentUpload/components/DocumentUpload.tsx:166-170 | every value becomes null; length, names and sort order kept |
| `Fields.ClearValuesIdempotent` | src/webparts/documentUpload/components/DocumentUpload.tsx:160-173 | clearing the values twice equals clearing them once |
| `Fields.CountFilled` | src/webparts/documentUpload/components/DocumentUpload.tsx:285 | the count of truthy fields is at most the number of fields, and equals it iff every field is truthy |
| `Fields.PayloadKeys` | src/webparts/documentUpload/components/DocumentUpload.tsx:327-330 | the payload's keys are exactly the fields' internal names |
| `Fields.PayloadLastWins` | src/webparts/documentUpload/components/DocumentUpload.tsx:328-330 | each key carries the value of the last field with that internal name |
| `Fields.BuildPayload` | src/webparts/documentUpload/components/DocumentUpload.tsx:327-330 | the `forEach` loop builds exactly the payload, whose keys are the internal names |
| `Libraries.FindLibrary` | src/webparts/documentUpload/components/DocumentUpload.tsx:133-140 | nothing iff no configured library has the title; otherwise the first library with that title |
| `Libraries.PermittedTitles` | src/webparts/documentUpload/components/DocumentUpload.tsx:486 | a title is offered iff it belongs to a configured library and is among the permitted titles; at most one option per library |
| `Libraries.PermittedTitlesOfOne` | src/webparts/documentUpload/components/DocumentUpload.tsx:486-493 | a single configured library yields its title exactly when the title is permitted, otherwise nothing |
| `Libraries.PermittedTitlesAppend` | src/webparts/documentUpload/components/DocumentUpload.tsx:486-493 | the options of `a + b` are those of `a` followed by those of `b`: with the case above, the options are the filter of the configured libraries, in configured order, one per permitted library, repeated titles included |
| `Libraries.LibraryOptions` | src/webparts/documentUpload/components/DocumentUpload.tsx:486-493 | no options when no libraries are configured, otherwise exactly the permitted configured titles (order and multiplicity by the two lemmas above) |
| `Libraries.OptionIsSelectable` | src/webparts/documentUpload/components/DocumentUpload.tsx:133-140 | picking any offered option selects a library with that title |
| `Icons.ImgUrlByFileExtension` | src/webparts/documentUpload/components/DocumentUpload.tsx:96-123 | the page icon exactly for aspx, htm and html; `photo.png` for jpg, jpeg, jfif, gif and png; `folder.svg` for folder; `<extension>.png` under the 16-pixel folder for every other extension |
| `Icons.LastSegment` | src/webparts/documentUpload/components/DocumentUpload.tsx:86-87 | the result has no dot, is a suffix of the name, and is preceded by a dot unless it is the whole name |
| `Icons.GetImgUrl` | src/webparts/documentUpload/components/DocumentUpload.tsx:85-90 | every icon is the page icon or lies under the 16-pixel folder; the page icon only for a named file whose last segment is aspx, htm or html |
| `Icons.LastSegmentOfJoin` | src/webparts/documentUpload/components/DocumentUpload.tsx:86-87 | for a dot-free extension, the last segment of `base + "." + extension` is the extension |
| `Icons.GetImgUrlOfExtension` | src/webparts/documentUpload/components/DocumentUpload.tsx:85-90 | a file name gets the icon of the text after its last dot |
| `Icons.GetImgUrlWithoutDot` | src/webparts/documentUpload/components/DocumentUpload.tsx:85-90 | a name without a dot is used whole as the extension |
| `Icons.GetImgUrlOfMissingName` | src/webparts/documentUpload/components/DocumentUpload.tsx:86 | a missing or empty name gets the icon for the extension `bad` |
| `Icons.GenericIconOnlyByName` | src/webparts/documentUpload/components/DocumentUpload.tsx:101-102 | `genericfile.png` is produced iff the extension is `genericfile`, so the default is dead |
| `Icons.ExtensionCaseMatters` | src/webparts/documentUpload/components/DocumentUpload.tsx:104-121 | `jpg` gets the photo icon, but `JPG` falls through to `JPG.png` |
| `ErrorText.Lower` | src/webparts/documentUpload/components/DocumentUpload.tsx:361 | same length; no upper-case letter is left; each upper-case letter moves 32 code points up and every other character is kept |
| `ErrorText.LowerIdempotent` | src/webparts/documentUpload/components/DocumentUpload.tsx:361 | lower-casing twice equals lower-casing once |
| `ErrorText.IsAlreadyExists` | src/webparts/documentUpload/components/DocumentUpload.tsx:361 | no classification exactly when `error.message` is missing, because the handler throws; its meaning is pinned by the three lemmas below |
| `ErrorText.ContainsIff` | src/webparts/documentUpload/components/DocumentUpload.tsx:361 | the `indexOf(...) >= 0` search succeeds iff the pattern occurs at some index |
| `ErrorText.PlainMessageClassified` | src/webparts/documentUpload/components/DocumentUpload.tsx:361 | for a message without control characters, quotes or backslashes, it is an existing file iff the lower-cased message contains "already exists" |
| `ErrorText.QuoteKeepsPlain` | src/webparts/documentUpload/components/DocumentUpload.tsx:361 | plain text inside a message appears unchanged in its JSON form, after the quote and the escaped prefix |
| `ErrorText.AlreadyExistsDetected` | src/webparts/documentUpload/components/DocumentUpload.tsx:361 | every message containing "already exists" in any letter case is classified as an existing file |
| `ErrorText.EscapeCreatesMatch` | src/webparts/documentUpload/components/DocumentUpload.tsx:361 | U+001A followed by any text that lower-cases to "lready exists" lacks the phrase yet is classified as an existing file, because JSON escapes U+001A as `\u001a` |
| `Settling.Written` | src/webparts/documentUpload/components/DocumentUpload.tsx:342-383 | the outcome a chain's update writes: never unsettled; success iff upload, fetch and patch all resolved; failure iff the upload was rejected with a message; nothing otherwise |
| `Settling.LogOf` | src/webparts/documentUpload/components/DocumentUpload.tsx:312-383 | the log entries of a chain all name its file: "uploaded" then "updated metadata" for a stored file; otherwise only an "already exists" entry, present iff the upload was rejected with a message classified as such |
| `Settling.MarkFiles` | src/webparts/documentUpload/components/DocumentUpload.tsx:344-350 | every file with the settled name gets the outcome; every other file is unchanged |
| `Settling.CountSettled` | src/webparts/documentUpload/components/DocumentUpload.tsx:351 | the settled count equals the number of files iff no file is unsettled |
| `Settling.BeginUpload` | src/webparts/documentUpload/components/DocumentUpload.tsx:306-308 | `uploading` becomes true and nothing else changes |
| `Settling.Settle` | src/webparts/documentUpload/components/DocumentUpload.tsx:342-383 | no update (state unchanged) after a failed fetch or patch, or a message-less rejection. Otherwise only the named files get the outcome, and `uploading` iff some file is unsettled. A stored file appends "uploaded" then "updated metadata"; a rejection appends "already exists" iff the message says so |
| `Settling.RunFiles` | src/webparts/documentUpload/components/DocumentUpload.tsx:310-385 | after any order of events, each file's outcome is that of its own last updating event; library and fields are untouched |
| `Settling.RunMessages` | src/webparts/documentUpload/components/DocumentUpload.tsx:312-383 | the log only grows, by the events' entries in event order |
| `Settling.RunQuiet` | src/webparts/documentUpload/components/DocumentUpload.tsx:324-356 | chains that end without an update change nothing |
| `Settling.RunUploading` | src/webparts/documentUpload/components/DocumentUpload.tsx:342-383 | once any update has run, `uploading` is true iff some file is unsettled |
| `Settling.FinalOutcomeSettled` | src/webparts/documentUpload/components/DocumentUpload.tsx:344-379 | a file that has received an outcome never becomes unsettled again |
| `Settling.FinalOutcomeUntouched` | src/webparts/documentUpload/components/DocumentUpload.tsx:324-356 | a file none of whose events runs an update keeps its outcome |
| `Settling.SucceededOnlyAfterStored` | src/webparts/documentUpload/components/DocumentUpload.tsx:313-354 | a file becomes a success only through an event where both the upload and the metadata update resolved |
| `Settling.BatchSettles` | src/webparts/documentUpload/components/DocumentUpload.tsx:300-386 | when every file has an updating event, no file is unsettled and `uploading` ends false |
| `Settling.BatchStillUploading` | src/webparts/documentUpload/components/DocumentUpload.tsx:324-356 | an unsettled file with no updating event (in flight, or fetch/patch failed) stays unsettled and keeps `uploading` true |
| `Settling.ResubmitEndsUploadingEarly` | src/webparts/documentUpload/components/DocumentUpload.tsx:342-354 | resubmitting two failed files: the first stored one sets `uploading` false while the other is still pending |
| `Updaters.AssignLastWins` | src/webparts/documentUpload/components/DocumentUpload.tsx:67-79 | setting a field twice keeps only the second value |
| `Updaters.ClearForm` | src/webparts/documentUpload/components/DocumentUpload.tsx:160-173 | files and log emptied, every value null, names and order kept, library and `uploading` unchanged |
| `Updaters.ClearFormIdempotent` | src/webparts/documentUpload/components/DocumentUpload.tsx:160-173 | resetting twice equals resetting once |
| `Updaters.WithConfiguredFields` | src/webparts/documentUpload/components/DocumentUpload.tsx:395-404 | fields replaced by the configured ones iff the configuration changed; nothing else changes |
| `Updaters.ValidForm` | src/webparts/documentUpload/components/DocumentUpload.tsx:282-286 | true iff there is a file, every field value is truthy, and a library is selected |
| `Updaters.FalsyValueBlocksSubmit` | src/webparts/documentUpload/components/DocumentUpload.tsx:285 | a field holding undefined, null, false, 0 or "" makes the form invalid |
| `Updaters.ClearedFormInvalid` | src/webparts/documentUpload/components/DocumentUpload.tsx:282-286 | a reset form cannot be submitted |
| `Updaters.SubmitCount` | src/webparts/documentUpload/components/DocumentUpload.tsx:515 | the count is at most the number of files, and zero iff every file succeeded |
| `Updaters.SubmitCountIsPending` | src/webparts/documentUpload/components/DocumentUpload.tsx:515 | the count is exactly the number of indices whose file has not succeeded |
| `Component.DocumentUpload.constructor` | src/webparts/documentUpload/components/DocumentUpload.tsx:42-51 | initial state: no files, no library, the configured fields, not uploading, empty log |
| `Component.DocumentUpload.SetFieldValue` | src/webparts/documentUpload/components/DocumentUpload.tsx:67-79 | the in-place loop yields exactly `AssignValue`'s fields; nothing else changes |
| `Component.DocumentUpload.SetDocumentLibrary` | src/webparts/documentUpload/components/DocumentUpload.tsx:133-140 | the selected library becomes `FindLibrary`'s result; nothing else changes |
| `Component.DocumentUpload.SetFiles` | src/webparts/documentUpload/components/DocumentUpload.tsx:149-154 | the files are replaced; nothing else changes |
| `Component.DocumentUpload.ClearForm` | src/webparts/documentUpload/components/DocumentUpload.tsx:160-173 | the new state is `Updaters.ClearForm` of the old one |
| `Component.DocumentUpload.ComponentDidUpdate` | src/webparts/documentUpload/components/DocumentUpload.tsx:395-404 | the new state is `WithConfiguredFields` of the old one |
| `Component.DocumentUpload.UploadDocuments` | src/webparts/documentUpload/components/DocumentUpload.tsx:300-330 | `uploading` set and nothing else changed; one chain per given file, in order; the payload is `Payload` of the fields |
| `Component.DocumentUpload.MarkFilesInPlace` | src/webparts/documentUpload/components/DocumentUpload.tsx:373-379 | the in-place marking loop yields exactly `MarkFiles` |
| `Component.DocumentUpload.CountSettledFiles` | src/webparts/documentUpload/components/DocumentUpload.tsx:380 | the loop counts the settled files; the count equals the number of files iff none is unsettled |
| `Component.DocumentUpload.SettleChain` | src/webparts/documentUpload/components/DocumentUpload.tsx:342-383 | the new state is `Settle` of the old one |

## Left out

- Rendering is not modelled: the JSX markup, the `renderField` mapping from field type to form control, styles, icons and the `ActivityItem` payloads. Log entries are tagged values (`Uploaded`, `UpdatedMetadata`, `AlreadyExists`) naming their file.
- The remote calls (`files.add`, `getByName(...).getItem`, `items.getById(...).update`) are not modelled. Each chain's end is an abstract `ChainResult`. For this reason `UploadDocuments` takes no library: the library path and title are only arguments of those calls.
- Promise scheduling is not modelled. Each state update is one atomic transition, applied in the order given by the event sequence.
- Aliasing of field objects is not modelled. The source mutates field objects in place, and those objects are shared with the configured field list. The model copies values instead. Two consequences are not captured: the configured list also changes, and a payload is built from the values at item-fetch time rather than at submit time.
- `Component.DocumentUpload.ComponentDidUpdate` compares the two configurations by value equality, not by their `JSON.stringify` text. The two differ only for values that serialise alike, such as a date and its ISO string.
- `ErrorText.Lower` lower-cases ASCII letters only. Among the other characters, only U+0130 and U+212A lower-case to an ASCII letter. Neither can take part in a match of "already exists".
- `Types.Value` has whole numbers only. Fractional numbers and `NaN` (which is falsy) are not modelled.
- The progress label's kilobyte figure (`Math.round` of a floating-point division) is not modelled.
- `FileInfo` keeps only the name, size and outcome. Path, MIME type and modification time are not read by the form logic.
- src/webparts/documentUpload/DocumentUploadWebPart.ts is not part of this model: SDK setup, list and field fetching, property-pane configuration, mounting, and the permission probe. The list of permitted library titles is a parameter of `Libraries.LibraryOptions`.
- src/webparts/documentUpload/components/IDocumentUploadProps.ts is not part of this model. It only declares the component's props.
