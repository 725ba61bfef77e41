# rawcrop in Dafny

rawcrop is a small tool for RAW photographs. It has four parts:

- **The page** (`frontend/src/App.jsx`). It keeps the uploaded file records, the preview URL, the cropped preview and cropped RAW URLs, a preview/edit mode and a loading flag. It shows one of three views: upload, preview with metadata and a download link, or the cropper. Its handlers clear everything, send a crop request, enter edit mode and cancel a crop.
- **The upload component** (`frontend/src/components/ui/fileUpload.jsx`), which has an earlier draft at `src/components/ui/fileUpload.jsx`.
  - The component accepts only the RAW extensions nef, cr2, arw and dng.
  - It posts each accepted file on its own. A failure skips only that file.
  - It appends the new records and previews the first of them. Pasted images take the same path.
  - It removes a record by index.
  - The draft keeps its own list. Its `handleFiles` does no filtering of its own: it gives each file an object URL and appends it.
- **The upload route** (`backend/main.py`). It stores the upload under a UUID-prefixed name and classifies the extension as RAW, raster or unsupported. It renders a JPEG preview and answers 200, 400 or 500.
- **The bottom-crop helpers.**
  - `crop_raw_output` (`backend/temp.py`) strips quotes from the path, checks that the file exists and decodes it. It refuses an image that is not taller than the crop, drops the bottom rows and flattens the rest to bytes.
  - The batch script (`backend/code.py`) walks a folder and selects the RAW files by suffix. It cuts 1300 rows off the bottom of each visible Bayer mosaic and writes a TIFF. The TIFF's name has ".arw" and ".dng" replaced by ".tiff".

The model takes the source's own form:

- **Values and transitions.** The page's state is a value (`Workflow.AppState`), and each handler is a transition function with lemmas about the views.
- **State changed in place.** The same handlers also act on a class `Workflow.App` whose fields are updated in place. The upload component's handlers update that object. The draft's `BrowserFile` objects receive their `preview` property in place.
- **Loops.** Each loop becomes a method with invariants, proved equal to a recursive specification function:
  - the upload loop: `FileUpload.UploadBatch` and `FileUpload.Uploaded`;
  - the paste filter: `Clipboard.CollectPastedImages` and `Clipboard.PastedImages`;
  - the batch loop: `BatchCrop.ProcessFolder` and `BatchCrop.Run`.
- **Outside answers are parameters.** These are the server's answers, `window.confirm`, the UUID, the disk, the decoders, `URL.createObjectURL` and the folder listing.
- **The two sides together.** `EndToEnd` joins the page and the route. It shows how a route answer becomes a record, and that the page's whitelist, the route's RAW branch and the batch script's selection agree, with one exception: a dot-free name.

Modules, one per file:

- `Values`: Option/Result, JavaScript truthiness, `||`.
- `Names`: lower-casing, `split(sep)` plus last piece, and extensions.
- `Seqs`: Python slicing, flattening and the index filter.
- `Workflow`, `Clipboard`, `FileUpload`, `DraftUpload`: the client.
- `UploadRoute`, `RawCrop`, `BatchCrop`: the server and the scripts.
- `EndToEnd`: the two sides together.

Behaviour the model exposes, as the code is written:

- **Clear.** Clearing needs the user's confirmation and then any JSON answer, whatever its status. It drops the records and the three URLs. It does not reset `mode`, so after a clear from the crop view the next upload lands in the crop view again.
- **Crop requests.** The cropper calls `onCropComplete` without crop data. Reading `cropData.x` then throws before any request is built. So a crop attempt changes only `loading`, and the crop view stays on screen.
- **Missing routes.** The server defines no `/clear-data` or `/crop-raw/` route. Both calls therefore receive a JSON error body. The clear still clears. A crop that did get that far would switch back to preview without new URLs.
- **Download link.** The upload route never sends `raw_url`. The download link stays empty until a crop sets the cropped RAW URL.
- **Removing a record.** Removal does not re-point the preview URL. In the shown wiring, nothing calls the remove handler. Nothing calls the cancel handler either: the page passes `onCancel` to the cropper, which reads only `imageSrc` and `onCropComplete`. So once the user presses Edit, the preview view does not return until the page is reloaded. A crop attempt keeps the crop view. A clear shows the upload view but keeps edit mode, so the next upload opens the crop view again.
- **Dot-free names.** A name without a dot is its own extension. So a file named `NEF` passes the page's whitelist and takes the RAW branch of the route. The batch script skips it.
- **The batch script's numbers.** Its comment and final message speak of 500 rows, but it removes 1300.
  - A frame shorter than 1300 rows follows Python's negative-stop rule. It keeps `2*height - 1300` rows, and none below 650 rows.
  - The renaming is case-sensitive. `x.NEF`, `x.CR2` and `x.ARW` keep their names, and `x.arw` and `x.dng` both become `x.tiff`.
  - The first file the decoder cannot read ends the run.

## Model

| member | source | states |
|---|---|---|
| Names.Lower | frontend/src/components/ui/fileUpload.jsx:10 | lower-casing keeps the length of the name |
| Names.Extension | frontend/src/components/ui/fileUpload.jsx:10 | the extension is the last dot-separated piece, lower-cased, as both `split(".").pop().toLowerCase()` and `split(".")[-1].lower()` (backend/main.py:40) compute it; characterised by ExtensionOfDottedName, ExtensionIgnoresCase and NameWithoutDotIsItsExtension |
| Names.AfterLast | frontend/src/components/ui/fileUpload.jsx:10 | the last piece of `split(".")` holds no separator, is a suffix of the name, and is preceded by the separator whenever it is shorter than the name |
| Names.AfterLastUnique | backend/main.py:40 | those three facts determine the last piece: any string meeting them is it |
| Names.AfterLastWithoutSeparator | frontend/src/components/ui/fileUpload.jsx:10 | a name without the separator is its own last piece |
| Names.ExtensionOfDottedName | backend/main.py:40 | `stem.ext` with a dot-free `ext` has last piece `ext` and extension `ext` lower-cased |
| Names.LowerAppend | backend/main.py:40 | lower-casing distributes over concatenation |
| Names.LowerIdempotent | backend/main.py:40 | lower-casing twice is lower-casing once |
| Names.AfterLastLower | backend/main.py:40 | lower-casing then splitting gives the same last piece as splitting then lower-casing |
| Names.ExtensionIgnoresCase | backend/main.py:40 | the extension of a lower-cased name equals the extension of the name |
| Names.LowerKeepsDots | backend/code.py:16 | a name has a dot exactly when its lower-cased form has one |
| Names.DottedSuffixIffLastPiece | backend/code.py:16 | for a dot-free `e`, a name ends with "." + e exactly when it has a dot and its last piece is `e` |
| Seqs.SliceTo | backend/temp.py:43 | `a[:stop]` is a prefix of `a` of length min(stop, len(a)) |
| Seqs.PyPrefix | backend/code.py:30 | `a[:stop]` for any integer stop is a prefix of `a`; a negative stop counts from the end and selects nothing when it is still negative |
| Seqs.ConcatAppend | backend/temp.py:49 | flattening distributes over concatenation of row lists |
| Seqs.ConcatUniformLength | backend/temp.py:49 | flattening n pieces of equal length k gives n·k elements |
| Seqs.ConcatPrefix | backend/temp.py:43-49 | flattening the first k pieces gives a prefix of flattening them all |
| Seqs.Without | frontend/src/components/ui/fileUpload.jsx:71 | the index filter drops exactly the element at an in-range index and keeps everything otherwise |
| Clipboard.PastedImages | frontend/src/components/ui/fileUpload.jsx:57-63 | the files of the clipboard items whose type starts with "image/" and whose getAsFile gives a file, in clipboard order; characterised by PastedImagesSound and PastedImagesAppend |
| Workflow.ActiveView | frontend/src/App.jsx:93-137 | the rendered view's guard holds, and no other view's guard holds: exactly one view is on screen |
| Workflow.DisplayImage | frontend/src/App.jsx:74 | the shown image is the cropped preview when that is truthy, else the original preview |
| Workflow.DownloadURL | frontend/src/App.jsx:76 | the link is the truthy cropped RAW URL, else the first record's truthy raw_url; it is empty exactly when neither is truthy |
| Workflow.AfterClearAllData | frontend/src/App.jsx:16-27 | without confirmation, or when the call rejects, nothing changes; otherwise records and all three URLs are dropped; mode and loading are never touched |
| Workflow.CropRequestOf | frontend/src/App.jsx:31-44 | a request is built exactly when there are records and crop data; it names the first record's filename and carries the four coordinates unchanged |
| Workflow.AfterSendCropData | frontend/src/App.jsx:31-61 | no records: nothing changes; otherwise loading ends false, records and preview are untouched, a throw changes neither URLs nor mode, and a parsed answer returns to preview overwriting each URL only with a truthy value |
| Workflow.AfterEdit | frontend/src/App.jsx:64-66 | mode becomes edit and nothing else changes |
| Workflow.AfterCancelCrop | frontend/src/App.jsx:69-71 | mode becomes preview and nothing else changes |
| Workflow.App.constructor | frontend/src/App.jsx:8-13 | the first render holds no records, no URLs, preview mode and loading off |
| Workflow.App.ClearAllData | frontend/src/App.jsx:16-27 | the fields after the handler are the clear transition of the fields before |
| Workflow.App.SendCropDataToBackend | frontend/src/App.jsx:31-61 | the request sent is the one the specification function builds, and the fields end as the crop transition says |
| Workflow.App.HandleEdit | frontend/src/App.jsx:64-66 | the fields end as the edit transition says |
| Workflow.App.HandleCancelCrop | frontend/src/App.jsx:69-71 | the fields end as the cancel transition says |
| Workflow.ClearShowsUploadView | frontend/src/App.jsx:23-26 | after a confirmed, parsed clear the upload view is shown with no image and an empty download link |
| Workflow.CropResultIsShownAndDownloadable | frontend/src/App.jsx:48-55 | a parsed answer with two non-empty URLs is what the preview view then shows and offers for download |
| Workflow.CropWithoutDataChangesNothing | frontend/src/App.jsx:138-143 | with the cropper's missing crop data no request is built and only loading is (re)set to false |
| Workflow.EditThenCancelRestores | frontend/src/App.jsx:64-71 | edit followed by cancel from preview restores the state exactly |
| Workflow.HandlersKeepLoadingFalse | frontend/src/App.jsx:56-60 | every handler leaves loading false when it starts false |
| Workflow.HandlersKeepCroppedUrlsSet | frontend/src/App.jsx:48-54 | every handler keeps each cropped URL either null or truthy |
| Clipboard.CollectPastedImages | frontend/src/components/ui/fileUpload.jsx:57-63 | the loop collects exactly the files of the qualifying items, in clipboard order |
| Clipboard.PastedImagesAppend | frontend/src/components/ui/fileUpload.jsx:58-63 | the filter works item by item: the files of `a + b` are those of `a` then those of `b` |
| Clipboard.PastedImagesSound | frontend/src/components/ui/fileUpload.jsx:58-64 | every forwarded file comes from an image item whose getAsFile gave it; nothing is forwarded exactly when no item qualifies |
| FileUpload.IsAllowedRaw | frontend/src/components/ui/fileUpload.jsx:6-11 | a file passes the whitelist when its extension is one of nef, cr2, arw, dng; see PostedFilesTakeRawBranch and PhotoDngIsAllowed |
| FileUpload.RecordOf | frontend/src/components/ui/fileUpload.jsx:31-36 | the pushed record: the local file's name with the answer's preview, filename and raw_url; see UploadedSound |
| FileUpload.Uploaded | frontend/src/components/ui/fileUpload.jsx:9-41 | the records a batch produces, one per whitelisted file whose upload succeeded, in input order; characterised by UploadedAround, UploadedSound and FailedUploadSkipsOnlyThatFile |
| FileUpload.Positions | frontend/src/components/ui/fileUpload.jsx:9-14 | the positions returned are exactly the marked ones, strictly increasing |
| FileUpload.Posted | frontend/src/components/ui/fileUpload.jsx:9-23 | file i is posted exactly when its extension is whitelisted, in input order |
| FileUpload.UploadBatch | frontend/src/components/ui/fileUpload.jsx:7-41 | the loop yields the records of the specification function and posts exactly the whitelisted files |
| FileUpload.AfterUpload | frontend/src/components/ui/fileUpload.jsx:43-46 | the new records are appended, the first new record's preview becomes the preview, an empty batch changes nothing, and cropped URLs, mode and loading are untouched |
| FileUpload.HandleFiles | frontend/src/components/ui/fileUpload.jsx:5-47 | the page object ends in the upload transition of its old state and the posted files are the whitelisted ones |
| FileUpload.HandlePaste | frontend/src/components/ui/fileUpload.jsx:54-65 | handleFiles runs exactly when the clipboard yields a file, on exactly those files; otherwise nothing changes |
| FileUpload.AfterRemoveImage | frontend/src/components/ui/fileUpload.jsx:70-72 | an in-range index drops that record; any other index changes nothing; no URL, mode or loading flag is re-pointed |
| FileUpload.HandleRemoveImage | frontend/src/components/ui/fileUpload.jsx:70-72 | the page object ends in the removal transition of its old state |
| FileUpload.UploadedAppend | frontend/src/components/ui/fileUpload.jsx:9-41 | a batch splits: the records of `a + b` are those of `a` then those of `b` |
| FileUpload.UploadedAround | frontend/src/components/ui/fileUpload.jsx:19-40 | each file contributes only its own record, in its own place |
| FileUpload.FailedUploadSkipsOnlyThatFile | frontend/src/components/ui/fileUpload.jsx:11-14 | a rejected or failed file contributes nothing and the records around it are as if it were absent |
| FileUpload.UploadedSound | frontend/src/components/ui/fileUpload.jsx:30-36 | no more records than files, each from a whitelisted file whose upload succeeded, with that file's name and the server's preview, filename and raw_url |
| FileUpload.NameWithoutDotIsItsExtension | frontend/src/components/ui/fileUpload.jsx:10 | a dot-free name passes the whitelist exactly when its lower-cased whole name is a RAW extension |
| FileUpload.UploadOneIntoEmptyPage | frontend/src/components/ui/fileUpload.jsx:30-46 | one whitelisted successful upload into the empty page gives one record, previews the server's preview and shows the preview view |
| FileUpload.PhotoDngIsAllowed | frontend/src/components/ui/fileUpload.jsx:6-11 | `photo.dng` passes the whitelist |
| FileUpload.UploadFromEmptyPreviewsFirstRecord | frontend/src/components/ui/fileUpload.jsx:43-46 | uploading into an empty list previews the first record, the one a crop request names |
| FileUpload.EditModeSurvivesClear | frontend/src/App.jsx:16-27 | after clearing from the crop view, the next successful upload shows the crop view again |
| FileUpload.RemoveImageKeepsOthers | frontend/src/components/ui/fileUpload.jsx:71 | removal shrinks the list by one exactly for an in-range index and keeps the other records in order |
| DraftUpload.BrowserFile.constructor | src/components/ui/fileUpload.jsx:8-13 | a file object starts with its name and no preview property |
| DraftUpload.AssignPreviews | src/components/ui/fileUpload.jsx:9-13 | each file object ends with the object URL made at its last position in the batch |
| DraftUpload.DraftFileUpload.constructor | src/components/ui/fileUpload.jsx:5 | the list starts empty |
| DraftUpload.DraftFileUpload.HandleFiles | src/components/ui/fileUpload.jsx:8-15 | the new files are appended to the current list, each ends with its object URL, and the other files' previews are left alone |
| DraftUpload.DraftFileUpload.HandlePaste | src/components/ui/fileUpload.jsx:24-41 | handleFiles runs exactly when the clipboard yields a file; the pasted files are then appended to the current list (the listener is re-installed whenever `files` changes), each ends with its object URL, and the other files' previews are left alone; otherwise nothing changes |
| DraftUpload.DropThenPaste | src/components/ui/fileUpload.jsx:8-41 | dropping a file and then pasting an image leaves the dropped file first and the pasted one second, each with its own object URL |
| UploadRoute.Classify | backend/main.py:40-57 | the RAW, raster and unsupported branches are taken exactly when the extension is in the RAW set, the raster set, or neither |
| UploadRoute.UniqueName | backend/main.py:31 | the stored name is the UUID, an underscore and the uploaded name, in that order |
| UploadRoute.PreviewFileName | backend/main.py:41 | the preview's name is the stored name followed by ".jpg"; see PreviewWrittenWhereUrlPoints |
| UploadRoute.UploadFile | backend/main.py:29-68 | the upload is always stored under the unique name; 400 exactly for unsupported extensions, 500 exactly when a supported file fails to render, 200 otherwise with the stored name and the preview URL, and a preview is written only on 200 |
| UploadRoute.ClassifyIgnoresCase | backend/main.py:40 | the branch does not depend on the case of the file name |
| UploadRoute.PreviewWrittenWhereUrlPoints | backend/main.py:41-42 | for names without '/', the preview is written under the name the preview URL ends with |
| UploadRoute.StoredNameKeepsExtension | backend/main.py:31-40 | the UUID prefix does not change the extension of a dotted name |
| RawCrop.TrimLeft | backend/temp.py:27 | the result is a suffix of the input, everything removed is the quote character, and the result does not start with it |
| RawCrop.TrimRight | backend/temp.py:27 | the result is a prefix of the input, everything removed is the quote character, and the result does not end with it |
| RawCrop.Strip | backend/temp.py:27 | the stripped path neither starts nor ends with a quote and is no longer than the input |
| RawCrop.StripQuotes | backend/temp.py:27 | the opened path is the argument with every leading and trailing double quote removed; characterised by StripRemovesPadding and StripIdempotent |
| RawCrop.TrimLeftOfPadded | backend/temp.py:27 | left-trimming removes exactly a leading run of the character |
| RawCrop.TrimRightOfPadded | backend/temp.py:27 | right-trimming removes exactly a trailing run of the character |
| RawCrop.StripRemovesPadding | backend/temp.py:27 | stripping a quote-padded path gives back the path inside the quotes |
| RawCrop.StripIdempotent | backend/temp.py:27 | stripping twice is stripping once |
| RawCrop.Bytes | backend/temp.py:49 | `tobytes()` of a C-ordered array: rows top to bottom, pixels left to right, samples in channel order; characterised by BytesLength and TopRowsBytesArePrefix |
| RawCrop.RowBytesLength | backend/temp.py:49 | a row of width w, c channels and item size z has w·c·z bytes |
| RawCrop.BytesLength | backend/temp.py:49 | a shaped array has height·width·channels·item-size bytes |
| RawCrop.TopRowsBytesArePrefix | backend/temp.py:43-49 | the bytes of the top rows are the leading bytes of the whole array |
| RawCrop.CropRawOutput | backend/temp.py:6-51 | FileNotFoundError with the stripped path exactly when it is missing, a decode failure exactly when rawpy raises, ValueError exactly when height ≤ crop; otherwise the top `height − crop` rows (all rows for a negative crop) and their bytes |
| RawCrop.CropKeepsShapeAndLeadingBytes | backend/temp.py:43-49 | a successful crop keeps width, channels and item size, and its bytes are the leading bytes of the decoded image |
| RawCrop.DefaultCropDropsFiveHundredRows | backend/temp.py:6 | with the default, an image taller than 500 rows loses exactly its bottom 500 rows |
| BatchCrop.Selected | backend/code.py:16 | an entry is processed when its lower-cased name ends in .arw, .dng, .nef or .cr2; characterised by SelectedIffRawExtension |
| BatchCrop.ReplaceAll | backend/code.py:18 | Python `str.replace`: every non-overlapping occurrence, left to right, is replaced; characterised by ReplaceSkipsPrefix and ReplaceInDottedName |
| BatchCrop.OutputName | backend/code.py:18 | the TIFF's name: `.arw` then `.dng` replaced by `.tiff`, case-sensitively; characterised by OutputNameOfDottedName and OutputNamesOfRawSpellings |
| BatchCrop.Path | backend/code.py:9-18 | a TIFF lands in the fixed output folder under its name, joined with a backslash; CompletedWritesEverySelectedFile states where each write of a completed run lands |
| BatchCrop.CropBayer | backend/code.py:27-30 | the cut keeps a top prefix of the mosaic: exactly 1300 rows fewer for tall frames, `2·height − 1300` (or none) for short ones |
| BatchCrop.Step | backend/code.py:16-33 | one iteration: after an abort nothing changes, an abort happens at the current position, and at most one TIFF is added |
| BatchCrop.Run | backend/code.py:15-38 | a run writes at most one TIFF per entry and aborts only at an entry of the listing |
| BatchCrop.CompletedMeansNoFailure | backend/code.py:15-24 | a completed run met no selected entry the decoder raises on |
| BatchCrop.AbortedAtFirstFailure | backend/code.py:15-24 | an aborted run stops at a selected entry the decoder raises on, and no earlier entry fails |
| BatchCrop.RunStopsAtFirstFailure | backend/code.py:15-24 | the run aborts exactly when some selected entry fails to decode, and then at the first one |
| BatchCrop.ProcessFolder | backend/code.py:15-38 | the loop's outcome is the run of the specification function |
| BatchCrop.AbortedStays | backend/code.py:15-24 | once a prefix of the listing aborts, the whole run ends the same way |
| BatchCrop.WritesComeFromSelectedFiles | backend/code.py:16-33 | every TIFF written comes from a selected, decoded entry, under its output name, holding its mosaic cut at the bottom |
| BatchCrop.SelectedPositions | backend/code.py:15-16 | exactly the positions of the selected entries, in increasing order |
| BatchCrop.WritesFollowSelectedPositions | backend/code.py:15-33 | the k-th TIFF written is that of the k-th selected entry the run reaches (all of them when it completes, those before the failing one when it aborts), so each is written once, in listing order |
| BatchCrop.CompletedWritesEverySelectedFile | backend/code.py:15-33 | a completed run writes one TIFF per selected entry: the k-th write is the decoded, cut mosaic of the k-th selected entry under its output name, written to the output folder joined with that name |
| BatchCrop.ReplaceSkipsPrefix | backend/code.py:18 | text that cannot start the pattern passes through `replace` unchanged |
| BatchCrop.ReplaceInDottedName | backend/code.py:18 | in a dot-free stem followed by one dotted piece, only that piece can be replaced |
| BatchCrop.OutputNameOfDottedName | backend/code.py:18 | for a dot-free stem and extension, the output name replaces the extension by "tiff" exactly when it starts with lower-case "arw" or "dng", and keeps the name otherwise |
| BatchCrop.OutputNamesOfRawSpellings | backend/code.py:18 | `.arw` and `.dng` become `.tiff`; `.nef`, `.cr2` and `.ARW` keep their names |
| BatchCrop.SelectedIffRawExtension | backend/code.py:16 | a name is selected exactly when it has a dot and its lower-cased extension is one of the four RAW formats |
| EndToEnd.ClientOutcome | frontend/src/components/ui/fileUpload.jsx:25-36 | the page accepts an answer exactly on a 2xx status, then records the body's preview and filename with no raw_url; any other status is a skipped file |
| EndToEnd.ServerOutcomes | backend/main.py:29-68 | the page accepts file i exactly when the route does not classify its name as unsupported and its preview renders; an accepted answer carries the route's preview URL for the stored name `UniqueName(uuid, name)`, that stored name, and no raw_url; any other answer is a skipped file |
| EndToEnd.SameRawFormats | backend/main.py:45 | the page's whitelist, the route's RAW set and the batch script's formats hold the same extensions |
| EndToEnd.PostedFilesTakeRawBranch | backend/main.py:40-45 | a file is posted by the page exactly when the route takes its RAW branch |
| EndToEnd.RenderedUploadGivesRecord | backend/main.py:60-64 | a posted file that renders becomes a record with the route's preview URL, the stored name and no raw_url |
| EndToEnd.FailedRenderIsSkipped | backend/main.py:66-68 | a posted file that fails to render is skipped by the page |
| EndToEnd.NothingToDownloadBeforeCrop | frontend/src/App.jsx:76 | after uploads through the route the download link is still empty unless a crop set it |
| EndToEnd.BatchSelectsWhatPageAccepts | backend/code.py:16 | the batch script selects a name exactly when it has a dot and the page accepts it |

## Left out

- Network calls (`fetch`), `window.confirm`, `alert` and `console.error` are parameters or omitted: each call's outcome is a parameter of the handler.
- React rendering, the asynchronous batching of state setters, and the listener lifecycle of `useEffect` are not modelled; each handler runs as one atomic update.
- The interactive cropper (`frontend/src/components/ui/filecrop.jsx`) and `frontend/src/main.jsx` are not part of this model; only the fact that `onCropComplete` receives no crop data is.
- `backend/tests/test_main.py` is not part of this model.
- Names.Lower: lower-cases ASCII letters only; Unicode case mapping is not modelled.
- Workflow.CropData: the crop coordinates are integers; JavaScript numbers (fractions, NaN) are not modelled.
- UploadRoute.UploadFile: the write of the uploaded bytes under `uploads/` is recorded by name, not performed, and its own failure (which would escape the `try`) is not modelled.
- UploadRoute.UploadFile: decoding with rawpy, PIL conversion, thumbnailing and JPEG encoding are one boolean parameter `renders`.
- The static file mount, CORS middleware and directory creation of `backend/main.py` are configuration, not modelled.
- RawCrop.CropRawOutput: rawpy post-processing is a map from paths to decoded arrays; the Pillow image is the cropped array itself.
- RawCrop.Bytes: each numpy sample is a given byte sequence; the byte order inside a sample is not modelled.
- The `__main__` block of `backend/temp.py` (interactive prompts and file saving) is I/O and is not modelled.
- BatchCrop.ProcessFolder: `os.makedirs`, the `print` calls and the `exiftool` metadata copy are not modelled; only a decoder failure ends the run, and failures of the TIFF write or of `exiftool` are not modelled.
- BatchCrop.Path: `os.path.join` is the folder, a backslash and the name, as on Windows; each write records its name inside the output folder.
- BatchCrop.CropBayer: samples are already unsigned 16-bit, so `astype(np.uint16)` is the identity here.
- The draft's drop zone filter (`accept: "image/*"`, src/components/ui/fileUpload.jsx:19) is not modelled: DraftUpload.DraftFileUpload.HandleFiles receives whatever files the drop zone passes on.
- DraftUpload.DraftFileUpload.HandleFiles: the object URL is stated for each object's last position in the batch; a repeated object is the same object, so it keeps only that URL.
