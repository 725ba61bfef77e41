/** The upload component (frontend/src/components/ui/fileUpload.jsx): RAW
    whitelist check, one upload per accepted file with isolated failures,
    appending the new records to the App's list and choosing the preview, the
    paste handler, and removal by index. The server's answer to each upload is
    a parameter. */
module FileUpload {
  import opened Values
  import opened Names
  import opened Seqs
  import opened Workflow
  import opened Clipboard

  /** A file handed over by the drop zone or the clipboard. */
  datatype LocalFile = LocalFile(name: string)

  /** The fields of a successful upload's JSON body that the client reads. */
  datatype UploadResponse = UploadResponse(preview: Option<string>, filename: Option<string>, rawUrl: Option<string>)

  /** What POST /upload/ does with one file: a JSON body with an ok status,
      a non-ok status (the client reads the error and throws), or a fetch
      or parse that throws. */
  datatype UploadOutcome = UploadOk(data: UploadResponse) | UploadNotOk | UploadThrows

  const AllowedRawExtensions: seq<string> := ["nef", "cr2", "arw", "dng"]

  predicate IsAllowedRaw(file: LocalFile)
  {
    Extension(file.name) in AllowedRawExtensions
  }

  /** The record pushed for a successful upload. */
  function RecordOf(file: LocalFile, data: UploadResponse): FileRecord
  {
    FileRecord(file.name, data.preview, data.filename, data.rawUrl)
  }

  /** What one file contributes: its record when it passes the whitelist and
      its upload succeeds, nothing otherwise. */
  function Contribution(file: LocalFile, outcome: UploadOutcome): seq<FileRecord>
  {
    if IsAllowedRaw(file) && outcome.UploadOk? then [RecordOf(file, outcome.data)] else []
  }

  /** The records a batch produces, in input order. `outcomes[i]` is the
      server's answer if file `i` is posted. */
  function Uploaded(files: seq<LocalFile>, outcomes: seq<UploadOutcome>): seq<FileRecord>
    requires |outcomes| == |files|
  {
    if files == [] then []
    else
      Uploaded(files[..|files| - 1], outcomes[..|outcomes| - 1])
        + Contribution(files[|files| - 1], outcomes[|outcomes| - 1])
  }

  /** The positions holding `true`, in increasing order. */
  function Positions(marks: seq<bool>): (r: seq<nat>)
    ensures forall i: int :: i in r <==> 0 <= i < |marks| && marks[i]
    ensures forall j, k :: 0 <= j < k < |r| ==> r[j] < r[k]
    ensures forall k :: 0 <= k < |r| ==> r[k] < |marks|
  {
    if marks == [] then []
    else
      var n := |marks| - 1;
      assert forall i :: 0 <= i < n ==> marks[..n][i] == marks[i];
      Positions(marks[..n]) + (if marks[n] then [n] else [])
  }

  /** Which files pass the whitelist. */
  function Accepted(files: seq<LocalFile>): (r: seq<bool>)
    ensures |r| == |files| && forall i :: 0 <= i < |files| ==> r[i] == IsAllowedRaw(files[i])
  {
    seq(|files|, i requires 0 <= i < |files| => IsAllowedRaw(files[i]))
  }

  /** The positions of the files the batch posts to the server. */
  function Posted(files: seq<LocalFile>): (r: seq<nat>)
    ensures forall i: int :: i in r <==> 0 <= i < |files| && IsAllowedRaw(files[i])
    ensures forall j, k :: 0 <= j < k < |r| ==> r[j] < r[k]
  {
    Positions(Accepted(files))
  }

  /** The `for` loop of handleFiles: whitelist check, upload, push. Returns
      the records and the positions of the files it posted. */
  method UploadBatch(newFiles: seq<LocalFile>, outcomes: seq<UploadOutcome>)
    returns (uploadedFiles: seq<FileRecord>, posted: seq<nat>)
    requires |outcomes| == |newFiles|
    ensures uploadedFiles == Uploaded(newFiles, outcomes)
    ensures posted == Posted(newFiles)
  {
    uploadedFiles := [];
    posted := [];
    var i := 0;
    while i < |newFiles|
      invariant 0 <= i <= |newFiles|
      invariant uploadedFiles == Uploaded(newFiles[..i], outcomes[..i])
      invariant posted == Positions(Accepted(newFiles)[..i])
    {
      var file := newFiles[i];
      var extension := Extension(file.name);
      BatchStep(newFiles, outcomes, i);
      PostedStep(newFiles, i);
      if extension in AllowedRawExtensions {
        posted := posted + [i];
        match outcomes[i]
        case UploadOk(data) =>
          uploadedFiles := uploadedFiles + [RecordOf(file, data)];
        case UploadNotOk =>
          // the error body becomes a thrown Error, caught at once
        case UploadThrows =>
          // caught at once; the next file is still processed
      }
      i := i + 1;
    }
    BatchDone(newFiles, outcomes);
  }

  /** How the batch's records and posted positions grow by one file. */
  lemma BatchStep(files: seq<LocalFile>, outcomes: seq<UploadOutcome>, i: nat)
    requires |outcomes| == |files| && i < |files|
    ensures Uploaded(files[..i + 1], outcomes[..i + 1])
         == Uploaded(files[..i], outcomes[..i]) + Contribution(files[i], outcomes[i])
  {
    assert files[..i + 1][..i] == files[..i];
    assert outcomes[..i + 1][..i] == outcomes[..i];
  }

  lemma BatchDone(files: seq<LocalFile>, outcomes: seq<UploadOutcome>)
    requires |outcomes| == |files|
    ensures Uploaded(files[..|files|], outcomes[..|files|]) == Uploaded(files, outcomes)
    ensures Positions(Accepted(files)[..|files|]) == Posted(files)
  {
    assert Accepted(files)[..|files|] == Accepted(files);
    assert files[..|files|] == files;
    assert outcomes[..|files|] == outcomes;
  }

  lemma PostedStep(files: seq<LocalFile>, i: nat)
    requires i < |files|
    ensures Positions(Accepted(files)[..i + 1])
         == Positions(Accepted(files)[..i]) + (if IsAllowedRaw(files[i]) then [i] else [])
  {
    assert Accepted(files)[..i + 1][..i] == Accepted(files)[..i];
  }

  /** The App state after handleFiles: the new records are appended and the
      first of them, if any, becomes the preview. */
  function AfterUpload(s: AppState, newFiles: seq<LocalFile>, outcomes: seq<UploadOutcome>): (r: AppState)
    requires |outcomes| == |newFiles|
    ensures r.files == s.files + Uploaded(newFiles, outcomes)
    ensures Uploaded(newFiles, outcomes) != [] ==> r.previewURL == Uploaded(newFiles, outcomes)[0].preview
    ensures Uploaded(newFiles, outcomes) == [] ==> r == s
    ensures r.croppedURL == s.croppedURL && r.croppedRawURL == s.croppedRawURL
    ensures r.mode == s.mode && r.loading == s.loading
  {
    var uploaded := Uploaded(newFiles, outcomes);
    if |uploaded| > 0 then s.(files := s.files + uploaded, previewURL := uploaded[0].preview)
    else s.(files := s.files + uploaded)
  }

  /** handleFiles on the App that renders this component. */
  method HandleFiles(app: App, newFiles: seq<LocalFile>, outcomes: seq<UploadOutcome>)
    returns (posted: seq<nat>)
    requires |outcomes| == |newFiles|
    modifies app
    ensures posted == Posted(newFiles)
    ensures app.State() == AfterUpload(old(app.State()), newFiles, outcomes)
  {
    var uploadedFiles;
    uploadedFiles, posted := UploadBatch(newFiles, outcomes);
    app.files := app.files + uploadedFiles;
    if |uploadedFiles| > 0 {
      app.previewURL := uploadedFiles[0].preview;
    }
  }

  /** handlePaste: forwards the qualifying clipboard files to handleFiles,
      and calls it only when there is at least one. */
  method HandlePaste(app: App, clipboard: Option<seq<ClipboardItem<LocalFile>>>, outcomes: seq<UploadOutcome>)
    returns (called: bool)
    requires clipboard.Some? ==> |outcomes| == |PastedImages(clipboard.value)|
    modifies app
    ensures called <==> clipboard.Some? && PastedImages(clipboard.value) != []
    ensures called ==> app.State() == AfterUpload(old(app.State()), PastedImages(clipboard.value), outcomes)
    ensures !called ==> app.State() == old(app.State())
  {
    called := false;
    if clipboard.None? {
      return;
    }
    var imageFiles := CollectPastedImages(clipboard.value);
    if |imageFiles| > 0 {
      called := true;
      var _ := HandleFiles(app, imageFiles, outcomes);
    }
  }

  /** The App state after handleRemoveImage(index). */
  function AfterRemoveImage(s: AppState, index: int): (r: AppState)
    ensures 0 <= index < |s.files| ==> r.files == s.files[..index] + s.files[index + 1..]
    ensures !(0 <= index < |s.files|) ==> r == s
    // the preview is not re-pointed, even when the removed record was the previewed one
    ensures r.previewURL == s.previewURL && r.croppedURL == s.croppedURL && r.croppedRawURL == s.croppedRawURL
    ensures r.mode == s.mode && r.loading == s.loading
  {
    s.(files := Without(s.files, index))
  }

  method HandleRemoveImage(app: App, index: int)
    modifies app
    ensures app.State() == AfterRemoveImage(old(app.State()), index)
  {
    app.files := Without(app.files, index);
  }

  // ---------------------------------------------------------------------
  // Properties of a batch

  /** A batch splits: the records of `a + b` are those of `a` followed by
      those of `b`. */
  lemma {:induction false} UploadedAppend(a: seq<LocalFile>, oa: seq<UploadOutcome>,
                                          b: seq<LocalFile>, ob: seq<UploadOutcome>)
    requires |oa| == |a| && |ob| == |b|
    ensures Uploaded(a + b, oa + ob) == Uploaded(a, oa) + Uploaded(b, ob)
  {
    if b == [] {
      assert a + b == a && oa + ob == oa;
    } else {
      assert (a + b)[..|a + b| - 1] == a + b[..|b| - 1];
      assert (oa + ob)[..|oa + ob| - 1] == oa + ob[..|ob| - 1];
      UploadedAppend(a, oa, b[..|b| - 1], ob[..|ob| - 1]);
    }
  }

  /** File `i` contributes exactly its own record, in its own place, and
      nothing it does affects the others. */
  lemma UploadedAround(files: seq<LocalFile>, outcomes: seq<UploadOutcome>, i: nat)
    requires |outcomes| == |files| && i < |files|
    ensures Uploaded(files, outcomes)
         == Uploaded(files[..i], outcomes[..i]) + Contribution(files[i], outcomes[i])
            + Uploaded(files[i + 1..], outcomes[i + 1..])
  {
    var a, oa := files[..i + 1], outcomes[..i + 1];
    var c, oc := files[i + 1..], outcomes[i + 1..];
    assert files == a + c;
    assert outcomes == oa + oc;
    UploadedAppend(a, oa, c, oc);
    assert a[..i] == files[..i] && oa[..i] == outcomes[..i];
  }

  /** A rejected file, or one whose upload fails, is skipped and the files
      after it are processed as if it were not there. */
  lemma FailedUploadSkipsOnlyThatFile(files: seq<LocalFile>, outcomes: seq<UploadOutcome>, i: nat)
    requires |outcomes| == |files| && i < |files|
    requires !IsAllowedRaw(files[i]) || !outcomes[i].UploadOk?
    ensures Uploaded(files, outcomes) == Uploaded(files[..i], outcomes[..i]) + Uploaded(files[i + 1..], outcomes[i + 1..])
  {
    UploadedAround(files, outcomes, i);
  }

  /** Every record comes from a whitelisted file whose upload succeeded, and
      carries that file's name and the server's preview, filename and
      raw_url. */
  lemma {:induction false} UploadedSound(files: seq<LocalFile>, outcomes: seq<UploadOutcome>)
    requires |outcomes| == |files|
    ensures |Uploaded(files, outcomes)| <= |files|
    ensures forall r :: r in Uploaded(files, outcomes) ==>
              exists i :: 0 <= i < |files| && IsAllowedRaw(files[i]) && outcomes[i].UploadOk?
                          && r == RecordOf(files[i], outcomes[i].data)
  {
    if files != [] {
      var n := |files| - 1;
      UploadedSound(files[..n], outcomes[..n]);
      forall r | r in Uploaded(files, outcomes)
        ensures exists i :: 0 <= i < |files| && IsAllowedRaw(files[i]) && outcomes[i].UploadOk?
                            && r == RecordOf(files[i], outcomes[i].data)
      {
        if r in Uploaded(files[..n], outcomes[..n]) {
          var i :| 0 <= i < n && IsAllowedRaw(files[..n][i]) && outcomes[..n][i].UploadOk?
                   && r == RecordOf(files[..n][i], outcomes[..n][i].data);
          assert files[..n][i] == files[i] && outcomes[..n][i] == outcomes[i];
        } else {
          assert r == RecordOf(files[n], outcomes[n].data);
        }
      }
    }
  }

  /** A file name without a dot is its own extension, so a file named
      `NEF` passes the whitelist. */
  lemma NameWithoutDotIsItsExtension(name: string)
    requires '.' !in name
    ensures IsAllowedRaw(LocalFile(name)) <==> Lower(name) in AllowedRawExtensions
  {
    AfterLastWithoutSeparator(name, '.');
  }

  // ---------------------------------------------------------------------
  // The upload handler within the workflow

  /** Uploading one whitelisted file successfully into the empty page gives
      one record, previews the server's preview URL, and shows the preview
      view. */
  lemma UploadOneIntoEmptyPage(file: LocalFile, data: UploadResponse)
    requires IsAllowedRaw(file)
    ensures var r := AfterUpload(Initial, [file], [UploadOk(data)]);
            && r.files == [FileRecord(file.name, data.preview, data.filename, data.rawUrl)]
            && r.previewURL == data.preview
            && ActiveView(r) == PreviewView
            && DisplayImage(r) == data.preview
  {
    var fs, os := [file], [UploadOk(data)];
    assert fs[..0] == [] && os[..0] == [];
    assert Uploaded(fs, os) == [RecordOf(file, data)];
  }

  /** `photo.dng` passes the whitelist. */
  lemma PhotoDngIsAllowed()
    ensures IsAllowedRaw(LocalFile("photo.dng"))
  {
    ExtensionOfDottedName("photo", "dng");
    assert "photo" + "." + "dng" == "photo.dng";
    assert Lower("dng") == "dng";
  }

  /** Uploading into an empty list previews the first record, which is also
      the record a crop request names. */
  lemma UploadFromEmptyPreviewsFirstRecord(s: AppState, newFiles: seq<LocalFile>,
                                           outcomes: seq<UploadOutcome>, d: CropData)
    requires |outcomes| == |newFiles| && s.files == []
    requires Uploaded(newFiles, outcomes) != []
    ensures var r := AfterUpload(s, newFiles, outcomes);
            && r.previewURL == r.files[0].preview
            && CropRequestOf(r, Some(d)).value.filename == r.files[0].filename
  {
  }

  /** Clearing does not reset the mode: after clearing from the crop view,
      the next successful upload lands in the crop view, not the preview. */
  lemma EditModeSurvivesClear(s: AppState, newFiles: seq<LocalFile>, outcomes: seq<UploadOutcome>)
    requires |outcomes| == |newFiles| && Uploaded(newFiles, outcomes) != []
    requires ActiveView(s) == CropView
    ensures ActiveView(AfterUpload(AfterClearAllData(s, true, ClearParsed), newFiles, outcomes)) == CropView
  {
  }

  /** Removal by index leaves the others in order; the list shrinks by one
      exactly when the index is in range. */
  lemma RemoveImageKeepsOthers(s: AppState, index: int)
    ensures var r := AfterRemoveImage(s, index);
            && |r.files| == (if 0 <= index < |s.files| then |s.files| - 1 else |s.files|)
            && (forall k :: 0 <= k < |r.files| ==>
                  r.files[k] == (if 0 <= index <= k then s.files[k + 1] else s.files[k]))
  {
  }
}
