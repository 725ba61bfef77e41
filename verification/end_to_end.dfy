/** The page and the upload handler together: the page posts each accepted
    file under its own name, and reads the handler's answer through
    `response.ok` and the JSON fields preview, filename and raw_url. The
    batch script's selection is compared with the page's whitelist. */
module EndToEnd {
  import opened Values
  import opened Names
  import opened Workflow
  import opened FileUpload
  import UploadRoute
  import BatchCrop

  /** How the page reads one answer of the upload handler. A 2xx status is
      `response.ok`; the record then takes the body's preview and filename,
      and raw_url, which the handler never sends, is undefined. Any other
      status makes the page read the error and skip the file. */
  function ClientOutcome(r: UploadRoute.Response): (o: UploadOutcome)
    ensures o.UploadOk? <==> 200 <= r.status < 300
    ensures !o.UploadOk? ==> o == UploadNotOk
    ensures o.UploadOk? ==> o.data.rawUrl == None
    ensures o.UploadOk? && r.body.Processed? ==>
              o.data == UploadResponse(Some(r.body.preview), Some(r.body.filename), None)
  {
    if 200 <= r.status < 300 then
      match r.body
      case Processed(filename, preview, _) => UploadOk(UploadResponse(Some(preview), Some(filename), None))
      case Error(_) => UploadOk(UploadResponse(None, None, None))
    else UploadNotOk
  }

  /** The answers the page gets when file `i` is stored under `uuids[i]` and
      its preview renders exactly when `renders[i]` holds. */
  function ServerOutcomes(files: seq<LocalFile>, uuids: seq<string>, renders: seq<bool>): (r: seq<UploadOutcome>)
    requires |uuids| == |files| && |renders| == |files|
    ensures |r| == |files|
    ensures forall i :: 0 <= i < |files| ==>
              r[i] == ClientOutcome(UploadRoute.UploadFile(uuids[i], files[i].name, renders[i]).response)
    ensures forall i :: 0 <= i < |files| ==>
              (r[i].UploadOk? <==> UploadRoute.Classify(files[i].name) != UploadRoute.Unsupported && renders[i])
    ensures forall i :: 0 <= i < |files| && !r[i].UploadOk? ==> r[i] == UploadNotOk
    ensures forall i :: 0 <= i < |files| && r[i].UploadOk? ==>
              var unique := UploadRoute.UniqueName(uuids[i], files[i].name);
              r[i].data == UploadResponse(Some(UploadRoute.ProcessedUrlPrefix + UploadRoute.PreviewFileName(unique)),
                                          Some(unique), None)
  {
    seq(|files|, i requires 0 <= i < |files| =>
      ClientOutcome(UploadRoute.UploadFile(uuids[i], files[i].name, renders[i]).response))
  }

  /** The page's whitelist and the handler's RAW set hold the same four
      extensions. */
  lemma SameRawFormats(ext: string)
    ensures ext in AllowedRawExtensions <==> ext in UploadRoute.RawExtensions
    ensures ext in AllowedRawExtensions <==> ext in BatchCrop.RawFormats
  {
  }

  /** Every file the page posts takes the handler's RAW branch, and no other
      file does. */
  lemma PostedFilesTakeRawBranch(name: string)
    ensures IsAllowedRaw(LocalFile(name)) <==> UploadRoute.Classify(name) == UploadRoute.RawBranch
  {
    SameRawFormats(Extension(name));
  }

  /** A posted file whose preview renders yields a record pointing at the
      preview the handler wrote, under the stored name, with no raw_url. */
  lemma RenderedUploadGivesRecord(uuid: string, file: LocalFile)
    requires IsAllowedRaw(file)
    ensures var unique := UploadRoute.UniqueName(uuid, file.name);
            var o := ClientOutcome(UploadRoute.UploadFile(uuid, file.name, true).response);
            o.UploadOk? &&
            RecordOf(file, o.data) ==
              FileRecord(file.name, Some(UploadRoute.ProcessedUrlPrefix + UploadRoute.PreviewFileName(unique)),
                         Some(unique), None)
  {
    PostedFilesTakeRawBranch(file.name);
  }

  /** A posted file whose preview fails to render is skipped by the page. */
  lemma FailedRenderIsSkipped(uuid: string, file: LocalFile)
    requires IsAllowedRaw(file)
    ensures ClientOutcome(UploadRoute.UploadFile(uuid, file.name, false).response) == UploadNotOk
  {
    PostedFilesTakeRawBranch(file.name);
  }

  /** Records built from the handler's answers carry no raw_url, so the
      download link stays empty until a crop sets the cropped raw URL. */
  lemma NothingToDownloadBeforeCrop(s: AppState, files: seq<LocalFile>, uuids: seq<string>, renders: seq<bool>)
    requires |uuids| == |files| && |renders| == |files|
    requires !Truthy(s.croppedRawURL)
    requires |s.files| > 0 ==> !Truthy(s.files[0].rawUrl)
    ensures DownloadURL(AfterUpload(s, files, ServerOutcomes(files, uuids, renders))) == ""
  {
    var outcomes := ServerOutcomes(files, uuids, renders);
    var t := AfterUpload(s, files, outcomes);
    if |s.files| == 0 && |t.files| > 0 {
      UploadedSound(files, outcomes);
      var r := Uploaded(files, outcomes)[0];
      assert r in Uploaded(files, outcomes);
      var i :| 0 <= i < |files| && IsAllowedRaw(files[i]) && outcomes[i].UploadOk?
               && r == RecordOf(files[i], outcomes[i].data);
      assert t.files[0] == r;
    } else if |s.files| > 0 {
      assert t.files[0] == s.files[0];
    }
  }

  /** The batch script selects a name exactly when it has a dot and the page
      would accept it; the page also accepts a dot-free name such as "NEF",
      which the script skips. */
  lemma BatchSelectsWhatPageAccepts(name: string)
    ensures BatchCrop.Selected(name) <==> '.' in name && IsAllowedRaw(LocalFile(name))
  {
    BatchCrop.SelectedIffRawExtension(name);
    SameRawFormats(Extension(name));
  }
}
