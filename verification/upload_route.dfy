/** The server's POST /upload/ handler (backend/main.py): it stores the upload
    under a unique name, classifies the extension, renders a JPEG preview for
    RAW and raster formats, and answers with the stored name and the preview
    URL, or with an error status. The random UUID and whether decoding and
    encoding succeed are parameters; the file writes themselves are recorded,
    not performed. */
module UploadRoute {
  import opened Values
  import opened Names

  const RawExtensions: set<string> := {"nef", "cr2", "arw", "dng"}
  const RasterExtensions: set<string> := {"png", "jpg", "jpeg", "tiff"}
  const UploadDir := "uploads"
  const ProcessedDir := "processed"
  const ProcessedUrlPrefix := "http://127.0.0.1:8000/processed/"

  datatype Branch = RawBranch | RasterBranch | Unsupported

  /** The branch the handler takes for an uploaded file name. The RAW test
      comes first, but the two sets are disjoint, so each branch is taken
      exactly when the extension is in its own set. */
  function Classify(filename: string): (b: Branch)
    ensures b == RawBranch <==> Extension(filename) in RawExtensions
    ensures b == RasterBranch <==> Extension(filename) in RasterExtensions
    ensures b == Unsupported <==> Extension(filename) !in RawExtensions + RasterExtensions
  {
    var ext := Extension(filename);
    if ext in RawExtensions then RawBranch
    else if ext in RasterExtensions then RasterBranch
    else Unsupported
  }

  /** `f"{uuid}_{filename}"`. */
  function UniqueName(uuid: string, filename: string): (r: string)
    ensures StartsWith(r, uuid + "_") && EndsWith(r, filename)
    ensures |r| == |uuid| + 1 + |filename|
  {
    uuid + "_" + filename
  }

  /** The name of the preview image: the unique name with ".jpg" appended. */
  function PreviewFileName(unique: string): string
  {
    unique + ".jpg"
  }

  /** The JSON body of an answer. */
  datatype Body =
    | Processed(filename: string, preview: string, message: string)
    | Error(error: string)

  datatype Response = Response(status: int, body: Body)

  /** What one call does: the file it stores under `uploads/` (always, before
      the extension is looked at), the preview it writes under `processed/`
      (if any), and the answer. */
  datatype UploadEffect = UploadEffect(stored: string, previewWritten: Option<string>, response: Response)

  /** upload_file. `renders` says whether decoding the stored file and writing
      its JPEG preview succeed; when they raise, the handler answers 500. */
  function UploadFile(uuid: string, filename: string, renders: bool): (r: UploadEffect)
    ensures r.stored == UniqueName(uuid, filename)
    ensures r.response.status in {200, 400, 500}
    ensures r.response.status == 400 <==> Classify(filename) == Unsupported
    ensures r.response.status == 500 <==> Classify(filename) != Unsupported && !renders
    ensures r.response.status == 400 ==> r.response.body == Error("Unsupported file format")
    ensures r.response.status == 500 ==> r.response.body == Error("Failed to process image")
    ensures r.response.status != 200 ==> r.previewWritten == None
    ensures r.response.status == 200 ==>
              && r.response.body.Processed?
              && r.response.body.filename == UniqueName(uuid, filename)
              && r.response.body.preview == ProcessedUrlPrefix + PreviewFileName(UniqueName(uuid, filename))
              && r.previewWritten == Some(AfterLast(PreviewFileName(UniqueName(uuid, filename)), '/'))
  {
    var unique := UniqueName(uuid, filename);
    var previewName := PreviewFileName(unique);
    match Classify(filename)
    case Unsupported =>
      UploadEffect(unique, None, Response(400, Error("Unsupported file format")))
    case _ =>
      if !renders then
        UploadEffect(unique, None, Response(500, Error("Failed to process image")))
      else
        UploadEffect(unique, Some(AfterLast(previewName, '/')),
                     Response(200, Processed(unique, ProcessedUrlPrefix + previewName,
                                             "File uploaded & processed successfully")))
  }

  /** The classification does not depend on the case of the file name. */
  lemma ClassifyIgnoresCase(filename: string)
    ensures Classify(Lower(filename)) == Classify(filename)
  {
    ExtensionIgnoresCase(filename);
  }

  /** The preview is written under the name its URL ends with, provided the
      stored name holds no '/' (the handler writes to the base name only). */
  lemma PreviewWrittenWhereUrlPoints(uuid: string, filename: string, renders: bool)
    requires '/' !in uuid && '/' !in filename
    requires UploadFile(uuid, filename, renders).response.status == 200
    ensures var r := UploadFile(uuid, filename, renders);
            && r.previewWritten == Some(PreviewFileName(r.stored))
            && EndsWith(r.response.body.preview, r.previewWritten.value)
  {
    var name := PreviewFileName(UniqueName(uuid, filename));
    NoSlashInPreviewName(uuid, filename);
    AfterLastWithoutSeparator(name, '/');
    EndsWithAppend(ProcessedUrlPrefix, name);
  }

  lemma NoSlashInPreviewName(uuid: string, filename: string)
    requires '/' !in uuid && '/' !in filename
    ensures '/' !in PreviewFileName(UniqueName(uuid, filename))
  {
    assert PreviewFileName(UniqueName(uuid, filename)) == uuid + ("_" + (filename + ".jpg"));
    assert '/' !in "_" && '/' !in ".jpg";
  }

  /** The stored name keeps the extension of a dotted file name, since the
      UUID prefix only goes in front. */
  lemma {:induction false} StoredNameKeepsExtension(uuid: string, filename: string)
    requires '.' in filename
    ensures Extension(UniqueName(uuid, filename)) == Extension(filename)
  {
    var unique := UniqueName(uuid, filename);
    var seg := AfterLast(filename, '.');
    assert |seg| < |filename| by {
      if |seg| == |filename| {
        // then seg would be all of filename, dot included
        assert false;
      }
    }
    var n, m := |unique|, |filename|;
    assert unique[n - m..] == filename;
    assert unique[n - |seg|..] == seg by {
      assert unique[n - |seg|..] == unique[n - m..][m - |seg|..];
    }
    assert unique[n - |seg| - 1] == filename[m - |seg| - 1];
    AfterLastUnique(unique, '.', seg);
  }
}
