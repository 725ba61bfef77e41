/** The client's workflow state (frontend/src/App.jsx): the uploaded file
    records, the preview and cropped URLs, the preview/edit mode and the
    loading flag, the handlers that change them, and the values the page
    derives from them. Each handler runs as one atomic update; the answers of
    the network and of `window.confirm` are parameters. */
module Workflow {
  import opened Values

  /** One uploaded file as the client keeps it. Every field but `name` is
      copied from the server's JSON answer and may be missing there. */
  datatype FileRecord = FileRecord(
    name: string,
    preview: Option<string>,
    filename: Option<string>,
    rawUrl: Option<string>)

  /** The `mode` state: the client only ever assigns "preview" or "edit". */
  datatype Mode = Preview | Edit

  /** A snapshot of the six state variables. */
  datatype AppState = AppState(
    files: seq<FileRecord>,
    previewURL: Option<string>,
    croppedURL: Option<string>,
    croppedRawURL: Option<string>,
    mode: Mode,
    loading: bool)

  /** The state on first render. */
  const Initial := AppState([], None, None, None, Preview, false)

  // ---------------------------------------------------------------------
  // Derived values

  /** The three views of the page. */
  datatype View = UploadView | PreviewView | CropView

  /** The guard under which the page renders view `v`. */
  predicate Shows(s: AppState, v: View)
  {
    match v
    case UploadView => |s.files| == 0
    case PreviewView => |s.files| > 0 && s.mode == Preview
    case CropView => |s.files| > 0 && s.mode == Edit
  }

  /** The view on screen: in every state exactly one guard holds. */
  function ActiveView(s: AppState): (v: View)
    ensures Shows(s, v)
    ensures forall w :: Shows(s, w) ==> w == v
  {
    if |s.files| == 0 then UploadView
    else if s.mode == Preview then PreviewView
    else CropView
  }

  /** `croppedURL || previewURL`: the image shown in the preview and handed
      to the cropper. */
  function DisplayImage(s: AppState): (r: Option<string>)
    ensures Truthy(s.croppedURL) ==> r == s.croppedURL
    ensures !Truthy(s.croppedURL) ==> r == s.previewURL
  {
    Or(s.croppedURL, s.previewURL)
  }

  /** The raw_url of the first record, when there is one
      (`files[0] && files[0].raw_url`). */
  function FirstRawUrl(files: seq<FileRecord>): Option<string>
  {
    if |files| > 0 then files[0].rawUrl else None
  }

  /** `croppedRawURL || (files[0] && files[0].raw_url) || ""`: the link behind
      the download button, which is rendered only when it is not empty. */
  function DownloadURL(s: AppState): (r: string)
    ensures Truthy(s.croppedRawURL) ==> r == s.croppedRawURL.value
    ensures (!Truthy(s.croppedRawURL) && |s.files| > 0 && Truthy(s.files[0].rawUrl))
              ==> r == s.files[0].rawUrl.value
    ensures r == "" <==> !Truthy(s.croppedRawURL) && !(|s.files| > 0 && Truthy(s.files[0].rawUrl))
  {
    OrElse(Or(s.croppedRawURL, FirstRawUrl(s.files)), "")
  }

  // ---------------------------------------------------------------------
  // Handlers as transitions

  /** How the DELETE /clear-data call ends: its promise (fetch or JSON
      parsing) rejects, or a JSON body arrives, whatever the HTTP status. */
  datatype ClearOutcome = ClearThrows | ClearParsed

  /** clearAllData. Nothing happens unless the user confirms; a rejected call
      stops the handler before any setter runs; otherwise the records and all
      three URLs are dropped, and `mode` and `loading` are left as they are. */
  function AfterClearAllData(s: AppState, confirmed: bool, outcome: ClearOutcome): (r: AppState)
    ensures !confirmed || outcome == ClearThrows ==> r == s
    ensures confirmed && outcome == ClearParsed ==>
              r.files == [] && r.previewURL == None && r.croppedURL == None && r.croppedRawURL == None
    ensures r.mode == s.mode && r.loading == s.loading
  {
    if !confirmed || outcome == ClearThrows then s
    else s.(files := [], previewURL := None, croppedURL := None, croppedRawURL := None)
  }

  /** The crop coordinates the cropper reports. */
  datatype CropData = CropData(x: int, y: int, width: int, height: int)

  /** The JSON body of POST /crop-raw/. */
  datatype CropRequest = CropRequest(filename: Option<string>, x: int, y: int, width: int, height: int)

  /** How the crop call ends: fetch or JSON parsing throws, or a JSON body
      arrives (whatever the HTTP status) holding the two optional URLs. */
  datatype CropOutcome =
    | CropThrows
    | CropParsed(croppedPreviewUrl: Option<string>, croppedRawUrl: Option<string>)

  /** The request sendCropDataToBackend posts, if it gets that far. With no
      files it returns first; with no crop data, reading `cropData.x` throws
      while the body is being built, before anything is sent. */
  function CropRequestOf(s: AppState, cropData: Option<CropData>): (r: Option<CropRequest>)
    ensures r.Some? <==> |s.files| > 0 && cropData.Some?
    ensures r.Some? ==> r.value.filename == s.files[0].filename
    ensures r.Some? ==>
              && r.value.x == cropData.value.x && r.value.y == cropData.value.y
              && r.value.width == cropData.value.width && r.value.height == cropData.value.height
  {
    if |s.files| == 0 || cropData.None? then None
    else
      var d := cropData.value;
      Some(CropRequest(s.files[0].filename, d.x, d.y, d.width, d.height))
  }

  /** sendCropDataToBackend. */
  function AfterSendCropData(s: AppState, cropData: Option<CropData>, outcome: CropOutcome): (r: AppState)
    // with no files the handler returns before touching `loading`
    ensures |s.files| == 0 ==> r == s
    // the `finally` clears `loading` on every other path
    ensures |s.files| > 0 ==> !r.loading
    // records and the original preview are never touched
    ensures r.files == s.files && r.previewURL == s.previewURL
    // an exception (no crop data, failed fetch, unparsable body) changes no URL and not the mode
    ensures CropRequestOf(s, cropData).None? || outcome.CropThrows? ==>
              r.mode == s.mode && r.croppedURL == s.croppedURL && r.croppedRawURL == s.croppedRawURL
    // a parsed answer returns to preview and overwrites each URL only with a truthy value
    ensures CropRequestOf(s, cropData).Some? && outcome.CropParsed? ==>
              && r.mode == Preview
              && r.croppedURL == (if Truthy(outcome.croppedPreviewUrl) then outcome.croppedPreviewUrl else s.croppedURL)
              && r.croppedRawURL == (if Truthy(outcome.croppedRawUrl) then outcome.croppedRawUrl else s.croppedRawURL)
  {
    if |s.files| == 0 then s
    else if cropData.None? || outcome.CropThrows? then s.(loading := false)
    else
      s.(croppedURL := Or(outcome.croppedPreviewUrl, s.croppedURL),
         croppedRawURL := Or(outcome.croppedRawUrl, s.croppedRawURL),
         mode := Preview,
         loading := false)
  }

  /** handleEdit. */
  function AfterEdit(s: AppState): (r: AppState)
    ensures r.mode == Edit
    ensures r.files == s.files && r.previewURL == s.previewURL && r.croppedURL == s.croppedURL
    ensures r.croppedRawURL == s.croppedRawURL && r.loading == s.loading
  {
    s.(mode := Edit)
  }

  /** handleCancelCrop. */
  function AfterCancelCrop(s: AppState): (r: AppState)
    ensures r.mode == Preview
    ensures r.files == s.files && r.previewURL == s.previewURL && r.croppedURL == s.croppedURL
    ensures r.croppedRawURL == s.croppedRawURL && r.loading == s.loading
  {
    s.(mode := Preview)
  }

  // ---------------------------------------------------------------------
  // The component's state, updated in place

  class App {
    var files: seq<FileRecord>
    var previewURL: Option<string>
    var croppedURL: Option<string>
    var croppedRawURL: Option<string>
    var mode: Mode
    var loading: bool

    function State(): AppState
      reads this
    {
      AppState(files, previewURL, croppedURL, croppedRawURL, mode, loading)
    }

    constructor ()
      ensures State() == Initial
    {
      files := [];
      previewURL := None;
      croppedURL := None;
      croppedRawURL := None;
      mode := Preview;
      loading := false;
    }

    method ClearAllData(confirmed: bool, outcome: ClearOutcome)
      modifies this
      ensures State() == AfterClearAllData(old(State()), confirmed, outcome)
    {
      if !confirmed {
        return;
      }
      if outcome == ClearThrows {
        // the awaited call rejects and the handler stops here
        return;
      }
      files := [];
      previewURL := None;
      croppedURL := None;
      croppedRawURL := None;
    }

    method SendCropDataToBackend(cropData: Option<CropData>, outcome: CropOutcome)
      returns (request: Option<CropRequest>)
      modifies this
      ensures request == CropRequestOf(old(State()), cropData)
      ensures State() == AfterSendCropData(old(State()), cropData, outcome)
    {
      request := None;
      if |files| == 0 {
        return;
      }
      loading := true;
      // try
      if cropData.Some? {
        request := Some(CropRequest(files[0].filename, cropData.value.x, cropData.value.y,
                                    cropData.value.width, cropData.value.height));
        if outcome.CropParsed? {
          if Truthy(outcome.croppedPreviewUrl) {
            croppedURL := outcome.croppedPreviewUrl;
          }
          if Truthy(outcome.croppedRawUrl) {
            croppedRawURL := outcome.croppedRawUrl;
          }
          mode := Preview;
        }
      }
      // finally
      loading := false;
    }

    method HandleEdit()
      modifies this
      ensures State() == AfterEdit(old(State()))
    {
      mode := Edit;
    }

    method HandleCancelCrop()
      modifies this
      ensures State() == AfterCancelCrop(old(State()))
    {
      mode := Preview;
    }
  }

  // ---------------------------------------------------------------------
  // Properties of the workflow

  /** A confirmed, parsed clear shows the upload view with nothing to display
      or download, whatever view was active before. */
  lemma ClearShowsUploadView(s: AppState)
    ensures var r := AfterClearAllData(s, true, ClearParsed);
            ActiveView(r) == UploadView && DisplayImage(r) == None && DownloadURL(r) == ""
  {
  }

  /** A parsed crop answer whose two URLs are truthy is what the page then
      shows and offers for download, and the page is back in preview. */
  lemma CropResultIsShownAndDownloadable(s: AppState, d: CropData, preview: string, raw: string)
    requires |s.files| > 0 && preview != "" && raw != ""
    ensures var r := AfterSendCropData(s, Some(d), CropParsed(Some(preview), Some(raw)));
            ActiveView(r) == PreviewView && DisplayImage(r) == Some(preview) && DownloadURL(r) == raw
  {
  }

  /** In the shown wiring the cropper reports no crop data, so every crop
      attempt sends nothing and changes only `loading`, which ends false:
      the crop view stays on screen. */
  lemma CropWithoutDataChangesNothing(s: AppState, outcome: CropOutcome)
    requires |s.files| > 0
    ensures CropRequestOf(s, None) == None
    ensures AfterSendCropData(s, None, outcome) == s.(loading := false)
  {
  }

  /** Edit followed by cancel restores the state when it started in preview. */
  lemma EditThenCancelRestores(s: AppState)
    requires s.mode == Preview
    ensures AfterCancelCrop(AfterEdit(s)) == s
  {
  }

  /** At rest `loading` is false, and every handler leaves it false. */
  lemma HandlersKeepLoadingFalse(s: AppState, confirmed: bool, c: ClearOutcome,
                                 d: Option<CropData>, o: CropOutcome)
    requires !s.loading
    ensures !AfterClearAllData(s, confirmed, c).loading
    ensures !AfterSendCropData(s, d, o).loading
    ensures !AfterEdit(s).loading && !AfterCancelCrop(s).loading
  {
  }

  /** Cropped URLs are either null or truthy: the client only ever stores a
      truthy answer there, and clearing stores null. */
  predicate CroppedUrlsSet(s: AppState)
  {
    (s.croppedURL.None? || Truthy(s.croppedURL)) && (s.croppedRawURL.None? || Truthy(s.croppedRawURL))
  }

  lemma HandlersKeepCroppedUrlsSet(s: AppState, confirmed: bool, c: ClearOutcome,
                                   d: Option<CropData>, o: CropOutcome)
    requires CroppedUrlsSet(s)
    ensures CroppedUrlsSet(AfterClearAllData(s, confirmed, c))
    ensures CroppedUrlsSet(AfterSendCropData(s, d, o))
    ensures CroppedUrlsSet(AfterEdit(s)) && CroppedUrlsSet(AfterCancelCrop(s))
  {
  }
}
