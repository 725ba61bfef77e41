/** The earlier upload component (src/components/ui/fileUpload.jsx). It keeps
    its own list of browser File objects; handleFiles itself does no
    filtering: it gives every new file a `preview` object URL, writing it onto
    the File object itself (`Object.assign`), and appends the files to the
    list; paste forwards the clipboard's image files to it.
    `URL.createObjectURL` results are parameters. */
module DraftUpload {
  import opened Values
  import opened Clipboard

  /** A browser File object: its name is read-only, `preview` is the property
      `Object.assign` adds (absent until then). */
  class BrowserFile {
    const name: string
    var preview: Option<string>

    constructor (name: string)
      ensures this.name == name && preview == None
    {
      this.name := name;
      preview := None;
    }
  }

  /** No entry after position `j` and before `n` is the same object as
      entry `j`. */
  predicate LastOccurrence(s: seq<BrowserFile>, j: int, n: int)
    requires 0 <= j < |s| && n <= |s|
  {
    forall k :: j < k < n ==> s[k] != s[j]
  }

  /** The `Object.assign(file, {preview: ...})` of every new file, in order:
      each object ends with the URL made at its last position. */
  method AssignPreviews(newFiles: seq<BrowserFile>, objectUrls: seq<string>)
    requires |objectUrls| == |newFiles|
    modifies newFiles
    ensures forall i :: 0 <= i < |newFiles| && LastOccurrence(newFiles, i, |newFiles|) ==>
              newFiles[i].preview == Some(objectUrls[i])
  {
    var i := 0;
    while i < |newFiles|
      invariant 0 <= i <= |newFiles|
      invariant forall j :: 0 <= j < i && LastOccurrence(newFiles, j, i) ==>
                  newFiles[j].preview == Some(objectUrls[j])
    {
      newFiles[i].preview := Some(objectUrls[i]);
      i := i + 1;
    }
  }

  class DraftFileUpload {
    var files: seq<BrowserFile>

    constructor ()
      ensures files == []
    {
      files := [];
    }

    /** handleFiles: `objectUrls[i]` is what `URL.createObjectURL` returns for
        `newFiles[i]`. The new files are appended to the current list. When
        the same object is passed twice, the later URL is the one it keeps. */
    method HandleFiles(newFiles: seq<BrowserFile>, objectUrls: seq<string>)
      requires |objectUrls| == |newFiles|
      modifies this, newFiles
      ensures files == old(files) + newFiles
      ensures forall i :: 0 <= i < |newFiles| && LastOccurrence(newFiles, i, |newFiles|) ==>
                newFiles[i].preview == Some(objectUrls[i])
      ensures forall f :: f in old(files) && f !in newFiles ==> f.preview == old(f.preview)
    {
      AssignPreviews(newFiles, objectUrls);
      files := files + newFiles;
    }

    /** handlePaste. The listener is re-installed whenever `files` changes,
        so it always calls the handleFiles of the current render: the
        qualifying clipboard files are appended to the current list, each
        with its object URL. handleFiles is called only when at least one
        file qualifies. */
    method HandlePaste(clipboard: Option<seq<ClipboardItem<BrowserFile>>>, objectUrls: seq<string>)
      returns (called: bool)
      requires clipboard.Some? ==> |objectUrls| == |PastedImages(clipboard.value)|
      modifies this, if clipboard.Some? then PastedImages(clipboard.value) else []
      ensures called <==> clipboard.Some? && PastedImages(clipboard.value) != []
      ensures called ==> files == old(files) + PastedImages(clipboard.value)
      ensures called ==>
                var pasted := PastedImages(clipboard.value);
                forall i :: 0 <= i < |pasted| && LastOccurrence(pasted, i, |pasted|) ==>
                  pasted[i].preview == Some(objectUrls[i])
      ensures called ==>
                forall f :: f in old(files) && f !in PastedImages(clipboard.value) ==> f.preview == old(f.preview)
      ensures !called ==> files == old(files)
    {
      called := false;
      if clipboard.None? {
        return;
      }
      var imageFiles := CollectPastedImages(clipboard.value);
      if |imageFiles| > 0 {
        called := true;
        HandleFiles(imageFiles, objectUrls);
      }
    }
  }

  /** Dropping one file and then pasting an image keeps the dropped file
      first, followed by the pasted one, each with its own object URL. */
  method DropThenPaste() returns (files: seq<BrowserFile>, dropped: BrowserFile, pasted: BrowserFile)
    ensures files == [dropped, pasted]
    ensures dropped.preview == Some("blob:1") && pasted.preview == Some("blob:2")
  {
    dropped := new BrowserFile("photo.png");
    pasted := new BrowserFile("image.png");
    var clipboard := [ClipboardItem("image/png", Some(pasted))];
    assert clipboard[..0] == [];
    assert "image/png"[..6] == "image/" && Qualifies(clipboard[0]);
    assert PastedImages(clipboard) == [pasted];

    var page := new DraftFileUpload();
    assert LastOccurrence([dropped], 0, 1);
    page.HandleFiles([dropped], ["blob:1"]);
    assert LastOccurrence(PastedImages(clipboard), 0, 1);
    var _ := page.HandlePaste(Some(clipboard), ["blob:2"]);
    files := page.files;
  }
}
