/** The paste filter that both upload components run over a clipboard event's
    items (frontend/src/components/ui/fileUpload.jsx and the earlier
    src/components/ui/fileUpload.jsx): keep the files of the items whose type
    starts with "image/" and whose `getAsFile()` gives a file. */
module Clipboard {
  import opened Values
  import opened Names

  /** A clipboard item: its MIME type and what `getAsFile()` returns. */
  datatype ClipboardItem<F> = ClipboardItem(mimeType: string, asFile: Option<F>)

  predicate Qualifies<F>(item: ClipboardItem<F>)
  {
    StartsWith(item.mimeType, "image/") && item.asFile.Some?
  }

  /** The files the paste handler forwards, in clipboard order. */
  function PastedImages<F>(items: seq<ClipboardItem<F>>): seq<F>
  {
    if items == [] then []
    else
      var last := items[|items| - 1];
      PastedImages(items[..|items| - 1]) + (if Qualifies(last) then [last.asFile.value] else [])
  }

  /** The push loop of handlePaste. */
  method CollectPastedImages<F>(items: seq<ClipboardItem<F>>) returns (imageFiles: seq<F>)
    ensures imageFiles == PastedImages(items)
  {
    imageFiles := [];
    var i := 0;
    while i < |items|
      invariant 0 <= i <= |items|
      invariant imageFiles == PastedImages(items[..i])
    {
      var item := items[i];
      if StartsWith(item.mimeType, "image/") {
        var blob := item.asFile;
        if blob.Some? {
          imageFiles := imageFiles + [blob.value];
        }
      }
      assert items[..i + 1][..i] == items[..i];
      i := i + 1;
    }
    assert items[..i] == items;
  }

  /** The filter works item by item: pasting `a` then `b` as one event
      forwards what `a` forwards followed by what `b` forwards. */
  lemma {:induction false} PastedImagesAppend<F>(a: seq<ClipboardItem<F>>, b: seq<ClipboardItem<F>>)
    ensures PastedImages(a + b) == PastedImages(a) + PastedImages(b)
  {
    if b == [] {
      assert a + b == a;
    } else {
      assert (a + b)[..|a + b| - 1] == a + b[..|b| - 1];
      PastedImagesAppend(a, b[..|b| - 1]);
    }
  }

  /** Every forwarded file is the file of a qualifying item, and nothing is
      forwarded exactly when no item qualifies (then the upload handler is not
      called at all). */
  lemma {:induction false} PastedImagesSound<F>(items: seq<ClipboardItem<F>>)
    ensures |PastedImages(items)| <= |items|
    ensures forall f :: f in PastedImages(items) ==>
              exists i :: 0 <= i < |items| && Qualifies(items[i]) && items[i].asFile == Some(f)
    ensures PastedImages(items) == [] <==> forall i :: 0 <= i < |items| ==> !Qualifies(items[i])
  {
    if items != [] {
      var init := items[..|items| - 1];
      PastedImagesSound(init);
      forall f | f in PastedImages(items)
        ensures exists i :: 0 <= i < |items| && Qualifies(items[i]) && items[i].asFile == Some(f)
      {
        if f in PastedImages(init) {
          var i :| 0 <= i < |init| && Qualifies(init[i]) && init[i].asFile == Some(f);
          assert items[i] == init[i];
        } else {
          assert Qualifies(items[|items| - 1]) && items[|items| - 1].asFile == Some(f);
        }
      }
      if PastedImages(items) == [] {
        forall i | 0 <= i < |items| ensures !Qualifies(items[i]) {
          if i < |init| {
            assert items[i] == init[i];
          }
        }
      }
      if forall i :: 0 <= i < |items| ==> !Qualifies(items[i]) {
        assert forall i :: 0 <= i < |init| ==> items[i] == init[i];
      }
    }
  }
}
