/** The stand-alone batch script: every RAW file of a folder listing whose
    lower-cased name ends in .arw, .dng, .nef or .cr2 is decoded to its
    visible Bayer mosaic, cut to `height - 1300` rows at full width and
    written as a TIFF whose name replaces ".arw" and ".dng" by ".tiff".
    The folder listing and the decoder are parameters: `raws[i]` is what
    the RAW decoder yields for `listing[i]`, `None` when it raises, which
    ends the script. */
module BatchCrop {
  import opened Values
  import opened Names
  import opened Seqs

  /** A sample of the mosaic: the decoder and the TIFF both hold 16-bit
      unsigned values. */
  newtype u16 = x: int | 0 <= x < 0x1_0000

  /** Rows of samples, top row first. */
  type Bayer = seq<seq<u16>>

  /** Rows the script removes from the bottom of every frame. */
  const CropRows := 1300

  /** The lower-cased suffixes the script selects. */
  const RawFormats: set<string> := {"arw", "dng", "nef", "cr2"}

  /** A listing entry is processed when its lower-cased name ends in one of
      the four RAW suffixes. */
  predicate Selected(filename: string)
  {
    var l := Lower(filename);
    EndsWith(l, ".arw") || EndsWith(l, ".dng") || EndsWith(l, ".nef") || EndsWith(l, ".cr2")
  }

  /** Python `str.replace(pat, rep)`: every occurrence of `pat`, scanned left
      to right without overlap, is replaced by `rep`. */
  function ReplaceAll(s: string, pat: string, rep: string): (r: string)
    requires pat != []
    decreases |s|
  {
    if s == [] then []
    else if StartsWith(s, pat) then rep + ReplaceAll(s[|pat|..], pat, rep)
    else [s[0]] + ReplaceAll(s[1..], pat, rep)
  }

  /** The name of the TIFF written for a selected file. The replacements are
      case-sensitive. */
  function OutputName(filename: string): string
  {
    ReplaceAll(ReplaceAll(filename, ".arw", ".tiff"), ".dng", ".tiff")
  }

  /** The folder the TIFFs are written to. */
  const OutputFolder := "D:\\astrophotography\\camera\\7 jan\\video\\raw\\conv1"

  /** Where a TIFF lands: `os.path.join(output_folder, name)` on Windows,
      the folder, a backslash and the name. */
  function Path(w: TiffWrite): string
  {
    OutputFolder + "\\" + w.name
  }

  /** `raw_image[:height - 1300, :]`: full rows from the top. A frame of at
      least 1300 rows loses exactly its bottom 1300; a shorter one is cut by
      Python's negative-stop rule, keeping `2 * height - 1300` rows, or none
      below 650 rows. */
  function CropBayer(raw: Bayer): (r: Bayer)
    ensures r <= raw
    ensures |raw| >= CropRows ==> |r| == |raw| - CropRows
    ensures |raw| < CropRows ==> |r| == if 2 * |raw| < CropRows then 0 else 2 * |raw| - CropRows
  {
    PyPrefix(raw, |raw| - CropRows)
  }

  /** One TIFF written by the script: its file name inside the output
      folder (the full path is `Path`) and its image. */
  datatype TiffWrite = TiffWrite(name: string, image: Bayer)

  /** How a run of the script ends: every selected file was written, or the
      decoder raised on the selected file at position `at`, after the writes
      before it. */
  datatype BatchOutcome =
    | Completed(writes: seq<TiffWrite>)
    | Aborted(writes: seq<TiffWrite>, at: nat)

  /** The decoder raises on the selected entry at position `i`. */
  predicate Fails(listing: seq<string>, raws: seq<Option<Bayer>>, i: int)
    requires |raws| == |listing|
  {
    0 <= i < |listing| && Selected(listing[i]) && raws[i].None?
  }

  /** One iteration of the loop, for the entry `filename` at position `at`
      whose decoding yields `raw`: after an abort nothing more happens; an
      entry that is not selected is skipped; a selected entry is written, or
      aborts the run when the decoder raises. */
  function Step(before: BatchOutcome, filename: string, raw: Option<Bayer>, at: nat): (r: BatchOutcome)
    ensures before.Aborted? ==> r == before
    ensures r.Aborted? && !before.Aborted? ==> r.at == at
    ensures |r.writes| <= |before.writes| + 1
  {
    if before.Aborted? || !Selected(filename) then before
    else match raw
      case None => Aborted(before.writes, at)
      case Some(image) => Completed(before.writes + [TiffWrite(OutputName(filename), CropBayer(image))])
  }

  /** The run of the script over a listing, entry by entry. */
  function Run(listing: seq<string>, raws: seq<Option<Bayer>>): (r: BatchOutcome)
    requires |raws| == |listing|
    ensures |r.writes| <= |listing|
    ensures r.Aborted? ==> r.at < |listing|
  {
    if listing == [] then Completed([])
    else
      var n := |listing| - 1;
      Step(Run(listing[..n], raws[..n]), listing[n], raws[n], n)
  }

  /** A run that completes met no selected entry the decoder raises on. */
  lemma {:induction false} CompletedMeansNoFailure(listing: seq<string>, raws: seq<Option<Bayer>>, i: int)
    requires |raws| == |listing|
    requires Run(listing, raws).Completed?
    ensures !Fails(listing, raws, i)
  {
    if 0 <= i < |listing| - 1 {
      var n := |listing| - 1;
      CompletedMeansNoFailure(listing[..n], raws[..n], i);
      assert listing[..n][i] == listing[i] && raws[..n][i] == raws[i];
    }
  }

  /** A run that aborts does so at a selected entry the decoder raises on,
      and at the first one. */
  lemma {:induction false} AbortedAtFirstFailure(listing: seq<string>, raws: seq<Option<Bayer>>, j: int)
    requires |raws| == |listing|
    requires Run(listing, raws).Aborted?
    ensures Fails(listing, raws, Run(listing, raws).at)
    ensures 0 <= j < Run(listing, raws).at ==> !Fails(listing, raws, j)
  {
    var n := |listing| - 1;
    var before := Run(listing[..n], raws[..n]);
    if before.Aborted? {
      AbortedAtFirstFailure(listing[..n], raws[..n], j);
      var at := before.at;
      assert listing[..n][at] == listing[at] && raws[..n][at] == raws[at];
      if 0 <= j < at {
        assert listing[..n][j] == listing[j] && raws[..n][j] == raws[j];
      }
    } else if 0 <= j < n {
      CompletedMeansNoFailure(listing[..n], raws[..n], j);
      assert listing[..n][j] == listing[j] && raws[..n][j] == raws[j];
    }
  }

  /** The script stops exactly when the decoder raises on a selected entry,
      and it stops at the first such entry. */
  lemma RunStopsAtFirstFailure(listing: seq<string>, raws: seq<Option<Bayer>>)
    requires |raws| == |listing|
    ensures Run(listing, raws).Aborted? <==> exists i :: Fails(listing, raws, i)
    ensures Run(listing, raws).Aborted? ==>
              var at := Run(listing, raws).at;
              Fails(listing, raws, at) && forall j :: 0 <= j < at ==> !Fails(listing, raws, j)
  {
    if Run(listing, raws).Aborted? {
      var at := Run(listing, raws).at;
      AbortedAtFirstFailure(listing, raws, at);
      forall j | 0 <= j < at
        ensures !Fails(listing, raws, j)
      {
        AbortedAtFirstFailure(listing, raws, j);
      }
    } else {
      forall i
        ensures !Fails(listing, raws, i)
      {
        CompletedMeansNoFailure(listing, raws, i);
      }
    }
  }

  /** The loop over `os.listdir`, stopped by the first decoder failure. */
  method ProcessFolder(listing: seq<string>, raws: seq<Option<Bayer>>) returns (outcome: BatchOutcome)
    requires |raws| == |listing|
    ensures outcome == Run(listing, raws)
  {
    var writes: seq<TiffWrite> := [];
    var i := 0;
    while i < |listing|
      invariant 0 <= i <= |listing|
      invariant Run(listing[..i], raws[..i]) == Completed(writes)
    {
      assert listing[..i + 1][..i] == listing[..i] && raws[..i + 1][..i] == raws[..i];
      if Selected(listing[i]) {
        match raws[i] {
          case None =>
            AbortedStays(listing, raws, i + 1);
            return Aborted(writes, i);
          case Some(raw) =>
            writes := writes + [TiffWrite(OutputName(listing[i]), CropBayer(raw))];
        }
      }
      i := i + 1;
    }
    assert listing[..i] == listing && raws[..i] == raws;
    return Completed(writes);
  }

  /** Once a prefix of the listing aborts, the whole run ends the same way. */
  lemma {:induction false} AbortedStays(listing: seq<string>, raws: seq<Option<Bayer>>, k: nat)
    requires |raws| == |listing| && k <= |listing|
    requires Run(listing[..k], raws[..k]).Aborted?
    ensures Run(listing, raws) == Run(listing[..k], raws[..k])
    decreases |listing|
  {
    if k < |listing| {
      var n := |listing| - 1;
      var l, rs := listing[..n], raws[..n];
      assert l[..k] == listing[..k] && rs[..k] == raws[..k];
      AbortedStays(l, rs, k);
    } else {
      assert listing[..k] == listing && raws[..k] == raws;
    }
  }

  /** Every TIFF the script writes comes from a selected, decoded entry: its
      name is that entry's output name and its image the entry's mosaic cut
      at the bottom. */
  lemma {:induction false} WritesComeFromSelectedFiles(listing: seq<string>, raws: seq<Option<Bayer>>, k: nat)
    requires |raws| == |listing|
    requires k < |Run(listing, raws).writes|
    ensures exists i :: 0 <= i < |listing| && Selected(listing[i]) && raws[i].Some? &&
              Run(listing, raws).writes[k] == TiffWrite(OutputName(listing[i]), CropBayer(raws[i].value))
  {
    var n := |listing| - 1;
    var before := Run(listing[..n], raws[..n]);
    if k < |before.writes| {
      WritesComeFromSelectedFiles(listing[..n], raws[..n], k);
      var i :| 0 <= i < n && Selected(listing[..n][i]) && raws[..n][i].Some? &&
        before.writes[k] == TiffWrite(OutputName(listing[..n][i]), CropBayer(raws[..n][i].value));
      assert listing[..n][i] == listing[i] && raws[..n][i] == raws[i];
    }
  }

  /** Positions of the selected entries: exactly those, in increasing
      order. */
  function SelectedPositions(listing: seq<string>): (r: seq<nat>)
    ensures forall i: int :: i in r <==> 0 <= i < |listing| && Selected(listing[i])
    ensures forall j, k :: 0 <= j < k < |r| ==> r[j] < r[k]
    ensures forall k :: 0 <= k < |r| ==> r[k] < |listing|
  {
    if listing == [] then []
    else
      var n := |listing| - 1;
      assert forall i :: 0 <= i < n ==> listing[..n][i] == listing[i];
      SelectedPositions(listing[..n]) + (if Selected(listing[n]) then [n] else [])
  }

  /** How far a run gets: to its failing entry, or through the listing. */
  function Reached(listing: seq<string>, raws: seq<Option<Bayer>>): (k: nat)
    requires |raws| == |listing|
    ensures k <= |listing|
  {
    var r := Run(listing, raws);
    if r.Aborted? then r.at else |listing|
  }

  /** `writes` are, in order, the TIFFs of the entries at positions `ps`. */
  predicate WritesAt(listing: seq<string>, raws: seq<Option<Bayer>>, ps: seq<nat>, writes: seq<TiffWrite>)
    requires |raws| == |listing|
  {
    && |writes| == |ps|
    && forall k :: 0 <= k < |ps| ==>
         && ps[k] < |listing| && raws[ps[k]].Some?
         && writes[k] == TiffWrite(OutputName(listing[ps[k]]), CropBayer(raws[ps[k]].value))
  }

  /** Writes that match a prefix of the listing match the whole listing. */
  lemma WritesAtPrefix(listing: seq<string>, raws: seq<Option<Bayer>>, n: nat, ps: seq<nat>, writes: seq<TiffWrite>)
    requires |raws| == |listing| && n <= |listing|
    requires WritesAt(listing[..n], raws[..n], ps, writes)
    ensures WritesAt(listing, raws, ps, writes)
  {
    forall k | 0 <= k < |ps|
      ensures ps[k] < |listing| && raws[ps[k]].Some?
      ensures writes[k] == TiffWrite(OutputName(listing[ps[k]]), CropBayer(raws[ps[k]].value))
    {
      assert listing[..n][ps[k]] == listing[ps[k]] && raws[..n][ps[k]] == raws[ps[k]];
    }
  }

  /** One more decoded entry adds its TIFF at the end. */
  lemma WritesAtAppend(listing: seq<string>, raws: seq<Option<Bayer>>, ps: seq<nat>, writes: seq<TiffWrite>, n: nat)
    requires |raws| == |listing| && n < |listing| && raws[n].Some?
    requires WritesAt(listing, raws, ps, writes)
    ensures WritesAt(listing, raws, ps + [n], writes + [TiffWrite(OutputName(listing[n]), CropBayer(raws[n].value))])
  {
  }

  /** The TIFFs a run writes follow the selected entries it reaches (all of
      them when it completes, those before the failing one when it aborts):
      the k-th write is the k-th such entry's TIFF, so each is written once,
      in listing order. */
  lemma {:induction false} WritesFollowSelectedPositions(listing: seq<string>, raws: seq<Option<Bayer>>)
    requires |raws| == |listing|
    ensures WritesAt(listing, raws, SelectedPositions(listing[..Reached(listing, raws)]), Run(listing, raws).writes)
  {
    if listing == [] {
      assert listing[..0] == [];
    } else {
      var n := |listing| - 1;
      var l, rs := listing[..n], raws[..n];
      var before := Run(l, rs);
      var psb := SelectedPositions(l[..Reached(l, rs)]);
      WritesFollowSelectedPositions(l, rs);
      WritesAtPrefix(listing, raws, n, psb, before.writes);
      if before.Aborted? {
        assert l[..before.at] == listing[..before.at];
      } else {
        assert l[..n] == l && listing[..|listing|] == listing;
        if Selected(listing[n]) && raws[n].Some? {
          WritesAtAppend(listing, raws, psb, before.writes, n);
        }
      }
    }
  }

  /** A run that completes writes one TIFF per selected entry, in listing
      order: the k-th write is the TIFF of the k-th selected entry. */
  lemma CompletedWritesEverySelectedFile(listing: seq<string>, raws: seq<Option<Bayer>>)
    requires |raws| == |listing|
    requires Run(listing, raws).Completed?
    ensures var ps := SelectedPositions(listing);
            && |Run(listing, raws).writes| == |ps|
            && forall k :: 0 <= k < |ps| ==>
                 raws[ps[k]].Some? &&
                 Run(listing, raws).writes[k] == TiffWrite(OutputName(listing[ps[k]]), CropBayer(raws[ps[k]].value))
    ensures var ps := SelectedPositions(listing);
            forall k :: 0 <= k < |ps| && k < |Run(listing, raws).writes| ==>
              Path(Run(listing, raws).writes[k]) == OutputFolder + "\\" + OutputName(listing[ps[k]])
  {
    WritesFollowSelectedPositions(listing, raws);
    assert listing[..Reached(listing, raws)] == listing;
  }

  /** Python `str.replace` leaves alone a prefix that cannot start the
      pattern. */
  lemma {:induction false} ReplaceSkipsPrefix(a: string, b: string, pat: string, rep: string)
    requires pat != [] && pat[0] !in a
    ensures ReplaceAll(a + b, pat, rep) == a + ReplaceAll(b, pat, rep)
  {
    if a == [] {
      assert a + b == b;
    } else {
      var s := a + b;
      assert !StartsWith(s, pat) by {
        assert s[0] == a[0] != pat[0];
      }
      assert s[1..] == a[1..] + b;
      ReplaceSkipsPrefix(a[1..], b, pat, rep);
      assert ReplaceAll(s, pat, rep) == [s[0]] + ReplaceAll(s[1..], pat, rep);
      assert [a[0]] + a[1..] == a;
    }
  }

  /** Replacing a dotted pattern in a dot followed by a dot-free piece: only
      a piece that starts with the pattern's letters changes. */
  lemma ReplaceInDottedPiece(ext: string, pat: string, pext: string, rep: string)
    requires '.' !in ext && pat == "." + pext
    ensures ReplaceAll("." + ext, pat, rep) ==
              if StartsWith(ext, pext) then rep + ext[|pext|..] else "." + ext
  {
    var s := "." + ext;
    assert StartsWith(s, pat) <==> StartsWith(ext, pext) by {
      if |pext| <= |ext| {
        assert s[..|pat|] == "." + ext[..|pext|];
        assert s[..|pat|][1..] == ext[..|pext|] && pat[1..] == pext;
      }
    }
    if StartsWith(ext, pext) {
      var rest := ext[|pext|..];
      assert s[|pat|..] == rest;
      ReplaceSkipsPrefix(rest, [], pat, rep);
      assert rest + [] == rest;
    } else {
      assert s[1..] == ext;
      ReplaceSkipsPrefix(ext, [], pat, rep);
      assert ext + [] == ext;
    }
  }

  /** The same replacement in a whole dotted name "stem.ext". */
  lemma ReplaceInDottedName(stem: string, ext: string, pat: string, pext: string, rep: string)
    requires '.' !in stem && '.' !in ext && pat == "." + pext
    ensures ReplaceAll(stem + ("." + ext), pat, rep) ==
              stem + if StartsWith(ext, pext) then rep + ext[|pext|..] else "." + ext
  {
    ReplaceSkipsPrefix(stem, "." + ext, pat, rep);
    ReplaceInDottedPiece(ext, pat, pext, rep);
  }

  /** ".tiff" followed by more letters is a dot followed by a piece that
      does not start with "dng". */
  lemma TiffPiece(rest: string)
    ensures ".tiff" + rest == "." + ("tiff" + rest)
    ensures !StartsWith("tiff" + rest, "dng")
  {
    assert ("tiff" + rest)[0] == 't';
  }

  /** The output name of "stem.ext" for a dot-free stem and extension: an
      extension starting with lower-case "arw" or "dng" has those letters
      replaced by "tiff"; every other extension, "ARW", "nef" and "cr2"
      among them, is kept. */
  lemma OutputNameOfDottedName(stem: string, ext: string)
    requires '.' !in stem && '.' !in ext
    ensures OutputName(stem + ("." + ext)) ==
              stem + if StartsWith(ext, "arw") || StartsWith(ext, "dng") then ".tiff" + ext[3..] else "." + ext
  {
    ReplaceInDottedName(stem, ext, ".arw", "arw", ".tiff");
    if StartsWith(ext, "arw") {
      TiffPiece(ext[3..]);
      ReplaceInDottedName(stem, "tiff" + ext[3..], ".dng", "dng", ".tiff");
    } else {
      ReplaceInDottedName(stem, ext, ".dng", "dng", ".tiff");
    }
  }

  /** A three-letter extension other than lower-case "arw" and "dng" is
      kept. */
  lemma OutputNameKeeps(stem: string, ext: string)
    requires '.' !in stem && '.' !in ext && |ext| == 3 && ext != "arw" && ext != "dng"
    ensures OutputName(stem + ("." + ext)) == stem + ("." + ext)
  {
    OutputNameOfDottedName(stem, ext);
  }

  /** Lower-case "arw" and "dng" become "tiff". */
  lemma OutputNameToTiff(stem: string, ext: string)
    requires '.' !in stem && (ext == "arw" || ext == "dng")
    ensures OutputName(stem + ("." + ext)) == stem + ".tiff"
  {
    OutputNameOfDottedName(stem, ext);
    assert ext[3..] == [];
  }

  /** What the script names each RAW spelling: "x.arw" and "x.dng" both
      become "x.tiff", so the later of the two overwrites the earlier;
      "x.nef", "x.cr2" and upper-case "x.ARW" keep their RAW names although
      they now hold TIFF data. */
  lemma OutputNamesOfRawSpellings(stem: string)
    requires '.' !in stem
    ensures OutputName(stem + ".arw") == stem + ".tiff"
    ensures OutputName(stem + ".dng") == stem + ".tiff"
    ensures OutputName(stem + ".nef") == stem + ".nef"
    ensures OutputName(stem + ".cr2") == stem + ".cr2"
    ensures OutputName(stem + ".ARW") == stem + ".ARW"
  {
    assert ".arw" == "." + "arw" && ".dng" == "." + "dng";
    assert ".nef" == "." + "nef" && ".cr2" == "." + "cr2" && ".ARW" == "." + "ARW";
    OutputNameToTiff(stem, "arw");
    OutputNameToTiff(stem, "dng");
    OutputNameKeeps(stem, "nef");
    OutputNameKeeps(stem, "cr2");
    OutputNameKeeps(stem, "ARW");
  }

  /** One suffix of the script's test against the upload page's extension
      test. */
  lemma SuffixIffExtension(filename: string, e: string)
    requires '.' !in e
    ensures EndsWith(Lower(filename), "." + e) <==> '.' in filename && Extension(filename) == e
  {
    LowerKeepsDots(filename);
    AfterLastLower(filename, '.');
    DottedSuffixIffLastPiece(Lower(filename), e);
  }

  /** Four suffix tests, each matching one RAW format, together test
      membership in the four formats. */
  lemma InRawFormats(ext: string, hasDot: bool, arw: bool, dng: bool, nef: bool, cr2: bool)
    requires arw == (hasDot && ext == "arw") && dng == (hasDot && ext == "dng")
    requires nef == (hasDot && ext == "nef") && cr2 == (hasDot && ext == "cr2")
    ensures (arw || dng || nef || cr2) <==> hasDot && ext in RawFormats
  {
  }

  /** The suffix test is the extension test of the upload page: a name is
      selected exactly when it has a dot and its lower-cased last
      dot-separated piece is one of the four RAW formats. */
  lemma SelectedIffRawExtension(filename: string)
    ensures Selected(filename) <==> '.' in filename && Extension(filename) in RawFormats
  {
    var l := Lower(filename);
    SuffixIffExtension(filename, "arw");
    SuffixIffExtension(filename, "dng");
    SuffixIffExtension(filename, "nef");
    SuffixIffExtension(filename, "cr2");
    assert ".arw" == "." + "arw" && ".dng" == "." + "dng" && ".nef" == "." + "nef" && ".cr2" == "." + "cr2";
    InRawFormats(Extension(filename), '.' in filename,
                 EndsWith(l, ".arw"), EndsWith(l, ".dng"), EndsWith(l, ".nef"), EndsWith(l, ".cr2"));
  }
}
