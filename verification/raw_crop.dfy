/** The bottom-crop helper of the server (backend/temp.py, crop_raw_output):
    strip quotes from the path, check the file exists, decode it, refuse when
    the image is not taller than the crop, drop `crop_pixels` rows from the
    bottom and flatten the kept rows to bytes in row-major order. The file
    system and the decoder are a map from paths to what decoding yields. */
module RawCrop {
  import opened Values
  import opened Seqs

  newtype byte = b: int | 0 <= b < 256

  /** numpy's in-memory bytes of one sample. */
  type Sample = seq<byte>
  /** One pixel: one sample per channel. */
  type Pixel = seq<Sample>
  type Row = seq<Pixel>
  /** A decoded image of shape (height, width, channels): its rows, top first. */
  type RgbArray = seq<Row>

  const DefaultCropPixels := 500

  // ---------------------------------------------------------------------
  // Python str.strip with one character

  predicate AllChar(s: string, c: char)
  {
    forall k :: 0 <= k < |s| ==> s[k] == c
  }

  /** `s.lstrip(c)`. */
  function TrimLeft(s: string, c: char): (r: string)
    ensures |r| <= |s| && r == s[|s| - |r|..]
    ensures forall k :: 0 <= k < |s| - |r| ==> s[k] == c
    ensures r != [] ==> r[0] != c
  {
    if s != [] && s[0] == c then
      var r := TrimLeft(s[1..], c);
      assert forall k :: 1 <= k < |s| - |r| ==> s[k] == s[1..][k - 1];
      r
    else s
  }

  /** `s.rstrip(c)`. */
  function TrimRight(s: string, c: char): (r: string)
    ensures |r| <= |s| && r == s[..|r|]
    ensures forall k :: |r| <= k < |s| ==> s[k] == c
    ensures r != [] ==> r[|r| - 1] != c
  {
    if s != [] && s[|s| - 1] == c then TrimRight(s[..|s| - 1], c) else s
  }

  /** `s.strip(c)`: removes every leading and every trailing `c`. */
  function Strip(s: string, c: char): (r: string)
    ensures r != [] ==> r[0] != c && r[|r| - 1] != c
    ensures |r| <= |s|
  {
    TrimRight(TrimLeft(s, c), c)
  }

  lemma {:induction false} TrimLeftOfPadded(a: string, m: string, c: char)
    requires AllChar(a, c) && (m == [] || m[0] != c)
    ensures TrimLeft(a + m, c) == m
  {
    if a != [] {
      assert (a + m)[1..] == a[1..] + m;
      TrimLeftOfPadded(a[1..], m, c);
    } else {
      assert a + m == m;
    }
  }

  lemma {:induction false} TrimRightOfPadded(m: string, b: string, c: char)
    requires AllChar(b, c) && (m == [] || m[|m| - 1] != c)
    ensures TrimRight(m + b, c) == m
  {
    if b != [] {
      assert (m + b)[..|m + b| - 1] == m + b[..|b| - 1];
      TrimRightOfPadded(m, b[..|b| - 1], c);
    } else {
      assert m + b == m;
    }
  }

  /** Strip removes exactly the padding: for a core `m` that neither starts
      nor ends with `c`, any run of `c` before and after it is removed and
      `m`, interior `c` included, is kept. */
  lemma StripRemovesPadding(a: string, m: string, b: string, c: char)
    requires AllChar(a, c) && AllChar(b, c)
    requires m != [] ==> m[0] != c && m[|m| - 1] != c
    ensures Strip(a + m + b, c) == m
  {
    if m == [] {
      assert a + m + b == a + b;
      assert AllChar(a + b, c);
      TrimLeftOfPadded(a + b, [], c);
      assert a + b + [] == a + b;
      TrimRightOfPadded([], [], c);
    } else {
      assert a + m + b == a + (m + b);
      TrimLeftOfPadded(a, m + b, c);
      TrimRightOfPadded(m, b, c);
    }
  }

  /** Stripping twice is stripping once. */
  lemma StripIdempotent(s: string, c: char)
    ensures Strip(Strip(s, c), c) == Strip(s, c)
  {
    var r := Strip(s, c);
    assert TrimLeft(r, c) == r;
    assert TrimRight(r, c) == r;
  }

  /** The path crop_raw_output opens. */
  function StripQuotes(filePath: string): string
  {
    Strip(filePath, '"')
  }

  // ---------------------------------------------------------------------
  // Shapes and bytes

  predicate PixelShaped(p: Pixel, channels: nat, itemSize: nat)
  {
    |p| == channels && forall k :: 0 <= k < |p| ==> |p[k]| == itemSize
  }

  predicate RowShaped(row: Row, width: nat, channels: nat, itemSize: nat)
  {
    |row| == width && forall j :: 0 <= j < |row| ==> PixelShaped(row[j], channels, itemSize)
  }

  /** Every row has `width` pixels of `channels` samples of `itemSize` bytes. */
  predicate Shaped(a: RgbArray, width: nat, channels: nat, itemSize: nat)
  {
    forall i :: 0 <= i < |a| ==> RowShaped(a[i], width, channels, itemSize)
  }

  function PixelBytes(p: Pixel): seq<byte>
  {
    Concat(p)
  }

  function RowBytes(row: Row): seq<byte>
  {
    Concat(seq(|row|, j requires 0 <= j < |row| => PixelBytes(row[j])))
  }

  /** numpy `tobytes()` of a C-ordered array: rows top to bottom, pixels left
      to right, channels in order. */
  function Bytes(a: RgbArray): seq<byte>
  {
    Concat(seq(|a|, i requires 0 <= i < |a| => RowBytes(a[i])))
  }

  lemma RowBytesLength(row: Row, width: nat, channels: nat, itemSize: nat)
    requires RowShaped(row, width, channels, itemSize)
    ensures |RowBytes(row)| == width * (channels * itemSize)
  {
    var ps := seq(|row|, j requires 0 <= j < |row| => PixelBytes(row[j]));
    forall j | 0 <= j < |ps| ensures |ps[j]| == channels * itemSize {
      ConcatUniformLength(row[j], itemSize);
    }
    ConcatUniformLength(ps, channels * itemSize);
  }

  /** The byte count of a shaped array is height × width × channels × item
      size. */
  lemma BytesLength(a: RgbArray, width: nat, channels: nat, itemSize: nat)
    requires Shaped(a, width, channels, itemSize)
    ensures |Bytes(a)| == |a| * (width * (channels * itemSize))
  {
    var rs := seq(|a|, i requires 0 <= i < |a| => RowBytes(a[i]));
    forall i | 0 <= i < |rs| ensures |rs[i]| == width * (channels * itemSize) {
      RowBytesLength(a[i], width, channels, itemSize);
    }
    ConcatUniformLength(rs, width * (channels * itemSize));
  }

  /** The bytes of the top `k` rows are the leading bytes of the whole image. */
  lemma TopRowsBytesArePrefix(a: RgbArray, k: nat)
    requires k <= |a|
    ensures Bytes(a[..k]) <= Bytes(a)
  {
    var rs := seq(|a|, i requires 0 <= i < |a| => RowBytes(a[i]));
    assert seq(k, i requires 0 <= i < k => RowBytes(a[..k][i])) == rs[..k];
    ConcatPrefix(rs, k);
  }

  // ---------------------------------------------------------------------
  // crop_raw_output

  datatype CropError =
    | FileNotFound(path: string)   // FileNotFoundError with the stripped path
    | DecodeFailed                 // rawpy cannot read the file
    | HeightNotAboveCrop           // ValueError

  /** The cropped image and its raw bytes. */
  datatype Cropped = Cropped(image: RgbArray, rawBytes: seq<byte>)

  /** crop_raw_output(file_path, crop_pixels). `disk` maps each existing path
      to what decoding it yields (None when rawpy raises). */
  function CropRawOutput(filePath: string, cropPixels: int, disk: map<string, Option<RgbArray>>)
    : (r: Result<Cropped, CropError>)
    ensures r.Err? && r.error.FileNotFound? <==> StripQuotes(filePath) !in disk
    ensures r.Err? && r.error.FileNotFound? ==> r.error.path == StripQuotes(filePath)
    ensures r == Err(DecodeFailed) <==> StripQuotes(filePath) in disk && disk[StripQuotes(filePath)].None?
    ensures r == Err(HeightNotAboveCrop) <==>
              && StripQuotes(filePath) in disk && disk[StripQuotes(filePath)].Some?
              && |disk[StripQuotes(filePath)].value| <= cropPixels
    ensures r.Ok? ==>
              var a := disk[StripQuotes(filePath)].value;
              && |a| > cropPixels
              && r.value.image <= a
              && |r.value.image| == (if cropPixels >= 0 then |a| - cropPixels else |a|)
              && r.value.rawBytes == Bytes(r.value.image)
  {
    var path := StripQuotes(filePath);
    if path !in disk then Err(FileNotFound(path))
    else
      match disk[path]
      case None => Err(DecodeFailed)
      case Some(rgb) =>
        if |rgb| <= cropPixels then Err(HeightNotAboveCrop)
        else
          var cropped := SliceTo(rgb, |rgb| - cropPixels);
          Ok(Cropped(cropped, Bytes(cropped)))
  }

  /** A successful crop keeps width, channels and sample size, and its bytes
      are the leading (height - crop) × width × channels × item-size bytes of
      the whole decoded image. */
  lemma CropKeepsShapeAndLeadingBytes(filePath: string, cropPixels: int, disk: map<string, Option<RgbArray>>,
                                      width: nat, channels: nat, itemSize: nat)
    requires CropRawOutput(filePath, cropPixels, disk).Ok?
    requires Shaped(disk[StripQuotes(filePath)].value, width, channels, itemSize)
    ensures var c := CropRawOutput(filePath, cropPixels, disk).value;
            var a := disk[StripQuotes(filePath)].value;
            && Shaped(c.image, width, channels, itemSize)
            && |c.rawBytes| == |c.image| * (width * (channels * itemSize))
            && c.rawBytes <= Bytes(a)
  {
    var c := CropRawOutput(filePath, cropPixels, disk).value;
    var a := disk[StripQuotes(filePath)].value;
    assert c.image == a[..|c.image|];
    BytesLength(c.image, width, channels, itemSize);
    TopRowsBytesArePrefix(a, |c.image|);
  }

  /** With the default of 500, an image taller than 500 rows loses exactly its
      bottom 500 rows. */
  lemma DefaultCropDropsFiveHundredRows(filePath: string, disk: map<string, Option<RgbArray>>)
    requires StripQuotes(filePath) in disk && disk[StripQuotes(filePath)].Some?
    requires |disk[StripQuotes(filePath)].value| > 500
    ensures var r := CropRawOutput(filePath, DefaultCropPixels, disk);
            var a := disk[StripQuotes(filePath)].value;
            r.Ok? && r.value.image == a[..|a| - 500]
  {
  }
}
