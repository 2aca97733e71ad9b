/** The watermark remover page: choosing an image file and the one real
    pixel transformation of the application, a threshold pass over the
    canvas's RGBA bytes that turns every light enough pixel white. */
module WatermarkRemover {
  import opened Common

  /** One entry of a canvas's `Uint8ClampedArray`. */
  type Byte = x: int | 0 <= x < 256

  /** A file as the file input hands it over. */
  datatype FileInfo = FileInfo(name: string, mimeType: string, size: nat)

  /** A decoded image: its size and its pixels, four bytes (R, G, B, A) per
      pixel, row by row. */
  datatype Image = Image(width: nat, height: nat, pixels: seq<Byte>) {
    predicate Valid() { |pixels| == 4 * width * height }
  }

  /** What `getImageData` returns for the whole canvas. */
  datatype ImageData = ImageData(width: nat, height: nat, data: seq<Byte>) {
    predicate Valid() { |data| == 4 * width * height }
  }

  datatype State = State(
    selected: Option<FileInfo>,
    error: Option<string>,
    threshold: int,
    processing: bool)

  const InvalidFileMessage := "Please select a valid image file (JPG, PNG)"
  const FailureMessage := "Failed to remove watermark. Please try again."

  /** No file, no error, the threshold slider at 50, idle. */
  const Initial := State(None, None, 50, false)

  /** The slider offers thresholds 0 to 100. */
  predicate ThresholdInRange(t: int) { 0 <= t <= 100 }

  predicate IsImageType(mimeType: string)
  {
    StartsWith(mimeType, "image/")
  }

  /** Choosing a file in the picker: an image is taken and clears the
      error; anything else (or no file) only sets the error message and
      keeps the previous selection. */
  function SelectFile(s: State, picked: Option<FileInfo>): (r: State)
    ensures r.error.None? <==> picked.Some? && IsImageType(picked.value.mimeType)
    ensures r.error.None? ==> r.selected == picked
    ensures r.error.Some? ==> r.selected == s.selected && r.error == Some(InvalidFileMessage)
    ensures r.threshold == s.threshold && r.processing == s.processing
  {
    if picked.Some? && IsImageType(picked.value.mimeType) then
      s.(selected := picked, error := None)
    else
      s.(error := Some(InvalidFileMessage))
  }

  lemma ImageTypeExamples()
    ensures IsImageType("image/png") && IsImageType("image/jpeg")
    ensures !IsImageType("application/pdf") && !IsImageType("image") && !IsImageType("")
  {
    assert "image/png"[..6] == "image/";
    assert "image/jpeg"[..6] == "image/";
    assert "application/pdf"[..6] != "image/" by {
      assert "application/pdf"[0] != "image/"[0];
    }
  }

  /** Whether the pixel whose red byte is at `p` passes the test: red,
      green and blue all strictly above the threshold. A byte past the end
      of the buffer reads as `undefined`, which is never above anything. */
  predicate Whitens(data: seq<Byte>, p: int, threshold: int)
  {
    0 <= p && p + 2 < |data|
    && data[p] > threshold && data[p + 1] > threshold && data[p + 2] > threshold
  }

  /** The offset of the red byte of the pixel that byte `j` belongs to. */
  function PixelStart(j: nat): (p: nat)
    ensures p <= j < p + 4 && p % 4 == 0
  {
    j - j % 4
  }

  /** Inside the pixel that starts at `p`, byte `j` is channel `j - p`. */
  lemma PixelOf(p: nat, j: nat)
    requires p % 4 == 0 && p <= j < p + 4
    ensures PixelStart(j) == p && j % 4 == j - p
  {
  }

  lemma NextPixel(p: nat)
    requires p % 4 == 0
    ensures (p + 4) % 4 == 0
  {
  }

  /** Byte `j` after the pass: a colour byte of a pixel that passes the test
      becomes 255, every other byte keeps its value. */
  function WhitenByte(data: seq<Byte>, threshold: int, j: nat): Byte
    requires j < |data|
  {
    if j % 4 < 3 && Whitens(data, PixelStart(j), threshold) then 255 else data[j]
  }

  /** Reference definition of the pass over a whole buffer. */
  function Whiten(data: seq<Byte>, threshold: int): (r: seq<Byte>)
    ensures |r| == |data|
  {
    seq(|data|, j requires 0 <= j < |data| => WhitenByte(data, threshold, j))
  }

  /** What the pass does to each byte: alpha bytes keep their value, the
      colour bytes of a pixel that passes the test become 255, and every
      byte of a pixel that fails it keeps its value. */
  lemma WhitenBytes(data: seq<Byte>, threshold: int)
    ensures var w := Whiten(data, threshold);
      && (forall j :: 0 <= j < |data| && j % 4 == 3 ==> w[j] == data[j])
      && (forall j :: 0 <= j < |data| && j % 4 < 3 && Whitens(data, PixelStart(j), threshold) ==> w[j] == 255)
      && (forall j :: 0 <= j < |data| && !Whitens(data, PixelStart(j), threshold) ==> w[j] == data[j])
  {
  }

  /** The loop's body on the pixel at `i`: the colour bytes become 255
      when the pixel passes, and the alpha byte is written back. */
  function WritePixel(out: seq<Byte>, i: nat, pass: bool): (r: seq<Byte>)
    requires i + 2 < |out| || !pass
    ensures |r| == |out|
    ensures forall j :: 0 <= j < |out| && (j < i || i + 4 <= j) ==> r[j] == out[j]
    ensures forall j :: 0 <= j < |out| && i <= j < i + 3 ==> r[j] == if pass then 255 else out[j]
    ensures forall j :: 0 <= j < |out| && j == i + 3 ==> r[j] == out[j]
  {
    if pass then
      var alpha := if i + 3 < |out| then out[i + 3] else 0;
      var w := out[i := 255][i + 1 := 255][i + 2 := 255];
      if i + 3 < |w| then w[i + 3 := alpha] else w
    else out
  }

  /** The loop of `removeWatermark`: visits the buffer in strides of four,
      whitening the colour bytes of each pixel that passes the test and
      writing its alpha byte back unchanged. */
  method ThresholdPass(data: seq<Byte>, threshold: int) returns (out: seq<Byte>)
    ensures |out| == |data|
    ensures out == Whiten(data, threshold)
  {
    out := data;
    var i := 0;
    while i < |data|
      invariant 0 <= i <= |data| + 3 && i % 4 == 0
      invariant |out| == |data|
      invariant forall j :: 0 <= j < |data| && j < i ==> out[j] == WhitenByte(data, threshold, j)
      invariant forall j :: 0 <= j < |data| && i <= j ==> out[j] == data[j]
    {
      var pass := i + 2 < |out| && out[i] > threshold && out[i + 1] > threshold && out[i + 2] > threshold;
      assert pass == Whitens(data, i, threshold);
      out := WritePixel(out, i, pass);
      forall j | 0 <= j < |data| && i <= j < i + 4
        ensures out[j] == WhitenByte(data, threshold, j)
      {
        PixelOf(i, j);
      }
      NextPixel(i);
      i := i + 4;
    }
  }

  /** `removeWatermark`: without a canvas or a 2-D context there is no
      result; nor is there for an image with a zero side, since reading
      back a zero-sized canvas (`getImageData`) throws, which the caller's
      catch reports exactly as a missing result. Otherwise the canvas takes
      the image's exact size, the image is drawn onto it and the threshold
      pass runs over its bytes. */
  method RemoveWatermark(img: Image, threshold: int, hasContext: bool) returns (r: Option<ImageData>)
    ensures r.None? <==> !hasContext || img.width == 0 || img.height == 0
    ensures r.Some? ==> r.value.width == img.width && r.value.height == img.height
    ensures r.Some? ==> r.value.data == Whiten(img.pixels, threshold)
    ensures r.Some? && img.Valid() ==> r.value.Valid()
  {
    if !hasContext || img.width == 0 || img.height == 0 {
      return None;
    }
    var canvas := ImageData(img.width, img.height, img.pixels);
    var data := ThresholdPass(canvas.data, threshold);
    r := Some(canvas.(data := data));
  }

  /** `handleRemoveWatermark` before the image is processed: without a
      selected file nothing happens, otherwise the page turns busy and
      clears the error. */
  function StartRemoval(s: State): (r: State)
    ensures s.selected.None? ==> r == s
    ensures s.selected.Some? ==> r.processing && r.error.None? && r.selected == s.selected
  {
    if s.selected.None? then s else s.(processing := true, error := None)
  }

  /** `handleRemoveWatermark` once the image has been processed: without a
      selected file nothing happens; a missing result (the image failed to
      load, no canvas was available, or the image has a zero side) sets the failure message; in every
      other case the page ends idle with no error. */
  function FinishRemoval(s: State, result: Option<ImageData>): (r: State)
    ensures s.selected.None? ==> r == s
    ensures s.selected.Some? ==> !r.processing && r.selected == s.selected
    ensures s.selected.Some? ==> (r.error.Some? <==> result.None?)
    ensures s.selected.Some? && r.error.Some? ==> r.error.value == FailureMessage
  {
    if s.selected.None? then s
    else if result.None? then s.(processing := false, error := Some(FailureMessage))
    else s.(processing := false, error := None)
  }

  /** Colour bytes at 255 already pass any threshold below 255, so the
      pass leaves its own output alone. */
  lemma {:induction false} WhitenIdempotent(data: seq<Byte>, threshold: int)
    requires threshold < 255
    ensures Whiten(Whiten(data, threshold), threshold) == Whiten(data, threshold)
  {
    var w := Whiten(data, threshold);
    forall j | 0 <= j < |data|
      ensures WhitenByte(w, threshold, j) == w[j]
    {
      var p := PixelStart(j);
      PixelOf(p, p);
      PixelOf(p, j);
      if p + 2 < |data| {
        PixelOf(p, p + 1);
        PixelOf(p, p + 2);
        if Whitens(data, p, threshold) {
          assert w[p] == 255 && w[p + 1] == 255 && w[p + 2] == 255;
          assert Whitens(w, p, threshold);
        } else {
          assert w[p] == data[p] && w[p + 1] == data[p + 1] && w[p + 2] == data[p + 2];
          assert !Whitens(w, p, threshold);
        }
      }
    }
  }

  /** Every threshold the slider offers is below 255, so a second pass at
      the same setting changes nothing. */
  lemma SliderPassIdempotent(data: seq<Byte>, threshold: int)
    requires ThresholdInRange(threshold)
    ensures Whiten(Whiten(data, threshold), threshold) == Whiten(data, threshold)
  {
    WhitenIdempotent(data, threshold);
  }

  /** The pixels (by the offset of their red byte) that a pass whitens. */
  function WhitenedPixels(data: seq<Byte>, threshold: int): (ps: set<nat>)
    ensures forall p :: p in ps ==> p % 4 == 0 && p < |data|
  {
    set p: nat | p < |data| && p % 4 == 0 && Whitens(data, p, threshold)
  }

  /** Lowering the threshold whitens every pixel the higher one did, and
      possibly more. */
  lemma LowerThresholdWhitensMore(data: seq<Byte>, low: int, high: int)
    requires low <= high
    ensures WhitenedPixels(data, high) <= WhitenedPixels(data, low)
  {
  }

  /** For thresholds below 255 a pixel comes out white exactly when it
      passed the test: a pixel that fails it was not white to begin with. */
  lemma WhiteIffPassed(data: seq<Byte>, threshold: int, p: nat)
    requires threshold < 255
    requires p % 4 == 0 && p + 2 < |data|
    ensures var w := Whiten(data, threshold);
            (w[p] == 255 && w[p + 1] == 255 && w[p + 2] == 255) <==> Whitens(data, p, threshold)
  {
    PixelOf(p, p);
    PixelOf(p, p + 1);
    PixelOf(p, p + 2);
  }

  /** The slider as written: its value goes straight into the test, so a
      higher setting is a stricter test. A light grey pixel (80, 80, 80)
      is whitened at the default 50 and left alone at 100, the opposite of
      the help text under the slider. */
  lemma HigherSliderWhitensLess()
    ensures var grey: seq<Byte> := [80, 80, 80, 255];
            0 in WhitenedPixels(grey, 50) && 0 !in WhitenedPixels(grey, 100)
  {
    var grey: seq<Byte> := [80, 80, 80, 255];
    assert Whitens(grey, 0, 50);
  }

  /** The corrected reading of the slider: a percentage of how far down
      from white the test reaches. 0 lets no pixel through, 100 lets every
      pixel with no zero channel through. */
  function SliderCutoff(slider: int): (cutoff: int)
    requires ThresholdInRange(slider)
    ensures 0 <= cutoff <= 255
    ensures slider == 0 <==> cutoff == 255
    ensures slider == 100 <==> cutoff == 0
  {
    255 - slider * 255 / 100
  }

  lemma ScaledPercentMonotone(low: int, high: int)
    requires 0 <= low <= high <= 100
    ensures low * 255 / 100 <= high * 255 / 100
  {
    assert low * 255 <= high * 255;
  }

  /** A higher slider value never raises the cutoff. */
  lemma SliderCutoffAntitone(low: int, high: int)
    requires 0 <= low <= high <= 100
    ensures SliderCutoff(high) <= SliderCutoff(low)
  {
    ScaledPercentMonotone(low, high);
  }

  /** With the corrected cutoff, raising the slider whitens every pixel the
      lower setting did, and possibly more, as the help text promises. */
  lemma CorrectedSliderWhitensMore(data: seq<Byte>, low: int, high: int)
    requires 0 <= low <= high <= 100
    ensures WhitenedPixels(data, SliderCutoff(low)) <= WhitenedPixels(data, SliderCutoff(high))
  {
    SliderCutoffAntitone(low, high);
    LowerThresholdWhitensMore(data, SliderCutoff(high), SliderCutoff(low));
  }

  /** The corrected slider on the light grey pixel: left alone at 50,
      whitened at 100; and at 0 no pixel of any buffer is whitened. */
  lemma CorrectedSliderOnGrey(data: seq<Byte>)
    ensures var grey: seq<Byte> := [80, 80, 80, 255];
            0 !in WhitenedPixels(grey, SliderCutoff(50)) && 0 in WhitenedPixels(grey, SliderCutoff(100))
    ensures WhitenedPixels(data, SliderCutoff(0)) == {}
  {
    var grey: seq<Byte> := [80, 80, 80, 255];
    assert Whitens(grey, 0, SliderCutoff(100));
  }
}
