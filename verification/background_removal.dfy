/**
 * Model of remove_background_fundus_image.py: the black border around a
 * fundus scan becomes transparent and the image is cropped to the scan.
 *
 * Images are grids of byte tuples (rows, then columns, then channels in
 * B, G, R, A order). The OpenCV calls the script makes (grey conversion,
 * contour finding, contour area, filled-contour rasterisation, bounding
 * rectangle) are not modelled; they are the fields of a `Vision` value
 * passed in, so every property below holds whatever those calls return.
 */
module BackgroundRemoval {

  import opened Wrappers
  import opened PosixPath

  type Byte = b: int | 0 <= b < 256
  type Pixel = seq<Byte>
  type Grid<T> = seq<seq<T>>

  /** Threshold cutoff: grey values above it are foreground. */
  const Cutoff: Byte := 20
  /** Value a binary image or mask holds at a foreground pixel. */
  const Foreground: Byte := 255
  const Opaque: Byte := 255
  const Transparent: Byte := 0

  /** A `height` by `width` grid, every row the same length. */
  predicate GridShaped<T>(g: Grid<T>, height: nat, width: nat) {
    |g| == height && forall r :: 0 <= r < height ==> |g[r]| == width
  }

  /** An H×W×C array as the image decoder gives it for a colour image. */
  datatype Raster = Raster(height: nat, width: nat, channels: nat, pixels: Grid<Pixel>) {
    predicate Shaped() {
      && GridShaped(pixels, height, width)
      && forall r, c :: 0 <= r < height && 0 <= c < width ==> |pixels[r][c]| == channels
    }
  }

  /** What the decoder returns: a 2-D greyscale array or an H×W×C array. */
  datatype Decoded = Planar(plane: Grid<Byte>) | Interleaved(raster: Raster)

  /**
   * What processing one file comes to: the file could not be read (the
   * function returns None), an exception was raised inside it, or an image.
   */
  datatype Outcome = NotRead | Raised | Done(image: Raster)

  datatype Point = Point(x: int, y: int)
  type Contour = seq<Point>
  /** A bounding rectangle `(x, y, w, h)`: column, row, width, height. */
  datatype Rect = Rect(x: nat, y: nat, w: nat, h: nat)

  /**
   * The image library calls, as given functions: BGRA to grey conversion,
   * external contours of a binary image, the area of a contour, whether the
   * filled drawing of a contour paints pixel (row, column), and the bounding
   * rectangle of a contour.
   */
  datatype Vision = Vision(
    toGrey: Raster -> Grid<Byte>,
    findContours: Grid<Byte> -> seq<Contour>,
    contourArea: Contour -> real,
    fills: (Contour, nat, nat) -> bool,
    boundingRect: Contour -> Rect)

  /** A decoded image is a well-shaped array. */
  predicate WellFormed(read: Option<Decoded>) {
    read.Some? && read.value.Interleaved? ==> read.value.raster.Shaped()
  }

  /**
   * Lines 31-32: a 3-channel image gains an opaque alpha channel; any other
   * image is used as read.
   */
  function ToBgra(img: Raster): (out: Raster)
    requires img.Shaped()
    ensures out.Shaped() && out.height == img.height && out.width == img.width
    ensures img.channels == 3 ==> out.channels == 4
    ensures img.channels == 3 ==> forall r, c :: 0 <= r < img.height && 0 <= c < img.width ==>
      out.pixels[r][c][..3] == img.pixels[r][c] && out.pixels[r][c][3] == Opaque
    ensures img.channels != 3 ==> out == img
  {
    if img.channels == 3 then
      Raster(img.height, img.width, 4,
        seq(img.height, r requires 0 <= r < img.height =>
          seq(img.width, c requires 0 <= c < img.width => img.pixels[r][c] + [Opaque])))
    else
      img
  }

  /**
   * Line 41: binary threshold at the cutoff. A pixel is foreground exactly
   * when its grey value is above the cutoff; the cutoff itself is background.
   */
  function Threshold(grey: Grid<Byte>): (bin: Grid<Byte>)
    ensures |bin| == |grey| && forall r :: 0 <= r < |grey| ==> |bin[r]| == |grey[r]|
    ensures forall r, c :: 0 <= r < |grey| && 0 <= c < |grey[r]| ==>
      (bin[r][c] == Foreground <==> grey[r][c] > Cutoff) && (bin[r][c] == 0 <==> grey[r][c] <= Cutoff)
  {
    seq(|grey|, r requires 0 <= r < |grey| =>
      seq(|grey[r]|, c requires 0 <= c < |grey[r]| => if grey[r][c] > Cutoff then Foreground else 0))
  }

  /**
   * Line 51: `max(contours, key=area)`. The scan keeps the first contour of
   * greatest area: the result's area is at least every other's and strictly
   * greater than the area of every contour before it.
   */
  function LargestContourIndex(contours: seq<Contour>, area: Contour -> real): (i: nat)
    requires |contours| > 0
    ensures i < |contours|
    ensures forall j :: 0 <= j < |contours| ==> area(contours[j]) <= area(contours[i])
    ensures forall j :: 0 <= j < i ==> area(contours[j]) < area(contours[i])
    decreases |contours|
  {
    if |contours| == 1 then 0
    else
      var best := LargestContourIndex(contours[..|contours| - 1], area);
      if area(contours[|contours| - 1]) > area(contours[best]) then |contours| - 1 else best
  }

  /** The mask of line 60: foreground where the filled contour paints, 0 elsewhere. */
  function FilledMask(height: nat, width: nat, fills: (Contour, nat, nat) -> bool, contour: Contour): (mask: Grid<Byte>)
    ensures GridShaped(mask, height, width)
    ensures forall r, c :: 0 <= r < height && 0 <= c < width ==>
      (mask[r][c] == Foreground <==> fills(contour, r, c)) && (mask[r][c] == 0 || mask[r][c] == Foreground)
  {
    seq(height, r requires 0 <= r < height =>
      seq(width, c requires 0 <= c < width => if fills(contour, r, c) then Foreground else 0))
  }

  /** The alpha channel of lines 68-69: opaque exactly where the mask is 255. */
  function AlphaOf(mask: Grid<Byte>): (alpha: Grid<Byte>)
    ensures |alpha| == |mask| && forall r :: 0 <= r < |mask| ==> |alpha[r]| == |mask[r]|
    ensures forall r, c :: 0 <= r < |mask| && 0 <= c < |mask[r]| ==>
      (alpha[r][c] == Opaque <==> mask[r][c] == Foreground) && (alpha[r][c] == Transparent <==> mask[r][c] != Foreground)
  {
    seq(|mask|, r requires 0 <= r < |mask| =>
      seq(|mask[r]|, c requires 0 <= c < |mask[r]| => if mask[r][c] == Foreground then Opaque else Transparent))
  }

  /** The contents of a 2-D array, row by row. */
  function Snapshot(a: array2<Byte>): (g: Grid<Byte>)
    reads a
    ensures GridShaped(g, a.Length0, a.Length1)
    ensures forall r, c :: 0 <= r < a.Length0 && 0 <= c < a.Length1 ==> g[r][c] == a[r, c]
  {
    seq(a.Length0, r requires 0 <= r < a.Length0 reads a =>
      seq(a.Length1, c requires 0 <= c < a.Length1 reads a => a[r, c]))
  }

  /** Lines 59-60: a zero-filled mask into which the chosen contour is drawn filled. */
  method DrawFilledMask(height: nat, width: nat, fills: (Contour, nat, nat) -> bool, contour: Contour)
    returns (mask: array2<Byte>)
    ensures mask.Length0 == height && mask.Length1 == width
    ensures Snapshot(mask) == FilledMask(height, width, fills, contour)
  {
    mask := new Byte[height, width]((r, c) => 0);
    forall r, c | 0 <= r < height && 0 <= c < width && fills(contour, r, c) {
      mask[r, c] := Foreground;
    }
    var spec := FilledMask(height, width, fills, contour);
    assert forall r | 0 <= r < height :: Snapshot(mask)[r] == spec[r];
  }

  /**
   * Lines 68-69: a zero-filled alpha channel, set to 255 by boolean-indexed
   * assignment wherever the mask is 255.
   */
  method AlphaChannel(mask: array2<Byte>) returns (alpha: array2<Byte>)
    ensures alpha.Length0 == mask.Length0 && alpha.Length1 == mask.Length1
    ensures Snapshot(alpha) == AlphaOf(Snapshot(mask))
  {
    alpha := new Byte[mask.Length0, mask.Length1]((r, c) => Transparent);
    forall r, c | 0 <= r < mask.Length0 && 0 <= c < mask.Length1 && mask[r, c] == Foreground {
      alpha[r, c] := Opaque;
    }
    var spec := AlphaOf(Snapshot(mask));
    assert forall r | 0 <= r < mask.Length0 :: Snapshot(alpha)[r] == spec[r];
  }

  /** Line 64: `bitwise_and` of the colour channels with themselves under the mask. */
  function MaskColour(img: Raster, mask: Grid<Byte>): (colour: Grid<Pixel>)
    requires img.Shaped() && img.channels >= 3 && GridShaped(mask, img.height, img.width)
    ensures GridShaped(colour, img.height, img.width)
    ensures forall r, c :: 0 <= r < img.height && 0 <= c < img.width ==>
      && (mask[r][c] != 0 ==> colour[r][c] == img.pixels[r][c][..3])
      && (mask[r][c] == 0 ==> colour[r][c] == [0, 0, 0])
  {
    seq(img.height, r requires 0 <= r < img.height =>
      seq(img.width, c requires 0 <= c < img.width =>
        if mask[r][c] != 0 then img.pixels[r][c][..3] else [0, 0, 0]))
  }

  /** Line 72: `merge` of three colour channels and an alpha channel. */
  function Merge(colour: Grid<Pixel>, alpha: Grid<Byte>, height: nat, width: nat): (out: Raster)
    requires GridShaped(colour, height, width) && GridShaped(alpha, height, width)
    requires forall r, c :: 0 <= r < height && 0 <= c < width ==> |colour[r][c]| == 3
    ensures out.Shaped() && out.height == height && out.width == width && out.channels == 4
    ensures forall r, c :: 0 <= r < height && 0 <= c < width ==>
      out.pixels[r][c][..3] == colour[r][c] && out.pixels[r][c][3] == alpha[r][c]
  {
    Raster(height, width, 4,
      seq(height, r requires 0 <= r < height =>
        seq(width, c requires 0 <= c < width => colour[r][c] + [alpha[r][c]])))
  }

  /**
   * Lines 59-72 for a given mask: colour is kept where the mask is non-zero
   * and cleared elsewhere, and alpha is opaque exactly where the mask is 255.
   */
  function Composite(img: Raster, mask: Grid<Byte>): (out: Raster)
    requires img.Shaped() && img.channels >= 3 && GridShaped(mask, img.height, img.width)
    ensures out.Shaped() && out.height == img.height && out.width == img.width && out.channels == 4
    ensures forall r, c :: 0 <= r < img.height && 0 <= c < img.width ==>
      && out.pixels[r][c][..3] == (if mask[r][c] != 0 then img.pixels[r][c][..3] else [0, 0, 0])
      && out.pixels[r][c][3] == (if mask[r][c] == Foreground then Opaque else Transparent)
  {
    var out := Merge(MaskColour(img, mask), AlphaOf(mask), img.height, img.width);
    assert forall r, c :: 0 <= r < img.height && 0 <= c < img.width ==>
      out.pixels[r][c] == MaskColour(img, mask)[r][c] + [AlphaOf(mask)[r][c]];
    out
  }

  function Min(a: nat, b: nat): nat {
    if a <= b then a else b
  }

  /**
   * Line 77: `image[y:y + h, x:x + w]`. As with array slicing, the window is
   * clipped to the image, so the result never exceeds it; a rectangle inside
   * the image gives exactly h rows of w pixels.
   */
  function Crop(img: Raster, rect: Rect): (out: Raster)
    requires img.Shaped()
    ensures out.Shaped() && out.channels == img.channels
    ensures out.height <= img.height && out.width <= img.width
    ensures rect.y + rect.h <= img.height && rect.x + rect.w <= img.width ==>
      out.height == rect.h && out.width == rect.w
    ensures forall r, c :: 0 <= r < out.height && 0 <= c < out.width ==>
      rect.y + r < img.height && rect.x + c < img.width &&
      out.pixels[r][c] == img.pixels[rect.y + r][rect.x + c]
  {
    var top, bottom := Min(rect.y, img.height), Min(rect.y + rect.h, img.height);
    var left, right := Min(rect.x, img.width), Min(rect.x + rect.w, img.width);
    Raster(bottom - top, right - left, img.channels,
      seq(bottom - top, r requires 0 <= r < bottom - top =>
        seq(right - left, c requires 0 <= c < right - left => img.pixels[top + r][left + c])))
  }

  /**
   * `remove_black_background_to_transparent` (lines 13-79) as a function of
   * what the decoder and the image library return. An unreadable file gives
   * NotRead; a 2-D array fails at `image.shape[2]` and a channel count other
   * than 3 or 4 fails the BGRA to grey conversion; otherwise the result is an
   * image with four channels no larger than the input.
   */
  function RemoveBackgroundSpec(read: Option<Decoded>, cv: Vision): (out: Outcome)
    requires WellFormed(read)
    ensures out.NotRead? <==> read.None?
    ensures out.Raised? <==> read.Some? && (read.value.Planar? || read.value.raster.channels !in {3, 4})
    ensures out.Done? ==> out.image.Shaped() && out.image.channels == 4
    ensures out.Done? ==> out.image.height <= read.value.raster.height && out.image.width <= read.value.raster.width
  {
    match read
    case None => NotRead
    case Some(Planar(_)) => Raised
    case Some(Interleaved(raw)) =>
      if raw.channels != 3 && raw.channels != 4 then Raised
      else
        var image := ToBgra(raw);
        var contours := cv.findContours(Threshold(cv.toGrey(image)));
        if |contours| == 0 then Done(image)
        else
          var best := LargestContour(contours, cv.contourArea);
          var mask := FilledMask(image.height, image.width, cv.fills, best);
          Done(Crop(Composite(image, mask), cv.boundingRect(best)))
  }

  /**
   * The script's processing of one image, step by step: the mask and the
   * alpha channel are arrays filled in place, the rest whole-array operations.
   */
  method RemoveBlackBackground(read: Option<Decoded>, cv: Vision) returns (out: Outcome)
    requires WellFormed(read)
    ensures out == RemoveBackgroundSpec(read, cv)
  {
    if read.None? {
      return NotRead;
    }
    match read.value
    case Planar(_) =>
      out := Raised;
    case Interleaved(raw) =>
      if raw.channels != 3 && raw.channels != 4 {
        return Raised;
      }
      var image := ToBgra(raw);
      var grey := cv.toGrey(image);
      var thresh := Threshold(grey);
      var contours := cv.findContours(thresh);
      if |contours| == 0 {
        return Done(image);
      }
      var best := LargestContour(contours, cv.contourArea);
      var maskArray := DrawFilledMask(image.height, image.width, cv.fills, best);
      var mask := Snapshot(maskArray);
      var colour := MaskColour(image, mask);
      var alphaArray := AlphaChannel(maskArray);
      var final := Merge(colour, Snapshot(alphaArray), image.height, image.width);
      assert final == Composite(image, mask);
      out := Done(Crop(final, cv.boundingRect(best)));
  }

  /**
   * With no contour the promoted image is returned unchanged, so a 3-channel
   * input comes back fully opaque: nothing becomes transparent.
   */
  lemma NoContoursKeepsImage(raw: Raster, cv: Vision)
    requires raw.Shaped() && (raw.channels == 3 || raw.channels == 4)
    requires |cv.findContours(Threshold(cv.toGrey(ToBgra(raw))))| == 0
    ensures RemoveBackgroundSpec(Some(Interleaved(raw)), cv) == Done(ToBgra(raw))
    ensures raw.channels == 4 ==> RemoveBackgroundSpec(Some(Interleaved(raw)), cv) == Done(raw)
    ensures raw.channels == 3 ==> forall r, c :: 0 <= r < raw.height && 0 <= c < raw.width ==>
      ToBgra(raw).pixels[r][c] == raw.pixels[r][c] + [Opaque]
  {
    if raw.channels == 3 {
      var out := ToBgra(raw);
      forall r, c | 0 <= r < raw.height && 0 <= c < raw.width
        ensures out.pixels[r][c] == raw.pixels[r][c] + [Opaque]
      {
        assert out.pixels[r][c] == out.pixels[r][c][..3] + [out.pixels[r][c][3]];
      }
    }
  }

  /**
   * `out` is the window of `image` at `rect`: pixel (r, c) is pixel
   * (y + r, x + c) of `image` with an opaque alpha where the contour's filled
   * drawing paints it, and exactly (0, 0, 0, 0) everywhere else.
   */
  ghost predicate CutOut(out: Raster, image: Raster, fills: (Contour, nat, nat) -> bool, best: Contour, rect: Rect)
    requires image.Shaped() && image.channels == 4
  {
    forall r, c :: 0 <= r < out.height && 0 <= c < out.width ==>
      && rect.y + r < image.height && rect.x + c < image.width
      && |out.pixels| > r && |out.pixels[r]| > c
      && out.pixels[r][c] ==
           if fills(best, rect.y + r, rect.x + c)
           then image.pixels[rect.y + r][rect.x + c][..3] + [Opaque]
           else [0, 0, 0, Transparent]
  }

  /** One pixel of a masked, composited and cropped image. */
  lemma CutOutPixel(image: Raster, fills: (Contour, nat, nat) -> bool, best: Contour, rect: Rect, r: nat, c: nat)
    requires image.Shaped() && image.channels == 4
    requires
      var out := Crop(Composite(image, FilledMask(image.height, image.width, fills, best)), rect);
      r < out.height && c < out.width
    ensures rect.y + r < image.height && rect.x + c < image.width
    ensures Crop(Composite(image, FilledMask(image.height, image.width, fills, best)), rect).pixels[r][c] ==
      if fills(best, rect.y + r, rect.x + c)
      then image.pixels[rect.y + r][rect.x + c][..3] + [Opaque]
      else [0, 0, 0, Transparent]
  {
    var mask := FilledMask(image.height, image.width, fills, best);
    var final := Composite(image, mask);
    var sr, sc := rect.y + r, rect.x + c;
    var p := final.pixels[sr][sc];
    assert Crop(final, rect).pixels[r][c] == p;
    assert p == p[..3] + [p[3]];
    if fills(best, sr, sc) {
      assert mask[sr][sc] == Foreground;
      assert p[..3] == image.pixels[sr][sc][..3] && p[3] == Opaque;
    } else {
      assert mask[sr][sc] == 0;
      assert p[..3] == [0, 0, 0] && p[3] == Transparent;
    }
  }

  /** Masking with a contour's filled drawing and cropping give a cut-out. */
  lemma CroppedCompositeAt(image: Raster, fills: (Contour, nat, nat) -> bool, best: Contour, rect: Rect)
    requires image.Shaped() && image.channels == 4
    ensures CutOut(Crop(Composite(image, FilledMask(image.height, image.width, fills, best)), rect), image, fills, best, rect)
  {
    var out := Crop(Composite(image, FilledMask(image.height, image.width, fills, best)), rect);
    forall r, c | 0 <= r < out.height && 0 <= c < out.width
      ensures rect.y + r < image.height && rect.x + c < image.width
      ensures out.pixels[r][c] ==
        if fills(best, rect.y + r, rect.x + c)
        then image.pixels[rect.y + r][rect.x + c][..3] + [Opaque]
        else [0, 0, 0, Transparent]
    {
      CutOutPixel(image, fills, best, rect, r, c);
    }
  }

  /** The contour the script keeps: the first one of largest area. */
  function LargestContour(contours: seq<Contour>, area: Contour -> real): Contour
    requires |contours| > 0
  {
    contours[LargestContourIndex(contours, area)]
  }

  /**
   * With at least one contour, the output is the cut-out of the BGRA image
   * at the largest contour's bounding rectangle: the scan keeps its colour
   * and becomes opaque, and everything else is exactly (0, 0, 0, 0). The
   * output has h rows and w columns when the rectangle lies inside the image.
   */
  lemma ForegroundKeptBackgroundCleared(raw: Raster, cv: Vision, contours: seq<Contour>)
    requires raw.Shaped() && (raw.channels == 3 || raw.channels == 4)
    requires contours == cv.findContours(Threshold(cv.toGrey(ToBgra(raw)))) && |contours| > 0
    ensures RemoveBackgroundSpec(Some(Interleaved(raw)), cv).Done?
    ensures CutOut(RemoveBackgroundSpec(Some(Interleaved(raw)), cv).image, ToBgra(raw),
                   cv.fills, LargestContour(contours, cv.contourArea),
                   cv.boundingRect(LargestContour(contours, cv.contourArea)))
    ensures
      var rect := cv.boundingRect(LargestContour(contours, cv.contourArea));
      rect.y + rect.h <= raw.height && rect.x + rect.w <= raw.width ==>
        RemoveBackgroundSpec(Some(Interleaved(raw)), cv).image.height == rect.h &&
        RemoveBackgroundSpec(Some(Interleaved(raw)), cv).image.width == rect.w
  {
    var image := ToBgra(raw);
    var best := LargestContour(contours, cv.contourArea);
    var rect := cv.boundingRect(best);
    var out := Crop(Composite(image, FilledMask(image.height, image.width, cv.fills, best)), rect);
    assert RemoveBackgroundSpec(Some(Interleaved(raw)), cv) == Done(out);
    CroppedCompositeAt(image, cv.fills, best, rect);
  }

  /** Line 90: the output file name is the input name's root plus ".png". */
  function OutputName(name: string): (out: string)
    ensures EndsWith(out, ".png")
    ensures out[..|out| - 4] == SplitextRoot(name)
  {
    SplitextRoot(name) + ".png"
  }

  /** "stem.jpg" is saved as "stem.png": the last extension is replaced. */
  lemma OutputNameReplacesExtension(stem: string, ext: string)
    requires Sep !in stem && Sep !in ext && ExtSep !in ext
    requires HasNonDot(stem)
    ensures OutputName(stem + "." + ext) == stem + ".png"
  {
    SplitextRootExtension(stem, ext);
  }

  /** A name without a dot has ".png" appended. */
  lemma OutputNameAppendsWithoutExtension(name: string)
    requires ExtSep !in name
    ensures OutputName(name) == name + ".png"
  {
    SplitextRootNoDot(name);
  }

  /**
   * Leading dots do not start an extension: ".name" is saved as
   * ".name.png" and "....jpg" as "....jpg.png".
   */
  lemma OutputNameKeepsLeadingDots(dots: string, rest: string)
    requires |dots| > 0 && forall k :: 0 <= k < |dots| ==> dots[k] == ExtSep
    requires Sep !in rest && ExtSep !in rest
    ensures OutputName(dots + rest) == dots + rest + ".png"
  {
    SplitextRootLeadingDots(dots, rest);
  }

  /** One listing entry of the input folder, with what reading it gives. */
  datatype ImageEntry = ImageEntry(name: string, isFile: bool, read: Option<Decoded>)

  predicate EntriesWellFormed(entries: seq<ImageEntry>) {
    forall i :: 0 <= i < |entries| ==> WellFormed(entries[i].read)
  }

  /** A file whose processing produced an image, which the loop then writes. */
  predicate Written(entry: ImageEntry, cv: Vision)
    requires WellFormed(entry.read)
  {
    entry.isFile && RemoveBackgroundSpec(entry.read, cv).Done?
  }

  /** The output folder after the loop body for one entry. */
  function Save(folder: map<string, Raster>, entry: ImageEntry, cv: Vision): map<string, Raster>
    requires WellFormed(entry.read)
  {
    if Written(entry, cv) then folder[OutputName(entry.name) := RemoveBackgroundSpec(entry.read, cv).image]
    else folder
  }

  /** The output folder after the loop over `entries`, in listing order. */
  function SaveAll(folder: map<string, Raster>, entries: seq<ImageEntry>, cv: Vision): map<string, Raster>
    requires EntriesWellFormed(entries)
    decreases |entries|
  {
    if entries == [] then folder
    else Save(SaveAll(folder, entries[..|entries| - 1], cv), entries[|entries| - 1], cv)
  }

  /** The loop over one more entry is one more loop body. */
  lemma SaveAllStep(folder: map<string, Raster>, entries: seq<ImageEntry>, cv: Vision, i: nat)
    requires EntriesWellFormed(entries) && i < |entries|
    ensures EntriesWellFormed(entries[..i]) && EntriesWellFormed(entries[..i + 1])
    ensures SaveAll(folder, entries[..i + 1], cv) == Save(SaveAll(folder, entries[..i], cv), entries[i], cv)
  {
    assert entries[..i + 1][..i] == entries[..i];
  }

  /** The loop body for one entry writes exactly when the entry is a file processed into an image. */
  lemma SaveStep(folder: map<string, Raster>, entry: ImageEntry, cv: Vision)
    requires WellFormed(entry.read)
    ensures !Written(entry, cv) ==> Save(folder, entry, cv) == folder
    ensures Written(entry, cv) ==>
      Save(folder, entry, cv) == folder[OutputName(entry.name) := RemoveBackgroundSpec(entry.read, cv).image]
  {
  }

  /**
   * Lines 86-109: every listing entry that is a file is processed; an image
   * is written under its ".png" name (overwriting a file of that name), and
   * an unreadable file, a failure or a non-file writes nothing.
   */
  method ProcessFolder(entries: seq<ImageEntry>, cv: Vision, folder: map<string, Raster>)
    returns (saved: map<string, Raster>)
    requires EntriesWellFormed(entries)
    ensures saved == SaveAll(folder, entries, cv)
  {
    saved := folder;
    var i := 0;
    while i < |entries|
      invariant 0 <= i <= |entries|
      invariant EntriesWellFormed(entries[..i])
      invariant saved == SaveAll(folder, entries[..i], cv)
    {
      var entry := entries[i];
      SaveAllStep(folder, entries, cv, i);
      SaveStep(saved, entry, cv);
      if entry.isFile {
        var processed := RemoveBlackBackground(entry.read, cv);
        if processed.Done? {
          saved := saved[OutputName(entry.name) := processed.image];
        }
      }
      i := i + 1;
    }
    assert entries[..i] == entries;
  }

  /** The names the loop writes to. */
  function WrittenNames(entries: seq<ImageEntry>, cv: Vision): set<string>
    requires EntriesWellFormed(entries)
    decreases |entries|
  {
    if entries == [] then {}
    else
      var last := entries[|entries| - 1];
      WrittenNames(entries[..|entries| - 1], cv) + if Written(last, cv) then {OutputName(last.name)} else {}
  }

  lemma SaveKeys(folder: map<string, Raster>, entry: ImageEntry, cv: Vision)
    requires WellFormed(entry.read)
    ensures Save(folder, entry, cv).Keys == folder.Keys + (if Written(entry, cv) then {OutputName(entry.name)} else {})
  {
  }

  /**
   * The files in the output folder after the loop are those already there
   * plus the written names, and no other.
   */
  lemma {:induction false} SaveAllNames(folder: map<string, Raster>, entries: seq<ImageEntry>, cv: Vision)
    requires EntriesWellFormed(entries)
    ensures SaveAll(folder, entries, cv).Keys == folder.Keys + WrittenNames(entries, cv)
    decreases |entries|
  {
    if entries != [] {
      var init := entries[..|entries| - 1];
      SaveAllNames(folder, init, cv);
      SaveKeys(SaveAll(folder, init, cv), entries[|entries| - 1], cv);
    }
  }

  /** The loop writes `entry` under `name`. */
  predicate WritesAs(entry: ImageEntry, cv: Vision, name: string)
    requires WellFormed(entry.read)
  {
    Written(entry, cv) && OutputName(entry.name) == name
  }

  /** A name is written exactly when some file of the listing is written under it. */
  lemma {:induction false} WrittenNamesExactly(entries: seq<ImageEntry>, cv: Vision, name: string)
    requires EntriesWellFormed(entries)
    ensures name in WrittenNames(entries, cv) <==> exists i :: 0 <= i < |entries| && WritesAs(entries[i], cv, name)
    decreases |entries|
  {
    if entries != [] {
      var init := entries[..|entries| - 1];
      var last := entries[|entries| - 1];
      WrittenNamesExactly(init, cv, name);
      assert forall i :: 0 <= i < |init| ==> init[i] == entries[i];
      assert name in WrittenNames(entries, cv) <==> name in WrittenNames(init, cv) || WritesAs(last, cv, name);
    }
  }

  /** What `name` holds after the loop body for one entry. */
  lemma SaveAt(folder: map<string, Raster>, entry: ImageEntry, cv: Vision, name: string)
    requires WellFormed(entry.read)
    ensures WritesAs(entry, cv, name) ==>
      name in Save(folder, entry, cv) && Save(folder, entry, cv)[name] == RemoveBackgroundSpec(entry.read, cv).image
    ensures !WritesAs(entry, cv, name) ==>
      (name in Save(folder, entry, cv) <==> name in folder) &&
      (name in folder ==> Save(folder, entry, cv)[name] == folder[name])
  {
  }

  /**
   * A name no listing file is written under keeps what the output folder
   * held before the loop, and stays absent if it was absent.
   */
  lemma {:induction false} SaveAllKeepsUnwritten(folder: map<string, Raster>, entries: seq<ImageEntry>, cv: Vision, name: string)
    requires EntriesWellFormed(entries)
    requires forall i :: 0 <= i < |entries| ==> !WritesAs(entries[i], cv, name)
    ensures name in SaveAll(folder, entries, cv) <==> name in folder
    ensures name in folder ==> SaveAll(folder, entries, cv)[name] == folder[name]
    decreases |entries|
  {
    if entries != [] {
      var n := |entries| - 1;
      var init := entries[..n];
      assert forall i :: 0 <= i < n ==> init[i] == entries[i];
      SaveAllKeepsUnwritten(folder, init, cv, name);
      SaveAt(SaveAll(folder, init, cv), entries[n], cv, name);
    }
  }

  /**
   * A written name holds the image of the last listing file written under
   * it: a later file with the same root overwrites an earlier one.
   */
  lemma {:induction false} SaveAllHoldsLastWrite(folder: map<string, Raster>, entries: seq<ImageEntry>, cv: Vision, i: nat, name: string)
    requires EntriesWellFormed(entries) && i < |entries|
    requires WritesAs(entries[i], cv, name)
    requires forall j :: i < j < |entries| ==> !WritesAs(entries[j], cv, name)
    ensures name in SaveAll(folder, entries, cv)
    ensures SaveAll(folder, entries, cv)[name] == RemoveBackgroundSpec(entries[i].read, cv).image
    decreases |entries|
  {
    var n := |entries| - 1;
    var init := entries[..n];
    assert entries[..n + 1] == entries;
    SaveAllStep(folder, entries, cv, n);
    SaveAt(SaveAll(folder, init, cv), entries[n], cv, name);
    if i < n {
      forall j | i < j < n ensures !WritesAs(init[j], cv, name) {
        assert init[j] == entries[j];
      }
      assert init[i] == entries[i];
      SaveAllHoldsLastWrite(folder, init, cv, i, name);
    }
  }

  /** Every file the loop adds to the output folder has a ".png" name. */
  lemma NewFilesArePng(folder: map<string, Raster>, entries: seq<ImageEntry>, cv: Vision)
    requires EntriesWellFormed(entries)
    ensures forall name :: name in SaveAll(folder, entries, cv) && name !in folder ==> EndsWith(name, ".png")
  {
    SaveAllNames(folder, entries, cv);
    forall name | name in SaveAll(folder, entries, cv) && name !in folder
      ensures EndsWith(name, ".png")
    {
      WrittenNamesExactly(entries, cv, name);
    }
  }
}
