/** One pass of the host's main loop, without the serial read and the
    rendering: a frame's bytes become the ambient temperature, the frame's
    range and the grey image scaled to that range. */
module Pipeline {
  import opened Wire
  import opened Results
  import Frame
  import Image

  /** What the loop hands to the renderer for one frame. */
  datatype View = View(ambient: uint16, tmin: int16, tmax: int16, image: seq<seq<uint8>>)

  /** The scaling divides by the frame's range, so a frame long enough to
      decode must have some pixel whose two bytes differ from those of
      pixel 0. */
  predicate HasRange(d: seq<uint8>)
  {
    |d| >= Frame.AmbientAt + 2 ==>
      exists i :: 0 < i < Frame.PixelCount && PixelBytes(d, i) != PixelBytes(d, 0)
  }

  /** The two bytes of pixel `i`. */
  function PixelBytes(d: seq<uint8>, i: int): (uint8, uint8)
    requires |d| >= Frame.AmbientAt + 2 && 0 <= i < Frame.PixelCount
  {
    (d[Frame.PixelStart + 2 * i], d[Frame.PixelStart + 2 * i + 1])
  }

  /** The centi-degree value of pixel `i`, read straight from the bytes. */
  function Sample(d: seq<uint8>, i: int): int16
    requires |d| >= Frame.AmbientAt + 2 && 0 <= i < Frame.PixelCount
  {
    I16Le(PixelBytes(d, i).0, PixelBytes(d, i).1)
  }

  /** A decodable frame has a range exactly when its extrema differ. */
  lemma DistinctExtrema(d: seq<uint8>)
    requires |d| >= Frame.AmbientAt + 2
    ensures HasRange(d) <==> Frame.GetTempArray(d).value.tmin < Frame.GetTempArray(d).value.tmax
  {
    var t := Frame.GetTempArray(d).value;
    Frame.UniformIffEmptyRange(d);
    assert forall k :: 0 <= k < Frame.PixelCount ==> t.samples[k] == Sample(d, k);
    if HasRange(d) {
      var i :| 0 < i < Frame.PixelCount && PixelBytes(d, i) != PixelBytes(d, 0);
      I16BytesRoundTrip(PixelBytes(d, i).0, PixelBytes(d, i).1);
      I16BytesRoundTrip(PixelBytes(d, 0).0, PixelBytes(d, 0).1);
      assert t.samples[i] != t.samples[0];
    }
    if t.tmin < t.tmax {
      var i :| 0 <= i < Frame.PixelCount && t.samples[i] != t.samples[0];
      assert PixelBytes(d, i) != PixelBytes(d, 0);
    }
  }

  /** Decodes a frame and scales its pixels to the frame's own extrema. */
  function ProcessFrame(d: seq<uint8>): (r: Result<View, Frame.FrameError>)
    requires HasRange(d)
    ensures r.Failure? <==> |d| < Frame.AmbientAt + 2
    ensures r.Success? ==> Image.IsGrid(r.value.image)
    ensures r.Success? ==> r.value.tmin < r.value.tmax
    ensures r.Success? ==>
      var t := Frame.GetTempArray(d).value;
      && r.value.tmin == t.tmin && r.value.tmax == t.tmax && r.value.ambient == t.ambient
      && Image.Castable(t.samples, Frame.Celsius(t.tmin), Frame.Celsius(t.tmax))
      && r.value.image == Image.TdToImage(t.samples, Frame.Celsius(t.tmin), Frame.Celsius(t.tmax))
  {
    match Frame.GetTempArray(d)
    case Failure(e) => Failure(e)
    case Success(t) =>
      DistinctExtrema(d);
      Image.ExtremaCastable(t.samples, t.tmin, t.tmax);
      Success(View(t.ambient, t.tmin, t.tmax, Image.TdToImage(t.samples, Frame.Celsius(t.tmin), Frame.Celsius(t.tmax))))
  }

  /** Cell (r, c) of the image is pixel `32 * r + c` of the frame, scaled in
      integer arithmetic: `(v - tmin) * 255 / (tmax - tmin)`. */
  lemma ImageCells(d: seq<uint8>, r: int, c: int)
    requires HasRange(d) && |d| >= Frame.AmbientAt + 2
    requires 0 <= r < Image.Rows && 0 <= c < Image.Cols
    ensures var v := ProcessFrame(d).value;
      v.image[r][c] == Image.ScaleCenti(Sample(d, Image.Cols * r + c), v.tmin, v.tmax)
  {
    var t := Frame.GetTempArray(d).value;
    DistinctExtrema(d);
    var i := Image.Cols * r + c;
    assert t.samples[i] == Sample(d, i);
    Image.ImageCell(t.samples, t.tmin, t.tmax, r, c);
    var v := ProcessFrame(d).value;
    assert v.tmin == t.tmin && v.tmax == t.tmax;
    assert v.image == Image.TdToImage(t.samples, Frame.Celsius(t.tmin), Frame.Celsius(t.tmax));
  }

  /** The coldest pixel of a frame maps to 0 and the warmest to 255. */
  lemma ImageSpansFullScale(d: seq<uint8>)
    requires HasRange(d) && |d| >= Frame.AmbientAt + 2
    ensures var img := ProcessFrame(d).value.image;
      && (exists r, c :: 0 <= r < Image.Rows && 0 <= c < Image.Cols && img[r][c] == 0)
      && (exists r, c :: 0 <= r < Image.Rows && 0 <= c < Image.Cols && img[r][c] == 255)
  {
    var t := Frame.GetTempArray(d).value;
    DistinctExtrema(d);
    Image.ImageSpansFullScale(t.samples, t.tmin, t.tmax);
  }

  /** A warmer pixel never gets a darker cell than a colder one. */
  lemma ImageMonotone(d: seq<uint8>, r1: int, c1: int, r2: int, c2: int)
    requires HasRange(d) && |d| >= Frame.AmbientAt + 2
    requires 0 <= r1 < Image.Rows && 0 <= c1 < Image.Cols
    requires 0 <= r2 < Image.Rows && 0 <= c2 < Image.Cols
    requires Sample(d, Image.Cols * r1 + c1) <= Sample(d, Image.Cols * r2 + c2)
    ensures var img := ProcessFrame(d).value.image;
      img[r1][c1] <= img[r2][c2]
  {
    var t := Frame.GetTempArray(d).value;
    DistinctExtrema(d);
    var i, j := Image.Cols * r1 + c1, Image.Cols * r2 + c2;
    assert t.samples[i] == Sample(d, i) && t.samples[j] == Sample(d, j);
    Image.ImageMonotone(t.samples, t.tmin, t.tmax, r1, c1, r2, c2);
  }
}
