/** Decoding of one raw sensor frame into pixel temperatures, the frame's
    temperature range, and the ambient temperature. All temperatures are
    in hundredths of a degree Celsius. */
module Frame {
  import opened Wire
  import opened Results
  import Extrema

  /** Bytes the host reads from the link per frame. */
  const FrameSize := 1544
  /** Offset of the first pixel sample (the four bytes before it are a header). */
  const PixelStart := 4
  /** Offset of the ambient-temperature word, just past the pixel block. */
  const AmbientAt := 1540
  /** Number of pixel samples in a frame (24 rows of 32). */
  const PixelCount := 768

  /** Why a frame could not be decoded. */
  datatype FrameError = MalformedFrame

  /** What the decoder extracts from one frame. */
  datatype TempArray = TempArray(tmin: int16, tmax: int16, ambient: uint16, samples: seq<int16>)

  /** The pixel samples of a frame span its extrema and reach both. */
  ghost predicate Valid(t: TempArray)
  {
    && |t.samples| == PixelCount
    && t.tmin in t.samples
    && t.tmax in t.samples
    && forall i :: 0 <= i < |t.samples| ==> t.tmin <= t.samples[i] <= t.tmax
  }

  /** Decodes the bytes returned by one frame read. The buffer must reach
      past the ambient word; a shorter buffer is rejected. */
  function GetTempArray(d: seq<uint8>): (r: Result<TempArray, FrameError>)
    ensures r.Failure? <==> |d| < AmbientAt + 2
    ensures r.Success? ==> Valid(r.value)
    ensures r.Success? ==> r.value.ambient == d[AmbientAt] as int + 0x100 * d[AmbientAt + 1] as int
    ensures r.Success? ==>
      forall i :: 0 <= i < PixelCount ==>
        r.value.samples[i] == I16Le(d[PixelStart + 2 * i], d[PixelStart + 2 * i + 1])
  {
    if |d| < AmbientAt + 2 then Failure(MalformedFrame)
    else
      var block := d[PixelStart..AmbientAt];
      var samples := DecodeI16s(block);
      assert forall i :: 0 <= i < PixelCount ==>
        samples[i] == I16Le(d[PixelStart + 2 * i], d[PixelStart + 2 * i + 1]) by {
        forall i | 0 <= i < PixelCount
          ensures samples[i] == I16Le(d[PixelStart + 2 * i], d[PixelStart + 2 * i + 1])
        {
          DecodeI16sAt(block, i);
        }
      }
      Success(TempArray(Extrema.Min(samples), Extrema.Max(samples), U16Le(d[AmbientAt], d[AmbientAt + 1]), samples))
  }

  /** The ambient temperature in degrees Celsius. */
  function AmbientCelsius(t: TempArray): (c: real)
    ensures 0.0 <= c <= 655.35
    ensures c * 100.0 == t.ambient as real
  {
    t.ambient as real / 100.0
  }

  /** A temperature in hundredths of a degree, in degrees Celsius. */
  function Celsius(v: int): (c: real)
    ensures c * 100.0 == v as real
  {
    v as real / 100.0
  }

  /** The frame's range collapses to a single value exactly when every
      pixel reads the same temperature. */
  lemma UniformIffEmptyRange(d: seq<uint8>)
    requires GetTempArray(d).Success?
    ensures var t := GetTempArray(d).value;
      t.tmin == t.tmax <==> forall i :: 0 <= i < PixelCount ==> t.samples[i] == t.samples[0]
  {
    var t := GetTempArray(d).value;
    Extrema.MinEqualsMaxIffConstant(t.samples);
  }

  /** The decoded pixel block, re-encoded, is the pixel block of the frame. */
  lemma SamplesReencode(d: seq<uint8>)
    requires GetTempArray(d).Success?
    ensures EncodeI16s(GetTempArray(d).value.samples) == d[PixelStart..AmbientAt]
  {
    EncodeDecode(d[PixelStart..AmbientAt]);
  }

  /** Bytes 0x10, 0x27 in the ambient field read as 100.00 degrees, and
      bytes 0x9C, 0xFF in the first pixel read as -1.00 degrees. */
  lemma DecodeExample(d: seq<uint8>)
    requires |d| == FrameSize
    requires d[AmbientAt] == 0x10 && d[AmbientAt + 1] == 0x27
    requires d[PixelStart] == 0x9C && d[PixelStart + 1] == 0xFF
    ensures GetTempArray(d).Success?
    ensures AmbientCelsius(GetTempArray(d).value) == 100.0
    ensures Celsius(GetTempArray(d).value.samples[0]) == -1.0
  {
    assert I16Le(0x9C, 0xFF) == -100;
  }
}
