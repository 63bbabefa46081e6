# GY-MCU90640 thermal camera: frame decoder and normaliser

A Dafny model of the logic core of a small host program for the
GY-MCU90640 thermal sensor module (an MLX90640 32×24 infrared array behind
a serial bridge). The host sends four-byte command packets, reads
1544-byte frames, and turns each frame into:

- the ambient temperature, an unsigned little-endian word at bytes
  1540..1541, in hundredths of a degree Celsius;
- 768 pixel temperatures, signed little-endian words at bytes 4..1539,
  also in hundredths of a degree;
- the frame's coldest and warmest pixel;
- an 8-bit grey image of 24 rows by 32 columns. Each pixel is scaled
  linearly from the frame's own range onto 0..255 and truncated.

Modules:

- `Wire` (`wire.dfy`): octets, 16-bit words, little-endian word decoding
  and encoding, and decoding of a byte block into words.
- `Command` (`command.dfy`): command packets `[A5, opcode, payload,
  checksum]`, the four commands the program writes and the commented-out
  baud-rate command, and the emissivity reply.
- `Extrema` (`extrema.dfy`): minimum and maximum of a non-empty sequence.
- `Frame` (`frame.dfy`): `GetTempArray`, the decoding of one frame.
- `Image` (`image.dfy`): `TdToImage`, the scaling to bytes and the
  row-major reshape.
- `Pipeline` (`pipeline.dfy`): one pass of the main loop, from frame bytes
  to image. Reading the link and displaying the image are left out.
- `Results` (`results.dfy`): `Option` and `Result`.

Arithmetic is exact. The source divides in floating point and casts to
`uint8`. The model divides on reals and truncates with `.Floor`. With the
range set to the frame's own extrema, that value equals
`(v - tmin) * 255 / (tmax - tmin)` in integer division (`Image.PixelCenti`).

The model follows the code:

- A frame buffer is rejected only when it is too short to hold the
  ambient word (fewer than 1542 bytes). Line 16 of `main.py` indexes byte
  1541, and nothing else depends on the length. A buffer of 1542 or 1543
  bytes decodes normally.
- Nothing is clamped, and there is no policy for a uniform frame. The code
  divides by `Tmax - Tmin` and casts without clamping. So the model requires
  a non-zero range and a scaled value that a byte can hold. It then proves
  that, whenever they differ, a frame's own extrema meet that requirement
  (`Image.ExtremaCastable`, `Pipeline.DistinctExtrema`).
- Emissivity is the reply's third byte divided by 100. That value lies in
  0..2.55.

## Model

| member | source | states |
|---|---|---|
| Wire.U16Le | main.py:16 | the ambient word is `lo + 256*hi`: its low byte is `lo` and its high byte is `hi`, so the value lies in 0..65535 |
| Wire.U16RoundTrip | main.py:16 | decoding the little-endian bytes of any unsigned word returns the word |
| Wire.I16Le | main.py:20 | a pixel word is the two's-complement value of `lo + 256*hi`: congruent to it modulo 2^16, in −32768..32767, and negative exactly when the high byte's top bit is set |
| Wire.I16RoundTrip | main.py:20 | decoding the little-endian bytes of any int16 returns it (decode is a left inverse of encode) |
| Wire.I16BytesRoundTrip | main.py:20 | encoding a decoded int16 returns the original two bytes, so no byte pair is lost or merged |
| Wire.DecodeI16s | main.py:19-20 | reinterpreting an even-length block yields half as many int16 words |
| Wire.DecodeI16sAt | main.py:19-20 | word `i` of the decoded block is the signed little-endian value of bytes `2i` and `2i+1` |
| Wire.DecodeEncode | main.py:20 | decoding the encoding of any word sequence gives it back |
| Wire.EncodeDecode | main.py:19-20 | an even-length block is exactly the encoding of the words it decodes to |
| Extrema.Min | main.py:22 | the minimum is an element of the samples and no sample is smaller |
| Extrema.Max | main.py:23 | the maximum is an element of the samples and no sample is larger |
| Extrema.MinMax | main.py:22-23 | an alternative one-pass implementation of the separate `min` and `max` calls, proved to return exactly `Min` and `Max`: each result occurs in the samples and bounds every sample |
| Extrema.MinEqualsMaxIffConstant | main.py:22-23 | the minimum equals the maximum if and only if all samples are equal |
| Frame.GetTempArray | main.py:13-25 | fails exactly when the buffer is too short to index byte 1541; otherwise it returns 768 samples, sample `i` being the int16 of bytes `4+2i`, `5+2i`; the ambient word from bytes 1540..1541; and Tmin/Tmax that occur among the samples and bound all of them |
| Frame.AmbientCelsius | main.py:16 | the ambient temperature in degrees is the centi-degree word over 100, so it lies in 0..655.35 |
| Frame.Celsius | main.py:64 | dividing by 100 turns hundredths of a degree into degrees: the result times 100 is the input (also the `f/100` of main.py:29) |
| Frame.UniformIffEmptyRange | main.py:22-23 | a decoded frame has Tmin == Tmax if and only if every pixel has the same value |
| Frame.SamplesReencode | main.py:19-20 | re-encoding the decoded samples gives back bytes 4..1539 of the frame |
| Frame.DecodeExample | main.py:16-20 | ambient bytes 0x10 0x27 read as 100.00 °C, and pixel bytes 0x9C 0xFF read as −1.00 °C |
| Command.PacketOf | main.py:8-86 | each command's opcode and payload as written in the literals, and the command can be read back from them |
| Command.Checksum | main.py:8 | the fourth byte is the one congruent to 0xA5 + opcode + payload modulo 256, the rule that every literal at main.py:8, 43, 50, 54 and 86 follows |
| Command.Encode | main.py:8 | every packet written starts with 0xA5, carries the opcode and payload, and ends with the sum of the first three bytes modulo 256 |
| Command.Parse | main.py:8 | recogniser of the packet format that the literal at main.py:8 and the other command literals follow, and partner of Encode: four bytes parse to a packet if and only if they have the header and a correct checksum |
| Command.ParseEncode | main.py:8 | parsing an encoded packet returns the same opcode and payload |
| Command.EncodeParse | main.py:8 | every well-formed four-byte packet is the encoding of what it parses to |
| Command.QueryEmissivityLiteral | main.py:8 | the emissivity query A5 55 01 FB is the encoding of opcode 0x55 with payload 0x01 |
| Command.SetBaudLiteral | main.py:43 | the disabled baud-rate command A5 15 03 BD is the encoding of opcode 0x15 with payload 0x03 |
| Command.StartupLiterals | main.py:50-54 | the 8 Hz rate command A5 25 04 CE and the start command A5 35 02 DC are the encodings of their opcode and payload |
| Command.StopStreamingLiteral | main.py:86 | the stop command A5 35 01 DB is the encoding of opcode 0x35 with payload 0x01 |
| Command.PacketsDistinct | main.py:54-86 | different commands never share wire bytes, including start and stop, which share an opcode |
| Command.Emissivity | main.py:9-10 | a reply of at least three bytes yields its third byte over 100, a value in 0..2.55; a shorter reply yields no value |
| Image.Reshape | main.py:30 | the reshaped grid has 24 rows of 32 cells, and cell (r, c) is element `32r + c` |
| Image.FlattenReshape | main.py:30 | concatenating the rows of the reshaped grid gives back the flat sequence |
| Image.ReshapeFlatten | main.py:30 | reshaping the concatenated rows of any 24×32 grid gives back the grid |
| Image.Scaled | main.py:29 | the value before the cast: multiplied by `Tmax − Tmin` it gives `(v/100 − Tmin) * 255`, in exact arithmetic |
| Image.Pixel | main.py:29 | the byte for a sample is the truncation of `(v/100 − Tmin) * 255 / (Tmax − Tmin)`: at most that value and more than that value minus one |
| Image.TdToImage | main.py:28-31 | the image is a 24×32 grid whose cell (r, c) is the truncated scaled value of sample `32r + c` |
| Image.ScaledCenti | main.py:29 | with Tmin, Tmax given as centi-degrees over 100, the scaled value is `(v − lo) * 255 / (hi − lo)` in exact arithmetic |
| Image.PixelCenti | main.py:29 | for `lo <= v <= hi`, the scaled value lies in 0..255, and the byte is `(v − lo) * 255 / (hi − lo)` in integer division |
| Image.ExtremaCastable | main.py:29 | when the range is the samples' own extrema, every scaled sample fits in a byte |
| Image.PixelMonotone | main.py:29 | scaling preserves order: `a <= b` implies `byte(a) <= byte(b)` |
| Image.PixelEndpoints | main.py:29 | in exact arithmetic, a sample equal to Tmin maps to 0 and one equal to Tmax maps to 255 |
| Image.ImageCell | main.py:28-31 | with the samples' own extrema, cell (r, c) is `(f[32r + c] − lo) * 255 / (hi − lo)` |
| Image.ImageMonotone | main.py:28-31 | with the samples' own extrema, a warmer sample never gets a darker cell |
| Image.ImageSpansFullScale | main.py:28-31 | in exact arithmetic, with the samples' own extrema, some cell is 0 and some cell is 255 |
| Pipeline.ProcessFrame | main.py:60-64 | a frame fails to decode exactly when it is shorter than 1542 bytes; otherwise the view carries the decoded ambient word, a range with Tmin < Tmax, and the 24×32 image scaled to that range |
| Pipeline.DistinctExtrema | main.py:22-23 | a decodable frame has some pixel whose two bytes differ from pixel 0's if and only if its Tmin < Tmax |
| Pipeline.ImageCells | main.py:63-64 | image cell (r, c) is `(s − Tmin) * 255 / (Tmax − Tmin)`, where `s` is the int16 at frame bytes `4 + 2(32r + c)` and the next byte |
| Pipeline.ImageSpansFullScale | main.py:63-64 | in exact arithmetic, the coldest pixel of a frame becomes 0 and the warmest becomes 255 |
| Pipeline.ImageMonotone | main.py:63-64 | a pixel at least as warm as another gets a cell at least as bright |

## Left out

- Serial I/O: opening the port, `write`, blocking `read` and `close`, and the delays (main.py:8-9, 39, 50-60, 86-87, 92). Only the bytes are modelled. A frame is an input sequence, and a reply is an input sequence.
- Rendering and the GUI, all of them OpenCV calls: colour map, resize, flip, text overlay, window, key polling, image saving and closing windows (main.py:67-79, 88, 93). They are library calls.
- The timestamped file name and the frames-per-second figure (main.py:71, 78). They depend on the clock and on float formatting.
- The keyboard-interrupt shutdown path (main.py:84-89). It is process and signal control. The bytes of the stop command it sends are modelled.
- IEEE floating point in `f/100` and in the scaling (main.py:29). The model uses exact real arithmetic, so rounding near a whole byte value is not reproduced.
- Image.Pixel: requires a scaled value in [0, 256). The `uint8` cast of a float outside that range (main.py:29) depends on the platform. That includes truncating values in (−1, 0) to 0.
- Pipeline.ProcessFrame: requires that a frame long enough to decode has some pixel whose bytes differ from pixel 0's, which is equivalent to Tmax ≠ Tmin. The source divides by zero on a uniform frame and then casts NaN. The model does not invent a value for that case.
- Image.TdToImage: requires exactly 768 samples. The reshape at main.py:30 raises an error for any other count, and its only caller always passes 768. It also requires a non-zero range, and every scaled value must fit a byte, as for Image.Pixel.
- Native byte order of the typed-array reinterpretation (main.py:20). Little-endian is modelled explicitly.
- The initial globals `Tmax = 0`, `Tmin = 500` (main.py:35-36). Line 63 overwrites them on every frame, so no state carries across frames.
- Extrema.Min and Extrema.Max: require a non-empty sequence. Taking the minimum of an empty array raises an error, and a decoded frame always has 768 samples.
