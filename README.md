# Local white-background removal of the AI assistant's image generator

The `Generator` class of the Foundry VTT AI assistant can make the white background of a
generated sprite transparent without any remote service. `removeWhiteBackground` draws the
PNG on a canvas and reads back the RGBA byte buffer. It then walks the buffer four bytes at a
time. Every pixel whose red, green and blue bytes are all strictly above 220 is overwritten
with (255, 255, 255, 0). Last, it re-encodes the canvas as a data URL and drops the
`data:image/png;base64,` header by position.

This project models those two steps in one Dafny module, `Generator` (`generator.dfy`):

- `byte`, `Rgba`, `WhiteThreshold` and `Transparent` are the buffer bytes, one pixel, the
  threshold 220 and the replacement colour.
- `Recolour` is the pure specification of the pass over a whole buffer. It works pixel by
  pixel from the front. `RemoveWhitePixels` is the source's in-place loop over an `array<byte>`. Its
  postcondition ties the new array contents to `Recolour` of the old contents. The lemmas
  state what the pass promises: the length is kept, white pixels become transparent, other
  pixels keep every byte, the threshold is strict, pixels are independent, and the pass is
  idempotent.
- `StripDataUrlPrefix` is the `substring` that removes the header. `DataUrl` is how the
  input image source is built, with the same header. The lemmas about them give the round
  trip and show that the header is never checked.

Some descriptions of the wider system call this local thresholding superseded by a remote
background-removal call. The code still has it as the body of `removeWhiteBackground`, and
the model follows the code.

## Model

| member | source | states |
|---|---|---|
| `Generator.Recolour` | scripts/generator.js:150-157 | the pass keeps the buffer length: it only writes bytes of existing pixels |
| `Generator.RemoveWhitePixels` | scripts/generator.js:146-157 | the in-place loop, stepping by 4 over a buffer of whole pixels, leaves the array equal to `Recolour` of its old contents |
| `Generator.RecolourAppend` | scripts/generator.js:150-156 | pixels are independent: recolouring a buffer split at a pixel boundary equals recolouring its two parts and joining them |
| `Generator.RecolourPixelAt` | scripts/generator.js:150-156 | the k-th pixel of the result depends only on the k-th pixel of the input, via the one-pixel rule |
| `Generator.WhitePixelBecomesTransparent` | scripts/generator.js:146-155 | a pixel with R, G and B all above 220 ends up exactly (255, 255, 255, 0); its original alpha is not constrained, so it plays no part |
| `Generator.OtherPixelUnchanged` | scripts/generator.js:151 | a pixel with at least one of R, G, B at most 220 keeps all four bytes, alpha included |
| `Generator.ThresholdIsStrict` | scripts/generator.js:149-151 | a pixel (220, 255, 255, a) is left as (220, 255, 255, a) |
| `Generator.RecolourByteAt` | scripts/generator.js:150-157 | byte j of pixel k in the result is byte j of the transparent colour when that pixel is white, and the input byte otherwise: no other byte is touched |
| `Generator.RecolourIdempotent` | scripts/generator.js:146-157 | applying the pass twice gives the same buffer as applying it once |
| `Generator.StripDataUrlPrefix` | scripts/generator.js:164-165 | the result is the input without its first 22 characters, or empty when the input is shorter |
| `Generator.StripRestoresWithPrefix` | scripts/generator.js:164-165 | when the input does start with `data:image/png;base64,`, that prefix followed by the result is the input |
| `Generator.StripDataUrlRoundTrip` | scripts/generator.js:164-165 | stripping a data URL built as header + base64 (line 129) gives back the base64 data |
| `Generator.StripDoesNotCheckPrefix` | scripts/generator.js:164-165 | the header is removed by length alone: a `data:image/jpeg;base64,` URL keeps its trailing comma |

## Left out

- Loading the base64 image into an `Image`, waiting for `onload`, drawing it on a canvas, `getImageData`, `putImageData`, `toDataURL` and `canvas.remove()` (scripts/generator.js:128-143, 160-161, 168). These are browser calls and asynchronous I/O. The model takes the pixel buffer and the encoded data URL as inputs.
- RemoveWhitePixels: requires a buffer length that is a multiple of 4. The canvas always supplies width * height * 4 bytes, so a trailing partial pixel never occurs.
- The values a buffer can hold are 0..255 (the `byte` type). The clamping done by the canvas's byte array on writes is not modelled, because the loop only writes 255 and 0.
- `generateNPC` (scripts/generator.js:21-58) sends a fixed prompt to a remote language model and returns whatever it parses. No logic there can be checked.
- The `Generator` constructor (scripts/generator.js:8-18) reads the host's settings.
- `generateImage` (scripts/generator.js:121-124) only passes the call on to the network client.
- `generateItem`, `generateLocation`, `generateQuest`, `generateDungeon`, `generateEncounter`, `generateTrap`, `generatePuzzle` and `generateSprite` (scripts/generator.js:89-119) are empty.
- scripts/textGenerator.js is an HTTP request to a completion service plus `JSON.parse`. scripts/imageGenerator.js is an HTTP request to an image-synthesis server. scripts/aiAssistant.js is UI wiring through the host's APIs. All three are left out.
- Folder lookup-or-create, encounter expansion, sub-entity attachment and remote background removal do not appear in the source files listed above. They are not part of this model.
