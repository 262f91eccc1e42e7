# WD7-ZipToCws converter, modelled in Dafny

WD7-ZipToCws turns the archive a resin-printer slicer writes into the `.cws` archive
another printer's firmware reads. The input archive holds `run.gcode` and one
image per layer (`1.png`, `2.png`, ...). The output archive holds:

- `1.gcode`, a new G-code program. Its header carries the slicer's comment block.
  It has one block per layer, with exposure, light-off, lift and drop timings, and
  a fixed footer.
- `manifest.xml`, which names the program and lists one `sliceNNNN.png` per layer.
- The layer images, re-encoded as 32-bit PNG and renamed `slice0000.png`,
  `slice0001.png`, ....

The model covers the translation logic of `Program.cs`:

- Parameter lookup. Keys such as `;layerHeight:` are read out of `run.gcode`. The
  first line that holds the key wins, the value is the text after that line's first
  colon, and a missing key gives 0.
- The comment passthrough. Every line before the `;START_GCODE_BEGIN` marker is
  re-prefixed with `;*`.
- The per-layer plan. A layer is a bottom layer when its index is below the
  bottom-layer count. Its drop height is its lift height less the layer height. Its
  drop speed is always the normal drop speed.
- The text of the G-code program and of the manifest.
- The run itself: the empty-file and zero-layer checks, and the loop that copies
  image `i.png` to `slice{i-1:0000}.png`.

Each loop of the source is a method with loop invariants. Each method is proved
equal to a specification function, and lemmas state the promised properties about
those functions.

Files, one module each:

- `common.dfy`: archive entry names, `Option`/`Result`, and the ways a run stops.
- `text.dfy`: ordinal `Contains`, `IndexOf`, decimal digits, zero padding and trimming.
- `numbers.dfy`: `int.Parse`, and doubles as exact decimals with `double.Parse`,
  `double.ToString()`, subtraction and `Convert.ToInt32(x * 1000)`.
- `parameters.dfy`: the two lookups and the comment section.
- `gcode.dfy`: the settings, the layer plan and `CreateGcodeFileData`.
- `manifest.dfy`: slice names and `CreateManifestFileData`.
- `program.dfy`: the body of `Main` after `run.gcode` has been read, including the copy loop.

Exceptions the program does not catch become `Err` values naming the cause:

- `int.Parse` or `double.Parse` rejecting the text;
- `Convert.ToInt32` overflowing;
- `Substring(1)` on an empty comment line;
- `new Bitmap` on an image that does not decode.

The explicit `Environment.Exit` checks are `Err` values too.

Three consequences of the code are worth stating:

- A negative `;totalLayer:` is not rejected; only 0 is. The run then writes both
  texts without any layer and copies no image (`NegativeLayerCountKeepsTextOnly`).
- A slice image that is missing is skipped. One that is present but cannot be
  decoded stops the run, because the exception thrown while re-encoding it is not
  caught.
- The checks that the generated texts are not empty can never fire
  (`GeneratedTextsNotEmpty`), so they have no counterpart in the model.

## Model

| member | source | states |
|---|---|---|
| `Text.ContainsOccurs` | Program.cs:311 | The ordinal substring test holds exactly when the key occurs at some position of the line. |
| `Text.IndexOf` | Program.cs:313 | `IndexOf(":")`, as an ordinal search, is -1 exactly when there is no colon; otherwise the line has a colon there and none before it. |
| `Text.IndexOfAt` | Program.cs:313 | The position of a character that no earlier position holds is what `IndexOf` returns. |
| `Text.NatToString` | Program.cs:254 | The decimal text of a number is all digits, spells the number, and has exactly as many digits as the number needs, so no leading zero. |
| `Text.ZeroPadded` | Program.cs:350 | `ToString("0000")` gives digits that spell the number: exactly `width` of them when the number's own digits are fewer, otherwise exactly the number's own digits, so it never truncates and never adds a zero it does not need. |
| `Numbers.ParseInt` | Program.cs:313 | `int.Parse` only succeeds with a value in the 32-bit range. |
| `Numbers.ParseIntRoundTrip` | Program.cs:313 | Parsing the text of any 32-bit integer gives the integer back. |
| `Numbers.Sub` | Program.cs:239-245 | The drop-height difference is exact: the value of the result is the difference of the values. |
| `Numbers.Normalize` | Program.cs:274-276 | The shortest form keeps the value and has no trailing fraction zero. |
| `Numbers.Render` | Program.cs:274-276 | `double.ToString()` writes a non-empty text that starts with `-` exactly when the value is negative. |
| `Numbers.RenderRoundTrip` | Program.cs:274-276 | `double.Parse` of what `double.ToString()` writes gives back the same number, in shortest form. |
| `Numbers.ParseDecimalShape` | Program.cs:327 | `double.Parse` rejects blank text and a lone sign, and gives a negative number only for text that starts with `-`. |
| `Numbers.RoundHalfEven` | Program.cs:235 | The result is within half a unit of the exact quotient, and an exact half goes to the even neighbour. |
| `Numbers.ToMilliseconds` | Program.cs:235-242 | `Convert.ToInt32(seconds * 1000)` succeeds exactly when the product rounded half to even lies in the 32-bit range, and is then that rounded value, within half a millisecond of the exact product. |
| `Numbers.ExactMilliseconds` | Program.cs:235-242 | A duration that is a whole number of milliseconds converts to exactly that number. |
| `Parameters.TextAfterColon` | Program.cs:313 | The parsed text is the whole line when it has no colon; otherwise it is everything after the line's first colon. |
| `Parameters.GetIntValueFromGCode` | Program.cs:306-318 | The loop returns 0 for a missing key, otherwise the `int.Parse` of the first matching line's text after its first colon (or the parse error). |
| `Parameters.GetDoubleValueFromGCode` | Program.cs:320-332 | Likewise with `double.Parse` and 0.0. |
| `Parameters.LookupAt` | Program.cs:309-315 | First match wins: the first line holding the key is the one read. |
| `Parameters.MissingKeyIsZero` | Program.cs:306-332 | With no line holding the key, both lookups give 0. |
| `Parameters.LaterLinesIgnored` | Program.cs:309-315 | Lines after a matching line never change the lookup. |
| `Parameters.NonMatchingLinesSkipped` | Program.cs:309-316 | Lines that do not hold the key in front of the others do not change the lookup. |
| `Parameters.CommentEnd` | Program.cs:293-298 | The comment block is every line before the first marker line, or all lines when there is none. |
| `Parameters.GetOriginalCommentSection` | Program.cs:290-304 | The loop yields one `;*` + line[1..] + newline per line before the marker, in order, or the index of the first empty such line. |
| `Parameters.CommentLinesAppend` | Program.cs:293-302 | The re-prefixed block of two runs of lines is the two blocks one after the other. |
| `Parameters.MarkerEndsComments` | Program.cs:295-298 | The marker line and everything after it never reach the comment block. |
| `Parameters.NoMarkerCopiesAll` | Program.cs:293-302 | Without a marker, every line is copied, re-prefixed, in order. |
| `Gcode.ReadSettingsFromGcode` | Program.cs:233-248 | The settings are read key by key in the program's order, times converted to milliseconds; the first failing key stops the run. |
| `Gcode.MillisecondsOfKey` | Program.cs:235-242 | A time setting is read exactly when its key's text parses and its conversion fits 32 bits, and is then that conversion. |
| `Gcode.SettingsFromKeys` | Program.cs:233-248 | Every field of the settings read is the value of its own key: the first matching line's number, 0 when no line holds the key, times in milliseconds. |
| `Gcode.SettingsReadable` | Program.cs:233-248 | Reading the settings succeeds exactly when each of the eleven keys reads and converts. |
| `Gcode.MissingBottomCountAllNormal` | Program.cs:248-276 | A file without a `;bottomLayerCount:` line has a bottom-layer count of 0, so every layer takes the normal timing. |
| `Gcode.CreateGcodeFileData` | Program.cs:231-288 | The result is the program text for the settings and comment block, or the first error in reading them. |
| `Gcode.WriteGcode` | Program.cs:250-287 | The appends produce the header, the blocks of layers 0 .. totalLayers - 1 in increasing order (none when totalLayers is not positive), then the footer. |
| `Gcode.PlanLayer` | Program.cs:239-276 | Layer i is a bottom layer exactly when i is below the bottom-layer count, and then uses every bottom setting, otherwise every normal one; it sinks by its own lift height less the layer height, unclamped, at the normal drop speed for both categories. |
| `Gcode.LayerBlocks` | Program.cs:262-277 | The layer text is the list of per-layer blocks joined in order, and block i is the commands of layer i's plan, so its delays and moves are that plan's. |
| `Gcode.NoBottomLayers` | Program.cs:269-276 | With a bottom-layer count of 0 or less every layer is normal. |
| `Gcode.AllBottomLayers` | Program.cs:269-276 | With at least as many bottom layers as layers, every layer is a bottom layer. |
| `Gcode.NegativeDropDoubleMinus` | Program.cs:276 | The drop line starts `G1 Z--` exactly when the drop height is negative. |
| `Manifest.CreateManifestFileData` | Program.cs:334-357 | The appends produce the fixed head, one slice element per layer in index order, and the fixed tail. |
| `Manifest.SliceNameShape` | Program.cs:350 | Below 10000 a slice name is `slice`, four digits spelling the index, then `.png`. |
| `Manifest.SliceNameDigits` | Program.cs:350 | For any index, the digits between `slice` and `.png` spell the index. |
| `Manifest.SliceNamesDistinct` | Program.cs:141 | Two layers never share a slice name. |
| `Manifest.SliceNamesUnique` | Program.cs:347-352 | The manifest's name list has one pairwise-distinct name per layer. |
| `Manifest.SliceElementList` | Program.cs:347-352 | Element i of the list names slice i. |
| `Manifest.SliceElementsListNames` | Program.cs:347-352 | The slice part of the manifest is the list's elements joined in order. |
| `Program.SourceSliceNameDigits` | Program.cs:141 | The slicer's image name of layer i is the digits of i, then `.png`. |
| `Program.CopySlices` | Program.cs:138-142 | The loop makes exactly the copies the specification function gives for layers 1 .. totalLayers. |
| `Program.ErrorStays` | Program.cs:138-142 | Once an image has stopped the run, later layers do not change the outcome. |
| `Program.ErrorPropagates` | Program.cs:138-142 | One more layer after a failed copy keeps the failure. |
| `Program.PresentLayers` | Program.cs:192-196 | Every copied layer index is below the layer count. |
| `Program.PresentLayersExact` | Program.cs:192-196 | Layer k is copied exactly when `{k+1}.png` is in the source archive. |
| `Program.PresentLayersIncreasing` | Program.cs:138-142 | The copied layers come in increasing order. |
| `Program.CopiesArePresentLayers` | Program.cs:138-142 | A successful copy writes image k + 1 under the slice name of layer k, for every present image, in layer order. |
| `Program.CopiesStep` | Program.cs:140-141 | One iteration adds the current layer's copy when its image is present and nothing otherwise. |
| `Program.CopyFailsOnCorruptImage` | Program.cs:208-229 | The copy fails exactly when some present image of layers 1 .. totalLayers does not decode, and names such an image. |
| `Program.CopiedNamesDistinct` | Program.cs:138-142 | No two copied images share an output name. |
| `Program.CompleteCopies` | Program.cs:138-142 | With every image present and decodable, layer k's image is written under the k-th name the manifest lists. |
| `Program.ConvertArchive` | Program.cs:91-142 | The run stops on an empty file, a failed layer-count lookup, a zero layer count or a failed program generation; otherwise the entries are the program, the manifest and the copies, in that order. |
| `Program.ZeroLayersStop` | Program.cs:99-105 | A layer count of 0 stops the run. |
| `Program.MissingLayerCountStops` | Program.cs:99-105 | A file without a `;totalLayer:` line stops the run as having no layers. |
| `Program.ArchiveLayout` | Program.cs:126-142 | A finished archive is the program, then the manifest for the declared count, then the copies of the present images in layer order. |
| `Program.NegativeLayerCountKeepsTextOnly` | Program.cs:99-142 | A negative layer count yields an archive of just the two texts. |
| `Program.CompleteArchive` | Program.cs:126-142 | With every image present and decodable there are totalLayers + 2 entries: `1.gcode`, `manifest.xml`, then the slices named as the manifest lists them. |
| `Program.GeneratedTextsNotEmpty` | Program.cs:108-122 | The generated manifest and program are never empty, so the emptiness checks never stop a run. |

## Left out

- Command-line handling, console output and `Environment.Exit` codes (Program.cs:17-45) are not modelled; a stopped run is an `Err` value naming its cause.
- Zip reading and writing are not modelled: opening the archive, finding `run.gcode`, streams, UTF-8 encoding, the entry attribute bits, and writing the `.cws` file, which the program names after the input archive and creates in the current working directory. The model starts from the lines of `run.gcode` and the names of the entries present.
- Splitting `run.gcode` into lines is not modelled (`StreamReader.ReadLine`); the model takes the list of lines.
- An image entry that is present but whose stream cannot be opened is skipped by the program like a missing one; the model does not separate opening from decoding.
- Re-encoding an image to 32-bit PNG (`ConvertPngTo32Bit`) is library code; an output slice records which source image it was made from.
- Numbers.ParseDecimal: accepts plain decimal notation only (sign, digits, one point). Exponents, thousands separators, `NaN`/`Infinity` and culture-specific separators are left out, because the slicer writes plain decimals.
- Numbers.Render: writes the exact decimal in shortest positional form. Binary floating-point rounding, and the exponent notation .NET uses for very large or very small values, are left out.
- Numbers.Sub: subtracts exactly, without binary floating-point rounding.
- Numbers.ToMilliseconds: rounds the exact product, not a binary `double` product.
- `IndexOf(":")` at Program.cs:313 is a culture-sensitive string search in .NET; the model searches for the colon character ordinally. A culture could only make a difference on text with ignorable characters around the colon, which a slicer's key line does not have.
- Text is a sequence of Unicode scalar values in the model and UTF-16 code units in the program. On a comment line that starts with a character outside the Basic Multilingual Plane, `Substring(1)` at Program.cs:300 keeps a lone low surrogate, while the model drops the whole character.
- The commented-out preview-image copies (Program.cs:143-146) are dead code and are not modelled.
