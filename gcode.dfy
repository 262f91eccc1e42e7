/** The target printer's G-code program: the timing settings read from the slicer
    file, the per-layer plan they give, and the text emitted for it
    (`CreateGcodeFileData`, Program.cs:231-288). */
module Gcode {
  import opened Common
  import opened Text
  import opened Numbers
  import opened Parameters

  /** The parameters `CreateGcodeFileData` reads, times already in milliseconds. */
  datatype Settings = Settings(
    layerHeight: Decimal,
    bottomLayerExposureTime: int,
    bottomLightOffTime: int,
    bottomLayerLiftSpeed: Decimal,
    bottomLayerLiftHeight: Decimal,
    normalExposureTime: int,
    lightOffTime: int,
    normalLayerLiftSpeed: Decimal,
    normalLayerLiftHeight: Decimal,
    normalDropSpeed: Decimal,
    bottomLayers: int)

  /** `Convert.ToInt32(seconds * 1000)`, failing as the call does outside 32 bits. */
  function Milliseconds(seconds: Decimal, key: string): Result<int, Error> {
    match ToMilliseconds(seconds)
    case Some(ms) => Ok(ms)
    case None => Err(MillisecondsOverflow(key))
  }

  function MillisecondParameter(lines: seq<string>, key: string): Result<int, Error> {
    var seconds :- DecimalParameter(lines, key);
    Milliseconds(seconds, key)
  }

  /** A time parameter is read when the key's text parses and its conversion to
      milliseconds fits 32 bits, and is then that conversion. */
  lemma MillisecondsOfKey(lines: seq<string>, key: string)
    ensures MillisecondParameter(lines, key).Ok? <==>
      DecimalParameter(lines, key).Ok? && ToMilliseconds(DecimalParameter(lines, key).value).Some?
    ensures MillisecondParameter(lines, key).Ok? ==>
      MillisecondParameter(lines, key).value == ToMilliseconds(DecimalParameter(lines, key).value).value
  {
  }

  /** All settings, read key by key in the program's order; the first key that
      fails to parse or convert stops the run. */
  function ReadSettings(lines: seq<string>): Result<Settings, Error> {
    var layerHeight :- DecimalParameter(lines, ";layerHeight:");
    var bottomLayerExposureTime :- MillisecondParameter(lines, ";bottomLayerExposureTime:");
    var bottomLightOffTime :- MillisecondParameter(lines, ";bottomLightOffTime:");
    var bottomLayerLiftSpeed :- DecimalParameter(lines, ";bottomLayerLiftSpeed:");
    var bottomLayerLiftHeight :- DecimalParameter(lines, ";bottomLayerLiftHeight:");
    var normalExposureTime :- MillisecondParameter(lines, ";normalExposureTime:");
    var lightOffTime :- MillisecondParameter(lines, ";lightOffTime:");
    var normalLayerLiftSpeed :- DecimalParameter(lines, ";normalLayerLiftSpeed:");
    var normalLayerLiftHeight :- DecimalParameter(lines, ";normalLayerLiftHeight:");
    var normalDropSpeed :- DecimalParameter(lines, ";normalDropSpeed:");
    var bottomLayers :- IntParameter(lines, ";bottomLayerCount:");
    Ok(Settings(layerHeight, bottomLayerExposureTime, bottomLightOffTime, bottomLayerLiftSpeed,
                bottomLayerLiftHeight, normalExposureTime, lightOffTime, normalLayerLiftSpeed,
                normalLayerLiftHeight, normalDropSpeed, bottomLayers))
  }

  // ---------------------------------------------------------------------------
  // Layer plan

  datatype Category = Bottom | Normal

  /** What one layer does: expose, wait with the light off, rise, sink back. */
  datatype LayerPlan = LayerPlan(
    index: nat,
    category: Category,
    exposureTime: int,
    lightOffTime: int,
    liftHeight: Decimal,
    liftSpeed: Decimal,
    dropHeight: Decimal,
    dropSpeed: Decimal)

  /** Layer `i` takes the bottom timing when `i < bottomLayers`, the normal timing
      otherwise; it sinks by its lift height less the layer height, always at the
      normal drop speed. */
  function PlanLayer(s: Settings, i: nat): (p: LayerPlan)
    ensures p.index == i
    ensures p.category == Bottom <==> i < s.bottomLayers
    ensures p.category == Bottom ==>
      p.exposureTime == s.bottomLayerExposureTime && p.lightOffTime == s.bottomLightOffTime
      && p.liftHeight == s.bottomLayerLiftHeight && p.liftSpeed == s.bottomLayerLiftSpeed
    ensures p.category == Normal ==>
      p.exposureTime == s.normalExposureTime && p.lightOffTime == s.lightOffTime
      && p.liftHeight == s.normalLayerLiftHeight && p.liftSpeed == s.normalLayerLiftSpeed
    ensures Value(p.dropHeight) == Value(p.liftHeight) - Value(s.layerHeight)
    ensures p.dropSpeed == s.normalDropSpeed
  {
    if i < s.bottomLayers then
      LayerPlan(i, Bottom, s.bottomLayerExposureTime, s.bottomLightOffTime,
                s.bottomLayerLiftHeight, s.bottomLayerLiftSpeed,
                Sub(s.bottomLayerLiftHeight, s.layerHeight), s.normalDropSpeed)
    else
      LayerPlan(i, Normal, s.normalExposureTime, s.lightOffTime,
                s.normalLayerLiftHeight, s.normalLayerLiftSpeed,
                Sub(s.normalLayerLiftHeight, s.layerHeight), s.normalDropSpeed)
  }

  // ---------------------------------------------------------------------------
  // Emitted text

  const Preamble :=
    ";********** Header Start ********\n"
    + "G28 ; Home\n"
    + "G21 ; Set units to be mm\n"
    + "G91 ; Relative Positioning\n"
    + "M17 ; Enable motors\n"

  const Footer :=
    ";********** Footer ******\n"
    + "M106 S0          ; UV off\n"
    + "G4 P0            ; wait for last lift to complete\n"
    + "G1 Z40.0 F150.0  ; lift model clear of resin\n"
    + "G4 P0            ; sync\n"
    + "M18              ;Disable Motors\n"
    + ";<Completed>\n"

  /** Title, the slicer's comment block, the layer and slice counts, the preamble. */
  function Header(comments: string, totalLayers: int): string {
    ";****Build and Slicing Parameters****\n"
    + comments
    + ";Number of Layers = " + IntToString(totalLayers) + "\n"
    + ";Number of Slices = " + IntToString(totalLayers) + "\n"
    + Preamble
  }

  function LiftLine(p: LayerPlan): string {
    "G1 Z" + Render(p.liftHeight) + " F" + Render(p.liftSpeed) + "\n"
  }

  /** The move back down: a minus sign written before the drop height. */
  function DropLine(p: LayerPlan): string {
    "G1 Z-" + Render(p.dropHeight) + " F" + Render(p.dropSpeed) + "\n"
  }

  /** The commands of one layer. */
  function LayerBlock(p: LayerPlan): string {
    ";********** Pre-Slice " + IntToString(p.index) + " ********\n"
    + "G4 P0 ; Make sure any previous relative moves are complete\n"
    + ";********** Layer " + IntToString(p.index) + " ******\n"
    + ";<Slice> " + IntToString(p.index) + "\n"
    + "M106 S255 ; UV on\n"
    + ";<Delay> " + IntToString(p.exposureTime) + "\n"
    + "M106 S0 ; UV off\n"
    + ";<Slice> Blank\n"
    + ";<Delay> " + IntToString(p.lightOffTime) + "\n"
    + ";********** Lift Sequence " + IntToString(p.index) + " ******\n"
    + LiftLine(p)
    + "G4 P0 ; Wait for lift rise to complete\n"
    + DropLine(p)
  }

  /** The block of layer `i` under the settings `s`. */
  function BlockOf(s: Settings): nat -> string {
    (i: nat) => LayerBlock(PlanLayer(s, i))
  }

  /** The blocks of layers 0 .. count - 1, one after another in index order. */
  function Layers(s: Settings, count: nat): string {
    Joined(BlockOf(s), count)
  }

  /** The whole program: header, one block per layer in index order (none when the
      layer count is not positive), footer. */
  function GcodeText(s: Settings, comments: string, totalLayers: int): string {
    Header(comments, totalLayers) + Layers(s, Iterations(totalLayers)) + Footer
  }

  /** What `CreateGcodeFileData` returns for the slicer lines and the layer count. */
  function GcodeFile(lines: seq<string>, totalLayers: int): Result<string, Error> {
    var s :- ReadSettings(lines);
    var comments :- CommentSection(lines);
    Ok(GcodeText(s, comments, totalLayers))
  }

  /** The parameter reads at the top of `CreateGcodeFileData`, in the program's
      order, each time converted to milliseconds as soon as it is read. */
  method ReadSettingsFromGcode(lines: seq<string>) returns (r: Result<Settings, Error>)
    ensures r == ReadSettings(lines)
  {
    var layerHeight :- GetDoubleValueFromGCode(lines, ";layerHeight:");

    var seconds :- GetDoubleValueFromGCode(lines, ";bottomLayerExposureTime:");
    var bottomLayerExposureTime :- Milliseconds(seconds, ";bottomLayerExposureTime:");
    seconds :- GetDoubleValueFromGCode(lines, ";bottomLightOffTime:");
    var bottomLightOffTime :- Milliseconds(seconds, ";bottomLightOffTime:");
    var bottomLayerLiftSpeed :- GetDoubleValueFromGCode(lines, ";bottomLayerLiftSpeed:");
    var bottomLayerLiftHeight :- GetDoubleValueFromGCode(lines, ";bottomLayerLiftHeight:");

    seconds :- GetDoubleValueFromGCode(lines, ";normalExposureTime:");
    var normalExposureTime :- Milliseconds(seconds, ";normalExposureTime:");
    seconds :- GetDoubleValueFromGCode(lines, ";lightOffTime:");
    var lightOffTime :- Milliseconds(seconds, ";lightOffTime:");
    var normalLayerLiftSpeed :- GetDoubleValueFromGCode(lines, ";normalLayerLiftSpeed:");
    var normalLayerLiftHeight :- GetDoubleValueFromGCode(lines, ";normalLayerLiftHeight:");

    var normalDropSpeed :- GetDoubleValueFromGCode(lines, ";normalDropSpeed:");
    var bottomLayers :- GetIntValueFromGCode(lines, ";bottomLayerCount:");

    r := Ok(Settings(layerHeight, bottomLayerExposureTime, bottomLightOffTime,
      bottomLayerLiftSpeed, bottomLayerLiftHeight, normalExposureTime, lightOffTime,
      normalLayerLiftSpeed, normalLayerLiftHeight, normalDropSpeed, bottomLayers));
  }

  /** Reads the settings and the comment block, then writes the program. */
  method CreateGcodeFileData(lines: seq<string>, totalLayers: int) returns (r: Result<string, Error>)
    ensures r == GcodeFile(lines, totalLayers)
  {
    var settings :- ReadSettingsFromGcode(lines);
    var comments :- GetOriginalCommentSection(lines);
    var text := WriteGcode(settings, comments, totalLayers);
    GcodeFileOk(lines, totalLayers, settings, comments);
    r := Ok(text);
  }

  /** The appends of `CreateGcodeFileData`: the header, one block per layer in index
      order, the footer. */
  method WriteGcode(settings: Settings, comments: string, totalLayers: int) returns (text: string)
    ensures text == GcodeText(settings, comments, totalLayers)
  {
    text := ";****Build and Slicing Parameters****\n";
    text := text + comments;
    text := text + ";Number of Layers = " + IntToString(totalLayers) + "\n";
    text := text + ";Number of Slices = " + IntToString(totalLayers) + "\n";
    text := text + Preamble;
    for currentLayer := 0 to Iterations(totalLayers)
      invariant text == Header(comments, totalLayers) + Layers(settings, currentLayer)
    {
      LayersStep(Header(comments, totalLayers), settings, currentLayer);
      text := text + LayerBlock(PlanLayer(settings, currentLayer));
    }
    text := text + Footer;
  }

  /** Appending the block of layer n to the text of layers 0 .. n - 1 gives the text
      of layers 0 .. n. */
  lemma LayersStep(head: string, s: Settings, n: nat)
    ensures head + Layers(s, n) + LayerBlock(PlanLayer(s, n)) == head + Layers(s, n + 1)
  {
    assert BlockOf(s)(n) == LayerBlock(PlanLayer(s, n));
    AppendAssoc(head, Layers(s, n), LayerBlock(PlanLayer(s, n)));
  }

  /** The layer text is the list of per-layer blocks joined, block i being the
      commands of layer i's plan. */
  lemma LayerBlocks(s: Settings, count: nat)
    ensures |Parts(BlockOf(s), count)| == count
    ensures forall i :: 0 <= i < count ==> Parts(BlockOf(s), count)[i] == LayerBlock(PlanLayer(s, i))
    ensures Layers(s, count) == Concat(Parts(BlockOf(s), count))
  {
    JoinedParts(BlockOf(s), count);
  }

  lemma GcodeFileOk(lines: seq<string>, totalLayers: int, s: Settings, comments: string)
    requires ReadSettings(lines) == Ok(s) && CommentSection(lines) == Ok(comments)
    ensures GcodeFile(lines, totalLayers) == Ok(GcodeText(s, comments, totalLayers))
  {
  }

  // ---------------------------------------------------------------------------
  // Properties of the settings

  /** A successful read holds, field by field, the value its key reads as: the
      number after the first matching line's colon, or 0 when no line holds the
      key, times converted to milliseconds. */
  lemma SettingsFromKeys(lines: seq<string>, s: Settings)
    requires ReadSettings(lines) == Ok(s)
    ensures DecimalParameter(lines, ";layerHeight:") == Ok(s.layerHeight)
    ensures MillisecondParameter(lines, ";bottomLayerExposureTime:") == Ok(s.bottomLayerExposureTime)
    ensures MillisecondParameter(lines, ";bottomLightOffTime:") == Ok(s.bottomLightOffTime)
    ensures DecimalParameter(lines, ";bottomLayerLiftSpeed:") == Ok(s.bottomLayerLiftSpeed)
    ensures DecimalParameter(lines, ";bottomLayerLiftHeight:") == Ok(s.bottomLayerLiftHeight)
    ensures MillisecondParameter(lines, ";normalExposureTime:") == Ok(s.normalExposureTime)
    ensures MillisecondParameter(lines, ";lightOffTime:") == Ok(s.lightOffTime)
    ensures DecimalParameter(lines, ";normalLayerLiftSpeed:") == Ok(s.normalLayerLiftSpeed)
    ensures DecimalParameter(lines, ";normalLayerLiftHeight:") == Ok(s.normalLayerLiftHeight)
    ensures DecimalParameter(lines, ";normalDropSpeed:") == Ok(s.normalDropSpeed)
    ensures IntParameter(lines, ";bottomLayerCount:") == Ok(s.bottomLayers)
  {
    SettingsReadable(lines);
    var read := Settings(
      DecimalParameter(lines, ";layerHeight:").value,
      MillisecondParameter(lines, ";bottomLayerExposureTime:").value,
      MillisecondParameter(lines, ";bottomLightOffTime:").value,
      DecimalParameter(lines, ";bottomLayerLiftSpeed:").value,
      DecimalParameter(lines, ";bottomLayerLiftHeight:").value,
      MillisecondParameter(lines, ";normalExposureTime:").value,
      MillisecondParameter(lines, ";lightOffTime:").value,
      DecimalParameter(lines, ";normalLayerLiftSpeed:").value,
      DecimalParameter(lines, ";normalLayerLiftHeight:").value,
      DecimalParameter(lines, ";normalDropSpeed:").value,
      IntParameter(lines, ";bottomLayerCount:").value);
    assert ReadSettings(lines) == Ok(read);
  }

  /** The read succeeds exactly when every key reads and converts. */
  lemma SettingsReadable(lines: seq<string>)
    ensures ReadSettings(lines).Ok? <==>
      DecimalParameter(lines, ";layerHeight:").Ok?
      && MillisecondParameter(lines, ";bottomLayerExposureTime:").Ok?
      && MillisecondParameter(lines, ";bottomLightOffTime:").Ok?
      && DecimalParameter(lines, ";bottomLayerLiftSpeed:").Ok?
      && DecimalParameter(lines, ";bottomLayerLiftHeight:").Ok?
      && MillisecondParameter(lines, ";normalExposureTime:").Ok?
      && MillisecondParameter(lines, ";lightOffTime:").Ok?
      && DecimalParameter(lines, ";normalLayerLiftSpeed:").Ok?
      && DecimalParameter(lines, ";normalLayerLiftHeight:").Ok?
      && DecimalParameter(lines, ";normalDropSpeed:").Ok?
      && IntParameter(lines, ";bottomLayerCount:").Ok?
  {
  }

  /** A slicer file without a `;bottomLayerCount:` line has no bottom layers: every
      layer of the plan takes the normal timing. */
  lemma MissingBottomCountAllNormal(lines: seq<string>, s: Settings, i: nat)
    requires ReadSettings(lines) == Ok(s)
    requires forall j :: 0 <= j < |lines| ==> !Contains(lines[j], ";bottomLayerCount:")
    ensures s.bottomLayers == 0
    ensures PlanLayer(s, i).category == Normal
  {
    SettingsFromKeys(lines, s);
    MissingKeyIsZero(lines, ";bottomLayerCount:");
  }

  // ---------------------------------------------------------------------------
  // Properties of the plan

  /** With no bottom layers every layer is normal. */
  lemma NoBottomLayers(s: Settings, i: nat)
    requires s.bottomLayers <= 0
    ensures PlanLayer(s, i).category == Normal
  {
  }

  /** With at least as many bottom layers as layers every layer is a bottom layer. */
  lemma AllBottomLayers(s: Settings, totalLayers: int, i: nat)
    requires s.bottomLayers >= totalLayers && i < totalLayers
    ensures PlanLayer(s, i).category == Bottom
  {
  }

  /** A negative drop height is written after the command's own minus sign, so the
      drop line starts `G1 Z--` exactly when the drop height is negative. */
  lemma NegativeDropDoubleMinus(p: LayerPlan)
    ensures |DropLine(p)| >= 6
    ensures DropLine(p)[..6] == "G1 Z--" <==> Value(p.dropHeight) < 0.0
  {
    var height := Render(p.dropHeight);
    var rest := height + " F" + Render(p.dropSpeed) + "\n";
    assert DropLine(p) == "G1 Z-" + rest;
    assert rest[0] == height[0];
    PrefixThenFirst("G1 Z-", rest);
    var prefix := "G1 Z-" + [height[0]];
    assert prefix[5] == height[0];
    assert height[0] == '-' ==> prefix == "G1 Z--";
  }

  lemma PrefixThenFirst(a: string, b: string)
    requires b != []
    ensures (a + b)[..|a| + 1] == a + [b[0]]
  {
  }
}
