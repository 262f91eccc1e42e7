/** One conversion run (Program.cs:99-148 and `CopyPngFileFromArchive`,
    Program.cs:177-215): the checks on the slicer lines, the two generated text
    entries, and the slice images copied under their new names.

    The source archive is given by the names of its entries (`present`) and the names
    of the entries whose bytes decode as an image (`decodable`). The re-encoding of an
    image to 32-bit PNG is not modelled: a `SliceEntry` records which source entry
    its pixels come from. */
module Program {
  import opened Common
  import opened Text
  import opened Parameters
  import opened Gcode
  import opened Manifest

  const TotalLayerKey := ";totalLayer:"

  /** An entry of the output archive, in the order it is added. */
  datatype Entry =
    | TextEntry(name: string, data: string)    // UTF-8 text, no byte order mark
    | SliceEntry(name: string, source: string) // 32-bit PNG re-encoding of `source`
  {
    function Name(): string {
      match this
      case TextEntry(name, _) => name
      case SliceEntry(name, _) => name
    }
  }

  /** The slicer's name for the image of 1-based layer `layer`: `$"{layer}.png"`. */
  function SourceSliceName(layer: int): string {
    IntToString(layer) + ".png"
  }

  /** The slicer's image name of a layer is its number's digits, then `.png`; so two
      layers never share an image. */
  lemma SourceSliceNameDigits(layer: nat)
    ensures |SourceSliceName(layer)| >= 5
    ensures SourceSliceName(layer)[|SourceSliceName(layer)| - 4..] == ".png"
    ensures AllDigits(SourceSliceName(layer)[..|SourceSliceName(layer)| - 4])
    ensures DigitsValue(SourceSliceName(layer)[..|SourceSliceName(layer)| - 4]) == layer
  {
    var digits := NatToString(layer);
    assert SourceSliceName(layer)[..|digits|] == digits;
  }

  /** The output entry for 0-based layer `k`: the image `k + 1` under its slice name. */
  function SliceCopy(k: nat): Entry {
    SliceEntry(SliceName(k), SourceSliceName(k + 1))
  }

  // ---------------------------------------------------------------------------
  // Copying the slice images

  /** The copies made for layers 1 .. count, in order: an image missing from the
      source archive is skipped; one that is present but cannot be decoded ends the
      run (`new Bitmap` throws and nothing catches it). */
  function Copies(present: set<string>, decodable: set<string>, count: nat): Result<seq<Entry>, Error> {
    if count == 0 then Ok([])
    else
      match Copies(present, decodable, count - 1)
      case Err(e) => Err(e)
      case Ok(done) => CopyLayer(present, decodable, count, done)
  }

  /** The copies `done` so far, followed by the copy of layer `layer` (1-based). */
  function CopyLayer(present: set<string>, decodable: set<string>, layer: nat, done: seq<Entry>): Result<seq<Entry>, Error>
    requires layer >= 1
  {
    var source := SourceSliceName(layer);
    if source !in present then Ok(done)
    else if source !in decodable then Err(CorruptImage(source))
    else Ok(done + [SliceCopy(layer - 1)])
  }

  /** The copy loop of the run: `for (i = 1; i <= totalLayers; i++)`. */
  method CopySlices(present: set<string>, decodable: set<string>, totalLayers: int)
    returns (r: Result<seq<Entry>, Error>)
    ensures r == Copies(present, decodable, Iterations(totalLayers))
  {
    var entries := [];
    for i := 1 to Iterations(totalLayers) + 1
      invariant Copies(present, decodable, i - 1) == Ok(entries)
    {
      var source := SourceSliceName(i);
      if source in present {
        if source !in decodable {
          r := Err(CorruptImage(source));
          ErrorStays(present, decodable, i, Iterations(totalLayers));
          return;
        }
        entries := entries + [SliceCopy(i - 1)];
      }
    }
    r := Ok(entries);
  }

  /** Once a copy has failed, copying more layers keeps the same error. */
  lemma {:induction false} ErrorStays(present: set<string>, decodable: set<string>, k: nat, n: nat)
    requires k <= n && Copies(present, decodable, k).Err?
    ensures Copies(present, decodable, n) == Copies(present, decodable, k)
    decreases n
  {
    if n > k {
      ErrorStays(present, decodable, k, n - 1);
      ErrorPropagates(present, decodable, n);
    }
  }

  lemma ErrorPropagates(present: set<string>, decodable: set<string>, count: nat)
    requires count >= 1 && Copies(present, decodable, count - 1).Err?
    ensures Copies(present, decodable, count) == Copies(present, decodable, count - 1)
  {
  }

  /** The 0-based layers below `count` whose image the source archive holds, in order. */
  function PresentLayers(present: set<string>, count: nat): (ks: seq<nat>)
    ensures forall j :: 0 <= j < |ks| ==> ks[j] < count
  {
    if count == 0 then []
    else PresentLayers(present, count - 1) + (if SourceSliceName(count) in present then [count - 1] else [])
  }

  /** A layer is copied exactly when its image is present. */
  lemma {:induction false} PresentLayersExact(present: set<string>, count: nat)
    ensures forall k: nat :: k in PresentLayers(present, count) <==> k < count && SourceSliceName(k + 1) in present
  {
    if count > 0 {
      PresentLayersExact(present, count - 1);
      var a := PresentLayers(present, count - 1);
      var b := if SourceSliceName(count) in present then [count - 1] else [];
      assert PresentLayers(present, count) == a + b;
      forall k: nat ensures k in a + b <==> k < count && SourceSliceName(k + 1) in present {
        assert k in a + b <==> k in a || k in b;
        if k == count - 1 {
          assert k + 1 == count;
        }
      }
    }
  }

  /** The copied layers come in increasing order. */
  lemma {:induction false} PresentLayersIncreasing(present: set<string>, count: nat)
    ensures forall i, j :: 0 <= i < j < |PresentLayers(present, count)| ==>
      PresentLayers(present, count)[i] < PresentLayers(present, count)[j]
  {
    if count > 0 {
      PresentLayersIncreasing(present, count - 1);
    }
  }

  /** A successful copy writes one entry per present image, in layer order, image
      `k + 1` under the slice name of layer `k`. */
  lemma {:induction false} CopiesArePresentLayers(present: set<string>, decodable: set<string>, count: nat)
    requires Copies(present, decodable, count).Ok?
    ensures Copies(present, decodable, count).value == CopiesOf(PresentLayers(present, count))
  {
    if count > 0 {
      CopiesStep(present, decodable, count);
      CopiesArePresentLayers(present, decodable, count - 1);
      var last: seq<nat> := if SourceSliceName(count) in present then [count - 1] else [];
      MapAppend(SliceCopy, PresentLayers(present, count - 1), last);
    }
  }

  /** One step of the copy loop: the entries and the copied layers both grow by the
      current layer when its image is present, and stay as they were otherwise. */
  lemma CopiesStep(present: set<string>, decodable: set<string>, count: nat)
    requires count > 0 && Copies(present, decodable, count).Ok?
    ensures Copies(present, decodable, count - 1).Ok?
    ensures var last: seq<nat> := if SourceSliceName(count) in present then [count - 1] else [];
      PresentLayers(present, count) == PresentLayers(present, count - 1) + last
      && Copies(present, decodable, count).value == Copies(present, decodable, count - 1).value + Map(SliceCopy, last)
  {
    var last: seq<nat> := if SourceSliceName(count) in present then [count - 1] else [];
    if SourceSliceName(count) in present {
      assert Map(SliceCopy, last) == [SliceCopy(count - 1)];
    } else {
      assert Map(SliceCopy, last) == [];
      assert Copies(present, decodable, count - 1).value + [] == Copies(present, decodable, count - 1).value;
    }
  }

  /** The slice entries of the given layers, in the given order. */
  function CopiesOf(ks: seq<nat>): seq<Entry> {
    Map(SliceCopy, ks)
  }

  /** Layer `layer`'s image is in the source archive but does not decode. */
  predicate Corrupt(present: set<string>, decodable: set<string>, layer: int) {
    SourceSliceName(layer) in present && SourceSliceName(layer) !in decodable
  }

  /** The copy fails exactly when some present image of layers 1 .. count cannot be
      decoded, and then it names such an image. */
  lemma {:induction false} CopyFailsOnCorruptImage(present: set<string>, decodable: set<string>, count: nat)
    ensures Copies(present, decodable, count).Err? <==>
      exists layer :: 1 <= layer <= count && Corrupt(present, decodable, layer)
    ensures Copies(present, decodable, count).Err? ==>
      exists layer :: 1 <= layer <= count && Corrupt(present, decodable, layer)
        && Copies(present, decodable, count) == Err(CorruptImage(SourceSliceName(layer)))
  {
    if count > 0 {
      CopyFailsOnCorruptImage(present, decodable, count - 1);
      if Copies(present, decodable, count - 1).Err? {
        assert Copies(present, decodable, count) == Copies(present, decodable, count - 1);
      } else if Corrupt(present, decodable, count) {
        assert Copies(present, decodable, count) == Err(CorruptImage(SourceSliceName(count)));
      } else {
        assert Copies(present, decodable, count).Ok?;
        forall layer | 1 <= layer <= count ensures !Corrupt(present, decodable, layer) {
          if layer < count {
            assert !(1 <= layer <= count - 1 && Corrupt(present, decodable, layer));
          }
        }
      }
    }
  }

  /** Two copied layers never share an output name. */
  lemma CopiedNamesDistinct(present: set<string>, decodable: set<string>, count: nat)
    requires Copies(present, decodable, count).Ok?
    ensures forall i, j :: 0 <= i < j < |Copies(present, decodable, count).value| ==>
      Copies(present, decodable, count).value[i].Name() != Copies(present, decodable, count).value[j].Name()
  {
    var es := Copies(present, decodable, count).value;
    var ks := PresentLayers(present, count);
    CopiesArePresentLayers(present, decodable, count);
    PresentLayersIncreasing(present, count);
    forall i, j | 0 <= i < j < |es| ensures es[i].Name() != es[j].Name() {
      SliceNamesDistinct(ks[i], ks[j]);
    }
  }

  /** With every image present and decodable, layer k's image is written under the
      k-th name the manifest lists, for every layer. */
  lemma {:induction false} CompleteCopies(present: set<string>, decodable: set<string>, totalLayers: int)
    requires forall layer :: 1 <= layer <= totalLayers ==> SourceSliceName(layer) in present && SourceSliceName(layer) in decodable
    ensures Copies(present, decodable, Iterations(totalLayers)) == Ok(CopiesOf(Range(Iterations(totalLayers))))
    ensures forall k :: 0 <= k < Iterations(totalLayers) ==>
      CopiesOf(Range(Iterations(totalLayers)))[k].Name() == SliceNames(totalLayers)[k]
  {
    CompleteCopiesUpTo(present, decodable, Iterations(totalLayers));
  }

  lemma {:induction false} CompleteCopiesUpTo(present: set<string>, decodable: set<string>, count: nat)
    requires forall layer :: 1 <= layer <= count ==> SourceSliceName(layer) in present && SourceSliceName(layer) in decodable
    ensures Copies(present, decodable, count) == Ok(CopiesOf(Range(count)))
  {
    if count > 0 {
      CompleteCopiesUpTo(present, decodable, count - 1);
      var last: seq<nat> := [count - 1];
      MapAppend(SliceCopy, Range(count - 1), last);
      assert Map(SliceCopy, last) == [SliceCopy(count - 1)];
    }
  }

  // ---------------------------------------------------------------------------
  // The run

  /** The entries of the output archive for the lines of `run.gcode` and the source
      archive, or the reason the run stops without writing one. */
  function Conversion(lines: seq<string>, present: set<string>, decodable: set<string>): Result<seq<Entry>, Error> {
    if lines == [] then Err(EmptyGcode)
    else
      match IntParameter(lines, TotalLayerKey)
      case Err(e) => Err(e)
      case Ok(totalLayers) =>
        if totalLayers == 0 then Err(NoLayers)
        else Archive(GcodeFile(lines, totalLayers), ManifestText(totalLayers),
                     Copies(present, decodable, Iterations(totalLayers)))
  }

  /** The output entries once both texts are generated and the images copied; the
      program's error comes before the copy's, as the program is generated first. */
  function Archive(gcode: Result<string, Error>, manifest: string, slices: Result<seq<Entry>, Error>): Result<seq<Entry>, Error> {
    match gcode
    case Err(e) => Err(e)
    case Ok(text) =>
      match slices
      case Err(e) => Err(e)
      case Ok(copies) => Ok([TextEntry(GcodeFileName, text), TextEntry(ManifestFileName, manifest)] + copies)
  }

  /** The body of the run after `run.gcode` has been read into lines. */
  method ConvertArchive(lines: seq<string>, present: set<string>, decodable: set<string>)
    returns (r: Result<seq<Entry>, Error>)
    ensures r == Conversion(lines, present, decodable)
  {
    if |lines| == 0 {
      return Err(EmptyGcode);
    }
    var totalLayers :- GetIntValueFromGCode(lines, TotalLayerKey);
    if totalLayers == 0 {
      return Err(NoLayers);
    }
    var manifest := CreateManifestFileData(totalLayers);
    var gcode :- CreateGcodeFileData(lines, totalLayers);
    var slices :- CopySlices(present, decodable, totalLayers);
    r := Ok([TextEntry(GcodeFileName, gcode), TextEntry(ManifestFileName, manifest)] + slices);
  }

  // ---------------------------------------------------------------------------
  // Properties of a run

  /** A file without a `;totalLayer:` line, or whose count reads as 0, ends the run
      before anything is generated. */
  lemma ZeroLayersStop(lines: seq<string>, present: set<string>, decodable: set<string>)
    requires lines != []
    requires IntParameter(lines, TotalLayerKey) == Ok(0)
    ensures Conversion(lines, present, decodable) == Err(NoLayers)
  {
  }

  lemma MissingLayerCountStops(lines: seq<string>, present: set<string>, decodable: set<string>)
    requires lines != []
    requires forall i :: 0 <= i < |lines| ==> !Contains(lines[i], TotalLayerKey)
    ensures Conversion(lines, present, decodable) == Err(NoLayers)
  {
    MissingKeyIsZero(lines, TotalLayerKey);
  }

  /** A finished archive holds the program and the manifest for the layer count the
      file declares, then the copies of the present images in layer order. */
  lemma ArchiveLayout(lines: seq<string>, present: set<string>, decodable: set<string>)
    requires Conversion(lines, present, decodable).Ok?
    ensures lines != [] && IntParameter(lines, TotalLayerKey).Ok?
    ensures var totalLayers := IntParameter(lines, TotalLayerKey).value;
      totalLayers != 0 && GcodeFile(lines, totalLayers).Ok?
      && Conversion(lines, present, decodable).value
        == [TextEntry(GcodeFileName, GcodeFile(lines, totalLayers).value),
            TextEntry(ManifestFileName, ManifestText(totalLayers))]
          + CopiesOf(PresentLayers(present, Iterations(totalLayers)))
  {
    var totalLayers := IntParameter(lines, TotalLayerKey).value;
    CopiesArePresentLayers(present, decodable, Iterations(totalLayers));
  }

  /** A negative layer count is not rejected: the archive holds the program and the
      manifest, both without layers, and no slice image. */
  lemma NegativeLayerCountKeepsTextOnly(lines: seq<string>, present: set<string>, decodable: set<string>)
    requires lines != [] && IntParameter(lines, TotalLayerKey).Ok? && IntParameter(lines, TotalLayerKey).value < 0
    requires GcodeFile(lines, IntParameter(lines, TotalLayerKey).value).Ok?
    ensures Conversion(lines, present, decodable).Ok?
    ensures |Conversion(lines, present, decodable).value| == 2
  {
  }

  /** With every layer's image present and decodable, the archive has the program,
      the manifest and one slice per layer, named exactly as the manifest lists them. */
  lemma CompleteArchive(lines: seq<string>, present: set<string>, decodable: set<string>)
    requires lines != [] && IntParameter(lines, TotalLayerKey).Ok?
    requires GcodeFile(lines, IntParameter(lines, TotalLayerKey).value).Ok?
    requires IntParameter(lines, TotalLayerKey).value > 0
    requires forall layer :: 1 <= layer <= IntParameter(lines, TotalLayerKey).value ==>
      SourceSliceName(layer) in present && SourceSliceName(layer) in decodable
    ensures Conversion(lines, present, decodable).Ok?
    ensures var es := Conversion(lines, present, decodable).value;
      var totalLayers := IntParameter(lines, TotalLayerKey).value;
      |es| == totalLayers + 2
      && es[0].Name() == GcodeFileName && es[1].Name() == ManifestFileName
      && forall k :: 0 <= k < totalLayers ==> es[k + 2].Name() == SliceNames(totalLayers)[k]
  {
    var totalLayers := IntParameter(lines, TotalLayerKey).value;
    CompleteCopies(present, decodable, totalLayers);
  }

  /** The emptiness checks on the generated texts never stop a run: both texts
      always hold their fixed header. */
  lemma GeneratedTextsNotEmpty(lines: seq<string>, totalLayers: int)
    ensures |ManifestText(totalLayers)| > 0
    ensures GcodeFile(lines, totalLayers).Ok? ==> |GcodeFile(lines, totalLayers).value| > 0
  {
  }
}
