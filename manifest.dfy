/** The `manifest.xml` entry of the output archive: the name of the G-code program
    and one `<Slice>` element per layer (`CreateManifestFileData`, Program.cs:334-357). */
module Manifest {
  import opened Common
  import opened Text

  /** `"slice" + i.ToString("0000") + ".png"`: the layer index with at least four
      digits, zero-padded on the left, never cut. */
  function SliceName(i: nat): string {
    "slice" + ZeroPadded(i, 4) + ".png"
  }

  /** The slice image names of layers 0 .. totalLayers - 1. */
  function SliceNames(totalLayers: int): seq<string> {
    seq(Iterations(totalLayers), i requires 0 <= i => SliceName(i))
  }

  const ManifestHead :=
    "<?xml version=\"1.0\" encoding=\"UTF-8\"?>\n"
    + "<manifest FileVersion=\"1\">\n"
    + "  <GCode>\n"
    + "    <name>" + GcodeFileName + "</name>\n"
    + "  </GCode>\n"
    + "  <Slices>\n"

  const ManifestTail :=
    "  </Slices>\n"
    + "</manifest>\n"

  /** The element naming one slice image. */
  function SliceElement(name: string): string {
    "    <Slice>\n"
    + "      <name>" + name + "</name>\n"
    + "    </Slice>\n"
  }

  /** The elements of the first `count` slices, in layer order. */
  function SliceElements(count: nat): string {
    if count == 0 then "" else SliceElements(count - 1) + SliceElement(SliceName(count - 1))
  }

  /** The whole manifest for `totalLayers` layers (no slice element when it is not
      positive). */
  function ManifestText(totalLayers: int): string {
    ManifestHead + SliceElements(Iterations(totalLayers)) + ManifestTail
  }

  /** Appends the fixed head, one element per layer in index order, the fixed tail. */
  method CreateManifestFileData(totalLayers: int) returns (xml: string)
    ensures xml == ManifestText(totalLayers)
  {
    xml := "<?xml version=\"1.0\" encoding=\"UTF-8\"?>\n";
    xml := xml + "<manifest FileVersion=\"1\">\n";
    xml := xml + "  <GCode>\n";
    xml := xml + "    <name>" + GcodeFileName + "</name>\n";
    xml := xml + "  </GCode>\n";
    xml := xml + "  <Slices>\n";
    for i := 0 to Iterations(totalLayers)
      invariant xml == ManifestHead + SliceElements(i)
    {
      AppendAssoc(ManifestHead, SliceElements(i), SliceElement(SliceName(i)));
      xml := xml + SliceElement(SliceName(i));
    }
    xml := xml + ManifestTail;
  }

  // ---------------------------------------------------------------------------
  // Properties

  /** The slice names of the layer indices the format expects (below 10000) are
      `slice`, four digits and `.png`, and the digits spell the index. */
  lemma SliceNameShape(i: nat)
    requires i < 10000
    ensures |SliceName(i)| == 13
    ensures SliceName(i)[..5] == "slice" && SliceName(i)[9..] == ".png"
    ensures AllDigits(SliceName(i)[5..9]) && DigitsValue(SliceName(i)[5..9]) == i
  {
    assert Pow10(4) == 10000 by {
      assert Pow10(1) == 10;
      assert Pow10(2) == 100;
      assert Pow10(3) == 1000;
    }
    var digits := ZeroPadded(i, 4);
    assert SliceName(i)[5..9] == digits;
  }

  /** The digits of a slice name spell its layer index, whatever the index. */
  lemma SliceNameDigits(i: nat)
    ensures |SliceName(i)| >= 13
    ensures AllDigits(SliceName(i)[5..|SliceName(i)| - 4])
    ensures DigitsValue(SliceName(i)[5..|SliceName(i)| - 4]) == i
  {
    var digits := ZeroPadded(i, 4);
    assert SliceName(i)[5..|SliceName(i)| - 4] == digits;
  }

  /** Two layers never share a slice image name. */
  lemma SliceNamesDistinct(i: nat, j: nat)
    requires i != j
    ensures SliceName(i) != SliceName(j)
  {
    SliceNameDigits(i);
    SliceNameDigits(j);
  }

  /** The manifest lists `totalLayers` pairwise distinct slice names, layer i under
      `slice` + the padded i. */
  lemma SliceNamesUnique(totalLayers: int)
    ensures |SliceNames(totalLayers)| == Iterations(totalLayers)
    ensures forall i, j :: 0 <= i < j < |SliceNames(totalLayers)| ==>
      SliceNames(totalLayers)[i] != SliceNames(totalLayers)[j]
  {
    var names := SliceNames(totalLayers);
    forall i, j | 0 <= i < j < |names| ensures names[i] != names[j] {
      SliceNamesDistinct(i, j);
    }
  }

  /** One `<Slice>` element per layer index below `count`, in index order. */
  function SliceElementList(count: nat): (r: seq<string>)
    ensures |r| == count
    ensures forall i :: 0 <= i < count ==> r[i] == SliceElement(SliceName(i))
  {
    if count == 0 then [] else SliceElementList(count - 1) + [SliceElement(SliceName(count - 1))]
  }

  /** The slice elements are the elements of the slice names, one after another. */
  lemma {:induction false} SliceElementsListNames(count: nat)
    ensures SliceElements(count) == Concat(SliceElementList(count))
  {
    if count > 0 {
      SliceElementsListNames(count - 1);
      var list := SliceElementList(count);
      assert list[..count - 1] == SliceElementList(count - 1);
    }
  }
}
