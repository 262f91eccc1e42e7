/** Shared vocabulary of the converter model: optional values, results, and the
    ways a conversion run can stop. */
module Common {

  /** The archive entries the converter reads and writes (Program.cs:13-15). */
  const RunGcodeFileName := "run.gcode"
  const ManifestFileName := "manifest.xml"
  const GcodeFileName := "1.gcode"

  datatype Option<+T> = None | Some(value: T)

  /** A computation that either yields a value or stops with an error; usable with `:-`. */
  datatype Result<+R, +E> = Ok(value: R) | Err(error: E) {
    predicate IsFailure() {
      Err?
    }

    function PropagateFailure<U>(): Result<U, E>
      requires Err?
    {
      Err(error)
    }

    function Extract(): R
      requires Ok?
    {
      value
    }
  }

  /** Every way the converter stops without writing an output archive. In the
      program each of these is either an explicit exit or an exception that nothing
      catches; the model turns both into an error value. */
  datatype Error =
    | EmptyGcode                      // run.gcode has no lines
    | NoLayers                        // ;totalLayer: resolves to 0
    | ParseFailure(key: string)       // int.Parse / double.Parse rejects the text after the colon
    | MillisecondsOverflow(key: string) // Convert.ToInt32 of seconds * 1000 leaves the Int32 range
    | EmptyCommentLine(index: nat)    // Substring(1) on an empty line before the start marker
    | CorruptImage(source: string)    // a slice image is present but cannot be decoded

  /** Index of the first element that satisfies `p`, if any. */
  function FirstIndex<T>(s: seq<T>, p: T -> bool): (r: Option<nat>)
    ensures r.None? <==> forall i :: 0 <= i < |s| ==> !p(s[i])
    ensures r.Some? ==> r.value < |s| && p(s[r.value])
    ensures r.Some? ==> forall j :: 0 <= j < r.value ==> !p(s[j])
  {
    if s == [] then None
    else if p(s[0]) then Some(0)
    else match FirstIndex(s[1..], p)
      case None => None
      case Some(k) => Some(k + 1)
  }

  /** `f` applied to every element, in order. */
  function Map<A, B>(f: A -> B, s: seq<A>): (r: seq<B>)
    ensures |r| == |s| && forall i :: 0 <= i < |s| ==> r[i] == f(s[i])
  {
    seq(|s|, i requires 0 <= i < |s| => f(s[i]))
  }

  lemma MapAppend<A, B>(f: A -> B, a: seq<A>, b: seq<A>)
    ensures Map(f, a + b) == Map(f, a) + Map(f, b)
  {
    var x, y := Map(f, a + b), Map(f, a) + Map(f, b);
    forall i | 0 <= i < |a + b| ensures x[i] == y[i] {
      if i >= |a| {
        assert (a + b)[i] == b[i - |a|];
      }
    }
  }

  /** 0, 1, ..., count - 1. */
  function Range(count: nat): (ks: seq<nat>)
    ensures |ks| == count && forall k :: 0 <= k < count ==> ks[k] == k
  {
    if count == 0 then [] else Range(count - 1) + [count - 1]
  }

  /** How many times a counted loop `for (i = 0; i < bound; i++)` runs. */
  function Iterations(bound: int): nat {
    if bound > 0 then bound else 0
  }
}
