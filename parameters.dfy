/** Reading build parameters out of the slicer's `run.gcode` lines, and copying the
    leading comment block into the generated program (Program.cs:290-332). */
module Parameters {
  import opened Common
  import opened Text
  import opened Numbers

  /** The line that ends the slicer's comment block. */
  const StartMarker := ";START_GCODE_BEGIN"

  // ---------------------------------------------------------------------------
  // Parameter lookup

  /** Index of the first line that contains `key`, if any. */
  function FirstMatch(lines: seq<string>, key: string): Option<nat> {
    FirstIndex(lines, (line: string) => Contains(line, key))
  }

  /** `line.Substring(line.IndexOf(":") + 1)`: the text after the first colon of the
      line, or the whole line when it has no colon. */
  function TextAfterColon(line: string): (r: string)
    ensures ':' !in line ==> r == line
    ensures ':' in line ==>
      |r| < |line| && line[|line| - |r| - 1] == ':' && line[|line| - |r|..] == r
      && ':' !in line[..|line| - |r| - 1]
  {
    line[IndexOf(line, ':') + 1..]
  }

  /** The text a lookup of `key` parses: after the first colon of the first line
      that contains `key`. None when no line contains `key`. */
  function LookupText(lines: seq<string>, key: string): Option<string> {
    match FirstMatch(lines, key)
    case None => None
    case Some(i) => Some(TextAfterColon(lines[i]))
  }

  /** `int.Parse` of a parameter's text; a rejected text stops the run. */
  function IntFromText(text: string, key: string): Result<int, Error> {
    match ParseInt(text)
    case Some(v) => Ok(v)
    case None => Err(ParseFailure(key))
  }

  /** `double.Parse` of a parameter's text; a rejected text stops the run. */
  function DecimalFromText(text: string, key: string): Result<Decimal, Error> {
    match ParseDecimal(text)
    case Some(v) => Ok(v)
    case None => Err(ParseFailure(key))
  }

  /** The value `GetIntValueFromGCode` returns: 0 for a missing key, the parsed text
      of the first matching line otherwise. */
  function IntParameter(lines: seq<string>, key: string): Result<int, Error> {
    match LookupText(lines, key)
    case None => Ok(0)
    case Some(text) => IntFromText(text, key)
  }

  /** The value `GetDoubleValueFromGCode` returns: 0.0 for a missing key, the parsed
      text of the first matching line otherwise. */
  function DecimalParameter(lines: seq<string>, key: string): Result<Decimal, Error> {
    match LookupText(lines, key)
    case None => Ok(Zero)
    case Some(text) => DecimalFromText(text, key)
  }

  /** Scans the lines in order and parses the first one that contains `key`. */
  method GetIntValueFromGCode(lines: seq<string>, key: string) returns (r: Result<int, Error>)
    ensures r == IntParameter(lines, key)
  {
    for i := 0 to |lines|
      invariant forall j :: 0 <= j < i ==> !Contains(lines[j], key)
    {
      if Contains(lines[i], key) {
        LookupAt(lines, key, i);
        r := IntFromText(TextAfterColon(lines[i]), key);
        return;
      }
    }
    MissingKeyIsZero(lines, key);
    r := Ok(0);
  }

  /** Scans the lines in order and parses the first one that contains `key`. */
  method GetDoubleValueFromGCode(lines: seq<string>, key: string) returns (r: Result<Decimal, Error>)
    ensures r == DecimalParameter(lines, key)
  {
    for i := 0 to |lines|
      invariant forall j :: 0 <= j < i ==> !Contains(lines[j], key)
    {
      if Contains(lines[i], key) {
        LookupAt(lines, key, i);
        r := DecimalFromText(TextAfterColon(lines[i]), key);
        return;
      }
    }
    MissingKeyIsZero(lines, key);
    r := Ok(Zero);
  }

  /** First match wins: the lookup reads line `k` when it is the first line holding
      `key`, whatever later lines say. */
  lemma LookupAt(lines: seq<string>, key: string, k: nat)
    requires k < |lines| && Contains(lines[k], key)
    requires forall j :: 0 <= j < k ==> !Contains(lines[j], key)
    ensures LookupText(lines, key) == Some(TextAfterColon(lines[k]))
  {
    var m := FirstMatch(lines, key);
    assert m != None by {
      assert ((line: string) => Contains(line, key))(lines[k]);
    }
  }

  /** A missing key reads as zero, for both kinds of lookup. */
  lemma MissingKeyIsZero(lines: seq<string>, key: string)
    requires forall i :: 0 <= i < |lines| ==> !Contains(lines[i], key)
    ensures IntParameter(lines, key) == Ok(0)
    ensures DecimalParameter(lines, key) == Ok(Zero)
  {
    assert FirstMatch(lines, key) == None;
  }

  /** Lines after a matching line never change the value. */
  lemma {:induction false} LaterLinesIgnored(a: seq<string>, b: seq<string>, key: string)
    requires exists i :: 0 <= i < |a| && Contains(a[i], key)
    ensures LookupText(a + b, key) == LookupText(a, key)
  {
    var k := FirstMatch(a, key).value;
    forall j | 0 <= j < k ensures !Contains((a + b)[j], key) {
      assert (a + b)[j] == a[j];
    }
    assert (a + b)[k] == a[k];
    LookupAt(a + b, key, k);
  }

  /** Lines that do not hold the key are skipped. */
  lemma {:induction false} NonMatchingLinesSkipped(a: seq<string>, b: seq<string>, key: string)
    requires forall i :: 0 <= i < |a| ==> !Contains(a[i], key)
    ensures LookupText(a + b, key) == LookupText(b, key)
  {
    match FirstMatch(b, key)
    case None =>
      forall i | 0 <= i < |a + b| ensures !Contains((a + b)[i], key) {
        if i >= |a| { assert (a + b)[i] == b[i - |a|]; }
      }
      assert FirstMatch(a + b, key) == None;
    case Some(k) =>
      forall j | 0 <= j < |a| + k ensures !Contains((a + b)[j], key) {
        if j >= |a| { assert (a + b)[j] == b[j - |a|]; }
      }
      assert (a + b)[|a| + k] == b[k];
      LookupAt(a + b, key, |a| + k);
  }

  // ---------------------------------------------------------------------------
  // Comment passthrough

  /** How many lines precede the first line holding the start marker (all of them
      when there is no marker). */
  function CommentEnd(lines: seq<string>): (n: nat)
    ensures n <= |lines|
    ensures forall i :: 0 <= i < n ==> !Contains(lines[i], StartMarker)
    ensures n < |lines| ==> Contains(lines[n], StartMarker)
  {
    match FirstMatch(lines, StartMarker)
    case None => |lines|
    case Some(i) => i
  }

  /** One comment line re-prefixed for the generated program: its first character
      replaced by `;*`, a newline after it. */
  function CommentLine(line: string): string
    requires line != []
  {
    ";*" + line[1..] + "\n"
  }

  predicate IsEmpty(line: string) {
    line == []
  }

  predicate NoEmptyLine(lines: seq<string>) {
    forall i :: 0 <= i < |lines| ==> lines[i] != []
  }

  /** The re-prefixed lines, one after another in their original order. */
  function CommentLines(lines: seq<string>): string
    requires NoEmptyLine(lines)
  {
    if lines == [] then "" else CommentLines(lines[..|lines| - 1]) + CommentLine(lines[|lines| - 1])
  }

  /** The comment block the generated program carries: every line before the start
      marker, re-prefixed. An empty line there makes `Substring(1)` throw, which the
      model reports with its index. */
  function CommentSection(lines: seq<string>): Result<string, Error> {
    var kept := lines[..CommentEnd(lines)];
    match FirstIndex(kept, IsEmpty)
    case Some(k) => Err(EmptyCommentLine(k))
    case None => Ok(CommentLines(kept))
  }

  /** Copies the lines before the start marker, re-prefixed, into a new text. */
  method GetOriginalCommentSection(lines: seq<string>) returns (r: Result<string, Error>)
    ensures r == CommentSection(lines)
  {
    var comments := "";
    var i := 0;
    while i < |lines|
      invariant 0 <= i <= |lines|
      invariant forall j :: 0 <= j < i ==> !Contains(lines[j], StartMarker)
      invariant NoEmptyLine(lines[..i])
      invariant comments == CommentLines(lines[..i])
    {
      if Contains(lines[i], StartMarker) {
        break;
      }
      if lines[i] == [] {
        r := Err(EmptyCommentLine(i));
        assert CommentEnd(lines) > i;
        assert lines[..CommentEnd(lines)][..i] == lines[..i];
        EmptyLineAt(lines[..CommentEnd(lines)], i);
        return;
      }
      NoEmptyLineStep(lines, i);
      comments := comments + CommentLine(lines[i]);
      i := i + 1;
    }
    assert CommentEnd(lines) == i;
    NoEmptyLineFound(lines[..i]);
    r := Ok(comments);
  }

  /** One more non-empty line keeps the copied lines non-empty and adds its
      re-prefixed form to their block. */
  lemma NoEmptyLineStep(lines: seq<string>, i: nat)
    requires i < |lines| && lines[i] != [] && NoEmptyLine(lines[..i])
    ensures NoEmptyLine(lines[..i + 1])
    ensures CommentLines(lines[..i + 1]) == CommentLines(lines[..i]) + CommentLine(lines[i])
  {
    assert lines[..i + 1][..i] == lines[..i];
    var next := lines[..i + 1];
    forall j | 0 <= j < |next| ensures next[j] != [] {
      if j < i { assert lines[..i][j] == lines[j]; }
    }
  }

  lemma EmptyLineAt(kept: seq<string>, k: nat)
    requires k < |kept| && kept[k] == []
    requires NoEmptyLine(kept[..k])
    ensures FirstIndex(kept, IsEmpty) == Some(k)
  {
    var f := FirstIndex(kept, IsEmpty);
    assert f != None by {
      assert IsEmpty(kept[k]);
    }
    forall j | 0 <= j < k ensures kept[j] != [] {
      assert kept[..k][j] == kept[j];
    }
  }

  /** The re-prefixed block of two runs of lines is the two blocks one after the other. */
  lemma {:induction false} CommentLinesAppend(a: seq<string>, b: seq<string>)
    requires NoEmptyLine(a) && NoEmptyLine(b)
    ensures NoEmptyLine(a + b)
    ensures CommentLines(a + b) == CommentLines(a) + CommentLines(b)
    decreases |b|
  {
    assert NoEmptyLine(a + b) by {
      forall i | 0 <= i < |a + b| ensures (a + b)[i] != [] {
        if i >= |a| { assert (a + b)[i] == b[i - |a|]; }
      }
    }
    if b == [] {
      assert a + b == a;
    } else {
      var b' := b[..|b| - 1];
      assert (a + b)[..|a + b| - 1] == a + b';
      CommentLinesAppend(a, b');
    }
  }

  /** The marker line and every line after it are left out of the comment block. */
  lemma {:induction false} MarkerEndsComments(before: seq<string>, marker: string, after: seq<string>)
    requires Contains(marker, StartMarker)
    ensures CommentSection(before + [marker] + after) == CommentSection(before)
  {
    var lines := before + [marker] + after;
    var end := CommentEnd(before);
    forall j | 0 <= j < end ensures !Contains(lines[j], StartMarker) {
      assert lines[j] == before[j];
    }
    assert lines[end] == (if end < |before| then before[end] else marker);
    assert CommentEnd(lines) == end by {
      if end < |before| {
        assert Contains(lines[end], StartMarker);
      }
      CommentEndAt(lines, end);
    }
    assert lines[..end] == before[..end];
  }

  lemma CommentEndAt(lines: seq<string>, k: nat)
    requires k < |lines| && Contains(lines[k], StartMarker)
    requires forall j :: 0 <= j < k ==> !Contains(lines[j], StartMarker)
    ensures CommentEnd(lines) == k
  {
    var m := FirstMatch(lines, StartMarker);
    assert m != None by {
      assert ((line: string) => Contains(line, StartMarker))(lines[k]);
    }
  }

  /** Without a marker every line is copied, one re-prefixed line each, in order. */
  lemma NoMarkerCopiesAll(lines: seq<string>)
    requires forall i :: 0 <= i < |lines| ==> !Contains(lines[i], StartMarker)
    requires NoEmptyLine(lines)
    ensures CommentSection(lines) == Ok(CommentLines(lines))
  {
    NoMarkerEnd(lines);
    assert lines[..|lines|] == lines;
    NoEmptyLineFound(lines);
  }

  lemma NoMarkerEnd(lines: seq<string>)
    requires forall i :: 0 <= i < |lines| ==> !Contains(lines[i], StartMarker)
    ensures CommentEnd(lines) == |lines|
  {
    forall i | 0 <= i < |lines| ensures !((line: string) => Contains(line, StartMarker))(lines[i]) {
    }
  }

  lemma NoEmptyLineFound(lines: seq<string>)
    requires NoEmptyLine(lines)
    ensures FirstIndex(lines, IsEmpty) == None
  {
    forall i | 0 <= i < |lines| ensures !IsEmpty(lines[i]) {
    }
  }
}
