/** The document formatter of the editor extension: it re-indents every non-blank
    line by counting brackets, and answers with one text edit per line whose
    indentation is wrong. A document is its sequence of line texts. */
module Formatter {
  import opened Base
  import opened Text

  /** Replace columns [0, end) of line `line` by `text`. */
  datatype Edit = Edit(line: nat, end: nat, text: string)

  /** One indentation step: `tabSize` spaces, or a tab when spaces are off. */
  function IndentUnit(insertSpaces: bool, tabSize: nat): (u: string)
    ensures insertSpaces ==> |u| == tabSize
    ensures !insertSpaces ==> u == "\t"
    ensures Blank(u)
  {
    if insertSpaces then
      var u := Repeat(" ", tabSize);
      RepeatBlank(" ", tabSize);
      u
    else "\t"
  }

  /** Every character of s is whitespace. */
  predicate Blank(s: string)
  {
    forall i :: 0 <= i < |s| ==> IsJsWhitespace(s[i])
  }

  lemma {:induction false} RepeatBlank(unit: string, n: nat)
    requires Blank(unit)
    ensures Blank(Repeat(unit, n))
  {
    if n > 0 {
      RepeatBlank(unit, n - 1);
      var r := Repeat(unit, n);
      assert r == unit + Repeat(unit, n - 1);
      forall i | 0 <= i < |r| ensures IsJsWhitespace(r[i]) {
        if i >= |unit| { assert r[i] == Repeat(unit, n - 1)[i - |unit|]; }
      }
    }
  }

  /** The editor's first non-whitespace column of a line. */
  function Indentation(line: string): nat
  {
    LeadingCount(line, IsJsWhitespace)
  }

  /** An empty or whitespace-only line. */
  predicate IsBlank(line: string)
  {
    Indentation(line) == |line|
  }

  predicate Closes(line: string)
  {
    StartsWith(TrimJs(line), "}") || StartsWith(TrimJs(line), "]")
  }

  predicate Opens(line: string)
  {
    EndsWith(TrimJs(line), "{") || EndsWith(TrimJs(line), "[")
  }

  /** What the level computation reads of a line. */
  datatype Shape = Shape(blank: bool, closes: bool, opens: bool)

  function ShapeOf(line: string): Shape
  {
    Shape(IsBlank(line), Closes(line), Opens(line))
  }

  /** The level a non-blank line is indented at, given the level before it: one
      less when it starts by closing a bracket, but never below zero. */
  function LineLevel(shape: Shape, level: nat): (l: nat)
    ensures l <= level <= l + 1
    ensures l < level <==> shape.closes && level > 0
  {
    if shape.closes then (if level == 0 then 0 else level - 1) else level
  }

  /** The level after a line: blank lines leave it alone, a line ending with an
      opening bracket raises it. */
  function NextLevel(shape: Shape, level: nat): nat
  {
    if shape.blank then level
    else if shape.opens then LineLevel(shape, level) + 1
    else LineLevel(shape, level)
  }

  /** The level before line i, read from the lines above it. */
  function LevelBefore(lines: seq<string>, i: nat): nat
    requires i <= |lines|
  {
    if i == 0 then 0 else NextLevel(ShapeOf(lines[i - 1]), LevelBefore(lines, i - 1))
  }

  /** The indentation line j should have. */
  function Target(lines: seq<string>, unit: string, j: nat): string
    requires j < |lines|
  {
    Repeat(unit, LineLevel(ShapeOf(lines[j]), LevelBefore(lines, j)))
  }

  /** Line j is not blank and its indentation is not its target. */
  predicate NeedsEdit(lines: seq<string>, unit: string, j: nat)
    requires j < |lines|
  {
    !IsBlank(lines[j]) && lines[j][..Indentation(lines[j])] != Target(lines, unit, j)
  }

  /** Some edit of es is for line j. */
  predicate EditsLine(es: seq<Edit>, j: nat)
  {
    exists k :: 0 <= k < |es| && es[k].line == j
  }

  lemma EditsLineConcat(a: seq<Edit>, b: seq<Edit>, j: nat)
    ensures EditsLine(a + b, j) <==> EditsLine(a, j) || EditsLine(b, j)
  {
    if EditsLine(a + b, j) {
      var k :| 0 <= k < |a + b| && (a + b)[k].line == j;
      if k >= |a| { assert b[k - |a|].line == j; }
    }
    if EditsLine(a, j) {
      var k :| 0 <= k < |a| && a[k].line == j;
      assert (a + b)[k].line == j;
    }
    if EditsLine(b, j) {
      var k :| 0 <= k < |b| && b[k].line == j;
      assert (a + b)[k + |a|].line == j;
    }
  }

  /** What the loop body adds for line i of the document, the level before it being
      `level`: nothing for a blank line or a line already at its indentation. */
  function LineEdits(line: string, unit: string, i: nat, level: nat): (es: seq<Edit>)
    ensures |es| <= 1
    ensures forall k :: 0 <= k < |es| ==> es[k].line == i
  {
    if IsBlank(line) then []
    else
      var cur := Indentation(line);
      var correct := Repeat(unit, LineLevel(ShapeOf(line), level));
      if cur != |correct| || line[..cur] != correct then [Edit(i, cur, correct)] else []
  }

  /** At its own level, a line gets an edit exactly when it needs one, and the edit
      puts its target indentation in place of its current one. */
  lemma LineEditsSpec(lines: seq<string>, unit: string, j: nat)
    requires j < |lines|
    ensures LineEdits(lines[j], unit, j, LevelBefore(lines, j))
      == if NeedsEdit(lines, unit, j) then [Edit(j, Indentation(lines[j]), Target(lines, unit, j))] else []
  {
  }

  /** The edits for lines i.. of the document, the level before line i being `level`. */
  function EditsFrom(lines: seq<string>, unit: string, i: nat, level: nat): (es: seq<Edit>)
    requires i <= |lines|
    ensures forall k :: 0 <= k < |es| ==> i <= es[k].line < |lines|
    ensures forall k, m :: 0 <= k < m < |es| ==> es[k].line < es[m].line
    decreases |lines| - i
  {
    if i == |lines| then []
    else LineEdits(lines[i], unit, i, level) + EditsFrom(lines, unit, i + 1, NextLevel(ShapeOf(lines[i]), level))
  }

  /** `provideDocumentFormattingEdits` with the indentation unit already chosen. */
  function Edits(lines: seq<string>, unit: string): seq<Edit>
  {
    EditsFrom(lines, unit, 0, 0)
  }

  /** The body of the provider's loop for line i: the edits it pushes and the level
      it leaves. */
  method FormatLine(line: string, unit: string, i: nat, level: nat) returns (pushed: seq<Edit>, next: nat)
    ensures pushed == LineEdits(line, unit, i, level)
    ensures next == NextLevel(ShapeOf(line), level)
  {
    pushed := [];
    next := level;
    if !IsBlank(line) {
      var trimmed := TrimJs(line);
      if StartsWith(trimmed, "}") || StartsWith(trimmed, "]") {
        next := if next == 0 then 0 else next - 1;
      }
      var cur := Indentation(line);
      var correct := Repeat(unit, next);
      if cur != |correct| || line[..cur] != correct {
        pushed := [Edit(i, cur, correct)];
      }
      if EndsWith(trimmed, "{") || EndsWith(trimmed, "[") {
        next := next + 1;
      }
    }
  }

  /** The provider's loop, reading the editor settings. */
  method ProvideEdits(lines: seq<string>, insertSpaces: bool, tabSize: nat) returns (edits: seq<Edit>)
    ensures edits == Edits(lines, IndentUnit(insertSpaces, tabSize))
  {
    var unit := IndentUnit(insertSpaces, tabSize);
    edits := [];
    var level: nat := 0;
    var i := 0;
    while i < |lines|
      invariant i <= |lines|
      invariant edits + EditsFrom(lines, unit, i, level) == Edits(lines, unit)
    {
      var pushed, next := FormatLine(lines[i], unit, i, level);
      assert EditsFrom(lines, unit, i, level) == pushed + EditsFrom(lines, unit, i + 1, next);
      AppendAssoc(edits, pushed, EditsFrom(lines, unit, i + 1, next));
      edits := edits + pushed;
      level := next;
      i := i + 1;
    }
  }

  lemma AppendAssoc(a: seq<Edit>, b: seq<Edit>, c: seq<Edit>)
    ensures a + (b + c) == (a + b) + c
  {
  }

  /** The edits from line i on are line i's own followed by those of the lines
      after it. */
  lemma EditsFromUnfold(lines: seq<string>, unit: string, i: nat)
    requires i < |lines|
    ensures EditsFrom(lines, unit, i, LevelBefore(lines, i))
      == LineEdits(lines[i], unit, i, LevelBefore(lines, i)) + EditsFrom(lines, unit, i + 1, LevelBefore(lines, i + 1))
  {
  }

  /** An edit for line j exactly when it needs one. */
  lemma {:induction false} EditsFromLines(lines: seq<string>, unit: string, i: nat)
    requires i <= |lines|
    ensures forall j :: i <= j < |lines| ==>
      (EditsLine(EditsFrom(lines, unit, i, LevelBefore(lines, i)), j) <==> NeedsEdit(lines, unit, j))
    decreases |lines| - i
  {
    if i < |lines| {
      EditsFromLines(lines, unit, i + 1);
      EditsFromUnfold(lines, unit, i);
      LineEditsSpec(lines, unit, i);
      var here := LineEdits(lines[i], unit, i, LevelBefore(lines, i));
      var rest := EditsFrom(lines, unit, i + 1, LevelBefore(lines, i + 1));
      forall j | i <= j < |lines| ensures EditsLine(here + rest, j) <==> NeedsEdit(lines, unit, j) {
        EditsLineConcat(here, rest, j);
        if j == i && NeedsEdit(lines, unit, j) {
          assert here[0].line == j;
        }
      }
    }
  }

  /** e replaces line e.line's indentation by its target. */
  predicate Fits(lines: seq<string>, unit: string, e: Edit)
  {
    e.line < |lines| && e.end == Indentation(lines[e.line]) && e.text == Target(lines, unit, e.line)
  }

  predicate AllFit(lines: seq<string>, unit: string, es: seq<Edit>)
  {
    forall k :: 0 <= k < |es| ==> Fits(lines, unit, es[k])
  }

  lemma AllFitConcat(lines: seq<string>, unit: string, a: seq<Edit>, b: seq<Edit>)
    requires AllFit(lines, unit, a) && AllFit(lines, unit, b)
    ensures AllFit(lines, unit, a + b)
  {
    forall k | 0 <= k < |a + b| ensures Fits(lines, unit, (a + b)[k]) {
      if k >= |a| { assert (a + b)[k] == b[k - |a|]; } else { assert (a + b)[k] == a[k]; }
    }
  }

  /** Each edit puts the target indentation in place of the current one. */
  lemma {:induction false} EditsFromContents(lines: seq<string>, unit: string, i: nat)
    requires i <= |lines|
    ensures AllFit(lines, unit, EditsFrom(lines, unit, i, LevelBefore(lines, i)))
    decreases |lines| - i
  {
    if i < |lines| {
      EditsFromContents(lines, unit, i + 1);
      EditsFromUnfold(lines, unit, i);
      LineEditsSpec(lines, unit, i);
      var here := LineEdits(lines[i], unit, i, LevelBefore(lines, i));
      assert AllFit(lines, unit, here) by {
        if NeedsEdit(lines, unit, i) {
          assert Fits(lines, unit, here[0]);
        }
      }
      AllFitConcat(lines, unit, here, EditsFrom(lines, unit, i + 1, LevelBefore(lines, i + 1)));
    }
  }

  /** The edits of the whole document: one per line that needs one, in line order,
      none for blank lines. */
  lemma EditsSpec(lines: seq<string>, unit: string)
    ensures var es := Edits(lines, unit);
      && (forall j :: 0 <= j < |lines| ==> (EditsLine(es, j) <==> NeedsEdit(lines, unit, j)))
      && (forall j :: 0 <= j < |lines| && IsBlank(lines[j]) ==> !EditsLine(es, j))
      && (forall k, m :: 0 <= k < m < |es| ==> es[k].line < es[m].line)
      && AllFit(lines, unit, es)
  {
    EditsAtStart(lines, unit);
    EditsFromLines(lines, unit, 0);
    EditsFromContents(lines, unit, 0);
  }

  lemma EditsAtStart(lines: seq<string>, unit: string)
    ensures Edits(lines, unit) == EditsFrom(lines, unit, 0, LevelBefore(lines, 0))
  {
  }

  // ------------------------------------------------------------------
  // Applying the edits
  // ------------------------------------------------------------------

  /** The first edit of es for line j. */
  function EditAt(es: seq<Edit>, j: nat): (r: Option<Edit>)
    ensures r.Some? ==> r.value in es && r.value.line == j
    ensures r.None? <==> !EditsLine(es, j)
  {
    if |es| == 0 then None
    else if es[0].line == j then Some(es[0])
    else
      var r := EditAt(es[1..], j);
      assert EditsLine(es, j) ==> EditsLine(es[1..], j) by {
        if EditsLine(es, j) {
          var k :| 0 <= k < |es| && es[k].line == j;
          assert es[1..][k - 1].line == j;
        }
      }
      assert EditsLine(es[1..], j) ==> EditsLine(es, j) by {
        if EditsLine(es[1..], j) {
          var k :| 0 <= k < |es[1..]| && es[1..][k].line == j;
          assert es[k + 1].line == j;
        }
      }
      r
  }

  /** What the editor does with a replacement of columns [0, end). */
  function Replace(line: string, e: Edit): string
  {
    e.text + line[if e.end <= |line| then e.end else |line|..]
  }

  /** The document after the edits. */
  function ApplyEdits(lines: seq<string>, es: seq<Edit>): (r: seq<string>)
    ensures |r| == |lines|
  {
    seq(|lines|, j requires 0 <= j < |lines| =>
      match EditAt(es, j)
      case None => lines[j]
      case Some(e) => Replace(lines[j], e))
  }

  /** The document with every non-blank line at its target indentation. */
  function Formatted(lines: seq<string>, unit: string): (r: seq<string>)
    ensures |r| == |lines|
  {
    seq(|lines|, j requires 0 <= j < |lines| =>
      if IsBlank(lines[j]) then lines[j]
      else Target(lines, unit, j) + lines[j][Indentation(lines[j])..])
  }

  /** Applying the provider's edits re-indents every non-blank line and touches
      nothing else. */
  lemma ApplyingFormats(lines: seq<string>, unit: string)
    ensures ApplyEdits(lines, Edits(lines, unit)) == Formatted(lines, unit)
  {
    var a := ApplyEdits(lines, Edits(lines, unit));
    var f := Formatted(lines, unit);
    forall j | 0 <= j < |lines| ensures a[j] == f[j] {
      ApplyingFormatsLine(lines, unit, j);
    }
  }

  lemma ApplyingFormatsLine(lines: seq<string>, unit: string, j: nat)
    requires j < |lines|
    ensures ApplyEdits(lines, Edits(lines, unit))[j] == Formatted(lines, unit)[j]
  {
    var line := lines[j];
    var ind := Indentation(line);
    EditForLine(lines, unit, j);
    match EditAt(Edits(lines, unit), j)
    case None =>
      if !IsBlank(line) {
        assert line == line[..ind] + line[ind..];
      }
    case Some(e) =>
  }

  /** The edit found for line j exists exactly when the line needs one, and fits it. */
  lemma EditForLine(lines: seq<string>, unit: string, j: nat)
    requires j < |lines|
    ensures EditAt(Edits(lines, unit), j).Some? <==> NeedsEdit(lines, unit, j)
    ensures EditAt(Edits(lines, unit), j).Some? ==> Fits(lines, unit, EditAt(Edits(lines, unit), j).value)
  {
    var es := Edits(lines, unit);
    EditsSpec(lines, unit);
    if EditAt(es, j).Some? {
      var k :| 0 <= k < |es| && es[k] == EditAt(es, j).value;
    }
  }

  /** Leading whitespace put in front of a line adds to its indentation. */
  lemma {:induction false} LeadingCountPrefix(w: string, s: string)
    requires Blank(w)
    ensures LeadingCount(w + s, IsJsWhitespace) == |w| + LeadingCount(s, IsJsWhitespace)
    decreases |w|
  {
    if |w| > 0 {
      assert (w + s)[0] == w[0] && IsJsWhitespace(w[0]);
      assert (w + s)[1..] == w[1..] + s;
      assert Blank(w[1..]) by { forall i | 0 <= i < |w[1..]| ensures IsJsWhitespace(w[1..][i]) { assert w[1..][i] == w[i + 1]; } }
      LeadingCountPrefix(w[1..], s);
    } else {
      assert w + s == s;
    }
  }

  /** Re-indenting a non-blank line keeps its trimmed text and gives it exactly the
      new indentation. */
  lemma Reindent(line: string, t: string)
    requires !IsBlank(line) && Blank(t)
    ensures var n := t + line[Indentation(line)..];
      && Indentation(n) == |t| && !IsBlank(n) && n[..|t|] == t && TrimJs(n) == TrimJs(line)
  {
    var ind := Indentation(line);
    var rest := line[ind..];
    var n := t + rest;
    LeadingCountPrefix(t, rest);
    LeadingCountSpec(line, IsJsWhitespace);
    assert LeadingCount(rest, IsJsWhitespace) == 0 by { assert rest[0] == line[ind]; }
    assert n[|t|..] == rest;
    TrimStartPrefix(t, rest, IsJsWhitespace);
    TrimStartDrops(line, IsJsWhitespace);
    TrimStartDrops(rest, IsJsWhitespace);
    assert rest[0..] == rest;
  }

  /** A formatted line has the original's blankness and trimmed text. */
  lemma FormattedLine(lines: seq<string>, unit: string, j: nat)
    requires Blank(unit) && j < |lines|
    ensures ShapeOf(Formatted(lines, unit)[j]) == ShapeOf(lines[j])
  {
    var line := lines[j];
    if !IsBlank(line) {
      RepeatBlank(unit, LineLevel(ShapeOf(line), LevelBefore(lines, j)));
      Reindent(line, Target(lines, unit, j));
    }
  }

  /** Two documents whose lines agree in shape. */
  predicate SameShapes(a: seq<string>, b: seq<string>)
  {
    |a| == |b| && forall j :: 0 <= j < |a| ==> ShapeOf(a[j]) == ShapeOf(b[j])
  }

  /** Levels depend only on the shapes of the lines above. */
  lemma {:induction false} SameShapesSameLevels(a: seq<string>, b: seq<string>, i: nat)
    requires SameShapes(a, b) && i <= |a|
    ensures LevelBefore(a, i) == LevelBefore(b, i)
  {
    if i > 0 {
      SameShapesSameLevels(a, b, i - 1);
      assert ShapeOf(a[i - 1]) == ShapeOf(b[i - 1]);
    }
  }

  /** The formatted document has the same blank lines and trimmed text as the
      original. */
  lemma FormattedShapes(lines: seq<string>, unit: string)
    requires Blank(unit)
    ensures SameShapes(Formatted(lines, unit), lines)
  {
    forall j | 0 <= j < |lines| ensures ShapeOf(Formatted(lines, unit)[j]) == ShapeOf(lines[j]) {
      FormattedLine(lines, unit, j);
    }
  }

  /** Formatting a formatted document changes nothing. */
  lemma FormatIdempotent(lines: seq<string>, unit: string)
    requires Blank(unit)
    ensures Edits(Formatted(lines, unit), unit) == []
  {
    var f := Formatted(lines, unit);
    forall j | 0 <= j < |f| ensures !NeedsEdit(f, unit, j) {
      var line := lines[j];
      if !IsBlank(line) {
        FormattedShapes(lines, unit);
        SameShapesSameLevels(f, lines, j);
        RepeatBlank(unit, LineLevel(ShapeOf(line), LevelBefore(lines, j)));
        Reindent(line, Target(lines, unit, j));
        assert Target(f, unit, j) == Target(lines, unit, j);
      }
    }
    var es := Edits(f, unit);
    EditsSpec(f, unit);
    if |es| > 0 {
      assert EditsLine(es, es[0].line);
    }
  }

  /** With the editor's settings: applying the edits, then asking again, yields no
      edits. */
  lemma ProvideEditsSettle(lines: seq<string>, insertSpaces: bool, tabSize: nat)
    ensures var unit := IndentUnit(insertSpaces, tabSize);
      Edits(ApplyEdits(lines, Edits(lines, unit)), unit) == []
  {
    var unit := IndentUnit(insertSpaces, tabSize);
    ApplyingFormats(lines, unit);
    FormatIdempotent(lines, unit);
  }
}
