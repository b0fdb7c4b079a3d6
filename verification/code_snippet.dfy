/**
  A window of source lines around a target line, prepared for display: the
  window selector `get_code_snippet` and the `CodeSnippet` view with its
  accessors, its two mutators (line numbering and payload highlighting) and its
  rendering as one block of text.

  Each mutator returns a new snippet instead of changing one in place. The two
  colourising hooks of the view, `get_line_number` and `apply_highlight`, are
  passed in as functions.
 */
module CodeSnippet {
  import opened Wrappers
  import opened Text

  /** Number of lines shown on each side of the target when the caller names none. */
  const DefaultLinesOfContext: nat := 5

  /** The two errors the view raises: IndexError on `lines`, ValueError from `str.index`. */
  datatype SnippetError = IndexOutOfRange | SubstringNotFound

  /**
    `lines` is the visible window, `startLine` the 0-based file index of
    `lines[0]`, and `targetIndex` the position of the focused line in `lines`.
   */
  datatype Snippet = Snippet(lines: seq<string>, startLine: nat, targetIndex: nat)

  /**
    Selects the lines within `linesOfContext` of the 1-based `lineNumber`. A
    line number past the end of the file is not rejected here: the window is
    clipped, and the target lies outside it, so reading the target fails.
   */
  function GetCodeSnippet(lines: seq<string>, lineNumber: int, linesOfContext: nat): (s: Snippet)
    requires 1 <= lineNumber
    ensures s.startLine + s.targetIndex == lineNumber - 1
    ensures lineNumber - 1 <= linesOfContext ==> s.startLine == 0
    ensures lineNumber - 1 > linesOfContext ==> s.targetIndex == linesOfContext
    ensures |s.lines| <= 2 * linesOfContext + 1
    ensures forall i :: 0 <= i < |s.lines| ==> s.startLine + i < |lines| && s.lines[i] == lines[s.startLine + i]
    ensures |s.lines| == if |lines| <= s.startLine then 0 else Min(lineNumber + linesOfContext, |lines|) - s.startLine
    ensures lineNumber <= |lines| <==> s.targetIndex < |s.lines|
  {
    var targetLineIndex := lineNumber - 1;
    var endLineIndex := targetLineIndex + linesOfContext + 1;
    if targetLineIndex <= linesOfContext then
      Snippet(Slice(lines, 0, endLineIndex), 0, targetLineIndex)
    else
      var startLineIndex := targetLineIndex - linesOfContext;
      Snippet(Slice(lines, startLineIndex, endLineIndex), startLineIndex, linesOfContext)
  }

  /** The `target_line` getter. */
  function TargetLine(s: Snippet): (r: Result<string, SnippetError>)
    ensures r.Success? <==> s.targetIndex < |s.lines|
    ensures r.Success? ==> r.value == s.lines[s.targetIndex]
    ensures r.Failure? ==> r.error == IndexOutOfRange
  {
    if s.targetIndex < |s.lines| then Success(s.lines[s.targetIndex]) else Failure(IndexOutOfRange)
  }

  /** The `target_line` setter: replaces the target line and nothing else. */
  function SetTargetLine(s: Snippet, value: string): (r: Result<Snippet, SnippetError>)
    ensures r.Success? <==> s.targetIndex < |s.lines|
    ensures r.Failure? ==> r.error == IndexOutOfRange
    ensures r.Success? ==> TargetLine(r.value) == Success(value)
    ensures r.Success? ==> r.value.startLine == s.startLine && r.value.targetIndex == s.targetIndex
    ensures r.Success? ==> |r.value.lines| == |s.lines|
    ensures r.Success? ==> forall i :: 0 <= i < |s.lines| && i != s.targetIndex ==> r.value.lines[i] == s.lines[i]
  {
    if s.targetIndex < |s.lines| then Success(s.(lines := s.lines[s.targetIndex := value]))
    else Failure(IndexOutOfRange)
  }

  /**
    The `previous_line` property: the line before the target, or the empty
    string when the target is first in the window or lies beyond its end.
   */
  function PreviousLine(s: Snippet): (r: string)
    ensures s.targetIndex == 0 ==> r == []
    ensures 0 < s.targetIndex <= |s.lines| ==> r == s.lines[s.targetIndex - 1]
    ensures |s.lines| < s.targetIndex ==> r == []
  {
    if s.targetIndex == 0 || |s.lines| < s.targetIndex then [] else s.lines[s.targetIndex - 1]
  }

  /** Prefixes each line with `getLineNumber` of its number, counting up from `firstNumber`. */
  function NumberLines(lines: seq<string>, firstNumber: int, getLineNumber: int -> string): (r: seq<string>)
    ensures |r| == |lines|
    ensures forall i :: 0 <= i < |lines| ==> r[i] == getLineNumber(firstNumber + i) + ":" + lines[i]
    decreases |lines|
  {
    if |lines| == 0 then []
    else [getLineNumber(firstNumber) + ":" + lines[0]] + NumberLines(lines[1..], firstNumber + 1, getLineNumber)
  }

  /**
    `add_line_numbers`: every line gains the prefix `<number>:` where the number
    is its 1-based position in the file. Applying it twice prefixes twice.
   */
  function AddLineNumbers(s: Snippet, getLineNumber: int -> string): (r: Snippet)
    ensures r.startLine == s.startLine && r.targetIndex == s.targetIndex
    ensures |r.lines| == |s.lines|
    ensures forall i :: 0 <= i < |s.lines| ==> r.lines[i] == getLineNumber(s.startLine + i + 1) + ":" + s.lines[i]
  {
    s.(lines := NumberLines(s.lines, s.startLine + 1, getLineNumber))
  }

  /** Removes `prefix` from the front of `line` when it is there. */
  function StripPrefix(prefix: string, line: string): string
  {
    if prefix <= line then line[|prefix|..] else line
  }

  /** Removes from every line the prefix that `AddLineNumbers` would put there. */
  function StripLineNumbers(s: Snippet, getLineNumber: int -> string): Snippet
  {
    s.(lines := seq(|s.lines|, i requires 0 <= i < |s.lines| =>
      StripPrefix(getLineNumber(s.startLine + i + 1) + ":", s.lines[i])))
  }

  /**
    `highlight_line`: finds the first case-insensitive occurrence of `payload`
    in the target line and wraps that span, in its original case, with
    `applyHighlight`. Fails when the target is out of range or the payload does
    not occur.
   */
  function HighlightLine(s: Snippet, payload: string, applyHighlight: string -> string): (r: Result<Snippet, SnippetError>)
    ensures r.Success? <==> s.targetIndex < |s.lines| && Occurs(Lower(s.lines[s.targetIndex]), Lower(payload))
    ensures s.targetIndex >= |s.lines| ==> r == Failure(IndexOutOfRange)
    ensures r.Failure? && s.targetIndex < |s.lines| ==> r.error == SubstringNotFound
    ensures r.Success? ==> r.value.startLine == s.startLine && r.value.targetIndex == s.targetIndex
    ensures r.Success? ==> |r.value.lines| == |s.lines|
    ensures r.Success? ==> forall i :: 0 <= i < |s.lines| && i != s.targetIndex ==> r.value.lines[i] == s.lines[i]
  {
    match TargetLine(s)
    case Failure(e) => Failure(e)
    case Success(line) =>
      match IndexOf(Lower(line), Lower(payload))
      case None => Failure(SubstringNotFound)
      case Some(indexOfPayload) =>
        var endOfPayload := indexOfPayload + |payload|;
        SetTargetLine(s, line[..indexOfPayload] + applyHighlight(line[indexOfPayload..endOfPayload]) + line[endOfPayload..])
  }

  /** `str(snippet)`: the lines joined with newlines, in order. */
  function ToText(s: Snippet): (r: string)
    ensures |s.lines| == 0 ==> r == []
    ensures |s.lines| == 1 ==> r == s.lines[0]
    ensures |s.lines| > 1 ==> s.lines[0] + "\n" <= r
  {
    Join(s.lines, "\n")
  }

  // ---------------------------------------------------------------------------
  // Properties of the window selector

  /**
    The window holds exactly the file lines whose distance from the target is
    at most `linesOfContext`.
   */
  lemma WindowIsContextRadius(lines: seq<string>, lineNumber: int, linesOfContext: nat, j: int)
    requires 1 <= lineNumber <= |lines|
    requires 0 <= j < |lines|
    ensures var s := GetCodeSnippet(lines, lineNumber, linesOfContext);
      s.startLine <= j < s.startLine + |s.lines| <==> lineNumber - 1 - linesOfContext <= j <= lineNumber - 1 + linesOfContext
  {
  }

  /** Which branch the selector takes decides where the window starts and where the target sits in it. */
  lemma SelectionBranches(lines: seq<string>, lineNumber: int, linesOfContext: nat)
    requires 1 <= lineNumber
    ensures var s := GetCodeSnippet(lines, lineNumber, linesOfContext);
      if lineNumber - 1 <= linesOfContext then s.startLine == 0 && s.targetIndex == lineNumber - 1
      else s.startLine == lineNumber - 1 - linesOfContext && s.targetIndex == linesOfContext
  {
  }

  /** A target with a full radius of lines on both sides gets a window of `2 * linesOfContext + 1` lines. */
  lemma FullWindowLength(lines: seq<string>, lineNumber: int, linesOfContext: nat)
    requires linesOfContext < lineNumber && lineNumber + linesOfContext <= |lines|
    ensures |GetCodeSnippet(lines, lineNumber, linesOfContext).lines| == 2 * linesOfContext + 1
  {
  }

  /** The selected target line is the file's line `lineNumber`, and reading it fails exactly past the end of the file. */
  lemma SelectedTargetIsFileLine(lines: seq<string>, lineNumber: int, linesOfContext: nat)
    requires 1 <= lineNumber
    ensures lineNumber <= |lines| ==> TargetLine(GetCodeSnippet(lines, lineNumber, linesOfContext)) == Success(lines[lineNumber - 1])
    ensures lineNumber > |lines| ==> TargetLine(GetCodeSnippet(lines, lineNumber, linesOfContext)) == Failure(IndexOutOfRange)
  {
  }

  /**
    For a line number inside the file, the `len(lines) < target_index` guard
    never fires, and `previous_line` is the file line before the target, except
    that it is empty on the first line of the file and whenever the radius is zero.
   */
  lemma SelectedPreviousLine(lines: seq<string>, lineNumber: int, linesOfContext: nat)
    requires 1 <= lineNumber <= |lines|
    ensures var s := GetCodeSnippet(lines, lineNumber, linesOfContext);
      s.targetIndex <= |s.lines| &&
      PreviousLine(s) == if lineNumber == 1 || linesOfContext == 0 then [] else lines[lineNumber - 2]
  {
  }

  /**
    For a line number past the end of the file, the `len(lines) < target_index`
    guard fires exactly when the target lies more than one line past the end
    and the radius is not zero.
    One line past the end, with a non-zero radius, `previous_line` is the last
    line of the file; in every other case it is empty.
   */
  lemma PreviousLinePastEnd(lines: seq<string>, lineNumber: int, linesOfContext: nat)
    requires |lines| < lineNumber
    ensures var s := GetCodeSnippet(lines, lineNumber, linesOfContext);
      && (|s.lines| < s.targetIndex <==> |lines| + 1 < lineNumber && 0 < linesOfContext)
      && PreviousLine(s) == if lineNumber == |lines| + 1 && 0 < |lines| && 0 < linesOfContext then lines[|lines| - 1] else []
  {
  }

  // ---------------------------------------------------------------------------
  // Properties of the accessors

  /** Setting the target twice is the same as setting it to the second value. */
  lemma SetTwiceKeepsLast(s: Snippet, first: string, second: string)
    requires s.targetIndex < |s.lines|
    ensures SetTargetLine(SetTargetLine(s, first).value, second) == SetTargetLine(s, second)
  {
    assert s.lines[s.targetIndex := first][s.targetIndex := second] == s.lines[s.targetIndex := second];
  }

  /** Setting the target to what it already holds changes nothing. */
  lemma SetToCurrentIsIdentity(s: Snippet)
    requires s.targetIndex < |s.lines|
    ensures SetTargetLine(s, s.lines[s.targetIndex]) == Success(s)
  {
    assert s.lines[s.targetIndex := s.lines[s.targetIndex]] == s.lines;
  }

  // ---------------------------------------------------------------------------
  // Properties of line numbering

  /** Numbering loses nothing: stripping each line's own prefix recovers the window. */
  lemma StripUndoesLineNumbers(s: Snippet, getLineNumber: int -> string)
    ensures StripLineNumbers(AddLineNumbers(s, getLineNumber), getLineNumber) == s
  {
    var n := AddLineNumbers(s, getLineNumber);
    var t := StripLineNumbers(n, getLineNumber);
    forall i | 0 <= i < |s.lines|
      ensures t.lines[i] == s.lines[i]
    {
      var prefix := getLineNumber(s.startLine + i + 1) + ":";
      assert n.lines[i] == prefix + s.lines[i];
      assert (prefix + s.lines[i])[|prefix|..] == s.lines[i];
    }
  }

  /**
    Numbering a window that shows the file from `startLine` on prefixes each
    file line with its own number, the target line included.
   */
  lemma NumberedWindowShowsFileNumbers(s: Snippet, lines: seq<string>, getLineNumber: int -> string)
    requires s.startLine + |s.lines| <= |lines|
    requires forall i :: 0 <= i < |s.lines| ==> s.lines[i] == lines[s.startLine + i]
    ensures var n := AddLineNumbers(s, getLineNumber);
      && (forall i :: 0 <= i < |s.lines| ==> n.lines[i] == getLineNumber(s.startLine + i + 1) + ":" + lines[s.startLine + i])
      && (s.targetIndex < |s.lines| ==>
            TargetLine(n) == Success(getLineNumber(s.startLine + s.targetIndex + 1) + ":" + lines[s.startLine + s.targetIndex]))
  {
  }

  /**
    Every numbered line of a selected window carries the number of the file
    line it shows, and the target carries `lineNumber`.
   */
  lemma NumberedSelectionShowsFileNumbers(lines: seq<string>, lineNumber: int, linesOfContext: nat, getLineNumber: int -> string)
    requires 1 <= lineNumber <= |lines|
    ensures var s := GetCodeSnippet(lines, lineNumber, linesOfContext);
      var n := AddLineNumbers(s, getLineNumber);
      && (forall i :: 0 <= i < |n.lines| ==> n.lines[i] == getLineNumber(s.startLine + i + 1) + ":" + lines[s.startLine + i])
      && TargetLine(n) == Success(getLineNumber(lineNumber) + ":" + lines[lineNumber - 1])
  {
    var s := GetCodeSnippet(lines, lineNumber, linesOfContext);
    assert s.startLine + |s.lines| <= |lines|;
    NumberedWindowShowsFileNumbers(s, lines, getLineNumber);
  }

  // ---------------------------------------------------------------------------
  // Properties of highlighting

  /**
    When the folded payload first occurs at `k` in the folded target line `t`,
    highlighting replaces `t` by `t[..k] + applyHighlight(t[k..k+|payload|]) + t[k+|payload|..]`,
    and the wrapped span equals the payload up to case.
   */
  lemma HighlightWrapsFirstMatch(s: Snippet, payload: string, applyHighlight: string -> string, k: int)
    requires s.targetIndex < |s.lines|
    requires IsFirstOccurrence(Lower(s.lines[s.targetIndex]), Lower(payload), k)
    ensures var t := s.lines[s.targetIndex];
      && k + |payload| <= |t|
      && Lower(t[k..k + |payload|]) == Lower(payload)
      && HighlightLine(s, payload, applyHighlight)
         == Success(s.(lines := s.lines[s.targetIndex := t[..k] + applyHighlight(t[k..k + |payload|]) + t[k + |payload|..]]))
  {
    var t := s.lines[s.targetIndex];
    var e := k + |payload|;
    assert |Lower(payload)| == |payload|;
    assert Lower(t)[k..e] == Lower(payload);
    LowerOfSlice(t, k, e);
    var found := IndexOf(Lower(t), Lower(payload));
    FirstOccurrenceUnique(Lower(t), Lower(payload), found.value, k);
    assert found == Some(k);
  }

  /** With a hook that styles nothing, highlighting a present payload leaves the snippet as it was. */
  lemma PlainHighlightIsIdentity(s: Snippet, payload: string)
    requires HighlightLine(s, payload, x => x).Success?
    ensures HighlightLine(s, payload, x => x) == Success(s)
  {
    var t := s.lines[s.targetIndex];
    var k := IndexOf(Lower(t), Lower(payload)).value;
    var e := k + |payload|;
    assert t[..k] + t[k..e] + t[e..] == t;
    SetToCurrentIsIdentity(s);
  }

  // ---------------------------------------------------------------------------
  // Properties of rendering

  /** The rendered block splits back into the window's lines when no line contains a newline. */
  lemma RenderedTextSplitsIntoLines(s: Snippet)
    requires |s.lines| > 0
    requires forall i :: 0 <= i < |s.lines| ==> '\n' !in s.lines[i]
    ensures Split(ToText(s), '\n') == s.lines
  {
    SplitJoin(s.lines, '\n');
  }
}
