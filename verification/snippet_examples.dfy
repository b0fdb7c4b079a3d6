/** Concrete windows and highlights, worked through the model. */
module SnippetExamples {
  import opened Wrappers
  import opened Text
  import opened CodeSnippet

  /** A target within the radius of the first line: the window starts at the top of the file. */
  lemma NearStartWindow()
    ensures var lines := ["a", "b", "TARGET", "d", "e", "f", "g", "h"];
      var s := GetCodeSnippet(lines, 3, DefaultLinesOfContext);
      s == Snippet(lines, 0, 2) && TargetLine(s) == Success("TARGET")
  {
    var lines := ["a", "b", "TARGET", "d", "e", "f", "g", "h"];
    var s := GetCodeSnippet(lines, 3, DefaultLinesOfContext);
    assert |s.lines| == 8;
    assert s.lines == lines;
  }

  /** A target far from the start in a 20-line file: the window is clipped at the end. */
  lemma FarWindow(lines: seq<string>)
    requires |lines| == 20
    ensures var s := GetCodeSnippet(lines, 15, DefaultLinesOfContext);
      s == Snippet(lines[9..20], 9, 5) && TargetLine(s) == Success(lines[14])
  {
    var s := GetCodeSnippet(lines, 15, DefaultLinesOfContext);
    assert |s.lines| == 11;
    assert s.lines == lines[9..20];
  }

  /** The folded payload "target" first occurs at position 6 of the folded example line. */
  lemma TargetFirstAtSix()
    ensures IsFirstOccurrence(Lower("has a Target word"), Lower("target"), 6)
  {
    var folded := Lower("has a Target word");
    assert folded == "has a target word";
    assert Lower("target") == "target";
    forall j | 0 <= j < 6
      ensures !OccursAt(folded, "target", j)
    {
      assert folded[j] != 't';
      assert folded[j..j + 6][0] == folded[j];
    }
    assert folded[6..12] == "target";
  }

  /** A highlight hook that brackets the span. */
  function Bracket(span: string): string
  {
    "<" + span + ">"
  }

  /** Bracketing characters 6 to 12 of the example line. */
  lemma BracketedExampleLine()
    ensures var line := "has a Target word";
      [line][0 := line[..6] + Bracket(line[6..12]) + line[12..]] == ["has a <Target> word"]
  {
    var line := "has a Target word";
    assert line[..6] == "has a ";
    assert line[6..12] == "Target";
    assert line[12..] == " word";
    var marked := line[..6] + Bracket(line[6..12]) + line[12..];
    assert marked == "has a <Target> word";
    assert [line][0 := marked] == [marked];
  }

  /** A lower-case payload wraps the mixed-case span it matches, keeping its case. */
  lemma HighlightKeepsCase()
    ensures HighlightLine(Snippet(["has a Target word"], 0, 0), "target", Bracket)
         == Success(Snippet(["has a <Target> word"], 0, 0))
  {
    TargetFirstAtSix();
    HighlightWrapsFirstMatch(Snippet(["has a Target word"], 0, 0), "target", Bracket, 6);
    BracketedExampleLine();
  }

  /** A payload absent from the target line makes highlighting fail. */
  lemma HighlightMissingPayload()
    ensures HighlightLine(Snippet(["has a Target word"], 0, 0), "xyz", x => x) == Failure(SubstringNotFound)
  {
    var folded := Lower("has a Target word");
    assert folded == "has a target word";
    assert Lower("xyz") == "xyz";
    forall k | 0 <= k
      ensures !OccursAt(folded, "xyz", k)
    {
      if k + 3 <= |folded| {
        assert folded[k] != 'x';
        assert folded[k..k + 3][0] == folded[k];
      }
    }
  }
}
