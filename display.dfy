/** What the editor derives from the revealed text for display: the
    line-number column, with its placeholder row for the line being typed,
    and the status bar's line and column readout. */
module Display {
  import opened JsStrings
  import opened Typing

  /** The lines of the revealed text, as `typedText.split('\n')` gives them. */
  function Lines(typedText: string): (lines: seq<string>)
    ensures |lines| == Count(typedText, '\n') + 1
  {
    Split(typedText, '\n')
  }

  /** The numbered rows of the line-number column: one label per line, counting
      from 1. */
  function LineLabels(typedText: string): (labels: seq<nat>)
    ensures |labels| == Count(typedText, '\n') + 1
    ensures forall i :: 0 <= i < |labels| ==> labels[i] == i + 1
  {
    seq(|Lines(typedText)|, i => i + 1)
  }

  /** Whether the column shows the extra row for the line still being typed. */
  predicate HasPlaceholderRow(typedText: string, isTypingComplete: bool)
  {
    !isTypingComplete && |typedText| > 0
  }

  /** Every row of the line-number column, placeholder included: the labels
      run 1, 2, ... without a gap, and the placeholder row adds one row exactly
      while a run is typing and something has been revealed. */
  function LineRows(typedText: string, isTypingComplete: bool): (rows: seq<nat>)
    ensures |rows| == Count(typedText, '\n') + 1 + (if HasPlaceholderRow(typedText, isTypingComplete) then 1 else 0)
    ensures forall i :: 0 <= i < |rows| ==> rows[i] == i + 1
  {
    LineLabels(typedText)
      + (if HasPlaceholderRow(typedText, isTypingComplete) then [|Lines(typedText)| + 1] else [])
  }

  /** The status bar's line number: the number of lines of the revealed text. */
  function StatusLine(typedText: string): (ln: nat)
    ensures ln == Count(typedText, '\n') + 1
    ensures ln >= 1
  {
    |Lines(typedText)|
  }

  /** The status bar's column: the length of the last line of the revealed
      text, that is of the text after its last line break, or of the whole
      text when it has none. */
  function StatusColumn(typedText: string): (col: nat)
    ensures col == |typedText| - 1 - LastIndexOf(typedText, '\n')
    ensures col <= |typedText|
    ensures forall i :: |typedText| - col <= i < |typedText| ==> typedText[i] != '\n'
    ensures col < |typedText| ==> typedText[|typedText| - col - 1] == '\n'
  {
    var lines := Lines(typedText);
    LastPieceLength(typedText, '\n');
    |lines[|lines| - 1]|
  }

  /** Example: "ab\ncd" reads as line 2, column 2. */
  lemma StatusOfTwoLines()
    ensures StatusLine("ab\ncd") == 2 && StatusColumn("ab\ncd") == 2
  {
    assert Count("ab\ncd", '\n') == 1 by {
      assert "ab\ncd"[1..] == "b\ncd";
      assert "b\ncd"[1..] == "\ncd";
      assert "\ncd"[1..] == "cd";
      assert "cd"[1..] == "d";
      assert "d"[1..] == "";
    }
    assert LastIndexOf("ab\ncd", '\n') == 2;
  }

  /** While a run is typing and has revealed something, the column shows one
      row per revealed line plus the placeholder; once the run completes it
      shows exactly one row per line of the whole input, and the status bar
      reads the whole input's line count. */
  lemma RowsFollowPhase(s: EditorState)
    requires Inv(s)
    ensures PhaseOf(s) == Running && s.typedText != [] ==>
      |LineRows(s.typedText, s.isTypingComplete)| == Count(s.typedText, '\n') + 2
    ensures PhaseOf(s) == Completed ==>
      && |LineRows(s.typedText, s.isTypingComplete)| == Count(s.inputText, '\n') + 1
      && StatusLine(s.typedText) == Count(s.inputText, '\n') + 1
      && StatusColumn(s.typedText) == |s.inputText| - 1 - LastIndexOf(s.inputText, '\n')
  {
    if PhaseOf(s) == Completed {
      assert s.typedText == s.inputText;
    }
  }
}
