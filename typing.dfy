/** The typing animation as a state machine over the component's five state
    variables. Each function below is one update the component performs; the
    lemmas say what a run of ticks reveals. */
module Typing {
  import opened JsStrings
  import Keyboard

  /** The built-in sample snippet, verbatim. */
  const SampleCode: string :=
    "function fibonacci(n) {\n  if (n <= 1) return n;\n  return fibonacci(n - 1) + fibonacci(n - 2);\n}\n\nconsole.log(fibonacci(10)); // 55"

  /** The component's state: the text to replay, the part revealed so far, the
      reveal cursor and the two run flags. */
  datatype EditorState = EditorState(
    inputText: string,
    typedText: string,
    currentIndex: nat,
    hasStartedTyping: bool,
    isTypingComplete: bool)

  /** The three phases of a run. */
  datatype Phase = Idle | Running | Completed

  function PhaseOf(s: EditorState): Phase
  {
    if !s.hasStartedTyping then Idle
    else if s.isTypingComplete then Completed
    else Running
  }

  /** The state the component mounts with. */
  const Initial: EditorState := EditorState("", "", 0, false, false)

  /** The invariant every reachable state keeps: the revealed text is the
      prefix of the input that the cursor delimits; an idle editor has
      revealed nothing; a completed run has revealed everything; and a run
      only exists for an input that is not blank. */
  predicate Inv(s: EditorState)
  {
    && s.currentIndex <= |s.inputText|
    && s.typedText == s.inputText[..s.currentIndex]
    && (!s.hasStartedTyping ==> s.currentIndex == 0 && !s.isTypingComplete)
    && (s.isTypingComplete ==> s.hasStartedTyping && s.currentIndex == |s.inputText|)
    && (s.hasStartedTyping ==> HasNonWs(s.inputText))
  }

  lemma InitialInv()
    ensures Inv(Initial) && PhaseOf(Initial) == Idle
  {
  }

  /** The mount-time effect: an idle editor with an empty input is filled
      with the sample snippet. */
  function AutoFill(s: EditorState): (r: EditorState)
    ensures Inv(s) ==> Inv(r)
    ensures r.inputText == (if !s.hasStartedTyping && s.inputText == [] then SampleCode else s.inputText)
    ensures r.(inputText := s.inputText) == s
  {
    if !s.hasStartedTyping && s.inputText == [] then s.(inputText := SampleCode) else s
  }

  /** The text area's change handler: the input becomes the new value. */
  function HandleChange(s: EditorState, value: string): (r: EditorState)
    ensures !s.hasStartedTyping && Inv(s) ==> Inv(r)
    ensures r.inputText == value && r.(inputText := s.inputText) == s
  {
    s.(inputText := value)
  }

  /** The "Use Sample Code" button: the input becomes the sample, verbatim. */
  function UseSampleCode(s: EditorState): (r: EditorState)
    ensures !s.hasStartedTyping && Inv(s) ==> Inv(r)
    ensures r.inputText == SampleCode && r.(inputText := s.inputText) == s
  {
    s.(inputText := SampleCode)
  }

  /** Tab pressed in the text area with the selection starting at `selStart`. */
  function PressTab(s: EditorState, selStart: nat): (r: EditorState)
    ensures !s.hasStartedTyping && Inv(s) ==> Inv(r)
    ensures selStart <= |s.inputText| ==>
      r.inputText == s.inputText[..selStart] + Keyboard.Indent + s.inputText[selStart..]
    ensures selStart > |s.inputText| ==> r.inputText == s.inputText + Keyboard.Indent
    ensures |r.inputText| == |s.inputText| + 4
    ensures r.(inputText := s.inputText) == s
  {
    s.(inputText := Keyboard.InsertTab(s.inputText, selStart).value)
  }

  /** The "Start Typing Effect" button: begins a run from an empty reveal,
      provided the input is not blank and no run has started. */
  function StartTyping(s: EditorState): (r: EditorState)
    ensures r.inputText == s.inputText
    ensures Inv(s) ==> Inv(r)
    ensures r != s ==> PhaseOf(r) == Running && r.typedText == [] && r.currentIndex == 0
  {
    if TrimmedNonEmpty(s.inputText) && !s.hasStartedTyping then
      s.(hasStartedTyping := true, typedText := [], currentIndex := 0, isTypingComplete := false)
    else s
  }

  /** The restart button: back to idle with nothing revealed, input kept. */
  function ResetAnimation(s: EditorState): (r: EditorState)
    ensures Inv(r) && PhaseOf(r) == Idle
    ensures r.inputText == s.inputText && r.typedText == [] && r.currentIndex == 0
  {
    s.(hasStartedTyping := false, isTypingComplete := false, typedText := [], currentIndex := 0)
  }

  /** One step of the typing effect: while characters remain, the timer the
      effect schedules fires and reveals the next one; once the whole input is
      revealed, the effect marks the run complete at once. Without a run the
      effect returns at once and schedules nothing. */
  function Tick(s: EditorState): (r: EditorState)
    ensures r.inputText == s.inputText && r.hasStartedTyping == s.hasStartedTyping
    ensures Inv(s) ==> Inv(r)
    ensures !s.hasStartedTyping ==> r == s
    ensures Inv(s) && s.hasStartedTyping && s.currentIndex < |s.inputText| ==>
      && r.currentIndex == s.currentIndex + 1
      && r.typedText == s.typedText + [s.inputText[s.currentIndex]]
      && r.isTypingComplete == s.isTypingComplete
    ensures Inv(s) && s.hasStartedTyping && s.currentIndex == |s.inputText| ==>
      PhaseOf(r) == Completed && r.typedText == r.inputText && r == s.(isTypingComplete := true)
  {
    if !s.hasStartedTyping then s
    else if s.currentIndex < |s.inputText| then
      var revealed := Substring(s.inputText, 0, s.currentIndex + 1);
      assert revealed == s.inputText[..s.currentIndex] + [s.inputText[s.currentIndex]];
      s.(typedText := revealed, currentIndex := s.currentIndex + 1)
    else s.(isTypingComplete := true)
  }

  /** `n` steps of the typing effect in a row. */
  function Ticks(s: EditorState, n: nat): EditorState
  {
    if n == 0 then s else Tick(Ticks(s, n - 1))
  }

  function Min(a: nat, b: nat): nat
  {
    if a <= b then a else b
  }

  /** From a running state, the next `k` ticks reveal the next `k` characters
      while there are any; once they are exhausted the run is complete, the
      whole input is revealed and the cursor stays at the input's length. */
  lemma {:induction false} TicksReveal(s: EditorState, k: nat)
    requires Inv(s) && PhaseOf(s) == Running
    ensures Inv(Ticks(s, k))
    ensures Ticks(s, k).inputText == s.inputText
    ensures Ticks(s, k).currentIndex == Min(s.currentIndex + k, |s.inputText|)
    ensures Ticks(s, k).typedText == s.inputText[..Min(s.currentIndex + k, |s.inputText|)]
    ensures PhaseOf(Ticks(s, k)) == (if s.currentIndex + k <= |s.inputText| then Running else Completed)
  {
    if k > 0 {
      TicksReveal(s, k - 1);
      var p := Ticks(s, k - 1);
      assert Ticks(s, k) == Tick(p);
      if s.currentIndex + k - 1 < |s.inputText| {
        assert p.currentIndex == s.currentIndex + k - 1 < |p.inputText|;
        assert p.inputText[..p.currentIndex] + [p.inputText[p.currentIndex]] == s.inputText[..p.currentIndex + 1];
      } else {
        assert p.currentIndex == |p.inputText|;
      }
    }
  }

  /** A run started on an idle editor reveals, after `k` ticks, exactly the
      first `k` characters of the input (all of it after that), and completes
      on the tick after the last character: the sequence of revealed texts
      depends on the input alone. */
  lemma RunFromStart(s: EditorState, k: nat)
    requires Inv(s) && PhaseOf(s) == Idle && HasNonWs(s.inputText)
    ensures Ticks(StartTyping(s), k).typedText == s.inputText[..Min(k, |s.inputText|)]
    ensures Ticks(StartTyping(s), k).currentIndex == Min(k, |s.inputText|)
    ensures PhaseOf(Ticks(StartTyping(s), k)) == (if k <= |s.inputText| then Running else Completed)
  {
    TicksReveal(StartTyping(s), k);
  }

  /** A restart followed by a start replays the input from its first
      character: repeated restart and start cycles on one input reveal the
      same texts step for step. The component offers the restart only once a
      run is complete; the lemma holds whatever state the restart is applied
      to. */
  lemma RestartReplays(s: EditorState, k: nat)
    requires HasNonWs(s.inputText)
    ensures Ticks(StartTyping(ResetAnimation(s)), k).typedText == s.inputText[..Min(k, |s.inputText|)]
  {
    TicksReveal(StartTyping(ResetAnimation(s)), k);
  }

  /** After a restart no step changes anything, because the typing effect
      does nothing while no run has started. */
  lemma {:induction false} ResetCancelsTicks(s: EditorState, k: nat)
    ensures Ticks(ResetAnimation(s), k) == ResetAnimation(s)
  {
    if k > 0 {
      ResetCancelsTicks(s, k - 1);
    }
  }

  /** Starting is possible exactly when the editor is idle and the input holds
      a character that is not white space; a blank input never starts a run. */
  lemma StartTypingGuard(s: EditorState)
    ensures StartTyping(s) != s <==>
      !s.hasStartedTyping && HasNonWs(s.inputText)
  {
    TrimmedNonEmptyIff(s.inputText);
  }

  /** The reveal cursor never moves backwards and never passes the input's end. */
  lemma {:induction false} CursorMonotone(s: EditorState, k: nat)
    requires Inv(s)
    ensures s.currentIndex <= Ticks(s, k).currentIndex <= |s.inputText|
    ensures Ticks(s, k).inputText == s.inputText
  {
    if k > 0 {
      CursorMonotone(s, k - 1);
    }
  }
}
