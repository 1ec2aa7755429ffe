/** The editor component itself: its five state variables as fields, and its
    handlers and effects as methods that update them in place. Each method is
    specified by the matching transition of the Typing module. */
module AppComponent {
  import opened JsStrings
  import opened Typing
  import Keyboard

  datatype Option<T> = None | Some(value: T)

  class App {
    var inputText: string
    var typedText: string
    var currentIndex: nat
    var hasStartedTyping: bool
    var isTypingComplete: bool

    /** The fields as one state value. */
    function State(): EditorState
      reads this
    {
      EditorState(inputText, typedText, currentIndex, hasStartedTyping, isTypingComplete)
    }

    ghost predicate Valid()
      reads this
    {
      Inv(State())
    }

    /** Mounting: every field holds its initial value. */
    constructor ()
      ensures Valid() && State() == Initial
    {
      inputText := "";
      typedText := "";
      currentIndex := 0;
      hasStartedTyping := false;
      isTypingComplete := false;
    }

    /** The effect that fills an empty idle editor with the sample. */
    method AutoFillEffect()
      requires Valid()
      modifies this
      ensures Valid() && State() == AutoFill(old(State()))
    {
      if !hasStartedTyping && inputText == "" {
        inputText := SampleCode;
      }
    }

    /** The text area's change handler; the text area is only shown while no
        run has started. */
    method HandleChange(value: string)
      requires Valid() && !hasStartedTyping
      modifies this
      ensures Valid() && State() == Typing.HandleChange(old(State()), value)
    {
      inputText := value;
    }

    /** The text area's key handler: Tab inserts the indent at the selection
        start and reports the caret the handler's deferred callback means to
        write; any other key is left to the text area. */
    method HandleKeyDown(key: string, selStart: nat) returns (caret: Option<nat>)
      requires Valid() && !hasStartedTyping
      modifies this
      ensures Valid()
      ensures key == "Tab" ==> State() == PressTab(old(State()), selStart) && caret == Some(selStart + 4)
      ensures key != "Tab" ==> State() == old(State()) && caret == None
    {
      caret := None;
      if key == "Tab" {
        var edit := Keyboard.InsertTab(inputText, selStart);
        inputText := edit.value;
        caret := Some(edit.caret);
      }
    }

    /** The "Use Sample Code" button, shown only while no run has started. */
    method UseSampleCode()
      requires Valid() && !hasStartedTyping
      modifies this
      ensures Valid() && State() == Typing.UseSampleCode(old(State()))
    {
      inputText := SampleCode;
    }

    /** The "Start Typing Effect" button. */
    method StartTyping()
      requires Valid()
      modifies this
      ensures Valid() && State() == Typing.StartTyping(old(State()))
    {
      if TrimmedNonEmpty(inputText) && !hasStartedTyping {
        TrimmedNonEmptyIff(inputText);
        hasStartedTyping := true;
        typedText := "";
        currentIndex := 0;
        isTypingComplete := false;
      }
    }

    /** The restart button, shown only once a run is complete. */
    method ResetAnimation()
      requires Valid() && isTypingComplete
      modifies this
      ensures Valid() && State() == Typing.ResetAnimation(old(State()))
    {
      hasStartedTyping := false;
      isTypingComplete := false;
      typedText := "";
      currentIndex := 0;
    }

    /** One step of the typing effect: the firing of its timer, or the
        completion it records once nothing is left to reveal. */
    method TypingStep()
      requires Valid()
      modifies this
      ensures Valid() && State() == Tick(old(State()))
    {
      if !hasStartedTyping {
        return;
      }
      if currentIndex < |inputText| {
        typedText := Substring(inputText, 0, currentIndex + 1);
        currentIndex := currentIndex + 1;
      } else {
        isTypingComplete := true;
      }
    }

    /** The typing effect's whole chain of steps, each timer scheduled once
        the previous one has fired, until the run is complete. It returns the
        number of steps: one per character still to reveal, plus the final one
        that marks the run complete. */
    method RunTypingEffect() returns (steps: nat)
      requires Valid() && hasStartedTyping
      modifies this
      ensures Valid() && State() == Ticks(old(State()), steps)
      ensures steps == (if old(isTypingComplete) then 0 else |inputText| - old(currentIndex) + 1)
      ensures isTypingComplete && typedText == inputText && inputText == old(inputText)
    {
      steps := 0;
      while !isTypingComplete
        invariant Valid() && hasStartedTyping
        invariant State() == Ticks(old(State()), steps)
        invariant inputText == old(inputText)
        invariant !isTypingComplete ==> steps == currentIndex - old(currentIndex)
        invariant isTypingComplete ==> steps == (if old(isTypingComplete) then 0 else |inputText| - old(currentIndex) + 1)
        decreases |inputText| - currentIndex, !isTypingComplete
      {
        TypingStep();
        steps := steps + 1;
      }
    }
  }
}
