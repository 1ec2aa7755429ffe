# Syntax-Stream typing animation, in Dafny

Syntax-Stream is a single React component (`src/App.js`). It shows a mock code
editor that replays a snippet character by character. The user types or pastes
code into a text area, or loads a built-in sample. They press "Start Typing
Effect" and the snippet is revealed one character per timer tick, with line
numbers beside it. When the whole snippet is shown, a status bar reports the
line and column of the end of the text and offers a restart.

This project models the component's behaviour under the markup:

- `js_strings.dfy` (module `JsStrings`): the JavaScript string built-ins the
  component relies on: `trim` with the ECMAScript white-space set, `substring`
  with argument clamping and swapping, `split` on one character, and
  `lastIndexOf` as an independent reference for the status column.
- `keyboard.dfy` (module `Keyboard`): the Tab branch of the key handler, which
  inserts four spaces at the caret.
- `typing.dfy` (module `Typing`): the component's five state variables as one
  value (`EditorState`) and every update as a pure transition. There is an
  invariant `Inv`: the revealed text is `inputText[..currentIndex]` and
  `currentIndex <= |inputText|`. Lemmas cover whole runs of the typing effect.
- `display.dfy` (module `Display`): the line-number column, including the
  placeholder row, and the status bar's `Ln`/`Col` values.
- `app.dfy` (module `AppComponent`): the component as a class `App`. Its five
  fields are updated in place by its handlers and effects. Each method keeps
  `Valid()` and is proved to produce exactly the state of the matching
  `Typing` transition.

Some details of the model:

- A JavaScript string is a `seq<char>`.
- The typing effect reschedules itself through a timer. It is modelled as a
  step function, `Tick`. One step is either the timer firing and revealing a
  character, or, when nothing is left, the effect marking the run complete.
  `App.RunTypingEffect` runs that chain of steps as a loop. The random delays
  are dropped.
- The restart button is rendered only once a run is complete
  (src/App.js:190-198). At that point the typing effect has taken its
  completing branch and scheduled no timer, so a restart never cancels a
  pending step. `App.ResetAnimation` therefore requires `isTypingComplete`.
  The lemmas `Typing.ResetCancelsTicks` and `Typing.RestartReplays` are stated
  for every state, more than the component can reach; they say that after a
  restart no step changes anything, and that a restart followed by a start
  replays the input from its first character.
- The text area, the sample button and the start button are rendered only
  while no run has started (src/App.js:138-162). So `App.HandleChange`,
  `App.HandleKeyDown` and `App.UseSampleCode` require `!hasStartedTyping`.
  The pure transitions in `Typing` are total, as the handlers are.
- The start guard is `inputText.trim()` being truthy. It is modelled
  literally, as `Trim(inputText) != ""`. `JsStrings.TrimmedNonEmptyIff`
  proves this means "the input holds a character that is not white space".
- The idle auto-fill effect (src/App.js:25-29) replaces an empty input with the
  sample whenever no run has started. So an empty input only lasts until the
  effect runs. A whitespace-only input is not replaced, and it is the input
  for which starting is refused.

## Model

| member | source | states |
|---|---|---|
| `JsStrings.TrimStart` | src/App.js:102 | the result is no longer than the input, every character dropped from the front is white space, and a non-empty result starts at the first non-white-space character |
| `JsStrings.TrimEnd` | src/App.js:102 | the result is no longer than the input, every character dropped from the back is white space, and a non-empty result ends at the last non-white-space character |
| `JsStrings.Trim` | src/App.js:102 | `trim()` gives the empty string exactly when every character of the input is white space |
| `JsStrings.TrimStartIsSuffix` | src/App.js:102 | what leading-space removal keeps is the suffix of the input of that length |
| `JsStrings.TrimEndIsPrefix` | src/App.js:102 | what trailing-space removal keeps is the prefix of the input of that length |
| `JsStrings.TrimIsSlice` | src/App.js:102 | `trim()` returns a contiguous slice of the input, and the slice starts and ends with non-white-space characters |
| `JsStrings.TrimmedNonEmptyIff` | src/App.js:157 | `inputText.trim()` is truthy exactly when the input holds a non-white-space character |
| `JsStrings.Clamp` | src/App.js:37 | a substring argument is clamped into `[0, length]` and is unchanged when already inside |
| `JsStrings.Substring` | src/App.js:37 | `substring(a, b)` with `0 <= a <= b <= length` is the slice `s[a..b]`, `substring(0, length)` is the whole string, and the result is never longer than the input |
| `JsStrings.CountZero` | src/App.js:128 | a character occurs zero times exactly when no position holds it |
| `JsStrings.Split` | src/App.js:128 | `split('\n')` yields one more piece than there are line breaks |
| `JsStrings.SplitPiecesHaveNoSeparator` | src/App.js:128 | no piece of a split contains the separator |
| `JsStrings.SplitJoin` | src/App.js:128 | joining the pieces with the separator gives back the original text |
| `JsStrings.LastIndexOf` | src/App.js:194 | the position of the last occurrence of the character, or -1 when there is none |
| `JsStrings.LastPieceLength` | src/App.js:194 | the last piece of a split is as long as the text after the last separator, or the whole text when there is none |
| `Keyboard.InsertTab` | src/App.js:86-96 | Tab at a caret `p` no further than the end of `v` gives `v[..p] + "    " + v[p..]` (the four spaces are appended when `p` is past the end); the length grows by 4 and the caret the handler means to write is `p + 4` |
| `Keyboard.InsertTabRoundTrip` | src/App.js:88-91 | the four inserted characters are spaces, and deleting them at the old caret gives back the original text |
| `Keyboard.TabInAbc` | src/App.js:86-96 | Tab in `"abc"` at caret 1 gives `"a    bc"` with the caret at 5 |
| `Typing.InitialInv` | src/App.js:7-11 | the initial state satisfies the invariant and is idle |
| `Typing.AutoFill` | src/App.js:25-29 | the input becomes the sample exactly when the editor is idle and the input is empty; no other field changes and the invariant is kept |
| `Typing.HandleChange` | src/App.js:78-80 | the input becomes the new value and nothing else changes; on an idle editor the invariant is kept |
| `Typing.UseSampleCode` | src/App.js:120-121 | the input becomes the sample verbatim and nothing else changes; on an idle editor the invariant is kept |
| `Typing.PressTab` | src/App.js:86-92 | Tab at a caret `p` no further than the end of the input makes it `input[..p] + "    " + input[p..]` (the four spaces are appended when `p` is past the end), 4 characters longer, and changes no other field; on an idle editor the invariant is kept |
| `Typing.StartTyping` | src/App.js:101-108 | the input is never changed and the invariant is kept; if anything changes, the result is a run with nothing revealed and the cursor at 0 |
| `Typing.StartTypingGuard` | src/App.js:102 | from any state, starting changes the state exactly when the editor is idle and the input holds a non-white-space character |
| `Typing.ResetAnimation` | src/App.js:110-114 | the result is idle with nothing revealed, the cursor at 0 and the input kept, and it satisfies the invariant |
| `Typing.Tick` | src/App.js:32-55 | without a run nothing changes; in a run with characters left the cursor moves up by exactly 1 and the revealed text grows by exactly the next input character; with none left only the completion flag is set and the whole input is revealed; the invariant is kept |
| `Typing.TicksReveal` | src/App.js:32-55 | from a running state, after `k` steps the revealed text is the input's prefix up to `min(cursor + k, length)`, and the run is complete exactly when `cursor + k` exceeds the length |
| `Typing.RunFromStart` | src/App.js:101-108 | a run started from an idle editor reveals exactly the first `min(k, length)` characters after `k` steps and completes on the step after the last character |
| `Typing.RestartReplays` | src/App.js:110-114 | restart then start on any state with a non-blank input reveals the input's first `min(k, length)` characters after `k` steps, so every restart replays the same texts |
| `Typing.ResetCancelsTicks` | src/App.js:33-51 | after a reset, any number of typing-effect steps leaves the state unchanged |
| `Typing.CursorMonotone` | src/App.js:35-38 | over any number of steps the cursor never decreases and never passes the input's length, and the input is unchanged |
| `Display.Lines` | src/App.js:128 | the revealed text has one line more than it has line breaks |
| `Display.LineLabels` | src/App.js:127-131 | one label per line, numbered `1..n` in order |
| `Display.LineRows` | src/App.js:171-176 | the column's rows are numbered `1, 2, ...` without a gap, and there is one placeholder row more than there are lines exactly when the run is not complete and something has been revealed |
| `Display.StatusLine` | src/App.js:194 | `Ln` is the number of line breaks of the revealed text plus 1 |
| `Display.StatusColumn` | src/App.js:194 | `Col` is the length of the text after the last line break, or of the whole text when there is none |
| `Display.StatusOfTwoLines` | src/App.js:194 | `"ab\ncd"` reads as `Ln 2, Col 2` |
| `Display.RowsFollowPhase` | src/App.js:171-194 | while typing with something revealed there are line breaks + 2 rows; once complete there are line breaks of the whole input + 1 rows, and the status bar describes the whole input |
| `AppComponent.App.constructor` | src/App.js:7-11 | the fields start empty, at 0 and false, and satisfy the invariant |
| `AppComponent.App.AutoFillEffect` | src/App.js:25-29 | updates the fields exactly as `Typing.AutoFill` and keeps the invariant |
| `AppComponent.App.HandleChange` | src/App.js:78-80 | updates the fields exactly as `Typing.HandleChange` and keeps the invariant |
| `AppComponent.App.HandleKeyDown` | src/App.js:82-99 | on Tab, updates the fields as `Typing.PressTab` and returns the caret `selStart + 4` that the deferred callback means to write; any other key changes nothing |
| `AppComponent.App.UseSampleCode` | src/App.js:120-125 | updates the fields exactly as `Typing.UseSampleCode` and keeps the invariant |
| `AppComponent.App.StartTyping` | src/App.js:101-108 | updates the fields exactly as `Typing.StartTyping` and keeps the invariant |
| `AppComponent.App.ResetAnimation` | src/App.js:110-118 | offered once the run is complete, as the button is; updates the fields exactly as `Typing.ResetAnimation` and keeps the invariant |
| `AppComponent.App.TypingStep` | src/App.js:32-55 | updates the fields exactly as `Typing.Tick` and keeps the invariant |
| `AppComponent.App.RunTypingEffect` | src/App.js:32-55 | steps the typing effect until the run is complete; the state is `Ticks` of the old state by the number of steps, that number is the count of characters left plus one, and at the end the whole input is revealed |

## Left out

- Syntax highlighting through Prism (src/App.js:2, 57-62) is a call into a library outside this model.
- Scroll syncing between the code body and the line numbers (src/App.js:64-76) is not modelled. Neither is the auto-scroll after each character (src/App.js:40-48). Both are browser layout and DOM I/O.
- The random delay of each step, `Math.random() * 30 + 20`, is left out, along with the timer scheduling and `clearTimeout` teardown (src/App.js:36, 49, 51). These are floating point, clocks and React effect lifecycle. Cancellation shows up only as "a step without a run changes nothing".
- `AppComponent.App.HandleKeyDown` returns `selStart + 4`, the caret the callback deferred with `setTimeout(..., 0)` (src/App.js:94-97) is meant to write. That callback reads `evt.currentTarget` after the handler has returned. React clears a synthetic event's `currentTarget` once dispatch ends, so the assignment evidently fails and the caret stays where re-rendering the controlled text area puts it, usually the end of the text (for `"abc"` with the caret at 1: 7, not 5). This is browser and framework behaviour, not executed here, and the model does not capture it. Nor does it capture the browser clamping a caret past the end of the text.
- Focus calls (src/App.js:115-117, 122-124), the JSX markup, the CSS, the file-name label and the restart button's label (src/App.js:197) are presentation only.
- Keys other than Tab are handled by the text area itself. Its editing shows up in the model only as the `HandleChange` value.
- JavaScript strings are UTF-16, and `length` counts code units. The model counts characters. The two differ only for characters outside the Basic Multilingual Plane.
- `IsWs` lists the Unicode space separators (category Zs) of current Unicode versions. A JavaScript engine built on a different Unicode version may classify differently.
