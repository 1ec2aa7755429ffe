/** The Tab branch of the text area's key handler: instead of moving focus,
    Tab inserts four spaces at the caret and puts the caret after them. */
module Keyboard {
  import opened JsStrings

  /** The four spaces one Tab inserts. */
  const Indent: string := "    "

  /** The new text of the text area and the caret position the handler means
      to write back to it. */
  datatype TabEdit = TabEdit(value: string, caret: nat)

  /** The text with the indent spliced in at `selStart` (the selection start),
      and the caret the handler means to set, just after the indent. A caret past the end of the text
      behaves like one at the end, as substring clamps its arguments. */
  function InsertTab(value: string, selStart: nat): (r: TabEdit)
    ensures selStart <= |value| ==> r.value == value[..selStart] + Indent + value[selStart..]
    ensures selStart > |value| ==> r.value == value + Indent
    ensures |r.value| == |value| + |Indent|
    ensures r.caret == selStart + |Indent|
  {
    TabEdit(Substring(value, 0, selStart) + Indent + Substring(value, selStart, |value|),
            selStart + |Indent|)
  }

  /** `s` with the `n` characters that start at `p` taken out. */
  function DeleteRange(s: string, p: nat, n: nat): (r: string)
    requires p + n <= |s|
    ensures |r| == |s| - n
  {
    s[..p] + s[p + n..]
  }

  /** Tab insertion is undone by deleting the four characters at the old caret,
      and those four characters are spaces. */
  lemma InsertTabRoundTrip(value: string, selStart: nat)
    requires selStart <= |value|
    ensures InsertTab(value, selStart).value[selStart..selStart + |Indent|] == Indent
    ensures DeleteRange(InsertTab(value, selStart).value, selStart, |Indent|) == value
  {
    var v' := InsertTab(value, selStart).value;
    assert v'[..selStart] == value[..selStart];
    assert v'[selStart + |Indent|..] == value[selStart..];
  }

  /** Example: Tab in "abc" with the caret at 1. */
  lemma TabInAbc()
    ensures InsertTab("abc", 1) == TabEdit("a    bc", 5)
  {
    assert "abc"[..1] + Indent + "abc"[1..] == "a    bc";
  }
}
