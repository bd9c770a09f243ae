/**
 * The first text-editing experiment (ui/src/renderer/TextEditingTest.tsx):
 * the whole text is one string and the caret an offset into it. Typed text
 * arrives through the hidden text area's input events, and Backspace,
 * Enter and the horizontal arrows through its key events.
 */
module FlatText {
  datatype State = State(text: string, caret: int)

  /** The caret is a position in the text: before the first character, between two, or after the last. */
  predicate CaretIn(s: State) { 0 <= s.caret <= |s.text| }

  /** Where JavaScript's `slice` puts an index: negatives count from the end, and both ends are clamped. */
  function SliceIndex(len: nat, i: int): (r: nat)
    ensures r <= len
    ensures 0 <= i <= len ==> r == i
    ensures i < 0 && -i <= len ==> r == len + i
    ensures i < 0 && -i > len ==> r == 0
    ensures i > len ==> r == len
  {
    if i < 0 then (if len + i < 0 then 0 else len + i) else if i > len then len else i
  }

  /** `text.slice(from, to)`. */
  function Slice(text: string, from: int, to: int): (r: string)
    ensures from >= 0 && to >= from && to <= |text| ==> r == text[from..to]
  {
    var a := SliceIndex(|text|, from);
    var b := SliceIndex(|text|, to);
    if a <= b then text[a..b] else ""
  }

  /** `text.slice(start)`. */
  function SliceFrom(text: string, from: int): (r: string)
    ensures 0 <= from <= |text| ==> r == text[from..]
  {
    text[SliceIndex(|text|, from)..]
  }

  /** The initial state: the sample text with the caret after its last character. */
  function Initial(text: string): (s: State)
    ensures s.text == text && s.caret == |text| && CaretIn(s)
  {
    State(text, |text|)
  }

  /** `insertText`: the string spliced in at the caret; the caret itself stays. */
  function InsertText(s: State, str: string): (r: State)
    requires CaretIn(s)
    ensures r.caret == s.caret && |r.text| == |s.text| + |str|
    ensures r.text[..s.caret] == s.text[..s.caret]
    ensures r.text[s.caret..s.caret + |str|] == str
    ensures r.text[s.caret + |str|..] == s.text[s.caret..]
  {
    State(Slice(s.text, 0, s.caret) + str + SliceFrom(s.text, s.caret), s.caret)
  }

  /** An `insertText` input event: nothing for empty data; otherwise the data is inserted and the caret moves past it. */
  function InputText(s: State, data: string): (r: State)
    requires CaretIn(s)
    ensures CaretIn(r)
    ensures data == "" ==> r == s
    ensures data != "" ==> r.text == s.text[..s.caret] + data + s.text[s.caret..] && r.caret == s.caret + |data|
  {
    if data == "" then s
    else
      var t := InsertText(s, data);
      assert t.text == s.text[..s.caret] + data + s.text[s.caret..];
      t.(caret := t.caret + |data|)
  }

  /** Enter: a line break inserted at the caret, and the caret moved past it (capped at the new length). */
  function Enter(s: State): (r: State)
    requires CaretIn(s)
    ensures CaretIn(r)
    ensures r.text == s.text[..s.caret] + "\n" + s.text[s.caret..] && r.caret == s.caret + 1
  {
    var t := InsertText(s, "\n");
    assert t.text == s.text[..s.caret] + "\n" + s.text[s.caret..];
    t.(caret := if t.caret + 1 < |t.text| then t.caret + 1 else |t.text|)
  }

  /** ArrowLeft: one back, never below 0. */
  function Left(s: State): (r: State)
    ensures r.text == s.text
    ensures r.caret == if s.caret - 1 > 0 then s.caret - 1 else 0
  {
    s.(caret := if s.caret - 1 > 0 then s.caret - 1 else 0)
  }

  /** ArrowRight: one forward, never past the end. */
  function Right(s: State): (r: State)
    ensures r.text == s.text
    ensures r.caret == if s.caret + 1 < |s.text| then s.caret + 1 else |s.text|
  {
    s.(caret := if s.caret + 1 < |s.text| then s.caret + 1 else |s.text|)
  }

  /**
   * Backspace as written: the text becomes `text.slice(0, caret - 1) +
   * text.slice(caret)` and the caret `max(caret - 1, 0)`. At caret 0 the
   * first slice is `slice(0, -1)`, everything but the last character.
   */
  function Backspace(s: State): (r: State)
    requires CaretIn(s)
    ensures CaretIn(r)
  {
    State(Slice(s.text, 0, s.caret - 1) + SliceFrom(s.text, s.caret), if s.caret - 1 > 0 then s.caret - 1 else 0)
  }

  /** Backspace as evidently intended: the character before the caret is removed, and at the start nothing happens. */
  function BackspaceAtStartIgnored(s: State): (r: State)
    requires CaretIn(s)
    ensures CaretIn(r)
    ensures s.caret == 0 ==> r == s
    ensures s.caret > 0 ==> r.text == s.text[..s.caret - 1] + s.text[s.caret..] && r.caret == s.caret - 1
  {
    if s.caret == 0 then s else Backspace(s)
  }

  /** Away from the start the two agree. */
  lemma BackspaceAwayFromStart(s: State)
    requires CaretIn(s) && s.caret > 0
    ensures Backspace(s) == BackspaceAtStartIgnored(s)
  {
  }

  /** As written, Backspace at the start of "abc" gives "ababc": the text minus its last character, then the whole text again. */
  lemma BackspaceAtStartDuplicates()
    ensures Backspace(State("abc", 0)) == State("ababc", 0)
    ensures BackspaceAtStartIgnored(State("abc", 0)) == State("abc", 0)
  {
    assert SliceIndex(3, 0) == 0 && SliceIndex(3, -1) == 2;
    assert "abc"[0..2] == "ab";
    assert Slice("abc", 0, -1) == "ab";
    assert SliceFrom("abc", 0) == "abc";
    assert "ab" + "abc" == "ababc";
  }

  /** As written, Backspace at the start of any non-empty text lengthens it. */
  lemma BackspaceAtStartGrows(s: State)
    requires s.caret == 0 && |s.text| > 0
    ensures |Backspace(s).text| == 2 * |s.text| - 1
  {
  }

  /** Typing one character and then Backspace (as intended) gives back the state before. */
  lemma TypeThenBackspace(s: State, c: char)
    requires CaretIn(s)
    ensures BackspaceAtStartIgnored(InputText(s, [c])) == s
  {
    var t := InputText(s, [c]);
    assert t.text[..t.caret - 1] == s.text[..s.caret];
    assert t.text[t.caret..] == s.text[s.caret..];
    assert s.text[..s.caret] + s.text[s.caret..] == s.text;
  }

  /** Enter, then Backspace (as intended), gives back the state before. */
  lemma EnterThenBackspace(s: State)
    requires CaretIn(s)
    ensures BackspaceAtStartIgnored(Enter(s)) == s
  {
    var t := Enter(s);
    assert t.text[..t.caret - 1] == s.text[..s.caret];
    assert t.text[t.caret..] == s.text[s.caret..];
    assert s.text[..s.caret] + s.text[s.caret..] == s.text;
  }

  /** Left and Right undo each other away from the ends. */
  lemma LeftRightInverse(s: State)
    requires 0 < s.caret <= |s.text|
    ensures Right(Left(s)) == s
  {
  }
}
