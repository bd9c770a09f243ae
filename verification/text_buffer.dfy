/**
 * The line buffer of the modal text-editing experiment
 * (ui/app/src/renderer/TextEditingTest.tsx, `TextBuffer`): the text as a
 * list of lines, and a cursor made of a line index, a column in that line,
 * and the column to aim for on vertical movement (set by horizontal
 * movement; infinite after `end`, meaning "the end of whichever line").
 *
 * Each store write inside a `batch` is visible to the reads after it, so
 * every operation is the writes in order.
 *
 * The buffer is related to `FlatText`: joining the lines with line breaks
 * gives one string, and the cursor an offset into it; under that view
 * each editing operation is the corresponding operation on the string.
 */
module TextBuffer {
  import FlatText

  /** `lastColumnIndex`: a column, or `Infinity`. */
  datatype Column = At(n: int) | Infinite

  datatype Buffer = Buffer(lines: seq<string>, line: int, col: int, lastCol: Column)

  /**
   * The store's documented ranges: the line index names a line and the
   * column is a position in it.
   */
  predicate Valid(b: Buffer)
  {
    0 <= b.line < |b.lines| && 0 <= b.col <= |b.lines[b.line]|
  }

  // ---------------------------------------------------------------------
  // Lines and the string they make.

  /** `s.split("\n")`. */
  function SplitLines(s: string): (r: seq<string>)
    ensures |r| >= 1
    ensures forall i | 0 <= i < |r| :: '\n' !in r[i]
    decreases |s|
  {
    if |s| == 0 then [""]
    else
      var rest := SplitLines(s[1..]);
      if s[0] == '\n' then [""] + rest
      else [[s[0]] + rest[0]] + rest[1..]
  }

  /** Lines each followed by a line break: the text before a line. */
  function Head(front: seq<string>): string
    decreases |front|
  {
    if |front| == 0 then "" else Head(front[..|front| - 1]) + front[|front| - 1] + "\n"
  }

  /** Lines each preceded by a line break: the text after a line. */
  function Tail(rest: seq<string>): string
    decreases |rest|
  {
    if |rest| == 0 then "" else "\n" + rest[0] + Tail(rest[1..])
  }

  /** The lines joined with line breaks. */
  function Join(ls: seq<string>): string
  {
    if |ls| == 0 then "" else ls[0] + Tail(ls[1..])
  }

  /** Splitting a string on line breaks and joining the pieces gives it back. */
  lemma {:induction false} JoinSplit(s: string)
    ensures Join(SplitLines(s)) == s
    decreases |s|
  {
    if |s| > 0 {
      var rest := SplitLines(s[1..]);
      JoinSplit(s[1..]);
      assert Join(rest) == rest[0] + Tail(rest[1..]);
      if s[0] == '\n' {
        assert ([""] + rest)[1..] == rest;
        assert Join([""] + rest) == Tail(rest);
      } else {
        var r := [[s[0]] + rest[0]] + rest[1..];
        assert r[1..] == rest[1..];
      }
      assert s == [s[0]] + s[1..];
    }
  }

  lemma {:induction false} SplitLinesNoBreak(l: string)
    requires '\n' !in l
    ensures SplitLines(l) == [l]
    decreases |l|
  {
    if |l| > 0 {
      assert '\n' !in l[1..] by {
        forall k | 0 <= k < |l[1..]| ensures l[1..][k] != '\n' { assert l[1..][k] == l[k + 1]; }
      }
      SplitLinesNoBreak(l[1..]);
      assert l == [l[0]] + l[1..];
    }
  }

  lemma {:induction false} SplitLinesBreak(l: string, t: string)
    requires '\n' !in l
    ensures SplitLines(l + "\n" + t) == [l] + SplitLines(t)
    decreases |l|
  {
    var s := l + "\n" + t;
    if |l| == 0 {
      assert s[1..] == t;
    } else {
      assert s[1..] == l[1..] + "\n" + t;
      assert '\n' !in l[1..] by {
        forall k | 0 <= k < |l[1..]| ensures l[1..][k] != '\n' { assert l[1..][k] == l[k + 1]; }
      }
      SplitLinesBreak(l[1..], t);
      assert l == [l[0]] + l[1..];
    }
  }

  /** Lines without line breaks, joined and split again, come back as they were. */
  lemma {:induction false} SplitJoin(ls: seq<string>)
    requires |ls| >= 1
    requires forall i | 0 <= i < |ls| :: '\n' !in ls[i]
    ensures SplitLines(Join(ls)) == ls
    decreases |ls|
  {
    if |ls| == 1 {
      assert Join(ls) == ls[0];
      SplitLinesNoBreak(ls[0]);
    } else {
      var rest := ls[1..];
      assert Join(ls) == ls[0] + "\n" + Join(rest) by {
        assert Tail(rest) == "\n" + rest[0] + Tail(rest[1..]);
      }
      SplitLinesBreak(ls[0], Join(rest));
      SplitJoin(rest);
      assert ls == [ls[0]] + rest;
    }
  }

  /** The join seen around line i: what comes before it, the line, what comes after. */
  lemma {:induction false} JoinAround(ls: seq<string>, i: nat)
    requires i < |ls|
    ensures Join(ls) == Head(ls[..i]) + ls[i] + Tail(ls[i + 1..])
  {
    if i > 0 {
      JoinAround(ls, i - 1);
      assert ls[i..][1..] == ls[i + 1..];
      assert Tail(ls[i..]) == "\n" + ls[i] + Tail(ls[i + 1..]);
      assert ls[..i][..i - 1] == ls[..i - 1];
      assert Head(ls[..i]) == Head(ls[..i - 1]) + ls[i - 1] + "\n";
    }
  }

  lemma HeadSnoc(front: seq<string>, x: string)
    ensures Head(front + [x]) == Head(front) + x + "\n"
  {
    assert (front + [x])[..|front|] == front;
  }

  lemma {:induction false} TailLength(rest: seq<string>)
    ensures |Tail(rest)| == LengthSum(rest)
    decreases |rest|
  {
    if |rest| > 0 {
      TailLength(rest[1..]);
    }
  }

  // ---------------------------------------------------------------------
  // Construction and length.

  /** `TextBuffer(text)`: a string is split into lines, but an empty string (falsy) gives no lines. */
  function FromString(text: string): (b: Buffer)
    ensures b.line == 0 && b.col == 0 && b.lastCol == At(0)
    ensures text == "" ==> b.lines == []
    ensures text != "" ==> Join(b.lines) == text && Valid(b)
  {
    if text == "" then Buffer([], 0, 0, At(0))
    else
      JoinSplit(text);
      Buffer(SplitLines(text), 0, 0, At(0))
  }

  /** `TextBuffer(lines)`: an array is taken as the lines. */
  function FromLines(ls: seq<string>): (b: Buffer)
    ensures b.lines == ls && b.line == 0 && b.col == 0 && b.lastCol == At(0)
    ensures Valid(b) <==> |ls| > 0
  {
    Buffer(ls, 0, 0, At(0))
  }

  function LengthSum(ls: seq<string>): nat
  {
    if |ls| == 0 then 0 else |ls[0]| + 1 + LengthSum(ls[1..])
  }

  /** `length`: each line and its line break counted, so one more than the joined text. */
  lemma LengthIsTextPlusOne(b: Buffer)
    requires |b.lines| > 0
    ensures LengthSum(b.lines) == |Join(b.lines)| + 1
  {
    TailLength(b.lines[1..]);
  }

  // ---------------------------------------------------------------------
  // The flat view.

  /** The cursor as an offset into the joined text. */
  function Offset(b: Buffer): (k: nat)
    requires Valid(b)
    ensures k <= |Join(b.lines)|
  {
    JoinAround(b.lines, b.line);
    |Head(b.lines[..b.line])| + b.col
  }

  function Flat(b: Buffer): (s: FlatText.State)
    requires Valid(b)
    ensures FlatText.CaretIn(s)
  {
    FlatText.State(Join(b.lines), Offset(b))
  }

  /** The text around a position inside the middle piece. */
  lemma Around(h: string, l: string, t: string, c: nat)
    requires c <= |l|
    ensures (h + l + t)[..|h| + c] == h + l[..c]
    ensures (h + l + t)[|h| + c..] == l[c..] + t
  {
  }

  // ---------------------------------------------------------------------
  // Editing.

  /** `insert`: a string with a line break is ignored; otherwise it goes in at the cursor, which moves past it. */
  function Insert(b: Buffer, str: string): (r: Buffer)
    requires Valid(b)
    ensures Valid(r) && r.line == b.line && r.lastCol == b.lastCol
    ensures '\n' in str ==> r == b
    ensures '\n' !in str ==> r.col == b.col + |str| && |r.lines| == |b.lines|
  {
    if '\n' in str then b
    else
      var l := b.lines[b.line];
      b.(lines := b.lines[b.line := l[..b.col] + str + l[b.col..]], col := b.col + |str|)
  }

  /**
   * `deleteBackward`: nothing at the start of the buffer; at the start of a
   * line the line is joined onto the previous one and the cursor goes to
   * the join; otherwise the character before the cursor goes.
   */
  function DeleteBackward(b: Buffer): (r: Buffer)
    requires Valid(b)
    ensures Valid(r) && r.lastCol == b.lastCol
    ensures b.line == 0 && b.col == 0 ==> r == b
    ensures b.line > 0 && b.col == 0 ==>
      |r.lines| == |b.lines| - 1 && r.line == b.line - 1 && r.col == |b.lines[b.line - 1]|
    ensures b.col > 0 ==> r.line == b.line && r.col == b.col - 1 && |r.lines| == |b.lines|
  {
    if b.col == 0 then
      if b.line == 0 then b
      else
        var left := b.lines[b.line - 1];
        var right := b.lines[b.line];
        b.(lines := b.lines[..b.line - 1] + [left + right] + b.lines[b.line + 1..], line := b.line - 1, col := |left|)
    else
      var l := b.lines[b.line];
      b.(lines := b.lines[b.line := l[..b.col - 1] + l[b.col..]], col := b.col - 1)
  }

  /**
   * `deleteForward`: at the end of a line the next line (none after the
   * last) is joined onto it; otherwise the character at the cursor goes.
   * The cursor does not move.
   */
  function DeleteForward(b: Buffer): (r: Buffer)
    requires Valid(b)
    ensures Valid(r) && r.line == b.line && r.col == b.col && r.lastCol == b.lastCol
  {
    var l := b.lines[b.line];
    if b.col == |l| then
      var right := if b.line + 1 < |b.lines| then b.lines[b.line + 1] else "";
      var after := if b.line + 2 <= |b.lines| then b.lines[b.line + 2..] else [];
      b.(lines := b.lines[..b.line] + [l + right] + after)
    else
      b.(lines := b.lines[b.line := l[..b.col] + l[b.col + 1..]])
  }

  /** `newline`: the line is split at the cursor, which moves to the start of the new line. */
  function Newline(b: Buffer): (r: Buffer)
    requires Valid(b)
    ensures Valid(r) && r.line == b.line + 1 && r.col == 0 && r.lastCol == b.lastCol
    ensures |r.lines| == |b.lines| + 1
  {
    var l := b.lines[b.line];
    b.(lines := b.lines[..b.line] + [l[..b.col], l[b.col..]] + b.lines[b.line + 1..], line := b.line + 1, col := 0)
  }

  /** What an editing operation does to the joined text: the text at `[..k]`, then `mid`, then the text from `k2`. */
  predicate Spliced(before: string, after: string, k: nat, mid: string, k2: nat)
  {
    k <= k2 <= |before| && after == before[..k] + mid + before[k2..]
  }

  /** Replacing one line changes the joined text in that line's place only. */
  lemma JoinReplace(ls: seq<string>, i: nat, x: string)
    requires i < |ls|
    ensures ls[i := x][..i] == ls[..i]
    ensures Join(ls[i := x]) == Head(ls[..i]) + x + Tail(ls[i + 1..])
  {
    var rs := ls[i := x];
    JoinAround(rs, i);
    assert rs[..i] == ls[..i];
    assert rs[i + 1..] == ls[i + 1..];
  }

  /** Joining line i onto line i - 1 removes the line break between them from the joined text. */
  lemma JoinMerge(ls: seq<string>, i: nat, ms: seq<string>)
    requires 0 < i < |ls|
    requires ms == ls[..i - 1] + [ls[i - 1] + ls[i]] + ls[i + 1..]
    ensures |Head(ls[..i])| == |Head(ls[..i - 1])| + |ls[i - 1]| + 1
    ensures Head(ms[..i - 1]) == Head(ls[..i - 1])
    ensures Join(ls) == Head(ls[..i - 1]) + ls[i - 1] + "\n" + (ls[i] + Tail(ls[i + 1..]))
    ensures Join(ms) == Head(ls[..i - 1]) + ls[i - 1] + (ls[i] + Tail(ls[i + 1..]))
  {
    JoinAround(ms, i - 1);
    assert ms[..i - 1] == ls[..i - 1];
    assert ms[i..] == ls[i + 1..];
    JoinAround(ls, i);
    assert ls[..i] == ls[..i - 1] + [ls[i - 1]];
    HeadSnoc(ls[..i - 1], ls[i - 1]);
  }

  /** Splitting line i at column c puts a line break there in the joined text. */
  lemma JoinBreak(ls: seq<string>, i: nat, c: nat, ns: seq<string>)
    requires i < |ls| && c <= |ls[i]|
    requires ns == ls[..i] + [ls[i][..c], ls[i][c..]] + ls[i + 1..]
    ensures |Head(ns[..i + 1])| == |Head(ls[..i])| + c + 1
    ensures Join(ns) == Head(ls[..i]) + (ls[i][..c] + "\n" + ls[i][c..]) + Tail(ls[i + 1..])
  {
    JoinAround(ns, i + 1);
    assert ns[..i + 1] == ls[..i] + [ls[i][..c]];
    HeadSnoc(ls[..i], ls[i][..c]);
    assert ns[i + 2..] == ls[i + 1..];
  }

  /** An edit inside the middle piece, seen on the whole text. */
  lemma SpliceLine(text: string, h: string, l: string, t: string, c: nat, mid: string, c2: nat)
    requires text == h + l + t && c <= c2 <= |l|
    ensures |h| + c2 <= |text|
    ensures text[..|h| + c] + mid + text[|h| + c2..] == h + (l[..c] + mid + l[c2..]) + t
  {
    Around(h, l, t, c);
    Around(h, l, t, c2);
  }

  /** A removal inside the middle piece, seen on the whole text. */
  lemma CutLine(text: string, h: string, l: string, t: string, c: nat, c2: nat)
    requires text == h + l + t && c <= c2 <= |l|
    ensures |h| + c2 <= |text|
    ensures text[..|h| + c] + text[|h| + c2..] == h + (l[..c] + l[c2..]) + t
  {
    Around(h, l, t, c);
    Around(h, l, t, c2);
  }

  /** `insert` of a string without line breaks is typing it at the flat caret. */
  lemma InsertIsTyping(b: Buffer, str: string)
    requires Valid(b) && '\n' !in str
    ensures Flat(Insert(b, str)) == FlatText.InputText(Flat(b), str)
  {
    if str == "" {
      var l := b.lines[b.line];
      assert l[..b.col] + str + l[b.col..] == l;
      assert b.lines[b.line := l] == b.lines;
    } else {
      InsertSplices(b, str);
    }
  }

  /** Typing text without a line break splices it into the joined text at the caret, and the caret follows it. */
  lemma InsertSplices(b: Buffer, str: string)
    requires Valid(b) && '\n' !in str
    ensures Offset(b) <= |Join(b.lines)|
    ensures Join(Insert(b, str).lines) == Join(b.lines)[..Offset(b)] + str + Join(b.lines)[Offset(b)..]
    ensures Offset(Insert(b, str)) == Offset(b) + |str|
  {
    var l := b.lines[b.line];
    var h := Head(b.lines[..b.line]);
    var t := Tail(b.lines[b.line + 1..]);
    JoinAround(b.lines, b.line);
    var x := l[..b.col] + str + l[b.col..];
    JoinReplace(b.lines, b.line, x);
    SpliceLine(Join(b.lines), h, l, t, b.col, str, b.col);
    var r := Insert(b, str);
    assert r.lines == b.lines[b.line := x];
  }

  lemma DeleteBackwardInLine(b: Buffer)
    requires Valid(b) && b.col > 0
    ensures Flat(DeleteBackward(b)) == FlatText.BackspaceAtStartIgnored(Flat(b))
  {
    var l := b.lines[b.line];
    var h := Head(b.lines[..b.line]);
    var t := Tail(b.lines[b.line + 1..]);
    JoinAround(b.lines, b.line);
    JoinReplace(b.lines, b.line, l[..b.col - 1] + l[b.col..]);
    CutLine(Join(b.lines), h, l, t, b.col - 1, b.col);
  }

  /** Removing the character at `|h| + |x|` of `h + x + "\n" + y` removes that line break. */
  lemma DropBreak(text: string, h: string, x: string, y: string)
    requires text == h + x + "\n" + y
    ensures text[..|h| + |x|] + text[|h| + |x| + 1..] == h + x + y
  {
    assert text[..|h| + |x|] == h + x;
    assert text[|h| + |x| + 1..] == y;
  }

  /** The flat state of the buffer after joining line `i` onto the previous one. */
  lemma MergedFlat(b: Buffer, r: Buffer)
    requires Valid(b) && b.col == 0 && b.line > 0
    requires r == DeleteBackward(b)
    ensures Valid(r)
    ensures Offset(b) > 0 && Offset(r) == Offset(b) - 1
    ensures Join(r.lines) == Join(b.lines)[..Offset(b) - 1] + Join(b.lines)[Offset(b)..]
  {
    var i := b.line;
    var h0 := Head(b.lines[..i - 1]);
    var left := b.lines[i - 1];
    var rest := b.lines[i] + Tail(b.lines[i + 1..]);
    JoinMerge(b.lines, i, r.lines);
    DropBreak(Join(b.lines), h0, left, rest);
  }

  lemma DeleteBackwardAtLineStart(b: Buffer)
    requires Valid(b) && b.col == 0 && b.line > 0
    ensures Flat(DeleteBackward(b)) == FlatText.BackspaceAtStartIgnored(Flat(b))
  {
    MergedFlat(b, DeleteBackward(b));
  }

  /** `deleteBackward` is Backspace at the flat caret, with nothing happening at the start. */
  lemma DeleteBackwardIsBackspace(b: Buffer)
    requires Valid(b)
    ensures Flat(DeleteBackward(b)) == FlatText.BackspaceAtStartIgnored(Flat(b))
  {
    if b.col > 0 {
      DeleteBackwardInLine(b);
    } else if b.line > 0 {
      DeleteBackwardAtLineStart(b);
    }
  }

  lemma DeleteForwardInLine(b: Buffer)
    requires Valid(b) && b.col < |b.lines[b.line]|
    ensures Offset(b) < |Join(b.lines)|
    ensures Join(DeleteForward(b).lines) == Join(b.lines)[..Offset(b)] + Join(b.lines)[Offset(b) + 1..]
  {
    var l := b.lines[b.line];
    var h := Head(b.lines[..b.line]);
    var t := Tail(b.lines[b.line + 1..]);
    JoinAround(b.lines, b.line);
    JoinReplace(b.lines, b.line, l[..b.col] + l[b.col + 1..]);
    CutLine(Join(b.lines), h, l, t, b.col, b.col + 1);
  }

  lemma DeleteForwardAtBreak(b: Buffer)
    requires Valid(b) && b.col == |b.lines[b.line]| && b.line + 1 < |b.lines|
    ensures Offset(b) < |Join(b.lines)|
    ensures Join(DeleteForward(b).lines) == Join(b.lines)[..Offset(b)] + Join(b.lines)[Offset(b) + 1..]
  {
    var i := b.line + 1;
    var h := Head(b.lines[..i - 1]);
    var l := b.lines[i - 1];
    var rest := b.lines[i] + Tail(b.lines[i + 1..]);
    JoinMerge(b.lines, i, DeleteForward(b).lines);
    DropBreak(Join(b.lines), h, l, rest);
  }

  lemma DeleteForwardAtEnd(b: Buffer)
    requires Valid(b) && b.col == |b.lines[b.line]| && b.line + 1 == |b.lines|
    ensures Offset(b) == |Join(b.lines)|
    ensures DeleteForward(b).lines == b.lines
  {
    JoinAround(b.lines, b.line);
    assert b.lines[b.line + 1..] == [];
    assert b.lines[b.line] + "" == b.lines[b.line];
    assert b.lines[..b.line] + [b.lines[b.line]] == b.lines;
  }

  /** `deleteForward` removes the character after the flat caret (a line break at a line's end), and nothing at the end. */
  lemma DeleteForwardRemovesNext(b: Buffer)
    requires Valid(b)
    ensures Offset(DeleteForward(b)) == Offset(b)
    ensures Offset(b) < |Join(b.lines)| ==> Spliced(Join(b.lines), Join(DeleteForward(b).lines), Offset(b), "", Offset(b) + 1)
    ensures Offset(b) == |Join(b.lines)| ==> Join(DeleteForward(b).lines) == Join(b.lines)
  {
    var r := DeleteForward(b);
    assert r.lines[..b.line] == b.lines[..b.line];
    if b.col < |b.lines[b.line]| {
      DeleteForwardInLine(b);
    } else if b.line + 1 < |b.lines| {
      DeleteForwardAtBreak(b);
    } else {
      DeleteForwardAtEnd(b);
    }
  }

  lemma NewlineText(b: Buffer)
    requires Valid(b)
    ensures Offset(Newline(b)) == Offset(b) + 1
    ensures Join(Newline(b).lines) == Join(b.lines)[..Offset(b)] + "\n" + Join(b.lines)[Offset(b)..]
  {
    var l := b.lines[b.line];
    var h := Head(b.lines[..b.line]);
    var t := Tail(b.lines[b.line + 1..]);
    JoinAround(b.lines, b.line);
    JoinBreak(b.lines, b.line, b.col, Newline(b).lines);
    SpliceLine(Join(b.lines), h, l, t, b.col, "\n", b.col);
  }

  /** `newline` is Enter at the flat caret. */
  lemma NewlineIsEnter(b: Buffer)
    requires Valid(b)
    ensures Flat(Newline(b)) == FlatText.Enter(Flat(b))
  {
    NewlineText(b);
  }

  // ---------------------------------------------------------------------
  // Movement.

  /** `Order.clamp` of the remembered column to a line of length `len`; infinity goes to the end. */
  function ClampColumn(c: Column, len: nat): (r: nat)
    ensures r <= len
    ensures c.Infinite? ==> r == len
    ensures c.At? && 0 <= c.n <= len ==> r == c.n
  {
    match c
    case Infinite => len
    case At(n) => if n < 0 then 0 else if n > len then len else n
  }

  /** `moveLeft`: one back, wrapping to the end of the previous line; it remembers the column it lands on. */
  function MoveLeft(b: Buffer): (r: Buffer)
    requires Valid(b)
    ensures Valid(r) && r.lines == b.lines
    ensures b.line == 0 && b.col == 0 ==> r == b
    ensures !(b.line == 0 && b.col == 0) ==> r.lastCol == At(r.col)
  {
    if b.col == 0 then
      if b.line == 0 then b
      else
        var len := |b.lines[b.line - 1]|;
        b.(line := b.line - 1, col := len, lastCol := At(len))
    else b.(col := b.col - 1, lastCol := At(b.col - 1))
  }

  /** `moveRight`: one forward, wrapping to the start of the next line; it remembers the column it lands on. */
  function MoveRight(b: Buffer): (r: Buffer)
    requires Valid(b)
    ensures Valid(r) && r.lines == b.lines
    ensures b.line == |b.lines| - 1 && b.col == |b.lines[b.line]| ==> r == b
    ensures !(b.line == |b.lines| - 1 && b.col == |b.lines[b.line]|) ==> r.lastCol == At(r.col)
  {
    if b.col == |b.lines[b.line]| then
      if b.line == |b.lines| - 1 then b
      else b.(col := 0, lastCol := At(0), line := b.line + 1)
    else b.(col := b.col + 1, lastCol := At(b.col + 1))
  }

  /** `moveLeft` is ArrowLeft at the flat caret. */
  lemma MoveLeftIsArrowLeft(b: Buffer)
    requires Valid(b)
    ensures Flat(MoveLeft(b)) == FlatText.Left(Flat(b))
  {
    if b.col == 0 && b.line > 0 {
      var left := b.lines[b.line - 1];
      assert b.lines[..b.line] == b.lines[..b.line - 1] + [left];
      HeadSnoc(b.lines[..b.line - 1], left);
    }
  }

  /** `moveRight` is ArrowRight at the flat caret. */
  lemma MoveRightIsArrowRight(b: Buffer)
    requires Valid(b)
    ensures Flat(MoveRight(b)) == FlatText.Right(Flat(b))
  {
    var l := b.lines[b.line];
    JoinAround(b.lines, b.line);
    var h := Head(b.lines[..b.line]);
    var t := Tail(b.lines[b.line + 1..]);
    if b.col == |l| && b.line < |b.lines| - 1 {
      assert b.lines[..b.line + 1] == b.lines[..b.line] + [l];
      HeadSnoc(b.lines[..b.line], l);
      assert |t| >= 1;
    } else if b.col == |l| {
      assert b.lines[b.line + 1..] == [];
    }
  }

  /** `moveUp`: to the remembered column on the line above; on the first line, to its start. */
  function MoveUp(b: Buffer): (r: Buffer)
    requires Valid(b)
    ensures Valid(r) && r.lines == b.lines
    ensures b.line == 0 ==> r.line == 0 && r.col == 0 && r.lastCol == At(0)
    ensures b.line > 0 ==> r.line == b.line - 1 && r.col == ClampColumn(b.lastCol, |b.lines[b.line - 1]|) && r.lastCol == b.lastCol
  {
    if b.line == 0 then b.(col := 0, lastCol := At(0))
    else b.(line := b.line - 1, col := ClampColumn(b.lastCol, |b.lines[b.line - 1]|))
  }

  /** `moveDown`: to the remembered column on the line below; on the last line, to its end. */
  function MoveDown(b: Buffer): (r: Buffer)
    requires Valid(b)
    ensures Valid(r) && r.lines == b.lines
    ensures b.line == |b.lines| - 1 ==> r.line == b.line && r.col == |b.lines[b.line]| && r.lastCol == At(r.col)
    ensures b.line < |b.lines| - 1 ==> r.line == b.line + 1 && r.col == ClampColumn(b.lastCol, |b.lines[b.line + 1]|) && r.lastCol == b.lastCol
  {
    if b.line == |b.lines| - 1 then b.(col := |b.lines[b.line]|, lastCol := At(|b.lines[b.line]|))
    else b.(line := b.line + 1, col := ClampColumn(b.lastCol, |b.lines[b.line + 1]|))
  }

  /** After a horizontal move, down then up comes back to the same place: the remembered column survives a short line. */
  lemma DownThenUpReturns(b: Buffer)
    requires Valid(b) && b.lastCol == At(b.col) && b.line < |b.lines| - 1
    ensures MoveUp(MoveDown(b)) == b
  {
  }

  /** `home`: the start of the line, remembered. */
  function Home(b: Buffer): (r: Buffer)
    requires Valid(b)
    ensures Valid(r) && r.lines == b.lines && r.line == b.line && r.col == 0 && r.lastCol == At(0)
  {
    b.(col := 0, lastCol := At(0))
  }

  /** `end`: the end of the line, with the remembered column infinite. */
  function End(b: Buffer): (r: Buffer)
    requires Valid(b)
    ensures Valid(r) && r.lines == b.lines && r.line == b.line && r.col == |b.lines[b.line]| && r.lastCol == Infinite
  {
    b.(col := |b.lines[b.line]|, lastCol := Infinite)
  }

  /** After `end`, moving down or up lands at the end of the next line, whatever its length. */
  lemma EndStaysAtEnds(b: Buffer)
    requires Valid(b)
    ensures MoveDown(End(b)).col == |b.lines[MoveDown(End(b)).line]|
    ensures b.line > 0 ==> MoveUp(End(b)).col == |b.lines[b.line - 1]|
  {
  }

  function Clamp(x: int, lo: int, hi: int): int
    requires lo <= hi
  {
    if x < lo then lo else if x > hi then hi else x
  }

  /** A `move` and whether it threw. */
  datatype Moved = Moved(buf: Buffer, threw: bool)

  /**
   * `move` as written: the line index is clamped to [0, lines.length], one
   * past the last line, and written; reading that line's length then
   * throws, leaving the out-of-range line index in the store.
   */
  function Move(b: Buffer, line: int, col: int): (r: Moved)
    requires Valid(b)
  {
    var l := Clamp(line, 0, |b.lines|);
    if l == |b.lines| then Moved(b.(line := l), true)
    else
      var c := Clamp(col, 0, |b.lines[l]|);
      Moved(b.(line := l, col := c, lastCol := At(c)), false)
  }

  /** `move` with the line clamped to the last line, as its comment on the store's range intends. */
  function MoveClamped(b: Buffer, line: int, col: int): (r: Buffer)
    requires Valid(b)
    ensures Valid(r) && r.lines == b.lines && r.lastCol == At(r.col)
    ensures 0 <= line < |b.lines| ==> r.line == line
    ensures 0 <= line < |b.lines| && 0 <= col <= |b.lines[line]| ==> r.col == col
  {
    var l := Clamp(line, 0, |b.lines| - 1);
    var c := Clamp(col, 0, |b.lines[l]|);
    b.(line := l, col := c, lastCol := At(c))
  }

  /** The two agree except for a line index at or past the end, where the written one throws and leaves the buffer invalid. */
  lemma MoveAgreesBelowEnd(b: Buffer, line: int, col: int)
    requires Valid(b)
    ensures line < |b.lines| ==> Move(b, line, col) == Moved(MoveClamped(b, line, col), false)
    ensures line >= |b.lines| ==> Move(b, line, col).threw && !Valid(Move(b, line, col).buf)
  {
  }
}
