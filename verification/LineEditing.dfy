/** The shell's line editor, and what its output makes of the terminal row it works on. */
module LineEditing {
  import opened Terminals
  import opened Options

  datatype Key = InsertKey(c: char) | BackspaceKey | DeleteKey | LeftKey | RightKey | HomeKey | EndKey | UpKey | DownKey

  /** What is being edited: the line, the cursor in it, and where browsing the history stands. */
  datatype Edit = Edit(chars: seq<char>, cursor: nat, hist: seq<seq<char>>, histPos: Option<nat>, draft: seq<char>)

  predicate InLine(e: Edit) { e.cursor <= |e.chars| && (e.histPos.Some? ==> e.histPos.value < |e.hist|) }

  /** The effect of a key; `history` is what a snapshot of the shell's history would give. */
  function Edited(e: Edit, k: Key, history: seq<seq<char>>): (r: Edit)
    requires InLine(e)
    ensures InLine(r)
  {
    match k
    case InsertKey(c) => e.(chars := e.chars[..e.cursor] + [c] + e.chars[e.cursor..], cursor := e.cursor + 1)
    case BackspaceKey =>
      if e.cursor == 0 then e
      else e.(chars := e.chars[..e.cursor - 1] + e.chars[e.cursor..], cursor := e.cursor - 1)
    case DeleteKey =>
      if e.cursor == |e.chars| then e else e.(chars := e.chars[..e.cursor] + e.chars[e.cursor + 1..])
    case LeftKey => if e.cursor == 0 then e else e.(cursor := e.cursor - 1)
    case RightKey => if e.cursor == |e.chars| then e else e.(cursor := e.cursor + 1)
    case HomeKey => e.(cursor := 0)
    case EndKey => e.(cursor := |e.chars|)
    case UpKey =>
      if e.histPos == Some(0) then e
      else if e.histPos.Some? then Recalled(e, e.histPos.value - 1)
      else if history == [] then e.(hist := [])
      else Recalled(e.(hist := history, draft := e.chars), |history| - 1)
    case DownKey =>
      if e.histPos.None? then e
      else if e.histPos.value + 1 < |e.hist| then Recalled(e, e.histPos.value + 1)
      else e.(histPos := None, chars := e.draft, cursor := |e.draft|)
  }

  /** The entry at `i` of the history being browsed, with the cursor at its end. */
  function Recalled(e: Edit, i: nat): Edit
    requires i < |e.hist|
  {
    e.(histPos := Some(i), chars := e.hist[i], cursor := |e.hist[i]|)
  }

  function EditedAll(e: Edit, keys: seq<Key>, history: seq<seq<char>>): (r: Edit)
    requires InLine(e)
    ensures InLine(r)
  {
    if keys == [] then e else Edited(EditedAll(e, keys[..|keys| - 1], history), keys[|keys| - 1], history)
  }

  lemma EditedOneMore(e: Edit, keys: seq<Key>, n: nat, history: seq<seq<char>>)
    requires InLine(e) && n < |keys|
    ensures EditedAll(e, keys[..n + 1], history) == Edited(EditedAll(e, keys[..n], history), keys[n], history)
  {
    assert keys[..n + 1][..n] == keys[..n];
  }

  /** A typed character is undone by a backspace, and by stepping back and deleting. */
  lemma TypedAndUndone(e: Edit, c: char, history: seq<seq<char>>)
    requires InLine(e)
    ensures EditedAll(e, [InsertKey(c), BackspaceKey], history) == e
    ensures EditedAll(e, [InsertKey(c), LeftKey, DeleteKey], history) == e
  {
    var typed := Edited(e, InsertKey(c), history);
    assert typed.chars[..e.cursor] == e.chars[..e.cursor] && typed.chars[e.cursor + 1..] == e.chars[e.cursor..];
    assert e.chars[..e.cursor] + e.chars[e.cursor..] == e.chars;
    var undo, back := [InsertKey(c), BackspaceKey], [InsertKey(c), LeftKey, DeleteKey];
    assert undo[..1] == [InsertKey(c)] && back[..1] == [InsertKey(c)];
    assert EditedAll(e, [], history) == e && EditedAll(e, [InsertKey(c)], history) == typed;
    EditedOneMore(e, undo, 1, history);
    EditedOneMore(e, back, 1, history);
    EditedOneMore(e, back, 2, history);
    assert undo[..2] == undo && back[..3] == back;
  }

  predicate AllPrintable(s: seq<char>) { forall i :: 0 <= i < |s| ==> Printable(s[i]) }

  /** Cells show the given text from column `from` on. */
  predicate ShowsText(row: Row, from: nat, text: seq<char>) {
    from + |text| <= COLS && forall i :: 0 <= i < |text| ==> row[from + i].ch == text[i]
  }

  predicate BlankAfter(row: Row, from: nat) { forall k :: from <= k < COLS ==> row[k].ch == ' ' }

  lemma JoinedText(row: Row, a: seq<char>, b: seq<char>)
    requires ShowsText(row, 0, a) && ShowsText(row, |a|, b)
    ensures ShowsText(row, 0, a + b)
  {
    forall i | 0 <= i < |a + b| ensures row[0 + i].ch == (a + b)[i] {
      if i < |a| { assert row[0 + i].ch == a[i]; } else { assert row[|a| + (i - |a|)].ch == b[i - |a|]; }
    }
  }

  lemma TextKept(row: Row, row': Row, text: seq<char>)
    requires ShowsText(row, 0, text) && forall k :: 0 <= k < |text| ==> row'[k] == row[k]
    ensures ShowsText(row', 0, text)
  {
    assert forall i :: 0 <= i < |text| ==> row[0 + i].ch == text[i];
  }

  lemma BlanksPrint(n: nat)
    ensures AllPrintable(seq(n, _ => ' '))
  {}

  lemma BlankFurther(row: Row, from: nat, further: nat)
    requires BlankAfter(row, from) && from <= further
    ensures BlankAfter(row, further)
  {}

  /** `row'` is `row` but for `text` at `from`. */
  predicate Prints(row: Row, row': Row, from: nat, text: seq<char>) {
    && ShowsText(row', from, text)
    && forall k :: 0 <= k < COLS && !(from <= k < from + |text|) ==> row'[k] == row[k]
  }

  /** A row after prompt, line and `extra` blanks were printed over it. */
  lemma Repainted(row0: Row, row1: Row, row2: Row, row3: Row, prompt: seq<char>, chars: seq<char>, extra: nat)
    requires Prints(row0, row1, 0, prompt) && Prints(row1, row2, |prompt|, chars)
    requires Prints(row2, row3, |prompt| + |chars|, seq(extra, _ => ' '))
    requires BlankAfter(row0, |prompt| + |chars| + extra)
    ensures ShowsText(row3, 0, prompt + chars) && BlankAfter(row3, |prompt| + |chars|)
  {
    var p, c, spaces := |prompt|, |chars|, seq(extra, _ => ' ');
    assert ShowsText(row2, 0, prompt) by { TextKept(row1, row2, prompt); }
    JoinedText(row2, prompt, chars);
    TextKept(row2, row3, prompt + chars);
    forall k | p + c <= k < COLS ensures row3[k].ch == ' ' {
      if k < p + c + extra { assert row3[p + c + (k - p - c)].ch == spaces[k - p - c]; }
    }
  }

  class LineEditor {
    const prompt: seq<char>
    const term: Terminal
    var chars: seq<char>
    var cursor: nat
    var painted: nat
    var hist: seq<seq<char>>
    var histPos: Option<nat>
    var draft: seq<char>

    /** The editor's own fields agree with one another; everything it may print is printable. */
    predicate Sane()
      reads this
    {
      && cursor <= |chars| && painted == |chars|
      && AllPrintable(prompt) && AllPrintable(chars) && AllPrintable(draft)
      && (forall i :: 0 <= i < |hist| ==> AllPrintable(hist[i]))
      && (histPos.Some? ==> histPos.value < |hist|)
    }

    function Now(): Edit
      reads this
    {
      Edit(chars, cursor, hist, histPos, draft)
    }

    /** The terminal is ready for plain characters. */
    ghost predicate Ready()
      reads term
    {
      term.Valid() && term.esc == Plain
    }

    /** The row shows prompt, line and blanks, and the terminal's cursor stands where the editor's does. */
    ghost predicate Shown()
      reads this, term, term.cells
    {
      && Ready() && |prompt| + |chars| <= COLS
      && ShowsText(term.cells[term.cy], 0, prompt + chars)
      && BlankAfter(term.cells[term.cy], |prompt| + |chars|)
      && term.cx == |prompt| + cursor
    }

    /** The other rows are as they were. */
    twostate predicate OneRow()
      reads term, term.cells
    {
      && term.cells.Length == ROWS && old(term.cy) < ROWS
      && term.cy == old(term.cy) && forall r :: 0 <= r < ROWS && r != term.cy ==> term.cells[r] == old(term.cells[r])
    }

    constructor (prompt: seq<char>, term: Terminal)
      requires term.Valid() && term.esc == Plain && AllPrintable(prompt) && |prompt| <= COLS
      requires ShowsText(term.cells[term.cy], 0, prompt) && BlankAfter(term.cells[term.cy], |prompt|)
          && term.cx == |prompt|
      ensures Sane() && Shown() && chars == [] && cursor == 0
      ensures this.prompt == prompt && this.term == term
    {
      this.prompt, this.term := prompt, term;
      chars, cursor, painted, hist, histPos, draft := [], 0, 0, [], None, [];
      new;
      assert prompt + [] == prompt;
    }

    // -------------------------------------------------------------- printing

    method PrintText(text: seq<char>)
      requires Ready() && AllPrintable(text) && term.cx + |text| <= COLS
      modifies term, term.cells
      ensures Ready() && OneRow() && term.cx == old(term.cx) + |text|
      ensures ShowsText(term.cells[term.cy], old(term.cx), text)
      ensures forall k :: 0 <= k < COLS && !(old(term.cx) <= k < old(term.cx) + |text|) ==>
        term.cells[term.cy][k] == old(term.cells[term.cy])[k]
    {
      for i := 0 to |text|
        invariant Ready() && OneRow() && term.cx == old(term.cx) + i
        invariant forall k :: 0 <= k < i ==> term.cells[term.cy][old(term.cx) + k].ch == text[k]
        invariant forall k :: 0 <= k < COLS && !(old(term.cx) <= k < old(term.cx) + i) ==>
          term.cells[term.cy][k] == old(term.cells[term.cy])[k]
      {
        term.Feed(text[i]);
      }
    }

    method PrintBackspaces(n: nat)
      requires Ready() && n <= term.cx
      modifies term, term.cells
      ensures Ready() && term.cx == old(term.cx) - n && term.cy == old(term.cy) && term.cells[..] == old(term.cells[..])
    {
      for i := 0 to n
        invariant Ready() && term.cx == old(term.cx) - i && term.cy == old(term.cy)
            && term.cells[..] == old(term.cells[..])
      {
        term.Feed(BACKSPACE);
      }
    }

    method ReturnCarriage()
      requires Ready()
      modifies term, term.cells
      ensures Ready() && term.cx == 0 && term.cy == old(term.cy) && term.cells[..] == old(term.cells[..])
    {
      term.Feed('\r');
    }

    /** Repaint prompt and line, blank what a longer line left behind, and put the cursor in place. */
    method Redraw()
      requires Ready() && cursor <= |chars| && AllPrintable(prompt) && AllPrintable(chars)
      requires |prompt| + |chars| <= COLS && |prompt| + painted <= COLS
      requires BlankAfter(term.cells[term.cy], |prompt| + painted)
      modifies this`painted, term, term.cells
      ensures Shown() && OneRow() && painted == |chars|
    {
      hide Parsed, ShowsText, BlankAfter, AllPrintable;
      ReturnCarriage();
      ghost var row0, p := term.cells[term.cy], |prompt|;
      PrintText(prompt);
      ghost var row1 := term.cells[term.cy];
      PrintText(chars);
      ghost var row2 := term.cells[term.cy];
      var extra := if painted > |chars| then painted - |chars| else 0;
      var spaces := seq(extra, _ => ' ');
      BlanksPrint(extra);
      BlankFurther(row0, p + painted, p + |chars| + extra);
      PrintText(spaces);
      Repainted(row0, row1, row2, term.cells[term.cy], prompt, chars, extra);
      PrintBackspaces(extra);
      PrintBackspaces(|chars| - cursor);
      painted := |chars|;
    }

    // -------------------------------------------------------------- keys

    method Insert(c: char)
      requires Sane() && Shown() && Printable(c) && |prompt| + |chars| < COLS
      modifies this, term, term.cells
      ensures hist == old(hist) && draft == old(draft) && histPos == old(histPos)
      ensures Sane() && Shown() && OneRow()
      ensures chars == old(chars)[..old(cursor)] + [c] + old(chars)[old(cursor)..] && cursor == old(cursor) + 1
    {
      chars := chars[..cursor] + [c] + chars[cursor..];
      cursor := cursor + 1;
      Redraw();
    }

    method Backspace()
      requires Sane() && Shown()
      modifies this, term, term.cells
      ensures hist == old(hist) && draft == old(draft) && histPos == old(histPos)
      ensures Sane() && Shown() && OneRow()
      ensures if old(cursor) > 0
              then chars == old(chars)[..old(cursor) - 1] + old(chars)[old(cursor)..] && cursor == old(cursor) - 1
              else chars == old(chars) && cursor == 0
    {
      if cursor > 0 {
        cursor := cursor - 1;
        chars := chars[..cursor] + chars[cursor + 1..];
        Redraw();
      }
    }

    method Delete()
      requires Sane() && Shown()
      modifies this, term, term.cells
      ensures hist == old(hist) && draft == old(draft) && histPos == old(histPos)
      ensures Sane() && Shown() && OneRow() && cursor == old(cursor)
      ensures chars == if old(cursor) < |old(chars)| then old(chars)[..cursor] + old(chars)[cursor + 1..]
          else old(chars)
    {
      if cursor < |chars| {
        chars := chars[..cursor] + chars[cursor + 1..];
        Redraw();
      }
    }

    method Left()
      requires Sane() && Shown()
      modifies this`cursor, term, term.cells
      ensures Sane() && Shown() && OneRow() && cursor == if old(cursor) > 0 then old(cursor) - 1 else 0
    {
      if cursor > 0 {
        cursor := cursor - 1;
        term.Feed(BACKSPACE);
      }
    }

    method Right()
      requires Sane() && Shown()
      modifies this`cursor, term, term.cells
      ensures Sane() && Shown() && OneRow() && cursor == if old(cursor) < |chars| then old(cursor) + 1 else |chars|
    {
      if cursor < |chars| {
        term.Feed(chars[cursor]);
        cursor := cursor + 1;
      }
    }

    method Home()
      requires Sane() && Shown()
      modifies this`cursor, term, term.cells
      ensures Sane() && Shown() && OneRow() && cursor == 0
    {
      while cursor > 0
        invariant Sane() && Shown() && OneRow()
      {
        Left();
      }
    }

    method End()
      requires Sane() && Shown()
      modifies this`cursor, term, term.cells
      ensures Sane() && Shown() && OneRow() && cursor == |chars|
    {
      while cursor < |chars|
        invariant Sane() && Shown() && OneRow()
      {
        Right();
      }
    }

    method SetLine(line: seq<char>)
      requires Sane() && Shown() && AllPrintable(line) && |prompt| + |line| <= COLS
      modifies this, term, term.cells
      ensures Sane() && Shown() && OneRow() && chars == line && cursor == |line|
      ensures hist == old(hist) && histPos == old(histPos) && draft == old(draft)
    {
      chars := line;
      cursor := |chars|;
      Redraw();
    }

    // -------------------------------------------------------------- history

    /** Arrow up: an older entry of the history, saving the line first when browsing starts. */
    method HistoryPrev(history: seq<seq<char>>)
      requires Sane() && Shown() && Fitting(history) && Fitting(hist)
      modifies this, term, term.cells
      ensures Sane() && Shown() && OneRow()
      ensures old(histPos).None? && history == [] ==>
        chars == old(chars) && cursor == old(cursor) && draft == old(draft) && histPos == None && hist == []
      ensures old(histPos).None? && history != [] ==>
        && hist == history && histPos == Some(|history| - 1) && draft == old(chars)
        && chars == history[|history| - 1] && cursor == |chars|
      ensures old(histPos) == Some(0) ==>
        && chars == old(chars) && cursor == old(cursor) && histPos == old(histPos)
        && hist == old(hist) && draft == old(draft)
      ensures old(histPos).Some? && old(histPos).value > 0 ==>
        && hist == old(hist) && histPos == Some(old(histPos).value - 1) && draft == old(draft)
        && chars == hist[old(histPos).value - 1] && cursor == |chars|
    {
      match histPos
      case None =>
        hist := history;
        if hist == [] {
          return;
        }
        draft := chars;
        histPos := Some(|hist| - 1);
        SetLine(hist[|hist| - 1]);
      case Some(idx) =>
        if idx > 0 {
          histPos := Some(idx - 1);
          SetLine(hist[idx - 1]);
        }
    }

    /** Arrow down: a newer entry, or past the newest one the saved line. */
    method HistoryNext()
      requires Sane() && Shown() && Fitting(hist) && |prompt| + |draft| <= COLS
      modifies this, term, term.cells
      ensures Sane() && Shown() && OneRow()
      ensures old(histPos).None? ==> chars == old(chars) && cursor == old(cursor) && histPos == None
      ensures old(histPos).Some? && old(histPos).value + 1 < |old(hist)| ==>
        && histPos == Some(old(histPos).value + 1) && hist == old(hist) && draft == old(draft)
        && chars == hist[old(histPos).value + 1] && cursor == |chars|
      ensures old(histPos).Some? && old(histPos).value + 1 >= |old(hist)| ==>
        histPos == None && chars == old(draft) && cursor == |chars|
      ensures hist == old(hist) && draft == old(draft)
    {
      match histPos
      case None =>
      case Some(idx) =>
        if idx + 1 < |hist| {
          histPos := Some(idx + 1);
          SetLine(hist[idx + 1]);
        } else {
          histPos := None;
          SetLine(draft);
        }
    }

    predicate Fitting(lines: seq<seq<char>>) {
      forall i :: 0 <= i < |lines| ==> AllPrintable(lines[i]) && |prompt| + |lines[i]| <= COLS
    }

    /** Browsing `n` entries back and as many forward again brings back the line that was being edited. */
    method BrowseAndReturn(history: seq<seq<char>>, n: nat)
      requires Sane() && Shown() && Fitting(history) && Fitting(hist) && histPos == None && 1 <= n <= |history|
      modifies this, term, term.cells
      ensures Sane() && Shown() && OneRow() && chars == old(chars) && cursor == |chars| && histPos == None
    {
      HistoryPrev(history);
      for i := 1 to n
        invariant Sane() && Shown() && OneRow() && hist == history && draft == old(chars)
            && histPos == Some(|history| - i)
      {
        HistoryPrev(history);
      }
      for i := 1 to n
        invariant Sane() && Shown() && OneRow() && hist == history && draft == old(chars)
            && histPos == Some(|history| - n + i - 1)
      {
        HistoryNext();
      }
      HistoryNext();
    }

    /** Enter: hand over the line and start afresh. */
    method Take() returns (line: seq<char>)
      requires Sane()
      modifies this
      ensures Sane() && line == old(chars) && chars == [] && cursor == 0 && histPos == None && draft == []
      ensures hist == old(hist)
    {
      line := chars;
      chars, cursor, painted, histPos, draft := [], 0, 0, None, [];
    }

    // -------------------------------------------------------------- runs of keys

    /** Whether the line after a key would still fit its row. */
    predicate Fits(k: Key)
      reads this
    {
      k.InsertKey? ==> Printable(k.c) && |prompt| + |chars| < COLS
    }

    method Press(k: Key, history: seq<seq<char>>)
      requires Sane() && Shown() && Fits(k) && Fitting(history) && Fitting(hist) && |prompt| + |draft| <= COLS
      modifies this, term, term.cells
      ensures Sane() && Shown() && OneRow() && Fitting(hist) && |prompt| + |draft| <= COLS
      ensures Now() == Edited(old(Now()), k, history)
    {
      hide AllPrintable;
      match k
      case InsertKey(c) => Insert(c);
      case BackspaceKey => Backspace();
      case DeleteKey => Delete();
      case LeftKey => Left();
      case RightKey => Right();
      case HomeKey => Home();
      case EndKey => End();
      case UpKey => HistoryPrev(history);
      case DownKey => HistoryNext();
    }

    /**
     * After any sequence of keys the line is what they make of it, the row shows prompt, line and blanks, and the
     * two cursors agree; a key that would make the line outgrow its row ends the run.
     */
    method PressAll(keys: seq<Key>, history: seq<seq<char>>) returns (n: nat)
      requires Sane() && Shown() && Fitting(history) && Fitting(hist) && |prompt| + |draft| <= COLS
      modifies this, term, term.cells
      ensures Sane() && Shown() && OneRow() && n <= |keys| && (n < |keys| ==> !Fits(keys[n]))
      ensures Now() == EditedAll(old(Now()), keys[..n], history)
    {
      n := 0;
      while n < |keys|
        invariant n <= |keys| && Sane() && Shown() && OneRow() && Fitting(hist) && |prompt| + |draft| <= COLS
        invariant Now() == EditedAll(old(Now()), keys[..n], history)
      {
        if !Fits(keys[n]) {
          return;
        }
        EditedOneMore(old(Now()), keys, n, history);
        Press(keys[n], history);
        n := n + 1;
      }
    }
  }
}
