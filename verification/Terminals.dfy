/** A text terminal: its grid, cursor and escape-sequence parser. */
module Terminals {
  const COLS: nat := 64
  const ROWS: nat := 28
  const TAB: nat := 4
  const SCROLLBACK_MAX: nat := 200
  const DEFAULT_FG: nat := 0
  const ESCAPE: char := '\U{001B}'
  const BACKSPACE: char := '\U{0008}'

  datatype Cell = Cell(ch: char, fg: nat)

  const BLANK := Cell(' ', DEFAULT_FG)

  datatype Parser = Plain | EscapeSeen | Csi

  predicate Printable(c: char) { c >= ' ' }

  function SaturatingAppend(p: nat, d: nat): (r: nat)
    ensures r < 0x1_0000
  {
    var x := if p * 10 > 0xFFFF then 0xFFFF else p * 10;
    if x + d > 0xFFFF then 0xFFFF else x + d
  }

  const ANSI: seq<nat> := [0x1A1A1A, 0xE05561, 0x8CC265, 0xE0C060, 0x5C9CE6, 0xC162DE, 0x4CC9C0, 0xD7DAE0]
  const ANSI_BRIGHT: seq<nat> := [0x6B7280, 0xFF7A85, 0xB4F08C, 0xFFE08A, 0x8AB8FF, 0xE08CFF, 0x80F0E8, 0xFFFFFF]

  type Row = r: seq<Cell> | |r| == COLS witness seq(COLS, _ => BLANK)

  const BLANK_ROW: Row := seq(COLS, _ => BLANK)

  function Lesser(a: nat, b: nat): nat { if a < b then a else b }

  function Greater(a: nat, b: nat): nat { if a < b then b else a }

  /** The scrollback once another row has gone into it. */
  function Pushed(scroll: seq<Row>, row: Row): seq<Row> {
    (if |scroll| >= SCROLLBACK_MAX then scroll[1..] else scroll) + [row]
  }

  /** The pen after some colour codes. */
  function Coloured(pen: nat, codes: seq<nat>): nat {
    if codes == [] then pen
    else
      var code := codes[|codes| - 1];
      if code == 0 || code == 39 then DEFAULT_FG
      else if 30 <= code <= 37 then ANSI[code - 30]
      else if 90 <= code <= 97 then ANSI_BRIGHT[code - 90]
      else Coloured(pen, codes[..|codes| - 1])
  }

  lemma ColouredBasics(pen: nat)
    ensures Coloured(pen, []) == pen && Coloured(pen, [0]) == DEFAULT_FG
  {}

  lemma ColouredOnce(pen: nat, codes: seq<nat>, code: nat)
    ensures Coloured(Coloured(pen, codes), [code]) == Coloured(pen, codes + [code])
  {
    assert (codes + [code])[..|codes|] == codes;
  }

  // ---------------------------------------------------------------- parameters of control sequences

  predicate InParameter(c: char) { '0' <= c <= '9' || c == ';' }

  function Decimal(digits: string): nat {
    if digits == "" then 0
    else
      var last := digits[|digits| - 1];
      10 * Decimal(digits[..|digits| - 1]) + if '0' <= last <= '9' then last as nat - '0' as nat else 0
  }

  function Semicolons(text: string): nat {
    if text == "" then 0 else Semicolons(text[..|text| - 1]) + if text[|text| - 1] == ';' then 1 else 0
  }

  /** The digits of field `k`, counted by semicolons; the eighth field and all after it run together. */
  function Field(text: string, k: nat): string {
    if text == "" then ""
    else
      var init, last := text[..|text| - 1], text[|text| - 1];
      if last != ';' && Lesser(Semicolons(init), 7) == k then Field(init, k) + [last] else Field(init, k)
  }

  /** What a control sequence with this text says: each field as a decimal number, 16 bits at most. */
  function Values(text: string): seq<nat> {
    if text == "" then []
    else seq(Lesser(Semicolons(text), 7) + 1, k requires 0 <= k => Lesser(Decimal(Field(text, k)), 0xFFFF))
  }

  ghost predicate Parsed(params: seq<nat>, nparam: nat, haveDigit: bool, text: string) {
    && |params| == 8 && nparam == Lesser(Semicolons(text), 7)
    && (haveDigit || nparam > 0 <==> text != "")
    && forall k :: 0 <= k < 8 ==> params[k] == Lesser(Decimal(Field(text, k)), 0xFFFF)
  }

  lemma NothingParsed()
    ensures Parsed(seq(8, _ => 0), 0, false, "")
  {}

  lemma MoreParsed(params: seq<nat>, nparam: nat, haveDigit: bool, text: string, c: char)
    requires Parsed(params, nparam, haveDigit, text) && InParameter(c)
    ensures if c == ';' then Parsed(params, if nparam + 1 < 8 then nparam + 1 else nparam, haveDigit, text + [c])
            else Parsed(params[nparam := SaturatingAppend(params[nparam], c as nat - '0' as nat)], nparam, true,
              text + [c])
  {
    var more := text + [c];
    assert more[..|more| - 1] == text;
    forall k: nat ensures Field(more, k) == if c != ';' && nparam == k then Field(text, k) + [c] else Field(text, k) {}
    if c != ';' {
      var f := Field(text, nparam) + [c];
      assert f[..|f| - 1] == Field(text, nparam);
    }
  }

  lemma ParsedValues(params: seq<nat>, nparam: nat, haveDigit: bool, text: string)
    requires Parsed(params, nparam, haveDigit, text)
    ensures params[..if haveDigit || nparam > 0 then nparam + 1 else 0] == Values(text)
  {}

  /** The shortest decimal form. */
  function Digits(n: nat): (r: string)
    ensures r != ""
  {
    var d := ['0' + (n % 10) as char];
    if n < 10 then d else Digits(n / 10) + d
  }

  /** Parameters as a program writes them. */
  function Spelled(values: seq<nat>): string {
    if values == [] then ""
    else if |values| == 1 then Digits(values[0])
    else Spelled(values[..|values| - 1]) + ";" + Digits(values[|values| - 1])
  }

  predicate AllDigits(s: string) { forall i :: 0 <= i < |s| ==> '0' <= s[i] <= '9' }

  lemma {:induction false} DigitsRead(n: nat)
    ensures AllDigits(Digits(n)) && Decimal(Digits(n)) == n
  {
    var s := Digits(n);
    if n < 10 {
      assert s[..0] == "";
    } else {
      DigitsRead(n / 10);
      assert s[..|s| - 1] == Digits(n / 10);
    }
  }

  lemma DigitGoesOn(text: string, c: char, k: nat)
    requires c != ';'
    ensures Semicolons(text + [c]) == Semicolons(text)
    ensures Field(text + [c], k) == if k == Lesser(Semicolons(text), 7) then Field(text, k) + [c] else Field(text, k)
  {
    assert (text + [c])[..|text + [c]| - 1] == text;
  }

  lemma Regrouped(a: string, b: string)
    requires b != ""
    ensures a + b[..|b| - 1] + [b[|b| - 1]] == a + b
  {}

  /** Digits go on with the last field. */
  lemma {:induction false} FieldGoesOn(text: string, digits: string, k: nat)
    requires AllDigits(digits)
    ensures Semicolons(text + digits) == Semicolons(text)
    ensures Field(text + digits, k) == if k == Lesser(Semicolons(text), 7) then Field(text, k) + digits
        else Field(text, k)
  {
    if digits == "" {
      assert text + digits == text;
    } else {
      var init, last := digits[..|digits| - 1], digits[|digits| - 1];
      hide Field, Semicolons;
      FieldGoesOn(text, init, k);
      DigitGoesOn(text + init, last, k);
      Regrouped(text, digits);
      Regrouped(Field(text, k), digits);
    }
  }

  lemma FieldEnds(text: string, k: nat)
    ensures Semicolons(text + ";") == Semicolons(text) + 1 && Field(text + ";", k) == Field(text, k)
  {
    assert (text + ";")[..|text + ";"| - 1] == text;
  }

  lemma NoFields(k: nat)
    ensures Semicolons("") == 0 && Field("", k) == ""
  {}

  lemma {:induction false} FieldsBeyond(text: string, k: nat)
    requires Lesser(Semicolons(text), 7) < k
    ensures Field(text, k) == ""
  {
    if text != "" { FieldsBeyond(text[..|text| - 1], k); }
  }

  lemma {:induction false} SpelledFields(values: seq<nat>, k: nat)
    requires 1 <= |values| <= 8
    ensures Semicolons(Spelled(values)) == |values| - 1 && Spelled(values) != ""
    ensures k < |values| ==> Field(Spelled(values), k) == Digits(values[k])
  {
    hide Digits, AllDigits, Decimal, Semicolons, Field;
    var init, last := values[..|values| - 1], Digits(values[|values| - 1]);
    DigitsRead(values[|values| - 1]);
    NoFields(k);
    if |values| == 1 {
      FieldGoesOn("", last, k);
      assert "" + last == last;
    } else {
      SpelledFields(init, k);
      FieldEnds(Spelled(init), k);
      FieldGoesOn(Spelled(init) + ";", last, k);
      if k == |init| { FieldsBeyond(Spelled(init), k); }
    }
  }

  /** Up to eight 16-bit numbers survive being written out in a control sequence and read by the parser. */
  lemma SpelledValues(values: seq<nat>)
    requires |values| <= 8 && forall k :: 0 <= k < |values| ==> values[k] < 0x1_0000
    ensures Values(Spelled(values)) == values
  {
    if values != [] {
      SpelledFields(values, 0);
      forall k | 0 <= k < |values| ensures Values(Spelled(values))[k] == values[k] {
        SpelledFields(values, k);
        DigitsRead(values[k]);
      }
    }
  }

  class Terminal {
    const cells: array<Row>
    var cx: nat
    var cy: nat
    var pen: nat
    var esc: Parser
    var params: seq<nat>
    var nparam: nat
    var haveDigit: bool
    var scroll: seq<Row>

    /** The characters of the control sequence being read, so far. */
    ghost var said: string

    /** The cursor is on the grid, or just past the end of a row; parameters are those of the text read. */
    ghost predicate Valid()
      reads this
    {
      && cells.Length == ROWS && cx <= COLS && cy < ROWS
      && |params| == 8 && nparam < 8 && |scroll| <= SCROLLBACK_MAX
      && (esc == Csi ==> Parsed(params, nparam, haveDigit, said))
    }

    constructor ()
      ensures Valid() && fresh(cells) && esc == Plain && cx == 0 && cy == 0 && cells[..] == seq(ROWS, _ => BLANK_ROW)
      ensures pen == DEFAULT_FG && scroll == []
    {
      cells := new Row[ROWS](_ => BLANK_ROW);
      cx, cy, pen, esc, params, nparam, haveDigit, scroll := 0, 0, DEFAULT_FG, Plain, seq(8, _ => 0), 0, false, [];
    }

    /** Everything a reader can scroll through: the rows scrolled off, then the grid. */
    function Transcript(): seq<Row>
      reads this, cells
    {
      scroll + cells[..]
    }

    method ShiftRows()
      requires cells.Length == ROWS
      modifies cells
      ensures cells[..] == old(cells[1..]) + [BLANK_ROW]
    {
      for r := 1 to ROWS
        invariant forall q :: 0 <= q < r - 1 ==> cells[q] == old(cells[q + 1])
        invariant forall q :: r - 1 <= q < ROWS ==> cells[q] == old(cells[q])
      {
        cells[r - 1] := cells[r];
      }
      cells[ROWS - 1] := BLANK_ROW;
      assert cells[..] == old(cells[1..]) + [BLANK_ROW];
    }

    /** Move every row up by one; the top one goes to the scrollback, which forgets its oldest row when full. */
    method ScrollUp()
      requires cells.Length == ROWS && |scroll| <= SCROLLBACK_MAX
      modifies this`cy, this`scroll, cells
      ensures |scroll| <= SCROLLBACK_MAX && cells[..] == old(cells[1..]) + [BLANK_ROW]
      ensures Transcript() == (if |old(scroll)| >= SCROLLBACK_MAX then old(Transcript())[1..]
          else old(Transcript())) + [BLANK_ROW]
      ensures scroll == Pushed(old(scroll), old(cells[0])) && cy == if old(cy) > 0 then old(cy) - 1 else 0
    {
      if |scroll| >= SCROLLBACK_MAX {
        scroll := scroll[1..];
      }
      scroll := scroll + [cells[0]];
      ShiftRows();
      Rolled(old(scroll), old(cells[..]));
      if cy > 0 {
        cy := cy - 1;
      }
    }

    /** The cursor goes to the start of the next row, and the grid scrolls when there is none. */
    twostate predicate Broken()
      requires cells.Length == ROWS
      reads this, cells
    {
      && cx == 0
      && (if old(cy) < ROWS - 1 then
            cy == old(cy) + 1 && scroll == old(scroll) && cells[..] == old(cells[..])
          else
            && cy == ROWS - 1 && cells[..] == old(cells[1..]) + [BLANK_ROW]
            && scroll == Pushed(old(scroll), old(cells[0])))
    }

    method Newline()
      requires Valid()
      modifies this`cx, this`cy, this`scroll, cells
      ensures Valid() && Broken()
    {
      cx := 0;
      cy := cy + 1;
      if cy >= ROWS {
        ScrollUp();
      }
    }

    /** What one ordinary character does. Positions on the grid count from its top left corner, row by row. */
    twostate predicate Shown(c: char)
      requires old(Valid()) && Valid()
      reads this, cells
    {
      if c == '\n' then Broken()
      else if Printable(c) then
        if old(cx) < COLS then
          && cx == old(cx) + 1 && cy == old(cy) && scroll == old(scroll)
          && cells[..] == old(cells[..])[cy := old(cells[cy])[old(cx) := Cell(c, pen)]]
        else if old(cy) < ROWS - 1 then
          && cx == 1 && cy == old(cy) + 1 && scroll == old(scroll)
          && cells[..] == old(cells[..])[cy := old(cells[cy + 1])[0 := Cell(c, pen)]]
        else
          && cx == 1 && cy == ROWS - 1 && scroll == Pushed(old(scroll), old(cells[0]))
          && cells[..] == old(cells[1..]) + [BLANK_ROW[0 := Cell(c, pen)]]
      else
        && cells[..] == old(cells[..]) && scroll == old(scroll)
        && (c == '\r' ==> cx == 0 && cy == old(cy))
        && (c == '\t' ==> cx == Lesser(old(cx) + TAB - old(cx) % TAB, COLS - 1) && cy == old(cy))
        && (c == BACKSPACE ==> cx < COLS && COLS * cy + cx + 1 == Greater(old(COLS * cy + cx), 1))
        && (c !in ['\r', '\t', BACKSPACE] ==> cx == old(cx) && cy == old(cy))
    }

    /** One decoded character. */
    method Put(c: char)
      requires Valid()
      modifies this`cx, this`cy, this`scroll, cells
      ensures Valid() && Shown(c)
    {
      if c == '\n' {
        Newline();
      } else if c == '\r' {
        cx := 0;
      } else if c == '\t' {
        var next := (cx / TAB + 1) * TAB;
        cx := if next < COLS - 1 then next else COLS - 1;
      } else if c == BACKSPACE {
        if cx > 0 {
          cx := cx - 1;
        } else if cy > 0 {
          cy := cy - 1;
          cx := COLS - 1;
        }
      } else if c >= ' ' {
        if cx >= COLS {
          Newline();
        }
        cells[cy] := cells[cy][cx := Cell(c, pen)];
        cx := cx + 1;
      }
    }

    /** One character through the escape-sequence parser. */
    method Feed(c: char)
      requires Valid()
      modifies this, cells
      ensures Valid()
      ensures old(esc) == Plain && c != ESCAPE ==> esc == Plain && pen == old(pen) && Shown(c)
      ensures old(esc) == Plain && c == ESCAPE ==> esc == EscapeSeen && Untouched()
      ensures old(esc) == EscapeSeen ==> Untouched() && if c == '[' then esc == Csi && said == "" else esc == Plain
      ensures old(esc) == Csi && InParameter(c) ==> esc == Csi && said == old(said) + [c] && Untouched()
      ensures old(esc) == Csi && !InParameter(c) ==> esc == Plain && Obeyed(c, Values(old(said)))
    {
      hide Parsed, Values;
      match esc
      case EscapeSeen =>
        if c == '[' {
          esc, params, nparam, haveDigit := Csi, seq(8, _ => 0), 0, false;
          said := "";
          NothingParsed();
        } else {
          esc := Plain;
        }
      case Csi =>
        if InParameter(c) {
          said := said + [c];
          MoreParsed(params, nparam, haveDigit, old(said), c);
        }
        if '0' <= c <= '9' {
          params := params[nparam := SaturatingAppend(params[nparam], c as nat - '0' as nat)];
          haveDigit := true;
        } else if c == ';' {
          if nparam + 1 < |params| {
            nparam := nparam + 1;
          }
        } else {
          var count := if haveDigit || nparam > 0 then nparam + 1 else 0;
          ParsedValues(params, nparam, haveDigit, said);
          CsiDispatch(c, count);
          esc := Plain;
        }
      case Plain =>
        if c == ESCAPE {
          esc := EscapeSeen;
        } else {
          Put(c);
        }
    }

    /** Nothing a reader of the grid can see has changed. */
    twostate predicate Untouched()
      reads this, cells
    {
      cells[..] == old(cells[..]) && scroll == old(scroll) && cx == old(cx) && cy == old(cy) && pen == old(pen)
    }

    /** What a control sequence with the given parameters does. */
    twostate predicate Obeyed(final: char, values: seq<nat>)
      requires old(Valid()) && Valid()
      reads this, cells
    {
      && scroll == old(scroll)
      && (final == 'm' ==>
            && cells[..] == old(cells[..]) && cx == old(cx) && cy == old(cy)
            && pen == Coloured(old(pen), if values == [] then [0] else values))
      && (final != 'm' ==> pen == old(pen))
      && (final == 'H' || final == 'f' ==>
            && cells[..] == old(cells[..])
            && cy + 1 == Lesser(Greater(if |values| > 0 then values[0] else 1, 1), ROWS)
            && cx + 1 == Lesser(Greater(if |values| > 1 then values[1] else 1, 1), COLS))
      && (final == 'J' && |values| > 0 && values[0] in [2, 3] ==>
         cells[..] == seq(ROWS, _ => BLANK_ROW) && cx == 0 && cy == 0)
      && (final == 'J' && !(|values| > 0 && values[0] in [2, 3]) ==>
            && cx == old(cx) && cy == old(cy)
            && cells[..] == old(cells[..cy]) + [ErasedFrom(old(cells[cy]), cx)] + seq(ROWS - cy - 1, _ => BLANK_ROW))
      && (final == 'K' ==>
            && cx == old(cx) && cy == old(cy)
            && cells[..] == old(cells[..])[cy := ErasedFrom(old(cells[cy]), cx)])
      && (final !in ['m', 'H', 'f', 'J', 'K'] ==> cells[..] == old(cells[..]) && cx == old(cx) && cy == old(cy))
    }

    /** A completed control sequence with `count` parameters. */
    method CsiDispatch(final: char, count: nat)
      requires Valid() && count <= nparam + 1
      modifies this`cx, this`cy, this`pen, cells
      ensures Valid() && Obeyed(final, params[..count])
    {
      hide Parsed, Coloured, ErasedFrom;
      if final == 'm' {
        ColouredBasics(pen);
        if count == 0 {
          pen := DEFAULT_FG;
        } else {
          for i := 0 to count
            invariant Valid() && cells[..] == old(cells[..])
            invariant pen == Coloured(old(pen), params[..i])
            modifies this`pen
          {
            ColouredOnce(old(pen), params[..i], params[i]);
            assert params[..i + 1] == params[..i] + [params[i]];
            Sgr(params[i]);
          }
        }
      } else if final == 'H' || final == 'f' {
        var row := if count > 0 && params[0] > 0 then params[0] else 1;
        var col := if count > 1 && params[1] > 0 then params[1] else 1;
        cy := if row - 1 < ROWS - 1 then row - 1 else ROWS - 1;
        cx := if col - 1 < COLS - 1 then col - 1 else COLS - 1;
      } else if final == 'J' {
        var mode := if count > 0 then params[0] else 0;
        if mode == 2 || mode == 3 {
          ClearGrid();
        } else {
          EraseBelow();
        }
      } else if final == 'K' {
        EraseToEol();
      }
    }

    method Sgr(code: nat)
      modifies this`pen
      ensures pen == Coloured(old(pen), [code])
    {
      if code == 0 || code == 39 {
        pen := DEFAULT_FG;
      } else if 30 <= code <= 37 {
        pen := ANSI[code - 30];
      } else if 90 <= code <= 97 {
        pen := ANSI_BRIGHT[code - 90];
      }
    }

    method EraseToEol()
      requires Valid()
      modifies cells
      ensures cells[..] == old(cells[..])[cy := ErasedFrom(old(cells[cy]), cx)]
    {
      for c := cx to COLS
        invariant forall k :: 0 <= k < COLS ==> cells[cy][k] == if cx <= k < c then BLANK else old(cells[cy])[k]
        invariant forall r :: 0 <= r < ROWS && r != cy ==> cells[r] == old(cells[r])
      {
        cells[cy] := cells[cy][c := BLANK];
      }
      assert cells[cy] == ErasedFrom(old(cells[cy]), cx);
    }

    /** The rest of the row, and every row below. */
    method EraseBelow()
      requires Valid()
      modifies cells
      ensures cells[..] == old(cells[..cy]) + [ErasedFrom(old(cells[cy]), cx)] + seq(ROWS - cy - 1, _ => BLANK_ROW)
    {
      hide Parsed;
      EraseToEol();
      ghost var top := cells[..cy + 1];
      for r := cy + 1 to ROWS
        invariant cells[..cy + 1] == top && forall q :: cy < q < r ==> cells[q] == BLANK_ROW
      {
        cells[r] := BLANK_ROW;
      }
      assert top == old(cells[..cy]) + [ErasedFrom(old(cells[cy]), cx)];
      assert cells[..] == cells[..cy + 1] + cells[cy + 1..];
      assert cells[cy + 1..] == seq(ROWS - cy - 1, _ => BLANK_ROW);
    }

    method ClearGrid()
      requires Valid()
      modifies this`cx, this`cy, cells
      ensures Valid() && cx == 0 && cy == 0 && cells[..] == seq(ROWS, _ => BLANK_ROW)
    {
      forall r | 0 <= r < ROWS {
        cells[r] := BLANK_ROW;
      }
      cx, cy := 0, 0;
    }

    /** A whole control sequence, character by character. */
    method ControlSequence(text: string, final: char)
      requires Valid() && esc == Plain && !InParameter(final)
      requires forall i :: 0 <= i < |text| ==> InParameter(text[i])
      modifies this, cells
      ensures Valid() && esc == Plain && Obeyed(final, Values(text))
    {
      hide Parsed, Values;
      Feed(ESCAPE);
      Feed('[');
      for i := 0 to |text|
        invariant Valid() && esc == Csi && said == text[..i] && Untouched()
      {
        assert text[..i + 1] == text[..i] + [text[i]];
        Feed(text[i]);
      }
      assert text[..|text|] == text;
      Feed(final);
    }
  }

  function ErasedFrom(row: Row, x: nat): Row
    requires x <= COLS
  {
    row[..x] + seq(COLS - x, _ => BLANK)
  }

  lemma Rolled(scroll: seq<Row>, grid: seq<Row>)
    requires |grid| == ROWS
    ensures var full := |scroll| >= SCROLLBACK_MAX;
            var scroll' := (if full then scroll[1..] else scroll) + [grid[0]];
            scroll' + (grid[1..] + [BLANK_ROW]) == (if full then (scroll + grid)[1..] else scroll + grid) + [BLANK_ROW]
  {
    assert grid == [grid[0]] + grid[1..];
  }
}
