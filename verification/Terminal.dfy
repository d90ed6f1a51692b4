/** One terminal row of unbounded width, as the console's output drives it. */
module Terminal {

  const BELL := 7 as char
  const BACKSPACE := 8 as char

  /** The cells written so far, all further ones being blank, and the column of the cursor. */
  datatype Row = Row(cells: string, column: nat)

  const FRESH := Row("", 0)

  predicate Printable(c: char) {
    31 as char < c < 127 as char
  }

  predicate AllPrintable(s: string) {
    forall i :: 0 <= i < |s| ==> Printable(s[i])
  }

  function Blanks(n: nat): (s: string)
    ensures |s| == n && forall i :: 0 <= i < n ==> s[i] == ' '
  {
    seq(n, _ => ' ')
  }

  /** A printable character overwrites and advances; a line feed starts a blank row; the bell does nothing. */
  function Put(r: Row, c: char): Row {
    if c == '\r' then r.(column := 0)
    else if c == '\n' then r.(cells := "")
    else if c == BACKSPACE then r.(column := if r.column > 0 then r.column - 1 else 0)
    else if Printable(c) then
      var cells := if r.column <= |r.cells| then r.cells else r.cells + Blanks(r.column - |r.cells|);
      Row(cells[..r.column] + [c] + (if r.column < |cells| then cells[r.column + 1..] else ""), r.column + 1)
    else r
  }

  function PutAll(r: Row, s: string): Row
    decreases |s|
  {
    if s == "" then r else PutAll(Put(r, s[0]), s[1..])
  }

  /**
   `text` stands at the start of the row and the cursor is at `column`.  Past the text all is blank,
   except perhaps between `from` and `to`, where something older may be left.
   */
  ghost predicate ShowsBut(r: Row, text: string, column: nat, from: nat, to: nat) {
    && |text| <= |r.cells| && r.cells[..|text|] == text
    && (forall i :: |text| <= i < |r.cells| && !(from <= i < to) ==> r.cells[i] == ' ')
    && r.column == column
  }

  /** `text` stands at the start of the row with only blanks after it, and the cursor is at `column`. */
  ghost predicate Shows(r: Row, text: string, column: nat) {
    ShowsBut(r, text, column, 0, 0)
  }

  /** The cells with `s` written over them from `at` on. */
  function Overwritten(cells: string, at: nat, s: string): (r: string)
    requires at <= |cells|
    ensures |r| >= at + |s|
  {
    cells[..at] + s + if at + |s| <= |cells| then cells[at + |s|..] else ""
  }

  lemma OverwrittenOneByOne(cells: string, at: nat, c: char, rest: string)
    requires at <= |cells|
    ensures Overwritten(Overwritten(cells, at, [c]), at + 1, rest) == Overwritten(cells, at, [c] + rest)
  {
    var one := Overwritten(cells, at, [c]);
    assert one[..at + 1] == cells[..at] + [c];
    if at + 1 + |rest| <= |cells| {
      assert one[at + 1 + |rest|..] == cells[at + 1 + |rest|..];
    }
  }

  /** Printing text from the cursor on overwrites what was there and leaves the cursor behind it. */
  lemma {:induction false} PrintsOver(r: Row, s: string)
    requires AllPrintable(s) && r.column <= |r.cells|
    ensures PutAll(r, s) == Row(Overwritten(r.cells, r.column, s), r.column + |s|)
    decreases |s|
  {
    if s == "" {
      assert Overwritten(r.cells, r.column, s) == r.cells;
    } else {
      var t := Put(r, s[0]);
      assert t == Row(Overwritten(r.cells, r.column, [s[0]]), r.column + 1);
      hide Put;
      hide Overwritten;
      PrintsOver(t, s[1..]);
      OverwrittenOneByOne(r.cells, r.column, s[0], s[1..]);
      assert [s[0]] + s[1..] == s;
    }
  }

  /** Printing a new tail over a shown text shows the new text, but for what is left of a longer old one. */
  lemma PrintsTail(r: Row, was: string, at: nat, tail: string)
    requires Shows(r, was, at) && at <= |was| && AllPrintable(tail)
    ensures ShowsBut(PutAll(r, tail), was[..at] + tail, at + |tail|, at + |tail|, |was|)
  {
    PrintsOver(r, tail);
    assert r.cells[..at] == was[..at];
  }

  /** One blank wipes one left-over cell. */
  lemma WipesOne(r: Row, text: string, column: nat, to: nat)
    requires ShowsBut(r, text, column, column, to) && |text| <= column <= |r.cells|
    ensures ShowsBut(Put(r, ' '), text, column + 1, column + 1, to) && column + 1 <= |Put(r, ' ').cells|
  {
  }

  /** Printing what the row already shows only moves the cursor. */
  lemma Reprints(r: Row, text: string, at: nat, to: nat)
    requires Shows(r, text, at) && at <= to <= |text| && AllPrintable(text)
    ensures PutAll(r, text[at..to]) == r.(column := to)
  {
    PrintsOver(r, text[at..to]);
    hide PutAll;
    OverwritesWithItself(r.cells, text, at, to);
  }

  lemma OverwritesWithItself(cells: string, text: string, at: nat, to: nat)
    requires at <= to <= |text| <= |cells| && cells[..|text|] == text
    ensures Overwritten(cells, at, text[at..to]) == cells
  {
    assert text[at..to] == cells[at..to];
  }

  lemma {:induction false} PutAllAppends(r: Row, s: string, t: string)
    ensures PutAll(r, s + t) == PutAll(PutAll(r, s), t)
    decreases |s|
  {
    if s == "" {
      assert s + t == t;
    } else {
      PutAllAppends(Put(r, s[0]), s[1..], t);
      assert (s + t)[1..] == s[1..] + t;
    }
  }

  /** A row that shows a text is what printing that text on a fresh row gives, up to blanks at the end. */
  lemma ShownIsRedrawn(r: Row, text: string, column: nat)
    requires Shows(r, text, column) && AllPrintable(text)
    ensures var full := PutAll(FRESH, text);
      full.cells == text && r.cells == full.cells + Blanks(|r.cells| - |text|) && r.column == column
  {
    PrintsOver(FRESH, text);
  }
}
