/** The line editor as a value: what each input character does to the line, the cursor and the history. */
module EditorSpec {
  import opened Terminal

  const PROMPT := "> "

  datatype Config = Config(lineLen: nat, historyLength: nat, delimiters: string)

  /** `history` is newest first; `current` is 0 for a fresh line, else one past a history index; `entered` are the lines given to the command callback. */
  datatype Editor = Editor(
    line: string, cursor: nat, current: nat, history: seq<string>, inEsc: bool, lastEsc: char, entered: seq<string>)

  function Start(): Editor {
    Editor("", 0, 0, [], false, ' ', [])
  }

  // ---------- Keys ----------

  function InsertedAt(line: string, at: nat, c: char): string
    requires at <= |line|
  {
    line[..at] + [c] + line[at..]
  }

  function DeletedAt(line: string, at: nat): string
    requires at < |line|
  {
    line[..at] + line[at + 1..]
  }

  function Loaded(e: Editor, n: nat): Editor {
    var line := if 0 < n <= |e.history| then e.history[n - 1] else "";
    e.(line := line, cursor := |line|, current := n)
  }

  function Up(e: Editor): Editor {
    if e.current < |e.history| then Loaded(e, e.current + 1) else e
  }

  function Down(e: Editor): Editor {
    if e.current > 0 then Loaded(e, e.current - 1) else e
  }

  function Left(e: Editor): Editor {
    if e.cursor > 0 then e.(cursor := e.cursor - 1) else e
  }

  function Right(e: Editor): Editor {
    if e.cursor < |e.line| then e.(cursor := e.cursor + 1) else e
  }

  function Home(e: Editor): Editor {
    e.(cursor := 0)
  }

  function End(e: Editor): Editor {
    e.(cursor := |e.line|)
  }

  function Delete(e: Editor): Editor {
    if e.cursor < |e.line| then e.(line := DeletedAt(e.line, e.cursor), current := 0) else e
  }

  function Backspace(e: Editor): Editor {
    if 0 < e.cursor <= |e.line| then
      e.(line := DeletedAt(e.line, e.cursor - 1), cursor := e.cursor - 1, current := 0)
    else e
  }

  function Insert(cfg: Config, e: Editor, c: char): Editor {
    if |e.line| + 1 < cfg.lineLen && e.cursor <= |e.line| then
      e.(line := InsertedAt(e.line, e.cursor, c), cursor := e.cursor + 1, current := 0)
    else e
  }

  /** The history after one more line: newest first, and no more than the ring holds. */
  function Remembered(history: seq<string>, line: string, capacity: nat): seq<string> {
    var all := [line] + history;
    if |all| <= capacity then all else all[..capacity]
  }

  /** How many leading characters of the line are delimiters. */
  function DelimiterSpan(line: string, delimiters: string): (n: nat)
    ensures n <= |line|
  {
    if line == "" || line[0] !in delimiters then 0 else 1 + DelimiterSpan(line[1..], delimiters)
  }

  /** A line with something besides delimiters is remembered and given to the callback; an empty one only moves to a new row. */
  function Enter(cfg: Config, e: Editor): Editor {
    if e.line == "" then e.(cursor := 0)
    else if |e.line| > DelimiterSpan(e.line, cfg.delimiters) then
      e.(line := "", cursor := 0, current := 0, history := Remembered(e.history, e.line, cfg.historyLength),
         entered := e.entered + [e.line])
    else e.(line := "", cursor := 0, current := 0)
  }

  /** The older newline rule, kept in the source but not installed: an empty line repeats the newest history line. */
  function EnterRepeating(cfg: Config, e: Editor): Editor {
    if e.line != "" then Enter(cfg, e)
    else e.(cursor := 0, current := 0, entered := if e.history == [] then e.entered else e.entered + [e.history[0]])
  }

  predicate ContinuesEscape(c: char) {
    c in {';', '[', 'O'} || '0' <= c <= '9'
  }

  datatype Key = UpKey | DownKey | LeftKey | RightKey | HomeKey | EndKey | DeleteKey | BackspaceKey | EnterKey | CharKey(c: char) | NoKey

  function Pressed(cfg: Config, e: Editor, k: Key): Editor {
    match k
    case UpKey => Up(e)
    case DownKey => Down(e)
    case LeftKey => Left(e)
    case RightKey => Right(e)
    case HomeKey => Home(e)
    case EndKey => End(e)
    case DeleteKey => Delete(e)
    case BackspaceKey => Backspace(e)
    case EnterKey => Enter(cfg, e)
    case CharKey(c) => Insert(cfg, e, c)
    case NoKey => e
  }

  /** The key that an escape sequence ends with, given the character before the last. */
  function EscapeKey(c: char, last: char): Key {
    if c == 'A' then UpKey
    else if c == 'B' then DownKey
    else if c == 'C' then RightKey
    else if c == 'D' then LeftKey
    else if c == 'F' || (c == '~' && last == '4') then EndKey
    else if c == 'H' || (c == '~' && last == '1') then HomeKey
    else if c == '~' && last == '3' then DeleteKey
    else NoKey
  }

  const CTRL_A := 1 as char
  const CTRL_B := 2 as char
  const CTRL_D := 4 as char
  const CTRL_E := 5 as char
  const CTRL_F := 6 as char
  const CTRL_N := 14 as char
  const CTRL_P := 16 as char
  const ESC := 27 as char
  const RUBOUT := 127 as char

  function PlainKey(c: char): Key {
    if c == '\r' then EnterKey
    else if c == BACKSPACE || c == RUBOUT then BackspaceKey
    else if c == CTRL_P then UpKey
    else if c == CTRL_N then DownKey
    else if c == CTRL_B then LeftKey
    else if c == CTRL_F then RightKey
    else if c == CTRL_A then HomeKey
    else if c == CTRL_E then EndKey
    else if c == CTRL_D then DeleteKey
    else if Printable(c) then CharKey(c)
    else NoKey
  }

  function Typed(cfg: Config, e: Editor, c: char): Editor {
    if e.inEsc then Pressed(cfg, e, EscapeKey(c, e.lastEsc)).(inEsc := ContinuesEscape(c), lastEsc := c)
    else Pressed(cfg, e, PlainKey(c)).(inEsc := c == ESC)
  }

  function TypedAll(cfg: Config, input: string): Editor {
    if input == "" then Start()
    else Typed(cfg, TypedAll(cfg, input[..|input| - 1]), input[|input| - 1])
  }

  // ---------- What keys undo ----------

  function PressedAll(cfg: Config, e: Editor, keys: seq<Key>): Editor
    decreases |keys|
  {
    if keys == [] then e else PressedAll(cfg, Pressed(cfg, e, keys[0]), keys[1..])
  }

  function Repeated(k: Key, n: nat): (keys: seq<Key>)
    ensures |keys| == n
  {
    if n == 0 then [] else [k] + Repeated(k, n - 1)
  }

  function CharKeys(text: string): (keys: seq<Key>)
    ensures |keys| == |text|
  {
    if text == "" then [] else [CharKey(text[0])] + CharKeys(text[1..])
  }

  /** The `before` characters before the cursor and the `after` characters under it are gone. */
  function Erased(e: Editor, before: nat, after: nat): Editor
    requires before <= e.cursor && e.cursor + after <= |e.line|
  {
    e.(line := e.line[..e.cursor - before] + e.line[e.cursor + after..], cursor := e.cursor - before,
       current := if before + after == 0 then e.current else 0)
  }

  lemma {:induction false} PressedInTurn(cfg: Config, e: Editor, first: seq<Key>, second: seq<Key>)
    decreases |first|
    ensures PressedAll(cfg, e, first + second) == PressedAll(cfg, PressedAll(cfg, e, first), second)
  {
    if first == [] {
      assert first + second == second;
    } else {
      assert (first + second)[1..] == first[1..] + second;
      PressedInTurn(cfg, Pressed(cfg, e, first[0]), first[1..], second);
    }
  }

  /** Keys typed with room for them put the text in at the cursor. */
  lemma {:induction false} TypingInserts(cfg: Config, e: Editor, text: string)
    requires e.cursor <= |e.line| && |e.line| + |text| < cfg.lineLen
    decreases |text|
    ensures PressedAll(cfg, e, CharKeys(text))
      == e.(line := e.line[..e.cursor] + text + e.line[e.cursor..], cursor := e.cursor + |text|,
            current := if text == "" then e.current else 0)
  {
    if text == "" {
      assert e.line[..e.cursor] + text + e.line[e.cursor..] == e.line;
    } else {
      var next := Insert(cfg, e, text[0]);
      TypingInserts(cfg, next, text[1..]);
      assert next.line[..next.cursor] == e.line[..e.cursor] + [text[0]];
      assert next.line[next.cursor..] == e.line[e.cursor..];
      assert e.line[..e.cursor] + [text[0]] + text[1..] + e.line[e.cursor..] == e.line[..e.cursor] + text + e.line[e.cursor..];
    }
  }

  lemma OneThenOthers(cfg: Config, e: Editor, k: Key, n: nat)
    requires n > 0
    ensures PressedAll(cfg, e, Repeated(k, n)) == PressedAll(cfg, Pressed(cfg, e, k), Repeated(k, n - 1))
  {
    hide Pressed;
    assert Repeated(k, n)[1..] == Repeated(k, n - 1);
  }

  lemma NothingErased(cfg: Config, e: Editor, k: Key)
    requires e.cursor <= |e.line|
    ensures PressedAll(cfg, e, Repeated(k, 0)) == e == Erased(e, 0, 0)
  {
    assert e.line[..e.cursor] + e.line[e.cursor..] == e.line;
  }

  lemma BackspaceThenErase(cfg: Config, e: Editor, n: nat)
    requires 0 < n <= e.cursor <= |e.line|
    ensures var t := Pressed(cfg, e, BackspaceKey);
      n - 1 <= t.cursor <= |t.line| && Erased(t, n - 1, 0) == Erased(e, n, 0)
  {
    var t := DeletedAt(e.line, e.cursor - 1);
    assert t[..e.cursor - n] + t[e.cursor - 1..] == e.line[..e.cursor - n] + e.line[e.cursor..];
  }

  lemma {:induction false} BackspacesErase(cfg: Config, e: Editor, n: nat)
    requires n <= e.cursor <= |e.line|
    decreases n
    ensures PressedAll(cfg, e, Repeated(BackspaceKey, n)) == Erased(e, n, 0)
  {
    hide *;
    if n == 0 {
      NothingErased(cfg, e, BackspaceKey);
    } else {
      OneThenOthers(cfg, e, BackspaceKey, n);
      BackspaceThenErase(cfg, e, n);
      BackspacesErase(cfg, Pressed(cfg, e, BackspaceKey), n - 1);
    }
  }

  lemma DeleteThenErase(cfg: Config, e: Editor, n: nat)
    requires 0 < n && e.cursor + n <= |e.line|
    ensures var t := Pressed(cfg, e, DeleteKey);
      t.cursor + (n - 1) <= |t.line| && Erased(t, 0, n - 1) == Erased(e, 0, n)
  {
    var t := DeletedAt(e.line, e.cursor);
    assert t[..e.cursor] + t[e.cursor + n - 1..] == e.line[..e.cursor] + e.line[e.cursor + n..];
  }

  lemma {:induction false} DeletesErase(cfg: Config, e: Editor, n: nat)
    requires e.cursor + n <= |e.line|
    decreases n
    ensures PressedAll(cfg, e, Repeated(DeleteKey, n)) == Erased(e, 0, n)
  {
    hide *;
    if n == 0 {
      NothingErased(cfg, e, DeleteKey);
    } else {
      OneThenOthers(cfg, e, DeleteKey, n);
      DeleteThenErase(cfg, e, n);
      DeletesErase(cfg, Pressed(cfg, e, DeleteKey), n - 1);
    }
  }

  lemma {:induction false} LeftsMove(cfg: Config, e: Editor, n: nat)
    requires n <= e.cursor
    decreases n
    ensures PressedAll(cfg, e, Repeated(LeftKey, n)) == e.(cursor := e.cursor - n)
  {
    if n > 0 {
      LeftsMove(cfg, Left(e), n - 1);
    }
  }

  lemma {:induction false} RightsMove(cfg: Config, e: Editor, n: nat)
    requires e.cursor + n <= |e.line|
    decreases n
    ensures PressedAll(cfg, e, Repeated(RightKey, n)) == e.(cursor := e.cursor + n)
  {
    if n > 0 {
      RightsMove(cfg, Right(e), n - 1);
    }
  }

  /** As many Rights take back any number of Lefts, and the other way round. */
  lemma LeftsAndRightsUndo(cfg: Config, e: Editor, n: nat)
    ensures n <= e.cursor <= |e.line| ==> PressedAll(cfg, e, Repeated(LeftKey, n) + Repeated(RightKey, n)) == e
    ensures e.cursor + n <= |e.line| ==> PressedAll(cfg, e, Repeated(RightKey, n) + Repeated(LeftKey, n)) == e
  {
    PressedInTurn(cfg, e, Repeated(LeftKey, n), Repeated(RightKey, n));
    PressedInTurn(cfg, e, Repeated(RightKey, n), Repeated(LeftKey, n));
    if n <= e.cursor <= |e.line| {
      LeftsMove(cfg, e, n);
      RightsMove(cfg, e.(cursor := e.cursor - n), n);
    }
    if e.cursor + n <= |e.line| {
      RightsMove(cfg, e, n);
      LeftsMove(cfg, e.(cursor := e.cursor + n), n);
    }
  }

  /** Home is as many Lefts as there are characters before the cursor, End as many Rights as there are behind it. */
  lemma HomeAndEndAreSteps(cfg: Config, e: Editor)
    requires e.cursor <= |e.line|
    ensures Pressed(cfg, e, HomeKey) == PressedAll(cfg, e, Repeated(LeftKey, e.cursor)) && Pressed(cfg, e, HomeKey).cursor == 0
    ensures Pressed(cfg, e, EndKey) == PressedAll(cfg, e, Repeated(RightKey, |e.line| - e.cursor))
    ensures Pressed(cfg, e, EndKey).cursor == |e.line|
  {
    LeftsMove(cfg, e, e.cursor);
    RightsMove(cfg, e, |e.line| - e.cursor);
  }

  /** As many Backspaces as characters typed take the whole text out again, anywhere in the line. */
  lemma BackspacesUndoTyping(cfg: Config, e: Editor, text: string)
    requires e.cursor <= |e.line| && |e.line| + |text| < cfg.lineLen
    ensures PressedAll(cfg, e, CharKeys(text) + Repeated(BackspaceKey, |text|))
      == e.(current := if text == "" then e.current else 0)
  {
    PressedInTurn(cfg, e, CharKeys(text), Repeated(BackspaceKey, |text|));
    TypingInserts(cfg, e, text);
    var typed := PressedAll(cfg, e, CharKeys(text));
    ErasesText(e.line, e.cursor, text);
    var erased := Erased(typed, |text|, 0);
    assert erased == e.(current := if text == "" then e.current else 0);
    hide *;
    BackspacesErase(cfg, typed, |text|);
  }

  lemma ErasesText(line: string, at: nat, text: string)
    requires at <= |line|
    ensures var typed := line[..at] + text + line[at..]; typed[..at] + typed[at + |text|..] == line
  {
  }

  /** Any number of steps to the left and then as many Deletes is as many Backspaces. */
  lemma LeftsThenDeletesAreBackspaces(cfg: Config, e: Editor, n: nat)
    requires n <= e.cursor <= |e.line|
    ensures PressedAll(cfg, e, Repeated(LeftKey, n) + Repeated(DeleteKey, n)) == PressedAll(cfg, e, Repeated(BackspaceKey, n))
  {
    PressedInTurn(cfg, e, Repeated(LeftKey, n), Repeated(DeleteKey, n));
    LeftsMove(cfg, e, n);
    DeletesErase(cfg, e.(cursor := e.cursor - n), n);
    BackspacesErase(cfg, e, n);
  }

  lemma {:induction false} UpsLoad(cfg: Config, e: Editor, n: nat)
    requires 0 < n && e.current + n <= |e.history|
    decreases n
    ensures PressedAll(cfg, e, Repeated(UpKey, n)) == Loaded(e, e.current + n)
  {
    if n > 1 {
      UpsLoad(cfg, Up(e), n - 1);
    } else {
      assert Repeated(UpKey, 1) == [UpKey];
    }
  }

  lemma {:induction false} DownsLoad(cfg: Config, e: Editor, n: nat)
    requires 0 < n <= e.current
    decreases n
    ensures PressedAll(cfg, e, Repeated(DownKey, n)) == Loaded(e, e.current - n)
  {
    if n > 1 {
      DownsLoad(cfg, Down(e), n - 1);
    } else {
      assert Repeated(DownKey, 1) == [DownKey];
    }
  }

  /** Up n times and Down n times leads back to the history line, with the cursor at its end; a line still being typed is lost. */
  lemma DownsUndoUps(cfg: Config, e: Editor, n: nat)
    requires Sound(cfg, e) && 0 < n && e.current + n <= |e.history|
    ensures PressedAll(cfg, e, Repeated(UpKey, n) + Repeated(DownKey, n))
      == if e.current > 0 then End(e) else e.(line := "", cursor := 0)
  {
    PressedInTurn(cfg, e, Repeated(UpKey, n), Repeated(DownKey, n));
    UpsLoad(cfg, e, n);
    DownsLoad(cfg, Loaded(e, e.current + n), n);
  }

  // ---------- Every run ----------

  ghost predicate IsLine(cfg: Config, s: string) {
    AllPrintable(s) && |s| < cfg.lineLen
  }

  /** The line fits, is printable and holds the cursor; a current history line is shown unedited, and no history line is empty. */
  ghost predicate Sound(cfg: Config, e: Editor) {
    && IsLine(cfg, e.line) && e.cursor <= |e.line|
    && |e.history| <= cfg.historyLength
    && (forall i :: 0 <= i < |e.history| ==> IsLine(cfg, e.history[i]) && e.history[i] != "")
    && e.current <= |e.history|
    && (e.current > 0 ==> e.line == e.history[e.current - 1])
  }

  lemma EditKeepsLine(cfg: Config, line: string, at: nat, c: char)
    requires IsLine(cfg, line)
    ensures at < |line| ==> IsLine(cfg, DeletedAt(line, at))
    ensures at <= |line| && |line| + 1 < cfg.lineLen && Printable(c) ==> IsLine(cfg, InsertedAt(line, at, c))
  {
  }

  lemma EmptyIsLine(cfg: Config)
    requires cfg.lineLen >= 1
    ensures IsLine(cfg, "")
  {
  }

  lemma PressedKeepsSound(cfg: Config, e: Editor, k: Key)
    requires cfg.lineLen >= 1 && Sound(cfg, e) && (k.CharKey? ==> Printable(k.c))
    ensures Sound(cfg, Pressed(cfg, e, k))
  {
    EmptyIsLine(cfg);
    EditKeepsLine(cfg, e.line, e.cursor, if k.CharKey? then k.c else ' ');
    if e.cursor > 0 {
      EditKeepsLine(cfg, e.line, e.cursor - 1, ' ');
    }
    hide IsLine;
  }

  lemma TypedKeepsSound(cfg: Config, e: Editor, c: char)
    requires cfg.lineLen >= 1 && Sound(cfg, e)
    ensures Sound(cfg, Typed(cfg, e, c))
  {
    PressedKeepsSound(cfg, e, if e.inEsc then EscapeKey(c, e.lastEsc) else PlainKey(c));
    hide Pressed;
    hide IsLine;
  }

  lemma {:induction false} EveryInputIsSound(cfg: Config, input: string)
    requires cfg.lineLen >= 1
    ensures Sound(cfg, TypedAll(cfg, input))
  {
    if input != "" {
      EveryInputIsSound(cfg, input[..|input| - 1]);
      TypedKeepsSound(cfg, TypedAll(cfg, input[..|input| - 1]), input[|input| - 1]);
    }
  }

  /** An empty line is never a history line, although an empty newline does not reset `current`. */
  lemma EmptyLineIsFresh(cfg: Config, input: string)
    requires cfg.lineLen >= 1
    ensures TypedAll(cfg, input).line == "" ==> TypedAll(cfg, input).current == 0
  {
    EveryInputIsSound(cfg, input);
  }

  ghost predicate LastEntered(capacity: nat, history: seq<string>, entered: seq<string>) {
    && |history| == (if |entered| < capacity then |entered| else capacity)
    && forall i :: 0 <= i < |history| ==> history[i] == entered[|entered| - 1 - i]
  }

  lemma RemembersLast(capacity: nat, history: seq<string>, entered: seq<string>, line: string)
    requires LastEntered(capacity, history, entered)
    ensures LastEntered(capacity, Remembered(history, line, capacity), entered + [line])
  {
  }

  lemma PressedKeepsLastEntered(cfg: Config, e: Editor, k: Key)
    requires LastEntered(cfg.historyLength, e.history, e.entered)
    ensures LastEntered(cfg.historyLength, Pressed(cfg, e, k).history, Pressed(cfg, e, k).entered)
  {
    RemembersLast(cfg.historyLength, e.history, e.entered, e.line);
    hide Remembered;
    hide LastEntered;
  }

  /** After every input the history is the last `historyLength` entered lines, newest first. */
  lemma {:induction false} HistoryIsLastEntered(cfg: Config, input: string)
    ensures LastEntered(cfg.historyLength, TypedAll(cfg, input).history, TypedAll(cfg, input).entered)
  {
    hide LastEntered;
    if input == "" {
      assert LastEntered(cfg.historyLength, [], []) by {
        NothingEntered(cfg.historyLength);
      }
    } else {
      var e := TypedAll(cfg, input[..|input| - 1]);
      var c := input[|input| - 1];
      HistoryIsLastEntered(cfg, input[..|input| - 1]);
      PressedKeepsLastEntered(cfg, e, if e.inEsc then EscapeKey(c, e.lastEsc) else PlainKey(c));
      hide Pressed;
    }
  }

  lemma NothingEntered(capacity: nat)
    ensures LastEntered(capacity, [], [])
  {
  }
}
