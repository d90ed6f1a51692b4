/** The console of js_console.c: in-place line editing with incremental output to a terminal row. */
module Console {
  import opened Terminal
  import opened EditorSpec
  import opened History

  class Console {
    const cfg: Config
    const buffer: array<char>
    const history: History
    var cursorPosition: nat
    var currentLine: nat
    var inEscSeq: bool
    var escSeqLastChar: char
    var screen: Row            // the terminal row that the output has produced
    var entered: seq<string>   // lines given to the command callback
    ghost var line: string     // the line buffer up to its NUL

    ghost const Repr: set<object>

    /** The buffers are well formed; nothing is said about cursor, history position or screen. */
    ghost predicate Core()
      reads this, buffer, history, history.rows
    {
      && Repr == {this, buffer, history, history.rows}
      && buffer.Length == cfg.lineLen >= 1
      && history.lineLen == cfg.lineLen && history.capacity == cfg.historyLength
      && history.Valid() && Holds(buffer, line)
    }

    ghost function Abs(): Editor
      reads this, history
    {
      Editor(line, cursorPosition, currentLine, history.lines, inEscSeq, escSeqLastChar, entered)
    }

    /** The row is what a full redraw would show: prompt, line, blanks, and the cursor in its place. */
    ghost predicate Drawn()
      reads this
    {
      Shows(screen, PROMPT + line, |PROMPT| + cursorPosition)
    }

    ghost predicate Valid()
      reads this, buffer, history, history.rows
    {
      Core() && Sound(cfg, Abs()) && Drawn()
    }

    constructor (cfg: Config)
      requires cfg.lineLen >= 1
      ensures Valid() && this.cfg == cfg && Abs() == Start() && fresh(Repr)
      ensures Abs() == Editor("", 0, 0, [], false, ' ', []) && screen == Row("> ", 2)
    {
      this.cfg := cfg;
      var b := new char[cfg.lineLen];
      b[0] := NUL;
      var h := new History(cfg.lineLen, cfg.historyLength);
      buffer, history := b, h;
      line, entered := "", [];
      cursorPosition, currentLine, inEscSeq, escSeqLastChar := 0, 0, false, ' ';
      screen := FRESH;
      Repr := {this, b, h, h.rows};
      new;
      FreshPrompt();
      SendStr(PROMPT);
    }

    method SendChar(c: char)
      modifies this`screen
      ensures screen == Put(old(screen), c)
    {
      screen := Put(screen, c);
    }

    method SendStr(s: string)
      modifies this`screen
      ensures screen == PutAll(old(screen), s)
    {
      screen := PutAll(screen, s);
    }

    method StrLen() returns (len: nat)
      requires Holds(buffer, line)
      ensures len == |line|
    {
      forall k | 0 <= k < |line| ensures buffer[k] != NUL {
        assert buffer[k] == buffer[..|line|][k] == line[k] && Printable(line[k]);
      }
      len := 0;
      while buffer[len] != NUL
        invariant len <= |line|
        decreases |line| - len
      {
        len := len + 1;
      }
    }

    /** Sends the rest of the line from a position on. */
    method SendTail(from: nat)
      requires Holds(buffer, line) && from <= |line|
      modifies this`screen
      ensures screen == PutAll(old(screen), line[from..])
    {
      var len := StrLen();
      assert buffer[from..len] == line[from..];
      SendStr(buffer[from..len]);
    }

    /** One backspace for every position between `from` and `to`. */
    method SendBackspaces(from: nat, to: nat)
      requires to <= from && from - to <= screen.column
      modifies this`screen
      ensures screen == old(screen).(column := old(screen).column - (from - to))
    {
      var i := from;
      while i > to
        invariant to <= i <= from
        invariant screen == old(screen).(column := old(screen).column - (from - i))
      {
        SendChar(BACKSPACE);
        i := i - 1;
      }
    }

    /** The shift loop of insertion: everything from the cursor to the NUL moves out by one. */
    method OpenGap(len: nat)
      requires cursorPosition <= len && len + 1 < buffer.Length
      modifies buffer
      ensures forall k :: 0 <= k < cursorPosition ==> buffer[k] == old(buffer[k])
      ensures forall k :: cursorPosition < k <= len + 1 ==> buffer[k] == old(buffer[k - 1])
    {
      var i := len + 1;
      while i > cursorPosition
        invariant cursorPosition <= i <= len + 1
        invariant forall k :: 0 <= k <= i && k <= len ==> buffer[k] == old(buffer[k])
        invariant forall k :: i < k <= len + 1 ==> buffer[k] == old(buffer[k - 1])
      {
        buffer[i] := buffer[i - 1];
        i := i - 1;
      }
    }

    /** The shift loop of removal: everything behind the cursor, the NUL included, moves in by one. */
    method CloseGap(len: nat)
      requires cursorPosition <= len < buffer.Length
      modifies buffer
      ensures forall k :: 0 <= k < cursorPosition ==> buffer[k] == old(buffer[k])
      ensures forall k :: cursorPosition <= k < len ==> buffer[k] == old(buffer[k + 1])
    {
      var i := cursorPosition;
      while i < len
        invariant cursorPosition <= i <= len
        invariant forall k :: cursorPosition <= k < i ==> buffer[k] == old(buffer[k + 1])
        invariant forall k :: 0 <= k < cursorPosition || i <= k <= len ==> buffer[k] == old(buffer[k])
      {
        buffer[i] := buffer[i + 1];
        i := i + 1;
      }
    }

    /** Inserts the character at the cursor into the buffer. */
    method ShiftIn(c: char) returns (len: nat)
      requires Core() && cursorPosition <= |line| && |line| + 1 < cfg.lineLen && Printable(c)
      modifies this`line, buffer
      ensures Core() && line == InsertedAt(old(line), cursorPosition, c) && len == |line|
    {
      hide History.Valid;
      len := StrLen();
      assert forall k :: 0 <= k < |line| ==> buffer[k] == buffer[..|line|][k] == line[k];
      OpenGap(len);
      len := len + 1;
      buffer[cursorPosition] := c;
      EditKeepsLine(cfg, line, cursorPosition, c);
      line := InsertedAt(line, cursorPosition, c);
      assert forall k :: 0 <= k < |line| ==> buffer[k] == line[k];
    }

    /** Deletes the character at the cursor from the buffer. */
    method ShiftOut() returns (len: nat)
      requires Core() && cursorPosition < |line|
      modifies this`line, buffer
      ensures Core() && line == DeletedAt(old(line), cursorPosition) && len == |line|
    {
      hide History.Valid;
      len := StrLen();
      assert forall k :: 0 <= k < |line| ==> buffer[k] == buffer[..|line|][k] == line[k];
      CloseGap(len);
      len := len - 1;
      EditKeepsLine(cfg, line, cursorPosition, ' ');
      line := DeletedAt(line, cursorPosition);
      assert forall k :: 0 <= k < |line| ==> buffer[k] == line[k];
    }

    method InsertChar(c: char)
      requires Core() && Drawn() && cursorPosition <= |line| && |line| + 1 < cfg.lineLen && Printable(c)
      modifies this`screen, this`line, this`cursorPosition, buffer
      ensures Core() && Drawn()
      ensures line == InsertedAt(old(line), old(cursorPosition), c) && cursorPosition == old(cursorPosition) + 1
    {
      hide PutAll;
      hide AllPrintable;
      hide History.Valid;
      InsertRedraws(screen, line, cursorPosition, c);
      var len := ShiftIn(c);
      SendTail(cursorPosition);
      cursorPosition := cursorPosition + 1;
      SendBackspaces(len, cursorPosition);
    }

    method RemoveChar()
      requires Core() && Drawn() && cursorPosition < |line|
      modifies this`screen, this`line, buffer
      ensures Core() && Drawn()
      ensures line == DeletedAt(old(line), cursorPosition)
    {
      hide PutAll;
      hide AllPrintable;
      hide History.Valid;
      RemoveRedraws(screen, line, cursorPosition);
      var len := ShiftOut();
      SendTail(cursorPosition);
      SendChar(' ');
      SendChar(BACKSPACE);
      SendBackspaces(len, cursorPosition);
    }

    method LoadBuffer(newLine: nat)
      requires Core()
      modifies this`line, buffer
      ensures Core() && line == Loaded(old(Abs()), newLine).line
    {
      if newLine > 0 {
        history.LoadLine(newLine - 1, buffer);
      } else {
        buffer[0] := NUL;
      }
      line := if 0 < newLine <= |history.lines| then history.lines[newLine - 1] else "";
    }

    /** Replaces the line by a history line, or by an empty one, and redraws over the old line. */
    method LoadLine(newLine: nat)
      requires Core() && Drawn() && cursorPosition <= |line|
      modifies this`screen, this`line, this`cursorPosition, this`currentLine, buffer
      ensures Core() && Drawn() && Abs() == Loaded(old(Abs()), newLine)
    {
      hide History.Valid;
      hide PutAll;
      hide AllPrintable;
      ghost var was := line;
      var oldLen := StrLen();
      LoadBuffer(newLine);
      LoadRedraws(screen, was, cursorPosition, line);
      var newLen := StrLen();
      SendChar('\r');
      SendStr(PROMPT);
      assert line[0..] == line;
      SendTail(0);
      WipeRest(newLen, oldLen);
      SendBackspaces(if newLen < oldLen then oldLen else newLen, newLen);
      currentLine := newLine;
      cursorPosition := newLen;
    }

    /** One space for every column that the old line had and the new one does not. */
    method WipeRest(newLen: nat, oldLen: nat)
      requires newLen == |line| && |PROMPT| + newLen <= |screen.cells|
      requires ShowsBut(screen, PROMPT + line, |PROMPT| + newLen, |PROMPT| + newLen, |PROMPT| + oldLen)
      modifies this`screen
      ensures Shows(screen, PROMPT + line, |PROMPT| + if newLen < oldLen then oldLen else newLen)
    {
      var i := newLen;
      while i < oldLen
        invariant newLen <= i && (newLen < oldLen ==> i <= oldLen) && (newLen >= oldLen ==> i == newLen)
        invariant |PROMPT| + i <= |screen.cells|
        invariant ShowsBut(screen, PROMPT + line, |PROMPT| + i, |PROMPT| + i, |PROMPT| + oldLen)
      {
        WipesOne(screen, PROMPT + line, |PROMPT| + i, |PROMPT| + oldLen);
        SendChar(' ');
        i := i + 1;
      }
    }

    method DoHome()
      requires Valid()
      modifies this`screen, this`cursorPosition
      ensures Core() && Drawn() && Abs() == Home(old(Abs()))
    {
      hide History.Valid;
      Reprints(screen.(column := 0), PROMPT + line, 0, |PROMPT|);
      assert (PROMPT + line)[0..|PROMPT|] == PROMPT;
      cursorPosition := 0;
      SendChar('\r');
      SendStr(PROMPT);
    }

    method DoEnd()
      requires Valid()
      modifies this`screen, this`cursorPosition
      ensures Core() && Drawn() && Abs() == End(old(Abs()))
    {
      hide History.Valid;
      Reprints(screen, PROMPT + line, |PROMPT| + cursorPosition, |PROMPT + line|);
      assert (PROMPT + line)[|PROMPT| + cursorPosition..|PROMPT + line|] == line[cursorPosition..];
      SendTail(cursorPosition);
      cursorPosition := StrLen();
    }

    method DoUp()
      requires Valid()
      modifies this`screen, this`line, this`cursorPosition, this`currentLine, buffer
      ensures Core() && Drawn() && Abs() == Up(old(Abs()))
    {
      if currentLine < history.numLines {
        LoadLine(currentLine + 1);
      } else {
        SendChar(BELL);
      }
    }

    method DoDown()
      requires Valid()
      modifies this`screen, this`line, this`cursorPosition, this`currentLine, buffer
      ensures Core() && Drawn() && Abs() == Down(old(Abs()))
    {
      if currentLine > 0 {
        LoadLine(currentLine - 1);
      } else {
        SendChar(BELL);
      }
    }

    method DoLeft()
      requires Valid()
      modifies this`screen, this`cursorPosition
      ensures Core() && Drawn() && Abs() == Left(old(Abs()))
    {
      if cursorPosition > 0 {
        SendChar(BACKSPACE);
        cursorPosition := cursorPosition - 1;
      } else {
        SendChar(BELL);
      }
    }

    method DoRight()
      requires Valid()
      modifies this`screen, this`cursorPosition
      ensures Core() && Drawn() && Abs() == Right(old(Abs()))
    {
      hide History.Valid;
      var len := StrLen();
      if cursorPosition < len {
        var at := |PROMPT| + cursorPosition;
        Reprints(screen, PROMPT + line, at, at + 1);
        assert buffer[cursorPosition] == buffer[..|line|][cursorPosition] == line[cursorPosition];
        assert (PROMPT + line)[at..at + 1] == [line[cursorPosition]];
        SendChar(buffer[cursorPosition]);
        cursorPosition := cursorPosition + 1;
      } else {
        SendChar(BELL);
      }
    }

    method DoDelete()
      requires Valid()
      modifies this`screen, this`line, this`currentLine, buffer
      ensures Core() && Drawn() && Abs() == Delete(old(Abs()))
    {
      var len := StrLen();
      if cursorPosition < len {
        currentLine := 0;
        RemoveChar();
      } else {
        SendChar(BELL);
      }
    }

    method DoBackspace()
      requires Valid()
      modifies this`screen, this`line, this`cursorPosition, this`currentLine, buffer
      ensures Core() && Drawn() && Abs() == Backspace(old(Abs()))
    {
      if cursorPosition > 0 {
        currentLine := 0;
        cursorPosition := cursorPosition - 1;
        SendChar(BACKSPACE);
        RemoveChar();
      } else {
        SendChar(BELL);
      }
    }

    /** The command callback: it sees the line, may use the buffer as it likes, and leaves a fresh row. */
    method Invoke()
      requires Holds(buffer, line)
      modifies this`entered, this`screen, buffer
      ensures entered == old(entered) + [line] && screen == FRESH
    {
      var len := StrLen();
      entered := entered + [buffer[..len]];
      for i := 0 to buffer.Length
        invariant entered == old(entered) + [line] && line == old(line)
      {
        buffer[i] := *;
      }
      screen := FRESH;
    }

    /** The length of the line's leading run of delimiters. */
    method StrSpn() returns (n: nat)
      requires Holds(buffer, line)
      ensures n == DelimiterSpan(line, cfg.delimiters)
    {
      assert forall k :: 0 <= k < |line| ==> buffer[k] == buffer[..|line|][k] == line[k] == line[k..][0];
      n := 0;
      assert line[0..] == line;
      while buffer[n] != NUL && buffer[n] in cfg.delimiters
        invariant n <= |line| && DelimiterSpan(line, cfg.delimiters) == n + DelimiterSpan(line[n..], cfg.delimiters)
        decreases |line| - n
      {
        assert line[n..][1..] == line[n + 1..];
        n := n + 1;
      }
    }

    /** Stores and runs the line, or repeats the newest one for an empty line. */
    method RunLine()
      requires Core() && screen == FRESH
      modifies this`entered, this`screen, this`line, buffer, history, history.rows
      ensures history.Valid() && screen == FRESH
      ensures history.lines == EnterRepeating(cfg, old(Abs())).history
      ensures entered == EnterRepeating(cfg, old(Abs())).entered
    {
      var len := StrLen();
      if len > 0 {
        var span := StrSpn();
        if len > span {
          history.StoreLine(buffer, line);
          Invoke();
        }
      } else if history.numLines > 0 {
        history.LoadLine(0, buffer);
        line := history.lines[0];
        Invoke();
      }
    }

    method DoEnter()
      requires Valid()
      modifies Repr
      ensures Core() && Drawn() && Abs() == EnterRepeating(cfg, old(Abs()))
    {
      hide PutAll;
      hide History.Valid;
      NewlineIsFresh(screen);
      currentLine := 0;
      SendStr("\r\n");
      RunLine();
      buffer[0] := NUL;
      line := "";
      cursorPosition := 0;
      FreshPrompt();
      SendStr(PROMPT);
    }

    /** The newline handler that is installed: an empty line runs nothing. */
    method DoNewlineWithoutRepeat()
      requires Valid()
      modifies Repr
      ensures Core() && Drawn() && Abs() == Enter(cfg, old(Abs()))
    {
      hide History.Valid;
      var len := StrLen();
      if len != 0 {
        DoEnter();
      } else {
        buffer[0] := NUL;
        cursorPosition := 0;
        SendStr("\r\n");
        FreshPrompt();
        SendStr(PROMPT);
      }
    }

    method ProcessEscSeq(c: char) returns (still: bool)
      requires Valid()
      modifies this`screen, this`line, this`cursorPosition, this`currentLine, this`escSeqLastChar, buffer
      ensures Core() && Drawn() && still == ContinuesEscape(c)
      ensures Abs() == Pressed(cfg, old(Abs()), EscapeKey(c, old(escSeqLastChar))).(lastEsc := c)
    {
      hide Shows;
      hide ShowsBut;
      hide AllPrintable;
      hide History.Valid;
      hide Holds;
      hide Sound;
      hide Up;
      hide Down;
      hide Left;
      hide Right;
      hide Home;
      hide End;
      hide Delete;
      still := false;
      if c in {';', '[', 'O', '0', '1', '2', '3', '4', '5', '6', '7', '8', '9'} {
        still := true;
      } else if c == 'A' {
        DoUp();
      } else if c == 'B' {
        DoDown();
      } else if c == 'C' {
        DoRight();
      } else if c == 'D' {
        DoLeft();
      } else if c == 'F' {
        DoEnd();
      } else if c == 'H' {
        DoHome();
      } else if c == '~' {
        if escSeqLastChar == '1' {
          DoHome();
        } else if escSeqLastChar == '3' {
          DoDelete();
        } else if escSeqLastChar == '4' {
          DoEnd();
        } else {
          SendChar(BELL);
        }
      } else {
        SendChar(BELL);
      }
      escSeqLastChar := c;
    }

    method DoChar(c: char)
      requires Valid() && Printable(c)
      modifies this`screen, this`line, this`cursorPosition, this`currentLine, buffer
      ensures Core() && Drawn() && Abs() == Insert(cfg, old(Abs()), c)
    {
      var len := StrLen();
      if len + 1 < cfg.lineLen {
        currentLine := 0;
        InsertChar(c);
      } else {
        SendChar(BELL);
      }
    }

    method ProcessPlain(c: char)
      requires Valid()
      modifies Repr
      ensures Core() && Drawn() && Abs() == Pressed(cfg, old(Abs()), PlainKey(c)).(inEsc := inEscSeq)
      ensures inEscSeq == (if c == ESC then true else old(inEscSeq))
    {
      hide Up;
      hide Down;
      hide Left;
      hide Right;
      hide Home;
      hide End;
      hide Delete;
      hide Backspace;
      hide Insert;
      if c == '\n' {
      } else if c == '\r' {
        DoNewlineWithoutRepeat();
      } else if c == ESC {
        inEscSeq := true;
      } else if c == BACKSPACE || c == RUBOUT {
        DoBackspace();
      } else if c == CTRL_P {
        DoUp();
      } else if c == CTRL_N {
        DoDown();
      } else if c == CTRL_B {
        DoLeft();
      } else if c == CTRL_F {
        DoRight();
      } else if c == CTRL_A {
        DoHome();
      } else if c == CTRL_E {
        DoEnd();
      } else if c == CTRL_D {
        DoDelete();
      } else if Printable(c) {
        DoChar(c);
      } else {
        SendChar(BELL);
      }
    }

    /** After every character the incremental output equals a full redraw, and the editor has taken the character's step. */
    method ProcessChar(c: char)
      requires Valid()
      modifies Repr
      ensures Valid() && Abs() == Typed(cfg, old(Abs()), c)
    {
      TypedKeepsSound(cfg, Abs(), c);
      if inEscSeq {
        inEscSeq := ProcessEscSeq(c);
      } else {
        ProcessPlain(c);
      }
    }

    /** The console thread: one character after the other, for any input. */
    method Run(input: string)
      requires Valid() && Abs() == Start()
      modifies Repr
      ensures Valid() && Abs() == TypedAll(cfg, input)
    {
      for i := 0 to |input|
        invariant Valid() && Abs() == TypedAll(cfg, input[..i])
      {
        assert input[..i + 1][..i] == input[..i];
        ProcessChar(input[i]);
      }
      assert input[..|input|] == input;
    }
  }

  lemma NewlineIsFresh(r: Row)
    ensures PutAll(r, "\r\n") == FRESH
  {
    assert "\r\n"[1..] == "\n" && "\n"[1..] == "";
  }

  lemma FreshPrompt()
    ensures Shows(PutAll(FRESH, PROMPT), PROMPT + "", |PROMPT|)
  {
    PrintsTail(FRESH, "", 0, PROMPT);
    assert "" + PROMPT == PROMPT + "";
  }

  /** Return, prompt and the new line, printed over any shown line: what can be left is the old line's end. */
  lemma LoadRedraws(r: Row, was: string, at: nat, now: string)
    requires at <= |was| && Shows(r, PROMPT + was, |PROMPT| + at) && AllPrintable(now)
    ensures var printed := PutAll(PutAll(Put(r, '\r'), PROMPT), now);
      && ShowsBut(printed, PROMPT + now, |PROMPT + now|, |PROMPT + now|, |PROMPT + was|)
      && |PROMPT + now| <= |printed.cells|
  {
    PutAllAppends(Put(r, '\r'), PROMPT, now);
    PrintsTail(Put(r, '\r'), PROMPT + was, 0, PROMPT + now);
    assert (PROMPT + was)[..0] + (PROMPT + now) == PROMPT + now;
  }

  /** Printing the new tail and moving back equals a full redraw of the line with the character in it. */
  lemma InsertRedraws(r: Row, line: string, at: nat, c: char)
    requires at <= |line| && Shows(r, PROMPT + line, |PROMPT| + at) && AllPrintable(line) && Printable(c)
    ensures var now, printed := InsertedAt(line, at, c), PutAll(r, InsertedAt(line, at, c)[at..]);
      && printed.column == |PROMPT| + |now|
      && Shows(printed.(column := |PROMPT| + at + 1), PROMPT + now, |PROMPT| + at + 1)
  {
    var now := InsertedAt(line, at, c);
    PrintsTail(r, PROMPT + line, |PROMPT| + at, now[at..]);
    assert (PROMPT + line)[..|PROMPT| + at] + now[at..] == PROMPT + now;
  }

  /** Printing the shorter tail, wiping one cell and moving back equals a full redraw without the character. */
  lemma RemoveRedraws(r: Row, line: string, at: nat)
    requires at < |line| && Shows(r, PROMPT + line, |PROMPT| + at) && AllPrintable(line)
    ensures var now := DeletedAt(line, at);
      var printed := Put(Put(PutAll(r, now[at..]), ' '), BACKSPACE);
      && printed.column == |PROMPT| + |now|
      && Shows(printed.(column := |PROMPT| + at), PROMPT + now, |PROMPT| + at)
  {
    var now := DeletedAt(line, at);
    var printed := PutAll(r, now[at..]);
    PrintsTail(r, PROMPT + line, |PROMPT| + at, now[at..]);
    assert (PROMPT + line)[..|PROMPT| + at] + now[at..] == PROMPT + now;
    PrintsOver(r, now[at..]);
    WipesOne(printed, PROMPT + now, printed.column, |PROMPT + line|);
  }
}
