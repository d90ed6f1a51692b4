/** What typed characters do to the line, the cursor and the history, said about the characters themselves. */
module EditorInput {
  import opened Terminal
  import opened EditorSpec

  /** The editor after more input, from any state. */
  function TypedOn(cfg: Config, e: Editor, input: string): Editor
    decreases |input|
  {
    if input == "" then e else TypedOn(cfg, Typed(cfg, e, input[0]), input[1..])
  }

  lemma {:induction false} TypedOnInTurn(cfg: Config, e: Editor, first: string, second: string)
    ensures TypedOn(cfg, e, first + second) == TypedOn(cfg, TypedOn(cfg, e, first), second)
    decreases |first|
  {
    hide Typed;
    if first == "" {
      assert first + second == second;
    } else {
      assert (first + second)[1..] == first[1..] + second;
      TypedOnInTurn(cfg, Typed(cfg, e, first[0]), first[1..], second);
    }
  }

  lemma TypedOnOne(cfg: Config, e: Editor, c: char)
    ensures TypedOn(cfg, e, [c]) == Typed(cfg, e, c)
  {
    hide Typed;
    assert [c][1..] == "";
  }

  lemma {:induction false} TypedAllContinues(cfg: Config, input: string, more: string)
    ensures TypedAll(cfg, input + more) == TypedOn(cfg, TypedAll(cfg, input), more)
    decreases |more|
  {
    hide Typed;
    if more == "" {
      assert input + more == input;
    } else {
      var one := input + [more[0]];
      assert one[..|one| - 1] == input;
      assert input + more == one + more[1..];
      TypedAllContinues(cfg, one, more[1..]);
    }
  }

  // ---------- Single characters ----------

  /** The cursor keys: Ctrl-B, Ctrl-F, Ctrl-A and Ctrl-E. */
  lemma ControlMoves(cfg: Config, e: Editor)
    requires !e.inEsc && e.cursor <= |e.line|
    ensures Typed(cfg, e, 2 as char) == e.(cursor := if e.cursor == 0 then 0 else e.cursor - 1)
    ensures Typed(cfg, e, 6 as char) == e.(cursor := if e.cursor == |e.line| then e.cursor else e.cursor + 1)
    ensures Typed(cfg, e, 1 as char) == e.(cursor := 0)
    ensures Typed(cfg, e, 5 as char) == e.(cursor := |e.line|)
  {
  }

  /** Ctrl-D deletes under the cursor; backspace and rubout delete before it. */
  lemma ControlDeletes(cfg: Config, e: Editor)
    requires !e.inEsc && e.cursor <= |e.line|
    ensures Typed(cfg, e, 4 as char)
      == if e.cursor == |e.line| then e else e.(line := e.line[..e.cursor] + e.line[e.cursor + 1..], current := 0)
    ensures Typed(cfg, e, 8 as char) == Typed(cfg, e, 127 as char)
      == if e.cursor == 0 then e
         else e.(line := e.line[..e.cursor - 1] + e.line[e.cursor..], cursor := e.cursor - 1, current := 0)
  {
  }

  /** The line one further back in the history, if there is one, with the cursor at its end. */
  predicate IsOlder(e: Editor, t: Editor) {
    if e.current >= |e.history| then t == e
    else
      var line := e.history[e.current];
      t == e.(line := line, cursor := |line|, current := e.current + 1)
  }

  /** The line one further on in the history, an empty one after the newest. */
  predicate IsNewer(e: Editor, t: Editor)
    requires e.current <= |e.history|
  {
    if e.current == 0 then t == e
    else
      var line := if e.current == 1 then "" else e.history[e.current - 2];
      t == e.(line := line, cursor := |line|, current := e.current - 1)
  }

  lemma ControlRecalls(cfg: Config, e: Editor)
    requires !e.inEsc && e.current <= |e.history|
    ensures IsOlder(e, Typed(cfg, e, 16 as char)) && IsNewer(e, Typed(cfg, e, 14 as char))
  {
  }

  /** A printable character goes in at the cursor if the line with it and its terminator fits. */
  lemma PrintableInserts(cfg: Config, e: Editor, c: char)
    requires !e.inEsc && e.cursor <= |e.line| && ' ' <= c <= '~'
    ensures Typed(cfg, e, c)
      == if |e.line| + 1 < cfg.lineLen
         then e.(line := e.line[..e.cursor] + [c] + e.line[e.cursor..], cursor := e.cursor + 1, current := 0)
         else e
  {
  }

  /** ESC starts a sequence; the line feed and all other characters are ignored. */
  lemma OthersDoNothing(cfg: Config, e: Editor, c: char)
    requires !e.inEsc && !(' ' <= c <= '~')
    requires c as int !in {1, 2, 4, 5, 6, 8, 13, 14, 16, 127}
    ensures Typed(cfg, e, c) == e.(inEsc := c as int == 27)
  {
  }

  // ---------- Escape sequences ----------

  /** The characters an escape sequence may have before its last one. */
  predicate Middle(m: string) {
    forall i :: 0 <= i < |m| ==> m[i] == ';' || m[i] == '[' || m[i] == 'O' || '0' <= m[i] <= '9'
  }

  /** Inside an escape sequence the middle characters only keep it going; the last one read is remembered. */
  lemma {:induction false} MiddleWaits(cfg: Config, e: Editor, m: string)
    requires e.inEsc && Middle(m)
    ensures TypedOn(cfg, e, m) == e.(lastEsc := if m == "" then e.lastEsc else m[|m| - 1])
    decreases |m|
  {
    if m != "" {
      assert Typed(cfg, e, m[0]) == e.(lastEsc := m[0]);
      hide Typed;
      MiddleWaits(cfg, e.(lastEsc := m[0]), m[1..]);
    }
  }

  /** ESC, the middle characters `m`, and `c`. */
  function Sequence(m: string, c: char): string {
    [27 as char] + m + [c]
  }

  lemma SequenceEnds(cfg: Config, e: Editor, m: string, c: char)
    requires !e.inEsc && Middle(m)
    ensures TypedOn(cfg, e, Sequence(m, c))
      == Typed(cfg, e.(inEsc := true, lastEsc := if m == "" then e.lastEsc else m[|m| - 1]), c)
  {
    assert Sequence(m, c) == [27 as char] + m + [c];
    OthersDoNothing(cfg, e, 27 as char);
    hide *;
    TypedOnInTurn(cfg, e, [27 as char] + m, [c]);
    TypedOnInTurn(cfg, e, [27 as char], m);
    TypedOnOne(cfg, e, 27 as char);
    MiddleWaits(cfg, e.(inEsc := true), m);
    TypedOnOne(cfg, e.(inEsc := true, lastEsc := if m == "" then e.lastEsc else m[|m| - 1]), c);
  }

  /** The arrows, End and Home: `D` moves left, `C` right, `F` to the end and `H` to the start, whatever comes before them. */
  lemma SequenceMoves(cfg: Config, e: Editor, m: string)
    requires !e.inEsc && e.cursor <= |e.line| && Middle(m)
    ensures TypedOn(cfg, e, Sequence(m, 'D')) == e.(cursor := if e.cursor == 0 then 0 else e.cursor - 1, lastEsc := 'D')
    ensures TypedOn(cfg, e, Sequence(m, 'C')) == e.(cursor := if e.cursor == |e.line| then e.cursor else e.cursor + 1, lastEsc := 'C')
    ensures TypedOn(cfg, e, Sequence(m, 'F')) == e.(cursor := |e.line|, lastEsc := 'F')
    ensures TypedOn(cfg, e, Sequence(m, 'H')) == e.(cursor := 0, lastEsc := 'H')
  {
    SequenceEnds(cfg, e, m, 'D');
    SequenceEnds(cfg, e, m, 'C');
    SequenceEnds(cfg, e, m, 'F');
    SequenceEnds(cfg, e, m, 'H');
    hide TypedOn;
  }

  /** `A` recalls an older history line and `B` a newer one. */
  lemma SequenceRecalls(cfg: Config, e: Editor, m: string)
    requires !e.inEsc && e.current <= |e.history| && Middle(m)
    ensures IsOlder(e, TypedOn(cfg, e, Sequence(m, 'A')).(lastEsc := e.lastEsc))
    ensures IsNewer(e, TypedOn(cfg, e, Sequence(m, 'B')).(lastEsc := e.lastEsc))
  {
    SequenceEnds(cfg, e, m, 'A');
    SequenceEnds(cfg, e, m, 'B');
    hide TypedOn;
  }

  /** A tilde means Home, Delete or End after the digit 1, 3 or 4, and nothing after any other character. */
  lemma SequenceTilde(cfg: Config, e: Editor, m: string)
    requires !e.inEsc && e.cursor <= |e.line| && Middle(m)
    ensures var t, last := TypedOn(cfg, e, Sequence(m, '~')), if m == "" then e.lastEsc else m[|m| - 1];
      t == if last == '1' then e.(cursor := 0, lastEsc := '~')
           else if last == '4' then e.(cursor := |e.line|, lastEsc := '~')
           else if last == '3' && e.cursor < |e.line| then
             e.(line := e.line[..e.cursor] + e.line[e.cursor + 1..], current := 0, lastEsc := '~')
           else e.(lastEsc := '~')
  {
    SequenceEnds(cfg, e, m, '~');
    hide TypedOn;
  }

  /** Any other character ends the sequence and does nothing else. */
  lemma SequenceIgnored(cfg: Config, e: Editor, m: string, c: char)
    requires !e.inEsc && Middle(m) && !Middle([c]) && c !in {'A', 'B', 'C', 'D', 'F', 'H', '~'}
    ensures TypedOn(cfg, e, Sequence(m, c)) == e.(lastEsc := c)
  {
    SequenceEnds(cfg, e, m, c);
    hide TypedOn;
    assert [c][0] == c;
  }

  // ---------- Enter ----------

  lemma {:induction false} SpanStopsAtOthers(line: string, delimiters: string)
    ensures DelimiterSpan(line, delimiters) < |line| <==> exists i :: 0 <= i < |line| && line[i] !in delimiters
  {
    if line != "" && line[0] in delimiters {
      SpanStopsAtOthers(line[1..], delimiters);
      if i :| 0 <= i < |line| && line[i] !in delimiters {
        assert line[1..][i - 1] == line[i];
      }
      if i :| 0 <= i < |line[1..]| && line[1..][i] !in delimiters {
        assert line[i + 1] == line[1..][i];
      }
    }
  }

  /** Some character of the line is no delimiter. */
  predicate HasCommand(cfg: Config, line: string) {
    exists i :: 0 <= i < |line| && line[i] !in cfg.delimiters
  }

  /**
   Carriage return runs a line with something besides delimiters in it and puts it in front of the
   history; a line of delimiters is dropped.  Either way the next line starts empty.
   */
  lemma ReturnRuns(cfg: Config, e: Editor)
    requires !e.inEsc
    ensures var t := Typed(cfg, e, '\r');
      && t.line == "" && t.cursor == 0 && !t.inEsc && (e.line != "" ==> t.current == 0)
      && t.entered == (if HasCommand(cfg, e.line) then e.entered + [e.line] else e.entered)
      && (!HasCommand(cfg, e.line) ==> t.history == e.history)
      && (HasCommand(cfg, e.line) && cfg.historyLength >= 1 ==>
            && t.history != [] && t.history[0] == e.line
            && t.history[1..] == (if |e.history| < cfg.historyLength then e.history else e.history[..cfg.historyLength - 1]))
  {
    SpanStopsAtOthers(e.line, cfg.delimiters);
    hide DelimiterSpan;
  }

  /** The same for all input that ends in a carriage return outside an escape sequence. */
  lemma ReturnRunsTyped(cfg: Config, input: string)
    requires cfg.lineLen >= 1 && !TypedAll(cfg, input).inEsc
    ensures var e, t := TypedAll(cfg, input), TypedAll(cfg, input + "\r");
      && t.line == "" && t.cursor == 0 && t.current == 0
      && t.entered == (if HasCommand(cfg, e.line) then e.entered + [e.line] else e.entered)
      && (HasCommand(cfg, e.line) && cfg.historyLength >= 1 ==> t.history != [] && t.history[0] == e.line)
  {
    var e := TypedAll(cfg, input);
    assert (input + "\r")[..|input|] == input;
    ReturnRuns(cfg, e);
    EmptyLineIsFresh(cfg, input + "\r");
    hide Typed;
    hide HasCommand;
  }

  predicate AllTypeable(text: string) {
    forall i :: 0 <= i < |text| ==> ' ' <= text[i] <= '~'
  }

  lemma {:induction false} TextGoesIn(cfg: Config, e: Editor, text: string)
    requires !e.inEsc && e.cursor == |e.line| && AllTypeable(text) && |e.line| + |text| < cfg.lineLen
    ensures TypedOn(cfg, e, text)
      == e.(line := e.line + text, cursor := |e.line + text|, current := if text == "" then e.current else 0)
    decreases |text|
  {
    if text == "" {
      assert e.line + text == e.line;
    } else {
      PrintableInserts(cfg, e, text[0]);
      var t := Typed(cfg, e, text[0]);
      assert t.line == e.line + [text[0]];
      hide Typed;
      TextGoesIn(cfg, t, text[1..]);
      assert e.line + [text[0]] + text[1..] == e.line + text;
    }
  }

  /** Typing a text on an empty line and then Return gives exactly that text to the command callback, whatever came before. */
  lemma TypedTextIsRun(cfg: Config, input: string, text: string)
    requires TypedAll(cfg, input).line == "" && TypedAll(cfg, input).cursor == 0 && !TypedAll(cfg, input).inEsc
    requires AllTypeable(text) && |text| < cfg.lineLen
    ensures TypedAll(cfg, input + text + "\r").entered
      == TypedAll(cfg, input).entered + if HasCommand(cfg, text) then [text] else []
  {
    var e := TypedAll(cfg, input);
    hide TypedAll;
    TypedAllContinues(cfg, input, text);
    TypedAllContinues(cfg, input + text, "\r");
    TextGoesIn(cfg, e, text);
    var t := TypedAll(cfg, input + text);
    assert e.line + text == text;
    TypedOnOne(cfg, t, '\r');
    ReturnRuns(cfg, t);
    hide Typed;
    hide TypedOn;
    hide HasCommand;
    assert e.entered + [] == e.entered;
  }

  /** The first line typed is run. */
  lemma FirstLineIsRun(cfg: Config, text: string)
    requires AllTypeable(text) && |text| < cfg.lineLen
    ensures TypedAll(cfg, text + "\r").entered == if HasCommand(cfg, text) then [text] else []
  {
    assert "" + text == text;
    hide HasCommand;
    TypedTextIsRun(cfg, "", text);
  }

  /** The newline rule that is not installed runs the last entered line again for an empty one, if the ring has any row. */
  lemma RepeatingRunsLast(cfg: Config, e: Editor)
    requires LastEntered(cfg.historyLength, e.history, e.entered) && cfg.historyLength >= 1 && e.line == ""
    ensures var t := EnterRepeating(cfg, e);
      && t.history == e.history && t.line == "" && t.cursor == 0 && t.current == 0
      && t.entered == if e.entered == [] then [] else e.entered + [e.entered[|e.entered| - 1]]
  {
  }
}
