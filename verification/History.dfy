/** The command history of js_console.c: a ring of fixed-length rows, the newest at `newestLine`. */
module History {
  import opened Terminal
  import opened EditorSpec

  const NUL := 0 as char

  /** The buffer holds the line as a NUL-terminated string. */
  ghost predicate Holds(buffer: array<char>, line: string)
    reads buffer
  {
    && AllPrintable(line) && |line| < buffer.Length
    && buffer[..|line|] == line && buffer[|line|] == NUL
  }

  class History {
    const lineLen: nat
    const capacity: nat
    const rows: array2<char>  // row i is the i-th stretch of lineLen characters of the store
    var numLines: nat
    var newestLine: nat
    ghost var lines: seq<string>  // newest first

    ghost predicate RowHolds(row: nat, line: string)
      requires row < rows.Length0
      reads rows
    {
      && AllPrintable(line) && |line| < rows.Length1
      && (forall j :: 0 <= j < |line| ==> rows[row, j] == line[j]) && rows[row, |line|] == NUL
    }

    ghost predicate Valid()
      reads this, rows
    {
      && rows.Length0 == capacity && rows.Length1 == lineLen && lineLen >= 1
      && |lines| == numLines <= capacity && (capacity > 0 ==> newestLine < capacity)
      && (forall i :: 0 <= i < numLines ==> RowHolds(Slot(newestLine, i, capacity), lines[i]))
    }

    constructor (lineLen: nat, capacity: nat)
      requires lineLen >= 1
      ensures Valid() && lines == [] && this.lineLen == lineLen && this.capacity == capacity && fresh(rows)
    {
      this.lineLen, this.capacity := lineLen, capacity;
      rows := new char[capacity, lineLen];
      numLines, newestLine, lines := 0, 0, [];
    }

    /** Copies the line into a row the way strncpy does, padding with NULs. */
    method CopyToRow(src: array<char>, row: nat, ghost line: string)
      requires row < rows.Length0 && rows.Length1 == src.Length && Holds(src, line)
      modifies rows
      ensures RowHolds(row, line)
      ensures forall i, j :: 0 <= i < rows.Length0 && 0 <= j < rows.Length1 && i != row ==> rows[i, j] == old(rows[i, j])
    {
      var ended := false;
      for j := 0 to src.Length
        invariant ended <==> j > |line|
        invariant forall k :: 0 <= k < j ==> rows[row, k] == if k < |line| then line[k] else NUL
        invariant forall i, k :: 0 <= i < rows.Length0 && 0 <= k < rows.Length1 && i != row ==> rows[i, k] == old(rows[i, k])
      {
        assert j < |line| ==> src[j] == src[..|line|][j];
        ended := ended || src[j] == NUL;
        rows[row, j] := if ended then NUL else src[j];
      }
    }

    /** Writes the line to the row after the newest; every other line moves one place back. */
    method WriteNext(src: array<char>, ghost line: string)
      requires Valid() && capacity > 0 && src.Length == lineLen && Holds(src, line)
      modifies this`newestLine, rows
      ensures newestLine < capacity && RowHolds(Slot(newestLine, 0, capacity), line)
      ensures forall i :: 1 <= i <= numLines && i < capacity ==> RowHolds(Slot(newestLine, i, capacity), lines[i - 1])
    {
      ghost var was := newestLine;
      newestLine := (newestLine + 1) % capacity;
      SlotsShift(was, capacity);
      CopyToRow(src, newestLine, line);
      forall i | 1 <= i <= numLines && i < capacity ensures RowHolds(Slot(newestLine, i, capacity), lines[i - 1]) {
        assert old(RowHolds(Slot(was, i - 1, capacity), lines[i - 1]));
        assert Slot(newestLine, i, capacity) == Slot(was, i - 1, capacity) != newestLine;
      }
    }

    /** The new line becomes the newest; when the ring is full it takes the place of the oldest. */
    method StoreLine(src: array<char>, ghost line: string)
      requires Valid() && src.Length == lineLen && Holds(src, line)
      modifies this, rows
      ensures Valid() && lines == Remembered(old(lines), line, capacity)
    {
      if capacity > 0 {
        ghost var before := lines;
        WriteNext(src, line);
        lines := Remembered(before, line, capacity);
        assert lines[0] == line && forall i :: 1 <= i < |lines| ==> lines[i] == before[i - 1];
        if numLines < capacity {
          numLines := numLines + 1;
        }
      }
    }

    /** Loads history line `line` (0 is the newest), or an empty line when there is none. */
    method LoadLine(line: nat, buffer: array<char>)
      requires Valid() && buffer.Length == lineLen
      modifies buffer
      ensures Holds(buffer, if line < numLines then lines[line] else "")
    {
      if line >= numLines {
        buffer[0] := NUL;
      } else {
        var row := (newestLine + capacity - line) % capacity;
        ghost var text := lines[line];
        assert RowHolds(row, text);
        var ended := false;
        for j := 0 to lineLen
          invariant ended <==> j > |text|
          invariant forall k :: 0 <= k < j ==> buffer[k] == if k < |text| then text[k] else NUL
        {
          ended := ended || rows[row, j] == NUL;
          buffer[j] := if ended then NUL else rows[row, j];
        }
      }
    }
  }

  /** The row of the i-th newest line. */
  function Slot(newest: nat, i: nat, capacity: nat): (s: nat)
    requires newest < capacity && i < capacity
    ensures s < capacity
  {
    (newest + capacity - i) % capacity
  }

  /** Moving on by one row moves every line one place back and reaches only the row of the oldest. */
  lemma SlotsShift(newest: nat, capacity: nat)
    requires newest < capacity
    ensures var next := (newest + 1) % capacity;
      && Slot(next, 0, capacity) == next
      && (forall i :: 1 <= i < capacity ==> Slot(next, i, capacity) == Slot(newest, i - 1, capacity) != next)
  {
    hide Slot;
    var next := (newest + 1) % capacity;
    NextWraps(newest, capacity);
    forall i | 0 <= i < capacity
      ensures Slot(next, i, capacity) == if i <= next then next - i else next + capacity - i
      ensures Slot(newest, i, capacity) == if i <= newest then newest - i else newest + capacity - i
    {
      SlotInRange(next, i, capacity);
      SlotInRange(newest, i, capacity);
    }
  }

  lemma NextWraps(newest: nat, capacity: nat)
    requires newest < capacity
    ensures (newest + 1) % capacity == if newest + 1 == capacity then 0 else newest + 1
  {
  }

  lemma SlotInRange(newest: nat, i: nat, capacity: nat)
    requires newest < capacity && i < capacity
    ensures Slot(newest, i, capacity) == if i <= newest then newest - i else newest + capacity - i
  {
    if i <= newest {
      assert newest + capacity - i == (newest - i) + capacity;
    }
  }
}
