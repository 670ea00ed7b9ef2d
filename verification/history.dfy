/** The command history: a ring of 50 lines and a cursor over it (kernel/history.c:3-56). */
module History {
  import opened Bytes
  import opened CString

  const HISTORY_SIZE := 50
  const BUFFER_SIZE := 256
  const NOWHERE := -1

  // ------------------------------------------------------------------ the list

  // The remembered commands, oldest first, and the one the cursor is on.
  datatype Log = Log(items: seq<Bytes>, cur: int)

  ghost predicate LogOk(h: Log) {
    |h.items| <= HISTORY_SIZE && NOWHERE <= h.cur < |h.items| && forall i :: 0 <= i < |h.items| ==> LineOk(h.items[i])
  }

  // A stored line: a C string with room for its NUL.
  ghost predicate LineOk(line: Bytes) { NulFree(line) && |line| < BUFFER_SIZE }

  function Stored(command: Bytes): (line: Bytes)
    ensures |line| < BUFFER_SIZE
  {
    Upto(command, BUFFER_SIZE - 1)
  }

  function LastOf(items: seq<Bytes>, n: nat): seq<Bytes> {
    if |items| <= n then items else items[|items| - n..]
  }

  ghost predicate Repeats(items: seq<Bytes>, command: Bytes) {
    items != [] && items[|items| - 1] == command
  }

  // A command longer than a line is cut when it is stored, but compared whole.
  ghost function Added(h: Log, command: Bytes): Log {
    if command == [] || Repeats(h.items, command) then h
    else Log(LastOf(h.items + [Stored(command)], HISTORY_SIZE), NOWHERE)
  }

  // What history_add does: nothing for an empty command or a repeat of the newest; else the command, cut to 255
  // characters, is the newest of at most 50, and the cursor is on none.
  ghost predicate Kept(h: Log, u: Log, command: Bytes) {
    if command == [] || (h.items != [] && h.items[|h.items| - 1] == command) then u == h
    else
      && u.cur == -1 && |u.items| == (if |h.items| < 50 then |h.items| + 1 else 50)
      && u.items[|u.items| - 1] == (if |command| <= 255 then command else command[..255])
      && u.items[..|u.items| - 1] == if |h.items| < 50 then h.items else h.items[|h.items| - 49..]
  }

  lemma AddDone(h: Log, command: Bytes)
    requires LogOk(h)
    ensures Kept(h, Added(h, command), command)
  {
    hide LineOk;
  }

  // One step back after an addition reaches the command just stored; after a repeat, which leaves the cursor where it was,
  // it reaches the newest exactly from a fresh line, or when there is but one.
  lemma BackAfterAdd(h: Log, command: Bytes)
    requires LogOk(h) && command != []
    ensures var u := Back(Added(h, command));
            && u.items != []
            && (u.cur == |u.items| - 1 <==>
                !Repeats(h.items, command) || h.cur == -1 || (h.cur == 0 && |h.items| == 1))
            && u.items[|u.items| - 1] == (if |command| <= 255 then command else command[..255])
  {
    if Repeats(h.items, command) {
      assert LineOk(h.items[|h.items| - 1]);
    } else {
      AddDone(h, command);
    }
  }

  // So a repeat is recognised exactly when the command fits a line.
  lemma RepeatRecognised(h: Log, command: Bytes)
    requires LogOk(h) && command != []
    ensures Repeats(Added(h, command).items, command) <==> |command| < BUFFER_SIZE
  {
    if Repeats(h.items, command) {
      assert LineOk(h.items[|h.items| - 1]);
    } else {
      LastOfSnoc(h.items, Stored(command), HISTORY_SIZE);
    }
  }

  ghost function Back(h: Log): Log {
    if h.items == [] then h
    else h.(cur := if h.cur == NOWHERE then |h.items| - 1 else if h.cur > 0 then h.cur - 1 else h.cur)
  }

  ghost function Forth(h: Log): Log {
    if h.cur == NOWHERE then h
    else if h.cur < |h.items| - 1 then h.(cur := h.cur + 1)
    else h.(cur := NOWHERE)
  }

  // ------------------------------------------------------------------ what is remembered

  function NonEmpty(commands: seq<Bytes>): seq<Bytes> {
    if commands == [] then []
    else (if commands[0] == [] then [] else [commands[0]]) + NonEmpty(commands[1..])
  }

  // The lines of all commands but those that repeat the line stored just before.
  function Squeezed(commands: seq<Bytes>): seq<Bytes> {
    if commands == [] then []
    else if |commands| == 1 then [Stored(commands[0])]
    else (if Stored(commands[0]) == commands[1] then [] else [Stored(commands[0])]) + Squeezed(commands[1..])
  }

  ghost predicate RepeatsStored(commands: seq<Bytes>, command: Bytes) {
    commands != [] && Stored(commands[|commands| - 1]) == command
  }

  ghost function AddedAll(h: Log, commands: seq<Bytes>): Log
    decreases commands
  {
    if commands == [] then h else AddedAll(Added(h, commands[0]), commands[1..])
  }

  lemma {:induction false} NonEmptySnoc(commands: seq<Bytes>, c: Bytes)
    ensures NonEmpty(commands + [c]) == NonEmpty(commands) + if c == [] then [] else [c]
  {
    if commands == [] {
      assert commands + [c] == [c] && [c][1..] == [];
    } else {
      assert (commands + [c])[1..] == commands[1..] + [c];
      NonEmptySnoc(commands[1..], c);
    }
  }

  lemma {:induction false} SqueezedSnoc(commands: seq<Bytes>, c: Bytes)
    ensures Squeezed(commands + [c]) ==
            if RepeatsStored(commands, c) then Squeezed(commands) else Squeezed(commands) + [Stored(c)]
    ensures commands != [] ==>
              Squeezed(commands) != [] && Squeezed(commands)[|Squeezed(commands)| - 1] == Stored(commands[|commands| - 1])
  {
    var all := commands + [c];
    if |commands| <= 1 {
      if commands == [] {
        assert all == [c];
      } else {
        assert all == [commands[0], c] && all[1..] == [c];
      }
    } else {
      assert all[1..] == commands[1..] + [c];
      SqueezedSnoc(commands[1..], c);
    }
  }

  lemma LastOfSnoc(items: seq<Bytes>, c: Bytes, n: nat)
    requires n > 0
    ensures LastOf(items + [c], n) == LastOf(LastOf(items, n) + [c], n)
    ensures items != [] ==> LastOf(items, n) != [] && LastOf(items, n)[|LastOf(items, n)| - 1] == items[|items| - 1]
  {
  }

  lemma {:induction false} AddedAllSnoc(h: Log, commands: seq<Bytes>, c: Bytes)
    ensures AddedAll(h, commands + [c]) == Added(AddedAll(h, commands), c)
    decreases commands
  {
    hide Added;
    if commands == [] {
      assert commands + [c] == [c] && [c][1..] == [];
    } else {
      assert (commands + [c])[1..] == commands[1..] + [c];
      AddedAllSnoc(Added(h, commands[0]), commands[1..], c);
    }
  }

  // The history holds the lines of the last 50 non-empty commands, consecutive repeats dropped.
  lemma {:induction false} Remembered(commands: seq<Bytes>)
    ensures AddedAll(Log([], NOWHERE), commands).items == LastOf(Squeezed(NonEmpty(commands)), HISTORY_SIZE)
    decreases |commands|
  {
    if commands != [] {
      hide NonEmpty, Squeezed, LastOf, AddedAll;
      var init, c := commands[..|commands| - 1], commands[|commands| - 1];
      assert commands == init + [c];
      Remembered(init);
      AddedAllSnoc(Log([], NOWHERE), init, c);
      NonEmptySnoc(init, c);
      var kept := NonEmpty(init);
      SqueezedSnoc(kept, c);
      NothingSqueezed();
      LastOfSnoc(Squeezed(kept), Stored(c), HISTORY_SIZE);
      assert kept + [] == kept;
    }
  }

  lemma NothingSqueezed()
    ensures Squeezed([]) == [] && LastOf([], HISTORY_SIZE) == []
  {
  }

  lemma BrowseOk(h: Log)
    requires LogOk(h)
    ensures LogOk(Back(h)) && LogOk(Forth(h))
  {
    hide LineOk;
  }

  lemma ItemOk(h: Log, i: nat)
    requires LogOk(h) && i < |h.items|
    ensures NulFree(h.items[i])
  {
  }

  lemma AddedOk(h: Log, command: Bytes)
    requires LogOk(h) && NulFree(command)
    ensures LogOk(Added(h, command))
  {
  }

  // ------------------------------------------------------------------ the cursor

  ghost function BackTimes(h: Log, k: nat): Log { if k == 0 then h else Back(BackTimes(h, k - 1)) }
  ghost function ForthTimes(h: Log, k: nat): Log { if k == 0 then h else Forth(ForthTimes(h, k - 1)) }

  // From a fresh line, k steps back reach the k-th newest command, or stop at the oldest.
  lemma {:induction false} BackReaches(h: Log, k: nat)
    requires LogOk(h) && h.cur == NOWHERE && h.items != [] && k > 0
    ensures BackTimes(h, k) == h.(cur := if k <= |h.items| then |h.items| - k else 0)
  {
    if k > 1 {
      BackReaches(h, k - 1);
    }
  }

  // From there, steps forth come back, past the newest to the empty line, and stay.
  lemma {:induction false} ForthReturns(h: Log, k: nat)
    requires LogOk(h) && h.cur != NOWHERE
    ensures ForthTimes(h, k) == h.(cur := if h.cur + k < |h.items| then h.cur + k else NOWHERE)
  {
    if k > 0 {
      ForthReturns(h, k - 1);
    }
  }

  // One step forth undoes one step back unless the cursor was at the oldest command.
  lemma ForthUndoesBack(h: Log)
    requires LogOk(h) && h.items != []
    ensures Forth(Back(h)) == h <==> h.cur != 0
  {
  }

  // ------------------------------------------------------------------ the ring

  // Where item i lies in a ring with count items before index.
  function SlotOf(index: nat, count: nat, i: nat): (k: nat)
    requires index < HISTORY_SIZE && i < count <= HISTORY_SIZE
    ensures k < HISTORY_SIZE
  {
    if index + i < count then index + HISTORY_SIZE + i - count else index + i - count
  }

  ghost function Items(slots: seq<Bytes>, index: nat, count: nat): (items: seq<Bytes>)
    requires |slots| == HISTORY_SIZE && index < HISTORY_SIZE && count <= HISTORY_SIZE
    ensures |items| == count && forall i :: 0 <= i < count ==> items[i] == slots[SlotOf(index, count, i)]
  {
    seq(count, i requires 0 <= i < count => slots[SlotOf(index, count, i)])
  }

  // Storing at the index and moving it on adds an item, over the oldest one when the ring is full.
  lemma ItemAdded(slots: seq<Bytes>, index: nat, count: nat, c: Bytes)
    requires |slots| == HISTORY_SIZE && index < HISTORY_SIZE && count <= HISTORY_SIZE
    ensures Items(slots[index := c], (index + 1) % HISTORY_SIZE, if count < HISTORY_SIZE then count + 1 else count)
            == LastOf(Items(slots, index, count) + [c], HISTORY_SIZE)
  {
    var more := if count < HISTORY_SIZE then count + 1 else count;
    var now := Items(slots[index := c], (index + 1) % HISTORY_SIZE, more);
    var was := Items(slots, index, count);
    assert (index + 1) % HISTORY_SIZE == if index + 1 == HISTORY_SIZE then 0 else index + 1;
    forall i | 0 <= i < more
      ensures now[i] == if i == more - 1 then c else was[i + count + 1 - more]
    {
    }
  }

  // Remainder of a division that truncates towards zero.
  function TruncRem(a: int, b: nat): int
    requires b > 0
  {
    if a >= 0 then a % b else 0 - (0 - a) % b
  }

  lemma NewestAt(index: nat, count: nat)
    requires index < HISTORY_SIZE && count <= HISTORY_SIZE
    ensures 0 <= TruncRem(index - 1 + HISTORY_SIZE, HISTORY_SIZE) < HISTORY_SIZE
    ensures count > 0 ==> SlotOf(index, count, count - 1) == TruncRem(index - 1 + HISTORY_SIZE, HISTORY_SIZE)
  {
  }

  class Ring {
    const slots: array<Bytes>
    var count: nat
    var current: int
    var index: nat

    ghost predicate Shaped()
      reads this, slots
    {
      slots.Length == HISTORY_SIZE && count <= HISTORY_SIZE && index < HISTORY_SIZE && NOWHERE <= current < count
    }

    ghost function Held(): Log
      requires Shaped()
      reads this, slots
    {
      Log(Items(slots[..], index, count), current)
    }

    ghost predicate Valid()
      reads this, slots
    {
      Shaped() && LogOk(Held())
    }

    constructor ()
      ensures Valid() && fresh(slots) && Held() == Log([], NOWHERE)
    {
      slots := new Bytes[HISTORY_SIZE];
      count, current, index := 0, NOWHERE, 0;
    }

    // history_add (kernel/history.c:8-24).
    method Add(command: Bytes)
      requires Valid() && NulFree(command)
      modifies this, slots
      ensures Valid() && Held() == Added(old(Held()), command) && Kept(old(Held()), Held(), command)
    {
      hide LogOk, CStr, Items, TruncRem, LastOf, Kept;
      AddedOk(Held(), command);
      AddDone(Held(), command);
      if command == [] {
        return;
      }
      NewestAt(index, count);
      if count > 0 && slots[TruncRem(index - 1 + HISTORY_SIZE, HISTORY_SIZE)] == command {
        return;
      }
      var line := new Byte[BUFFER_SIZE];
      CopyField(line, command, BUFFER_SIZE);
      ItemAdded(slots[..], index, count, Stored(command));
      ghost var before := slots[..];
      slots[index] := CStr(line[..]);
      assert slots[..] == before[index := Stored(command)];
      index := (index + 1) % HISTORY_SIZE;
      if count < HISTORY_SIZE {
        count := count + 1;
      }
      current := NOWHERE;
    }

    // The index computation both browsing calls share.
    method At() returns (idx: nat)
      requires Shaped() && current >= 0
      ensures idx == SlotOf(index, count, current)
    {
      var i := TruncRem(index - count + current, HISTORY_SIZE);
      if i < 0 {
        i := i + HISTORY_SIZE;
      }
      idx := i;
    }

    // history_prev (kernel/history.c:26-40): the line shows the command the cursor is on.
    method Prev(buffer: array<Byte>, size: nat)
      requires Valid() && 0 < size <= buffer.Length
      modifies `current, buffer
      ensures Valid() && Held() == Back(old(Held()))
      ensures count == 0 ==> buffer[..] == old(buffer[..])
      ensures count > 0 ==> current >= 0 && CStr(buffer[..]) == Upto(Held().items[current], size - 1)
    {
      hide LogOk, CStr;
      BrowseOk(Held());
      if count == 0 {
        return;
      }
      if current == NOWHERE {
        current := count - 1;
      } else if current > 0 {
        current := current - 1;
      }
      var idx := At();
      assert Held() == Back(old(Held())) && Held().items[current] == slots[idx];
      ItemOk(Held(), current);
      CopyField(buffer, slots[idx], size);
    }

    // history_next (kernel/history.c:42-56): past the newest command the line is empty.
    method Next(buffer: array<Byte>, size: nat)
      requires Valid() && 0 < size <= buffer.Length
      modifies `current, buffer
      ensures Valid() && Held() == Forth(old(Held()))
      ensures old(current) == NOWHERE ==> buffer[..] == old(buffer[..])
      ensures old(current) != NOWHERE ==>
                CStr(buffer[..]) == if current == NOWHERE then [] else Upto(Held().items[current], size - 1)
    {
      hide LogOk, CStr;
      BrowseOk(Held());
      if current == NOWHERE {
        return;
      }
      if current < count - 1 {
        current := current + 1;
        var idx := At();
        assert Held() == Forth(old(Held())) && Held().items[current] == slots[idx];
        ItemOk(Held(), current);
        CopyField(buffer, slots[idx], size);
      } else {
        current := NOWHERE;
        assert Held() == Forth(old(Held()));
        buffer[0] := NUL;
        CStrIs(buffer[..], []);
      }
    }
  }
}
