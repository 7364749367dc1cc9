/** The terminal: a bounded queue of keys, a line editor and a scrolling console (kernel/tty.c). */
module Terminal {

  const TTY_NUM := 3
  const TTY_IN_BYTES := 256
  const V_MEM_SIZE := 0x8000
  const CELLS := V_MEM_SIZE / 2
  const LIMIT := CELLS / TTY_NUM
  const SCREEN_WIDTH := 80
  const SCREEN_SIZE := 80 * 25
  const DEFAULT_CHAR_COLOR := 7
  const BACKSPACE := 8 as char

  // ----- the console

  datatype Cell = Cell(ch: char, color: int)

  /** A console and the video memory all consoles share. */
  datatype Screen = Screen(start: int, original: int, cursor: int, mem: seq<Cell>)

  /** The cursor is in the console's own cells and before the end of the window; the window
      starts on a line of the console and ends less than a line after the console does. */
  predicate ScreenOk(s: Screen) {
    && |s.mem| == CELLS && 0 <= s.original && s.original + LIMIT <= CELLS
    && s.original <= s.cursor < s.original + LIMIT
    && s.original <= s.start && (s.start - s.original) % SCREEN_WIDTH == 0
    && s.cursor < s.start + SCREEN_SIZE < s.original + LIMIT + SCREEN_WIDTH
  }

  /** The window moved down, line by line, until it shows the cursor. */
  function Settled(s: Screen): (t: Screen)
    requires s.cursor < s.original + LIMIT
    ensures t == s.(start := t.start) && t.start >= s.start && t.cursor < t.start + SCREEN_SIZE
    ensures t.start > s.start ==> t.start + SCREEN_SIZE - SCREEN_WIDTH <= t.cursor
    ensures (t.start - s.start) % SCREEN_WIDTH == 0
    decreases s.cursor - s.start
  {
    if s.cursor >= s.start + SCREEN_SIZE then Settled(s.(start := s.start + SCREEN_WIDTH)) else s
  }

  /** A character written, before the window follows. */
  function Put(s: Screen, ch: char): Screen
    requires |s.mem| == CELLS && 0 <= s.original <= s.cursor < s.original + LIMIT <= CELLS
  {
    if ch == '\n' then
      if s.cursor < s.original + LIMIT - SCREEN_WIDTH
      then s.(cursor := s.original + SCREEN_WIDTH * ((s.cursor - s.original) / SCREEN_WIDTH + 1))
      else s
    else if ch == BACKSPACE then
      if s.cursor > s.original
      then s.(cursor := s.cursor - 1, mem := s.mem[s.cursor - 1 := Cell(' ', DEFAULT_CHAR_COLOR)])
      else s
    else
      if s.cursor < s.original + LIMIT - 1
      then s.(cursor := s.cursor + 1, mem := s.mem[s.cursor := Cell(ch, DEFAULT_CHAR_COLOR)])
      else s
  }

  function Out(s: Screen, ch: char): (t: Screen)
    requires ScreenOk(s)
    ensures ScreenOk(t) && t.original == s.original
    ensures forall i :: 0 <= i < CELLS && !(s.original <= i < s.original + LIMIT) ==> t.mem[i] == s.mem[i]
  {
    Settled(Put(s, ch))
  }

  function OutAll(s: Screen, text: string): (t: Screen)
    requires ScreenOk(s)
    ensures ScreenOk(t) && t.original == s.original
    ensures forall i :: 0 <= i < CELLS && !(s.original <= i < s.original + LIMIT) ==> t.mem[i] == s.mem[i]
  {
    if text == "" then s else Out(OutAll(s, text[..|text| - 1]), text[|text| - 1])
  }

  /** A newline goes to the start of the next line, and stays put on the last line. */
  lemma NewlineMoves(s: Screen)
    requires ScreenOk(s)
    ensures var c := Out(s, '\n').cursor;
            if s.cursor < s.original + LIMIT - SCREEN_WIDTH
            then s.cursor < c <= s.cursor + SCREEN_WIDTH && (c - s.original) % SCREEN_WIDTH == 0
            else c == s.cursor
    ensures Out(s, '\n').mem == s.mem
  {
    var line := (s.cursor - s.original) / SCREEN_WIDTH;
    assert (SCREEN_WIDTH * (line + 1)) % SCREEN_WIDTH == 0;
  }

  // ----- the line editor

  /** A key on top of `line`: a backspace takes back a character, if there is one. */
  function Typed(line: string, ch: char): string {
    if ch != BACKSPACE then line + [ch] else if line == "" then "" else line[..|line| - 1]
  }

  /** The line after typing `keys` on top of `line`. */
  function Edited(line: string, keys: string): string {
    if keys == "" then line
    else
      Typed(Edited(line, keys[..|keys| - 1]), keys[|keys| - 1])
  }

  /** What is echoed: everything but backspaces at the start of the line. */
  function Echoed(line: string, keys: string): string {
    if keys == "" then ""
    else
      var ch := keys[|keys| - 1];
      Echoed(line, keys[..|keys| - 1]) + if ch == BACKSPACE && Edited(line, keys[..|keys| - 1]) == "" then "" else [ch]
  }

  lemma KeyMore(line: string, keys: string, ch: char)
    ensures Edited(line, keys + [ch]) == Typed(Edited(line, keys), ch)
    ensures Echoed(line, keys + [ch]) ==
            if ch == BACKSPACE && Edited(line, keys) == "" then Echoed(line, keys) else Echoed(line, keys) + [ch]
  {
    assert (keys + [ch])[..|keys|] == keys;
    assert Echoed(line, keys) + "" == Echoed(line, keys);
  }

  /** Editing may stop and go on: keys that arrive later continue the same line. */
  lemma {:induction false} EditedInParts(line: string, a: string, b: string)
    ensures Edited(line, a + b) == Edited(Edited(line, a), b)
    ensures Echoed(line, a + b) == Echoed(line, a) + Echoed(Edited(line, a), b)
    decreases |b|
  {
    if b == "" {
      assert a + b == a;
      assert Echoed(line, a) + "" == Echoed(line, a);
    } else {
      var n := |b| - 1;
      assert (a + b)[..|a + b| - 1] == a + b[..n];
      EditedInParts(line, a, b[..n]);
      var last := if b[n] == BACKSPACE && Edited(Edited(line, a), b[..n]) == "" then "" else [b[n]];
      assert (Echoed(line, a) + Echoed(Edited(line, a), b[..n])) + last ==
             Echoed(line, a) + (Echoed(Edited(line, a), b[..n]) + last);
    }
  }

  lemma {:induction false} OutInParts(s: Screen, a: string, b: string)
    requires ScreenOk(s)
    ensures OutAll(s, a + b) == OutAll(OutAll(s, a), b)
    decreases |b|
  {
    if b == "" {
      assert a + b == a;
    } else {
      var n := |b| - 1;
      assert (a + b)[..|a + b| - 1] == a + b[..n];
      OutInParts(s, a, b[..n]);
    }
  }

  /** `line` stands on the screen right before the cursor. */
  predicate Shows(s: Screen, line: string) {
    && |line| <= s.cursor && s.cursor <= |s.mem|
    && forall i :: 0 <= i < |line| ==> s.mem[s.cursor - |line| + i] == Cell(line[i], DEFAULT_CHAR_COLOR)
  }

  /** One key on top of a line that is on the screen. */
  lemma ShowsOne(s: Screen, line: string, ch: char)
    requires ScreenOk(s) && Shows(s, line) && s.original + |line| <= s.cursor
    requires ch != '\n' && s.cursor + 1 < s.original + LIMIT && (ch == BACKSPACE ==> line != "")
    ensures var t, l := Out(s, ch), if ch == BACKSPACE then line[..|line| - 1] else line + [ch];
            Shows(t, l) && t.cursor == s.cursor - |line| + |l| && t.cursor <= s.cursor + 1
  {
    var p := Put(s, ch);
    assert Out(s, ch).mem == p.mem && Out(s, ch).cursor == p.cursor;
  }

  lemma OutOne(s: Screen, text: string, ch: char)
    requires ScreenOk(s)
    ensures OutAll(s, text + [ch]) == Out(OutAll(s, text), ch)
  {
    assert (text + [ch])[..|text|] == text;
  }

  /** The echo keeps the edited line on the screen, as long as the console has room for the keys. */
  lemma {:induction false} EchoShows(s: Screen, line: string, keys: string)
    requires ScreenOk(s) && Shows(s, line) && s.original + |line| <= s.cursor
    requires '\n' !in keys && s.cursor + |keys| < s.original + LIMIT
    ensures var t := OutAll(s, Echoed(line, keys));
            && Shows(t, Edited(line, keys)) && t.cursor == s.cursor - |line| + |Edited(line, keys)|
            && t.cursor <= s.cursor + |keys|
    decreases |keys|
  {
    if keys != "" {
      var n := |keys| - 1;
      var ch, before := keys[n], keys[..n];
      EchoShows(s, line, before);
      var echo, l := Echoed(line, before), Edited(line, before);
      if ch == BACKSPACE && l == "" {
        assert echo + "" == echo;
      } else {
        OutOne(s, echo, ch);
        ShowsOne(OutAll(s, echo), l, ch);
      }
    }
  }

  // ----- the queue and the terminal

  /** A key as `tty_input` gets it: a character, or one of the extended keys. */
  datatype Key = Plain(ch: char) | Enter | Erase | Extended

  /** The character that goes into the queue; none for the other extended keys. */
  function Queued(key: Key): string {
    match key
    case Plain(ch) => [ch]
    case Enter => "\n"
    case Erase => [BACKSPACE]
    case Extended => ""
  }

  lemma Moved(a: string, ch: char, b: string)
    ensures a + ([ch] + b) == (a + [ch]) + b
  {
  }

  /** The place of the first newline. */
  function LineEnd(q: string): (n: nat)
    ensures n <= |q| && '\n' !in q[..n] && (n < |q| ==> q[n] == '\n')
  {
    if q == "" || q[0] == '\n' then 0 else 1 + LineEnd(q[1..])
  }

  lemma {:induction false} LineEndAt(q: string, i: nat)
    requires i < |q| && q[i] == '\n' && '\n' !in q[..i]
    ensures LineEnd(q) == i
    decreases i
  {
    if i > 0 {
      assert q[..i][0] == q[0];
      assert q[1..][..i - 1] == q[..i][1..];
      LineEndAt(q[1..], i - 1);
    }
  }

  lemma LineParts(q: string, line: string, rest: string)
    requires '\n' !in line && q == line + (['\n'] + rest)
    ensures LineEnd(q) == |line| < |q| && q[..|line|] == line && q[|line| + 1..] == rest && '\n' in q
  {
    assert q[..|line|] == line && q[|line|] == '\n';
    LineEndAt(q, |line|);
  }

  function Slot(tail: int, i: int): int { if tail + i < TTY_IN_BYTES then tail + i else tail + i - TTY_IN_BYTES }

  /** `n` places of the ring from `tail` on. */
  function Ring(buf: string, tail: int, n: int): (q: string)
    requires |buf| == TTY_IN_BYTES && 0 <= tail < TTY_IN_BYTES && 0 <= n <= TTY_IN_BYTES
    ensures |q| == n && forall i :: 0 <= i < n ==> q[i] == buf[Slot(tail, i)]
  {
    seq(n, i requires 0 <= i < n => buf[Slot(tail, i)])
  }

  lemma RingPush(buf: string, tail: int, n: int, ch: char)
    requires |buf| == TTY_IN_BYTES && 0 <= tail < TTY_IN_BYTES && 0 <= n < TTY_IN_BYTES
    ensures Ring(buf[Slot(tail, n) := ch], tail, n + 1) == Ring(buf, tail, n) + [ch]
  {
  }

  lemma RingPop(buf: string, tail: int, n: int)
    requires |buf| == TTY_IN_BYTES && 0 <= tail < TTY_IN_BYTES && 0 < n <= TTY_IN_BYTES
    ensures Ring(buf, tail, n) == [buf[tail]] + Ring(buf, Slot(tail, 1), n - 1)
  {
  }

  class Tty {
    const inBuf: array<char>
    var head: int
    var tail: int
    var count: int
    const original: int
    var start: int
    var cursor: int
    const vmem: array<Cell>

    ghost function View(): Screen
      reads this, vmem
    {
      Screen(start, original, cursor, vmem[..])
    }

    ghost predicate Valid()
      reads this, inBuf, vmem
    {
      && inBuf.Length == TTY_IN_BYTES && vmem.Length == CELLS
      && 0 <= head < TTY_IN_BYTES && 0 <= tail < TTY_IN_BYTES && 0 <= count <= TTY_IN_BYTES
      && head == Slot(tail, count) && ScreenOk(View())
    }

    /** The keys waiting, oldest first. */
    ghost function Waiting(): string
      requires inBuf.Length == TTY_IN_BYTES && 0 <= tail < TTY_IN_BYTES && 0 <= count <= TTY_IN_BYTES
      reads this, inBuf
    {
      Ring(inBuf[..], tail, count)
    }

    /** `tty_create` on the video memory of the machine. */
    constructor (id: int, memory: array<Cell>)
      requires 0 <= id < TTY_NUM && memory.Length == CELLS
      ensures Valid() && fresh(inBuf) && vmem == memory && Waiting() == ""
      ensures original == id * LIMIT && start == original && cursor == original
    {
      inBuf := new char[TTY_IN_BYTES](_ => '\0');
      head, tail, count := 0, 0, 0;
      original, start, cursor := id * LIMIT, id * LIMIT, id * LIMIT;
      vmem := memory;
    }

    /** A key goes to the end of the queue, or is lost when the queue is full. */
    method Input(key: Key)
      requires Valid()
      modifies this`head, this`count, inBuf
      ensures Valid() && View() == old(View())
      ensures Waiting() == if old(count) < TTY_IN_BYTES then old(Waiting()) + Queued(key) else old(Waiting())
    {
      if key.Extended? { return; }
      var ch := match key case Plain(c) => c case Enter => '\n' case Erase => BACKSPACE;
      if count < TTY_IN_BYTES {
        RingPush(inBuf[..], tail, count, ch);
        inBuf[head] := ch;
        head := head + 1;
        if head == TTY_IN_BYTES { head := 0; }
        count := count + 1;
      }
    }

    method Take() returns (ch: char)
      requires Valid() && count > 0
      modifies this`tail, this`count
      ensures Valid() && View() == old(View())
      ensures old(Waiting()) == [ch] + Waiting()
    {
      RingPop(inBuf[..], tail, count);
      ch := inBuf[tail];
      tail := tail + 1;
      if tail == TTY_IN_BYTES { tail := 0; }
      count := count - 1;
    }

    /** The character itself, before the window follows the cursor. */
    method PutChar(ch: char)
      requires Valid()
      modifies this`cursor, vmem
      ensures View() == Put(old(View()), ch)
    {
      if ch == '\n' {
        if cursor < original + LIMIT - SCREEN_WIDTH {
          cursor := original + SCREEN_WIDTH * ((cursor - original) / SCREEN_WIDTH + 1);
        }
      } else if ch == BACKSPACE {
        if cursor > original {
          cursor := cursor - 1;
          vmem[cursor] := Cell(' ', DEFAULT_CHAR_COLOR);
        }
      } else {
        if cursor < original + LIMIT - 1 {
          vmem[cursor] := Cell(ch, DEFAULT_CHAR_COLOR);
          cursor := cursor + 1;
        }
      }
    }

    method ScrollDown()
      modifies this`start
      ensures start == if old(start) + SCREEN_SIZE < original + LIMIT then old(start) + SCREEN_WIDTH else old(start)
    {
      if start + SCREEN_SIZE < original + LIMIT {
        start := start + SCREEN_WIDTH;
      }
    }

    /** `console_out_char`. */
    method OutChar(ch: char)
      requires Valid()
      modifies this`cursor, this`start, vmem
      ensures Valid() && Waiting() == old(Waiting()) && View() == Out(old(View()), ch)
    {
      ghost var s := View();
      PutChar(ch);
      ghost var p := Put(s, ch);
      assert p.cursor < p.original + LIMIT;
      while cursor >= start + SCREEN_SIZE
        invariant View() == p.(start := start) && Settled(View()) == Settled(p)
        decreases cursor - start
      {
        ScrollDown();
      }
      assert Settled(View()) == View();
    }

    /** `tty_output`: one key from the queue to the console. */
    method Output()
      requires Valid()
      modifies this, vmem
      ensures Valid()
      ensures if old(Waiting()) == "" then Waiting() == "" && View() == old(View())
              else Waiting() == old(Waiting())[1..] && View() == Out(old(View()), old(Waiting())[0])
    {
      if count != 0 {
        var ch := Take();
        OutChar(ch);
      }
    }

    /** `tty_write`. */
    method Write(text: string)
      requires Valid()
      modifies this`cursor, this`start, vmem
      ensures Valid() && Waiting() == old(Waiting()) && View() == OutAll(old(View()), text)
    {
      ghost var s := View();
      for i := 0 to |text|
        invariant Valid() && Waiting() == old(Waiting()) && View() == OutAll(s, text[..i])
      {
        OutChar(text[i]);
        assert text[..i + 1][..i] == text[..i];
      }
      assert text[..|text|] == text;
    }

    /** What `do_read` does with a key other than a newline. */
    method Echo(begun: string, ch: char) returns (line: string)
      requires Valid()
      modifies this`cursor, this`start, vmem
      ensures Valid() && Waiting() == old(Waiting())
      ensures line == Typed(begun, ch)
      ensures View() == if ch == BACKSPACE && begun == "" then old(View()) else Out(old(View()), ch)
    {
      line := begun;
      if ch == BACKSPACE {
        if |line| > 0 {
          line := line[..|line| - 1];
          OutChar(ch);
        }
      } else {
        line := line + [ch];
        OutChar(ch);
      }
    }

    /** `do_read` on the keys that wait, going on from a line begun before: up to the first
        newline, or all of them when the line is not finished. */
    method ReadLine(begun: string) returns (line: string, done: bool)
      requires Valid()
      modifies this, vmem
      ensures Valid()
      ensures done <==> '\n' in old(Waiting())
      ensures var q := old(Waiting());
              if done then
                var n := LineEnd(q);
                && n < |q| && line == Edited(begun, q[..n]) && Waiting() == q[n + 1..]
                && View() == OutAll(old(View()), Echoed(begun, q[..n]) + "\n")
              else
                line == Edited(begun, q) && Waiting() == "" && View() == OutAll(old(View()), Echoed(begun, q))
    {
      ghost var s, q := View(), Waiting();
      ghost var typed := "";
      line := begun;
      while count != 0
        invariant Valid() && q == typed + Waiting() && '\n' !in typed
        invariant line == Edited(begun, typed) && View() == OutAll(s, Echoed(begun, typed))
        decreases count
      {
        var ch := Take();
        KeyMore(begun, typed, ch);
        OutOne(s, Echoed(begun, typed), ch);
        if ch == '\n' {
          LineParts(q, typed, Waiting());
          OutChar(ch);
          return line, true;
        }
        line := Echo(line, ch);
        Moved(typed, ch, Waiting());
        typed := typed + [ch];
      }
      assert Waiting() == "" && typed + "" == typed;
      done := false;
    }
  }
}
