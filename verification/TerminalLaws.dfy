/** Typing a line, from the keys to the text that is read and the cells on the screen. */
module TerminalLaws {
  import opened Terminal

  const BLANK := Cell(' ', DEFAULT_CHAR_COLOR)

  // ----- the screen

  /** Nothing stands in the console's cells from the cursor on. */
  predicate BlankAhead(s: Screen) {
    && |s.mem| == CELLS && s.original + LIMIT <= CELLS
    && forall i :: 0 <= i && s.cursor <= i < s.original + LIMIT ==> s.mem[i] == BLANK
  }

  lemma PutBlank(s: Screen, ch: char)
    requires ScreenOk(s) && BlankAhead(s)
    ensures BlankAhead(Put(s, ch)) && Put(s, ch).original == s.original
  {
    assert ch == '\n' ==> Put(s, ch).mem == s.mem && Put(s, ch).cursor >= s.cursor by { NewlineMoves(s); }
  }

  /** Whatever is written, backspaces included, nothing is left standing behind the cursor. */
  lemma {:induction false} StaysBlank(s: Screen, text: string)
    requires ScreenOk(s) && BlankAhead(s)
    ensures BlankAhead(OutAll(s, text))
    decreases |text|
  {
    if text != "" {
      var n := |text| - 1;
      StaysBlank(s, text[..n]);
      PutBlank(OutAll(s, text[..n]), text[n]);
    }
  }

  lemma TwoOut(s: Screen, a: char, b: char)
    requires ScreenOk(s)
    ensures OutAll(s, [a, b]) == Out(Out(s, a), b)
  {
    assert [a, b] == [a] + [b] && [a] == "" + [a];
    OutOne(s, "", a);
    OutOne(s, [a], b);
  }

  /** What is written, apart from the window. */
  lemma Written(s: Screen, ch: char)
    requires ScreenOk(s)
    ensures Out(s, ch).mem == Put(s, ch).mem && Out(s, ch).cursor == Put(s, ch).cursor
  {
  }

  /** A backspace takes back the character before it, cursor and all, and leaves a blank cell,
      if and only if the character had room; at the end of the console it takes back the
      character before that one. */
  lemma EraseTakesBack(s: Screen, ch: char)
    requires ScreenOk(s) && ch != '\n' && ch != BACKSPACE
    ensures var t := OutAll(s, [ch, BACKSPACE]);
            && (t.cursor == s.cursor <==> s.cursor < s.original + LIMIT - 1)
            && t.mem == s.mem[t.cursor := BLANK]
            && t.cursor == if s.cursor < s.original + LIMIT - 1 then s.cursor else s.cursor - 1
  {
    TwoOut(s, ch, BACKSPACE);
    Written(s, ch);
    Written(Out(s, ch), BACKSPACE);
  }

  // ----- the keys

  /** Keys that are no newline or backspace in disguise. */
  predicate Ordinary(key: Key) { key.Plain? ==> key.ch != '\n' && key.ch != BACKSPACE }

  /** The line that keys are meant to leave: characters are added, Erase takes the last one
      back, and extended keys do nothing. */
  function Meant(keys: seq<Key>): string {
    if keys == [] then ""
    else
      var line := Meant(keys[..|keys| - 1]);
      match keys[|keys| - 1]
      case Plain(ch) => line + [ch]
      case Erase => if line == "" then "" else line[..|line| - 1]
      case _ => line
  }

  function AllQueued(keys: seq<Key>): string {
    if keys == [] then "" else AllQueued(keys[..|keys| - 1]) + Queued(keys[|keys| - 1])
  }

  /** The line editor does what the keys mean. */
  lemma {:induction false} EditsMeant(keys: seq<Key>)
    requires forall i :: 0 <= i < |keys| ==> Ordinary(keys[i]) && keys[i] != Enter
    ensures Edited("", AllQueued(keys)) == Meant(keys) && '\n' !in AllQueued(keys) && |AllQueued(keys)| <= |keys|
    decreases |keys|
  {
    if keys != [] {
      var n := |keys| - 1;
      var before := AllQueued(keys[..n]);
      EditsMeant(keys[..n]);
      if keys[n].Extended? {
        assert before + "" == before;
      } else {
        var ch := Queued(keys[n])[0];
        KeyMore("", before, ch);
        assert Queued(keys[n]) == [ch];
      }
    }
  }

  lemma KeysMore(keys: seq<Key>, i: nat)
    requires i < |keys|
    ensures AllQueued(keys[..i + 1]) == AllQueued(keys[..i]) + Queued(keys[i])
    ensures |AllQueued(keys[..i])| <= i ==> |AllQueued(keys[..i + 1])| <= i + 1
  {
    assert keys[..i + 1][..i] == keys[..i];
  }

  /** Every key of a line goes into the queue, which has room for them and the Enter behind. */
  method TypeKeys(tty: Tty, keys: seq<Key>)
    requires tty.Valid() && tty.Waiting() == "" && |keys| < TTY_IN_BYTES
    modifies tty`head, tty`count, tty.inBuf
    ensures tty.Valid() && tty.View() == old(tty.View()) && tty.Waiting() == AllQueued(keys) + "\n"
  {
    for i := 0 to |keys|
      invariant tty.Valid() && tty.View() == old(tty.View())
      invariant tty.Waiting() == AllQueued(keys[..i]) && |tty.Waiting()| <= i
    {
      assert tty.count == |tty.Waiting()|;
      tty.Input(keys[i]);
      KeysMore(keys, i);
    }
    assert keys[..|keys|] == keys;
    assert tty.count == |tty.Waiting()|;
    tty.Input(Enter);
  }

  lemma LineThenEnd(q: string)
    requires '\n' !in q
    ensures LineEnd(q + "\n") == |q| && (q + "\n")[..|q|] == q && (q + "\n")[|q| + 1..] == ""
  {
    assert (q + "\n")[..|q|] == q;
    LineEndAt(q + "\n", |q|);
  }

  /** On `t` the cells from the cursor of `s` on hold `line`, and are blank behind it. */
  predicate HoldsLine(s: Screen, t: Screen, line: string) {
    && |t.mem| == CELLS && 0 <= s.cursor && s.cursor + |line| <= s.original + LIMIT <= CELLS
    && (forall i :: 0 <= i < |line| ==> t.mem[s.cursor + i] == Cell(line[i], DEFAULT_CHAR_COLOR))
    && (forall i :: s.cursor + |line| <= i < s.original + LIMIT ==> t.mem[i] == BLANK)
  }

  lemma HoldsFrom(s: Screen, u: Screen, t: Screen, line: string)
    requires Shows(u, line) && BlankAhead(u) && t.mem == u.mem
    requires u.original == s.original && 0 <= s.cursor && u.cursor == s.cursor + |line| <= s.original + LIMIT
    ensures HoldsLine(s, t, line)
  {
    forall i | 0 <= i < |line| ensures t.mem[s.cursor + i] == Cell(line[i], DEFAULT_CHAR_COLOR) {
      assert u.cursor - |line| + i == s.cursor + i;
    }
  }

  lemma LineShown(s: Screen, q: string)
    requires ScreenOk(s) && BlankAhead(s) && '\n' !in q && s.cursor + |q| < s.original + LIMIT
    ensures HoldsLine(s, OutAll(s, Echoed("", q) + "\n"), Edited("", q))
  {
    var line, u := Edited("", q), OutAll(s, Echoed("", q));
    EchoShows(s, "", q);
    StaysBlank(s, Echoed("", q));
    OutOne(s, Echoed("", q), '\n');
    NewlineMoves(u);
    HoldsFrom(s, u, Out(u, '\n'), line);
  }

  /** The whole of a queued line is read at once. */
  method ReadQueued(tty: Tty, ghost q: string) returns (line: string, done: bool)
    requires tty.Valid() && tty.Waiting() == q + "\n" && '\n' !in q
    modifies tty, tty.vmem
    ensures tty.Valid() && done && line == Edited("", q) && tty.Waiting() == ""
    ensures tty.View() == OutAll(old(tty.View()), Echoed("", q) + "\n")
  {
    LineThenEnd(q);
    line, done := tty.ReadLine("");
  }

  /** A line typed on an empty queue and ended by Enter is read as it was meant. On a console
      with room for the keys and nothing behind the cursor, the cells from there on then hold
      the line and are blank behind it, whatever was typed and taken back in between. */
  method TypeLine(tty: Tty, keys: seq<Key>) returns (line: string, done: bool)
    requires tty.Valid() && tty.Waiting() == "" && |keys| < TTY_IN_BYTES
    requires forall i :: 0 <= i < |keys| ==> Ordinary(keys[i]) && keys[i] != Enter
    modifies tty, tty.inBuf, tty.vmem
    ensures tty.Valid() && done && line == Meant(keys) && tty.Waiting() == ""
    ensures old(BlankAhead(tty.View()) && tty.cursor + |keys| < tty.original + LIMIT) ==>
              HoldsLine(old(tty.View()), tty.View(), Meant(keys))
  {
    ghost var s := tty.View();
    EditsMeant(keys);
    TypeKeys(tty, keys);
    line, done := ReadQueued(tty, AllQueued(keys));
    if BlankAhead(s) && s.cursor + |keys| < s.original + LIMIT { LineShown(s, AllQueued(keys)); }
  }
}
