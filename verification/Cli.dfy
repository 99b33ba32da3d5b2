/** The command line editor, against a zipper and a terminal. */
module Cli {

  const MAX_LINE := 128
  const ESC := '\U{1B}'
  const DEL := '\U{7F}'
  const BS := '\U{08}'
  const NUL := '\0'

  predicate Printable(c: char) { ' ' <= c <= '~' }

  ghost predicate AllPrintable(s: string) { forall i :: 0 <= i < |s| ==> Printable(s[i]) }

  // ---------------------------------------------------------------------------
  // What the editor means

  /** The line around the cursor, and how much of an escape sequence has come in. */
  datatype Zipper = Zipper(left: string, right: string, esc: int)

  predicate Submits(z: Zipper, c: char) {
    z.esc != 1 && z.esc != 2 && (c == '\r' || c == '\n')
  }

  predicate Overflows(z: Zipper, c: char) {
    z.esc != 1 && z.esc != 2 && Printable(c) && |z.left| + |z.right| >= MAX_LINE - 1
  }

  function Step(z: Zipper, c: char): Zipper {
    var n := |z.left|;
    if z.esc == 1 then z.(esc := if c == '[' then 2 else 0)
    else if z.esc == 2 then
      if c == 'D' && n > 0 then Zipper(z.left[..n - 1], [z.left[n - 1]] + z.right, 0)
      else if c == 'C' && z.right != [] then Zipper(z.left + [z.right[0]], z.right[1..], 0)
      else z.(esc := 0)
    else if c == ESC then z.(esc := 1)
    else if c == '\r' || c == '\n' then Zipper([], [], z.esc)
    else if c == BS || c == DEL then
      if n > 0 then z.(left := z.left[..n - 1]) else z
    else if Printable(c) && !Overflows(z, c) then z.(left := z.left + [c])
    else z
  }

  /** `n` times "cursor left". */
  function Lefts(n: nat): string {
    if n == 0 then [] else [ESC, '[', 'D'] + Lefts(n - 1)
  }

  /** What the editor sends back for a key, other than the output of a command. */
  function Echo(z: Zipper, c: char): string {
    if z.esc == 1 then []
    else if z.esc == 2 then
      if c == 'D' && z.left != [] then [ESC, '[', 'D']
      else if c == 'C' && z.right != [] then [ESC, '[', 'C']
      else []
    else if c == ESC then []
    else if c == '\r' || c == '\n' then "\r\n"
    else if c == BS || c == DEL then
      if z.left != [] then [BS] + z.right + [' '] + Lefts(|z.right| + 1) else []
    else if Printable(c) then
      if Overflows(z, c) then "ERROR: BUFFER FULL\r\n" else [c] + z.right + Lefts(|z.right|)
    else []
  }

  // ---------------------------------------------------------------------------
  // A terminal: the row the cursor is on, the cursor column, and a parser for CSI C and D

  datatype Terminal = Terminal(cells: string, col: nat, esc: int)

  /** One byte arrives: a printable one is written at the cursor; backspace and CUB go left;
      CUF goes right; CR goes to column 0; LF goes down, to an empty row. */
  function Feed(t: Terminal, c: char): Terminal {
    if t.esc == 1 then t.(esc := if c == '[' then 2 else 0)
    else if t.esc == 2 then
      if c == 'D' then t.(col := if t.col > 0 then t.col - 1 else 0, esc := 0)
      else if c == 'C' then t.(col := t.col + 1, esc := 0)
      else t.(esc := 0)
    else if c == ESC then t.(esc := 1)
    else if c == BS then t.(col := if t.col > 0 then t.col - 1 else 0)
    else if c == '\r' then t.(col := 0)
    else if c == '\n' then t.(cells := [])
    else if Printable(c) && t.col <= |t.cells| then
      Terminal(t.cells[..t.col] + [c] + (if t.col < |t.cells| then t.cells[t.col + 1..] else []), t.col + 1, 0)
    else t
  }

  function FeedAll(t: Terminal, s: string): Terminal
    decreases |s|
  {
    if s == [] then t else FeedAll(Feed(t, s[0]), s[1..])
  }

  /** The row shows the prompt, then the line, then blanks; the cursor is at its place. */
  ghost predicate Shows(t: Terminal, prompt: string, left: string, right: string) {
    && t.esc == 0 && t.col == |prompt| + |left|
    && exists blanks: nat :: t.cells == prompt + left + right + Blank(blanks)
  }

  function Blank(n: nat): (r: string)
    ensures |r| == n && forall i :: 0 <= i < n ==> r[i] == ' '
  {
    seq(n, _ => ' ')
  }

  // ---------------------------------------------------------------------------
  // What the terminal does with the echoes

  lemma {:induction false} FeedConcat(t: Terminal, a: string, b: string)
    ensures FeedAll(t, a + b) == FeedAll(FeedAll(t, a), b)
    decreases |a|
  {
    if a == [] {
      assert a + b == b;
    } else {
      assert (a + b)[1..] == a[1..] + b;
      FeedConcat(Feed(t, a[0]), a[1..], b);
    }
  }

  /** Text is written over what was there. */
  lemma {:induction false} FeedText(t: Terminal, head: string, s: string, over: string, tail: string)
    requires t == Terminal(head + over + tail, |head|, 0) && AllPrintable(s)
    requires |over| == |s| || (|over| < |s| && tail == [])
    ensures FeedAll(t, s) == Terminal(head + s + tail, |head| + |s|, 0)
    decreases |s|
  {
    if s == [] {
      assert head + over + tail == head + s + tail;
    } else {
      var over' := if over == [] then [] else over[1..];
      var t' := Feed(t, s[0]);
      assert t'.cells == (head + [s[0]]) + over' + tail;
      FeedText(t', head + [s[0]], s[1..], over', tail);
      assert head + s + tail == (head + [s[0]]) + s[1..] + tail;
    }
  }

  lemma {:induction false} FeedLefts(t: Terminal, n: nat)
    requires t.esc == 0 && n <= t.col
    ensures FeedAll(t, Lefts(n)) == t.(col := t.col - n)
    decreases n
  {
    if n > 0 {
      FeedConcat(t, [ESC, '[', 'D'], Lefts(n - 1));
      FeedArrow(t, 'D');
      FeedLefts(t.(col := t.col - 1), n - 1);
    }
  }

  lemma FeedArrow(t: Terminal, c: char)
    requires t.esc == 0 && (c == 'D' || c == 'C')
    ensures FeedAll(t, [ESC, '[', c]) == t.(col := if c == 'C' then t.col + 1 else if t.col > 0 then t.col - 1 else 0)
  {
    var s: string := [ESC, '[', c];
    assert s[1..] == ['[', c] && s[1..][1..] == [c] && s[1..][1..][1..] == [];
    assert FeedAll(t, s) == FeedAll(Feed(t, ESC), ['[', c]);
    assert FeedAll(Feed(t, ESC), ['[', c]) == FeedAll(Feed(Feed(t, ESC), '['), [c]);
    assert FeedAll(Feed(Feed(t, ESC), '['), [c]) == Feed(Feed(Feed(t, ESC), '['), c);
  }

  /** Typing: the new character and the rest of the line, then back. */
  lemma TypeShows(t: Terminal, prompt: string, left: string, right: string, c: char)
    requires Shows(t, prompt, left, right) && Printable(c) && AllPrintable(right)
    ensures Shows(FeedAll(t, [c] + right + Lefts(|right|)), prompt, left + [c], right)
  {
    var n: nat :| t.cells == prompt + left + right + Blank(n);
    var head, s := prompt + left, [c] + right;
    var over, tail := if n > 0 then right + [' '] else right, Blank(if n > 0 then n - 1 else 0);
    assert t.cells == head + over + tail by {
      if n > 0 { assert Blank(n) == [' '] + Blank(n - 1); } else { assert Blank(0) == []; }
    }
    FeedText(t, head, s, over, tail);
    FeedConcat(t, s, Lefts(|right|));
    FeedLefts(FeedAll(t, s), |right|);
    assert head + s + tail == prompt + (left + [c]) + right + tail;
  }

  /** Backspace: one back, the rest of the line, a blank over its last character, then back. */
  lemma EraseShows(t: Terminal, prompt: string, left: string, right: string)
    requires Shows(t, prompt, left, right) && left != [] && AllPrintable(right)
    ensures Shows(FeedAll(t, [BS] + right + [' '] + Lefts(|right| + 1)), prompt, left[..|left| - 1], right)
  {
    var n: nat :| t.cells == prompt + left + right + Blank(n);
    var short := left[..|left| - 1];
    var head, s := prompt + short, right + [' '];
    var over := [left[|left| - 1]] + right;
    var back := t.(col := t.col - 1);
    assert t.cells == head + over + Blank(n);
    FeedConcat(t, [BS], s + Lefts(|right| + 1));
    assert [BS] + right + [' '] + Lefts(|right| + 1) == [BS] + (s + Lefts(|right| + 1));
    assert FeedAll(t, [BS]) == back;
    FeedText(back, head, s, over, Blank(n));
    FeedConcat(back, s, Lefts(|right| + 1));
    FeedLefts(FeedAll(back, s), |right| + 1);
    assert Blank(n + 1) == [' '] + Blank(n);
    assert head + s + Blank(n) == prompt + short + right + Blank(n + 1);
  }

  /** Arrows: the same line, the cursor one further. */
  lemma ArrowShows(t: Terminal, prompt: string, z: Zipper, c: char)
    requires Shows(t, prompt, z.left, z.right) && z.esc == 2
    ensures var z' := Step(z, c); Shows(FeedAll(t, Echo(z, c)), prompt, z'.left, z'.right)
  {
    var n: nat :| t.cells == prompt + z.left + z.right + Blank(n);
    var z' := Step(z, c);
    if (c == 'D' && z.left != []) || (c == 'C' && z.right != []) {
      FeedArrow(t, c);
      SameLine(prompt, z.left, z.right, z'.left, z'.right);
      assert t.cells == prompt + z'.left + z'.right + Blank(n);
    }
  }

  lemma SameLine(prompt: string, a: string, b: string, c: string, d: string)
    requires a + b == c + d
    ensures prompt + a + b == prompt + c + d
  {
    assert prompt + a + b == prompt + (a + b);
  }

  lemma StepPrintable(z: Zipper, c: char)
    requires AllPrintable(z.left) && AllPrintable(z.right)
    ensures AllPrintable(Step(z, c).left) && AllPrintable(Step(z, c).right)
  {
  }

  /** After one editing key the row still shows the line. */
  lemma EditShows(t: Terminal, prompt: string, z: Zipper, c: char)
    requires Shows(t, prompt, z.left, z.right) && AllPrintable(z.right) && !Submits(z, c) && !Overflows(z, c)
    ensures var z' := Step(z, c); Shows(FeedAll(t, Echo(z, c)), prompt, z'.left, z'.right)
  {
    if z.esc == 2 {
      ArrowShows(t, prompt, z, c);
    } else if z.esc != 1 && c != ESC {
      if c == BS || c == DEL {
        if z.left != [] { EraseShows(t, prompt, z.left, z.right); }
      } else if Printable(c) {
        TypeShows(t, prompt, z.left, z.right, c);
      }
    }
  }

  // ---------------------------------------------------------------------------
  // Keys that leave the row

  const FRESH_ROW := Terminal([], 0, 0)

  lemma {:induction false} FeedPlain(t: Terminal, s: string)
    requires t.esc == 0 && AllPrintable(s)
    ensures FeedAll(t, s).esc == 0
    decreases |s|
  {
    if s != [] { FeedPlain(Feed(t, s[0]), s[1..]); }
  }

  lemma NewRow(t: Terminal, s: string)
    requires t.esc == 0 && AllPrintable(s)
    ensures FeedAll(t, s + "\r\n") == FRESH_ROW
  {
    FeedPlain(t, s);
    var u := FeedAll(t, s);
    FeedConcat(t, s, "\r\n");
    assert FeedAll(u, "\r\n") == FeedAll(Feed(u, '\r'), "\n") == Feed(Feed(u, '\r'), '\n');
  }

  /** A key, and what the command writes if the key submits one. */
  datatype Press = Press(key: char, output: string)

  /** All bytes sent back for a key: a submitted line is followed by the output of the command
      and a new prompt. */
  function Sent(z: Zipper, p: Press, prompt: string): string {
    if Submits(z, p.key) then "\r\n" + (p.output + prompt) else Echo(z, p.key)
  }

  /** The output ends its last row, as the messages of `cli_process_cmd` do. */
  predicate EndsRow(output: string) { FeedAll(FRESH_ROW, output) == FRESH_ROW }

  lemma SubmitShows(t: Terminal, prompt: string, z: Zipper, p: Press)
    requires t.esc == 0 && AllPrintable(prompt) && Submits(z, p.key) && EndsRow(p.output)
    ensures Shows(FeedAll(t, Sent(z, p, prompt)), prompt, [], [])
  {
    NewRow(t, []);
    assert [] + "\r\n" == "\r\n";
    FeedConcat(t, "\r\n", p.output + prompt);
    FeedConcat(FRESH_ROW, p.output, prompt);
    assert [] + [] + [] == FRESH_ROW.cells;
    FeedText(FRESH_ROW, [], prompt, [], []);
    assert [] + prompt + [] == prompt + [] + [] + Blank(0);
  }

  /** The error message leaves an empty row where the full line should be. */
  lemma OverflowHides(t: Terminal, prompt: string, z: Zipper, c: char)
    requires t.esc == 0 && Overflows(z, c)
    ensures Step(z, c) == z && !Shows(FeedAll(t, Echo(z, c)), prompt, z.left, z.right)
  {
    var text := "ERROR: BUFFER FULL";
    assert Echo(z, c) == text + "\r\n";
    NewRow(t, text);
  }

  /** One more `x` into a line of 127. */
  lemma FullLineHidden()
    ensures var z := Zipper(seq(MAX_LINE - 1, _ => 'x'), [], 0);
      var t := Terminal("> " + z.left, |z.left| + 2, 0);
      Shows(t, "> ", z.left, z.right) && !Shows(FeedAll(t, Echo(z, 'x')), "> ", z.left, z.right)
  {
    var z := Zipper(seq(MAX_LINE - 1, _ => 'x'), [], 0);
    var t := Terminal("> " + z.left, |z.left| + 2, 0);
    assert t.cells == "> " + z.left + z.right + Blank(0);
    OverflowHides(t, "> ", z, 'x');
  }

  /** After one key the row shows the line if and only if the key did not overflow it. */
  lemma StepShowsIff(t: Terminal, prompt: string, z: Zipper, p: Press)
    requires Shows(t, prompt, z.left, z.right) && AllPrintable(prompt) && AllPrintable(z.right) && EndsRow(p.output)
    ensures var z' := Step(z, p.key); Shows(FeedAll(t, Sent(z, p, prompt)), prompt, z'.left, z'.right) <==> !Overflows(z, p.key)
  {
    if Submits(z, p.key) {
      SubmitShows(t, prompt, z, p);
    } else if Overflows(z, p.key) {
      OverflowHides(t, prompt, z, p.key);
    } else {
      EditShows(t, prompt, z, p.key);
    }
  }

  function Run(z: Zipper, keys: seq<Press>): Zipper
    decreases |keys|
  {
    if keys == [] then z else Step(Run(z, keys[..|keys| - 1]), keys[|keys| - 1].key)
  }

  function Output(z: Zipper, keys: seq<Press>, prompt: string): string
    decreases |keys|
  {
    if keys == [] then []
    else Output(z, keys[..|keys| - 1], prompt) + Sent(Run(z, keys[..|keys| - 1]), keys[|keys| - 1], prompt)
  }

  /** No key is typed into a full line. */
  predicate NeverFull(z: Zipper, keys: seq<Press>)
    decreases |keys|
  {
    keys == [] ||
    (var front := keys[..|keys| - 1];
     NeverFull(z, front) && !Overflows(Run(z, front), keys[|keys| - 1].key))
  }

  /** The row shows the line at the end and after every key before. */
  ghost predicate ShownThroughout(t: Terminal, prompt: string, z: Zipper, keys: seq<Press>)
    decreases |keys|
  {
    && Shows(FeedAll(t, Output(z, keys, prompt)), prompt, Run(z, keys).left, Run(z, keys).right)
    && (keys == [] || ShownThroughout(t, prompt, z, keys[..|keys| - 1]))
  }

  /** For every sequence of keys, submitted lines included, the bytes sent back keep the
      terminal showing the edited line with the cursor in its place if and only if no key is
      typed into a full line. */
  lemma {:induction false} AlwaysShowsIff(t: Terminal, prompt: string, z: Zipper, keys: seq<Press>)
    requires Shows(t, prompt, z.left, z.right) && AllPrintable(prompt) && AllPrintable(z.left) && AllPrintable(z.right)
    requires forall i :: 0 <= i < |keys| ==> EndsRow(keys[i].output)
    ensures ShownThroughout(t, prompt, z, keys) <==> NeverFull(z, keys)
    ensures AllPrintable(Run(z, keys).left) && AllPrintable(Run(z, keys).right)
    decreases |keys|
  {
    if keys != [] {
      var front, p := keys[..|keys| - 1], keys[|keys| - 1];
      AlwaysShowsIff(t, prompt, z, front);
      StepPrintable(Run(z, front), p.key);
      if ShownThroughout(t, prompt, z, front) {
        var u := FeedAll(t, Output(z, front, prompt));
        FeedConcat(t, Output(z, front, prompt), Sent(Run(z, front), p, prompt));
        assert Shows(u, prompt, Run(z, front).left, Run(z, front).right);
        StepShowsIff(u, prompt, Run(z, front), p);
      }
    }
  }

  // ---------------------------------------------------------------------------
  // The editor in place

  lemma PrintableParts(left: string, right: string, n: nat)
    requires AllPrintable(left + right) && n <= |left|
    ensures AllPrintable(left[..n] + right)
  {
    forall i | 0 <= i < n + |right|
      ensures Printable((left[..n] + right)[i])
    {
      assert (left[..n] + right)[i] == (left + right)[if i < n then i else i - n + |left|];
    }
  }

  lemma TypedParts(left: string, right: string, c: char)
    requires AllPrintable(left + right) && Printable(c)
    ensures AllPrintable(left + ([c] + right))
  {
    var s := left + ([c] + right);
    forall i | 0 <= i < |s|
      ensures Printable(s[i])
    {
      assert i < |left| ==> s[i] == (left + right)[i];
      assert i > |left| ==> s[i] == (left + right)[i - 1];
    }
  }

  /** The buffer with cells `c` to `i - 1` moved one to the left. */
  ghost function MovedLeft(b: string, c: int, i: int): string
    requires 0 < c <= i <= |b|
  {
    b[..c - 1] + b[c..i] + b[i - 1..]
  }

  lemma MoveLeftOne(b: string, c: int, i: int)
    requires 0 < c <= i < |b|
    ensures MovedLeft(b, c, i)[i] == b[i] && MovedLeft(b, c, i + 1) == MovedLeft(b, c, i)[i - 1 := b[i]]
  {
    assert b[c..i + 1] == b[c..i] + [b[i]];
    assert b[i - 1..] == [b[i - 1]] + b[i..];
  }

  lemma MovedLeftParts(b: string, c: int, n: int)
    requires 0 < c <= n <= |b|
    ensures var m := MovedLeft(b, c, n); |m| == |b| && m[..c - 1] == b[..c - 1] && m[c - 1..n - 1] == b[c..n]
  {
  }

  /** The buffer with cells `i` to `n - 1` moved one to the right. */
  ghost function MovedRight(b: string, i: int, n: int): string
    requires 0 <= i <= n < |b|
  {
    b[..i + 1] + b[i..n] + b[n + 1..]
  }

  lemma MoveRightOne(b: string, i: int, n: int)
    requires 0 < i <= n < |b|
    ensures MovedRight(b, i, n)[i - 1] == b[i - 1] && MovedRight(b, i - 1, n) == MovedRight(b, i, n)[i := b[i - 1]]
  {
    assert b[..i + 1] == b[..i] + [b[i]];
    assert b[i - 1..n] == [b[i - 1]] + b[i..n];
  }

  /** The line after the text from `i` on has moved right and `c` has been written at `i`. */
  lemma Squeezed(b: string, i: int, n: int, c: char)
    requires 0 <= i <= n < |b| - 1
    ensures var m := MovedRight(b, i, n)[i := c][n + 1 := NUL];
      m[..i] == b[..i] && m[i..n + 1] == [c] + b[i..n] && m[..n + 1] == b[..i] + ([c] + b[i..n])
  {
    var m := MovedRight(b, i, n)[i := c][n + 1 := NUL];
    assert m[i + 1..n + 1] == b[i..n];
    assert m[..n + 1] == m[..i] + ([m[i]] + m[i + 1..n + 1]);
  }

  /** The cursor moves over the character it is on. */
  lemma StepOver(b: string, i: int, n: int, c: char, right: string)
    requires 0 <= i <= n <= |b| && b[i..n] == [c] + right
    ensures i < n && b[..i + 1] == b[..i] + [c] && b[i + 1..n] == right
  {
    assert b[i] == b[i..n][0] == c;
    assert b[i + 1..n] == b[i..n][1..];
  }

  class LineEditor {
    const buffer: array<char>
    var linePos: int
    var cursorPos: int
    var esc: int

    /** The line fits, leaves room for its terminator, and is printable text. */
    ghost predicate Valid()
      reads this, buffer
    {
      && buffer.Length == MAX_LINE && 0 <= cursorPos <= linePos <= MAX_LINE - 1
      && AllPrintable(buffer[..linePos])
    }

    ghost function View(): Zipper
      reads this, buffer
      requires Valid()
    {
      Zipper(buffer[..cursorPos], buffer[cursorPos..linePos], esc)
    }

    constructor ()
      ensures Valid() && View() == Zipper([], [], 0) && fresh(buffer)
    {
      buffer := new char[MAX_LINE](_ => NUL);
      linePos, cursorPos, esc := 0, 0, 0;
    }

    /** `cli_puts` of the buffer from `from` on: up to the terminator. */
    method Puts(from: int) returns (s: string)
      requires buffer.Length == MAX_LINE && 0 <= from <= linePos < MAX_LINE
      requires buffer[linePos] == NUL && AllPrintable(buffer[..linePos])
      ensures s == buffer[from..linePos]
    {
      s := [];
      var i := from;
      while buffer[i] != NUL
        invariant from <= i <= linePos && s == buffer[from..i]
        decreases linePos - i
      {
        assert i < linePos ==> buffer[..linePos][i] == buffer[i];
        s := s + [buffer[i]];
        i := i + 1;
      }
    }

    /** The loop that moves the cursor back. */
    method PutLefts(n: nat) returns (s: string)
      ensures s == Lefts(n)
    {
      s := [];
      var diff := n;
      while diff > 0
        invariant 0 <= diff <= n && s + Lefts(diff) == Lefts(n)
      {
        assert s + [ESC, '[', 'D'] + Lefts(diff - 1) == s + ([ESC, '[', 'D'] + Lefts(diff - 1));
        s := s + [ESC, '[', 'D'];
        diff := diff - 1;
      }
      assert s + [] == s;
    }

    /** The text from the cursor on moves one to the left. */
    method ShiftLeft()
      requires Valid() && cursorPos > 0
      modifies buffer
      ensures buffer[..] == MovedLeft(old(buffer[..]), cursorPos, linePos)
    {
      ghost var b := buffer[..];
      var i := cursorPos;
      assert MovedLeft(b, cursorPos, i) == b;
      while i < linePos
        invariant cursorPos <= i <= linePos && buffer[..] == MovedLeft(b, cursorPos, i)
      {
        MoveLeftOne(b, cursorPos, i);
        buffer[i - 1] := buffer[i];
        i := i + 1;
      }
    }

    /** The text from the cursor on moves one to the right. */
    method ShiftRight()
      requires Valid() && linePos < MAX_LINE - 1
      modifies buffer
      ensures buffer[..] == MovedRight(old(buffer[..]), cursorPos, linePos)
    {
      ghost var b := buffer[..];
      var i := linePos;
      assert MovedRight(b, i, linePos) == b;
      while i > cursorPos
        invariant cursorPos <= i <= linePos && buffer[..] == MovedRight(b, i, linePos)
      {
        MoveRightOne(b, i, linePos);
        buffer[i] := buffer[i - 1];
        i := i - 1;
      }
    }

    /** Backspace with something to erase. */
    method Erase() returns (echo: string)
      requires Valid() && cursorPos > 0
      modifies this`linePos, this`cursorPos, buffer
      ensures Valid() && View() == old(View()).(left := old(View()).left[..old(cursorPos) - 1])
      ensures echo == [BS] + old(View()).right + [' '] + Lefts(|old(View()).right| + 1)
    {
      ghost var left, right := buffer[..cursorPos], buffer[cursorPos..linePos];
      assert buffer[..linePos] == left + right;
      MovedLeftParts(buffer[..], cursorPos, linePos);
      ShiftLeft();
      linePos, cursorPos := linePos - 1, cursorPos - 1;
      buffer[linePos] := NUL;
      assert buffer[..linePos] == left[..cursorPos] + right;
      PrintableParts(left, right, cursorPos);
      var rest := Puts(cursorPos);
      var back := PutLefts(linePos - cursorPos + 1);
      echo := [BS] + rest + [' '] + back;
    }

    /** The character goes in at the cursor, and the line stays terminated. */
    method Squeeze(c: char)
      requires Valid() && Printable(c) && linePos < MAX_LINE - 1
      modifies this`linePos, buffer
      ensures Valid() && linePos == old(linePos) + 1 && buffer[linePos] == NUL
      ensures buffer[..cursorPos] == old(buffer[..cursorPos])
      ensures buffer[cursorPos..linePos] == [c] + old(buffer[cursorPos..linePos])
    {
      ghost var b, left, right := buffer[..], buffer[..cursorPos], buffer[cursorPos..linePos];
      assert buffer[..linePos] == left + right;
      Squeezed(b, cursorPos, linePos, c);
      ShiftRight();
      buffer[cursorPos] := c;
      linePos := linePos + 1;
      buffer[linePos] := NUL;
      assert buffer[..] == MovedRight(b, cursorPos, linePos - 1)[cursorPos := c][linePos := NUL];
      TypedParts(left, right, c);
    }

    /** A character typed in the middle of the line: the rest is printed again. */
    method TypeInside(c: char) returns (echo: string)
      requires Valid() && Printable(c) && linePos < MAX_LINE - 1 && cursorPos < linePos
      modifies this`linePos, this`cursorPos, buffer
      ensures Valid() && View() == old(View()).(left := old(View()).left + [c])
      ensures echo == [c] + old(View()).right + Lefts(|old(View()).right|)
    {
      ghost var right := buffer[cursorPos..linePos];
      Squeeze(c);
      var rest := Puts(cursorPos);
      StepOver(buffer[..], cursorPos, linePos, c, right);
      cursorPos := cursorPos + 1;
      var back := PutLefts(linePos - cursorPos);
      echo := rest + back;
    }

    /** A printable character with room for it. */
    method Type(c: char) returns (echo: string)
      requires Valid() && Printable(c) && linePos < MAX_LINE - 1
      modifies this`linePos, this`cursorPos, buffer
      ensures Valid() && View() == old(View()).(left := old(View()).left + [c])
      ensures echo == [c] + old(View()).right + Lefts(|old(View()).right|)
    {
      if cursorPos < linePos {
        echo := TypeInside(c);
      } else {
        ghost var left := buffer[..cursorPos];
        buffer[linePos] := c;
        linePos, cursorPos := linePos + 1, cursorPos + 1;
        assert buffer[..linePos] == left + [c];
        echo := [c];
      }
    }

    /** The last character of an escape sequence: the cursor moves if there is room. */
    method Arrow(c: char) returns (echo: string)
      requires Valid() && esc == 2
      modifies this`cursorPos, this`esc
      ensures Valid() && View() == Step(old(View()), c) && echo == Echo(old(View()), c)
    {
      echo := [];
      ghost var left, right := View().left, View().right;
      if c == 'D' {
        if cursorPos > 0 {
          cursorPos := cursorPos - 1;
          echo := [ESC, '[', 'D'];
          assert buffer[cursorPos..linePos] == [left[cursorPos]] + right;
        }
      } else if c == 'C' {
        if cursorPos < linePos {
          cursorPos := cursorPos + 1;
          echo := [ESC, '[', 'C'];
          assert buffer[..cursorPos] == left + [right[0]];
        }
      }
      esc := 0;
    }

    /** One key: the body of the loop of `cli_task_entry`. A submitted line is returned. */
    method Key(c: char) returns (echo: string, line: string)
      requires Valid()
      modifies this, buffer
      ensures Valid() && View() == Step(old(View()), c) && echo == Echo(old(View()), c)
      ensures line == if Submits(old(View()), c) then old(View()).left + old(View()).right else []
    {
      echo, line := [], [];
      if esc == 1 {
        esc := if c == '[' then 2 else 0;
      } else if esc == 2 {
        echo := Arrow(c);
      } else if c == ESC {
        esc := 1;
      } else if c == '\r' || c == '\n' {
        echo := "\r\n";
        line := buffer[..linePos];
        assert line == old(View()).left + old(View()).right;
        buffer[linePos] := NUL;
        linePos, cursorPos := 0, 0;
      } else if c == BS || c == DEL {
        if cursorPos > 0 {
          echo := Erase();
        }
      } else if ' ' <= c <= '~' {
        if linePos < MAX_LINE - 1 {
          echo := Type(c);
        } else {
          echo := "ERROR: BUFFER FULL\r\n";
        }
      }
    }
  }
}
