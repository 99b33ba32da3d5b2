/** What the keys do to a line, and what a submitted line is. */
module CliKeys {
  import opened Cli

  /** The line after some keys. */
  function Typed(keys: string, z: Zipper): Zipper
    decreases |keys|
  {
    if keys == [] then z else Typed(keys[1..], Step(z, keys[0]))
  }

  lemma {:induction false} TypedConcat(a: string, b: string, z: Zipper)
    ensures Typed(a + b, z) == Typed(b, Typed(a, z))
    decreases |a|
  {
    if a == [] {
      assert a + b == b;
    } else {
      assert (a + b)[1..] == a[1..] + b && (a + b)[0] == a[0];
      TypedConcat(a[1..], b, Step(z, a[0]));
    }
  }

  function Times(s: string, n: nat): string { if n == 0 then [] else s + Times(s, n - 1) }

  /** The keys of an arrow to the left (D) or to the right (C). */
  function Arrow(c: char): string { ['\U{1B}', '[', c] }

  /** An escape sequence is one step with its last character. */
  lemma ArrowKeys(c: char, z: Zipper)
    requires z.esc == 0
    ensures Typed(Arrow(c), z) == Step(z.(esc := 2), c)
  {
    var s := Arrow(c);
    assert s[1..] == ['[', c] && s[1..][1..] == [c] && s[1..][1..][1..] == [];
    assert Step(z, s[0]) == z.(esc := 1);
    assert Step(z.(esc := 1), s[1..][0]) == z.(esc := 2);
    assert Typed(s, z) == Typed(['[', c], z.(esc := 1)) == Typed([c], z.(esc := 2));
    assert Typed([], Step(z.(esc := 2), c)) == Step(z.(esc := 2), c);
  }

  lemma LeftKey(left: string, c: char, right: string)
    ensures Typed(Arrow('D'), Zipper(left + [c], right, 0)) == Zipper(left, [c] + right, 0)
  {
    ArrowKeys('D', Zipper(left + [c], right, 0));
    assert (left + [c])[..|left|] == left;
  }

  lemma RightKey(left: string, c: char, right: string)
    ensures Typed(Arrow('C'), Zipper(left, [c] + right, 0)) == Zipper(left + [c], right, 0)
  {
    ArrowKeys('C', Zipper(left, [c] + right, 0));
    assert ([c] + right)[1..] == right;
  }

  /** Arrows at the ends of the line do nothing; any other escape sequence never does. */
  lemma ArrowsStop(z: Zipper, c: char)
    requires z.esc == 0 && (c == 'D' ==> z.left == []) && (c == 'C' ==> z.right == [])
    ensures Typed(Arrow(c), z) == z
  {
    ArrowKeys(c, z);
  }

  /** Typing text puts it before the cursor. */
  lemma {:induction false} Typing(text: string, left: string, right: string)
    requires AllPrintable(text) && |left| + |text| + |right| < MAX_LINE
    ensures Typed(text, Zipper(left, right, 0)) == Zipper(left + text, right, 0)
    decreases |text|
  {
    if text != [] {
      assert Step(Zipper(left, right, 0), text[0]) == Zipper(left + [text[0]], right, 0);
      Typing(text[1..], left + [text[0]], right);
      assert left + [text[0]] + text[1..] == left + text;
    } else {
      assert left + text == left;
    }
  }

  /** Arrows to the left take the cursor back over the last characters. */
  lemma {:induction false} GoingLeft(left: string, d: string, right: string)
    ensures Typed(Times(Arrow('D'), |d|), Zipper(left + d, right, 0)) == Zipper(left, d + right, 0)
    decreases |d|
  {
    if d != [] {
      var k := |d| - 1;
      var front, c := d[..k], d[k];
      assert left + d == left + front + [c] && front + ([c] + right) == d + right;
      TypedConcat(Arrow('D'), Times(Arrow('D'), k), Zipper(left + d, right, 0));
      LeftKey(left + front, c, right);
      GoingLeft(left, front, [c] + right);
    } else {
      assert left + d == left && d + right == right;
    }
  }

  /** Backspaces, as either code, rub out the characters before the cursor. */
  lemma {:induction false} RubbingOut(left: string, b: string, right: string, key: char)
    requires key == '\U{08}' || key == '\U{7F}'
    ensures Typed(Times([key], |b|), Zipper(left + b, right, 0)) == Zipper(left, right, 0)
    decreases |b|
  {
    if b != [] {
      var k := |b| - 1;
      assert (left + b)[..|left + b| - 1] == left + b[..k];
      TypedConcat([key], Times([key], k), Zipper(left + b, right, 0));
      assert Typed([key], Zipper(left + b, right, 0)) == Zipper(left + b[..k], right, 0);
      RubbingOut(left, b[..k], right, key);
    } else {
      assert left + b == left;
    }
  }

  /** At the start of the line a backspace does nothing, and neither does any other key that
      is not printable and not one of the above. */
  lemma Ignored(z: Zipper, c: char)
    requires z.esc == 0 && !Printable(c) && c != '\r' && c != '\n' && c != '\U{1B}'
    requires c == '\U{08}' || c == '\U{7F}' ==> z.left == []
    ensures Step(z, c) == z && !Submits(z, c)
  {
  }

  const EMPTY := Zipper([], [], 0)

  /** Correcting a line: `a`, `b` and `d` are typed, the cursor goes back over `d`, `b` is rubbed
      out, and `c` is typed. */
  function Correcting(a: string, b: string, c: string, d: string, key: char): string {
    (a + b + d) + Times(Arrow('D'), |d|) + Times([key], |b|) + c
  }

  /** The line submitted then is `a`, `c` and `d`, and the next one starts empty. */
  lemma Corrected(a: string, b: string, c: string, d: string, key: char, enter: char)
    requires AllPrintable(a) && AllPrintable(b) && AllPrintable(c) && AllPrintable(d)
    requires |a| + |b| + |d| < MAX_LINE && |a| + |c| + |d| < MAX_LINE
    requires (key == '\U{08}' || key == '\U{7F}') && (enter == '\r' || enter == '\n')
    ensures var z := Typed(Correcting(a, b, c, d, key), EMPTY);
      z.left + z.right == a + c + d && Submits(z, enter) && Step(z, enter) == EMPTY
  {
    var s1 := a + b + d;
    var s2 := s1 + Times(Arrow('D'), |d|);
    var s3 := s2 + Times([key], |b|);
    TypedConcat(s1, Times(Arrow('D'), |d|), EMPTY);
    TypedConcat(s2, Times([key], |b|), EMPTY);
    TypedConcat(s3, c, EMPTY);
    Typing(s1, [], []);
    assert [] + s1 == (a + b) + d && d + [] == d;
    GoingLeft(a + b, d, []);
    RubbingOut(a, b, d, key);
    Typing(c, a, d);
  }
}
