/** The reference for the text terminal: an unbounded tape of character cells, written with no
    scrolling, and a 25-row window onto it that only ever moves down. Positions are absolute. */
module Tape {
  import opened Words
  import opened MemWords

  const WIDTH: nat := 80
  const HEIGHT: nat := 25
  const TABSPACES: nat := 4
  const DEFAULT_COLOR: byte := 0x0F

  const NEWLINE: byte := 10
  const RETURN: byte := 13
  const TAB: byte := 9
  const BACKSPACE: byte := 8
  const SPACE: byte := 32

  /** attr_entry: the character in the low byte, the colour in the high byte. */
  function Entry(c: byte, color: byte): cell {
    var lo: nat, hi: nat := c, color;
    lo + 0x100 * hi
  }

  /** What a cell shows, and in which colour. */
  lemma EntryMeans(c: byte, color: byte)
    ensures Entry(c, color) % 0x100 == c && Entry(c, color) / 0x100 == color
  {
  }

  function Blanks(color: byte, n: nat): (r: seq<cell>)
    ensures |r| == n && forall i :: 0 <= i < n ==> r[i] == Entry(SPACE, color)
  {
    seq(n, _ => Entry(SPACE, color))
  }

  /** Cells written or exposed so far, the row at the top of the window, the absolute cursor
      position, and the current attribute. */
  datatype Tape = Tape(cells: seq<cell>, top: nat, cursor: nat, attr: byte) {
    ghost predicate Ok() {
      |cells| == WIDTH * (top + HEIGHT) && WIDTH * top <= cursor < |cells|
    }

    function Window(): seq<cell>
      requires Ok()
    {
      cells[WIDTH * top..]
    }
  }

  /** A cleared screen with nothing above it. */
  function FreshTape(attr: byte): (t: Tape)
    ensures t.Ok()
  {
    Tape(Blanks(attr, WIDTH * HEIGHT), 0, 0, attr)
  }

  /** The cursor may have reached the row below the window: expose that row, blank. */
  function Expose(t: Tape): Tape {
    if t.cursor >= |t.cells| then t.(cells := t.cells + Blanks(t.attr, WIDTH), top := t.top + 1) else t
  }

  function Move(t: Tape, c: byte): Tape
    requires t.Ok()
  {
    if c == NEWLINE then t.(cursor := (t.cursor / WIDTH + 1) * WIDTH)
    else if c == RETURN then t.(cursor := t.cursor - t.cursor % WIDTH)
    else if c == TAB then t.(cursor := t.cursor - t.cursor % TABSPACES + TABSPACES)
    else if c == BACKSPACE then (if t.cursor > WIDTH * t.top then t.(cursor := t.cursor - 1) else t)
    else t.(cells := t.cells[t.cursor := Entry(c, t.attr)], cursor := t.cursor + 1)
  }

  /** A line feed, a return or a tab inside rows [top, bottom) stays at or above the row below. */
  lemma StaysNear(p: nat, top: nat, bottom: nat)
    requires WIDTH * top <= p < WIDTH * bottom
    ensures WIDTH * top <= (p / WIDTH + 1) * WIDTH <= WIDTH * bottom
    ensures WIDTH * top <= p - p % WIDTH
    ensures p - p % TABSPACES + TABSPACES <= WIDTH * bottom
  {
    assert top <= p / WIDTH < bottom;
    assert p % TABSPACES + (WIDTH * bottom - p) % TABSPACES in {0, TABSPACES};
  }

  /** Row and tab arithmetic is the same relative to the window as on the tape. */
  lemma RowRelative(top: nat, p: nat)
    ensures (WIDTH * top + p) / WIDTH == top + p / WIDTH
    ensures (WIDTH * top + p) % WIDTH == p % WIDTH
    ensures (WIDTH * top + p) % TABSPACES == p % TABSPACES
  {
  }

  lemma MoveOk(t: Tape, c: byte)
    requires t.Ok()
    ensures |Move(t, c).cells| == |t.cells| && Move(t, c).top == t.top
    ensures WIDTH * t.top <= Move(t, c).cursor <= |t.cells|
    ensures Expose(Move(t, c)).Ok()
  {
    StaysNear(t.cursor, t.top, t.top + HEIGHT);
  }

  function Put(t: Tape, c: byte): (t': Tape)
    requires t.Ok()
    ensures t'.Ok()
  {
    MoveOk(t, c);
    Expose(Move(t, c))
  }

  function Write(t: Tape, s: seq<byte>): (t': Tape)
    requires t.Ok()
    ensures t'.Ok()
    decreases s
  {
    if s == [] then t else Write(Put(t, s[0]), s[1..])
  }

  datatype Command = SetCursor(pos: u32) | SetColor(color: u32) | Clear | Unknown

  function Obey(t: Tape, cmd: Command): (t': Tape)
    requires t.Ok()
    ensures t'.Ok()
  {
    match cmd
    case SetCursor(pos) => if pos < WIDTH * HEIGHT then t.(cursor := WIDTH * t.top + pos) else t
    case SetColor(color) => t.(attr := color % 0x100)
    case Clear =>
      t.(cells := t.cells[..WIDTH * t.top] + Blanks(t.attr, WIDTH * HEIGHT), cursor := WIDTH * t.top)
    case Unknown => t
  }

  // ---------------------------------------------------------------- any run

  datatype Event = Text(s: seq<byte>) | Cmd(cmd: Command)

  function Run(t: Tape, es: seq<Event>): (t': Tape)
    requires t.Ok()
    ensures t'.Ok()
    decreases es
  {
    if es == [] then t
    else match es[0]
      case Text(s) => Run(Write(t, s), es[1..])
      case Cmd(cmd) => Run(Obey(t, cmd), es[1..])
  }

  /** t' comes later than t: the window has not moved up, and rows above t's window are final. */
  ghost predicate Later(t: Tape, t': Tape)
    requires t.Ok() && t'.Ok()
  {
    t.top <= t'.top && t.cells[..WIDTH * t.top] <= t'.cells
  }

  lemma {:induction false} WriteLater(t: Tape, s: seq<byte>)
    requires t.Ok()
    ensures Later(t, Write(t, s))
    ensures Write(t, s).top <= t.top + |s|
    decreases s
  {
    if s != [] {
      MoveOk(t, s[0]);
      assert Later(t, Put(t, s[0]));
      WriteLater(Put(t, s[0]), s[1..]);
    }
  }

  /** Whatever is written or commanded, rows that have left the window never change, the window
      never moves back, and the cursor stays inside it. */
  lemma {:induction false} RunLater(t: Tape, es: seq<Event>)
    requires t.Ok()
    ensures Later(t, Run(t, es))
    decreases es
  {
    if es != [] {
      match es[0] {
        case Text(s) => WriteLater(t, s); RunLater(Write(t, s), es[1..]);
        case Cmd(cmd) => RunLater(Obey(t, cmd), es[1..]);
      }
    }
  }

  /** The cell shows this character in this colour. */
  predicate Shows(e: cell, c: byte, color: byte) {
    e % 0x100 == c && e / 0x100 == color
  }

  /** Where one character takes the cursor, before any scroll. */
  ghost predicate Moves(p: nat, top: nat, c: byte, q: nat) {
    if c == '\n' as int then q % 80 == 0 && p < q <= p + 80
    else if c == '\r' as int then q % 80 == 0 && q <= p < q + 80
    else if c == '\t' as int then q % 4 == 0 && p < q <= p + 4
    else if c == 8 then (if p > 80 * top then q == p - 1 else q == p)
    else q == p + 1
  }

  lemma MovesBy(p: nat)
    ensures Moves(p, 0, NEWLINE, (p / WIDTH + 1) * WIDTH)
    ensures Moves(p, 0, RETURN, p - p % WIDTH)
    ensures Moves(p, 0, TAB, p - p % TABSPACES + TABSPACES)
  {
    assert p == p / 80 * 80 + p % 80 && p == p / 4 * 4 + p % 4;
  }

  lemma MoveMeans(t: Tape, c: byte, m: Tape)
    requires t.Ok() && m == Move(t, c)
    ensures Moves(t.cursor, t.top, c, m.cursor) && m.attr == t.attr && m.top == t.top
    ensures |m.cells| == |t.cells| && m.cursor <= |m.cells|
    ensures forall x :: 0 <= x < |t.cells| && (x != t.cursor || c in {8, 9, 10, 13}) ==> m.cells[x] == t.cells[x]
    ensures c !in {8, 9, 10, 13} ==> Shows(m.cells[t.cursor], c, t.attr)
  {
    MoveOk(t, c);
    MovesBy(t.cursor);
    EntryMeans(c, t.attr);
  }

  /** A line feed goes to the start of the next row, a return to that of its own, a tab to the next
      multiple of 4, a backspace one cell back but not above the window; any other character is
      shown at the cursor in the current attribute, and the cursor goes on. No other cell changes.
      The window moves by one row exactly when the cursor has left it, and what it then exposes is
      blank in the current attribute. */
  lemma PutMeans(t: Tape, c: byte, t': Tape)
    requires t.Ok() && t' == Put(t, c)
    ensures Moves(t.cursor, t.top, c, t'.cursor) && t'.attr == t.attr
    ensures t'.top == if t'.cursor >= 80 * (t.top + 25) then t.top + 1 else t.top
    ensures |t.cells| == 80 * (t.top + 25) && |t'.cells| == 80 * (t'.top + 25)
    ensures forall x :: 0 <= x < |t.cells| && (x != t.cursor || c in {8, 9, 10, 13}) ==> t'.cells[x] == t.cells[x]
    ensures c !in {8, 9, 10, 13} ==> Shows(t'.cells[t.cursor], c, t.attr)
    ensures forall x :: |t.cells| <= x < |t'.cells| ==> Shows(t'.cells[x], ' ' as int, t.attr)
  {
    var m := Move(t, c);
    MoveMeans(t, c, m);
    EntryMeans(SPACE, t.attr);
    assert t' == Expose(m);
  }

  /** On the screen, the last cell has moved up a row once it has been written. */
  lemma PutShows(t: Tape, c: byte, t': Tape, p: nat)
    requires t.Ok() && t' == Put(t, c) && p == t.cursor - 80 * t.top && c !in {8, 9, 10, 13}
    ensures var at := if p == 1999 then 1919 else p;
      p < 2000 && |t'.Window()| == 2000 && Shows(t'.Window()[at], c, t.attr)
  {
    PutMeans(t, c, t');
  }

  /** Splitting a text at any point, or printing it character by character, makes no difference. */
  lemma {:induction false} WriteSplits(t: Tape, s1: seq<byte>, s2: seq<byte>)
    requires t.Ok()
    ensures Write(t, s1 + s2) == Write(Write(t, s1), s2)
    decreases s1
  {
    if s1 == [] {
      assert s1 + s2 == s2;
    } else {
      assert (s1 + s2)[0] == s1[0] && (s1 + s2)[1..] == s1[1..] + s2;
      WriteSplits(Put(t, s1[0]), s1[1..], s2);
    }
  }

  // ---------------------------------------------------------------- printable text

  predicate IsPrintable(c: byte) {
    c != NEWLINE && c != RETURN && c != TAB && c != BACKSPACE
  }

  predicate Printable(s: seq<byte>) {
    forall i :: 0 <= i < |s| ==> IsPrintable(s[i])
  }

  function Scrolls(p: nat, n: nat): nat {
    if (p + n) / WIDTH > HEIGHT - 1 then (p + n) / WIDTH - (HEIGHT - 1) else 0
  }

  /** n printable characters land in row-major order from the cursor, scroll the window by exactly
      max(0, (p + n) / 80 - 24) rows where p is the cursor's place in the window, leave every other
      cell alone, and expose only rows blank in the current attribute. */
  lemma {:induction false} PrintableText(t: Tape, s: seq<byte>)
    requires t.Ok() && Printable(s)
    ensures var t' := Write(t, s);
      && t'.cursor == t.cursor + |s|
      && t'.attr == t.attr
      && t'.top == t.top + Scrolls(t.cursor - WIDTH * t.top, |s|)
      && (forall x :: 0 <= x < |t'.cells| ==> t'.cells[x] == TextCell(t, s, x))
    decreases s
  {
    if s != [] {
      var t1 := Put(t, s[0]);
      PrintableText(t1, s[1..]);
    }
  }

  /** So the written cells show the text in the current attribute, and the exposed ones blanks. */
  lemma PrintableShows(t: Tape, s: seq<byte>, t': Tape)
    requires t.Ok() && t' == Write(t, s)
    requires forall i :: 0 <= i < |s| ==> s[i] !in {8, 9, 10, 13}
    ensures t'.cursor == t.cursor + |s| <= |t'.cells|
    ensures forall i :: 0 <= i < |s| ==> Shows(t'.cells[t.cursor + i], s[i], t.attr)
    ensures forall x :: |t.cells| <= x < |t'.cells| && x >= t'.cursor ==> Shows(t'.cells[x], ' ' as int, t.attr)
  {
    PrintableText(t, s);
    EntryMeans(SPACE, t.attr);
    forall i | 0 <= i < |s| ensures Shows(t'.cells[t.cursor + i], s[i], t.attr) {
      EntryMeans(s[i], t.attr);
      assert t'.cells[t.cursor + i] == TextCell(t, s, t.cursor + i);
    }
  }

  function TextCell(t: Tape, s: seq<byte>, x: nat): cell {
    if t.cursor <= x < t.cursor + |s| then Entry(s[x - t.cursor], t.attr)
    else if x < |t.cells| then t.cells[x]
    else Entry(SPACE, t.attr)
  }

  // ---------------------------------------------------------------- text without a window

  /** Where the cursor goes on an endless tape that has no window at all. */
  function Walk1(p: nat, c: byte): nat {
    if c == NEWLINE then (p / WIDTH + 1) * WIDTH
    else if c == RETURN then p - p % WIDTH
    else if c == TAB then p - p % TABSPACES + TABSPACES
    else if c == BACKSPACE then (if p > 0 then p - 1 else p)
    else p + 1
  }

  function Walk(p: nat, s: seq<byte>): nat
    decreases s
  {
    if s == [] then p else Walk(Walk1(p, s[0]), s[1..])
  }

  function Max(a: int, b: int): int { if a < b then b else a }

  /** The furthest position the cursor visits. */
  function Reach(p: nat, s: seq<byte>): (r: nat)
    ensures p <= r
    decreases s
  {
    if s == [] then p else Max(p, Reach(Walk1(p, s[0]), s[1..]))
  }

  function Paint1(p: nat, attr: byte, c: byte): map<nat, cell> {
    if IsPrintable(c) then map[p := Entry(c, attr)] else map[]
  }

  /** The cells the text leaves written, later writes over earlier ones. */
  function Paint(p: nat, attr: byte, s: seq<byte>): map<nat, cell>
    decreases s
  {
    if s == [] then map[] else Paint1(p, attr, s[0]) + Paint(Walk1(p, s[0]), attr, s[1..])
  }

  /** A cell of the tape t after painting: painted, old, or exposed blank. */
  function Shown(t: Tape, paint: map<nat, cell>, x: nat): cell {
    if x in paint then paint[x]
    else if x < |t.cells| then t.cells[x]
    else Entry(SPACE, t.attr)
  }

  /** The lowest window position, not above `top`, that shows position p. */
  function TopFor(top: nat, p: nat): nat {
    Max(top, p / WIDTH - (HEIGHT - 1))
  }

  /** The only trace of the window: a backspace on its first cell stays there. */
  predicate Unhindered1(top: nat, p: nat, c: byte) {
    c == BACKSPACE ==> p > WIDTH * top || p == 0
  }

  /** The text has no such backspace, told from the walk alone. */
  predicate Unhindered(top: nat, p: nat, s: seq<byte>)
    decreases s
  {
    s == [] ||
    (Unhindered1(top, p, s[0]) && Unhindered(TopFor(top, Walk1(p, s[0])), Walk1(p, s[0]), s[1..]))
  }

  lemma PutWithoutWindow(t: Tape, c: byte)
    requires t.Ok() && Unhindered1(t.top, t.cursor, c)
    ensures var t' := Put(t, c);
      && t'.cursor == Walk1(t.cursor, c)
      && t'.top == TopFor(t.top, t'.cursor)
      && t'.attr == t.attr
      && (forall x :: 0 <= x < |t'.cells| ==> t'.cells[x] == Shown(t, Paint1(t.cursor, t.attr, c), x))
  {
    MoveOk(t, c);
  }

  lemma TopForTwice(top: nat, p: nat, q: nat, r: nat)
    requires p / WIDTH - (HEIGHT - 1) <= top && q <= r
    ensures TopFor(TopFor(top, q), r) == TopFor(top, Max(p, r))
  {
    assert q / WIDTH <= r / WIDTH;
  }

  lemma ShownTwice(t: Tape, t1: Tape, paint1: map<nat, cell>, paint: map<nat, cell>, x: nat)
    requires |t.cells| <= |t1.cells| && t1.attr == t.attr
    requires forall y :: 0 <= y < |t1.cells| ==> t1.cells[y] == Shown(t, paint1, y)
    requires forall y :: y in paint1 ==> y < |t1.cells|
    ensures Shown(t1, paint, x) == Shown(t, paint1 + paint, x)
  {
  }

  /** Text comes out as on an endless tape: same cursor, same cells, and the window is just low
      enough to show the furthest position the cursor has visited. */
  lemma {:induction false} TextWithoutWindow(t: Tape, s: seq<byte>)
    requires t.Ok() && Unhindered(t.top, t.cursor, s)
    ensures var t' := Write(t, s);
      && t'.cursor == Walk(t.cursor, s)
      && t'.top == TopFor(t.top, Reach(t.cursor, s))
      && t'.attr == t.attr
      && (forall x :: 0 <= x < |t'.cells| ==> t'.cells[x] == Shown(t, Paint(t.cursor, t.attr, s), x))
    decreases s
  {
    if s == [] {
    } else {
      var t1 := Put(t, s[0]);
      PutWithoutWindow(t, s[0]);
      TextWithoutWindow(t1, s[1..]);
      TopForTwice(t.top, t.cursor, t1.cursor, Reach(t1.cursor, s[1..]));
      var t' := Write(t, s);
      forall x | 0 <= x < |t'.cells| ensures t'.cells[x] == Shown(t, Paint(t.cursor, t.attr, s), x) {
        ShownTwice(t, t1, Paint1(t.cursor, t.attr, s[0]), Paint(t1.cursor, t1.attr, s[1..]), x);
      }
    }
  }

  /** The cursor is where the walk is after every part of the text. */
  ghost predicate Follows(t: Tape, s: seq<byte>)
    requires t.Ok()
  {
    forall k :: 0 <= k <= |s| ==> Write(t, s[..k]).cursor == Walk(t.cursor, s[..k])
  }

  lemma FollowsStep(t: Tape, s: seq<byte>)
    requires t.Ok() && s != []
    ensures Put(t, s[0]).cursor == Walk1(t.cursor, s[0]) ==> (Follows(t, s) <==> Follows(Put(t, s[0]), s[1..]))
    ensures Follows(t, s) ==> Put(t, s[0]).cursor == Walk1(t.cursor, s[0])
  {
    var t1, rest := Put(t, s[0]), s[1..];
    forall k | 1 <= k <= |s|
      ensures Write(t, s[..k]) == Write(t1, rest[..k - 1])
      ensures Walk(t.cursor, s[..k]) == Walk(Walk1(t.cursor, s[0]), rest[..k - 1])
    {
      assert s[..k][0] == s[0] && s[..k][1..] == rest[..k - 1];
    }
    if Follows(t, s) {
      assert s[..1] == [s[0]] && rest[..0] == [];
      assert Write(t, s[..1]).cursor == Walk(t.cursor, s[..1]);
      if t1.cursor == Walk1(t.cursor, s[0]) {
        forall k | 0 <= k <= |rest| ensures Write(t1, rest[..k]).cursor == Walk(t1.cursor, rest[..k]) {
          assert Write(t, s[..k + 1]).cursor == Walk(t.cursor, s[..k + 1]);
        }
      }
    }
  }

  /** It is exactly for the texts without a backspace on the window's first cell. */
  lemma {:induction false} FollowsIff(t: Tape, s: seq<byte>)
    requires t.Ok()
    ensures Follows(t, s) <==> Unhindered(t.top, t.cursor, s)
    decreases s
  {
    if s != [] {
      FollowsStep(t, s);
      if Unhindered1(t.top, t.cursor, s[0]) {
        PutWithoutWindow(t, s[0]);
        FollowsIff(Put(t, s[0]), s[1..]);
      }
    }
  }
}
