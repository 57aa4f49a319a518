/** The VGA text terminal: an 80x25 cell buffer, a cursor and an attribute, all overwritten in
    place, with a scroll that copies the buffer over itself. Every operation is proved to show
    the window of the reference tape, advanced by the tape's own operation. */
module Terminal {
  import opened Words
  import opened MemWords
  import T = Tape

  class TextTerminal {
    const buffer: array<cell>
    var cursor: nat
    var attr: byte
    ghost var tape: T.Tape

    /** The screen is the tape's window, and the cursor lies inside it. */
    ghost predicate Valid()
      reads this, buffer
    {
      && buffer.Length == T.WIDTH * T.HEIGHT
      && tape.Ok()
      && buffer[..] == tape.Window()
      && cursor == tape.cursor - T.WIDTH * tape.top
      && attr == tape.attr
    }

    /** tvga_init on any buffer: the default attribute and a blank screen. */
    constructor (vbuffer: array<cell>)
      requires vbuffer.Length == T.WIDTH * T.HEIGHT
      modifies vbuffer
      ensures Valid() && buffer == vbuffer
      ensures tape == T.FreshTape(T.DEFAULT_COLOR)
      ensures cursor == 0 && attr == 0x0F
      ensures forall x :: 0 <= x < 2000 ==> T.Shows(buffer[x], ' ' as int, 0x0F)
    {
      buffer, cursor, attr := vbuffer, 0, T.DEFAULT_COLOR;
      tape := T.FreshTape(T.DEFAULT_COLOR);
      new;
      SetWords(buffer, 0, T.Entry(T.SPACE, attr), T.HEIGHT * T.WIDTH);
      assert buffer[..] == T.Blanks(attr, T.HEIGHT * T.WIDTH);
      AllBlank();
    }

    /** A buffer of blanks shows blanks. */
    lemma AllBlank()
      requires buffer[..] == T.Blanks(attr, 2000)
      ensures forall x :: 0 <= x < 2000 ==> T.Shows(buffer[x], ' ' as int, attr)
    {
      T.EntryMeans(T.SPACE, attr);
      assert forall x :: 0 <= x < 2000 ==> buffer[x] == buffer[..][x];
    }

    /** tvga_scrollscreen: called with the cursor on the row below the window. */
    method ScrollScreen()
      requires buffer.Length == T.WIDTH * T.HEIGHT
      requires cursor == T.WIDTH * T.HEIGHT
      modifies this`cursor, buffer
      ensures buffer[..] == old(buffer[..])[T.WIDTH..] + T.Blanks(attr, T.WIDTH)
      ensures cursor == T.WIDTH * (T.HEIGHT - 1)
    {
      CopyWords(buffer, 0, T.WIDTH, (T.HEIGHT - 1) * T.WIDTH);
      CopiedMoves(old(buffer[..]), 0, T.WIDTH, (T.HEIGHT - 1) * T.WIDTH, (T.HEIGHT - 1) * T.WIDTH);
      assert buffer[..(T.HEIGHT - 1) * T.WIDTH] == old(buffer[..])[T.WIDTH..];
      SetWords(buffer, (T.HEIGHT - 1) * T.WIDTH, T.Entry(T.SPACE, attr), T.WIDTH);
      cursor := cursor - T.WIDTH;
    }

    /** The switch of tvga_putch. It may leave the cursor on the row below the window. */
    method MoveOrStore(c: byte)
      requires Valid()
      modifies this`cursor, buffer
      ensures var moved := T.Move(tape, c);
        && cursor == moved.cursor - T.WIDTH * moved.top
        && buffer[..] == moved.cells[T.WIDTH * moved.top..]
    {
      T.RowRelative(tape.top, cursor);
      if c == T.NEWLINE {
        cursor := (cursor / T.WIDTH + 1) * T.WIDTH;
      } else if c == T.RETURN {
        cursor := cursor - cursor % T.WIDTH;
      } else if c == T.TAB {
        cursor := cursor - cursor % T.TABSPACES + T.TABSPACES;
      } else if c == T.BACKSPACE {
        if cursor > 0 {
          cursor := cursor - 1;
        }
      } else {
        buffer[cursor] := T.Entry(c, attr);
        cursor := cursor + 1;
      }
    }

    /** The switch and the scroll. */
    method PutAndScroll(c: byte)
      requires Valid()
      modifies this`cursor, this`tape, buffer
      ensures Valid()
      ensures tape == T.Put(old(tape), c)
    {
      T.MoveOk(tape, c);
      MoveOrStore(c);
      tape := T.Move(tape, c);
      if cursor >= T.WIDTH * T.HEIGHT {
        ScrollScreen();
      }
      tape := T.Expose(tape);
    }

    /** tvga_putch. */
    method PutCh(c: byte)
      requires Valid()
      modifies this`cursor, this`tape, buffer
      ensures Valid()
      ensures tape == T.Put(old(tape), c)
      ensures attr == old(attr) && cursor < 2000
      ensures c !in {8, 9, 10, 13} ==> T.Shows(buffer[if old(cursor) == 1999 then 1919 else old(cursor)], c, attr)
    {
      ghost var before, p := tape, cursor;
      T.PutMeans(before, c, T.Put(before, c));
      PutAndScroll(c);
      if c !in {8, 9, 10, 13} {
        OnScreen(before, p, c);
      }
    }

    /** A character just put is on the screen. */
    lemma OnScreen(before: T.Tape, p: nat, c: byte)
      requires Valid() && before.Ok() && tape == T.Put(before, c)
      requires p == before.cursor - 80 * before.top && c !in {8, 9, 10, 13}
      ensures p < 2000 && T.Shows(buffer[if p == 1999 then 1919 else p], c, before.attr)
    {
      T.PutShows(before, c, tape, p);
      var at := if p == 1999 then 1919 else p;
      assert buffer[at] == buffer[..][at];
    }

    /** tvga_write. */
    method Write(s: seq<byte>)
      requires Valid()
      modifies this`cursor, this`tape, buffer
      ensures Valid()
      ensures tape == T.Write(old(tape), s)
    {
      var i := 0;
      while i < |s|
        invariant i <= |s|
        invariant Valid()
        invariant T.Write(tape, s[i..]) == T.Write(old(tape), s)
      {
        assert s[i..][0] == s[i] && s[i..][1..] == s[i + 1..];
        PutCh(s[i]);
        i := i + 1;
      }
    }

    /** tvga_command: 0 when obeyed, 1 for an unknown command, 2 for a cursor off the screen. */
    method Command(cmd: T.Command) returns (code: nat)
      requires Valid()
      modifies this, buffer
      ensures Valid()
      ensures tape == T.Obey(old(tape), cmd)
      ensures code == match cmd
        case SetCursor(pos) => if pos < T.WIDTH * T.HEIGHT then 0 else 2
        case Unknown => 1
        case _ => 0
      ensures cmd.Clear? ==>
        cursor == 0 && attr == old(attr) && forall x :: 0 <= x < 2000 ==> T.Shows(buffer[x], ' ' as int, attr)
      ensures cmd.SetCursor? ==>
        buffer[..] == old(buffer[..]) && attr == old(attr) && cursor == if cmd.pos < 2000 then cmd.pos else old(cursor)
      ensures cmd.SetColor? ==>
        buffer[..] == old(buffer[..]) && cursor == old(cursor) && attr == cmd.color % 0x100
      ensures cmd.Unknown? ==> buffer[..] == old(buffer[..]) && cursor == old(cursor) && attr == old(attr)
    {
      match cmd {
        case SetCursor(pos) =>
          if pos >= T.WIDTH * T.HEIGHT {
            return 2;
          }
          cursor := pos;
        case SetColor(color) =>
          attr := color % 0x100;
        case Clear =>
          SetWords(buffer, 0, T.Entry(T.SPACE, attr), T.HEIGHT * T.WIDTH);
          cursor := 0;
          assert buffer[..] == T.Blanks(attr, T.HEIGHT * T.WIDTH);
          AllBlank();
        case Unknown =>
          return 1;
      }
      tape := T.Obey(tape, cmd);
      return 0;
    }
  }
}
