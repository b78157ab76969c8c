/** The console driver: video memory and the cursor updated in place. */
module Console {
  import opened ConsoleModel

  class Vga {
    const video: array<nat>
    var xpos: nat
    var ypos: nat
    ghost var text: seq<Byte>    // everything written since the screen was cleared

    /** The screen is the window on the grid of all text so far, cursor included. */
    ghost predicate Valid()
      reads this, video
    {
      && video.Length == ROWS * COLS
      && xpos < COLS && ypos <= ROWS
      && CursorAfter(text) == Cursor(Top(text) + ypos, xpos)
      && video[..] == Screen(text)
    }

    /** console_init: clear the screen and home the cursor. */
    constructor ()
      ensures Valid() && text == [] && fresh(video)
    {
      video := new nat[ROWS * COLS];
      xpos, ypos, text := 0, 0, [];
      new;
      for i := 0 to ROWS * COLS
        modifies video
        invariant forall j | 0 <= j < i :: video[j] == BLANK
      {
        video[i] := BLANK;
      }
    }

    /** One line up: every row takes the next one's contents, the last becomes blank. */
    method ScrollUp()
      requires video.Length == ROWS * COLS
      modifies video
      ensures video[..] == Scrolled(old(video[..]))
    {
      var k, j := 1, 0;
      while k < ROWS
        invariant 1 <= k <= ROWS && j == k - 1
        invariant forall i | 0 <= i < ROWS * COLS ::
                    video[i] == if i < j * COLS then old(video[i + COLS]) else old(video[i])
      {
        for i := 0 to COLS
          invariant forall p | 0 <= p < ROWS * COLS ::
                      video[p] == if p < j * COLS + i then old(video[p + COLS]) else old(video[p])
        {
          video[COLS * j + i] := video[COLS * k + i];
        }
        k, j := k + 1, j + 1;
      }
      for i := 0 to COLS
        invariant forall p | 0 <= p < ROWS * COLS ::
                    video[p] == if p < j * COLS then old(video[p + COLS])
                                else if p < j * COLS + i then BLANK else old(video[p])
      {
        video[COLS * j + i] := BLANK;
      }
    }

    /** The deferred scroll: make room if the cursor has run off the screen. */
    method MakeRoom(c: Byte)
      requires Valid()
      modifies this`ypos, video
      ensures video.Length == ROWS * COLS && ypos < ROWS
      ensures CursorAfter(text) == Cursor(Top(text + [c]) + ypos, xpos)
      ensures video[..] == Window(text, Top(text + [c]))
    {
      Snoc(text, c);
      WindowFollowsCursor(text);
      if ypos >= ROWS {
        WindowDown(text, Top(text));
        ScrollUp();
        ypos := ROWS - 1;
      }
    }

    /** A printable character at the cursor, wrapping at the right edge. */
    method Glyph(c: Byte)
      requires video.Length == ROWS * COLS && ypos < ROWS && Printable(c)
      requires CursorAfter(text) == Cursor(Top(text + [c]) + ypos, xpos)
      requires video[..] == Window(text, Top(text + [c]))
      modifies this, video
      ensures Valid() && text == old(text) + [c]
    {
      Snoc(text, c);
      CursorInRange(text);
      WindowPut(text, c, Top(text + [c]), ypos, xpos);
      video[COLS * ypos + xpos] := Cell(c);
      xpos := xpos + 1;
      if xpos >= COLS {
        xpos := 0;
        ypos := ypos + 1;
      }
      text := text + [c];
    }

    /** One character. */
    method Put(c: Byte)
      requires Valid()
      modifies this, video
      ensures Valid() && text == old(text) + [c]
    {
      MakeRoom(c);
      if Printable(c) {
        Glyph(c);
      } else {
        Snoc(text, c);
        WindowSkip(text, c, Top(text + [c]));
        if c == NL {
          xpos := 0;
          ypos := ypos + 1;
        }
        text := text + [c];
      }
    }

    /** console_vga_write: characters up to the first NUL, at most n of them. */
    method Write(str: seq<Byte>, n: nat)
      requires Valid()
      modifies this, video
      ensures Valid() && text == old(text) + Consumed(str, n)
    {
      var i, left := 0, n;
      while i < |str| && str[i] != 0 && left > 0
        invariant i <= |str| && Valid()
        invariant text + Consumed(str[i..], left) == old(text) + Consumed(str, n)
        decreases |str| - i
      {
        Put(str[i]);
        i, left := i + 1, left - 1;
      }
    }
  }
}
