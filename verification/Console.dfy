/** The text console: cursor, wrap, scroll and backspace over video memory and its shadow buffer. */
module Console {
  import opened Bytes
  import opened Layout

  const ATTRIB: byte := 7

  /** One terminal. Video memory holds a character and an attribute byte per cell. */
  class Terminal {
    const video: array<byte>
    const shadow: array<byte>
    var x: int
    var y: int
    var typed: int      // characters in the keyboard line buffer

    ghost predicate Shape()
    {
      video.Length == 2 * COLS * ROWS && shadow.Length == COLS * ROWS && video != shadow
    }

    /** The screen cell shows its shadow character in the standard attribute. */
    ghost predicate Mirrors(i: nat)
      requires Shape() && i < COLS * ROWS
      reads video, shadow
    {
      video[2 * i] == shadow[i] && video[2 * i + 1] == ATTRIB
    }

    ghost predicate Valid()
      reads this, video, shadow
    {
      && Shape()
      && 0 <= x < COLS && 0 <= y < ROWS
      && forall i :: 0 <= i < COLS * ROWS ==> Mirrors(i)
    }

    ghost function View(): (s: Screen)
      requires Valid()
      reads this, video, shadow
      ensures WellFormed(s)
    {
      Screen(shadow[..], x, y)
    }

    constructor (video: array<byte>, shadow: array<byte>)
      requires video.Length == 2 * COLS * ROWS && shadow.Length == COLS * ROWS && video != shadow
      ensures Shape() && this.video == video && this.shadow == shadow
    {
      this.video := video;
      this.shadow := shadow;
      x, y, typed := 0, 0, 0;
    }

    method ChangeCoord(x: int, y: int)
      modifies this`x, this`y
      ensures this.x == x && this.y == y
    {
      this.x, this.y := x, y;
    }

    method SetCell(i: nat, c: byte)
      requires Shape() && i < COLS * ROWS
      modifies video, shadow
      ensures Mirrors(i) && shadow[..] == old(shadow[..])[i := c]
      ensures forall j :: 0 <= j < COLS * ROWS && j != i && old(Mirrors(j)) ==> Mirrors(j)
    {
      video[2 * i] := c;
      video[2 * i + 1] := ATTRIB;
      shadow[i] := c;
    }

    /** clear: works from any memory contents and any cursor. */
    method Clear()
      requires Shape()
      modifies this`x, this`y, video, shadow
      ensures Valid() && View() == BLANK
    {
      var i := 0;
      while i < COLS * ROWS
        invariant 0 <= i <= COLS * ROWS
        invariant forall j :: 0 <= j < i ==> Mirrors(j) && shadow[j] == SPACE
      {
        SetCell(i, SPACE);
        i := i + 1;
      }
      ChangeCoord(0, 0);
      assert shadow[..] == BLANK.cells;
    }

    /** shift_down: the shadow buffer moves up a row and is copied to the screen as it moves. */
    method ShiftDown()
      requires Shape()
      modifies this`x, this`y, video, shadow
      ensures Valid() && View() == Scrolled(old(shadow[..]))
    {
      hide Scrolled;
      ghost var cells := shadow[..];
      var i := 0;
      while i < COLS * (ROWS - 1)
        invariant 0 <= i <= COLS * (ROWS - 1)
        invariant forall j :: 0 <= j < i ==> Mirrors(j) && shadow[j] == cells[j + COLS]
        invariant forall j :: i <= j < COLS * ROWS ==> shadow[j] == cells[j]
      {
        SetCell(i, shadow[i + COLS]);
        i := i + 1;
      }
      while i < COLS * ROWS
        invariant COLS * (ROWS - 1) <= i <= COLS * ROWS
        invariant forall j :: 0 <= j < COLS * (ROWS - 1) ==> Mirrors(j) && shadow[j] == cells[j + COLS]
        invariant forall j :: COLS * (ROWS - 1) <= j < i ==> Mirrors(j) && shadow[j] == SPACE
      {
        SetCell(i, SPACE);
        i := i + 1;
      }
      ChangeCoord(0, ROWS - 1);
      assert shadow[..] == Scrolled(cells).cells;
    }

    method Putc(c: byte)
      requires Valid()
      modifies this`x, this`y, video, shadow
      ensures Valid() && View() == Put(old(View()), c)
    {
      hide Scrolled;
      if c == NEWLINE || c == RETURN {
        if y == ROWS - 1 {
          ShiftDown();
        } else {
          y := y + 1;
          x := 0;
        }
      } else {
        SetCell(COLS * y + x, c);
        x := x + 1;
        if x == COLS {
          if y == ROWS - 1 {
            ShiftDown();
          } else {
            x := 0;
            y := y + 1;
          }
        } else {
          x := x % COLS;
          y := (y + x / COLS) % ROWS;
        }
      }
      ChangeCoord(x, y);
    }

    /** puts: a NUL-terminated string, here the text before the NUL. */
    method Puts(s: seq<byte>) returns (n: int)
      requires Valid() && NUL !in s
      modifies this`x, this`y, video, shadow
      ensures Valid() && View() == PutAll(old(View()), s) && n == |s|
    {
      hide Put, WellFormed;
      n := 0;
      while n < |s|
        invariant 0 <= n <= |s| && Valid()
        invariant View() == PutAll(old(View()), s[..n])
      {
        Putc(s[n]);
        assert s[..n + 1][..n] == s[..n];
        n := n + 1;
      }
      assert s[..n] == s;
    }

    /** Text on a cleared screen: the last 25 rows of its layout. */
    method ClearAndPuts(s: seq<byte>) returns (n: int)
      requires Shape() && NUL !in s
      modifies this`x, this`y, video, shadow
      ensures Valid() && View() == Show(Rows(s)) && n == |s|
    {
      Clear();
      n := Puts(s);
      TextShows(s);
    }

    /** backspacing: prints a blank over the previous cell and steps back again. A key press only
        erases what was typed. */
    method Backspace(physical: bool)
      requires Valid()
      modifies this, video, shadow
      ensures Valid()
      ensures View() == if physical && old(typed) == 0 then old(View()) else Erase(old(View()))
      ensures typed == if physical && old(typed) == 0 then 0 else Max(0, old(typed) - 1)
    {
      if !physical || typed != 0 {
        if x != 0 {
          x := x - 1;
          Putc(SPACE);
          x := x - 1;
        } else if y != 0 {
          y := y - 1;
          x := COLS - 1;
          Putc(SPACE);
          y := y - 1;
          x := COLS - 1;
        }
        typed := typed - 1;
        if typed < 0 { typed := 0; }
        ChangeCoord(x, y);
      }
    }
  }

  datatype Event = Key(c: byte) | Back(physical: bool) | Scroll

  /** The screen, and how many characters the line buffer counts. */
  datatype State = State(screen: Screen, typed: nat)

  function After(s: State, e: Event): (r: State)
    requires WellFormed(s.screen)
    ensures WellFormed(r.screen)
  {
    match e
    case Key(c) => s.(screen := Put(s.screen, c))
    case Scroll => s.(screen := Scrolled(s.screen.cells))
    case Back(physical) =>
      if physical && s.typed == 0 then s else State(Erase(s.screen), Max(0, s.typed - 1))
  }

  function AfterAll(s: State, events: seq<Event>): (r: State)
    requires WellFormed(s.screen)
    ensures WellFormed(r.screen)
  {
    if events == [] then s else After(AfterAll(s, events[..|events| - 1]), events[|events| - 1])
  }

  /** Any run after a clear: screen and shadow agree, attributes are standard, the cursor is on the
      screen throughout, and the screen is what the run spells out on a blank one. */
  method Session(t: Terminal, events: seq<Event>)
    requires t.Shape() && t.typed >= 0
    modifies t, t.video, t.shadow
    ensures t.Valid() && t.typed >= 0
    ensures State(t.View(), t.typed) == AfterAll(State(BLANK, old(t.typed)), events)
  {
    hide Put, Erase, Scrolled, WellFormed;
    t.Clear();
    ghost var start := State(BLANK, old(t.typed));
    for i := 0 to |events|
      invariant t.Valid() && t.typed >= 0 && WellFormed(BLANK)
      invariant State(t.View(), t.typed) == AfterAll(start, events[..i])
    {
      assert events[..i + 1][..i] == events[..i];
      match events[i] {
        case Key(c) => t.Putc(c);
        case Back(physical) => t.Backspace(physical);
        case Scroll => t.ShiftDown();
      }
    }
    assert events[..|events|] == events;
  }
}
