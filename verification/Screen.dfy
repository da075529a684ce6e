/** The scrolling of the console: a window of 24 rows that moves through a buffer of 48, against a terminal that never
    forgets a row. */
module Screen {

  const W: nat := 80
  const WH: nat := 80 * 24
  const SIZE: nat := 80 * 24 * 2

  type Cell = nat

  /** White on black. Characters are signed: one from 128 on spills its sign over the colours. */
  function Draw(ch: char): Cell {
    var c := ch as int % 256;
    if c < 128 then 0x0700 + c else 0xFF00 + c
  }

  function BlankRow(): (r: seq<Cell>)
    ensures |r| == W && forall i :: 0 <= i < W ==> r[i] == Draw(' ')
  {
    seq(W, _ => Draw(' '))
  }

  // The terminal.

  /** All rows ever begun, one after the other, and the cursor among them. */
  datatype Term = Term(cells: seq<Cell>, pos: nat)

  predicate TermOk(t: Term) {
    |t.cells| >= WH && |t.cells| % W == 0 && |t.cells| - WH <= t.pos < |t.cells|
  }

  function NewRow(t: Term): Term { t.(cells := t.cells + BlankRow()) }

  function Put(t: Term, ch: char): Term
    requires t.pos < |t.cells|
  {
    t.(cells := t.cells[t.pos := Draw(ch)])
  }

  /** One cell on; off the end a new row begins. */
  function Advance(t: Term): Term {
    var u := if t.pos + 1 == |t.cells| then NewRow(t) else t;
    u.(pos := t.pos + 1)
  }

  function CarriageReturn(t: Term): Term { t.(pos := t.pos / W * W) }

  function LineFeed(t: Term): Term {
    var u := if t.pos + W >= |t.cells| then NewRow(t) else t;
    u.(pos := t.pos + W)
  }

  function Write(t: Term, ch: char): Term
    requires t.pos < |t.cells|
  {
    if ch == '\r' then CarriageReturn(t)
    else if ch == '\n' then LineFeed(CarriageReturn(t))
    else Advance(Put(t, ch))
  }

  lemma RowStart(p: nat, n: nat)
    requires n % W == 0 && n <= p
    ensures n <= p / W * W <= p && p / W * W % W == 0 && p - p % W == p / W * W
  {
    assert n == n / W * W;
    assert n / W <= p / W;
  }

  /** A cell's low byte is the character it shows. */
  predicate Holds(x: Cell, ch: char) { x % 256 == ch as int % 256 && (ch as int < 128 ==> x / 256 == 7) }

  lemma DrawHolds(ch: char)
    ensures Holds(Draw(ch), ch)
  {
  }

  /** Where a character leaves the cursor: one on, at the start of its row, or at the start of the next. */
  ghost predicate Moves(p: nat, ch: char, q: nat) {
    if ch == '\r' then q % W == 0 && q / W == p / W
    else if ch == '\n' then q % W == 0 && q / W == p / W + 1
    else q == p + 1
  }

  /** Writing keeps the cursor in the last 24 rows and every other cell, and adds a blank row where needed. */
  lemma WriteKeeps(t: Term, ch: char)
    requires TermOk(t)
    ensures TermOk(Write(t, ch)) && Moves(t.pos, ch, Write(t, ch).pos)
    ensures var u := Write(t, ch);
            && |u.cells| == |t.cells| + (if u.pos < |t.cells| then 0 else W)
            && (forall i :: 0 <= i < |t.cells| && i != t.pos ==> u.cells[i] == t.cells[i])
            && (forall i :: |t.cells| <= i < |u.cells| ==> Holds(u.cells[i], ' '))
            && (if ch == '\r' || ch == '\n' then u.cells[t.pos] == t.cells[t.pos] else Holds(u.cells[t.pos], ch))
  {
    RowStart(t.pos, |t.cells| - WH);
    DrawHolds(ch);
    DrawHolds(' ');
    hide Draw, Holds;
  }

  /** What the text shows after any string: the cells are those of the characters written. */
  function WriteAll(t: Term, s: string): (r: Term)
    requires TermOk(t)
    ensures TermOk(r)
  {
    if s == "" then t
    else
      var u := WriteAll(t, s[..|s| - 1]);
      WriteKeeps(u, s[|s| - 1]);
      Write(u, s[|s| - 1])
  }

  /** A text of one line stands in the cells from the cursor on, with the cursor behind it; the other cells are as they
      were, and new ones are blank. */
  lemma {:induction false} TextShown(t: Term, s: string)
    requires TermOk(t) && '\r' !in s && '\n' !in s
    ensures var u := WriteAll(t, s);
            && u.pos == t.pos + |s| && |u.cells| >= |t.cells| && u.cells[..t.pos] == t.cells[..t.pos]
            && (forall i :: 0 <= i < |s| ==> Holds(u.cells[t.pos + i], s[i]))
            && (forall j :: t.pos + |s| <= j < |u.cells| ==>
                  if j < |t.cells| then u.cells[j] == t.cells[j] else Holds(u.cells[j], ' '))
  {
    hide Write, Holds;
    if s != "" {
      var pre, ch := s[..|s| - 1], s[|s| - 1];
      TextShown(t, pre);
      WriteKeeps(WriteAll(t, pre), ch);
    }
  }

  /** So a text is shown line by line: what is written first does not depend on what follows. */
  lemma {:induction false} WrittenOn(t: Term, a: string, b: string)
    requires TermOk(t)
    ensures WriteAll(t, a + b) == WriteAll(WriteAll(t, a), b)
  {
    if b == "" {
      assert a + b == a;
    } else {
      WrittenOn(t, a, b[..|b| - 1]);
      hide Write;
      assert (a + b)[..|a + b| - 1] == a + b[..|b| - 1];
    }
  }

  // The window.

  /** The buffer shows the terminal's last 24 rows, and its cursor. */
  ghost predicate Shows(vbuf: seq<Cell>, scr: nat, pos: nat, t: Term) {
    && |vbuf| == SIZE && scr % W == 0 && scr + WH <= SIZE && scr <= pos < scr + WH
    && TermOk(t) && pos - scr == t.pos - (|t.cells| - WH)
    && vbuf[scr..scr + WH] == t.cells[|t.cells| - WH..]
  }

  lemma ShiftWindow(v: seq<Cell>, v': seq<Cell>, scr: nat)
    requires |v| == |v'| == SIZE && scr + WH <= SIZE && scr >= W && v' == v[W..] + v[SIZE - W..]
    ensures v'[scr - W..scr - W + WH] == v[scr..scr + WH]
  {
  }

  /** Blanking the row below the window and moving the window down is a new row of the terminal. */
  lemma NewRowWindow(v: seq<Cell>, v': seq<Cell>, scr: nat, cells: seq<Cell>)
    requires |v| == |v'| == SIZE && scr + WH + W <= SIZE && |cells| >= WH
    requires v[scr..scr + WH] == cells[|cells| - WH..]
    requires v'[..scr + WH] == v[..scr + WH] && v'[scr + WH..scr + WH + W] == BlankRow()
    ensures var c := cells + BlankRow(); v'[scr + W..scr + W + WH] == c[|c| - WH..]
  {
    var c := cells + BlankRow();
    var x, y := v'[scr + W..scr + W + WH], c[|c| - WH..];
    forall i | 0 <= i < WH ensures x[i] == y[i] {
      if i < WH - W {
        assert x[i] == v'[..scr + WH][scr + W + i] == v[scr..scr + WH][W + i];
        assert y[i] == cells[|cells| - WH..][W + i];
      } else {
        assert x[i] == v'[scr + WH..scr + WH + W][i - (WH - W)];
      }
    }
  }

  class Console {
    const vbuf: array<Cell>
    var scr: nat
    var pos: nat

    ghost predicate Valid(t: Term)
      reads this, vbuf
    {
      Shows(vbuf[..], scr, pos, t)
    }

    /** init_consl */
    constructor ()
      ensures Valid(Term(seq(WH, _ => Draw(' ')), 0))
    {
      vbuf := new Cell[SIZE](_ => 0);
      scr, pos := 0, 0;
      new;
      for i := 0 to WH
        invariant scr == 0 && pos == 0 && vbuf.Length == SIZE
        invariant forall k :: 0 <= k < i ==> vbuf[k] == Draw(' ')
      {
        vbuf[i] := Draw(' ');
      }
    }

    /** The compaction: every row moves up one. */
    method Compact()
      requires vbuf.Length == SIZE
      modifies vbuf
      ensures vbuf[..] == old(vbuf[..])[W..] + old(vbuf[..])[SIZE - W..]
    {
      for i := W to SIZE
        invariant forall k :: 0 <= k < i - W ==> vbuf[k] == old(vbuf[k + W])
        invariant forall k :: i - W <= k < SIZE ==> vbuf[k] == old(vbuf[k])
      {
        vbuf[i - W] := vbuf[i];
      }
    }

    method BlankRowAt(at: nat)
      requires vbuf.Length == SIZE && at + W <= SIZE
      modifies vbuf
      ensures vbuf[at..at + W] == BlankRow() && vbuf[..at] == old(vbuf[..at])
    {
      for i := 0 to W
        invariant forall k :: 0 <= k < at ==> vbuf[k] == old(vbuf[k])
        invariant forall k :: at <= k < at + i ==> vbuf[k] == Draw(' ')
      {
        vbuf[at + i] := Draw(' ');
      }
    }

    /** scrup: one more row. The cursor stays where it is in the text; it may be up to a row below the window. */
    method ScrollUp(ghost cells: seq<Cell>)
      requires vbuf.Length == SIZE && scr % W == 0 && scr + WH <= SIZE && pos >= W && |cells| >= WH
      requires vbuf[scr..scr + WH] == cells[|cells| - WH..]
      modifies this, vbuf
      ensures scr % W == 0 && scr + WH <= SIZE && pos - scr == old(pos - scr) - W
      ensures var c := cells + BlankRow(); vbuf[scr..scr + WH] == c[|c| - WH..]
    {
      if scr + WH >= SIZE {
        ghost var v := vbuf[..];
        Compact();
        ShiftWindow(v, vbuf[..], scr);
        assert vbuf[scr - W..scr - W + WH] == vbuf[..][scr - W..scr - W + WH];
        scr := scr - W;
        pos := pos - W;
      }
      ghost var v := vbuf[..];
      assert v[scr..scr + WH] == cells[|cells| - WH..];
      BlankRowAt(scr + WH);
      NewRowWindow(v, vbuf[..], scr, cells);
      scr := scr + W;
    }

    /** next */
    method Next(ghost t: Term)
      requires Valid(t)
      modifies this, vbuf
      ensures Valid(Advance(t))
    {
      if pos == scr + WH - 1 {
        ScrollUp(t.cells);
      }
      pos := pos + 1;
    }

    /** putc */
    method PutChar(ch: char, ghost t: Term)
      requires Valid(t)
      modifies vbuf
      ensures Valid(Put(t, ch))
    {
      ghost var v := vbuf[..];
      vbuf[pos] := Draw(ch);
      assert vbuf[..] == v[pos := Draw(ch)];
      PutWindow(v, scr, pos, t, Draw(ch));
    }

    /** cr */
    method Cr(ghost t: Term)
      requires Valid(t)
      modifies this`pos
      ensures Valid(CarriageReturn(t))
    {
      RowStart(t.pos, |t.cells| - WH);
      RowStart(pos, scr);
      SameColumn(pos, scr, t.pos, |t.cells| - WH);
      pos := pos - pos % W;
    }

    /** lf */
    method Lf(ghost t: Term)
      requires Valid(t)
      modifies this, vbuf
      ensures Valid(LineFeed(t))
    {
      pos := pos + W;
      if pos >= scr + WH {
        ScrollUp(t.cells);
      }
    }

    /** consl_writec: the window follows the terminal through every character. */
    method WriteChar(ch: char, ghost t: Term)
      requires Valid(t)
      modifies this, vbuf
      ensures Valid(Write(t, ch))
    {
      WriteParts(t, ch);
      hide Shows;
      if ch == '\r' {
        Cr(t);
      } else if ch == '\n' {
        Cr(t);
        Lf(CarriageReturn(t));
      } else {
        PutChar(ch, t);
        Next(Put(t, ch));
      }
    }

    /** The DEV_WRITE loop: after any text, the window is the last 24 rows of the terminal that was given it. */
    method WriteText(s: string, ghost t: Term)
      requires TermOk(t) && Valid(t)
      modifies this, vbuf
      ensures Valid(WriteAll(t, s))
    {
      hide Shows, Write;
      for i := 0 to |s|
        invariant Valid(WriteAll(t, s[..i]))
      {
        WriteChar(s[i], WriteAll(t, s[..i]));
        assert s[..i + 1][..i] == s[..i];
      }
      assert s[..|s|] == s;
    }
  }

  lemma WriteParts(t: Term, ch: char)
    requires t.pos < |t.cells|
    ensures Write(t, ch) ==
            if ch == '\r' then CarriageReturn(t)
            else if ch == '\n' then LineFeed(CarriageReturn(t))
            else Advance(Put(t, ch))
  {
  }

  lemma SameColumn(p: nat, a: nat, q: nat, b: nat)
    requires a % W == 0 && b % W == 0 && a <= p && b <= q && p - a == q - b
    ensures p % W == q % W
  {
    var x, y, z := a / W, b / W, p - a;
    assert p == z + x * W && q == z + y * W;
  }

  lemma PutWindow(v: seq<Cell>, scr: nat, pos: nat, t: Term, x: Cell)
    requires Shows(v, scr, pos, t)
    ensures Shows(v[pos := x], scr, pos, t.(cells := t.cells[t.pos := x]))
  {
    var n := |t.cells| - WH;
    var a, b := v[pos := x][scr..scr + WH], t.cells[t.pos := x][n..];
    forall i | 0 <= i < WH ensures a[i] == b[i] {
      assert v[scr..scr + WH][i] == t.cells[n..][i];
    }
  }
}
