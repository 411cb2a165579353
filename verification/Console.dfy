/**
  con_write (linux-0.11/kernel/chr_drv/console.c): the escape sequences, on top of
  a screen in video memory. Whatever the display, a stream of bytes shows what
  Terminal says.
 */
module Console {
  import opened Screens
  import opened Terminal
  import V = Video

  class Console {
    const scr: V.Video
    const erase: nat
    const par: array<nat>
    var attr: nat
    var state: nat
    var npar: nat
    var ques: bool
    var savedX: nat
    var savedY: nat
    var answers: nat

    ghost function T(): Term
      requires scr.Framed()
      reads this, par, scr, scr.video
    {
      Term(scr.T(), attr, state, npar, par[..], ques, savedX, savedY, erase, answers)
    }

    ghost predicate Valid()
      reads this, par, scr, scr.video
    {
      scr.Valid() && par != scr.video && par.Length == NPAR && Good(T())
    }

    constructor (scr: V.Video, erase: nat)
      requires scr.Valid()
      ensures Valid() && this.scr == scr && fresh(par)
      ensures T() == Term(scr.T(), 0x07, 0, 0, Zeros(), false, 0, 0, erase, 0)
    {
      this.scr, this.erase := scr, erase;
      par := new nat[NPAR](i => 0);
      attr, state, npar, ques, savedX, savedY, answers := 0x07, 0, 0, false, 0, 0, 0;
    }

    method Plain(c: nat)
      requires Valid()
      modifies this`state, scr, scr.video
      ensures Valid() && T() == Terminal.Plain(old(T()), c)
    {
      hide Ok, Lf, Tab, Typed, Wrapped, Del;
      if 31 < c < 127 {
        scr.Wrap();
        scr.Type(attr * 256 + c);
      } else if c == ESC {
        state := 1;
      } else if c == 10 || c == 11 || c == 12 {
        scr.Lf();
      } else if c == 13 {
        scr.Cr();
      } else if c == erase && c < 128 {
        scr.Del();
      } else if c == 8 {
        scr.Back();
      } else if c == 9 {
        scr.Tab();
      }
    }

    method Goto(x: int, y: int)
      requires Valid()
      modifies scr
      ensures Valid() && T() == Terminal.Goto(old(T()), x, y)
    {
      hide Ok;
      scr.GotoXY(x, y);
    }

    method Escape(c: nat)
      requires Valid()
      modifies this, scr, scr.video
      ensures Valid() && T() == Terminal.Escape(old(T()), c)
    {
      hide Lf, Ri, GotoXY;
      state := 0;
      if c == '[' as nat {
        state := 2;
      } else if c == 'E' as nat {
        Goto(0, scr.y + 1);
      } else if c == 'M' as nat {
        scr.Ri();
      } else if c == 'D' as nat {
        scr.Lf();
      } else if c == 'Z' as nat {
        answers := answers + 1;
      } else if scr.x == '7' as nat {
        savedX, savedY := scr.x, scr.y;
      } else if scr.x == '8' as nat {
        Goto(savedX, savedY);
      }
    }

    method SetPar(i: nat, v: nat)
      requires Valid() && i < NPAR && v < WORD
      modifies par
      ensures Valid() && T() == old(T()).(par := old(par[..])[i := v])
    {
      par[i] := v;
      assert Words(par[..]);
    }

    // A parameter left out means one.
    method AtLeast(i: nat)
      requires Valid() && i < NPAR
      modifies par
      ensures Valid() && T() == old(T()).(par := old(par[..])[i := AtLeastOne(old(par[i]))])
    {
      hide Words, Ok;
      if par[i] == 0 { SetPar(i, 1); } else { assert par[..] == par[..][i := par[i]]; }
    }

    // Rows and columns are counted from one in the sequences.
    method CountFromZero(i: nat)
      requires Valid() && i < NPAR
      modifies par
      ensures Valid() && T() == old(T()).(par := old(par[..])[i := FromZero(old(par[i]))])
    {
      if par[i] > 0 { SetPar(i, par[i] - 1); } else { assert par[..] == par[..][i := par[i]]; }
    }

    method Params(c: nat)
      requires Valid()
      modifies this, par, scr, scr.video
      ensures Valid() && T() == Terminal.Params(old(T()), c)
    {
      hide Words, Terminal.Command, Ok;
      if c == ';' as nat && npar < NPAR - 1 {
        npar := npar + 1;
      } else if '0' as nat <= c <= '9' as nat {
        SetPar(npar, (10 * par[npar] + c - '0' as nat) % WORD);
      } else {
        state := 0;
        Command(c);
      }
    }

    method Command(c: nat)
      requires Valid()
      modifies this, par, scr, scr.video
      ensures Valid() && T() == Terminal.Command(old(T()), c)
    {
      hide Words, Terminal.Move, Terminal.Place, Terminal.Region, Attr, Clamp;
      hide EraseDisplay, EraseLine, InsertLines, DeleteLines, Delete, Insert, GotoXY;
      if Moves(c) { Move(c); }
      else if Places(c) { Place(c); }
      else if c == 'J' as nat { scr.CsiJ(par[0]); }
      else if c == 'K' as nat { scr.CsiK(par[0]); }
      else if c == 'L' as nat { scr.CsiL(par[0]); }
      else if c == 'M' as nat { scr.CsiM(par[0]); }
      else if c == 'P' as nat { scr.CsiP(par[0]); }
      else if c == '@' as nat { scr.CsiAt(par[0]); }
      else if c == 'm' as nat { CsiAttr(); }
      else if c == 'r' as nat { Region(); }
      else if c == 's' as nat { savedX, savedY := scr.x, scr.y; }
      else if c == 'u' as nat { Goto(savedX, savedY); }
    }

    method CsiAttr()
      requires Valid()
      modifies this`attr
      ensures Valid() && T() == old(T()).(attr := Attr(par[..], npar + 1, old(attr)))
    {
      var i := 0;
      while i <= npar
        invariant 0 <= i <= npar + 1 && Valid() && attr == Attr(par[..], i, old(attr))
      {
        attr := AttrOf(par[i], attr);
        i := i + 1;
      }
    }

    method Move(c: nat)
      requires Valid()
      modifies par, scr
      ensures Valid() && T() == Terminal.Move(old(T()), c)
    {
      hide Words, GotoXY, Ok, Moves, Terminal.Goto;
      AtLeast(0);
      var n := par[0];
      if c == 'A' as nat {
        Goto(scr.x, scr.y - n);
      } else if c == 'B' as nat || c == 'e' as nat {
        Goto(scr.x, scr.y + n);
      } else if c == 'C' as nat || c == 'a' as nat {
        Goto(scr.x + n, scr.y);
      } else if c == 'D' as nat {
        Goto(scr.x - n, scr.y);
      } else if c == 'E' as nat {
        Goto(0, scr.y + n);
      } else {
        Goto(0, scr.y - n);
      }
    }

    method Place(c: nat)
      requires Valid()
      modifies par, scr
      ensures Valid() && T() == Terminal.Place(old(T()), c)
    {
      hide GotoXY, Ok, Places, Terminal.Goto;
      CountFromZero(0);
      if c == 'G' as nat || c == '`' as nat {
        Goto(par[0], scr.y);
      } else if c == 'd' as nat {
        Goto(scr.x, par[0]);
      } else {
        CountFromZero(1);
        Goto(par[1], par[0]);
      }
    }

    method Region()
      requires Valid()
      modifies par, scr
      ensures Valid() && T() == Terminal.Region(old(T()))
    {
      CountFromZero(0);
      if par[1] == 0 { SetPar(1, scr.lines); }
      if par[0] < par[1] && par[1] <= scr.lines {
        scr.top, scr.bottom := par[0], par[1];
      }
    }

    method WriteByte(c: nat)
      requires Valid()
      modifies this, par, scr, scr.video
      ensures Valid() && T() == Feed(old(T()), c)
    {
      hide Ok, Terminal.Plain, Terminal.Escape, Terminal.Params;
      if state == 0 {
        Plain(c);
      } else if state == 1 {
        Escape(c);
      } else if state == 2 {
        forall i | 0 <= i < NPAR { par[i] := 0; }
        assert par[..] == Zeros();
        npar, state, ques := 0, 3, c == '?' as nat;
        if !ques { Params(c); }
      } else {
        Params(c);
      }
    }

    /** con_write: for every stream of bytes the screen is what Terminal says; the cursor's address is that of its
        row and column. */
    method Write(bytes: seq<nat>)
      requires Valid()
      modifies this, par, scr, scr.video
      ensures Valid() && T() == Shown(old(T()), bytes)
      ensures scr.x <= scr.cols && scr.y < scr.lines && scr.pos == scr.origin + scr.y * scr.cols + scr.x
      ensures scr.origin + scr.lines * scr.cols == scr.scrEnd <= scr.video.Length
    {
      ghost var t := T();
      for i := 0 to |bytes|
        invariant Valid() && T() == Shown(t, bytes[..i])
      {
        WriteByte(bytes[i]);
        hide Feed;
        assert bytes[..i + 1][..i] == bytes[..i];
      }
      assert bytes[..|bytes|] == bytes;
      RowIsProduct(scr.y, scr.cols);
      RowIsProduct(scr.lines, scr.cols);
    }
  }

  /** A display that scrolls by its origin and one that copies show the same, byte for byte. */
  method SameOnBoth(c: Console, d: Console, bytes: seq<nat>)
    requires c.Valid() && d.Valid() && c.T() == d.T()
    requires {c, c.scr} !! {d, d.scr} && c.par != d.par && c.scr.video != d.scr.video && c.par != d.scr.video && d.par != c.scr.video
    modifies c, c.par, c.scr, c.scr.video, d, d.par, d.scr, d.scr.video
    ensures c.Valid() && d.Valid() && c.T() == d.T()
  {
    c.Write(bytes);
    d.Write(bytes);
  }
}
