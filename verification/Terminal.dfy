/**
  What a console shows for a stream of bytes (linux-0.11/kernel/chr_drv/console.c).
 */
module Terminal {
  import opened Screens

  const NPAR: nat := 16
  const ESC: nat := 27

  /** `answers` counts the replies to ESC Z. */
  datatype Term = Term(scr: Screen, attr: nat, state: nat, npar: nat, par: seq<nat>, ques: bool,
                       savedX: nat, savedY: nat, erase: nat, answers: nat)

  predicate Words(par: seq<nat>) {
    |par| == NPAR && forall i :: 0 <= i < NPAR ==> par[i] < WORD
  }

  function Zeros(): (par: seq<nat>)
    ensures Words(par)
  {
    seq(NPAR, _ => 0)
  }

  predicate Good(t: Term) {
    && Ok(t.scr) && Words(t.par) && t.npar < NPAR && t.state < 4
    && t.savedX <= t.scr.cols && t.savedY < t.scr.lines
  }

  /** Only the screen changes, and not its size. */
  function With(t: Term, s: Screen): (r: Term)
    requires Good(t) && Ok(s) && s.lines == t.scr.lines && s.cols == t.scr.cols
    ensures Good(r)
  {
    t.(scr := s)
  }

  function Goto(t: Term, x: int, y: int): (r: Term)
    requires Good(t)
    ensures Good(r)
  {
    With(t, GotoXY(t.scr, x, y))
  }

  function AttrOf(par: nat, attr: nat): nat {
    if par == 0 || par == 27 then 0x07 else if par == 1 || par == 4 then 0x0f else if par == 7 then 0x70 else attr
  }

  function Attr(par: seq<nat>, n: nat, attr: nat): nat
    requires n <= |par|
  {
    if n == 0 then attr else AttrOf(par[n - 1], Attr(par, n - 1, attr))
  }

  // ---------- one byte ----------

  function Plain(t: Term, c: nat): (r: Term)
    requires Good(t)
    ensures Good(r)
  {
    if 31 < c < 127 then With(t, Typed(Wrapped(t.scr), t.attr * 256 + c))
    else if c == ESC then t.(state := 1)
    else if 10 <= c <= 12 then With(t, Lf(t.scr))
    else if c == 13 then With(t, t.scr.(x := 0))
    else if c == t.erase && c < 128 then With(t, Del(t.scr))
    else if c == 8 then With(t, Back(t.scr))
    else if c == 9 then With(t, Tab(t.scr))
    else t
  }

  /** After ESC. That 7 and 8 are compared with the column, not with the byte, is the code's way. */
  function Escape(u: Term, c: nat): (r: Term)
    requires Good(u)
    ensures Good(r)
  {
    var t := u.(state := 0);
    if c == '[' as nat then t.(state := 2)
    else if c == 'E' as nat then Goto(t, 0, t.scr.y + 1)
    else if c == 'M' as nat then With(t, Ri(t.scr))
    else if c == 'D' as nat then With(t, Lf(t.scr))
    else if c == 'Z' as nat then t.(answers := t.answers + 1)
    else if t.scr.x == '7' as nat then t.(savedX := t.scr.x, savedY := t.scr.y)
    else if t.scr.x == '8' as nat then Goto(t, t.savedX, t.savedY)
    else t
  }

  function Params(t: Term, c: nat): (r: Term)
    requires Good(t)
    ensures Good(r)
  {
    if c == ';' as nat && t.npar < NPAR - 1 then t.(npar := t.npar + 1)
    else if '0' as nat <= c <= '9' as nat then
      t.(par := t.par[t.npar := (10 * t.par[t.npar] + c - '0' as nat) % WORD])
    else Command(t.(state := 0), c)
  }

  function AtLeastOne(n: nat): nat {
    if n == 0 then 1 else n
  }

  function FromZero(n: nat): nat {
    if n > 0 then n - 1 else n
  }

  function Move(u: Term, c: nat): (r: Term)
    requires Good(u)
    ensures Good(r)
  {
    var t := u.(par := u.par[0 := AtLeastOne(u.par[0])]);
    var n := t.par[0];
    if c == 'A' as nat then Goto(t, t.scr.x, t.scr.y - n)
    else if c == 'B' as nat || c == 'e' as nat then Goto(t, t.scr.x, t.scr.y + n)
    else if c == 'C' as nat || c == 'a' as nat then Goto(t, t.scr.x + n, t.scr.y)
    else if c == 'D' as nat then Goto(t, t.scr.x - n, t.scr.y)
    else if c == 'E' as nat then Goto(t, 0, t.scr.y + n)
    else Goto(t, 0, t.scr.y - n)
  }

  predicate Moves(c: nat) {
    'A' as nat <= c <= 'F' as nat || c == 'e' as nat || c == 'a' as nat
  }

  function Place(u: Term, c: nat): (r: Term)
    requires Good(u)
    ensures Good(r)
  {
    var t := u.(par := u.par[0 := FromZero(u.par[0])]);
    if c == 'G' as nat || c == '`' as nat then Goto(t, t.par[0], t.scr.y)
    else if c == 'd' as nat then Goto(t, t.scr.x, t.par[0])
    else
      var v := t.(par := t.par[1 := FromZero(t.par[1])]);
      Goto(v, v.par[1], v.par[0])
  }

  predicate Places(c: nat) {
    c == 'G' as nat || c == '`' as nat || c == 'd' as nat || c == 'H' as nat || c == 'f' as nat
  }

  function Region(u: Term): (r: Term)
    requires Good(u)
    ensures Good(r)
  {
    var t := u.(par := u.par[0 := FromZero(u.par[0])]);
    var v := if t.par[1] == 0 then t.(par := t.par[1 := t.scr.lines]) else t;
    if v.par[0] < v.par[1] && v.par[1] <= v.scr.lines then With(v, v.scr.(top := v.par[0], bottom := v.par[1])) else v
  }

  function Command(t: Term, c: nat): (r: Term)
    requires Good(t)
    ensures Good(r)
  {
    if Moves(c) then Move(t, c)
    else if Places(c) then Place(t, c)
    else if c == 'J' as nat then With(t, EraseDisplay(t.scr, t.par[0]))
    else if c == 'K' as nat then With(t, EraseLine(t.scr, t.par[0]))
    else if c == 'L' as nat then With(t, InsertLines(t.scr, Clamp(t.par[0], t.scr.lines)))
    else if c == 'M' as nat then With(t, DeleteLines(t.scr, Clamp(t.par[0], t.scr.lines)))
    else if c == 'P' as nat then With(t, Delete(t.scr, Clamp(t.par[0], t.scr.cols)))
    else if c == '@' as nat then With(t, Insert(t.scr, Clamp(t.par[0], t.scr.cols)))
    else if c == 'm' as nat then t.(attr := Attr(t.par, t.npar + 1, t.attr))
    else if c == 'r' as nat then Region(t)
    else if c == 's' as nat then t.(savedX := t.scr.x, savedY := t.scr.y)
    else if c == 'u' as nat then Goto(t, t.savedX, t.savedY)
    else t
  }

  function Feed(t: Term, c: nat): (r: Term)
    requires Good(t)
    ensures Good(r)
  {
    if t.state == 0 then Plain(t, c)
    else if t.state == 1 then Escape(t, c)
    else if t.state == 2 then
      var u := t.(par := Zeros(), npar := 0, state := 3, ques := c == '?' as nat);
      if u.ques then u else Params(u, c)
    else Params(t, c)
  }

  function Shown(t: Term, bytes: seq<nat>): (r: Term)
    requires Good(t)
    ensures Good(r)
  {
    if bytes == [] then t else Feed(Shown(t, bytes[..|bytes| - 1]), bytes[|bytes| - 1])
  }

  /** ESC 7 is meant to save the cursor. It does so exactly in column 55, or when there is nothing to do. */
  lemma EscSevenExact(t: Term)
    requires Good(t) && t.state == 0
    ensures Good(Feed(t, ESC))
    ensures var u := Feed(Feed(t, ESC), '7' as nat);
      (u.scr == t.scr && u.savedX == t.scr.x && u.savedY == t.scr.y <==> t.scr.x == 55 || (t.savedX == t.scr.x && t.savedY == t.scr.y))
  {
  }

  /** ESC 8 is meant to bring it back. It does so exactly in column 56, or when it is there already. */
  lemma EscEightExact(t: Term)
    requires Good(t) && t.state == 0
    ensures Good(Feed(t, ESC))
    ensures var u := Feed(Feed(t, ESC), '8' as nat);
      (u.scr.x == t.savedX && u.scr.y == t.savedY <==> t.scr.x == 56 || (t.savedX == t.scr.x && t.savedY == t.scr.y))
  {
    assert t.savedX % WORD == t.savedX && t.savedY % WORD == t.savedY;
  }

  /** In the corner of a fresh 80 by 25 screen, after a move to column 3, ESC 7 saves nothing. */
  lemma EscSevenLosesTheCursor()
    ensures var t := Term(Cleared(25, 80).(x := 3), 0x07, 0, 0, Zeros(), false, 0, 0, 127, 0);
      Good(t) && Feed(Feed(t, ESC), '7' as nat).savedX == 0
  {
  }

  /** With the cursor saved in the corner, ESC 8 leaves it in column 3. */
  lemma EscEightLeavesTheCursor()
    ensures var t := Term(Cleared(25, 80).(x := 3), 0x07, 0, 0, Zeros(), false, 0, 0, 127, 0);
      Good(t) && t.savedX == 0 && Feed(Feed(t, ESC), '8' as nat).scr.x == 3
  {
  }
}
