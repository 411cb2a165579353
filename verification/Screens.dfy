/**
  A terminal screen as a plain grid (linux-0.11/kernel/chr_drv/console.c): what
  each action shows, without video memory or a moving origin.
 */
module Screens {

  const WORD: nat := 0x1_0000_0000     // unsigned arithmetic wraps here
  const BLANK: nat := 0x0720           // a space in the default colours

  // A character and its attribute, as the video memory has them.
  type Cell = nat

  /** The grid, row by row; the cursor; the scroll region. */
  datatype Screen = Screen(lines: nat, cols: nat, cells: seq<Cell>, x: nat, y: nat, top: nat, bottom: nat)

  /** The cursor is on screen, or just behind the end of its row, and the scroll region is inside the screen. */
  predicate Ok(t: Screen) {
    && 8 <= t.cols < WORD && 1 <= t.lines < WORD && |t.cells| == Row(t.lines, t.cols)
    && t.x <= t.cols && t.y < t.lines && t.top < t.bottom <= t.lines
  }

  function Cursor(t: Screen): nat {
    Row(t.y, t.cols) + t.x
  }

  // Where row `n` starts.
  function Row(n: nat, cols: nat): nat {
    if n == 0 then 0 else Row(n - 1, cols) + cols
  }

  lemma {:induction false} RowIsProduct(n: nat, cols: nat)
    ensures Row(n, cols) == n * cols
  {
    if n > 0 {
      RowIsProduct(n - 1, cols);
      assert n * cols == (n - 1) * cols + cols;
    }
  }

  lemma {:induction false} Rows(cols: nat, a: nat, b: nat)
    requires a < b
    ensures Row(a, cols) + cols <= Row(b, cols)
    ensures Row(b - a - 1, cols) == Row(b, cols) - Row(a, cols) - cols
  {
    if a + 1 < b { Rows(cols, a, b - 1); }
  }

  lemma {:induction false} EvenRows(half: nat, cols: nat, n: nat)
    requires cols == half + half
    ensures Row(n, cols) == Row(n, half) + Row(n, half)
  {
    if n > 0 { EvenRows(half, cols, n - 1); }
  }

  lemma OnScreen(t: Screen)
    requires Ok(t)
    ensures Row(t.y, t.cols) + t.cols <= |t.cells| && Cursor(t) <= |t.cells|
    ensures Row(t.top, t.cols) + t.cols <= Row(t.bottom, t.cols) <= |t.cells|
  {
    Rows(t.cols, t.y, t.lines);
    Rows(t.cols, t.top, t.bottom);
    if t.bottom < t.lines { Rows(t.cols, t.bottom, t.lines); }
  }

  // Just behind the cursor's row.
  function RowEnd(t: Screen): nat {
    Row(t.y, t.cols) + t.cols
  }

  function Blanks(n: nat): (s: seq<Cell>)
    ensures |s| == n
  {
    seq(n, _ => BLANK)
  }

  /** An empty screen with the cursor in the corner. */
  function Cleared(lines: nat, cols: nat): Screen {
    Screen(lines, cols, Blanks(Row(lines, cols)), 0, 0, 0, lines)
  }

  // ---------- parts of the screen ----------

  /** `s` with `n` cells from `src` copied to `dst`, as if all were read first. */
  function Copied(s: seq<Cell>, src: nat, dst: nat, n: nat): (r: seq<Cell>)
    requires src + n <= |s| && dst + n <= |s|
    ensures |r| == |s|
  {
    s[..dst] + s[src..src + n] + s[dst + n..]
  }

  lemma CopyOn(s: seq<Cell>, src: nat, dst: nat, n: nat)
    requires dst <= src && src + n < |s|
    ensures var r := Copied(s, src, dst, n); Copied(s, src, dst, n + 1) == r[dst + n := r[src + n]]
  {
  }

  lemma CopyBack(s: seq<Cell>, src: nat, dst: nat, src0: nat, dst0: nat, n0: nat, n: nat)
    requires src <= dst && dst + n0 < |s| && src0 == src + 1 && dst0 == dst + 1 && n == n0 + 1
    ensures var r := Copied(s, src0, dst0, n0); Copied(s, src, dst, n) == r[dst := r[src]]
  {
  }

  function Erased(s: seq<Cell>, first: nat, n: nat): (r: seq<Cell>)
    requires first + n <= |s|
    ensures |r| == |s|
  {
    s[..first] + Blanks(n) + s[first + n..]
  }

  /** Rows from `a` to `b` (as cell indices) move up by one row. */
  function Up(s: seq<Cell>, a: nat, b: nat, cols: nat): (r: seq<Cell>)
    requires a + cols <= b <= |s|
    ensures |r| == |s|
  {
    s[..a] + s[a + cols..b] + Blanks(cols) + s[b..]
  }

  function Down(s: seq<Cell>, a: nat, b: nat, cols: nat): (r: seq<Cell>)
    requires a + cols <= b <= |s|
    ensures |r| == |s|
  {
    s[..a] + Blanks(cols) + s[a..b - cols] + s[b..]
  }

  lemma CopiedAt(s: seq<Cell>, src: nat, dst: nat, n: nat, i: nat)
    requires src + n <= |s| && dst + n <= |s| && i < |s|
    ensures Copied(s, src, dst, n)[i] == if dst <= i < dst + n then s[i - dst + src] else s[i]
  {
  }

  lemma ErasedAt(s: seq<Cell>, first: nat, n: nat, i: nat)
    requires first + n <= |s| && i < |s|
    ensures Erased(s, first, n)[i] == if first <= i < first + n then BLANK else s[i]
  {
  }

  lemma UpAt(s: seq<Cell>, a: nat, b: nat, cols: nat, i: nat)
    requires a + cols <= b <= |s| && i < |s|
    ensures Up(s, a, b, cols)[i] == if a <= i < b - cols then s[i + cols] else if b - cols <= i < b then BLANK else s[i]
  {
  }

  lemma DownAt(s: seq<Cell>, a: nat, b: nat, cols: nat, i: nat)
    requires a + cols <= b <= |s| && i < |s|
    ensures Down(s, a, b, cols)[i] == if a <= i < a + cols then BLANK else if a + cols <= i < b then s[i - cols] else s[i]
  {
  }

  /** Copying within the window `o..e` of video memory and clearing the row left over scrolls the screen up. */
  lemma CopyScrollsUp(v: seq<Cell>, o: nat, e: nat, a: nat, b: nat, c: nat, src: nat, dst: nat, n: nat, last: nat)
    requires o <= e <= |v| && a + c <= b <= e - o
    requires src == o + a + c && dst == o + a && n == b - a - c && last == o + b - c
    ensures Erased(Copied(v, src, dst, n), last, c)[o..e] == Up(v[o..e], a, b, c)
  {
    var u := Copied(v, src, dst, n);
    var r, w := Erased(u, last, c)[o..e], Up(v[o..e], a, b, c);
    hide Copied, Erased, Up;
    forall i: nat | i < e - o ensures r[i] == w[i] {
      CopiedAt(v, src, dst, n, o + i);
      ErasedAt(u, last, c, o + i);
      UpAt(v[o..e], a, b, c, i);
    }
  }

  lemma CopyScrollsDown(v: seq<Cell>, o: nat, e: nat, a: nat, b: nat, c: nat, src: nat, dst: nat, n: nat)
    requires o <= e <= |v| && a + c <= b <= e - o
    requires src == o + a && dst == o + a + c && n == b - a - c
    ensures Erased(Copied(v, src, dst, n), src, c)[o..e] == Down(v[o..e], a, b, c)
  {
    var u := Copied(v, src, dst, n);
    var r, w := Erased(u, src, c)[o..e], Down(v[o..e], a, b, c);
    hide Copied, Erased, Down;
    forall i: nat | i < e - o ensures r[i] == w[i] {
      CopiedAt(v, src, dst, n, o + i);
      ErasedAt(u, src, c, o + i);
      DownAt(v[o..e], a, b, c, i);
    }
  }

  /** Moving the window one row on, over a cleared row, scrolls the whole screen up. */
  lemma OriginScrollsUp(v: seq<Cell>, o: nat, e: nat, c: nat)
    requires o + c <= e && e + c <= |v|
    ensures Erased(v, e, c)[o + c..e + c] == Up(v[o..e], 0, e - o, c)
  {
    var r, w := Erased(v, e, c)[o + c..e + c], Up(v[o..e], 0, e - o, c);
    hide Erased, Up;
    forall i: nat | i < e - o ensures r[i] == w[i] {
      ErasedAt(v, e, c, o + c + i);
      UpAt(v[o..e], 0, e - o, c, i);
    }
  }

  /** So does moving the window to the start of the memory, with all rows but the first copied there. */
  lemma WrapScrollsUp(v: seq<Cell>, o: nat, e: nat, c: nat, src: nat, last: nat)
    requires o + c <= e <= |v| && src == o + c && last == e - src
    ensures Erased(Copied(v, src, 0, last), last, c)[0..last + c] == Up(v[o..e], 0, last + c, c)
  {
    var u := Copied(v, src, 0, last);
    var r, w := Erased(u, last, c)[0..last + c], Up(v[o..e], 0, last + c, c);
    hide Copied, Erased, Up;
    forall i: nat | i < e - o ensures r[i] == w[i] {
      CopiedAt(v, src, 0, last, i);
      ErasedAt(u, last, c, i);
      UpAt(v[o..e], 0, last + c, c, i);
    }
  }

  /** Erasing or writing inside the window. */
  lemma EraseInWindow(v: seq<Cell>, o: nat, e: nat, first: nat, i: nat, n: nat)
    requires o <= e <= |v| && first == o + i && i + n <= e - o
    ensures Erased(v, first, n)[o..e] == Erased(v[o..e], i, n)
  {
    var r, w := Erased(v, first, n)[o..e], Erased(v[o..e], i, n);
    hide Erased;
    forall j: nat | j < e - o ensures r[j] == w[j] {
      ErasedAt(v, first, n, o + j);
      ErasedAt(v[o..e], i, n, j);
    }
  }

  lemma PokeInWindow(v: seq<Cell>, o: nat, e: nat, p: nat, i: nat, c: Cell)
    requires o <= e <= |v| && p == o + i && i < e - o
    ensures v[p := c][o..e] == v[o..e][i := c]
  {
  }

  function ScrollUp(t: Screen, top: nat, bottom: nat): (r: Screen)
    requires Ok(t) && top < bottom <= t.lines
    ensures Ok(r) && r == t.(cells := r.cells)
  {
    Rows(t.cols, top, bottom);
    if bottom < t.lines then Rows(t.cols, bottom, t.lines); t.(cells := Up(t.cells, Row(top, t.cols), Row(bottom, t.cols), t.cols))
    else t.(cells := Up(t.cells, Row(top, t.cols), Row(bottom, t.cols), t.cols))
  }

  function ScrollDown(t: Screen, top: nat, bottom: nat): (r: Screen)
    requires Ok(t) && top < bottom <= t.lines
    ensures Ok(r) && r == t.(cells := r.cells)
  {
    Rows(t.cols, top, bottom);
    if bottom < t.lines then Rows(t.cols, bottom, t.lines); t.(cells := Down(t.cells, Row(top, t.cols), Row(bottom, t.cols), t.cols))
    else t.(cells := Down(t.cells, Row(top, t.cols), Row(bottom, t.cols), t.cols))
  }

  // ---------- single actions ----------

  function GotoXY(t: Screen, x: int, y: int): (r: Screen)
    requires Ok(t)
    ensures Ok(r) && r.lines == t.lines && r.cols == t.cols
  {
    if x % WORD > t.cols || y % WORD >= t.lines then t else t.(x := x % WORD, y := y % WORD)
  }

  function Lf(t: Screen): (r: Screen)
    requires Ok(t)
    ensures Ok(r) && r.x == t.x && r.lines == t.lines && r.cols == t.cols
  {
    if t.y + 1 < t.bottom then t.(y := t.y + 1) else ScrollUp(t, t.top, t.bottom)
  }

  function Ri(t: Screen): (r: Screen)
    requires Ok(t)
    ensures Ok(r) && r.x == t.x && r.lines == t.lines && r.cols == t.cols
  {
    if t.y > t.top then t.(y := t.y - 1) else ScrollDown(t, t.top, t.bottom)
  }

  // A cursor behind the end of its row goes to the next one.
  function Wrapped(t: Screen): (r: Screen)
    requires Ok(t)
    ensures Ok(r) && r.x < r.cols && r.lines == t.lines && r.cols == t.cols
  {
    if t.x >= t.cols then Lf(t.(x := t.x - t.cols)) else t
  }

  function Typed(t: Screen, c: Cell): (r: Screen)
    requires Ok(t) && t.x < t.cols
    ensures Ok(r) && r.lines == t.lines && r.cols == t.cols
  {
    OnScreen(t);
    t.(cells := t.cells[Cursor(t) := c], x := t.x + 1)
  }

  function Back(t: Screen): (r: Screen)
    requires Ok(t)
    ensures Ok(r) && r.lines == t.lines && r.cols == t.cols
  {
    if t.x > 0 then t.(x := t.x - 1) else t
  }

  function Tab(t: Screen): (r: Screen)
    requires Ok(t)
    ensures Ok(r) && r.lines == t.lines && r.cols == t.cols
  {
    var x := t.x + 8 - t.x % 8;
    if x > t.cols then Lf(t.(x := x - t.cols)) else t.(x := x)
  }

  function Del(t: Screen): (r: Screen)
    requires Ok(t)
    ensures Ok(r) && r.lines == t.lines && r.cols == t.cols
  {
    OnScreen(t);
    if t.x > 0 then t.(x := t.x - 1, cells := t.cells[Cursor(t) - 1 := BLANK]) else t
  }

  function EraseDisplay(t: Screen, par: nat): (r: Screen)
    requires Ok(t)
    ensures Ok(r) && r.lines == t.lines && r.cols == t.cols
  {
    OnScreen(t);
    if par == 0 then t.(cells := Erased(t.cells, Cursor(t), |t.cells| - Cursor(t)))
    else if par == 1 then t.(cells := Erased(t.cells, 0, Cursor(t)))
    else if par == 2 then t.(cells := Erased(t.cells, 0, |t.cells|))
    else t
  }

  function EraseLine(t: Screen, par: nat): (r: Screen)
    requires Ok(t)
    ensures Ok(r) && r.lines == t.lines && r.cols == t.cols
  {
    OnScreen(t);
    var row := Row(t.y, t.cols);
    if par == 0 then t.(cells := Erased(t.cells, Cursor(t), t.cols - t.x))
    else if par == 1 then t.(cells := Erased(t.cells, row, t.x))
    else if par == 2 then t.(cells := Erased(t.cells, row, t.cols))
    else t
  }

  // A blank at `c`, and what was there moves on, up to `e`.
  function ShiftRight(s: seq<Cell>, c: nat, e: nat): (r: seq<Cell>)
    requires c < e <= |s|
    ensures |r| == |s|
  {
    s[..c] + [BLANK] + s[c..e - 1] + s[e..]
  }

  function ShiftLeft(s: seq<Cell>, c: nat, e: nat): (r: seq<Cell>)
    requires c < e <= |s|
    ensures |r| == |s|
  {
    s[..c] + s[c + 1..e] + [BLANK] + s[e..]
  }

  lemma ShiftFirst(s: seq<Cell>, c: nat, e: nat)
    requires c < |s| && e == c + 1
    ensures ShiftRight(s, c, e) == s[c := BLANK] == ShiftLeft(s, c, e)
  {
  }

  lemma ShiftOn(s: seq<Cell>, c: nat, e: nat, e1: nat)
    requires c < e < |s| && e1 == e + 1
    ensures ShiftRight(s, c, e1) == ShiftRight(s, c, e)[e := s[e - 1]]
    ensures ShiftLeft(s, c, e1) == ShiftLeft(s, c, e)[e - 1 := s[e]][e := BLANK]
    ensures ShiftLeft(s, c, e)[e] == s[e] == ShiftRight(s, c, e)[e]
  {
  }

  lemma ShiftAt(s: seq<Cell>, c: nat, e: nat, i: nat)
    requires c < e <= |s| && i < |s|
    ensures ShiftRight(s, c, e)[i] == if i < c || i >= e then s[i] else if i == c then BLANK else s[i - 1]
    ensures ShiftLeft(s, c, e)[i] == if i < c || i >= e then s[i] else if i == e - 1 then BLANK else s[i + 1]
  {
  }

  lemma ShiftInWindow(v: seq<Cell>, o: nat, e: nat, c: nat, i: nat, f: nat, j: nat)
    requires o <= e <= |v| && c == o + i && f == o + j && i < j <= e - o
    ensures ShiftRight(v, c, f)[o..e] == ShiftRight(v[o..e], i, j) && ShiftLeft(v, c, f)[o..e] == ShiftLeft(v[o..e], i, j)
  {
    var r, w := ShiftRight(v, c, f)[o..e], ShiftRight(v[o..e], i, j);
    var r', w' := ShiftLeft(v, c, f)[o..e], ShiftLeft(v[o..e], i, j);
    hide ShiftRight, ShiftLeft;
    forall k: nat | k < e - o ensures r[k] == w[k] && r'[k] == w'[k] {
      ShiftAt(v, c, f, o + k);
      ShiftAt(v[o..e], i, j, k);
    }
  }

  function InsertChar(t: Screen): (r: Screen)
    requires Ok(t)
    ensures Ok(r) && r == t.(cells := r.cells)
  {
    OnScreen(t);
    if t.x < t.cols then t.(cells := ShiftRight(t.cells, Cursor(t), RowEnd(t))) else t
  }

  function DeleteChar(t: Screen): (r: Screen)
    requires Ok(t)
    ensures Ok(r) && r == t.(cells := r.cells)
  {
    OnScreen(t);
    if t.x < t.cols then t.(cells := ShiftLeft(t.cells, Cursor(t), RowEnd(t))) else t
  }

  // Zero counts as one, and no more than `most`.
  function Clamp(n: nat, most: nat): nat {
    if n > most then most else if n == 0 then 1 else n
  }

  function Insert(t: Screen, n: nat): (r: Screen)
    requires Ok(t)
    ensures Ok(r) && r == t.(cells := r.cells)
  {
    if n == 0 then t else InsertChar(Insert(t, n - 1))
  }

  function Delete(t: Screen, n: nat): (r: Screen)
    requires Ok(t)
    ensures Ok(r) && r == t.(cells := r.cells)
  {
    if n == 0 then t else DeleteChar(Delete(t, n - 1))
  }

  function InsertLines(t: Screen, n: nat): (r: Screen)
    requires Ok(t)
    ensures Ok(r) && r == t.(cells := r.cells)
  {
    if n == 0 then t else ScrollDown(InsertLines(t, n - 1), t.y, t.lines)
  }

  function DeleteLines(t: Screen, n: nat): (r: Screen)
    requires Ok(t)
    ensures Ok(r) && r == t.(cells := r.cells)
  {
    if n == 0 then t else ScrollUp(DeleteLines(t, n - 1), t.y, t.lines)
  }
}
