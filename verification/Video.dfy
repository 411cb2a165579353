/**
  The screen in video memory (linux-0.11/kernel/chr_drv/console.c). An EGA or VGA
  scrolls by moving the origin, wrapping to the start of the memory; the others
  copy. Either way the window at the origin is the plain grid of Screens.
 */
module Video {
  import opened Screens

  class Video {
    const video: array<Cell>          // cells, two bytes each
    const ega: bool
    const lines: nat
    const cols: nat
    ghost const half: nat             // the string instructions move two cells at a time
    var origin: nat
    var scrEnd: nat
    var pos: nat
    var x: nat
    var y: nat
    var top: nat
    var bottom: nat

    ghost predicate Framed()
      reads this
    {
      origin + Row(lines, cols) == scrEnd <= video.Length && cols == half + half
    }

    ghost function T(): Screen
      requires Framed()
      reads this, video
    {
      Screen(lines, cols, video[origin..scrEnd], x, y, top, bottom)
    }

    /** The screen is a window of the video memory, and `pos` is where the cursor is in it. */
    ghost predicate Valid()
      reads this, video
    {
      Framed() && Ok(T()) && pos == origin + Row(y, cols) + x
    }

    constructor (size: nat, ega: bool, lines: nat, cols: nat)
      requires 1 <= lines < WORD && 8 <= cols < WORD && cols % 2 == 0 && Row(lines, cols) <= size
      ensures Valid() && this.ega == ega && fresh(video) && T() == Cleared(lines, cols)
    {
      video := new Cell[size](i => BLANK);
      this.ega, this.lines, this.cols, half := ega, lines, cols, cols / 2;
      origin, scrEnd, pos, x, y, top, bottom := 0, Row(lines, cols), 0, 0, 0, 0, lines;
    }

    // ---------- string instructions ----------

    // rep stosw
    method Fill(first: nat, n: nat)
      requires first + n <= video.Length
      modifies video
      ensures video[..] == Erased(old(video[..]), first, n)
    {
      var di, cx := first, n;
      while cx > 0
        invariant first <= di && 0 <= cx && di + cx == first + n
        invariant video[..] == Erased(old(video[..]), first, di - first)
      {
        video[di] := BLANK;
        di, cx := di + 1, cx - 1;
      }
    }

    // cld; rep movsl, to lower addresses, here cell by cell
    method CopyUp(src: nat, dst: nat, n: nat)
      requires dst <= src && src + n <= video.Length
      modifies video
      ensures video[..] == Copied(old(video[..]), src, dst, n)
    {
      var done := 0;
      ghost var was := video[..];
      hide Copied;
      NoCopy(was, src, dst);
      while done < n
        invariant done <= n && video[..] == Copied(was, src, dst, done)
      {
        CopyOn(was, src, dst, done);
        video[dst + done] := video[src + done];
        done := done + 1;
      }
    }

    // std; rep movsl: from the end on
    method CopyDown(src: nat, dst: nat, n: nat)
      requires src <= dst && dst + n <= video.Length
      modifies video
      ensures video[..] == Copied(old(video[..]), src, dst, n)
    {
      var si, di, cx := src + n, dst + n, n;
      ghost var was, done: nat := video[..], 0;
      hide Copied;
      NoCopy(was, si, di);
      while cx > 0
        invariant 0 <= cx && si == src + cx && di == dst + cx && done + cx == n && di + done <= video.Length
        invariant video[..] == Copied(was, si, di, done)
      {
        ghost var si0, di0, done0 := si, di, done;
        si, di, cx, done := si - 1, di - 1, cx - 1, done + 1;
        CopyBack(was, si, di, si0, di0, done0, done);
        video[di] := video[si];
      }
      assert si == src && di == dst && done == n;
    }

    // ---------- scrolling ----------

    /** One row up inside the scroll region. */
    method Scrup()
      requires Valid()
      modifies this`origin, this`pos, this`scrEnd, video
      ensures Valid() && T() == ScrollUp(old(T()), top, bottom)
    {
      ghost var t := T();
      OnScreen(t);
      if ega && top == 0 && bottom == lines {
        WholeScreen(t);
        RowSpan(cols, half, 0, lines);
        hide Up, Row;
        MoveOrigin();
      } else {
        CopyRowsUp();
      }
    }

    /** The hardware scroll, with its wrap: the window moves over the video memory, the cursor with it. */
    method MoveOrigin()
      requires Framed() && lines >= 1 && origin <= pos
      requires Row(lines - 1, cols) / 2 * 2 == Row(lines - 1, cols) == Row(lines, cols) - cols
      modifies this`origin, this`pos, this`scrEnd, video
      ensures Framed() && origin <= pos && pos - origin == old(pos) - old(origin)
      ensures video[origin..scrEnd] == Up(old(video[origin..scrEnd]), 0, Row(lines, cols), cols)
    {
      hide Up, Erased, Row;
      origin := origin + cols;
      pos := pos + cols;
      scrEnd := scrEnd + cols;
      if scrEnd > video.Length {
        WrapAround(Row(lines - 1, cols) / 2 * 2, Row(lines - 1, cols));
      } else {
        OriginScrollsUp(video[..], origin - cols, scrEnd - cols, cols);
        Fill(scrEnd - cols, cols);
      }
    }

    method WrapAround(n: nat, last: nat)
      requires cols <= origin && origin + last + cols == scrEnd && scrEnd - cols <= video.Length && n == last && origin <= pos
      modifies this`origin, this`pos, this`scrEnd, video
      ensures origin == 0 && scrEnd == last + cols && pos == old(pos) - old(origin)
      ensures video[origin..scrEnd] == Up(old(video[origin - cols..scrEnd - cols]), 0, last + cols, cols)
    {
      WrapScrollsUp(video[..], origin - cols, scrEnd - cols, cols, origin, last);
      hide Copied, Erased, Up;
      CopyUp(origin, 0, n);
      Fill(last, cols);
      scrEnd := scrEnd - origin;
      pos := pos - origin;
      origin := 0;
    }

    method CopyRowsUp()
      requires Valid()
      modifies video
      ensures Valid() && T() == ScrollUp(old(T()), top, bottom)
    {
      ghost var t := T();
      OnScreen(t);
      RowSpan(cols, half, top, bottom);
      MoveUp(origin + Row(top + 1, cols), origin + Row(top, cols), Row(bottom - top - 1, cols) / 2 * 2, origin + Row(bottom - 1, cols),
             Row(top, cols), Row(bottom, cols));
    }

    method MoveUp(src: nat, dst: nat, n: nat, last: nat, ghost a: nat, ghost b: nat)
      requires origin <= scrEnd <= video.Length && a + cols <= b <= scrEnd - origin
      requires src == origin + a + cols && dst == origin + a && n == b - a - cols && last == origin + b - cols
      modifies video
      ensures video[origin..scrEnd] == Up(old(video[origin..scrEnd]), a, b, cols)
    {
      CopyScrollsUp(video[..], origin, scrEnd, a, b, cols, src, dst, n, last);
      hide Copied, Erased, Up;
      CopyUp(src, dst, n);
      Fill(last, cols);
    }

    /** One row down inside the scroll region. Both kinds of display copy. */
    method Scrdown()
      requires Valid()
      modifies video
      ensures Valid() && T() == ScrollDown(old(T()), top, bottom)
    {
      ghost var t := T();
      OnScreen(t);
      RowSpan(cols, half, top, bottom);
      MoveDown(origin + Row(top, cols), origin + Row(top + 1, cols), Row(bottom - top - 1, cols) / 2 * 2, Row(top, cols), Row(bottom, cols));
    }

    // The row left over is the first of the region.
    method MoveDown(src: nat, dst: nat, n: nat, ghost a: nat, ghost b: nat)
      requires origin <= scrEnd <= video.Length && a + cols <= b <= scrEnd - origin
      requires src == origin + a && dst == origin + a + cols && n == b - a - cols
      modifies video
      ensures video[origin..scrEnd] == Down(old(video[origin..scrEnd]), a, b, cols)
    {
      CopyScrollsDown(video[..], origin, scrEnd, a, b, cols, src, dst, n);
      hide Copied, Erased, Down;
      CopyDown(src, dst, n);
      Fill(src, cols);
    }

    // ---------- the cursor ----------

    method GotoXY(nx: int, ny: int)
      requires Valid()
      modifies this`x, this`y, this`pos
      ensures Valid() && T() == Screens.GotoXY(old(T()), nx, ny)
    {
      if nx % WORD > cols || ny % WORD >= lines { return; }
      x := nx % WORD;
      y := ny % WORD;
      pos := origin + Row(y, cols) + x;
    }

    method Lf()
      requires Valid()
      modifies this`y, this`pos, this`origin, this`scrEnd, video
      ensures Valid() && T() == Screens.Lf(old(T()))
    {
      if y + 1 < bottom {
        y := y + 1;
        pos := pos + cols;
      } else {
        Scrup();
      }
    }

    method Ri()
      requires Valid()
      modifies this`y, this`pos, video
      ensures Valid() && T() == Screens.Ri(old(T()))
    {
      if y > top {
        y := y - 1;
        pos := pos - cols;
      } else {
        Scrdown();
      }
    }

    method Back()
      requires Valid()
      modifies this`x, this`pos
      ensures Valid() && T() == Screens.Back(old(T()))
    {
      if x > 0 {
        x := x - 1;
        pos := pos - 1;
      }
    }

    method Cr()
      requires Valid()
      modifies this`x, this`pos
      ensures Valid() && T() == old(T()).(x := 0)
    {
      pos := pos - x;
      x := 0;
    }

    method Poke(c: Cell)
      requires Valid() && x < cols
      modifies video
      ensures Valid() && Cursor(old(T())) < |old(T()).cells| && T() == old(T()).(cells := old(T()).cells[Cursor(old(T())) := c])
    {
      ghost var t := T();
      OnScreen(t);
      PokeInWindow(video[..], origin, scrEnd, pos, Cursor(t), c);
      video[pos] := c;
    }

    method Del()
      requires Valid()
      modifies this`x, this`pos, video
      ensures Valid() && T() == Screens.Del(old(T()))
    {
      if x > 0 {
        pos := pos - 1;
        x := x - 1;
        Poke(BLANK);
      }
    }

    method Wrap()
      requires Valid()
      modifies this`x, this`y, this`pos, this`origin, this`scrEnd, video
      ensures Valid() && T() == Wrapped(old(T()))
    {
      if x >= cols {
        x := x - cols;
        pos := pos - cols;
        Lf();
      }
    }

    method Type(c: Cell)
      requires Valid() && x < cols
      modifies this`x, this`pos, video
      ensures Valid() && T() == Typed(old(T()), c)
    {
      Poke(c);
      pos := pos + 1;
      x := x + 1;
    }

    method Tab()
      requires Valid()
      modifies this`x, this`y, this`pos, this`origin, this`scrEnd, video
      ensures Valid() && T() == Screens.Tab(old(T()))
    {
      var c := 8 - x % 8;
      if x + c > cols {
        x := x + c - cols;
        pos := pos + c - cols;
        Lf();
      } else {
        x := x + c;
        pos := pos + c;
      }
    }

    // ---------- erasing, inserting, deleting ----------

    method Erase(first: nat, n: nat, ghost i: nat)
      requires Valid() && first == origin + i && i + n <= |T().cells|
      modifies video
      ensures Valid() && T() == old(T()).(cells := Erased(old(T()).cells, i, n))
    {
      EraseInWindow(video[..], origin, scrEnd, first, i, n);
      Fill(first, n);
    }

    method CsiJ(p: nat)
      requires Valid()
      modifies video
      ensures Valid() && T() == EraseDisplay(old(T()), p)
    {
      ghost var t := T();
      OnScreen(t);
      if p == 0 {
        Erase(pos, scrEnd - pos, Cursor(t));
      } else if p == 1 {
        Erase(origin, pos - origin, 0);
      } else if p == 2 {
        Erase(origin, Row(lines, cols), 0);
      }
    }

    method CsiK(p: nat)
      requires Valid()
      modifies video
      ensures Valid() && T() == EraseLine(old(T()), p)
    {
      ghost var t := T();
      OnScreen(t);
      if p == 0 {
        if x >= cols { return; }
        Erase(pos, cols - x, Cursor(t));
      } else if p == 1 {
        Erase(pos - x, if x < cols then x else cols, Row(y, cols));
      } else if p == 2 {
        Erase(pos - x, cols, Row(y, cols));
      }
    }

    method InsertChar()
      requires Valid()
      modifies video
      ensures Valid() && T() == Screens.InsertChar(old(T()))
    {
      ghost var t := T();
      OnScreen(t);
      if x < cols {
        ghost var i, j := Cursor(t), RowEnd(t);
        assert pos == origin + i && j == i + (cols - x) && j <= |t.cells|;
        hide ShiftRight, ShiftLeft, Cursor, RowEnd, Row;
        OpenGap(cols - x, i, j);
      }
    }

    // From the cursor to the end of its row, as the screen sees it.
    method OpenGap(n: nat, ghost i: nat, ghost j: nat)
      requires Valid() && pos == origin + i && j == i + n <= |T().cells| && n > 0
      modifies video
      ensures Valid() && T() == old(T()).(cells := ShiftRight(old(T()).cells, i, j))
    {
      ghost var e := origin + j;
      ShiftInWindow(video[..], origin, scrEnd, pos, i, e, j);
      hide ShiftRight, ShiftLeft, Row;
      PushRight(n, e);
    }

    method PushRight(n: nat, ghost e: nat)
      requires n > 0 && pos + n == e <= video.Length
      modifies video
      ensures video[..] == ShiftRight(old(video[..]), pos, e)
    {
      hide ShiftRight;
      ghost var v := video[..];
      var held, p, i := video[pos], pos + 1, 1;
      ghost var q := pos;
      ShiftFirst(v, q, p);
      video[pos] := BLANK;
      while i < n
        invariant 1 <= i <= n && p == pos + i && p == q + 1 && |v| == video.Length && held == v[q] && video[..] == ShiftRight(v, pos, p)
      {
        ghost var p1 := p + 1;
        ShiftOn(v, pos, p, p1);
        var tmp := video[p];
        video[p] := held;
        q := p;
        held, p, i := tmp, p + 1, i + 1;
      }
    }

    method DeleteChar()
      requires Valid()
      modifies video
      ensures Valid() && T() == Screens.DeleteChar(old(T()))
    {
      ghost var t := T();
      OnScreen(t);
      if x < cols {
        ghost var i, j := Cursor(t), RowEnd(t);
        assert pos == origin + i && j == i + (cols - x) && j <= |t.cells|;
        hide ShiftRight, ShiftLeft, Cursor, RowEnd, Row;
        CloseGap(cols - x, i, j);
      }
    }

    // From the cursor to the end of its row, as the screen sees it.
    method CloseGap(n: nat, ghost i: nat, ghost j: nat)
      requires Valid() && pos == origin + i && j == i + n <= |T().cells| && n > 0
      modifies video
      ensures Valid() && T() == old(T()).(cells := ShiftLeft(old(T()).cells, i, j))
    {
      ghost var e := origin + j;
      ShiftInWindow(video[..], origin, scrEnd, pos, i, e, j);
      hide ShiftRight, ShiftLeft, Row;
      PullLeft(n, e);
    }

    method PullLeft(n: nat, ghost e: nat)
      requires n > 0 && pos + n == e <= video.Length
      modifies video
      ensures video[..] == ShiftLeft(old(video[..]), pos, e)
    {
      hide ShiftLeft;
      ghost var v, q := video[..], pos + 1;
      var p, i := pos, 1;
      ShiftFirst(v, pos, q);
      while i < n
        invariant 1 <= i <= n && p == pos + i - 1 && q == p + 1 && |v| == video.Length
        invariant video[..][p := BLANK] == ShiftLeft(v, pos, q)
        invariant forall k :: p < k < video.Length ==> video[k] == v[k]
      {
        ghost var q1 := q + 1;
        ShiftOn(v, pos, q, q1);
        ghost var w: seq<Cell> := ShiftLeft(v, pos, q);
        video[p] := video[p + 1];
        assert video[..][q := BLANK] == w[p := v[q]][q := BLANK];
        p, i, q := p + 1, i + 1, q1;
      }
      video[p] := BLANK;
    }

    method InsertLine()
      requires Valid()
      modifies this`top, this`bottom, video
      ensures Valid() && T() == ScrollDown(old(T()), y, lines)
    {
      var oldTop, oldBottom := top, bottom;
      top, bottom := y, lines;
      Scrdown();
      top, bottom := oldTop, oldBottom;
    }

    method DeleteLine()
      requires Valid()
      modifies this`top, this`bottom, this`pos, this`origin, this`scrEnd, video
      ensures Valid() && T() == ScrollUp(old(T()), y, lines)
    {
      var oldTop, oldBottom := top, bottom;
      top, bottom := y, lines;
      Scrup();
      top, bottom := oldTop, oldBottom;
    }

    // The (k+1)-st time.
    method InsertCharOnce(ghost t: Screen, ghost k: nat, ghost k1: nat)
      requires Valid() && Ok(t) && T() == Insert(t, k) && k1 == k + 1
      modifies video
      ensures Valid() && T() == Insert(t, k1)
    {
      hide Insert, Screens.InsertChar, Ok, Row;
      Again(t, k, k1);
      InsertChar();
    }

    method CsiAt(nr: nat)
      requires Valid()
      modifies video
      ensures Valid() && T() == Insert(old(T()), Clamp(nr, cols))
    {
      ghost var t := T();
      ghost var k: nat := 0;
      var n := Clamp(nr, cols);
      ghost var most := n;
      hide Insert, Screens.InsertChar, Clamp, Ok, Row;
      assert Insert(t, 0) == t by { Never(t); }
      while n > 0
        invariant 0 <= n && n + k == most && Valid() && T() == Insert(t, k)
        decreases n
      {
        ghost var k1 := k + 1;
        InsertCharOnce(t, k, k1);
        n, k := n - 1, k1;
      }
    }

    // The (k+1)-st time.
    method DeleteCharOnce(ghost t: Screen, ghost k: nat, ghost k1: nat)
      requires Valid() && Ok(t) && T() == Delete(t, k) && k1 == k + 1
      modifies video
      ensures Valid() && T() == Delete(t, k1)
    {
      hide Delete, Screens.DeleteChar, Ok, Row;
      Again(t, k, k1);
      DeleteChar();
    }

    method CsiP(nr: nat)
      requires Valid()
      modifies video
      ensures Valid() && T() == Delete(old(T()), Clamp(nr, cols))
    {
      ghost var t := T();
      ghost var k: nat := 0;
      var n := Clamp(nr, cols);
      ghost var most := n;
      hide Delete, Screens.DeleteChar, Clamp, Ok, Row;
      assert Delete(t, 0) == t by { Never(t); }
      while n > 0
        invariant 0 <= n && n + k == most && Valid() && T() == Delete(t, k)
        decreases n
      {
        ghost var k1 := k + 1;
        DeleteCharOnce(t, k, k1);
        n, k := n - 1, k1;
      }
    }

    // The (k+1)-st time.
    method InsertLineOnce(ghost t: Screen, ghost k: nat, ghost k1: nat)
      requires Valid() && Ok(t) && T() == InsertLines(t, k) && k1 == k + 1
      modifies this`top, this`bottom, video
      ensures Valid() && T() == InsertLines(t, k1)
    {
      hide InsertLines, ScrollDown, Ok, Row;
      Again(t, k, k1);
      InsertLine();
    }

    method CsiL(nr: nat)
      requires Valid()
      modifies this`top, this`bottom, video
      ensures Valid() && T() == InsertLines(old(T()), Clamp(nr, lines))
    {
      ghost var t := T();
      ghost var k: nat := 0;
      var n := Clamp(nr, lines);
      ghost var most := n;
      hide InsertLines, ScrollDown, Clamp, Ok, Row;
      assert InsertLines(t, 0) == t by { Never(t); }
      while n > 0
        invariant 0 <= n && n + k == most && Valid() && T() == InsertLines(t, k)
        decreases n
      {
        ghost var k1 := k + 1;
        InsertLineOnce(t, k, k1);
        n, k := n - 1, k1;
      }
    }

    // The (k+1)-st time.
    method DeleteLineOnce(ghost t: Screen, ghost k: nat, ghost k1: nat)
      requires Valid() && Ok(t) && T() == DeleteLines(t, k) && k1 == k + 1
      modifies this`top, this`bottom, this`pos, this`origin, this`scrEnd, video
      ensures Valid() && T() == DeleteLines(t, k1)
    {
      hide DeleteLines, ScrollUp, Ok, Row;
      Again(t, k, k1);
      DeleteLine();
    }

    method CsiM(nr: nat)
      requires Valid()
      modifies this`top, this`bottom, this`pos, this`origin, this`scrEnd, video
      ensures Valid() && T() == DeleteLines(old(T()), Clamp(nr, lines))
    {
      ghost var t := T();
      ghost var k: nat := 0;
      var n := Clamp(nr, lines);
      ghost var most := n;
      hide DeleteLines, ScrollUp, Clamp, Ok, Row;
      assert DeleteLines(t, 0) == t by { Never(t); }
      while n > 0
        invariant 0 <= n && n + k == most && Valid() && T() == DeleteLines(t, k)
        decreases n
      {
        ghost var k1 := k + 1;
        DeleteLineOnce(t, k, k1);
        n, k := n - 1, k1;
      }
    }
  }

  lemma Never(t: Screen)
    requires Ok(t)
    ensures Insert(t, 0) == Delete(t, 0) == InsertLines(t, 0) == DeleteLines(t, 0) == t
  {
  }

  lemma Again(t: Screen, k: nat, k1: nat)
    requires Ok(t) && k1 == k + 1
    ensures Insert(t, k1) == Screens.InsertChar(Insert(t, k)) && Delete(t, k1) == Screens.DeleteChar(Delete(t, k))
    ensures InsertLines(t, k1) == ScrollDown(InsertLines(t, k), t.y, t.lines)
    ensures DeleteLines(t, k1) == ScrollUp(DeleteLines(t, k), t.y, t.lines)
  {
    hide ScrollUp, ScrollDown, Screens.InsertChar, Screens.DeleteChar;
  }

  lemma WholeScreen(t: Screen)
    requires Ok(t)
    ensures Row(0, t.cols) + t.cols <= Row(t.lines, t.cols) <= |t.cells|
    ensures ScrollUp(t, 0, t.lines).cells == Up(t.cells, 0, |t.cells|, t.cols)
  {
    Rows(t.cols, 0, t.lines);
  }

  lemma RowSpan(cols: nat, half: nat, a: nat, b: nat)
    requires a < b && cols == half + half
    ensures Row(b - a - 1, cols) / 2 * 2 == Row(b, cols) - Row(a, cols) - cols >= 0
    ensures Row(a + 1, cols) == Row(a, cols) + cols && Row(b - 1, cols) == Row(b, cols) - cols
  {
    Rows(cols, a, b);
    var n := b - a - 1;
    EvenRows(half, cols, n);
    HalfTwice(Row(n, cols), Row(n, half));
    hide Row;
  }

  lemma HalfTwice(n: nat, half: nat)
    requires n == half + half
    ensures n / 2 * 2 == n
  {
  }

  lemma NoCopy(s: seq<Cell>, src: nat, dst: nat)
    requires src <= |s| && dst <= |s|
    ensures Copied(s, src, dst, 0) == s
  {
  }
}
