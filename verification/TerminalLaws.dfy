/**
  What escape sequences and text show, byte string by byte string, as a user of
  the console knows them: decimal parameters, cursor addresses counted from one,
  and what becomes of every cell.
 */
module TerminalLaws {
  import opened Screens
  import opened Terminal

  // ---------- strings of bytes ----------

  predicate Digits(ds: seq<nat>) {
    forall i :: 0 <= i < |ds| ==> '0' as nat <= ds[i] <= '9' as nat
  }

  /** The number that decimal digits denote. */
  function Value(ds: seq<nat>): nat
    requires Digits(ds)
  {
    if ds == [] then 0 else 10 * Value(ds[..|ds| - 1]) + (ds[|ds| - 1] - '0' as nat)
  }

  /** As an unsigned number. */
  function Number(ds: seq<nat>): (n: nat)
    requires Digits(ds)
    ensures n < WORD
  {
    Value(ds) % WORD
  }

  // ESC [ digits command, and with two numbers.
  function Csi(ds: seq<nat>, c: char): seq<nat> {
    [ESC, '[' as nat] + ds + [c as nat]
  }

  function Csi2(ds: seq<nat>, es: seq<nat>, c: char): seq<nat> {
    [ESC, '[' as nat] + ds + [';' as nat] + es + [c as nat]
  }

  lemma {:induction false} ShownJoin(t: Term, a: seq<nat>, b: seq<nat>)
    requires Good(t)
    ensures Shown(t, a + b) == Shown(Shown(t, a), b)
    decreases |b|
  {
    hide Feed, Good;
    if b == [] {
      assert a + b == a;
    } else {
      var last := |b| - 1;
      ShownJoin(t, a, b[..last]);
      assert (a + b)[..|a + b| - 1] == a + b[..last];
    }
  }

  lemma ShownOne(t: Term, c: nat)
    requires Good(t)
    ensures Shown(t, [c]) == Feed(t, c)
  {
    assert [c][..0] == [];
    assert Shown(t, []) == t;
    hide Feed, Good;
  }

  lemma Wraps(k: nat, d: nat)
    ensures (WORD * k + d) % WORD == d % WORD
  {
  }

  lemma NumberOn(v: nat, d: nat)
    ensures (10 * (v % WORD) + d) % WORD == (10 * v + d) % WORD
  {
    var q, m := v / WORD, v % WORD;
    assert 10 * v + d == WORD * (10 * q) + (10 * m + d);
    Wraps(10 * q, 10 * m + d);
  }

  // ---------- parameters ----------

  // With `p` and `q` read as parameters, `k` being the last one started.
  function Read(t: Term, p: nat, q: nat, k: nat): (u: Term)
    requires Good(t) && p < WORD && q < WORD && k < 2
    ensures Good(u)
  {
    t.(state := 3, par := Zeros()[0 := p][1 := q], npar := k, ques := false)
  }

  /** Digits make up the parameter that was started. */
  lemma {:induction false} DigitsRead(t: Term, ds: seq<nat>)
    requires Good(t) && t.state == 3 && t.par[t.npar] == 0 && Digits(ds)
    ensures Shown(t, ds) == t.(par := t.par[t.npar := Number(ds)])
    decreases |ds|
  {
    if ds == [] {
      assert t.par[t.npar := 0] == t.par;
    } else {
      var start, d := ds[..|ds| - 1], ds[|ds| - 1];
      DigitsRead(t, start);
      NumberOn(Value(start), d - '0' as nat);
      var u := t.(par := t.par[t.npar := Number(start)]);
      DigitFed(u, d, Number(start), Number(ds));
      assert u.par[t.npar := Number(ds)] == t.par[t.npar := Number(ds)];
    }
  }

  lemma DigitFed(u: Term, d: nat, n: nat, m: nat)
    requires Good(u) && u.state == 3 && '0' as nat <= d <= '9' as nat && n == u.par[u.npar]
    requires m == (10 * n + (d - '0' as nat)) % WORD
    ensures Feed(u, d) == u.(par := u.par[u.npar := m])
  {
  }

  /** Everything behind ESC [ is read as parameters and a command. */
  lemma {:induction false} Opened(t: Term, rest: seq<nat>)
    requires Good(t) && t.state == 0 && rest != [] && rest[0] != '?' as nat
    ensures Shown(t, [ESC, '[' as nat] + rest) == Shown(Read(t, 0, 0, 0), rest)
  {
    var first, more := [rest[0]], rest[1..];
    assert rest == first + more && [ESC, '[' as nat] + rest == ([ESC] + ['[' as nat] + first) + more;
    ShownJoin(t, [ESC] + ['[' as nat] + first, more);
    ShownJoin(t, [ESC] + ['[' as nat], first);
    ShownJoin(t, [ESC], ['[' as nat]);
    ShownOne(t, ESC);
    var u := Feed(t, ESC);
    ShownOne(u, '[' as nat);
    ShownOne(Feed(u, '[' as nat), rest[0]);
    ShownJoin(Read(t, 0, 0, 0), first, more);
    ShownOne(Read(t, 0, 0, 0), rest[0]);
    Bracket(t, rest[0]);
  }

  lemma Bracket(t: Term, c: nat)
    requires Good(t) && t.state == 0 && c != '?' as nat
    ensures Feed(Feed(Feed(t, ESC), '[' as nat), c) == Feed(Read(t, 0, 0, 0), c)
  {
    assert Zeros() == Zeros()[0 := 0][1 := 0];
    hide Command;
  }

  /** ESC [ number command: the command is carried out with that number, and with zero for no digits. */
  lemma {:induction false} OneNumber(t: Term, ds: seq<nat>, c: char)
    requires Good(t) && t.state == 0 && Digits(ds) && ':' <= c
    requires c != '?' && c != ';'
    ensures Shown(t, Csi(ds, c)) == Command(Read(t, Number(ds), 0, 0).(state := 0), c as nat)
  {
    var rest := ds + [c as nat];
    assert Csi(ds, c) == [ESC, '[' as nat] + rest;
    assert rest[0] != '?' as nat;
    Opened(t, rest);
    var u := Read(t, 0, 0, 0);
    ShownJoin(u, ds, [c as nat]);
    DigitsRead(u, ds);
    assert u.par[0 := Number(ds)] == Read(t, Number(ds), 0, 0).par;
    ShownOne(Read(t, Number(ds), 0, 0), c as nat);
    hide Command, Number;
  }

  /** The same with two numbers. */
  lemma {:induction false} TwoNumbers(t: Term, ds: seq<nat>, es: seq<nat>, c: char)
    requires Good(t) && t.state == 0 && Digits(ds) && Digits(es) && ':' <= c
    requires c != '?' && c != ';'
    ensures Shown(t, Csi2(ds, es, c)) == Command(Read(t, Number(ds), Number(es), 1).(state := 0), c as nat)
  {
    var rest := ds + ([';' as nat] + (es + [c as nat]));
    assert Csi2(ds, es, c) == [ESC, '[' as nat] + rest;
    assert rest[0] != '?' as nat;
    Opened(t, rest);
    var u := Read(t, 0, 0, 0);
    ShownJoin(u, ds, [';' as nat] + (es + [c as nat]));
    DigitsRead(u, ds);
    var v := Read(t, Number(ds), 0, 0);
    assert u.par[0 := Number(ds)] == v.par;
    ShownJoin(v, [';' as nat], es + [c as nat]);
    ShownOne(v, ';' as nat);
    var w := Read(t, Number(ds), 0, 1);
    Semicolon(v);
    ShownJoin(w, es, [c as nat]);
    DigitsRead(w, es);
    assert w.par[1 := Number(es)] == Read(t, Number(ds), Number(es), 1).par;
    ShownOne(Read(t, Number(ds), Number(es), 1), c as nat);
    hide Command, Number;
  }

  lemma Semicolon(v: Term)
    requires Good(v) && v.state == 3 && v.npar < NPAR - 1
    ensures Feed(v, ';' as nat) == v.(npar := v.npar + 1)
  {
    hide Command;
  }

  // ---------- the cursor ----------

  /** Nothing but the screen changed, and the next byte is not part of a sequence. */
  predicate ScreenOnly(t: Term, u: Term) {
    u == t.(scr := u.scr, state := 0, par := u.par, npar := u.npar, ques := u.ques)
  }

  // Unsigned coordinates: a column up to one behind the last, a row of the screen, and otherwise nothing.
  lemma GotoExactly(s: Screen, x: int, y: int)
    requires Ok(s) && 0 < x + WORD && x < 2 * WORD && 0 < y + WORD && y < 2 * WORD
    ensures var a := if x < 0 then x + WORD else if x < WORD then x else x - WORD;
            var b := if y < 0 then y + WORD else if y < WORD then y else y - WORD;
      GotoXY(s, x, y) == if 0 <= a <= s.cols && 0 <= b < s.lines then s.(x := a, y := b) else s
  {
  }

  lemma Addresses(u: Term, x: nat, y: nat, f: char)
    requires Good(u) && u.state == 0 && (f == 'H' || f == 'f') && x == FromZero(u.par[1]) && y == FromZero(u.par[0])
    ensures ScreenOnly(u, Command(u, f as nat)) && Command(u, f as nat).scr == GotoXY(u.scr, x, y)
  {
    hide GotoXY;
  }

  lemma Shifts(u: Term, n: nat, c: char)
    requires Good(u) && u.state == 0 && c in "ABCDEFae" && n == AtLeastOne(u.par[0])
    ensures ScreenOnly(u, Command(u, c as nat))
    ensures Command(u, c as nat).scr == GotoXY(u.scr,
              if c == 'E' || c == 'F' then 0 else if c == 'D' then u.scr.x - n else if c == 'C' || c == 'a' then u.scr.x + n else u.scr.x,
              if c == 'A' || c == 'F' then u.scr.y - n else if c == 'B' || c == 'e' || c == 'E' then u.scr.y + n else u.scr.y)
  {
    hide GotoXY;
  }

  /** ESC [ row ; column H: counted from one, and one for a number that is missing or zero. Off screen, nothing moves. */
  lemma CursorAddressed(t: Term, r: seq<nat>, c: seq<nat>, f: char)
    requires Good(t) && t.state == 0 && Digits(r) && Digits(c) && (f == 'H' || f == 'f')
    ensures var u := Shown(t, Csi2(r, c, f));
            var y, x := if Number(r) == 0 then 0 else Number(r) - 1, if Number(c) == 0 then 0 else Number(c) - 1;
      ScreenOnly(t, u) && u.scr == if x <= t.scr.cols && y < t.scr.lines then t.scr.(x := x, y := y) else t.scr
  {
    hide Number, Value, Shown, Csi, Csi2, Feed, GotoXY, Command;
    TwoNumbers(t, r, c, f);
    var y, x := if Number(r) == 0 then 0 else Number(r) - 1, if Number(c) == 0 then 0 else Number(c) - 1;
    Addresses(Read(t, Number(r), Number(c), 1).(state := 0), x, y, f);
    GotoExactly(t.scr, x, y);
  }

  /** ESC [ 3 ; 1 0 H on a screen of 25 by 80: row 2, column 9, counted from zero. */
  lemma AddressExample(t: Term)
    requires Good(t) && t.state == 0 && t.scr.lines == 25 && t.scr.cols == 80
    ensures Shown(t, [27, 91, 51, 59, 49, 48, 72]).scr == t.scr.(x := 9, y := 2)
  {
    assert [49, 48][..1] == [49] && [49][..0] == [] && [51][..0] == [];
    assert Value([49]) == 1 && Value([49, 48]) == 10 && Value([51]) == 3;
    assert [27, 91, 51, 59, 49, 48, 72] == Csi2([51], [49, 48], 'H');
    CursorAddressed(t, [51], [49, 48], 'H');
    hide Shown, Csi2;
  }

  /** One row up or down, or as many as the number says; E and F go to the start of the row too. A move that would leave
      the screen is not made at all, unless it is by so much that unsigned arithmetic wraps round to the screen. */
  lemma CursorUpDown(t: Term, ds: seq<nat>, c: char)
    requires Good(t) && t.state == 0 && Digits(ds) && c in "ABEFe"
    ensures var u, n, y := Shown(t, Csi(ds, c)), if Number(ds) == 0 then 1 else Number(ds), t.scr.y;
            var up, down := if n <= y then y - n else y + WORD - n, if y + n < WORD then y + n else y + n - WORD;
            var row := if c == 'A' || c == 'F' then up else down;
      ScreenOnly(t, u)
      && u.scr == if row < t.scr.lines then t.scr.(x := if c == 'E' || c == 'F' then 0 else t.scr.x, y := row) else t.scr
  {
    hide Number, Value, Shown, Csi, Csi2, Feed, GotoXY, Command;
    OneNumber(t, ds, c);
    var n, x, y := if Number(ds) == 0 then 1 else Number(ds), t.scr.x, t.scr.y;
    Shifts(Read(t, Number(ds), 0, 0).(state := 0), n, c);
    GotoExactly(t.scr, if c == 'E' || c == 'F' then 0 else x, if c == 'A' || c == 'F' then y - n else y + n);
  }

  /** One column to the right or left, or as many as the number says, in the same way. */
  lemma CursorLeftRight(t: Term, ds: seq<nat>, c: char)
    requires Good(t) && t.state == 0 && Digits(ds) && c in "CDa"
    ensures var u, n, x := Shown(t, Csi(ds, c)), if Number(ds) == 0 then 1 else Number(ds), t.scr.x;
            var left, right := if n <= x then x - n else x + WORD - n, if x + n < WORD then x + n else x + n - WORD;
            var column := if c == 'D' then left else right;
      ScreenOnly(t, u) && u.scr == if column <= t.scr.cols then t.scr.(x := column) else t.scr
  {
    hide Number, Value, Shown, Csi, Csi2, Feed, GotoXY, Command;
    OneNumber(t, ds, c);
    var n, x := if Number(ds) == 0 then 1 else Number(ds), t.scr.x;
    Shifts(Read(t, Number(ds), 0, 0).(state := 0), n, c);
    GotoExactly(t.scr, if c == 'D' then x - n else x + n, t.scr.y);
  }

  lemma PlacesOne(u: Term, p: nat, c: char)
    requires Good(u) && u.state == 0 && (c == 'G' || c == '`' || c == 'd') && p == FromZero(u.par[0])
    ensures ScreenOnly(u, Command(u, c as nat))
    ensures Command(u, c as nat).scr == GotoXY(u.scr, if c == 'd' then u.scr.x else p, if c == 'd' then p else u.scr.y)
  {
    hide GotoXY;
  }

  /** Column or row alone, counted from one. */
  lemma CursorPlaced(t: Term, ds: seq<nat>, c: char)
    requires Good(t) && t.state == 0 && Digits(ds) && (c == 'G' || c == '`' || c == 'd')
    ensures var u := Shown(t, Csi(ds, c));
            var p := if Number(ds) == 0 then 0 else Number(ds) - 1;
      && ScreenOnly(t, u)
      && (c != 'd' ==> u.scr == if p <= t.scr.cols then t.scr.(x := p) else t.scr)
      && (c == 'd' ==> u.scr == if p < t.scr.lines then t.scr.(y := p) else t.scr)
  {
    hide Number, Value, Shown, Csi, Csi2, Feed, GotoXY, Command;
    OneNumber(t, ds, c);
    var p := if Number(ds) == 0 then 0 else Number(ds) - 1;
    PlacesOne(Read(t, Number(ds), 0, 0).(state := 0), p, c);
    GotoExactly(t.scr, if c == 'd' then t.scr.x else p, if c == 'd' then p else t.scr.y);
  }

  /** ESC [ s remembers the cursor and ESC [ u brings it back, whatever moved it in between. */
  lemma CursorSaved(t: Term, u: Term)
    requires Good(t) && t.state == 0 && Good(u) && u.state == 0
    ensures Shown(t, Csi([], 's')).savedX == t.scr.x && Shown(t, Csi([], 's')).savedY == t.scr.y && Shown(t, Csi([], 's')).scr == t.scr
    ensures ScreenOnly(u, Shown(u, Csi([], 'u'))) && Shown(u, Csi([], 'u')).scr == u.scr.(x := u.savedX, y := u.savedY)
  {
    hide Number, Value, Shown, Csi, Csi2, Feed, GotoXY;
    OneNumber(t, [], 's');
    OneNumber(u, [], 'u');
    GotoExactly(u.scr, u.savedX, u.savedY);
  }

  /** The scroll region, from row to row; the whole screen for no numbers, and no change for an empty region. */
  lemma RegionSet(t: Term, a: seq<nat>, b: seq<nat>)
    requires Good(t) && t.state == 0 && Digits(a) && Digits(b)
    ensures var u := Shown(t, Csi2(a, b, 'r'));
            var top, bottom := if Number(a) == 0 then 0 else Number(a) - 1, if Number(b) == 0 then t.scr.lines else Number(b);
      ScreenOnly(t, u) && u.scr == if top < bottom <= t.scr.lines then t.scr.(top := top, bottom := bottom) else t.scr
  {
    hide Number, Value, Shown, Csi, Csi2, Feed, GotoXY;
    TwoNumbers(t, a, b, 'r');
  }

  /** The colours that one number selects. */
  lemma AttributeSet(t: Term, ds: seq<nat>)
    requires Good(t) && t.state == 0 && Digits(ds)
    ensures var u, n := Shown(t, Csi(ds, 'm')), Number(ds);
      u == t.(attr := u.attr, par := u.par, npar := u.npar, ques := u.ques)
      && u.attr == if n in {0, 27} then 0x07 else if n in {1, 4} then 0x0f else if n == 7 then 0x70 else t.attr
  {
    hide Number, Value, Shown, Csi, Csi2, Feed, GotoXY;
    OneNumber(t, ds, 'm');
    var par := Read(t, Number(ds), 0, 0).par;
    assert Attr(par, 1, t.attr) == AttrOf(par[0], Attr(par, 0, t.attr));
  }

  // ---------- the cells ----------

  /** Nothing but cells changed. */
  predicate CellsOnly(t: Term, u: Term) {
    ScreenOnly(t, u) && u.scr == t.scr.(cells := u.scr.cells) && |u.scr.cells| == |t.scr.cells|
  }

  /** Where the cursor's row starts and ends, and where in it the cursor is. */
  predicate RowAt(s: Screen, start: nat, p: nat, end: nat) {
    start == s.y * s.cols && p == start + s.x && end == start + s.cols
  }

  lemma RowAtIs(s: Screen, start: nat, p: nat, end: nat)
    requires Ok(s) && RowAt(s, start, p, end)
    ensures start == Row(s.y, s.cols) && p == Cursor(s) && end == RowEnd(s) && end <= |s.cells|
  {
    RowIsProduct(s.y, s.cols);
    OnScreen(s);
  }

  /** ESC [ J from the cursor on, ESC [ 1 J up to the cursor, ESC [ 2 J everything. */
  lemma DisplayErased(t: Term, ds: seq<nat>, start: nat, p: nat, end: nat, i: nat)
    requires Good(t) && t.state == 0 && Digits(ds) && RowAt(t.scr, start, p, end) && i < |t.scr.cells|
    ensures var u, n := Shown(t, Csi(ds, 'J')), Number(ds);
      CellsOnly(t, u)
      && u.scr.cells[i] == if (n == 0 && p <= i) || (n == 1 && i < p) || n == 2 then BLANK else t.scr.cells[i]
  {
    hide Number, Value, Shown, Csi, Feed;
    OneNumber(t, ds, 'J');
    RowAtIs(t.scr, start, p, end);
  }

  /** The same within the cursor's row, for K. */
  lemma LineErased(t: Term, ds: seq<nat>, start: nat, p: nat, end: nat, i: nat)
    requires Good(t) && t.state == 0 && Digits(ds) && RowAt(t.scr, start, p, end) && i < |t.scr.cells|
    ensures var u, n := Shown(t, Csi(ds, 'K')), Number(ds);
      CellsOnly(t, u)
      && u.scr.cells[i] == if (n == 0 && p <= i < end) || (n == 1 && start <= i < p) || (n == 2 && start <= i < end) then BLANK
                           else t.scr.cells[i]
  {
    hide Number, Value, Shown, Csi, Feed;
    OneNumber(t, ds, 'K');
    RowAtIs(t.scr, start, p, end);
  }

  // A number of times, at least once and at most as often as there is room.
  function Times(n: nat, most: nat): nat {
    if n == 0 then 1 else if n <= most then n else most
  }

  lemma LineDownAt(s: Screen, start: nat, i: nat)
    requires Ok(s) && i < |s.cells| && start == Row(s.y, s.cols)
    ensures var r := ScrollDown(s, s.y, s.lines);
      |r.cells| == |s.cells|
      && r.cells[i] == if i < start then s.cells[i] else if i < start + s.cols then BLANK else s.cells[i - s.cols]
  {
    Rows(s.cols, s.y, s.lines);
    DownAt(s.cells, start, |s.cells|, s.cols, i);
    hide Down;
  }

  lemma LineUpAt(s: Screen, start: nat, i: nat)
    requires Ok(s) && i < |s.cells| && start == Row(s.y, s.cols)
    ensures var r := ScrollUp(s, s.y, s.lines);
      |r.cells| == |s.cells| && start + s.cols <= |s.cells|
      && r.cells[i] == if i < start then s.cells[i] else if i + s.cols < |s.cells| then s.cells[i + s.cols] else BLANK
  {
    Rows(s.cols, s.y, s.lines);
    UpAt(s.cells, start, |s.cells|, s.cols, i);
    hide Up;
  }

  lemma {:induction false} InsertLinesAt(s: Screen, n: nat, start: nat, shift: nat, i: nat)
    requires Ok(s) && i < |s.cells| && start == Row(s.y, s.cols) && shift == Row(n, s.cols)
    ensures |InsertLines(s, n).cells| == |s.cells|
    ensures InsertLines(s, n).cells[i] == if i < start then s.cells[i] else if i < start + shift then BLANK else s.cells[i - shift]
    decreases n
  {
    hide ScrollDown, Ok;
    if n > 0 {
      var before, less := InsertLines(s, n - 1), Row(n - 1, s.cols);
      InsertLinesAt(s, n - 1, start, less, i);
      LineDownAt(before, start, i);
      if i >= start + s.cols { InsertLinesAt(s, n - 1, start, less, i - s.cols); }
      hide InsertLines, Row;
    }
  }

  lemma {:induction false} DeleteLinesAt(s: Screen, n: nat, start: nat, shift: nat, i: nat)
    requires Ok(s) && i < |s.cells| && start == Row(s.y, s.cols) && shift == Row(n, s.cols)
    ensures |DeleteLines(s, n).cells| == |s.cells|
    ensures DeleteLines(s, n).cells[i] == if i < start then s.cells[i] else if i + shift < |s.cells| then s.cells[i + shift] else BLANK
    decreases n
  {
    hide ScrollUp, Ok;
    if n > 0 {
      var before, less := DeleteLines(s, n - 1), Row(n - 1, s.cols);
      DeleteLinesAt(s, n - 1, start, less, i);
      LineUpAt(before, start, i);
      if i + s.cols < |s.cells| { DeleteLinesAt(s, n - 1, start, less, i + s.cols); }
      hide DeleteLines, Row;
    }
  }

  lemma CharRightAt(s: Screen, p: nat, end: nat, i: nat)
    requires Ok(s) && i < |s.cells| && p == Cursor(s) && end == RowEnd(s)
    ensures |InsertChar(s).cells| == |s.cells|
    ensures InsertChar(s).cells[i] == if i < p || i >= end then s.cells[i] else if i == p then BLANK else s.cells[i - 1]
  {
    OnScreen(s);
    if s.x < s.cols { ShiftAt(s.cells, p, end, i); }
    hide ShiftRight;
  }

  lemma CharLeftAt(s: Screen, p: nat, end: nat, i: nat)
    requires Ok(s) && i < |s.cells| && p == Cursor(s) && end == RowEnd(s)
    ensures |DeleteChar(s).cells| == |s.cells| && end <= |s.cells|
    ensures DeleteChar(s).cells[i] == if i < p || i >= end then s.cells[i] else if i + 1 == end then BLANK else s.cells[i + 1]
  {
    OnScreen(s);
    if s.x < s.cols { ShiftAt(s.cells, p, end, i); }
    hide ShiftLeft;
  }

  lemma {:induction false} InsertAt(s: Screen, n: nat, p: nat, end: nat, i: nat)
    requires Ok(s) && i < |s.cells| && p == Cursor(s) && end == RowEnd(s)
    ensures |Insert(s, n).cells| == |s.cells|
    ensures Insert(s, n).cells[i] == if i < p || i >= end then s.cells[i] else if i < p + n then BLANK else s.cells[i - n]
    decreases n
  {
    hide InsertChar, Row, Ok;
    if n > 0 {
      var before := Insert(s, n - 1);
      InsertAt(s, n - 1, p, end, i);
      CharRightAt(before, p, end, i);
      if i > p { InsertAt(s, n - 1, p, end, i - 1); }
      hide Insert, Cursor, RowEnd;
    }
  }

  lemma {:induction false} DeleteAt(s: Screen, n: nat, p: nat, end: nat, i: nat)
    requires Ok(s) && i < |s.cells| && p == Cursor(s) && end == RowEnd(s)
    requires end <= |s.cells|
    ensures |Delete(s, n).cells| == |s.cells|
    ensures Delete(s, n).cells[i] == if i < p || i >= end then s.cells[i] else if i + n < end then s.cells[i + n] else BLANK
    decreases n
  {
    hide DeleteChar, Row, Ok;
    if n > 0 {
      var before := Delete(s, n - 1);
      DeleteAt(s, n - 1, p, end, i);
      CharLeftAt(before, p, end, i);
      if i + 1 < end { DeleteAt(s, n - 1, p, end, i + 1); }
      hide Delete, Cursor, RowEnd;
    }
  }

  lemma Edits(u: Term, n: nat, m: nat, c: char)
    requires Good(u) && u.state == 0 && c in "LMP@" && n == Times(u.par[0], u.scr.lines) && m == Times(u.par[0], u.scr.cols)
    ensures CellsOnly(u, Command(u, c as nat)) || |Command(u, c as nat).scr.cells| != |u.scr.cells|
    ensures Command(u, c as nat).scr ==
              if c == 'L' then InsertLines(u.scr, n) else if c == 'M' then DeleteLines(u.scr, n)
              else if c == 'P' then Delete(u.scr, m) else Insert(u.scr, m)
  {
    hide InsertLines, DeleteLines, Insert, Delete;
  }

  /** ESC [ n L: the cursor's row and those below move down by `n`, leaving blank rows. */
  lemma LinesInserted(t: Term, ds: seq<nat>, start: nat, p: nat, end: nat, shift: nat, i: nat)
    requires Good(t) && t.state == 0 && Digits(ds) && RowAt(t.scr, start, p, end) && i < |t.scr.cells|
    requires shift == Times(Number(ds), t.scr.lines) * t.scr.cols
    ensures var u := Shown(t, Csi(ds, 'L'));
      CellsOnly(t, u)
      && u.scr.cells[i] == if i < start then t.scr.cells[i] else if i < start + shift then BLANK else t.scr.cells[i - shift]
  {
    hide Number, Value, Shown, Csi, Feed, Ok, Command;
    OneNumber(t, ds, 'L');
    Edits(Read(t, Number(ds), 0, 0).(state := 0), Times(Number(ds), t.scr.lines), Times(Number(ds), t.scr.cols), 'L');
    RowAtIs(t.scr, start, p, end);
    RowIsProduct(Times(Number(ds), t.scr.lines), t.scr.cols);
    InsertLinesAt(t.scr, Times(Number(ds), t.scr.lines), start, shift, i);
  }

  /** ESC [ n M: the rows `n` below move up to the cursor's, and blank rows come in at the bottom. */
  lemma LinesDeleted(t: Term, ds: seq<nat>, start: nat, p: nat, end: nat, shift: nat, i: nat)
    requires Good(t) && t.state == 0 && Digits(ds) && RowAt(t.scr, start, p, end) && i < |t.scr.cells|
    requires shift == Times(Number(ds), t.scr.lines) * t.scr.cols
    ensures var u := Shown(t, Csi(ds, 'M'));
      CellsOnly(t, u)
      && u.scr.cells[i] == if i < start then t.scr.cells[i] else if i + shift < |t.scr.cells| then t.scr.cells[i + shift] else BLANK
  {
    hide Number, Value, Shown, Csi, Feed, Ok, Command;
    OneNumber(t, ds, 'M');
    Edits(Read(t, Number(ds), 0, 0).(state := 0), Times(Number(ds), t.scr.lines), Times(Number(ds), t.scr.cols), 'M');
    RowAtIs(t.scr, start, p, end);
    RowIsProduct(Times(Number(ds), t.scr.lines), t.scr.cols);
    DeleteLinesAt(t.scr, Times(Number(ds), t.scr.lines), start, shift, i);
  }

  /** ESC [ n @: what is at the cursor and behind it in its row moves right by `n`. */
  lemma CharsInserted(t: Term, ds: seq<nat>, start: nat, p: nat, end: nat, i: nat)
    requires Good(t) && t.state == 0 && Digits(ds) && RowAt(t.scr, start, p, end) && i < |t.scr.cells|
    ensures var u, n := Shown(t, Csi(ds, '@')), Times(Number(ds), t.scr.cols);
      CellsOnly(t, u)
      && u.scr.cells[i] == if i < p || i >= end then t.scr.cells[i] else if i < p + n then BLANK else t.scr.cells[i - n]
  {
    hide Number, Value, Shown, Csi, Feed, Ok, Command;
    OneNumber(t, ds, '@');
    Edits(Read(t, Number(ds), 0, 0).(state := 0), Times(Number(ds), t.scr.lines), Times(Number(ds), t.scr.cols), '@');
    RowAtIs(t.scr, start, p, end);
    InsertAt(t.scr, Times(Number(ds), t.scr.cols), p, end, i);
  }

  /** ESC [ n P: what is `n` or more behind the cursor moves left, and blanks come in at the end of the row. */
  lemma CharsDeleted(t: Term, ds: seq<nat>, start: nat, p: nat, end: nat, i: nat)
    requires Good(t) && t.state == 0 && Digits(ds) && RowAt(t.scr, start, p, end) && i < |t.scr.cells|
    ensures var u, n := Shown(t, Csi(ds, 'P')), Times(Number(ds), t.scr.cols);
      CellsOnly(t, u) && end <= |t.scr.cells|
      && u.scr.cells[i] == if i < p || i >= end then t.scr.cells[i] else if i + n < end then t.scr.cells[i + n] else BLANK
  {
    hide Number, Value, Shown, Csi, Feed, Ok, Command;
    OneNumber(t, ds, 'P');
    Edits(Read(t, Number(ds), 0, 0).(state := 0), Times(Number(ds), t.scr.lines), Times(Number(ds), t.scr.cols), 'P');
    RowAtIs(t.scr, start, p, end);
    DeleteAt(t.scr, Times(Number(ds), t.scr.cols), p, end, i);
  }

  // ---------- text and control characters ----------

  predicate Printable(text: seq<nat>) {
    forall k :: 0 <= k < |text| ==> ' ' as nat <= text[k] <= '~' as nat
  }

  // The cells of a text in one colour.
  function Written(attr: nat, text: seq<nat>): seq<Cell> {
    seq(|text|, k requires 0 <= k < |text| => 256 * attr + text[k])
  }

  /** Text that fits into the rest of the row stands there, in order, and the cursor is behind it. */
  lemma {:induction false} TextShown(t: Term, text: seq<nat>, start: nat, p: nat, end: nat)
    requires Good(t) && t.state == 0 && Printable(text) && RowAt(t.scr, start, p, end) && t.scr.x + |text| <= t.scr.cols
    ensures p + |text| <= |t.scr.cells|
    ensures Shown(t, text) == t.(scr := t.scr.(x := t.scr.x + |text|,
                               cells := t.scr.cells[..p] + Written(t.attr, text) + t.scr.cells[p + |text|..]))
    decreases |text|
  {
    hide Feed, Ok;
    RowAtIs(t.scr, start, p, end);
    if text == [] {
      assert t.scr.cells[..p] + t.scr.cells[p..] == t.scr.cells;
    } else {
      var less, c := text[..|text| - 1], text[|text| - 1];
      TextShown(t, less, start, p, end);
      var u := Shown(t, less);
      CharShown(u, c, p + |less|) by { RowAtIs(u.scr, start, p + |less|, end); }
      assert Written(t.attr, text) == Written(t.attr, less) + [256 * t.attr + c];
    }
  }

  lemma CharShown(u: Term, c: nat, p: nat)
    requires Good(u) && u.state == 0 && ' ' as nat <= c <= '~' as nat && u.scr.x < u.scr.cols && p == Cursor(u.scr)
    ensures p < |u.scr.cells| && Feed(u, c) == u.(scr := u.scr.(x := u.scr.x + 1, cells := u.scr.cells[p := 256 * u.attr + c]))
  {
    OnScreen(u.scr);
    hide Cursor;
  }

  /** In a full row, a character goes to the start of the next line. */
  lemma TextWraps(t: Term, c: nat)
    requires Good(t) && t.state == 0 && ' ' as nat <= c <= '~' as nat && t.scr.x == t.scr.cols
    ensures Shown(t, [c]) == Shown(t, [13, 10, c])
  {
    hide Shown, Feed;
    assert [13, 10, c] == [13] + ([10] + [c]);
    ShownJoin(t, [13], [10] + [c]);
    ShownOne(t, 13);
    ShownJoin(Feed(t, 13), [10], [c]);
    ShownOne(Feed(t, 13), 10);
    ShownOne(Feed(Feed(t, 13), 10), c);
    ShownOne(t, c);
    FullRow(t, c);
  }

  lemma FullRow(t: Term, c: nat)
    requires Good(t) && t.state == 0 && ' ' as nat <= c <= '~' as nat && t.scr.x == t.scr.cols
    ensures Feed(t, c) == Feed(Feed(Feed(t, 13), 10), c)
  {
    hide ScrollUp, Row, Typed;
    var u := Feed(t, 13);
    assert u == t.(scr := t.scr.(x := 0));
    var w := Feed(u, 10);
    assert w == u.(scr := Lf(u.scr));
    hide Lf;
  }

  /** Line feed: down one row, or the scroll region moves up under the cursor and a blank row comes in. */
  lemma LineFed(t: Term, c: nat, first: nat, last: nat, i: nat)
    requires Good(t) && t.state == 0 && 10 <= c <= 12 && i < |t.scr.cells|
    requires first == t.scr.top * t.scr.cols && last == t.scr.bottom * t.scr.cols
    ensures t.scr.y + 1 < t.scr.bottom ==> Shown(t, [c]) == t.(scr := t.scr.(y := t.scr.y + 1))
    ensures t.scr.y + 1 >= t.scr.bottom ==>
              var u := Shown(t, [c]);
              CellsOnly(t, u) && last <= |t.scr.cells|
              && u.scr.cells[i] == if i < first || i >= last then t.scr.cells[i] else if i + t.scr.cols < last then t.scr.cells[i + t.scr.cols] else BLANK
  {
    hide Shown;
    ShownOne(t, c);
    RowIsProduct(t.scr.top, t.scr.cols);
    RowIsProduct(t.scr.bottom, t.scr.cols);
    OnScreen(t.scr);
    UpAt(t.scr.cells, first, last, t.scr.cols, i);
    hide Row, Up;
  }

  /** ESC M, the other way: up one row, or the scroll region moves down. ESC D is a line feed. */
  lemma ReverseLineFed(t: Term, first: nat, last: nat, i: nat)
    requires Good(t) && t.state == 0 && i < |t.scr.cells|
    requires first == t.scr.top * t.scr.cols && last == t.scr.bottom * t.scr.cols
    ensures t.scr.y > t.scr.top ==> Shown(t, [ESC, 'M' as nat]) == t.(scr := t.scr.(y := t.scr.y - 1))
    ensures t.scr.y <= t.scr.top ==>
              var u := Shown(t, [ESC, 'M' as nat]);
              CellsOnly(t, u) && last <= |t.scr.cells|
              && u.scr.cells[i] == if i < first || i >= last then t.scr.cells[i] else if i < first + t.scr.cols then BLANK else t.scr.cells[i - t.scr.cols]
    ensures Shown(t, [ESC, 'D' as nat]) == Shown(t, [10])
  {
    hide Shown;
    EscapeShown(t, 'M');
    EscapeShown(t, 'D');
    ShownOne(t, 10);
    RowIsProduct(t.scr.top, t.scr.cols);
    RowIsProduct(t.scr.bottom, t.scr.cols);
    OnScreen(t.scr);
    DownAt(t.scr.cells, first, last, t.scr.cols, i);
    hide Row, Down;
  }

  lemma EscapeShown(t: Term, c: char)
    requires Good(t) && t.state == 0
    ensures Shown(t, [ESC, c as nat]) == Escape(t.(state := 1), c as nat)
  {
    assert [ESC, c as nat] == [ESC] + [c as nat];
    ShownJoin(t, [ESC], [c as nat]);
    ShownOne(t, ESC);
    ShownOne(t.(state := 1), c as nat);
    hide Shown, Escape;
  }

  /** Carriage return and backspace. */
  lemma ControlsShown(t: Term)
    requires Good(t) && t.state == 0 && t.erase != 8
    ensures Shown(t, [13]) == t.(scr := t.scr.(x := 0))
    ensures Shown(t, [8]) == t.(scr := t.scr.(x := if t.scr.x > 0 then t.scr.x - 1 else 0))
  {
    hide Shown, Lf, Del, Typed, Tab;
    ShownOne(t, 13);
    ShownOne(t, 8);
  }

  /** ESC E goes to the start of the next row, if there is one. */
  lemma NextLineShown(t: Term)
    requires Good(t) && t.state == 0
    ensures Shown(t, [ESC, 'E' as nat]) == t.(scr := if t.scr.y + 1 < t.scr.lines then t.scr.(x := 0, y := t.scr.y + 1) else t.scr)
  {
    hide Shown, GotoXY, Escape;
    var y := t.scr.y + 1;
    EscapeShown(t, 'E');
    EscapeE(t, y);
    GotoExactly(t.scr, 0, y);
  }

  lemma EscapeE(t: Term, y: nat)
    requires Good(t) && t.state == 0 && y == t.scr.y + 1
    ensures Escape(t.(state := 1), 'E' as nat) == t.(scr := GotoXY(t.scr, 0, y))
  {
    hide GotoXY, Lf, Ri, Ok, Words;
  }

  /** Tabulation: to the next column that is a multiple of eight, or as far into the next line. */
  lemma TabShown(t: Term, stop: nat)
    requires Good(t) && t.state == 0 && t.erase != 9 && t.scr.x < stop <= t.scr.x + 8 && stop % 8 == 0
    ensures Shown(t, [9]) == if stop <= t.scr.cols then t.(scr := t.scr.(x := stop))
                             else Shown(t.(scr := t.scr.(x := stop - t.scr.cols)), [10])
  {
    hide Shown, Lf, Del, Typed;
    ShownOne(t, 9);
    var rest := t.scr.x % 8;
    assert stop == t.scr.x + 8 - rest;
    if stop > t.scr.cols { ShownOne(t.(scr := t.scr.(x := stop - t.scr.cols)), 10); }
  }

  /** The erase character takes back the one before the cursor. */
  lemma EraseShown(t: Term, start: nat, p: nat, end: nat)
    requires Good(t) && t.state == 0 && RowAt(t.scr, start, p, end)
    requires t.erase < 32 || t.erase == 127
    requires t.erase != ESC && !(10 <= t.erase <= 13)
    ensures t.scr.x > 0 ==> p <= |t.scr.cells|
    ensures Shown(t, [t.erase]) ==
              if t.scr.x > 0 then t.(scr := t.scr.(x := t.scr.x - 1, cells := t.scr.cells[p - 1 := BLANK])) else t
  {
    hide Shown;
    ShownOne(t, t.erase);
    RowAtIs(t.scr, start, p, end);
  }
}
