/**
  The stack a new program starts with (linux-0.11/fs/exec.c): copy_strings packs
  the strings backwards into pages, create_tables walks them and leaves argv and
  envp.
 */
module ExecStack {
  import opened Wrappers
  import FileTree
  import Sequences

  type Byte = FileTree.Byte
  type Str = seq<Byte>

  const PAGE: nat := 4096
  const MAX_ARG_PAGES: nat := 32
  const ROOM: nat := PAGE * MAX_ARG_PAGES
  const TOP: nat := ROOM - 4           // where the strings end
  const LIMIT: nat := 0x4000000        // the data segment
  const BASE: nat := LIMIT - ROOM      // where the first argument page goes

  // A string as it is found in memory: up to the first zero.
  predicate Plain(s: Str) {
    0 !in s
  }

  predicate AllPlain(list: seq<Str>) {
    forall s :: s in list ==> Plain(s)
  }

  /** Each string with its zero, one after the other. */
  function Packed(list: seq<Str>): seq<Byte> {
    if list == [] then [] else list[0] + [0] + Packed(list[1..])
  }

  lemma {:induction false} PackedAppend(a: seq<Str>, b: seq<Str>)
    ensures Packed(a + b) == Packed(a) + Packed(b)
    decreases |a|
  {
    if a == [] {
      assert a + b == b;
    } else {
      assert (a + b)[1..] == a[1..] + b;
      PackedAppend(a[1..], b);
      assert Packed(a + b) == a[0] + [0] + Packed(a[1..] + b);
    }
  }

  // ---------- which pages are needed ----------

  /** Which argument pages are there, and how many pages the system has. */
  datatype Supply = Supply(present: seq<bool>, avail: nat)

  // Some byte from `p` up to `q` is on page `i`.
  predicate Touched(i: nat, p: nat, q: nat) {
    p < q && i * PAGE < q && p < (i + 1) * PAGE
  }

  ghost function Absent(s: Supply): set<nat> {
    set i: nat | i < |s.present| && !s.present[i]
  }

  /** The pages that have to be got for the bytes from `p` up to `q`. */
  ghost function Wanting(s: Supply, p: nat, q: nat): set<nat> {
    set i: nat | i < |s.present| && !s.present[i] && Touched(i, p, q)
  }

  /** Pages were got for some of the bytes from `p` up to `q`, and for nothing else. */
  ghost predicate Got(s: Supply, t: Supply, p: nat, q: nat) {
    && |t.present| == |s.present| && t.avail - |Absent(t)| == s.avail - |Absent(s)|
    && (forall i: nat :: i < |s.present| && s.present[i] ==> t.present[i])
    && (forall i: nat :: i < |s.present| && !Touched(i, p, q) ==> t.present[i] == s.present[i])
  }

  /** For all of the bytes, or as long as there were any. */
  ghost predicate Fetched(s: Supply, t: Supply, p: nat, q: nat, ok: bool) {
    Got(s, t, p, q) && if ok then Wanting(t, p, q) == {} else t.avail == 0 && Wanting(t, p, q) != {}
  }

  /** The system has the pages that the bytes from `p` up to `q` still need. */
  ghost predicate Enough(s: Supply, p: nat, q: nat) {
    s.avail >= |Wanting(s, p, q)|
  }

  /** All pages are got exactly if there are enough. */
  lemma FetchedExactly(s: Supply, t: Supply, p: nat, q: nat, ok: bool)
    requires Fetched(s, t, p, q, ok)
    ensures ok <==> Enough(s, p, q)
  {
    hide Touched;
    var w, v := Wanting(s, p, q), Wanting(t, p, q);
    var rest := Absent(s) - w;
    assert Absent(s) == w + rest && Absent(t) == v + rest;
    if !ok { assert |v| > 0; }
  }

  lemma NothingFetched(s: Supply, p: nat)
    ensures Fetched(s, s, p, p, true)
  {
  }

  /** First the bytes from `q` on, then those from `p` up to `q`. */
  lemma FetchedMore(s: Supply, t: Supply, u: Supply, p: nat, q: nat, r: nat, ok: bool)
    requires p <= q <= r && Fetched(s, t, q, r, true) && Fetched(t, u, p, q, ok)
    ensures Fetched(s, u, p, r, ok)
  {
    forall i: nat | i < |s.present| ensures Touched(i, p, r) <==> Touched(i, p, q) || Touched(i, q, r) { Parts(i, p, q, r); }
    hide Touched;
    forall i: nat | i < |s.present| && Touched(i, q, r) ensures u.present[i] { assert i !in Wanting(t, q, r); }
    assert Wanting(u, p, r) == Wanting(u, p, q);
  }

  lemma Parts(i: nat, p: nat, q: nat, r: nat)
    requires p <= q <= r
    ensures Touched(i, p, r) <==> Touched(i, p, q) || Touched(i, q, r)
  {
  }

  /** Where some pages for the bytes from `q` on were missing, some are for more bytes. */
  lemma FetchedLess(s: Supply, t: Supply, p: nat, q: nat, r: nat)
    requires p <= q <= r && Fetched(s, t, q, r, false)
    ensures Fetched(s, t, p, r, false)
  {
    forall i: nat | i < |s.present| ensures Touched(i, q, r) ==> Touched(i, p, r) { Parts(i, p, q, r); }
    hide Touched;
    var i :| i in Wanting(t, q, r);
    assert i in Wanting(t, p, r);
  }

  lemma FetchedTooFew(s: Supply, t: Supply, p: nat, q: nat, r: nat)
    requires p <= q <= r && Fetched(s, t, q, r, false)
    ensures Fetched(s, t, p, r, false) && !Enough(s, p, r)
  {
    hide Fetched, Enough;
    FetchedLess(s, t, p, q, r);
    FetchedExactly(s, t, p, r, false);
  }

  // ---------- the argument pages ----------

  class ArgPages {
    const bytes: array2<Byte>
    const present: array<bool>
    var avail: nat

    ghost predicate Valid()
    {
      bytes.Length0 == MAX_ARG_PAGES && bytes.Length1 == PAGE && present.Length == MAX_ARG_PAGES
    }

    function At(x: nat): Byte
      requires Valid() && x < ROOM
      reads bytes, present
    {
      if present[x / PAGE] then bytes[x / PAGE, x % PAGE] else 0
    }

    /** All argument pages in a row; a page that is not there counts as zeros. */
    ghost function Flat(): (f: seq<Byte>)
      requires Valid()
      reads bytes, present
      ensures |f| == ROOM
    {
      seq(ROOM, x requires 0 <= x < ROOM reads bytes, present => At(x))
    }

    ghost function Pages(): Supply
      reads this, present
    {
      Supply(present[..], avail)
    }

    constructor (free: nat)
      ensures Valid() && avail == free && Flat() == seq(ROOM, _ => 0)
      ensures forall i: nat :: i < MAX_ARG_PAGES ==> !present[i]
      ensures fresh(bytes) && fresh(present)
    {
      bytes := new Byte[MAX_ARG_PAGES, PAGE]((i, j) => 0);
      present := new bool[MAX_ARG_PAGES](i => false);
      avail := free;
    }

    /** The page of address `p`, zeroed, unless it is there or none can be had. */
    method Need(i: nat, p: nat) returns (ok: bool)
      requires Valid() && p < ROOM && i == p / PAGE
      modifies this, bytes, present
      ensures Flat() == old(Flat()) && ok == present[i] && Fetched(old(Pages()), Pages(), p, p + 1, ok)
    {
      ghost var before, s := Flat(), Pages();
      ok := present[i];
      if !ok && avail > 0 {
        avail := avail - 1;
        forall j | 0 <= j < PAGE { bytes[i, j] := 0; }
        present[i] := true;
        ok := true;
        forall x: nat | x < ROOM ensures At(x) == before[x] {}
      }
      OnePage(s, Pages(), i, p);
    }

    method Poke(pag: nat, offset: nat, b: Byte)
      requires Valid() && pag < MAX_ARG_PAGES && offset < PAGE && present[pag]
      modifies bytes
      ensures Flat() == old(Flat())[pag * PAGE + offset := b] && Pages() == old(Pages())
    {
      ghost var before := Flat();
      bytes[pag, offset] := b;
      forall x: nat | x < ROOM ensures At(x) == before[pag * PAGE + offset := b][x] {
        assert x == x / PAGE * PAGE + x % PAGE;
      }
    }

    // Where copy_strings is: its page and offset are those of the last byte written, or not known yet.
    ghost predicate Cursor(p: nat, offset: int, pag: nat)
      requires Valid()
      reads present
    {
      offset == 0 || (0 < offset < PAGE && pag < MAX_ARG_PAGES && p == pag * PAGE + offset && present[pag])
    }

    /** On to the byte at `p`: below the one before on its page, or at the end of another page. */
    method Seek(p: nat, ghost r: nat, offset0: int, pag0: nat) returns (ok: bool, offset: int, pag: nat)
      requires Valid() && r == p + 1 <= ROOM && Cursor(r, offset0 + 1, pag0)
      modifies this, bytes, present
      ensures Flat() == old(Flat()) && Fetched(old(Pages()), Pages(), p, r, ok)
      ensures ok ==> 0 <= offset < PAGE && pag < MAX_ARG_PAGES && pag * PAGE + offset == p && present[pag] && Cursor(p, offset, pag)
    {
      ok, offset, pag := true, offset0, pag0;
      if offset < 0 {
        offset := p % PAGE;
        pag := p / PAGE;
        ok := Need(pag, p);
      } else {
        SamePage(Pages(), pag, p);
      }
    }

    /** The inner loop of copy_strings: one string, backwards, and its zero. */
    method CopyOne(s: Str, q: nat, offset0: int, pag0: nat) returns (ok: bool, p: nat, offset: int, pag: nat)
      requires Valid() && |s| + 1 <= q <= ROOM && Cursor(q, offset0, pag0)
      modifies this, bytes, present
      ensures ok ==> p == q - (|s| + 1) && Cursor(p, offset, pag)
      ensures Fetched(old(Pages()), Pages(), q - (|s| + 1), q, ok)
      ensures ok ==> Flat()[p..q] == s + [0] && Flat()[q..] == old(Flat()[q..])
    {
      p, offset, pag := q, offset0, pag0;
      var len := |s| + 1;
      ghost var w, rest, was := s + [0], Flat()[q..], Pages();
      assert w[len..] == [];
      NothingFetched(was, q);
      hide Fetched, Cursor;
      while len > 0
        invariant 0 <= len <= |s| + 1 && p == q - (|s| + 1 - len) && Cursor(p, offset, pag)
        invariant Flat()[p..q] == w[len..] && Flat()[q..] == rest && Fetched(was, Pages(), p, q, true)
      {
        ghost var f, r, here := Flat(), p, Pages();
        p, len := p - 1, len - 1;
        ok, offset, pag := Seek(p, r, offset - 1, pag);
        FetchedMore(was, here, Pages(), p, r, q, ok);
        if !ok {
          FetchedLess(was, Pages(), q - (|s| + 1), p, q);
          return;
        }
        Poke(pag, offset, if len == |s| then 0 else s[len]);
        Prefixed(f, p, q, w, len);
      }
      ok := true;
    }

    /** copy_strings: the result is the new top of the packed strings, or 0 if no page could be had. */
    method CopyStrings(list: seq<Str>, p0: nat) returns (p: nat)
      requires Valid() && p0 <= ROOM && (p0 == 0 || |Packed(list)| <= p0)
      modifies this, bytes, present
      ensures p > 0 ==> p == p0 - |Packed(list)| && Flat()[p..p0] == Packed(list) && Flat()[p0..] == old(Flat()[p0..])
      ensures p0 == 0 ==> p == 0 && Pages() == old(Pages())
      ensures p0 > 0 ==>
        var bottom: nat, was := p0 - |Packed(list)|, old(Pages());
        p == (if Enough(was, bottom, p0) then bottom else 0) && Fetched(was, Pages(), bottom, p0, Enough(was, bottom, p0))
    {
      p := p0;
      if p == 0 { return; }
      var argc, offset, pag := |list|, 0, 0;
      ghost var before, was, bottom: nat := Flat(), Pages(), p0 - |Packed(list)|;
      NothingCopied(before, was, list, p0);
      hide Cursor, Packed, Fetched, Enough, CopiedTo;
      while argc > 0
        invariant 0 <= argc <= |list| && Cursor(p, offset, pag) && CopiedTo(before, Flat(), was, Pages(), list[argc..], p, p0)
      {
        argc := argc - 1;
        PackedRest(list, argc);
        RoomFor(before, Flat(), was, Pages(), list, argc, p, p0);
        ghost var f, q, here := Flat(), p, Pages();
        var ok;
        ok, p, offset, pag := CopyOne(list[argc], p, offset, pag);
        if !ok {
          NotAllCopied(before, f, was, here, Pages(), list, argc, bottom, q - (|list[argc]| + 1), q, p0);
          return 0;
        }
        OneCopied(before, f, Flat(), was, here, Pages(), list, argc, q, p, p0);
      }
      AllCopied(before, Flat(), was, Pages(), list, p, p0);
    }
  }

  /** The strings of `done` stand below `p0`, nothing above changed, and the pages for them were got. */
  ghost predicate CopiedTo(before: seq<Byte>, f: seq<Byte>, was: Supply, now: Supply, done: seq<Str>, p: nat, p0: nat) {
    && |f| == |before| == ROOM >= p0 && p == p0 - |Packed(done)|
    && f[p..p0] == Packed(done) && f[p0..] == before[p0..] && Fetched(was, now, p, p0, true)
  }

  lemma NothingCopied(f: seq<Byte>, s: Supply, list: seq<Str>, p: nat)
    requires |f| == ROOM >= p
    ensures CopiedTo(f, f, s, s, list[|list|..], p, p)
  {
    NothingFetched(s, p);
    hide Fetched;
    assert list[|list|..] == [] && Packed([]) == [];
  }

  lemma RoomFor(before: seq<Byte>, f: seq<Byte>, was: Supply, now: Supply, list: seq<Str>, i: nat, p: nat, p0: nat)
    requires i < |list| && CopiedTo(before, f, was, now, list[i + 1..], p, p0) && |Packed(list)| <= p0
    ensures |list[i]| + 1 <= p <= ROOM
  {
    hide Packed, Fetched;
    PackedRest(list, i);
  }

  lemma OneCopied(before: seq<Byte>, f: seq<Byte>, g: seq<Byte>, was: Supply, here: Supply, now: Supply, list: seq<Str>, i: nat,
                  q: nat, p: nat, p0: nat)
    requires i < |list| && CopiedTo(before, f, was, here, list[i + 1..], q, p0) && |g| == |f|
    requires p == q - (|list[i]| + 1) && g[p..q] == list[i] + [0] && g[q..] == f[q..] && Fetched(here, now, p, q, true)
    ensures CopiedTo(before, g, was, now, list[i..], p, p0)
  {
    hide Packed, Fetched;
    PackedRest(list, i);
    FetchedMore(was, here, now, p, q, p0, true);
    Joined(f, g, p, q, p0);
  }

  lemma NotAllCopied(before: seq<Byte>, f: seq<Byte>, was: Supply, here: Supply, now: Supply, list: seq<Str>, i: nat,
                     bottom: nat, at: nat, q: nat, p0: nat)
    requires i < |list| && CopiedTo(before, f, was, here, list[i + 1..], q, p0)
    requires bottom + |Packed(list)| == p0 && at + |list[i]| + 1 == q && Fetched(here, now, at, q, false)
    ensures Fetched(was, now, bottom, p0, false) && !Enough(was, bottom, p0)
  {
    hide Packed, Fetched, Enough;
    PackedRest(list, i);
    FetchedMore(was, here, now, at, q, p0, false);
    FetchedTooFew(was, now, bottom, at, p0);
  }

  lemma AllCopied(before: seq<Byte>, f: seq<Byte>, was: Supply, now: Supply, list: seq<Str>, p: nat, p0: nat)
    requires CopiedTo(before, f, was, now, list[0..], p, p0)
    ensures p == p0 - |Packed(list)| && f[p..p0] == Packed(list) && f[p0..] == before[p0..]
    ensures Fetched(was, now, p, p0, true) && Enough(was, p, p0)
  {
    hide Packed, Fetched, Enough;
    assert list[0..] == list;
    FetchedExactly(was, now, p, p0, true);
  }

  lemma OnePage(s: Supply, t: Supply, i: nat, p: nat)
    requires i * PAGE <= p < (i + 1) * PAGE && i < |s.present|
    requires t == if s.present[i] || s.avail == 0 then s else Supply(s.present[i := true], s.avail - 1)
    ensures Fetched(s, t, p, p + 1, t.present[i])
  {
    var q := p + 1;
    forall j: nat ensures Touched(j, p, q) <==> j == i {}
    hide Touched;
    if t != s { assert Absent(s) == Absent(t) + {i}; }
    if !t.present[i] { assert i in Wanting(t, p, p + 1); }
  }

  lemma SamePage(s: Supply, i: nat, p: nat)
    requires i * PAGE <= p < (i + 1) * PAGE && i < |s.present| && s.present[i]
    ensures Fetched(s, s, p, p + 1, true)
  {
    OnePage(s, s, i, p);
  }

  lemma Joined(f: seq<Byte>, g: seq<Byte>, p: nat, q: nat, r: nat)
    requires p <= q <= r <= |f| == |g| && g[q..] == f[q..]
    ensures g[p..r] == g[p..q] + f[q..r] && g[r..] == f[r..]
  {
    assert f[q..r] == f[q..][..r - q] && g[q..r] == g[q..][..r - q];
    assert f[r..] == f[q..][r - q..] && g[r..] == g[q..][r - q..];
  }

  lemma Prefixed(f: seq<Byte>, p: nat, q: nat, w: seq<Byte>, len: nat)
    requires p < q <= |f| && len < |w| && f[p + 1..q] == w[len + 1..]
    ensures f[p := w[len]][p..q] == w[len..] && f[p := w[len]][q..] == f[q..]
  {
    assert f[p := w[len]][p..q] == [w[len]] + f[p + 1..q];
  }

  lemma PackedRest(list: seq<Str>, i: nat)
    requires i < |list|
    ensures Packed(list[i..]) == list[i] + [0] + Packed(list[i + 1..])
    ensures |Packed(list[i..])| <= |Packed(list)|
  {
    assert list == list[..i] + list[i..];
    PackedAppend(list[..i], list[i..]);
    assert list[i..][1..] == list[i + 1..];
  }

  // ---------- the new program's memory ----------

  function LongAt(m: seq<Byte>, a: nat): nat
    requires a + 4 <= |m|
  {
    (m[a] as int) + 0x100 * (m[a + 1] as int) + 0x1_0000 * (m[a + 2] as int) + 0x100_0000 * (m[a + 3] as int)
  }

  // The bytes of a long, lowest first.
  function Octet(v: nat, k: nat): Byte
    requires v < 0x1_0000_0000 && k < 4
  {
    if k == 0 then v % 0x100 else if k == 1 then v / 0x100 % 0x100 else if k == 2 then v / 0x1_0000 % 0x100 else v / 0x100_0000
  }

  lemma Octets(v: nat)
    requires v < 0x1_0000_0000
    ensures (Octet(v, 0) as int) + 0x100 * (Octet(v, 1) as int) + 0x1_0000 * (Octet(v, 2) as int) + 0x100_0000 * (Octet(v, 3) as int) == v
  {
    var a, b, c := v / 0x100, v / 0x1_0000, v / 0x100_0000;
    assert v == 0x100 * a + v % 0x100;
    assert a == 0x100 * b + a % 0x100;
    assert b == 0x100 * c + b % 0x100;
  }

  /** Where string `i` is, when all are packed from `p` on. */
  function Addr(list: seq<Str>, p: nat, i: nat): nat
    requires i <= |list|
  {
    p + |Packed(list[..i])|
  }

  ghost predicate Loaded(m: seq<Byte>, list: seq<Str>, p: nat) {
    p + |Packed(list)| <= |m| && m[p..p + |Packed(list)|] == Packed(list)
  }

  lemma AddrNext(m: seq<Byte>, list: seq<Str>, p: nat, i: nat)
    requires Loaded(m, list, p) && i < |list|
    ensures Addr(list, p, i + 1) == Addr(list, p, i) + |list[i]| + 1 <= |m|
    ensures m[Addr(list, p, i)..Addr(list, p, i + 1)] == list[i] + [0]
  {
    var a, b, c := list[..i], [list[i]], list[i + 1..];
    assert list == (a + b) + c && list[..i + 1] == a + b;
    PackedAppend(a, b);
    PackedAppend(a + b, c);
    assert Packed(b) == list[i] + [0] by { assert b[1..] == [] && list[i] + [0] + [] == list[i] + [0]; }
    hide Packed;
    var w := Packed(list);
    assert w[|Packed(a)|..|Packed(a + b)|] == Packed(b);
    SliceOfSlice(m, p, |w|, |Packed(a)|, |Packed(a + b)|);
  }

  lemma SliceOfSlice(m: seq<Byte>, p: nat, n: nat, i: nat, j: nat)
    requires p + n <= |m| && i <= j <= n
    ensures m[p..p + n][i..j] == m[p + i..p + j]
  {
    var a, b := m[p..p + n][i..j], m[p + i..p + j];
    forall k | 0 <= k < j - i ensures a[k] == b[k] {}
  }

  ghost predicate StringAt(m: seq<Byte>, a: nat, s: Str) {
    a + |s| + 1 <= |m| && m[a..a + |s| + 1] == s + [0]
  }

  ghost predicate Entry(m: seq<Byte>, t: nat, list: seq<Str>, j: nat) {
    t + 4 * j + 4 <= |m| && if j < |list| then StringAt(m, LongAt(m, t + 4 * j), list[j]) else LongAt(m, t + 4 * j) == 0
  }

  /** A null-terminated table of pointers to the strings of `list`, in order. */
  ghost predicate Vector(m: seq<Byte>, t: nat, list: seq<Str>) {
    forall j: nat :: j <= |list| ==> Entry(m, t, list, j)
  }

  /** What the new program finds at its stack pointer: argc, argv, envp. */
  ghost predicate Starts(m: seq<Byte>, sp: nat, args: seq<Str>, envs: seq<Str>) {
    sp + 12 <= |m| && LongAt(m, sp) == |args| && Vector(m, LongAt(m, sp + 4), args) && Vector(m, LongAt(m, sp + 8), envs)
  }

  /** At the stack pointer: the number of arguments, and two addresses. At the first of these the addresses of the
      arguments, in order, then a null; at the second those of the environment. Each string ends with a zero. */
  lemma StartsFinds(m: seq<Byte>, sp: nat, args: seq<Str>, envs: seq<Str>, list: seq<Str>, t: nat, end: nat, j: nat, at: nat)
    requires Starts(m, sp, args, envs)
    requires (list == args && t == LongAt(m, sp + 4)) || (list == envs && t == LongAt(m, sp + 8))
    requires end == t + 4 * |list| && at == t + 4 * j
    ensures sp + 12 <= |m| && LongAt(m, sp) == |args|
    ensures end + 4 <= |m| && LongAt(m, end) == 0
    ensures j < |list| ==> at + 4 <= |m| && StringEnds(m, LongAt(m, at), list[j])
  {
    hide LongAt;
    assert Entry(m, t, list, |list|);
    if j < |list| {
      assert Entry(m, t, list, j);
      StringIs(m, LongAt(m, at), list[j]);
    }
  }

  predicate StringEnds(m: seq<Byte>, a: nat, s: Str) {
    a + |s| < |m| && m[a..a + |s|] == s && m[a + |s|] == 0
  }

  lemma StringIs(m: seq<Byte>, a: nat, s: Str)
    requires StringAt(m, a, s)
    ensures StringEnds(m, a, s)
  {
    var w := m[a..a + |s| + 1];
    assert w[..|s|] == m[a..a + |s|] && w[|s|] == m[a + |s|];
  }

  /** An address has its lowest byte first. */
  lemma LongIs(m: seq<Byte>, a: nat)
    requires a + 4 <= |m|
    ensures LongAt(m, a) == m[a] as int + 256 * (m[a + 1] as int) + 65536 * (m[a + 2] as int) + 16777216 * (m[a + 3] as int)
  {
  }

  class Memory {
    const m: array<Byte>

    constructor ()
      ensures m.Length == LIMIT && fresh(m) && forall x :: 0 <= x < LIMIT ==> m[x] == 0
    {
      m := new Byte[LIMIT](i => 0);
    }

    method PutLong(v: nat, a: nat)
      requires a + 4 <= m.Length && v < 0x1_0000_0000
      modifies m
      ensures LongAt(m[..], a) == v
      ensures forall x :: 0 <= x < m.Length && (x < a || x >= a + 4) ==> m[x] == old(m[x])
    {
      Octets(v);
      hide Octet;
      m[a] := Octet(v, 0);
      m[a + 1] := Octet(v, 1);
      m[a + 2] := Octet(v, 2);
      m[a + 3] := Octet(v, 3);
    }

    /** Past the end of a string. */
    method Skip(p0: nat, ghost s: Str) returns (p: nat)
      requires StringAt(m[..], p0, s) && Plain(s)
      ensures p == p0 + |s| + 1
    {
      p := p0;
      SkipTo(m[..], p0, s);
      while m[p] != 0
        invariant p0 <= p <= p0 + |s|
        decreases p0 + |s| - p
      {
        p := p + 1;
      }
      p := p + 1;
    }

    /** One pointer table: `n` strings from `p0` on, and a null. */
    method PutTable(t: nat, n: nat, p0: nat, ghost list: seq<Str>, ghost first: nat, ghost k: nat) returns (p: nat)
      requires AllPlain(list) && k + n <= |list| && p0 == Addr(list, first, k)
      requires m.Length <= LIMIT && Loaded(m[..], list, first) && t + 4 * n + 4 <= first
      modifies m
      ensures p == Addr(list, first, k + n) && Loaded(m[..], list, first)
      ensures forall x :: 0 <= x < m.Length && (x < t || x >= t + 4 * n + 4) ==> m[x] == old(m[x])
      ensures Table(m[..], t, list, first, k, n)
    {
      p := p0;
      var j := 0;
      ghost var before := m[..];
      hide LongAt, Loaded, Addr;
      while j < n
        invariant 0 <= j <= n && p == Addr(list, first, k + j) && Loaded(m[..], list, first) && Entries(m[..], t, list, first, k, j)
        invariant forall x :: 0 <= x < m.Length && (x < t || x >= t + 4 * n + 4) ==> m[x] == before[x]
      {
        p := PutEntry(t, j, p, list, first, k);
        j := j + 1;
      }
      label E:
      PutLong(0, t + 4 * n);
      Disjoint(old@E(m[..]), m[..], t, n);
      StillLoaded(old@E(m[..]), m[..], list, first);
    }

    method PutEntry(t: nat, j: nat, p0: nat, ghost list: seq<Str>, ghost first: nat, ghost k: nat) returns (p: nat)
      requires AllPlain(list) && k + j < |list| && p0 == Addr(list, first, k + j)
      requires m.Length <= LIMIT && Loaded(m[..], list, first) && t + 4 * j + 4 <= first && Entries(m[..], t, list, first, k, j)
      modifies m
      ensures p == Addr(list, first, k + j + 1) && Loaded(m[..], list, first) && Entries(m[..], t, list, first, k, j + 1)
      ensures forall x :: 0 <= x < m.Length && (x < t + 4 * j || x >= t + 4 * j + 4) ==> m[x] == old(m[x])
    {
      AddrNext(m[..], list, first, k + j);
      PutLong(p0, t + 4 * j);
      StillLoaded(old(m[..]), m[..], list, first);
      AddrNext(m[..], list, first, k + j);
      EntryAdded(old(m[..]), m[..], t, list, first, k, j);
      hide LongAt, Loaded, Entries;
      p := Skip(p0, list[k + j]);
    }

    /** change_ldt: the argument pages become the top of a fresh data segment. */
    method Place(pages: ArgPages)
      requires pages.Valid() && m.Length == LIMIT && forall x :: 0 <= x < LIMIT ==> m[x] == 0
      modifies m
      ensures m[BASE..] == pages.Flat()
    {
      var i := MAX_ARG_PAGES;
      while i > 0
        invariant 0 <= i <= MAX_ARG_PAGES
        invariant forall x: nat :: BASE <= x < BASE + i * PAGE ==> m[x] == 0
        invariant forall x: nat :: BASE + i * PAGE <= x < LIMIT ==> m[x] == pages.At(x - BASE)
      {
        i := i - 1;
        if pages.present[i] {
          forall x | BASE + i * PAGE <= x < BASE + i * PAGE + PAGE { m[x] := pages.bytes[i, x - (BASE + i * PAGE)]; }
        }
      }
      forall x: nat | x < ROOM ensures m[BASE..][x] == pages.At(x) {}
    }

    method PutHeader(sp: nat, argc: nat, argv: nat, envp: nat)
      requires sp + 12 <= m.Length && argc < LIMIT && argv < LIMIT && envp < LIMIT
      modifies m
      ensures LongAt(m[..], sp) == argc && LongAt(m[..], sp + 4) == argv && LongAt(m[..], sp + 8) == envp
      ensures forall x :: sp + 12 <= x < m.Length ==> m[x] == old(m[x])
    {
      PutLong(envp, sp + 8);
      PutLong(argv, sp + 4);
      PutLong(argc, sp);
    }

    /** create_tables, walking `argc` strings and then `envc` more. */
    method CreateTables(p0: nat, argc: nat, envc: nat, ghost list: seq<Str>) returns (sp: nat)
      requires m.Length == LIMIT && BASE <= p0 && Loaded(m[..], list, p0) && AllPlain(list) && argc + envc <= |list| <= ROOM
      modifies m
      ensures sp < p0 && Loaded(m[..], list, p0) && Starts(m[..], sp, list[..argc], list[argc..argc + envc])
    {
      var p := p0;
      sp := p - p % 4;
      sp := sp - 4 * (envc + 1);
      var envp := sp;
      sp := sp - 4 * (argc + 1);
      var argv := sp;
      sp := sp - 12;
      hide Packed, LongAt, Loaded, Table, Starts;
      ghost var m0 := m[..];
      PutHeader(sp, argc, argv, envp);
      StillLoaded(m0, m[..], list, p0);
      ghost var m1 := m[..];
      assert list[..0] == [] && |Packed([])| == 0 by { NoString(); }
      p := PutTable(argv, argc, p, list, p0, 0);
      ghost var m2 := m[..];
      p := PutTable(envp, envc, p, list, p0, argc);
      StartsIs(m1, m2, m[..], sp, argv, envp, list, p0, argc, envc);
    }
  }

  lemma NoString()
    ensures Packed([]) == []
  {
  }

  lemma StartsIs(m1: seq<Byte>, m2: seq<Byte>, m3: seq<Byte>, sp: nat, argv: nat, envp: nat, list: seq<Str>, p: nat,
      argc: nat, envc: nat)
    requires |m1| == |m2| == |m3| && argv == sp + 12 && envp == argv + 4 * argc + 4 && envp + 4 * envc + 4 <= |m1|
    requires LongAt(m1, sp) == argc && LongAt(m1, sp + 4) == argv && LongAt(m1, sp + 8) == envp
    requires Table(m2, argv, list, p, 0, argc) && forall x :: 0 <= x < argv ==> m2[x] == m1[x]
    requires Table(m3, envp, list, p, argc, envc) && forall x :: 0 <= x < envp ==> m3[x] == m2[x]
    requires Loaded(m3, list, p) && argc + envc <= |list|
    ensures Starts(m3, sp, list[..argc], list[argc..argc + envc])
  {
    hide Packed, Addr, Vector, Loaded, Entries;
    LowerLongs(m1, m3, sp, 3);
    assert LongAt(m3, sp + 4 * 0) == argc && LongAt(m3, sp + 4 * 1) == argv && LongAt(m3, sp + 4 * 2) == envp;
    TableKept(m2, m3, argv, list, p, 0, argc);
    hide LongAt, Loaded, Table;
    TableIs(m3, argv, list, p, 0, argc);
    TableIs(m3, envp, list, p, argc, envc);
    assert list[0..0 + argc] == list[..argc];
  }

  lemma TableKept(m: seq<Byte>, m': seq<Byte>, t: nat, list: seq<Str>, first: nat, k: nat, n: nat)
    requires Table(m, t, list, first, k, n) && |m'| == |m| && forall x :: t <= x < t + 4 * n + 4 ==> m'[x] == m[x]
    ensures Table(m', t, list, first, k, n)
  {
    LowerLongs(m, m', t, n + 1);
    hide LongAt;
  }

  lemma SkipTo(m: seq<Byte>, a: nat, s: Str)
    requires StringAt(m, a, s) && Plain(s)
    ensures m[a + |s|] == 0 && forall x :: a <= x < a + |s| ==> m[x] != 0
  {
    var w := m[a..a + |s| + 1];
    assert w[|s|] == m[a + |s|];
    forall x | a <= x < a + |s| ensures m[x] != 0 { assert w[x - a] == s[x - a] && s[x - a] in s; }
  }

  lemma Disjoint(m: seq<Byte>, m': seq<Byte>, t: nat, j: nat)
    requires |m'| == |m| && t + 4 * j + 4 <= |m|
    requires forall x :: 0 <= x < |m| && (x < t + 4 * j || x >= t + 4 * j + 4) ==> m'[x] == m[x]
    ensures forall i: nat :: i < j ==> LongAt(m', t + 4 * i) == LongAt(m, t + 4 * i)
  {
  }

  lemma StillLoaded(m: seq<Byte>, m': seq<Byte>, list: seq<Str>, first: nat)
    requires |m'| == |m| && Loaded(m, list, first) && forall x :: first <= x < |m| ==> m'[x] == m[x]
    ensures Loaded(m', list, first)
  {
  }

  ghost predicate Table(m: seq<Byte>, t: nat, list: seq<Str>, first: nat, k: nat, n: nat) {
    Entries(m, t, list, first, k, n) && t + 4 * n + 4 <= |m| && LongAt(m, t + 4 * n) == 0
  }

  ghost predicate Entries(m: seq<Byte>, t: nat, list: seq<Str>, first: nat, k: nat, n: nat) {
    && k + n <= |list| && t + 4 * n <= |m|
    && forall i: nat :: i < n ==> LongAt(m, t + 4 * i) == Addr(list, first, k + i)
  }

  lemma EntryAdded(m: seq<Byte>, m': seq<Byte>, t: nat, list: seq<Str>, first: nat, k: nat, j: nat)
    requires Entries(m, t, list, first, k, j) && k + j < |list| && t + 4 * j + 4 <= |m| == |m'|
    requires LongAt(m', t + 4 * j) == Addr(list, first, k + j)
    requires forall x :: 0 <= x < |m| && (x < t + 4 * j || x >= t + 4 * j + 4) ==> m'[x] == m[x]
    ensures Entries(m', t, list, first, k, j + 1)
  {
    Disjoint(m, m', t, j);
    hide LongAt;
  }

  /** Writing above leaves the `n` longs from `t` on. */
  lemma LowerLongs(m: seq<Byte>, m': seq<Byte>, t: nat, n: nat)
    requires |m'| == |m| && t + 4 * n <= |m| && forall x :: t <= x < t + 4 * n ==> m'[x] == m[x]
    ensures forall i: nat :: i < n ==> LongAt(m', t + 4 * i) == LongAt(m, t + 4 * i)
  {
  }

  lemma TableIs(m: seq<Byte>, t: nat, list: seq<Str>, first: nat, k: nat, n: nat)
    requires Loaded(m, list, first) && Table(m, t, list, first, k, n)
    ensures Vector(m, t, list[k..k + n])
  {
    var part := list[k..k + n];
    forall j: nat | j <= n ensures Entry(m, t, part, j) {
      if j < n { AddrNext(m, list, first, k + j); }
    }
  }

  // ---------- execve ----------

  lemma {:induction false} Fewer(list: seq<Str>)
    ensures |list| <= |Packed(list)|
    decreases |list|
  {
    if list != [] { Fewer(list[1..]); }
  }

  lemma LoadedFrom(m: seq<Byte>, f: seq<Byte>, list: seq<Str>, p: nat)
    requires |m| == LIMIT && |f| == ROOM && m[BASE..] == f && p + |Packed(list)| <= ROOM
    requires f[p..p + |Packed(list)|] == Packed(list)
    ensures Loaded(m, list, BASE + p)
  {
    hide Packed;
    forall i | 0 <= i < |Packed(list)| ensures m[BASE + p + i] == Packed(list)[i] {
      assert m[BASE..][p + i] == f[p + i] && f[p..p + |Packed(list)|][i] == f[p + i];
    }
  }

  /** The pages become the new data segment, with the tables below the strings. */
  method Enter(pages: ArgPages, p: nat, argc: nat, envc: nat, ghost list: seq<Str>) returns (mem: Memory, sp: nat)
    requires pages.Valid() && p + |Packed(list)| <= ROOM && AllPlain(list) && argc + envc <= |list|
    requires pages.Flat()[p..p + |Packed(list)|] == Packed(list)
    ensures fresh(mem) && fresh(mem.m) && Starts(mem.m[..], sp, list[..argc], list[argc..argc + envc])
  {
    mem := new Memory();
    mem.Place(pages);
    LoadedFrom(mem.m[..], pages.Flat(), list, p);
    Fewer(list);
    sp := mem.CreateTables(p + BASE, argc, envc, list);
  }

  lemma Stacked(f: seq<Byte>, g: seq<Byte>, p: nat, q: nat, r: nat, a: seq<Str>, b: seq<Str>)
    requires p <= q <= r <= |f| == |g| && f[q..r] == Packed(b) && g[p..q] == Packed(a) && g[q..] == f[q..]
    ensures g[p..r] == Packed(a + b)
  {
    PackedAppend(a, b);
    hide Packed;
    Joined(f, g, p, q, r);
  }

  /** The last `n` bytes below the top have been copied down to `p`, or there were too few pages for that. */
  ghost predicate Stocked(s: Supply, t: Supply, n: nat, p: nat)
    requires n <= TOP
  {
    var bottom: nat := TOP - n;
    p == (if Enough(s, bottom, TOP) then bottom else 0) && Fetched(s, t, bottom, TOP, Enough(s, bottom, TOP))
  }

  lemma StockedMore(s: Supply, t: Supply, u: Supply, n: nat, p: nat, m: nat, q: nat)
    requires n <= m <= TOP && Stocked(s, t, n, p)
    requires if p == 0 then q == 0 && u == t && (Enough(s, TOP - n, TOP) ==> m == n)
             else q == (if Enough(t, TOP - m, p) then TOP - m else 0) && Fetched(t, u, TOP - m, p, Enough(t, TOP - m, p))
    ensures Stocked(s, u, m, q)
  {
    hide Fetched, Enough;
    var bottom: nat, above: nat := TOP - m, TOP - n;
    if !Enough(s, above, TOP) {
      FetchedTooFew(s, t, bottom, above, TOP);
    } else if p > 0 {
      FetchedMore(s, t, u, bottom, p, TOP, Enough(t, bottom, p));
      FetchedExactly(s, u, bottom, TOP, Enough(t, bottom, p));
    }
  }

  /** Copies one list in front of what is there already; 0 stays 0. */
  method Push(pages: ArgPages, a: seq<Str>, p: nat, ghost b: seq<Str>, ghost s: Supply) returns (q: nat)
    requires pages.Valid() && |Packed(a)| + |Packed(b)| <= TOP
    requires Stocked(s, pages.Pages(), |Packed(b)|, p) && (p > 0 ==> pages.Flat()[p..TOP] == Packed(b))
    modifies pages, pages.bytes, pages.present
    ensures |Packed(a + b)| == |Packed(a)| + |Packed(b)|
    ensures Stocked(s, pages.Pages(), |Packed(a + b)|, q) && (q > 0 ==> pages.Flat()[q..TOP] == Packed(a + b))
  {
    PackedAppend(a, b);
    ghost var t := pages.Pages();
    ghost var f := pages.Flat();
    q := pages.CopyStrings(a, p);
    StockedMore(s, t, pages.Pages(), |Packed(b)|, p, |Packed(a + b)|, q);
    if q > 0 { Stacked(f, pages.Flat(), q, p, TOP, a, b); }
  }

  /** The environment, and the arguments in front of it. */
  method PushBoth(pages: ArgPages, args: seq<Str>, envs: seq<Str>) returns (p: nat)
    requires pages.Valid() && |Packed(args)| + |Packed(envs)| <= TOP
    modifies pages, pages.bytes, pages.present
    ensures |Packed(args + envs)| == |Packed(args)| + |Packed(envs)|
    ensures Stocked(old(pages.Pages()), pages.Pages(), |Packed(args + envs)|, p) && (p > 0 ==> pages.Flat()[p..TOP] == Packed(args + envs))
  {
    ghost var s := pages.Pages();
    assert envs + [] == envs && |Packed([])| == 0;
    NothingFetched(s, TOP);
    FetchedExactly(s, s, TOP, TOP, true);
    hide Packed;
    p := Push(pages, envs, TOP, [], s);
    p := Push(pages, args, p, envs, s);
  }

  /** The strings fit, with at least a byte to spare, and the system has the pages for them. */
  ghost predicate Fits(s: Supply, list: seq<Str>) {
    |Packed(list)| < TOP && Enough(s, TOP - |Packed(list)|, TOP)
  }

  /** As many free pages as there are argument pages are always enough. */
  lemma EnoughForAll(s: Supply, p: nat, q: nat)
    requires |s.present| == MAX_ARG_PAGES && s.avail >= MAX_ARG_PAGES
    ensures Enough(s, p, q)
  {
    hide Touched;
    Sequences.SubsetSize(Wanting(s, p, q), Sequences.Below(MAX_ARG_PAGES));
  }

  /** execve of a binary: the program finds exactly its arguments and environment. */
  method Exec(pages: ArgPages, args: seq<Str>, envs: seq<Str>) returns (mem: Option<Memory>, sp: nat)
    requires pages.Valid() && AllPlain(args) && AllPlain(envs) && |Packed(args)| + |Packed(envs)| <= TOP
    modifies pages, pages.bytes, pages.present
    ensures mem.Some? ==> Starts(mem.value.m[..], sp, args, envs)
    ensures mem.Some? <==> Fits(old(pages.Pages()), args + envs)
  {
    var p := PushBoth(pages, args, envs);
    if p == 0 { return None, 0; }
    var m: Memory;
    m, sp := Enter(pages, p, |args|, |envs|, args + envs);
    assert (args + envs)[..|args|] == args && (args + envs)[|args|..|args| + |envs|] == envs;
    mem := Some(m);
  }

  // ---------- scripts ----------

  function Opt(arg: Option<Str>): seq<Str> {
    if arg.Some? then [arg.value] else []
  }

  function Tail(args: seq<Str>): seq<Str> {
    if args == [] then [] else args[1..]
  }

  /** What an interpreter should be started with. */
  function ScriptArgs(args: seq<Str>, file: Str, name: Str, arg: Option<Str>): seq<Str> {
    [name] + Opt(arg) + [file] + Tail(args)
  }

  /** The interpreter's name, its argument if the line has one, the file, and the caller's strings from the second on. */
  lemma ScriptArgsAre(args: seq<Str>, file: Str, name: Str, arg: Option<Str>, j: nat)
    ensures var list, n := ScriptArgs(args, file, name, arg), if arg.Some? then 2 else 1;
      && |list| == n + (if args == [] then 1 else |args|) && list[0] == name && list[n] == file
      && (arg.Some? ==> list[1] == arg.value)
      && (0 < j < |args| ==> list[n + j] == args[j])
  {
  }

  // argc as execve counts it: one off, and one on for each string spliced in.
  function ScriptCount(args: seq<Str>, arg: Option<Str>): nat {
    |args| - 1 + 2 + |Opt(arg)|
  }

  /** execve of a script. The strings are all there; how they fall to argv and envp is up to the count. */
  method ExecScript(pages: ArgPages, args: seq<Str>, envs: seq<Str>, file: Str, name: Str, arg: Option<Str>)
    returns (mem: Option<Memory>, sp: nat)
    requires pages.Valid() && AllPlain(args) && AllPlain(envs) && Plain(file) && Plain(name) && (arg.Some? ==> Plain(arg.value))
    requires |Packed(ScriptArgs(args, file, name, arg) + envs)| <= TOP
    modifies pages, pages.bytes, pages.present
    ensures mem.Some? ==>
              var list, n := ScriptArgs(args, file, name, arg) + envs, ScriptCount(args, arg);
              n + |envs| <= |list| && Starts(mem.value.m[..], sp, list[..n], list[n..n + |envs|])
    ensures mem.Some? <==> Fits(old(pages.Pages()), ScriptArgs(args, file, name, arg) + envs)
  {
    ghost var list := ScriptArgs(args, file, name, arg) + envs;
    ScriptPlain(args, envs, file, name, arg);
    hide Packed, Starts, AllPlain, ScriptArgs, Plain, Opt, Table, Loaded, ScriptCount;
    var p, argc := PushScript(pages, args, envs, file, name, arg);
    if p == 0 { return None, 0; }
    var m: Memory;
    m, sp := Enter(pages, p, argc, |envs|, list);
    mem := Some(m);
  }

  /** All the strings, and argc as it is counted meanwhile. */
  method PushScript(pages: ArgPages, args: seq<Str>, envs: seq<Str>, file: Str, name: Str, arg: Option<Str>)
      returns (p: nat, argc: int)
    requires pages.Valid() && |Packed(ScriptArgs(args, file, name, arg) + envs)| <= TOP
    modifies pages, pages.bytes, pages.present
    ensures argc == ScriptCount(args, arg)
    ensures var list := ScriptArgs(args, file, name, arg) + envs;
      Stocked(old(pages.Pages()), pages.Pages(), |Packed(list)|, p) && (p > 0 ==> pages.Flat()[p..TOP] == Packed(list))
  {
    ghost var s := pages.Pages();
    Pieces(args, envs, file, name, arg);
    argc := |args| - 1;
    var tail := if argc > 0 then args[1..] else [];
    assert tail == Tail(args);
    CountIs(args, arg);
    hide Packed, ScriptArgs, Opt, Tail, ScriptCount;
    p := PushBoth(pages, tail, envs);
    p, argc := Splice(pages, file, name, arg, p, argc, tail + envs, s);
  }

  /** The script's name, the interpreter's argument, and the interpreter's name, in front of the rest. */
  method Splice(pages: ArgPages, file: Str, name: Str, arg: Option<Str>, p0: nat, argc0: int, ghost rest: seq<Str>, ghost s: Supply)
    returns (p: nat, argc: int)
    requires pages.Valid() && |Packed([name] + (Opt(arg) + ([file] + rest)))| <= TOP
    requires |Packed(rest)| <= TOP && Stocked(s, pages.Pages(), |Packed(rest)|, p0) && (p0 > 0 ==> pages.Flat()[p0..TOP] == Packed(rest))
    modifies pages, pages.bytes, pages.present
    ensures argc == argc0 + 2 + |Opt(arg)|
    ensures var list := [name] + (Opt(arg) + ([file] + rest));
      Stocked(s, pages.Pages(), |Packed(list)|, p) && (p > 0 ==> pages.Flat()[p..TOP] == Packed(list))
  {
    PackedAppend([file], rest);
    PackedAppend(Opt(arg), [file] + rest);
    PackedAppend([name], Opt(arg) + ([file] + rest));
    assert [] + ([file] + rest) == [file] + rest;
    hide Packed;
    p := Push(pages, [file], p0, rest, s);
    argc := argc0 + 1;
    if arg.Some? {
      p := Push(pages, [arg.value], p, [file] + rest, s);
      argc := argc + 1;
    }
    p := Push(pages, [name], p, Opt(arg) + ([file] + rest), s);
    argc := argc + 1;
  }

  lemma CountIs(args: seq<Str>, arg: Option<Str>)
    ensures ScriptCount(args, arg) == |args| - 1 + 2 + |Opt(arg)|
  {
  }

  lemma ScriptPlain(args: seq<Str>, envs: seq<Str>, file: Str, name: Str, arg: Option<Str>)
    requires AllPlain(args) && AllPlain(envs) && Plain(file) && Plain(name) && (arg.Some? ==> Plain(arg.value))
    ensures AllPlain(ScriptArgs(args, file, name, arg) + envs)
    ensures ScriptCount(args, arg) + |envs| <= |ScriptArgs(args, file, name, arg) + envs|
  {
    hide Plain;
    forall s | s in ScriptArgs(args, file, name, arg) + envs ensures Plain(s) {
      assert s in args || s in envs || s == file || s == name || (arg.Some? && s == arg.value);
    }
  }

  lemma Pieces(args: seq<Str>, envs: seq<Str>, file: Str, name: Str, arg: Option<Str>)
    ensures ScriptArgs(args, file, name, arg) + envs == [name] + (Opt(arg) + ([file] + (Tail(args) + envs)))
    ensures arg.None? ==> Opt(arg) + ([file] + (Tail(args) + envs)) == [file] + (Tail(args) + envs)
    ensures var rest := Tail(args) + envs;
      && |Packed(Tail(args))| + |Packed(envs)| == |Packed(rest)|
      && |Packed([file])| + |Packed(rest)| == |Packed([file] + rest)|
      && |Packed(Opt(arg))| + |Packed([file] + rest)| == |Packed(Opt(arg) + ([file] + rest))|
      && |Packed([name])| + |Packed(Opt(arg) + ([file] + rest))| == |Packed(ScriptArgs(args, file, name, arg) + envs)|
  {
    hide Packed;
    var rest := Tail(args) + envs;
    PackedAppend(Tail(args), envs);
    PackedAppend([file], rest);
    PackedAppend(Opt(arg), [file] + rest);
    PackedAppend([name], Opt(arg) + ([file] + rest));
  }

  /** The interpreter gets its name, its argument, the script and the script's arguments exactly when the
      caller passed at least an argv[0]. */
  lemma ScriptListExact(args: seq<Str>, envs: seq<Str>, file: Str, name: Str, arg: Option<Str>)
    ensures var list, n := ScriptArgs(args, file, name, arg) + envs, ScriptCount(args, arg);
      n + |envs| <= |list| &&
      (list[..n] == ScriptArgs(args, file, name, arg) && list[n..n + |envs|] == envs <==> args != [])
  {
    var list, n := ScriptArgs(args, file, name, arg) + envs, ScriptCount(args, arg);
    if args == [] {
      assert |list[..n]| == |ScriptArgs(args, file, name, arg)| - 1;
    }
  }

  /** With an empty argv the script's name is lost from argv and turns up as the first environment string. */
  lemma EmptyArgvLosesTheScript(file: Str, name: Str, env: Str)
    ensures var list, n := ScriptArgs([], file, name, None) + [env], ScriptCount([], None);
      list[..n] == [name] && list[n..n + 1] == [file]
  {
  }

  // ---------- the first line of a script ----------

  const NEWLINE: Byte := 10
  const SLASH: Byte := 47

  predicate Blank(b: Byte) {
    b == 32 || b == 9
  }

  predicate NoBlanks(s: Str) {
    forall b :: b in s ==> !Blank(b)
  }

  predicate OnlyBlanks(s: Str) {
    forall b :: b in s ==> Blank(b)
  }

  datatype Interp = NotFound | Found(path: Str, name: Str, arg: Option<Str>)

  ghost predicate Splits(line: Str, r: Interp)
    requires r.Found?
  {
    exists lead: Str, sep: Str :: OnlyBlanks(lead) && OnlyBlanks(sep) && |sep| == |Opt(r.arg)| &&
      line == lead + r.path + sep + (if r.arg.Some? then r.arg.value else [])
  }

  ghost predicate BaseName(path: Str, name: Str) {
    && SLASH !in name && |name| <= |path| && path[|path| - |name|..] == name
    && (|name| == |path| || path[|path| - |name| - 1] == SLASH)
  }

  // The end of the first line, or of the text.
  function LineEnd(buf: Str): (e: nat)
    ensures e <= |buf| && (e < |buf| ==> buf[e] == NEWLINE) && forall i :: 0 <= i < e ==> buf[i] != NEWLINE
  {
    if buf == [] || buf[0] == NEWLINE then 0 else 1 + LineEnd(buf[1..])
  }

  /** The text after #!, up to a zero: the interpreter's path, its last component, and the rest of the line after
      one blank, untouched. NotFound stands for ENOEXEC: no newline, or nothing but blanks before it. */
  method ParseLine(buf: Str) returns (r: Interp)
    requires Plain(buf)
    ensures r.NotFound? <==> LineEnd(buf) == |buf| || OnlyBlanks(buf[..LineEnd(buf)])
    ensures r.Found? ==> Splits(buf[..LineEnd(buf)], r) && r.path != [] && NoBlanks(r.path) && BaseName(r.path, r.name)
  {
    hide Splits, BaseName, NoBlanks;
    var nl := 0;
    while nl < |buf| && buf[nl] != NEWLINE
      invariant 0 <= nl <= LineEnd(buf)
    {
      nl := nl + 1;
    }
    if nl == |buf| { return NotFound; }
    var line := buf[..nl];
    var cp := 0;
    while cp < |line| && Blank(line[cp])
      invariant 0 <= cp <= |line| && OnlyBlanks(line[..cp])
    {
      cp := cp + 1;
    }
    assert line[..|line|] == line;
    if cp == |line| { return NotFound; }
    assert line[cp] in line;
    r := ParseName(line, cp);
  }

  method ParseName(line: Str, interp: nat) returns (r: Interp)
    requires interp < |line| && OnlyBlanks(line[..interp]) && !Blank(line[interp])
    ensures r.Found? && Splits(line, r) && r.path != [] && NoBlanks(r.path) && BaseName(r.path, r.name)
  {
    hide Splits, BaseName;
    var cp, name := interp, interp;
    while cp < |line| && !Blank(line[cp])
      invariant interp <= name <= cp <= |line| && (cp == interp ==> name == interp)
      invariant NoBlanks(line[interp..cp])
      invariant SLASH !in line[name..cp] && (name == interp || line[name - 1] == SLASH)
    {
      if line[cp] == SLASH { name := cp + 1; }
      cp := cp + 1;
    }
    r := Found(line[interp..cp], line[name..cp], if cp < |line| then Some(line[cp + 1..]) else None);
    SplitsAt(line, interp, cp, r);
    BaseNameAt(line, interp, name, cp);
  }

  lemma SplitsAt(line: Str, interp: nat, cp: nat, r: Interp)
    requires interp <= cp <= |line| && OnlyBlanks(line[..interp]) && (cp < |line| ==> Blank(line[cp]))
    requires r.Found? && r.path == line[interp..cp] && r.arg == if cp < |line| then Some(line[cp + 1..]) else None
    ensures Splits(line, r)
  {
    if cp < |line| {
      assert line == line[..interp] + r.path + [line[cp]] + line[cp + 1..];
      assert OnlyBlanks([line[cp]]);
    } else {
      assert line == line[..interp] + r.path + [] + [];
      assert OnlyBlanks([]);
    }
  }

  lemma BaseNameAt(line: Str, interp: nat, name: nat, cp: nat)
    requires interp <= name <= cp <= |line| && SLASH !in line[name..cp] && (name == interp || line[name - 1] == SLASH)
    ensures BaseName(line[interp..cp], line[name..cp])
  {
    var path, base := line[interp..cp], line[name..cp];
    assert |path| - |base| == name - interp;
  }
}
