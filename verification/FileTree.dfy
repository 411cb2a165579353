/**
  The block map of a Minix file (linux-0.11/fs/inode.c, bitmap.c, truncate.c):
  nine zones in the inode, index blocks of 512 two-byte numbers, and a bitmap of
  used blocks, all on one device.
 */
module FileTree {

  const BLOCK_SIZE: nat := 1024
  const ENTRIES: nat := 512
  const BITS: nat := 8192         // bits in one block of the bitmap
  const MAX_BLOCKS: nat := 7 + 512 + 512 * 512

  type Byte = b: int | 0 <= b < 256

  type Block = s: seq<Byte> | |s| == BLOCK_SIZE witness seq(BLOCK_SIZE, _ => 0)

  function Zeros(): (b: Block)
    ensures forall k :: 0 <= k < BLOCK_SIZE ==> b[k] == 0
  {
    seq(BLOCK_SIZE, _ => 0)
  }

  datatype Inode = Inode(zone: seq<nat>, size: nat)

  /** One device: its blocks, the zone bitmap, and the inodes of its regular files and directories. */
  datatype Fs = Fs(blocks: seq<Block>, zmap: seq<bool>, inodes: seq<Inode>, first: nat, nzones: nat)

  // ---------- two-byte entries of an index block ----------

  function Get16(b: Block, k: nat): nat
    requires k < ENTRIES
  {
    b[2 * k] as int + 256 * (b[2 * k + 1] as int)
  }

  function Set16(b: Block, k: nat, n: nat): Block
    requires k < ENTRIES && n < 65536
  {
    b[2 * k := n % 256][2 * k + 1 := n / 256]
  }

  lemma Get16Set16(b: Block, k: nat, n: nat)
    requires k < ENTRIES && n < 65536
    ensures forall j: nat :: j < ENTRIES ==> Get16(Set16(b, k, n), j) == if j == k then n else Get16(b, j)
  {
  }

  // ---------- places where a block number can stand ----------

  datatype Loc = Zone(i: nat, z: nat) | Ind(i: nat, k: nat) | Mid(i: nat, k: nat) | Leaf(i: nat, a: nat, k: nat)

  function Stored(fs: Fs, n: nat): Block {
    if n < |fs.blocks| then fs.blocks[n] else Zeros()
  }

  function ZoneAt(fs: Fs, i: nat, z: nat): nat {
    if i < |fs.inodes| && z < |fs.inodes[i].zone| then fs.inodes[i].zone[z] else 0
  }

  function EntryAt(fs: Fs, n: nat, k: nat): nat {
    if n != 0 && k < ENTRIES then Get16(Stored(fs, n), k) else 0
  }

  // Where the number of the index block that contains this location stands.
  function Parent(l: Loc): Loc
    requires !l.Zone?
  {
    match l
    case Ind(i, _) => Zone(i, 7)
    case Mid(i, _) => Zone(i, 8)
    case Leaf(i, a, _) => Mid(i, a)
  }

  function Rank(l: Loc): nat {
    match l
    case Zone(_, _) => 0
    case Leaf(_, _, _) => 2
    case _ => 1
  }

  function KeyOf(l: Loc): nat {
    match l
    case Zone(_, z) => z
    case Ind(_, k) => k
    case Mid(_, k) => k
    case Leaf(_, _, k) => k
  }

  /** The block number that stands at a location, 0 if none. */
  function At(fs: Fs, l: Loc): nat
    decreases Rank(l)
  {
    if l.Zone? then ZoneAt(fs, l.i, l.z) else EntryAt(fs, At(fs, Parent(l)), KeyOf(l))
  }

  // The location of the number of the n-th data block of a file.
  function DataLoc(i: nat, n: nat): Loc {
    if n < 7 then Zone(i, n)
    else if n < 7 + ENTRIES then Ind(i, n - 7)
    else Leaf(i, (n - 7 - ENTRIES) / ENTRIES, (n - 7 - ENTRIES) % ENTRIES)
  }

  /** bmap: the block that holds the n-th kilobyte, 0 for a hole. */
  function Bmap(fs: Fs, i: nat, n: nat): nat {
    At(fs, DataLoc(i, n))
  }

  /** Where a file's blocks are: seven in the inode, the next 512 in the block that entry 7 names, and then 512 in each
      of the blocks listed in the one that entry 8 names, in order. */
  lemma BmapIs(fs: Fs, i: nat, n: nat, a: nat, k: nat)
    requires i < |fs.inodes| && |fs.inodes[i].zone| == 9 && k < 512
    ensures n < 7 ==> Bmap(fs, i, n) == fs.inodes[i].zone[n]
    ensures Bmap(fs, i, 7 + k) == EntryAt(fs, fs.inodes[i].zone[7], k)
    ensures Bmap(fs, i, 7 + 512 + 512 * a + k) == EntryAt(fs, EntryAt(fs, fs.inodes[i].zone[8], a), k)
  {
    var m := 7 + 512 + 512 * a + k;
    assert (m - 7 - ENTRIES) / ENTRIES == a && (m - 7 - ENTRIES) % ENTRIES == k;
    assert DataLoc(i, m) == Leaf(i, a, k);
    assert At(fs, Mid(i, a)) == EntryAt(fs, At(fs, Zone(i, 8)), a);
    assert At(fs, Ind(i, k)) == EntryAt(fs, At(fs, Zone(i, 7)), k);
  }

  /** An index block lists two-byte numbers, the low byte first. */
  lemma EntryAtIs(fs: Fs, n: nat, k: nat)
    requires 0 < n < |fs.blocks| && k < 512
    ensures EntryAt(fs, n, k) == fs.blocks[n][2 * k] as int + 256 * (fs.blocks[n][2 * k + 1] as int)
  {
  }

  /** The n-th kilobyte itself; holes read as zeros. */
  function Data(fs: Fs, i: nat, n: nat): Block {
    if Bmap(fs, i, n) == 0 then Zeros() else Stored(fs, Bmap(fs, i, n))
  }

  // ---------- the invariant ----------

  ghost predicate Sized(fs: Fs) {
    && 0 < fs.first <= fs.nzones <= |fs.blocks| && fs.nzones <= 65536
    && fs.nzones < |fs.zmap| + fs.first && |fs.zmap| <= 8 * BITS && |fs.zmap| % BITS == 0
    && forall i :: 0 <= i < |fs.inodes| ==> |fs.inodes[i].zone| == 9
  }

  predicate InZone(fs: Fs, n: nat) {
    fs.first <= n < fs.nzones
  }

  function Bit(fs: Fs, n: nat): bool {
    fs.first <= n < |fs.zmap| + fs.first - 1 && fs.zmap[n - fs.first + 1]
  }

  ghost predicate Distinct(fs: Fs) {
    forall l: Loc, k: Loc :: At(fs, l) != 0 && At(fs, k) == At(fs, l) ==> l == k
  }

  ghost predicate Used(fs: Fs, n: nat) {
    exists l: Loc :: At(fs, l) == n
  }

  /** All numbers in all file trees are pairwise different blocks of the data
      zone, and a block's bit is set exactly when some tree has it. */
  ghost predicate Inv(fs: Fs) {
    && Sized(fs) && Distinct(fs) && fs.zmap[0]
    && (forall l: Loc :: At(fs, l) != 0 ==> InZone(fs, At(fs, l)))
    && (forall n: nat :: InZone(fs, n) ==> (Bit(fs, n) <==> Used(fs, n)))
  }

  // ---------- writing a block number ----------

  predicate IsIndex(l: Loc) {
    match l
    case Zone(_, z) => z == 7 || z == 8
    case Mid(_, _) => true
    case _ => false
  }

  predicate Writable(fs: Fs, l: Loc) {
    if l.Zone? then l.i < |fs.inodes| && l.z < |fs.inodes[l.i].zone|
    else KeyOf(l) < ENTRIES && 0 < At(fs, Parent(l)) < |fs.blocks|
  }

  function SetAt(fs: Fs, l: Loc, n: nat): Fs
    requires Writable(fs, l) && n < 65536
  {
    if l.Zone? then fs.(inodes := fs.inodes[l.i := fs.inodes[l.i].(zone := fs.inodes[l.i].zone[l.z := n])])
    else
      var h := At(fs, Parent(l));
      fs.(blocks := fs.blocks[h := Set16(fs.blocks[h], KeyOf(l), n)])
  }

  /** Writing one number changes that number only: index blocks are not shared,
      and a new index block starts out empty. */
  lemma {:induction false} SetAtEffect(fs: Fs, l: Loc, n: nat, k: Loc)
    requires Distinct(fs) && Writable(fs, l) && n < 65536
    requires IsIndex(l) ==> At(fs, l) == 0 && Stored(fs, n) == Zeros() && (l.Zone? || n != At(fs, Parent(l)))
    ensures At(SetAt(fs, l, n), k) == if k == l then n else At(fs, k)
    decreases Rank(k)
  {
    var t := SetAt(fs, l, n);
    if !l.Zone? { Get16Set16(fs.blocks[At(fs, Parent(l))], KeyOf(l), n); }
    if !k.Zone? {
      SetAtEffect(fs, l, n, Parent(k));
      var h := At(fs, Parent(k));
      if Parent(k) == l {
        assert At(fs, k) == 0;
        assert Stored(t, n) == Zeros();
      } else if !l.Zone? && h == At(fs, Parent(l)) {
        assert Parent(k) == Parent(l);
      }
    }
  }

  /** A block that no index location names can be overwritten without moving any file's blocks. */
  lemma {:induction false} ContentEffect(fs: Fs, n: nat, b: Block, k: Loc)
    requires n < |fs.blocks| && forall l: Loc :: IsIndex(l) ==> At(fs, l) != n || n == 0
    ensures At(fs.(blocks := fs.blocks[n := b]), k) == At(fs, k)
    decreases Rank(k)
  {
    if !k.Zone? { ContentEffect(fs, n, b, Parent(k)); }
  }

  lemma {:induction false} BitmapEffect(fs: Fs, zmap: seq<bool>, k: Loc)
    ensures At(fs.(zmap := zmap), k) == At(fs, k)
    decreases Rank(k)
  {
    if !k.Zone? { BitmapEffect(fs, zmap, Parent(k)); }
  }

  // ---------- taking a block ----------

  /** new_block: the bit is set and the block zeroed. */
  function Take(fs: Fs, n: nat): Fs
    requires fs.first <= n < |fs.blocks| && n - fs.first + 1 < |fs.zmap|
  {
    fs.(zmap := fs.zmap[n - fs.first + 1 := true], blocks := fs.blocks[n := Zeros()])
  }

  lemma TakeEffect(fs: Fs, n: nat)
    requires Inv(fs) && InZone(fs, n) && !Bit(fs, n)
    ensures forall k: Loc :: At(fs, k) != n && At(Take(fs, n), k) == At(fs, k)
    ensures Distinct(Take(fs, n)) && Sized(Take(fs, n))
    ensures forall m: nat :: m != n ==> Stored(Take(fs, n), m) == Stored(fs, m) && Bit(Take(fs, n), m) == Bit(fs, m)
    ensures Stored(Take(fs, n), n) == Zeros() && Bit(Take(fs, n), n)
  {
    forall k: Loc ensures At(fs, k) != n && At(Take(fs, n), k) == At(fs, k) {
      assert !Used(fs, n);
      forall l: Loc ensures At(fs, l) != n {}
      ContentEffect(fs, n, Zeros(), k);
      BitmapEffect(fs.(blocks := fs.blocks[n := Zeros()]), fs.zmap[n - fs.first + 1 := true], k);
    }
  }

  /** A fresh zeroed block put at an empty location. */
  function Grow(fs: Fs, l: Loc, n: nat): Fs
    requires fs.first <= n < |fs.blocks| && n - fs.first + 1 < |fs.zmap| && n < 65536
  {
    if Writable(Take(fs, n), l) then SetAt(Take(fs, n), l, n) else Take(fs, n)
  }

  lemma GrowEffect(fs: Fs, l: Loc, n: nat, k: Loc)
    requires Inv(fs) && InZone(fs, n) && !Bit(fs, n) && Writable(fs, l) && At(fs, l) == 0
    ensures Writable(Take(fs, n), l) && At(Grow(fs, l, n), k) == if k == l then n else At(fs, k)
  {
    TakeEffect(fs, n);
    SetAtEffect(Take(fs, n), l, n, k);
  }

  lemma GrowKeeps(fs: Fs, l: Loc, n: nat)
    requires Inv(fs) && InZone(fs, n) && !Bit(fs, n) && Writable(fs, l) && At(fs, l) == 0
    ensures Inv(Grow(fs, l, n))
    ensures forall k: Loc :: At(Grow(fs, l, n), k) == if k == l then n else At(fs, k)
  {
    var t := Grow(fs, l, n);
    TakeEffect(fs, n);
    forall k: Loc ensures At(t, k) == if k == l then n else At(fs, k) {
      GrowEffect(fs, l, n, k);
    }
    GrowEffect(fs, l, n, l);
    assert t.zmap == Take(fs, n).zmap && Sized(t);
    hide At, Grow, Take;
    forall m: nat | InZone(fs, m) ensures Bit(t, m) == (m == n || Bit(fs, m)) {}
    UsedOneMore(fs, t, l, n);
  }

  lemma UsedOneMore(fs: Fs, t: Fs, l: Loc, n: nat)
    requires At(fs, l) == 0 && n != 0 && forall k: Loc :: At(t, k) == if k == l then n else At(fs, k)
    ensures forall m: nat :: m != 0 ==> (Used(t, m) <==> Used(fs, m) || m == n)
  {
    hide At;
    forall m: nat | m != 0 ensures Used(t, m) <==> Used(fs, m) || m == n {
      if Used(fs, m) { var k: Loc :| At(fs, k) == m; assert At(t, k) == m; }
      if Used(t, m) { var k: Loc :| At(t, k) == m; assert k == l || At(fs, k) == m; }
      assert At(t, l) == n;
    }
  }

  lemma DataLocNoIndex(i: nat, n: nat)
    ensures !IsIndex(DataLoc(i, n))
  {
  }

  /** Growing shows no reader anything new. */
  lemma GrowInvisible(fs: Fs, l: Loc, n: nat, j: nat, m: nat)
    requires Inv(fs) && InZone(fs, n) && !Bit(fs, n) && Writable(fs, l) && At(fs, l) == 0
    ensures Data(Grow(fs, l, n), j, m) == Data(fs, j, m)
  {
    GrowKeeps(fs, l, n);
    GrowEffect(fs, l, n, l);
    DataLocNoIndex(j, m);
    TakeEffect(fs, n);
    var t := Grow(fs, l, n);
    var d := DataLoc(j, m);
    if d != l && At(fs, d) != 0 && !l.Zone? {
      assert At(fs, d) != At(fs, Parent(l));
    }
  }

  // ---------- creating a path to a block ----------

  /** `n` is `m` with fresh blocks at some empty ones of the locations `locs`:
      nothing moved and no file reads differently. */
  ghost predicate Grown(m: Fs, n: Fs, locs: set<Loc>) {
    && n.first == m.first && n.nzones == m.nzones && |n.blocks| == |m.blocks| && |n.inodes| == |m.inodes|
    && (forall i :: 0 <= i < |m.inodes| ==> n.inodes[i].size == m.inodes[i].size)
    && (forall l: Loc :: l !in locs || At(m, l) != 0 ==> At(n, l) == At(m, l))
    && (forall j: nat, k: nat :: Data(n, j, k) == Data(m, j, k))
  }

  lemma GrownOne(fs: Fs, l: Loc, n: nat)
    requires Inv(fs) && InZone(fs, n) && !Bit(fs, n) && Writable(fs, l) && At(fs, l) == 0
    ensures Grown(fs, Grow(fs, l, n), {l}) && At(Grow(fs, l, n), l) == n && Inv(Grow(fs, l, n))
  {
    GrowKeeps(fs, l, n);
    forall j: nat, k: nat ensures Data(Grow(fs, l, n), j, k) == Data(fs, j, k) {
      GrowInvisible(fs, l, n, j, k);
    }
  }

  lemma GrownTrans(a: Fs, b: Fs, c: Fs, s: set<Loc>, t: set<Loc>)
    requires Grown(a, b, s) && Grown(b, c, t)
    ensures Grown(a, c, s + t)
  {
    forall l: Loc | l !in s + t || At(a, l) != 0 ensures At(c, l) == At(a, l) {
      assert At(b, l) == At(a, l);
    }
    forall j: nat, k: nat ensures Data(c, j, k) == Data(a, j, k) {
      assert Data(b, j, k) == Data(a, j, k);
    }
  }

  // A full bitmap stays full in a larger tree.
  ghost predicate Full(fs: Fs) {
    forall m: nat :: InZone(fs, m) ==> Bit(fs, m)
  }

  lemma DataLocUnique(i: nat, n: nat, j: nat, m: nat)
    requires DataLoc(i, n) == DataLoc(j, m)
    ensures i == j && n == m
  {
  }

  // ---------- freeing a whole tree ----------

  /** The order in which truncate visits a file's locations. */
  function Order(l: Loc): nat {
    match l
    case Zone(_, z) => if z < 7 then z else if z == 7 then 519 else FREED_ALL - 1
    case Ind(_, k) => 7 + k
    case Leaf(_, a, k) => 520 + 513 * a + k
    case Mid(_, a) => 520 + 513 * a + 512
  }

  const FREED_ALL: nat := 520 + 513 * 512 + 1

  predicate InRange(l: Loc) {
    match l
    case Zone(_, z) => z < 9
    case Ind(_, k) => k < ENTRIES
    case Mid(_, a) => a < ENTRIES
    case Leaf(_, a, k) => a < ENTRIES && k < ENTRIES
  }

  lemma OrderUnique(l: Loc, k: Loc)
    requires InRange(l) && InRange(k) && l.i == k.i && Order(l) == Order(k)
    ensures l == k
  {
  }

  lemma {:induction false} OutOfRange(fs: Fs, l: Loc)
    requires Sized(fs) && At(fs, l) != 0
    ensures InRange(l)
    decreases Rank(l)
  {
    if !l.Zone? { OutOfRange(fs, Parent(l)); }
  }

  ghost predicate FreedBefore(fs: Fs, i: nat, p: nat, m: nat) {
    exists l: Loc :: l.i == i && InRange(l) && Order(l) < p && At(fs, l) == m && m != 0
  }

  /** The bitmap `z` is that of `fs` without the blocks at the first `p` locations of file `i`. */
  ghost predicate FreedUpTo(fs: Fs, z: seq<bool>, i: nat, p: nat) {
    && |z| == |fs.zmap|
    && forall k :: 0 <= k < |z| ==> z[k] == (fs.zmap[k] && (k + fs.first - 1 >= 0 ==> !FreedBefore(fs, i, p, k + fs.first - 1)))
  }

  lemma FreedNone(fs: Fs, i: nat)
    ensures FreedUpTo(fs, fs.zmap, i, 0)
  {
  }

  lemma FreedNext(fs: Fs, l: Loc, m: nat)
    requires InRange(l)
    ensures FreedBefore(fs, l.i, Order(l) + 1, m) <==> FreedBefore(fs, l.i, Order(l), m) || (m == At(fs, l) && m != 0)
  {
    if FreedBefore(fs, l.i, Order(l) + 1, m) {
      var k: Loc :| k.i == l.i && InRange(k) && Order(k) < Order(l) + 1 && At(fs, k) == m && m != 0;
      if Order(k) == Order(l) { OrderUnique(k, l); }
    }
  }

  lemma NotFreedYet(fs: Fs, l: Loc)
    requires Inv(fs) && InRange(l) && At(fs, l) != 0
    ensures InZone(fs, At(fs, l)) && Bit(fs, At(fs, l)) && !FreedBefore(fs, l.i, Order(l), At(fs, l))
  {
    assert Used(fs, At(fs, l));
    forall k: Loc | k.i == l.i && InRange(k) && Order(k) < Order(l) ensures At(fs, k) != At(fs, l) {}
  }

  /** Visiting a location: if it holds a block, its bit is still set, and clearing it is the next step. */
  lemma FreeStep(fs: Fs, z: seq<bool>, l: Loc)
    requires Inv(fs) && FreedUpTo(fs, z, l.i, Order(l)) && InRange(l)
    ensures At(fs, l) == 0 ==> FreedUpTo(fs, z, l.i, Order(l) + 1)
    ensures At(fs, l) != 0 ==> InZone(fs, At(fs, l)) && z[At(fs, l) - fs.first + 1]
                               && FreedUpTo(fs, z[At(fs, l) - fs.first + 1 := false], l.i, Order(l) + 1)
  {
    hide FreedBefore, Order, At, Distinct, Used, Bit;
    var n := At(fs, l);
    forall m: nat ensures FreedBefore(fs, l.i, Order(l) + 1, m) <==> FreedBefore(fs, l.i, Order(l), m) || (m == n && m != 0) {
      FreedNext(fs, l, m);
    }
    if n != 0 {
      NotFreedYet(fs, l);
      ClearNext(fs, z, l, n);
    }
  }

  lemma ClearNext(fs: Fs, z: seq<bool>, l: Loc, n: nat)
    requires Sized(fs) && FreedUpTo(fs, z, l.i, Order(l)) && InZone(fs, n) && Bit(fs, n) && !FreedBefore(fs, l.i, Order(l), n)
    requires forall m: nat :: FreedBefore(fs, l.i, Order(l) + 1, m) <==> FreedBefore(fs, l.i, Order(l), m) || m == n
    ensures z[n - fs.first + 1] && FreedUpTo(fs, z[n - fs.first + 1 := false], l.i, Order(l) + 1)
  {
    hide FreedBefore, Order;
    assert z[n - fs.first + 1] == (fs.zmap[n - fs.first + 1] && !FreedBefore(fs, l.i, Order(l), n));
    var u := z[n - fs.first + 1 := false];
    forall k | 0 <= k < |u|
      ensures u[k] == (fs.zmap[k] && (k + fs.first - 1 >= 0 ==> !FreedBefore(fs, l.i, Order(l) + 1, k + fs.first - 1)))
    {
      if k + fs.first - 1 >= 0 {
        assert FreedBefore(fs, l.i, Order(l) + 1, k + fs.first - 1) <==> FreedBefore(fs, l.i, Order(l), k + fs.first - 1) || k + fs.first - 1 == n;
      }
    }
  }

  /** Locations that hold nothing need no visit. */
  lemma FreeSkip(fs: Fs, z: seq<bool>, i: nat, p: nat, q: nat)
    requires FreedUpTo(fs, z, i, p) && p <= q
    requires forall l: Loc :: l.i == i && InRange(l) && p <= Order(l) < q ==> At(fs, l) == 0
    ensures FreedUpTo(fs, z, i, q)
  {
    forall m: nat ensures FreedBefore(fs, i, q, m) <==> FreedBefore(fs, i, p, m) {
      if FreedBefore(fs, i, q, m) {
        var k: Loc :| k.i == i && InRange(k) && Order(k) < q && At(fs, k) == m && m != 0;
        assert Order(k) < p;
      }
    }
  }

  /** The emptied file: its zones are zero, its blocks free, all else as before. */
  ghost predicate Truncated(fs: Fs, t: Fs, i: nat) {
    && t.blocks == fs.blocks && t.first == fs.first && t.nzones == fs.nzones && |t.inodes| == |fs.inodes| && i < |fs.inodes|
    && t.inodes == fs.inodes[i := Inode(seq(9, _ => 0), 0)]
    && FreedUpTo(fs, t.zmap, i, FREED_ALL)
  }

  lemma {:induction false} TruncatedAt(fs: Fs, t: Fs, i: nat, l: Loc)
    requires Truncated(fs, t, i)
    ensures At(t, l) == if l.i == i then 0 else At(fs, l)
    decreases Rank(l)
  {
    if !l.Zone? { TruncatedAt(fs, t, i, Parent(l)); }
  }

  lemma TruncatedBit(fs: Fs, t: Fs, i: nat, m: nat)
    requires Inv(fs) && Truncated(fs, t, i) && InZone(fs, m)
    requires forall l: Loc :: At(t, l) == if l.i == i then 0 else At(fs, l)
    ensures Bit(t, m) <==> Bit(fs, m) && !exists l: Loc :: l.i == i && At(fs, l) == m
    ensures Bit(t, m) <==> Used(t, m)
  {
    hide At;
    forall l: Loc | l.i == i && At(fs, l) == m ensures InRange(l) && Order(l) < FREED_ALL { OutOfRange(fs, l); }
    assert FreedBefore(fs, i, FREED_ALL, m) <==> exists l: Loc :: l.i == i && At(fs, l) == m;
    assert t.zmap[m - fs.first + 1] == (fs.zmap[m - fs.first + 1] && !FreedBefore(fs, i, FREED_ALL, m));
    if Used(fs, m) {
      var k: Loc :| At(fs, k) == m;
      if k.i != i {
        assert At(t, k) == m;
        forall l: Loc | l.i == i ensures At(fs, l) != m {}
      }
    }
  }

  /** Truncation frees exactly the file's own blocks and touches no other file. */
  lemma TruncatedOk(fs: Fs, t: Fs, i: nat)
    requires Inv(fs) && Truncated(fs, t, i)
    ensures Inv(t)
    ensures forall l: Loc :: At(t, l) == if l.i == i then 0 else At(fs, l)
    ensures forall m: nat :: InZone(fs, m) ==> (Bit(t, m) <==> Bit(fs, m) && !exists l: Loc :: l.i == i && At(fs, l) == m)
    ensures forall j: nat, n: nat :: Data(t, j, n) == if j == i then Zeros() else Data(fs, j, n)
  {
    forall l: Loc ensures At(t, l) == if l.i == i then 0 else At(fs, l) { TruncatedAt(fs, t, i, l); }
    forall m: nat | InZone(fs, m)
      ensures Bit(t, m) <==> Bit(fs, m) && !exists l: Loc :: l.i == i && At(fs, l) == m
      ensures Bit(t, m) <==> Used(t, m)
    {
      TruncatedBit(fs, t, i, m);
    }
    assert t.zmap[0];
  }
}
