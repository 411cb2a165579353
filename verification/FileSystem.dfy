/**
  Allocation, block map, truncation and byte-level access for the files of one
  device (linux-0.11/fs/bitmap.c, inode.c, truncate.c, file_dev.c), over a block
  store that never fails.
 */
module FileSystem {
  import opened FileTree

  class FileSystem {
    const blocks: array<Block>
    const zmap: array<bool>
    const inodes: array<Inode>
    const first: nat
    const nzones: nat

    ghost function S(): Fs
      reads this, blocks, zmap, inodes
    {
      Fs(blocks[..], zmap[..], inodes[..], first, nzones)
    }

    ghost predicate Valid()
      reads this, blocks, zmap, inodes
    {
      Inv(S())
    }

    /** A new file system: nothing is in use but bit 0 of the bitmap, which stands for no block. */
    constructor (first: nat, nzones: nat, zmapBlocks: nat, files: nat)
      requires 0 < first <= nzones <= 65536 && 0 < zmapBlocks <= 8 && nzones < BITS * zmapBlocks + first
      ensures Valid() && inodes.Length == files && fresh(blocks) && fresh(zmap) && fresh(inodes)
      ensures forall m: nat :: InZone(S(), m) ==> !Bit(S(), m)
      ensures forall i: nat, n: nat :: Bmap(S(), i, n) == 0
    {
      blocks := new Block[nzones](i => Zeros());
      zmap := new bool[BITS * zmapBlocks](i => i == 0);
      inodes := new Inode[files](i => Inode(seq(9, _ => 0), 0));
      this.first, this.nzones := first, nzones;
      new;
      EmptyOk(S());
    }

    /** The first clear bit of one bitmap block, BITS if there is none. */
    method FindFirstZero(i: nat) returns (j: nat)
      requires BITS * (i + 1) <= zmap.Length
      ensures j <= BITS && (forall k :: BITS * i <= k < BITS * i + j ==> zmap[k])
      ensures j < BITS ==> !zmap[BITS * i + j]
    {
      j := 0;
      while j < BITS && zmap[BITS * i + j]
        invariant j <= BITS && forall k :: BITS * i <= k < BITS * i + j ==> zmap[k]
      {
        j := j + 1;
      }
    }

    /** The first clear bit, set; its block, zeroed; 0 if no data block is free.
        A clear bit beyond the last zone is used up on the way. */
    method NewBlock() returns (n: nat)
      requires Valid()
      modifies blocks, zmap
      ensures n != 0 ==> InZone(old(S()), n) && !Bit(old(S()), n) && S() == Take(old(S()), n)
      ensures n != 0 ==> forall m: nat :: m < n && InZone(old(S()), m) ==> Bit(old(S()), m)
      ensures n == 0 ==> Valid() && blocks[..] == old(blocks[..]) && forall m: nat :: InZone(S(), m) ==> Bit(S(), m) && Bit(old(S()), m)
    {
      ghost var fs := S();
      var i := 0;
      var j := BITS;
      while i < 8
        invariant 0 <= i <= 8 && j == BITS && S() == fs
        invariant forall k :: 0 <= k < BITS * i && k < zmap.Length ==> zmap[k]
      {
        if BITS * i < zmap.Length {
          j := FindFirstZero(i);
          if j < BITS { break; }
        }
        i := i + 1;
      }
      if i >= 8 || j >= BITS {
        assert i == 8 && forall k :: 0 <= k < zmap.Length ==> zmap[k];
        return 0;
      }
      assert forall k :: 0 <= k < BITS * i + j ==> fs.zmap[k];
      zmap[BITS * i + j] := true;
      assert S() == fs.(zmap := fs.zmap[BITS * i + j := true]);
      j := j + BITS * i + first - 1;
      if j >= nzones {
        BeyondZone(fs, j - first + 1);
        return 0;
      }
      blocks[j] := Zeros();
      n := j;
    }

    /** A zone of the inode, given a block if there is none and one is wanted. */
    method ZoneSlot(i: nat, z: nat, create: bool) returns (n: nat)
      requires Valid() && i < inodes.Length && z < 9
      modifies blocks, zmap, inodes
      ensures Valid() && n == At(S(), Zone(i, z)) && Grown(old(S()), S(), {Zone(i, z)})
      ensures !create ==> S() == old(S())
      ensures n == 0 && create ==> Full(S())
    {
      n := inodes[i].zone[z];
      ghost var fs := S();
      GrownNone(fs);
      if create && n == 0 {
        n := NewBlock();
        if n == 0 {
          SameTree(fs, S());
        } else {
          GrownOne(fs, Zone(i, z), n);
          GrowEffect(fs, Zone(i, z), n, Zone(i, z));
          inodes[i] := inodes[i].(zone := inodes[i].zone[z := n]);
          assert S() == Grow(fs, Zone(i, z), n);
        }
      }
    }

    /** An entry of the index block `h`, likewise. */
    method EntrySlot(h: nat, k: nat, create: bool, ghost l: Loc) returns (n: nat)
      requires Valid() && k < ENTRIES && h != 0 && !l.Zone? && At(S(), Parent(l)) == h && KeyOf(l) == k
      modifies blocks, zmap
      ensures Valid() && n == At(S(), l) && Grown(old(S()), S(), {l})
      ensures !create ==> S() == old(S())
      ensures n == 0 && create ==> Full(S())
    {
      hide Distinct, Used, Grown;
      ghost var fs := S();
      GrownNone(fs);
      HolderInZone(fs, l);
      n := Get16(blocks[h], k);
      if create && n == 0 {
        n := NewBlock();
        if n == 0 {
          SameTree(fs, S());
        } else {
          GrowEntry(fs, l, n);
          GrownOne(fs, l, n);
          blocks[h] := Set16(blocks[h], k, n);
          assert S() == Grow(fs, l, n);
        }
      }
    }

    /** The single-indirect part of _bmap. */
    method Indirect(i: nat, block: nat, create: bool) returns (n: nat)
      requires Valid() && i < inodes.Length && 7 <= block < 7 + ENTRIES
      modifies blocks, zmap, inodes
      ensures Valid() && n == Bmap(S(), i, block)
      ensures !create ==> S() == old(S())
      ensures n == 0 && create ==> Full(S())
      ensures OnlyBlock(old(S()), S(), i, block)
    {
      hide Inv, Data, Grown;
      ghost var fs := S();
      ghost var d := DataLoc(i, block);
      var h := ZoneSlot(i, 7, create);
      ghost var f1 := S();
      NoOtherBlock(fs, f1, i, block, {Zone(i, 7)});
      if h == 0 {
        NoPath(f1, d);
        return 0;
      }
      n := EntrySlot(h, block - 7, create, d);
      GrownTrans(fs, f1, S(), {Zone(i, 7)}, {d});
      NoOtherBlock(fs, S(), i, block, {Zone(i, 7)} + {d});
    }

    /** The double-indirect part of _bmap. */
    method DoubleIndirect(i: nat, block: nat, create: bool) returns (n: nat)
      requires Valid() && i < inodes.Length && 7 + ENTRIES <= block < MAX_BLOCKS
      modifies blocks, zmap, inodes
      ensures Valid() && n == Bmap(S(), i, block)
      ensures !create ==> S() == old(S())
      ensures n == 0 && create ==> Full(S())
      ensures OnlyBlock(old(S()), S(), i, block)
    {
      hide Inv, Data, Grown;
      ghost var fs := S();
      ghost var d := DataLoc(i, block);
      var b := block - 7 - ENTRIES;
      ghost var mid := Mid(i, b / 512);
      var h := ZoneSlot(i, 8, create);
      ghost var f1 := S();
      NoOtherBlock(fs, f1, i, block, {Zone(i, 8)});
      if h == 0 {
        NoPath(f1, mid);
        NoPath(f1, d);
        return 0;
      }
      var m := EntrySlot(h, b / 512, create, mid);
      ghost var f2 := S();
      GrownTrans(fs, f1, f2, {Zone(i, 8)}, {mid});
      NoOtherBlock(fs, f2, i, block, {Zone(i, 8)} + {mid});
      if m == 0 {
        NoPath(f2, d);
        return 0;
      }
      n := EntrySlot(m, b % 512, create, d);
      GrownTrans(fs, f2, S(), {Zone(i, 8)} + {mid}, {d});
      NoOtherBlock(fs, S(), i, block, {Zone(i, 8)} + {mid} + {d});
    }

    /** _bmap: the block of a file's n-th kilobyte, made if wanted; 0 if there is none. */
    method BmapOrCreate(i: nat, block: nat, create: bool) returns (n: nat)
      requires Valid() && i < inodes.Length && block < MAX_BLOCKS
      modifies blocks, zmap, inodes
      ensures Valid() && n == Bmap(S(), i, block)
      ensures !create ==> S() == old(S())
      ensures n == 0 && create ==> Full(S())
      ensures OnlyBlock(old(S()), S(), i, block)
    {
      if block < 7 {
        hide Inv, Data, Grown;
        ghost var fs := S();
        n := ZoneSlot(i, block, create);
        NoOtherBlock(fs, S(), i, block, {Zone(i, block)});
      } else if block - 7 < 512 {
        n := Indirect(i, block, create);
      } else {
        n := DoubleIndirect(i, block, create);
      }
    }

    /** Clears a block's bit. False where the source panics: a block outside the data zone or already free. */
    method FreeBlock(n: nat) returns (ok: bool)
      requires 0 < first && nzones < zmap.Length + first
      modifies zmap
      ensures ok <==> first <= n < nzones && old(zmap[n - first + 1])
      ensures zmap[..] == if ok then old(zmap[..])[n - first + 1 := false] else old(zmap[..])
    {
      if n < first || n >= nzones { return false; }
      ok := zmap[n - first + 1];
      zmap[n - first + 1] := false;
    }

    /** What mkdir does with the zones of its new inode when the entry finds no room: the block it took is given back
        at once, and again by the truncate of the last iput. False is the panic of the second time; it does not come
        only if there was no block to take. */
    method UndoDirectory(i: nat) returns (ok: bool)
      requires Valid() && i < inodes.Length && inodes[i].zone == seq(9, _ => 0)
      modifies blocks, zmap, inodes
      ensures ok <==> forall m: nat :: InZone(old(S()), m) ==> Bit(old(S()), m)
    {
      var n := NewBlock();
      inodes[i] := inodes[i].(zone := inodes[i].zone[0 := n]);
      if n == 0 { return true; }
      ok := FreeBlock(inodes[i].zone[0]);
      assert ok;
      if inodes[i].zone[0] != 0 { ok := FreeBlock(inodes[i].zone[0]); }
    }

    /** Frees what stands at one location, as part of freeing a file whose tree was `fs`. */
    method FreeAt(n: nat, ghost fs: Fs, ghost l: Loc) returns (ok: bool)
      requires Inv(fs) && InRange(l) && n == At(fs, l) && first == fs.first && nzones == fs.nzones
      requires FreedUpTo(fs, zmap[..], l.i, Order(l))
      modifies zmap
      ensures ok && FreedUpTo(fs, zmap[..], l.i, Order(l) + 1)
    {
      hide Distinct, Used, At, Order;
      FreeStep(fs, zmap[..], l);
      ok := true;
      if n != 0 { ok := FreeBlock(n); }
    }

    /** free_ind: the blocks of an index block, then the index block itself. */
    method FreeInd(block: nat, ghost fs: Fs, ghost at: Loc, ghost start: nat) returns (ok: bool)
      requires Inv(fs) && blocks[..] == fs.blocks && first == fs.first && nzones == fs.nzones
      requires block == At(fs, at) && InRange(at)
      requires (at.Zone? && at.z == 7 && start == 7) || (at.Mid? && start == 520 + 513 * at.k)
      requires FreedUpTo(fs, zmap[..], at.i, start)
      modifies zmap
      ensures ok && FreedUpTo(fs, zmap[..], at.i, start + 513)
    {
      hide Distinct, Used, At, FreedUpTo, Bit;
      if block == 0 {
        NothingBelow(fs, at, start);
        FreeSkip(fs, zmap[..], at.i, start, start + 513);
        return true;
      }
      BelowIsStored(fs, at);
      for k := 0 to 512
        invariant FreedUpTo(fs, zmap[..], at.i, start + k)
      {
        var p := Get16(blocks[block], k);
        ok := FreeAt(p, fs, Below(at, k));
      }
      ok := FreeAt(block, fs, at);
    }

    /** free_dind, likewise one level up. */
    method FreeDind(block: nat, ghost fs: Fs, i: nat) returns (ok: bool)
      requires Inv(fs) && blocks[..] == fs.blocks && first == fs.first && nzones == fs.nzones
      requires block == At(fs, Zone(i, 8)) && FreedUpTo(fs, zmap[..], i, 520)
      modifies zmap
      ensures ok && FreedUpTo(fs, zmap[..], i, FREED_ALL)
    {
      if block == 0 {
        NothingBelowDouble(fs, i);
        FreeSkip(fs, zmap[..], i, 520, FREED_ALL);
        return true;
      }
      assert InZone(fs, At(fs, Zone(i, 8)));
      for a := 0 to 512
        invariant FreedUpTo(fs, zmap[..], i, 520 + 513 * a)
      {
        var p := Get16(blocks[block], a);
        ok := FreeInd(p, fs, Mid(i, a), 520 + 513 * a);
      }
      ok := FreeAt(block, fs, Zone(i, 8));
    }

    /** truncate: never panics, frees exactly the file's blocks, and leaves an empty file. */
    method Truncate(i: nat) returns (ok: bool)
      requires Valid() && i < inodes.Length
      modifies zmap, inodes
      ensures ok && Valid() && inodes[..] == old(inodes[..])[i := Inode(seq(9, _ => 0), 0)]
      ensures forall m: nat :: InZone(S(), m) ==>
                (Bit(S(), m) <==> Bit(old(S()), m) && !exists l: Loc :: l.i == i && At(old(S()), l) == m)
      ensures forall l: Loc :: At(S(), l) == if l.i == i then 0 else At(old(S()), l)
      ensures forall j: nat, n: nat :: Data(S(), j, n) == if j == i then Zeros() else Data(old(S()), j, n)
    {
      hide Distinct, Used, Bit, FreedUpTo, At;
      ghost var fs := S();
      FreedNone(fs, i);
      for z := 0 to 7
        invariant FreedUpTo(fs, zmap[..], i, z)
        invariant |inodes[i].zone| == 9 && (forall k :: 0 <= k < 9 ==> inodes[i].zone[k] == if k < z then 0 else fs.inodes[i].zone[k])
        invariant inodes[..] == fs.inodes[i := inodes[i]]
      {
        ZoneIsAt(fs, i, z);
        ok := FreeAt(inodes[i].zone[z], fs, Zone(i, z));
        inodes[i] := inodes[i].(zone := inodes[i].zone[z := 0]);
      }
      ZoneIsAt(fs, i, 7);
      ZoneIsAt(fs, i, 8);
      ok := FreeInd(inodes[i].zone[7], fs, Zone(i, 7), 7);
      ok := FreeDind(inodes[i].zone[8], fs, i);
      inodes[i] := inodes[i].(zone := inodes[i].zone[7 := 0][8 := 0], size := 0);
      assert inodes[i].zone == seq(9, _ => 0);
      TruncatedOk(fs, S(), i);
    }
  }

  lemma EmptyOk(fs: Fs)
    requires Sized(fs) && fs.zmap[0] && forall k :: 0 < k < |fs.zmap| ==> !fs.zmap[k]
    requires forall i :: 0 <= i < |fs.inodes| ==> fs.inodes[i].zone == seq(9, _ => 0)
    ensures Inv(fs) && (forall l: Loc :: At(fs, l) == 0) && forall m: nat :: InZone(fs, m) ==> !Bit(fs, m)
  {
    forall l: Loc ensures At(fs, l) == 0 { NothingAt(fs, l); }
  }

  lemma {:induction false} NothingAt(fs: Fs, l: Loc)
    requires forall i :: 0 <= i < |fs.inodes| ==> fs.inodes[i].zone == seq(9, _ => 0)
    ensures At(fs, l) == 0
    decreases Rank(l)
  {
    if !l.Zone? { NothingAt(fs, Parent(l)); }
  }

  lemma ZoneIsAt(fs: Fs, i: nat, z: nat)
    requires Sized(fs) && i < |fs.inodes| && z < 9
    ensures At(fs, Zone(i, z)) == fs.inodes[i].zone[z]
  {
  }

  // The k-th location below an index block that lists data blocks.
  function Below(at: Loc, k: nat): Loc {
    if at.Mid? then Leaf(at.i, at.k, k) else Ind(at.i, k)
  }

  lemma BelowIsStored(fs: Fs, at: Loc)
    requires Inv(fs) && At(fs, at) != 0 && ((at.Zone? && at.z == 7) || at.Mid?)
    ensures InZone(fs, At(fs, at))
    ensures forall k: nat :: k < ENTRIES ==> At(fs, Below(at, k)) == Get16(fs.blocks[At(fs, at)], k)
  {
  }

  lemma NothingBelow(fs: Fs, at: Loc, start: nat)
    requires At(fs, at) == 0 && InRange(at)
    requires (at.Zone? && at.z == 7 && start == 7) || (at.Mid? && start == 520 + 513 * at.k)
    ensures forall l: Loc :: l.i == at.i && InRange(l) && start <= Order(l) < start + 513 ==> At(fs, l) == 0
  {
    forall l: Loc | l.i == at.i && InRange(l) && start <= Order(l) < start + 513 ensures At(fs, l) == 0 {
      assert l == at || (!l.Zone? && Parent(l) == at);
    }
  }

  lemma NothingBelowDouble(fs: Fs, i: nat)
    requires At(fs, Zone(i, 8)) == 0
    ensures forall l: Loc :: l.i == i && InRange(l) && 520 <= Order(l) ==> At(fs, l) == 0
  {
    forall l: Loc | l.i == i && InRange(l) && 520 <= Order(l) ensures At(fs, l) == 0 {
      if l.Leaf? { assert At(fs, Mid(i, l.a)) == 0; }
    }
  }

  /** Only one data block can have appeared, and no file reads differently for it. */
  ghost predicate OnlyBlock(m: Fs, n: Fs, i: nat, block: nat) {
    && n.first == m.first && n.nzones == m.nzones && |n.blocks| == |m.blocks| && |n.inodes| == |m.inodes|
    && (forall j :: 0 <= j < |m.inodes| ==> n.inodes[j].size == m.inodes[j].size)
    && (forall j: nat, k: nat :: (j != i || k != block || Bmap(m, j, k) != 0) ==> Bmap(n, j, k) == Bmap(m, j, k))
    && (forall j: nat, k: nat :: Data(n, j, k) == Data(m, j, k))
  }

  lemma HolderInZone(fs: Fs, l: Loc)
    requires Inv(fs) && !l.Zone? && At(fs, Parent(l)) != 0 && KeyOf(l) < ENTRIES
    ensures Writable(fs, l) && InZone(fs, At(fs, Parent(l))) && At(fs, l) == Get16(fs.blocks[At(fs, Parent(l))], KeyOf(l))
  {
  }

  /** What growing writes into an index block. */
  lemma GrowEntry(fs: Fs, l: Loc, n: nat)
    requires Inv(fs) && !l.Zone? && Writable(fs, l) && At(fs, l) == 0 && InZone(fs, n) && !Bit(fs, n)
    ensures var h, t := At(fs, Parent(l)), Take(fs, n);
      Grow(fs, l, n) == t.(blocks := t.blocks[h := Set16(t.blocks[h], KeyOf(l), n)])
  {
    TakeEffect(fs, n);
  }

  lemma GrownNone(fs: Fs)
    ensures forall locs :: Grown(fs, fs, locs)
  {
  }

  // Only bits outside the data zone differ.
  lemma SameTree(m: Fs, n: Fs)
    requires n.blocks == m.blocks && n.inodes == m.inodes && n.first == m.first && n.nzones == m.nzones
    ensures forall locs :: Grown(m, n, locs)
    ensures forall k: Loc :: At(n, k) == At(m, k)
  {
    forall k: Loc ensures At(n, k) == At(m, k) {
      BitmapEffect(m, n.zmap, k);
      assert n == m.(zmap := n.zmap);
    }
    forall j: nat, k: nat ensures Data(n, j, k) == Data(m, j, k) {}
  }

  lemma NoPath(fs: Fs, l: Loc)
    requires !l.Zone? && At(fs, Parent(l)) == 0
    ensures At(fs, l) == 0
  {
  }

  /** Growing along the path to one data block moves no other. */
  lemma NoOtherBlock(m: Fs, n: Fs, i: nat, block: nat, locs: set<Loc>)
    requires Grown(m, n, locs) && forall l :: l in locs ==> IsIndex(l) || l == DataLoc(i, block)
    ensures OnlyBlock(m, n, i, block)
  {
    forall j: nat, k: nat | j != i || k != block || Bmap(m, j, k) != 0 ensures Bmap(n, j, k) == Bmap(m, j, k) {
      DataLocNoIndex(j, k);
      if DataLoc(j, k) == DataLoc(i, block) { DataLocUnique(j, k, i, block); }
    }
  }

  /** A bit beyond the data zone belongs to no block. */
  lemma BeyondZone(fs: Fs, j: nat)
    requires Inv(fs) && 0 < j < |fs.zmap| && j + fs.first - 1 >= fs.nzones
    ensures Inv(fs.(zmap := fs.zmap[j := true]))
    ensures forall m: nat :: InZone(fs, m) ==> Bit(fs.(zmap := fs.zmap[j := true]), m) == Bit(fs, m)
  {
    var t := fs.(zmap := fs.zmap[j := true]);
    forall k: Loc ensures At(t, k) == At(fs, k) { BitmapEffect(fs, t.zmap, k); }
    forall m: nat | InZone(fs, m) ensures Bit(t, m) <==> Used(t, m) {
      if Used(fs, m) { var k: Loc :| At(fs, k) == m; assert At(t, k) == m; }
      if Used(t, m) { var k: Loc :| At(t, k) == m; assert At(fs, k) == m; }
    }
  }
}
