/**
  Files as byte sequences (linux-0.11/fs/file_dev.c and the regular-file part of
  sys_read in read_write.c), over the block tree of FileSystem.
 */
module FileBytes {
  import opened FileTree
  import opened FileSystem

  // ---------- the specification: a file is a sequence of bytes ----------

  /** `f` after writing `data` at `pos`; a gap before `pos` is filled with zeros. */
  function WriteTo(f: seq<Byte>, pos: nat, data: seq<Byte>): seq<Byte> {
    if data == [] then f
    else
      var n := if |f| > pos + |data| then |f| else pos + |data|;
      seq(n, p requires 0 <= p < n => if pos <= p < pos + |data| then data[p - pos] else if p < |f| then f[p] else 0)
  }

  function ReadFrom(f: seq<Byte>, pos: nat, count: int): seq<Byte> {
    if pos >= |f| || count <= 0 then []
    else f[pos..if pos + count > |f| then |f| else pos + count]
  }

  /** Writing never shortens a file. */
  lemma WriteToLength(f: seq<Byte>, pos: nat, data: seq<Byte>)
    ensures |WriteTo(f, pos, data)| == if data == [] || |f| > pos + |data| then |f| else pos + |data|
  {
  }

  lemma WriteToAt(f: seq<Byte>, pos: nat, data: seq<Byte>, p: nat)
    requires p < |WriteTo(f, pos, data)|
    ensures WriteTo(f, pos, data)[p] == if pos <= p < pos + |data| then data[p - pos] else if p < |f| then f[p] else 0
  {
  }

  /** A read gives what there is of the bytes asked for. */
  lemma ReadFromAt(f: seq<Byte>, pos: nat, count: nat)
    ensures |ReadFrom(f, pos, count)| == if pos >= |f| then 0 else if count < |f| - pos then count else |f| - pos
    ensures forall k :: 0 <= k < |ReadFrom(f, pos, count)| ==> ReadFrom(f, pos, count)[k] == f[pos + k]
  {
  }

  // What reads of these sizes, one after the other, return together.
  function Pieces(f: seq<Byte>, pos: nat, counts: seq<nat>): seq<Byte>
    decreases |counts|
  {
    if counts == [] then []
    else
      var got := ReadFrom(f, pos, counts[0]);
      got + Pieces(f, pos + |got|, counts[1..])
  }

  /** Reads of any sizes join up to a stretch of the file. */
  lemma {:induction false} PiecesJoin(f: seq<Byte>, pos: nat, counts: seq<nat>)
    requires pos <= |f|
    ensures pos + |Pieces(f, pos, counts)| <= |f| && Pieces(f, pos, counts) == f[pos..pos + |Pieces(f, pos, counts)|]
    decreases |counts|
  {
    hide ReadFrom;
    if counts != [] {
      var got := ReadFrom(f, pos, counts[0]);
      ReadFromAt(f, pos, counts[0]);
      var on := pos + |got|;
      assert got == f[pos..on];
      PiecesJoin(f, on, counts[1..]);
      var rest := Pieces(f, on, counts[1..]);
      assert rest == f[on..on + |rest|];
      assert Pieces(f, pos, counts) == got + rest;
    }
  }

  /** Reading from the start in pieces of any size, the next read returns nothing exactly if the pieces are the whole file. */
  lemma {:induction false} PiecesWhole(f: seq<Byte>, counts: seq<nat>, next: nat)
    requires next > 0
    ensures ReadFrom(f, |Pieces(f, 0, counts)|, next) == [] <==> Pieces(f, 0, counts) == f
  {
    hide ReadFrom, Pieces;
    var n := |Pieces(f, 0, counts)|;
    PiecesJoin(f, 0, counts);
    ReadFromAt(f, n, next);
    assert n == |f| ==> f[0..n] == f;
  }

  lemma ReadBack(f: seq<Byte>, pos: nat, data: seq<Byte>)
    ensures ReadFrom(WriteTo(f, pos, data), pos, |data|) == data
  {
    if data != [] {
      var w := WriteTo(f, pos, data);
      assert |w| >= pos + |data|;
      hide WriteTo;
      forall p | pos <= p < pos + |data| ensures w[p] == data[p - pos] { WriteToAt(f, pos, data, p); }
      assert w[pos..pos + |data|] == data;
    }
  }

  // ---------- contents of a file ----------

  /** Bytes beyond the size are zero, so that a later seek past the end finds zeros. */
  ghost predicate ZeroTail(fs: Fs, i: nat)
    requires i < |fs.inodes|
  {
    forall n: nat, o: nat :: o < BLOCK_SIZE && BLOCK_SIZE * n + o >= fs.inodes[i].size ==> Data(fs, i, n)[o] == 0
  }

  ghost predicate FilesOk(fs: Fs) {
    Inv(fs) && forall i: nat :: i < |fs.inodes| ==> ZeroTail(fs, i) && fs.inodes[i].size <= BLOCK_SIZE * MAX_BLOCKS
  }

  /** The byte at a position, zero in a hole. */
  function ByteAt(fs: Fs, i: nat, p: nat): Byte {
    Data(fs, i, p / BLOCK_SIZE)[p % BLOCK_SIZE]
  }

  function Bytes(fs: Fs, i: nat, pos: nat, n: nat): seq<Byte> {
    seq<Byte>(n, k requires k >= 0 => ByteAt(fs, i, pos + k))
  }

  function Contents(fs: Fs, i: nat): seq<Byte>
    requires i < |fs.inodes|
  {
    Bytes(fs, i, 0, fs.inodes[i].size)
  }

  /** `n` is `m` after the bytes `data` went to position `pos` of file `i`, kilobyte by kilobyte. */
  ghost predicate Wrote(m: Fs, n: Fs, i: nat, pos: nat, data: seq<Byte>) {
    && n.first == m.first && n.nzones == m.nzones && |n.blocks| == |m.blocks| && |n.inodes| == |m.inodes| && i < |m.inodes|
    && (forall j :: 0 <= j < |m.inodes| && j != i ==> n.inodes[j].size == m.inodes[j].size)
    && n.inodes[i].size == (if data != [] && pos + |data| > m.inodes[i].size then pos + |data| else m.inodes[i].size)
    && (forall k: nat, o: nat :: o < BLOCK_SIZE ==>
          Data(n, i, k)[o] == if pos <= BLOCK_SIZE * k + o < pos + |data| then data[BLOCK_SIZE * k + o - pos] else Data(m, i, k)[o])
    && (forall j: nat, k: nat :: j != i ==> Data(n, j, k) == Data(m, j, k))
  }

  lemma WroteNothing(m: Fs, i: nat, pos: nat)
    requires i < |m.inodes|
    ensures Wrote(m, m, i, pos, [])
  {
  }

  lemma LengthOf(fs: Fs, i: nat)
    requires i < |fs.inodes|
    ensures |Contents(fs, i)| == fs.inodes[i].size
  {
  }

  lemma ContentsAt(fs: Fs, i: nat, p: nat, k: nat, o: nat)
    requires i < |fs.inodes| && p < fs.inodes[i].size && p == BLOCK_SIZE * k + o && o < BLOCK_SIZE
    ensures |Contents(fs, i)| == fs.inodes[i].size && Contents(fs, i)[p] == Data(fs, i, k)[o]
  {
    hide Data;
    assert p / BLOCK_SIZE == k && p % BLOCK_SIZE == o;
  }

  // Kilobyte by kilobyte is byte by byte.
  lemma WroteByte(m: Fs, n: Fs, i: nat, pos: nat, data: seq<Byte>, p: nat)
    requires Wrote(m, n, i, pos, data) && ZeroTail(m, i) && p < n.inodes[i].size
    ensures p < |WriteTo(Contents(m, i), pos, data)| && Contents(n, i)[p] == WriteTo(Contents(m, i), pos, data)[p]
  {
    hide Data, ByteAt, Contents, Inv;
    var k, o := p / BLOCK_SIZE, p % BLOCK_SIZE;
    assert BLOCK_SIZE * k + o == p;
    assert |Contents(m, i)| == m.inodes[i].size by { LengthOf(m, i); }
    assert p < |WriteTo(Contents(m, i), pos, data)|;
    WriteToAt(Contents(m, i), pos, data, p);
    hide WriteTo;
    ContentsAt(n, i, p, k, o);
    if p < m.inodes[i].size { ContentsAt(m, i, p, k, o); }
    assert Data(n, i, k)[o] == if pos <= p < pos + |data| then data[p - pos] else Data(m, i, k)[o];
    assert p >= m.inodes[i].size ==> Data(m, i, k)[o] == 0;
  }

  lemma WroteTail(m: Fs, n: Fs, i: nat, pos: nat, data: seq<Byte>)
    requires Wrote(m, n, i, pos, data) && ZeroTail(m, i)
    ensures ZeroTail(n, i)
  {
    forall k: nat, o: nat | o < BLOCK_SIZE && BLOCK_SIZE * k + o >= n.inodes[i].size ensures Data(n, i, k)[o] == 0 {}
  }

  lemma WroteContents(m: Fs, n: Fs, i: nat, pos: nat, data: seq<Byte>)
    requires Wrote(m, n, i, pos, data) && FilesOk(m) && Inv(n) && pos + |data| <= BLOCK_SIZE * MAX_BLOCKS
    ensures FilesOk(n) && Contents(n, i) == WriteTo(Contents(m, i), pos, data)
    ensures forall j: nat :: j < |m.inodes| && j != i ==> Contents(n, j) == Contents(m, j)
  {
    hide Inv, Data;
    assert ZeroTail(m, i);
    forall p: nat | p < n.inodes[i].size ensures Contents(n, i)[p] == WriteTo(Contents(m, i), pos, data)[p] {
      WroteByte(m, n, i, pos, data, p);
    }
    WroteTail(m, n, i, pos, data);
    forall j: nat | j < |m.inodes| && j != i ensures ZeroTail(n, j) && Contents(n, j) == Contents(m, j) {
      assert ZeroTail(m, j);
      assert forall k: nat :: Data(n, j, k) == Data(m, j, k);
    }
  }

  // ---------- one round of the loops ----------

  function Overwritten(b: Block, c: nat, data: seq<Byte>): Block
    requires c + |data| <= BLOCK_SIZE
  {
    b[..c] + data + b[c + |data|..]
  }

  /** Storing into a data block changes that kilobyte of that file and nothing else. */
  lemma PutData(fs: Fs, i: nat, k: nat, b: Block)
    requires Inv(fs) && Bmap(fs, i, k) != 0
    ensures Bmap(fs, i, k) < |fs.blocks|
    ensures var t := fs.(blocks := fs.blocks[Bmap(fs, i, k) := b]);
      Inv(t) && Data(t, i, k) == b && forall j: nat, m: nat :: j != i || m != k ==> Data(t, j, m) == Data(fs, j, m)
  {
    var n := Bmap(fs, i, k);
    var t := fs.(blocks := fs.blocks[n := b]);
    DataLocNoIndex(i, k);
    forall l: Loc ensures At(t, l) == At(fs, l) { ContentEffect(fs, n, b, l); }
    SameNumbers(fs, t);
    forall j: nat, m: nat | j != i || m != k ensures Data(t, j, m) == Data(fs, j, m) {
      if DataLoc(j, m) == DataLoc(i, k) { DataLocUnique(j, m, i, k); }
    }
  }

  // The invariant speaks of block numbers and bits only.
  lemma SameNumbers(m: Fs, n: Fs)
    requires Inv(m) && n.zmap == m.zmap && n.first == m.first && n.nzones == m.nzones && |n.blocks| == |m.blocks|
    requires |n.inodes| == |m.inodes| && forall j :: 0 <= j < |m.inodes| ==> n.inodes[j].zone == m.inodes[j].zone
    requires forall l: Loc :: At(n, l) == At(m, l)
    ensures Inv(n)
  {
    forall b: nat | InZone(m, b) ensures Bit(n, b) <==> Used(n, b) {
      if Used(m, b) { var l: Loc :| At(m, l) == b; assert At(n, l) == b; }
      if Used(n, b) { var l: Loc :| At(n, l) == b; assert At(m, l) == b; }
    }
  }

  lemma {:induction false} SizeEffect(fs: Fs, i: nat, size: nat, l: Loc)
    requires i < |fs.inodes|
    ensures At(fs.(inodes := fs.inodes[i := fs.inodes[i].(size := size)]), l) == At(fs, l)
    decreases Rank(l)
  {
    if !l.Zone? { SizeEffect(fs, i, size, Parent(l)); }
  }

  lemma SizeOnly(fs: Fs, i: nat, size: nat)
    requires Inv(fs) && i < |fs.inodes|
    ensures var t := fs.(inodes := fs.inodes[i := fs.inodes[i].(size := size)]);
      Inv(t) && forall j: nat, m: nat :: Data(t, j, m) == Data(fs, j, m)
  {
    var t := fs.(inodes := fs.inodes[i := fs.inodes[i].(size := size)]);
    forall l: Loc ensures At(t, l) == At(fs, l) { SizeEffect(fs, i, size, l); }
    SameNumbers(fs, t);
  }

  /** `t` is `g` with `chunk` in the k-th kilobyte of file `i`, from its byte `c` on, and with the file reaching to `end`. */
  ghost predicate Chunked(g: Fs, t: Fs, i: nat, k: nat, c: nat, chunk: seq<Byte>, end: nat) {
    && t.first == g.first && t.nzones == g.nzones && |t.blocks| == |g.blocks| && |t.inodes| == |g.inodes| && i < |g.inodes|
    && (forall j :: 0 <= j < |g.inodes| && j != i ==> t.inodes[j].size == g.inodes[j].size)
    && t.inodes[i].size == (if end > g.inodes[i].size then end else g.inodes[i].size)
    && c + |chunk| <= BLOCK_SIZE && Data(t, i, k) == Overwritten(Data(g, i, k), c, chunk)
    && (forall j: nat, x: nat :: j != i || x != k ==> Data(t, j, x) == Data(g, j, x))
  }

  /** A round of file_write: `f` is the state before it, `g` once its block exists, `t` after it. */
  lemma WriteRound(m: Fs, f: Fs, g: Fs, t: Fs, i: nat, pos: nat, data: seq<Byte>, chunk: seq<Byte>)
    requires Wrote(m, f, i, pos, data) && chunk != []
    requires var at := pos + |data|;
      var k, c := at / BLOCK_SIZE, at % BLOCK_SIZE;
      OnlyBlock(f, g, i, k) && Chunked(g, t, i, k, c, chunk, at + |chunk|)
    ensures Wrote(m, t, i, pos, data + chunk)
  {
    hide Data;
    var at := pos + |data|;
    var k, c := at / BLOCK_SIZE, at % BLOCK_SIZE;
    var all := data + chunk;
    forall x: nat, o: nat | o < BLOCK_SIZE
      ensures Data(t, i, x)[o] == if pos <= BLOCK_SIZE * x + o < pos + |all| then all[BLOCK_SIZE * x + o - pos] else Data(m, i, x)[o]
    {
      assert Data(g, i, x)[o] == if pos <= BLOCK_SIZE * x + o < pos + |data| then data[BLOCK_SIZE * x + o - pos] else Data(m, i, x)[o];
      if x != k {
        assert Data(t, i, x) == Data(g, i, x);
        assert at == BLOCK_SIZE * k + c;
      } else {
        assert Data(t, i, k)[o] == if c <= o < c + |chunk| then chunk[o - c] else Data(g, i, k)[o];
      }
    }
    forall j: nat, x: nat | j != i ensures Data(t, j, x) == Data(m, j, x) {
      assert Data(t, j, x) == Data(g, j, x) == Data(f, j, x);
    }
  }

  // ---------- the methods ----------

  /** Copies bytes into a block, one at a time. */
  method CopyIn(dev: FileSystem, b: nat, c: nat, data: seq<Byte>)
    requires b < dev.blocks.Length && c + |data| <= BLOCK_SIZE
    modifies dev.blocks
    ensures dev.blocks[..] == old(dev.blocks[..])[b := Overwritten(old(dev.blocks[b]), c, data)]
  {
    ghost var before := dev.blocks[..];
    assert Overwritten(before[b], c, data[..0]) == before[b];
    for k := 0 to |data|
      invariant dev.blocks[..] == before[b := Overwritten(before[b], c, data[..k])]
    {
      dev.blocks[b] := dev.blocks[b][c + k := data[k]];
      assert dev.blocks[b] == Overwritten(before[b], c, data[..k + 1]);
    }
    assert data[..|data|] == data;
  }

  /** What goes into one block, and the size if the file grows. */
  method StoreChunk(dev: FileSystem, i: nat, block: nat, ghost k: nat, c: nat, chunk: seq<Byte>, end: nat)
    requires Inv(dev.S()) && i < dev.inodes.Length && block == Bmap(dev.S(), i, k) != 0 && c + |chunk| <= BLOCK_SIZE
    modifies dev.blocks, dev.inodes
    ensures Inv(dev.S()) && Chunked(old(dev.S()), dev.S(), i, k, c, chunk, end)
  {
    hide Inv, Data, Bmap;
    ghost var g := dev.S();
    DataStored(g, i, k);
    PutData(g, i, k, Overwritten(g.blocks[block], c, chunk));
    CopyIn(dev, block, c, chunk);
    ghost var h := dev.S();
    assert h == g.(blocks := g.blocks[block := Overwritten(g.blocks[block], c, chunk)]);
    SizeOnly(h, i, end);
    if end > dev.inodes[i].size {
      dev.inodes[i] := dev.inodes[i].(size := end);
      assert dev.S() == h.(inodes := h.inodes[i := h.inodes[i].(size := end)]);
    }
  }

  /** file_write at `at`, or at the end if appending: how many bytes went in (-1 for none), and the new position. It stops
      short only on a full device, at a kilobyte that has no block. */
  method FileWrite(dev: FileSystem, i: nat, at: nat, append: bool, buf: seq<Byte>) returns (written: int, filePos: nat)
    requires FilesOk(dev.S()) && i < dev.inodes.Length
    requires (if append then dev.inodes[i].size else at) + |buf| <= BLOCK_SIZE * MAX_BLOCKS
    modifies dev.blocks, dev.zmap, dev.inodes
    ensures FilesOk(dev.S()) && (written == -1 || 0 < written <= |buf|)
    ensures written < |buf| && buf != [] ==>
      var pos, n := if append then old(dev.inodes[i].size) else at, if written < 0 then 0 else written;
      Full(dev.S()) && Bmap(dev.S(), i, (pos + n) / BLOCK_SIZE) == 0
    ensures var pos, n := if append then old(dev.inodes[i].size) else at, if written < 0 then 0 else written;
      && Contents(dev.S(), i) == WriteTo(old(Contents(dev.S(), i)), pos, buf[..n])
      && filePos == if append then at else pos + n
    ensures forall j: nat :: j < dev.inodes.Length && j != i ==> Contents(dev.S(), j) == old(Contents(dev.S(), j))
  {
    hide Inv, Wrote, OnlyBlock, Contents, WriteTo, Data, Chunked;
    ghost var m := dev.S();
    var pos := if append then dev.inodes[i].size else at;
    ghost var start := pos;
    var k: nat := 0;
    WroteNothing(m, i, pos);
    while k < |buf|
      invariant k <= |buf| && pos == start + k
      invariant Inv(dev.S()) && Wrote(m, dev.S(), i, start, buf[..k])
    {
      ghost var f := dev.S();
      var block := dev.BmapOrCreate(i, pos / BLOCK_SIZE, true);
      ghost var g := dev.S();
      if block == 0 {
        WroteSame(m, f, g, i, start, buf[..k], pos / BLOCK_SIZE);
        break;
      }
      var c := pos % BLOCK_SIZE;
      var n := BLOCK_SIZE - c;
      if n > |buf| - k { n := |buf| - k; }
      var chunk := buf[k..k + n];
      ghost var at := pos;
      pos := pos + n;
      StoreChunk(dev, i, block, at / BLOCK_SIZE, c, chunk, pos);
      WriteRound(m, f, g, dev.S(), i, start, buf[..k], chunk);
      assert buf[..k] + chunk == buf[..k + n];
      k := k + n;
    }
    WroteContents(m, dev.S(), i, start, buf[..k]);
    filePos := if append then at else pos;
    written := if k > 0 then k else -1;
  }

  /** file_read: `count` bytes from `pos` on, a block at a time. */
  method FileRead(dev: FileSystem, i: nat, pos: nat, count: nat) returns (buf: seq<Byte>)
    requires Inv(dev.S()) && i < dev.inodes.Length && pos + count <= BLOCK_SIZE * MAX_BLOCKS
    modifies dev.blocks, dev.zmap, dev.inodes
    ensures dev.S() == old(dev.S()) && buf == Bytes(dev.S(), i, pos, count)
  {
    hide Inv, Bmap;
    ghost var fs := dev.S();
    buf := [];
    var left := count;
    while left > 0
      invariant 0 <= left <= count && dev.S() == fs && buf == Bytes(fs, i, pos, count - left)
    {
      var at := pos + (count - left);
      var nr := dev.BmapOrCreate(i, at / BLOCK_SIZE, false);
      var c := at % BLOCK_SIZE;
      var chars := if BLOCK_SIZE - c < left then BLOCK_SIZE - c else left;
      ReadRound(fs, i, at, chars);
      BytesJoin(fs, i, pos, count - left, chars);
      left := left - chars;
      if nr != 0 {
        buf := buf + dev.blocks[nr][c..c + chars];
      } else {
        buf := buf + seq(chars, _ => 0);
      }
    }
  }

  lemma ReadRound(fs: Fs, i: nat, at: nat, chars: nat)
    requires Inv(fs) && at % BLOCK_SIZE + chars <= BLOCK_SIZE
    ensures var nr, c := Bmap(fs, i, at / BLOCK_SIZE), at % BLOCK_SIZE;
      nr < |fs.blocks| && Bytes(fs, i, at, chars) == if nr == 0 then seq(chars, _ => 0) else fs.blocks[nr][c..c + chars]
  {
    var nr, c := Bmap(fs, i, at / BLOCK_SIZE), at % BLOCK_SIZE;
    if nr != 0 { DataStored(fs, i, at / BLOCK_SIZE); }
    hide Bmap, Inv;
    forall k: nat | k < chars ensures Bytes(fs, i, at, chars)[k] == Data(fs, i, at / BLOCK_SIZE)[c + k] {
      SameBlock(at, k);
      assert Bytes(fs, i, at, chars)[k] == ByteAt(fs, i, at + k);
    }
  }

  lemma SameBlock(at: nat, k: nat)
    requires at % BLOCK_SIZE + k < BLOCK_SIZE
    ensures (at + k) / BLOCK_SIZE == at / BLOCK_SIZE && (at + k) % BLOCK_SIZE == at % BLOCK_SIZE + k
  {
  }

  lemma BytesJoin(fs: Fs, i: nat, pos: nat, a: nat, b: nat)
    ensures Bytes(fs, i, pos, a) + Bytes(fs, i, pos + a, b) == Bytes(fs, i, pos, a + b)
  {
    hide ByteAt;
  }

  /** read() on a regular file: the count is cut at the end of the file. */
  method SysRead(dev: FileSystem, i: nat, pos: nat, count: nat) returns (buf: seq<Byte>)
    requires FilesOk(dev.S()) && i < dev.inodes.Length
    modifies dev.blocks, dev.zmap, dev.inodes
    ensures dev.S() == old(dev.S()) && buf == ReadFrom(Contents(dev.S(), i), pos, count)
    ensures var size := dev.inodes[i].size;
      && |buf| == (if pos >= size then 0 else if count < size - pos then count else size - pos)
      && |Contents(dev.S(), i)| == size && forall k :: 0 <= k < |buf| ==> buf[k] == Contents(dev.S(), i)[pos + k]
  {
    hide Inv, ByteAt;
    var n: int := count;
    if n + pos > dev.inodes[i].size { n := dev.inodes[i].size - pos; }
    LengthOf(dev.S(), i);
    ReadFromAt(Contents(dev.S(), i), pos, count);
    if n <= 0 { return []; }
    buf := FileRead(dev, i, pos, n);
    assert ReadFrom(Contents(dev.S(), i), pos, count) == Contents(dev.S(), i)[pos..pos + n];
  }

  lemma WroteSame(m: Fs, f: Fs, g: Fs, i: nat, pos: nat, data: seq<Byte>, k: nat)
    requires Wrote(m, f, i, pos, data) && OnlyBlock(f, g, i, k)
    ensures Wrote(m, g, i, pos, data)
  {
  }

  lemma DataStored(fs: Fs, i: nat, k: nat)
    requires Inv(fs) && Bmap(fs, i, k) != 0
    ensures Bmap(fs, i, k) < |fs.blocks| && Data(fs, i, k) == fs.blocks[Bmap(fs, i, k)]
  {
  }

  /** Truncation empties the file and changes no other. */
  lemma TruncatedContents(m: Fs, n: Fs, i: nat)
    requires FilesOk(m) && Truncated(m, n, i)
    ensures FilesOk(n) && Contents(n, i) == []
    ensures forall j: nat :: j < |m.inodes| && j != i ==> Contents(n, j) == Contents(m, j)
  {
    TruncatedOk(m, n, i);
    hide Inv, Data;
    forall j: nat | j < |m.inodes| ensures ZeroTail(n, j) {
      assert ZeroTail(m, j);
    }
    forall j: nat | j < |m.inodes| && j != i ensures Contents(n, j) == Contents(m, j) {
      assert n.inodes[j] == m.inodes[j];
    }
  }
}
