/**
  The kernel's bucket allocator (linux-0.11/lib/malloc.c) as values: pages cut
  into objects of one size, free objects chained through the pages themselves,
  descriptors chained by size.
 */
module MallocModel {
  import opened Sequences

  const PAGE: nat := 4096
  const BUCKETS: nat := 9              // sizes 16, 32, ..., 4096
  const DESCS: nat := 256              // descriptors on one page

  function Size(k: nat): (s: nat)
    ensures s > 0
  {
    if k == 0 then 16 else if k == 1 then 32 else if k == 2 then 64 else if k == 3 then 128 else if k == 4 then 256
    else if k == 5 then 512 else if k == 6 then 1024 else if k == 7 then 2048 else PAGE
  }

  // The page an address is on.
  function PageOf(a: nat): nat {
    a / PAGE
  }

  function PerPage(k: nat): nat {
    PAGE / Size(k)
  }

  lemma Exact(k: nat)
    requires k < BUCKETS
    ensures Size(k) * PerPage(k) == PAGE && PerPage(k) >= 1 && Size(k) >= 16
  {
  }

  datatype Desc = Desc(page: nat, next: int, freeptr: nat, refcnt: nat, size: nat)

  // A live object: whose page it is on, and how much was asked for.
  datatype Obj = Obj(d: nat, len: nat)

  /** Chain `BUCKETS` is the list of unused descriptors. `home[d]` is the chain `d` is in and
      `lists[d]` the free objects of its page, first one first. `avail` are the pages that the
      system has, `tables` those full of descriptors. */
  datatype State = State(desc: seq<Desc>, head: seq<int>, mem: seq<nat>, avail: set<nat>, tables: set<nat>,
                         chains: seq<seq<nat>>, home: seq<nat>, lists: seq<seq<nat>>, live: map<nat, Obj>)

  // ---------- the objects of a page ----------

  function Objects(page: nat, k: nat): (s: seq<nat>)
    ensures |s| == PerPage(k)
  {
    seq(PerPage(k), m requires 0 <= m < PerPage(k) => page * PAGE + Size(k) * m)
  }

  lemma Spaced(page: nat, k: nat, i: nat, j: nat)
    requires k < BUCKETS && i < j < PerPage(k)
    ensures Objects(page, k)[i] + Size(k) <= Objects(page, k)[j]
  {
    hide Size, PerPage;
    Apart(Size(k), i, j);
  }

  lemma {:induction false} Apart(s: nat, i: nat, j: nat)
    requires i < j
    ensures s * i + s <= s * j
  {
    if i + 1 < j { Apart(s, i, j - 1); }
    assert s * j == s * (j - 1) + s;
  }

  lemma InPage(page: nat, k: nat, i: nat)
    requires k < BUCKETS && i < PerPage(k)
    ensures page * PAGE <= Objects(page, k)[i] && Objects(page, k)[i] + Size(k) <= page * PAGE + PAGE
    ensures PageOf(Objects(page, k)[i]) == page
  {
    Exact(k);
    hide Size, PerPage;
    Apart(Size(k), i, PerPage(k));
  }

  lemma ObjectsOk(page: nat, k: nat)
    requires k < BUCKETS
    ensures Distinct(Objects(page, k))
    ensures forall a: nat :: a in Objects(page, k) ==>
              PageOf(a) == page && page * PAGE <= a && a + Size(k) <= page * PAGE + PAGE
  {
    forall i, j | 0 <= i < j < PerPage(k) ensures Objects(page, k)[i] != Objects(page, k)[j] {
      Spaced(page, k, i, j);
    }
    forall a: nat | a in Objects(page, k)
      ensures PageOf(a) == page && page * PAGE <= a && a + Size(k) <= page * PAGE + PAGE
    {
      var i :| 0 <= i < PerPage(k) && Objects(page, k)[i] == a;
      InPage(page, k, i);
    }
  }

  // ---------- free objects, chained through memory ----------

  function AddrAt(c: seq<nat>, k: int): nat {
    if 0 <= k < |c| then c[k] else 0
  }

  ghost predicate Cell(mem: seq<nat>, c: seq<nat>, k: nat)
    requires k < |c|
  {
    c[k] < |mem| && mem[c[k]] == AddrAt(c, k + 1)
  }

  ghost predicate Threaded(mem: seq<nat>, c: seq<nat>) {
    forall k: nat :: k < |c| ==> Cell(mem, c, k)
  }

  // ---------- the invariant ----------

  ghost predicate Shaped(st: State) {
    |st.head| == |st.chains| == BUCKETS + 1 && |st.home| == |st.lists| == |st.desc|
  }

  ghost predicate DescLink(desc: seq<Desc>, c: seq<nat>, k: nat)
    requires k < |c|
  {
    c[k] < |desc| && desc[c[k]].next == At(c, k + 1)
  }

  ghost predicate DescChain(desc: seq<Desc>, head: int, c: seq<nat>) {
    Distinct(c) && head == At(c, 0) && forall k: nat :: k < |c| ==> DescLink(desc, c, k)
  }

  /** Every descriptor is in exactly one chain, once. */
  ghost predicate ChainsOk(st: State)
    requires Shaped(st)
  {
    && (forall k: nat :: k <= BUCKETS ==> DescChain(st.desc, st.head[k], st.chains[k]))
    && (forall d: nat :: d < |st.desc| ==> st.home[d] <= BUCKETS)
    && (forall k: nat, d: nat {:trigger d in st.chains[k]} :: k <= BUCKETS ==>
          (d in st.chains[k] <==> d < |st.desc| && st.home[d] == k))
  }

  ghost predicate InUse(st: State, d: nat)
    requires Shaped(st)
  {
    d < |st.desc| && st.home[d] < BUCKETS
  }

  /** A descriptor's page: every object is either live or in the free list. */
  ghost predicate UseOk(st: State, d: nat)
    requires Shaped(st) && InUse(st, d)
  {
    var e, c, k := st.desc[d], st.lists[d], st.home[d];
    && e.size == Size(k) && 1 <= e.page && (e.page + 1) * PAGE <= |st.mem| && e.page !in st.avail && e.page !in st.tables
    && e.freeptr == AddrAt(c, 0) && Threaded(st.mem, c) && Distinct(c)
    && e.refcnt + |c| == PerPage(k)
    && (forall a: nat :: a in c ==> a in Objects(e.page, k))
    && (forall a: nat :: a in Objects(e.page, k) && a !in c ==> a in st.live)
  }

  ghost predicate LiveOk(st: State, a: nat)
    requires Shaped(st) && a in st.live
  {
    var o := st.live[a];
    InUse(st, o.d) && a in Objects(st.desc[o.d].page, st.home[o.d]) && a !in st.lists[o.d] && o.len <= Size(st.home[o.d])
  }

  ghost predicate PagesDiffer(st: State)
    requires Shaped(st)
  {
    forall d: nat, e: nat :: InUse(st, d) && InUse(st, e) && d != e ==> st.desc[d].page != st.desc[e].page
  }

  predicate OnMem(st: State, p: nat) {
    1 <= p && (p + 1) * PAGE <= |st.mem|
  }

  ghost predicate HasPage(st: State, p: nat)
    requires Shaped(st)
  {
    exists d: nat :: InUse(st, d) && st.desc[d].page == p
  }

  /** Every page is with the system, or full of descriptors, or the page of a descriptor in use. */
  ghost predicate PagesOk(st: State)
    requires Shaped(st)
  {
    && |st.desc| == DESCS * |st.tables|
    && (forall p: nat :: p in st.avail ==> OnMem(st, p) && p !in st.tables)
    && (forall p: nat :: p in st.tables ==> OnMem(st, p))
    && (forall p: nat :: OnMem(st, p) ==> p in st.avail || p in st.tables || HasPage(st, p))
  }

  ghost predicate Sound(st: State) {
    && Shaped(st) && ChainsOk(st) && PagesDiffer(st) && PagesOk(st)
    && (forall d: nat :: InUse(st, d) ==> UseOk(st, d))
    && (forall a: nat :: a in st.live ==> LiveOk(st, a))
  }

  ghost predicate Busy(st: State, d: nat)
    requires Shaped(st)
  {
    InUse(st, d) ==> st.desc[d].refcnt >= 1
  }

  /** Between operations no page is kept for nothing. */
  ghost predicate Inv(st: State) {
    Sound(st) && forall d: nat :: d < |st.desc| ==> Busy(st, d)
  }

  lemma FreshOk(st: State, frames: nat)
    requires Shaped(st) && st.desc == [] && st.live == map[] && |st.mem| == frames * PAGE && st.avail == Below(frames) - {0} && st.tables == {}
    requires forall k: nat :: k <= BUCKETS ==> st.head[k] == NULL && st.chains[k] == []
    ensures Inv(st)
  {
  }

  // ---------- what the invariant means ----------

  // The bytes of a live object.
  ghost predicate Covers(st: State, a: nat, x: nat)
    requires Shaped(st)
  {
    a in st.live && InUse(st, st.live[a].d) && a <= x < a + Size(st.home[st.live[a].d])
  }

  /** Live objects are as large as was asked for, and no two overlap. */
  lemma Disjoint(st: State, a: nat, b: nat)
    requires Sound(st) && a in st.live && b in st.live && a != b
    ensures a + st.live[a].len <= b || b + st.live[b].len <= a
    ensures forall x: nat :: !(Covers(st, a, x) && Covers(st, b, x))
  {
    assert LiveOk(st, a) && LiveOk(st, b);
    var d, e := st.live[a].d, st.live[b].d;
    var p, q := st.desc[d].page, st.desc[e].page;
    ObjectsOk(p, st.home[d]);
    ObjectsOk(q, st.home[e]);
    if d == e {
      var i :| 0 <= i < PerPage(st.home[d]) && Objects(p, st.home[d])[i] == a;
      var j :| 0 <= j < PerPage(st.home[d]) && Objects(p, st.home[d])[j] == b;
      if i < j { Spaced(p, st.home[d], i, j); } else { Spaced(p, st.home[d], j, i); }
    }
  }

  ghost function LiveOn(st: State, d: nat): set<nat> {
    set a: nat | a in st.live && st.live[a].d == d
  }

  /** A live object's page has one descriptor, so an object of that page belongs to it. */
  lemma OwnerOf(st: State, d: nat, a: nat)
    requires Sound(st) && InUse(st, d) && a in st.live && a in Objects(st.desc[d].page, st.home[d])
    ensures st.live[a].d == d
  {
    assert LiveOk(st, a);
    ObjectsOk(st.desc[d].page, st.home[d]);
    ObjectsOk(st.desc[st.live[a].d].page, st.home[st.live[a].d]);
  }

  /** refcnt is the number of live objects, and the free list holds exactly the others. */
  lemma RefcntIsLive(st: State, d: nat)
    requires Sound(st) && InUse(st, d)
    ensures st.desc[d].refcnt == |LiveOn(st, d)|
    ensures forall a: nat :: a in Objects(st.desc[d].page, st.home[d]) ==> (a in st.lists[d] <==> a !in LiveOn(st, d))
  {
    var all := Objects(st.desc[d].page, st.home[d]);
    var c, l := st.lists[d], LiveOn(st, d);
    assert UseOk(st, d);
    ObjectsOk(st.desc[d].page, st.home[d]);
    forall a: nat | a in l ensures a in all && a !in c { assert LiveOk(st, a); }
    forall a: nat | a in all && a !in c ensures a in l { OwnerOf(st, d, a); }
    Complement(all, c, l);
  }

  lemma Complement(all: seq<nat>, c: seq<nat>, l: set<nat>)
    requires Distinct(all) && Distinct(c)
    requires forall a: nat :: a in c ==> a in all
    requires forall a: nat :: a in l <==> a in all && a !in c
    ensures |all| == |c| + |l|
  {
    var m, f := Members(all), Members(c);
    assert m == f + l;
    assert f * l == {};
  }

  /** Every page is in exactly one place: with the system, full of descriptors, or holding a live object; the
      descriptors are as many as their pages hold. */
  lemma PageInUse(st: State, p: nat)
    requires Inv(st) && OnMem(st, p)
    ensures p !in st.avail && p !in st.tables <==> exists a: nat :: a in st.live && PageOf(a) == p
    ensures !(p in st.avail && p in st.tables) && |st.desc| == DESCS * |st.tables|
  {
    if a: nat :| a in st.live && PageOf(a) == p {
      assert LiveOk(st, a);
      var d := st.live[a].d;
      assert UseOk(st, d);
      ObjectsOk(st.desc[d].page, st.home[d]);
    }
    if p !in st.avail && p !in st.tables {
      var d: nat :| InUse(st, d) && st.desc[d].page == p;
      LiveThere(st, d);
    }
  }

  lemma LiveThere(st: State, d: nat)
    requires Inv(st) && InUse(st, d)
    ensures exists a: nat :: a in st.live && PageOf(a) == st.desc[d].page
  {
    assert UseOk(st, d) && Busy(st, d);
    RefcntIsLive(st, d);
    assert LiveOn(st, d) != {};
    var a :| a in LiveOn(st, d);
    assert LiveOk(st, a);
    ObjectsOk(st.desc[d].page, st.home[d]);
  }

  // ---------- descriptors move from chain to chain ----------

  function Unlinked(desc: seq<Desc>, d: nat, prev: int): seq<Desc>
    requires d < |desc|
  {
    if 0 <= prev < |desc| then desc[prev := desc[prev].(next := desc[d].next)] else desc
  }

  lemma UnlinkOk(desc: seq<Desc>, head: int, c: seq<nat>, d: nat, prev: int)
    requires DescChain(desc, head, c) && d in c && d < |desc| && prev == At(c, IndexOf(c, d) - 1)
    ensures prev == NULL || 0 <= prev < |desc|
    ensures DescChain(Unlinked(desc, d, prev), if prev == NULL then desc[d].next else head, Remove(c, d))
  {
    var i := IndexOf(c, d);
    var desc' := Unlinked(desc, d, prev);
    assert DescLink(desc, c, i);
    assert i > 0 ==> DescLink(desc, c, i - 1);
    WithoutMembers(c, i);
    forall k: nat | k < |c| - 1 ensures DescLink(desc', Without(c, i), k) {
      UnlinkAt(desc, c, i, k);
    }
  }

  lemma UnlinkAt(desc: seq<Desc>, c: seq<nat>, i: nat, k: nat)
    requires i < |c| && k < |c| - 1 && Distinct(c) && forall x: nat :: x < |c| ==> DescLink(desc, c, x)
    ensures c[i] < |desc| && DescLink(Unlinked(desc, c[i], At(c, i - 1)), Without(c, i), k)
  {
    var x := if k < i then k else k + 1;
    assert Without(c, i)[k] == c[x] && DescLink(desc, c, x) && DescLink(desc, c, i);
    assert i > 0 ==> DescLink(desc, c, i - 1);
    if i > 0 && x != i - 1 { assert c[x] != c[i - 1]; }
  }

  lemma PushOk(desc: seq<Desc>, head: int, c: seq<nat>, d: nat)
    requires DescChain(desc, head, c) && d !in c && d < |desc|
    ensures DescChain(desc[d := desc[d].(next := head)], d, [d] + c)
  {
    var w := [d] + c;
    var desc' := desc[d := desc[d].(next := head)];
    PrependMembers(c, d);
    forall k: nat | k < |w| ensures DescLink(desc', w, k) {
      if k > 0 { assert c[k - 1] in c && DescLink(desc, c, k - 1); }
    }
  }

  lemma OtherOk(desc: seq<Desc>, desc': seq<Desc>, head: int, c: seq<nat>)
    requires DescChain(desc, head, c) && |desc'| >= |desc|
    requires forall d: nat :: d in c && d < |desc| ==> desc'[d].next == desc[d].next
    ensures DescChain(desc', head, c)
  {
    forall k: nat | k < |c| ensures DescLink(desc', c, k) {
      assert c[k] in c && DescLink(desc, c, k);
    }
  }

  /** Descriptor `d`, behind `prev` in its chain, becomes the first of chain `to`. */
  function Moved(st: State, d: nat, prev: int, dest: nat): State
    requires Shaped(st) && d < |st.desc| && st.home[d] <= BUCKETS && dest <= BUCKETS && dest != st.home[d]
  {
    var k := st.home[d];
    var desc := Unlinked(st.desc, d, prev);
    st.(desc := desc[d := desc[d].(next := st.head[dest])],
        head := (if prev == NULL then st.head[k := st.desc[d].next] else st.head)[dest := d],
        chains := st.chains[k := Remove(st.chains[k], d)][dest := [d] + st.chains[dest]],
        home := st.home[d := dest])
  }

  ghost predicate Before(st: State, d: nat, prev: int)
    requires Shaped(st)
  {
    && d < |st.desc| && st.home[d] <= BUCKETS && d in st.chains[st.home[d]]
    && prev == At(st.chains[st.home[d]], IndexOf(st.chains[st.home[d]], d) - 1)
  }

  lemma MovedOk(st: State, d: nat, prev: int, dest: nat)
    requires Shaped(st) && ChainsOk(st) && Before(st, d, prev) && dest <= BUCKETS && dest != st.home[d]
    ensures prev == NULL || 0 <= prev < |st.desc|
    ensures ChainsOk(Moved(st, d, prev, dest))
    ensures forall e: nat :: e < |st.desc| && e != d ==> Moved(st, d, prev, dest).desc[e].(next := 0) == st.desc[e].(next := 0)
  {
    hide DescChain;
    var k := st.home[d];
    var c := st.chains[k];
    var t := Moved(st, d, prev, dest);
    UnlinkOk(st.desc, st.head[k], c, d, prev);
    var desc := Unlinked(st.desc, d, prev);
    ChainDistinct(st, k);
    WithoutMembers(c, IndexOf(c, d));
    assert prev != NULL ==> prev in c;
    OtherOk(desc, t.desc, t.head[k], t.chains[k]);
    OtherOk(st.desc, desc, st.head[dest], st.chains[dest]);
    PushOk(desc, st.head[dest], st.chains[dest], d);
    forall j: nat | j <= BUCKETS ensures DescChain(t.desc, t.head[j], t.chains[j]) {
      if j != k && j != dest {
        OtherOk(st.desc, t.desc, st.head[j], st.chains[j]);
      }
    }
  }

  /** One step along a chain. */
  lemma Walk(st: State, k: nat, i: nat)
    requires Shaped(st) && ChainsOk(st) && k <= BUCKETS && i < |st.chains[k]|
    ensures var d := st.chains[k][i];
      d < |st.desc| && st.home[d] == k && st.desc[d].next == At(st.chains[k], i + 1) && IndexOf(st.chains[k], d) == i
  {
    var c := st.chains[k];
    assert DescChain(st.desc, st.head[k], c) && DescLink(st.desc, c, i) && c[i] in c;
    assert c[IndexOf(c, c[i])] == c[i];
  }

  lemma ChainHead(st: State, k: nat)
    requires Shaped(st) && ChainsOk(st) && k <= BUCKETS
    ensures st.head[k] == At(st.chains[k], 0)
  {
    assert DescChain(st.desc, st.head[k], st.chains[k]);
  }

  lemma ChainDistinct(st: State, k: nat)
    requires Shaped(st) && ChainsOk(st) && k <= BUCKETS
    ensures Distinct(st.chains[k])
  {
  }

  /** Every descriptor in use kept its page, and no page came or went. */
  lemma SamePages(st: State, t: State)
    requires Shaped(st) && Shaped(t) && PagesDiffer(st) && PagesOk(st)
    requires forall d: nat :: (InUse(t, d) <==> InUse(st, d)) && (InUse(st, d) ==> t.desc[d].page == st.desc[d].page)
    requires |t.desc| == |st.desc| && |t.mem| == |st.mem| && t.avail == st.avail && t.tables == st.tables
    ensures PagesDiffer(t) && PagesOk(t)
  {
    forall p: nat | OnMem(t, p) ensures p in t.avail || p in t.tables || HasPage(t, p) {
      if HasPage(st, p) {
        var d: nat :| InUse(st, d) && st.desc[d].page == p;
        assert InUse(t, d);
      }
    }
  }

  /** Descriptor `d` got a page from the system. */
  lemma PagesGone(st: State, t: State, d: nat, page: nat)
    requires Shaped(st) && Shaped(t) && PagesOk(st) && InUse(t, d) && t.desc[d].page == page
    requires |t.desc| == |st.desc| && |t.mem| == |st.mem| && t.avail == st.avail - {page} && t.tables == st.tables
    requires forall e: nat :: InUse(st, e) ==> InUse(t, e) && (e == d || t.desc[e].page == st.desc[e].page)
    requires !InUse(st, d)
    ensures PagesOk(t)
  {
    forall p: nat | OnMem(t, p) ensures p in t.avail || p in t.tables || HasPage(t, p) {
      if p == page { assert InUse(t, d); }
      if HasPage(st, p) {
        var e: nat :| InUse(st, e) && st.desc[e].page == p;
        assert InUse(t, e);
      }
    }
  }

  /** Descriptor `d` gave its page back. */
  lemma PagesBack(st: State, t: State, d: nat)
    requires Shaped(st) && Shaped(t) && PagesOk(st) && InUse(st, d) && OnMem(st, st.desc[d].page) && st.desc[d].page !in st.tables
    requires |t.desc| == |st.desc| && |t.mem| == |st.mem| && t.avail == st.avail + {st.desc[d].page} && t.tables == st.tables
    requires forall e: nat :: InUse(st, e) && e != d ==> InUse(t, e) && t.desc[e].page == st.desc[e].page
    ensures PagesOk(t)
  {
    forall p: nat | OnMem(t, p) ensures p in t.avail || p in t.tables || HasPage(t, p) {
      if HasPage(st, p) && p != st.desc[d].page {
        var e: nat :| InUse(st, e) && st.desc[e].page == p;
        assert InUse(t, e);
      }
    }
  }

  // ---------- the steps ----------

  // The i-th descriptor of a new page whose first is `n`; the last links to the old list.
  function NewDesc(n: nat, rest: int, i: nat): Desc {
    Desc(0, if i + 1 < DESCS then n + i + 1 else rest, 0, 0, 0)
  }

  /** init_bucket_desc: a page of unused descriptors in front of the others. */
  function MoreDescs(st: State, page: nat): State
    requires Shaped(st)
  {
    var n := |st.desc|;
    st.(desc := st.desc + seq(DESCS, i requires 0 <= i < DESCS => NewDesc(n, st.head[BUCKETS], i)),
        head := st.head[BUCKETS := n],
        chains := st.chains[BUCKETS := seq(DESCS, i requires 0 <= i < DESCS => n + i) + st.chains[BUCKETS]],
        home := st.home + seq(DESCS, _ => BUCKETS), lists := st.lists + seq(DESCS, _ => []), avail := st.avail - {page}, tables := st.tables + {page})
  }

  lemma MoreDescsChain(st: State, page: nat)
    requires Shaped(st) && ChainsOk(st)
    ensures ChainsOk(MoreDescs(st, page))
  {
    hide DescChain;
    var t, n := MoreDescs(st, page), |st.desc|;
    var c := st.chains[BUCKETS];
    var w := t.chains[BUCKETS];
    assert forall i: nat :: i < |w| ==> w[i] == if i < DESCS then n + i else c[i - DESCS];
    forall k: nat | k < BUCKETS ensures DescChain(t.desc, t.head[k], t.chains[k]) {
      OtherOk(st.desc, t.desc, st.head[k], st.chains[k]);
    }
    OtherOk(st.desc, t.desc, st.head[BUCKETS], c);
    MoreDescsFirst(st, page);
    forall d: nat ensures d in w <==> d < |t.desc| && t.home[d] == BUCKETS {
      if n <= d < n + DESCS { assert w[d - n] == d; }
      if d in c { var i :| 0 <= i < |c| && c[i] == d; assert w[i + DESCS] == d; }
    }
  }

  lemma MoreDescsFirst(st: State, page: nat)
    requires Shaped(st) && ChainsOk(st)
    requires DescChain(MoreDescs(st, page).desc, st.head[BUCKETS], st.chains[BUCKETS])
    ensures var t := MoreDescs(st, page); DescChain(t.desc, t.head[BUCKETS], t.chains[BUCKETS])
  {
    var t, n := MoreDescs(st, page), |st.desc|;
    var c := st.chains[BUCKETS];
    var w := t.chains[BUCKETS];
    forall i: nat | i < |c| ensures c[i] < n { assert c[i] in c; }
    assert Distinct(w);
    forall i: nat | i < |w| ensures DescLink(t.desc, w, i) {
      if i >= DESCS { assert DescLink(t.desc, c, i - DESCS); }
    }
  }

  lemma MoreDescsOk(st: State, page: nat)
    requires Inv(st) && page in st.avail
    ensures Inv(MoreDescs(st, page))
  {
    var t := MoreDescs(st, page);
    MoreDescsChain(st, page);
    PagesFilled(st, t, page);
    assert PagesDiffer(t);
    hide ChainsOk, PagesOk, PagesDiffer, Size, PerPage;
    forall d: nat | InUse(t, d) ensures UseOk(t, d) { assert InUse(st, d) && UseOk(st, d); }
    forall d: nat | d < |t.desc| ensures Busy(t, d) { assert InUse(t, d) ==> InUse(st, d) && Busy(st, d); }
    forall a: nat | a in t.live ensures LiveOk(t, a) { assert LiveOk(st, a); }
  }

  /** A page of the system became full of descriptors. */
  lemma PagesFilled(st: State, t: State, page: nat)
    requires Shaped(st) && Shaped(t) && PagesOk(st) && page in st.avail
    requires |t.desc| == |st.desc| + DESCS && |t.mem| == |st.mem| && t.avail == st.avail - {page} && t.tables == st.tables + {page}
    requires forall e: nat :: InUse(st, e) ==> InUse(t, e) && t.desc[e].page == st.desc[e].page
    ensures PagesOk(t)
  {
    forall p: nat | OnMem(t, p) ensures p in t.avail || p in t.tables || HasPage(t, p) {
      if HasPage(st, p) {
        var e: nat :| InUse(st, e) && st.desc[e].page == p;
        assert InUse(t, e);
      }
    }
  }

  /** A new page for chain `k`, cut up in `mem`; its descriptor is the first unused one. */
  function Grown(st: State, k: nat, page: nat, mem: seq<nat>): State
    requires Shaped(st) && st.chains[BUCKETS] != [] && k < BUCKETS
    requires var d := st.chains[BUCKETS][0]; d < |st.desc| && st.home[d] == BUCKETS
  {
    var d := st.chains[BUCKETS][0];
    var t := Moved(st, d, NULL, k);
    t.(desc := t.desc[d := Desc(page, st.head[k], page * PAGE, 0, Size(k))], lists := st.lists[d := Objects(page, k)],
       mem := mem, avail := st.avail - {page})
  }

  ghost predicate Carved(mem: seq<nat>, mem': seq<nat>, page: nat, k: nat) {
    && |mem'| == |mem| && Threaded(mem', Objects(page, k))
    && forall x: nat :: x < |mem| && PageOf(x) != page ==> mem'[x] == mem[x]
  }

  ghost predicate CarvedTo(mem: seq<nat>, mem': seq<nat>, page: nat, k: nat, n: nat) {
    && |mem'| == |mem| && (forall j: nat :: j < n && j < PerPage(k) ==> Cell(mem', Objects(page, k), j))
    && forall x: nat :: x < |mem| && PageOf(x) != page ==> mem'[x] == mem[x]
  }

  lemma CarveStep(mem: seq<nat>, mem': seq<nat>, page: nat, k: nat, n: nat)
    requires k < BUCKETS && n < PerPage(k) && CarvedTo(mem, mem', page, k, n) && (page + 1) * PAGE <= |mem|
    ensures var a := Objects(page, k)[n];
      a < |mem| && CarvedTo(mem, mem'[a := AddrAt(Objects(page, k), n + 1)], page, k, n + 1)
  {
    ObjectsOk(page, k);
    Exact(k);
    hide Size, PerPage;
    var w := Objects(page, k);
    hide Objects;
    assert w[n] in w;
    var m := mem'[w[n] := AddrAt(w, n + 1)];
    forall j: nat | j < n + 1 && j < PerPage(k) ensures Cell(m, w, j) {
      if j < n { assert Cell(mem', w, j) && w[j] != w[n]; }
    }
  }

  lemma FirstUnused(st: State)
    requires Shaped(st) && ChainsOk(st) && st.chains[BUCKETS] != []
    ensures var d := st.chains[BUCKETS][0];
      d < |st.desc| && st.home[d] == BUCKETS && Before(st, d, NULL) && st.head[BUCKETS] == d
  {
    var d := st.chains[BUCKETS][0];
    assert d in st.chains[BUCKETS];
    assert DescChain(st.desc, st.head[BUCKETS], st.chains[BUCKETS]);
  }

  lemma GrownOk(st: State, k: nat, page: nat, mem: seq<nat>)
    requires Inv(st) && page in st.avail && st.chains[BUCKETS] != [] && k < BUCKETS && Carved(st.mem, mem, page, k)
    ensures var d := st.chains[BUCKETS][0]; d < |st.desc| && st.home[d] == BUCKETS
    ensures Sound(Grown(st, k, page, mem))
    ensures forall e: nat :: e < |st.desc| && e != st.chains[BUCKETS][0] ==> Busy(Grown(st, k, page, mem), e)
  {
    FirstUnused(st);
    var d := st.chains[BUCKETS][0];
    MovedOk(st, d, NULL, k);
    var t := Grown(st, k, page, mem);
    GrownChains(st, k, page, mem);
    hide ChainsOk, Size, PerPage;
    ObjectsOk(page, k);
    Exact(k);
    forall e: nat | InUse(t, e) && e != d ensures UseOk(t, e) && t.desc[e].page != page {
      assert InUse(st, e) && UseOk(st, e);
      ObjectsOk(st.desc[e].page, st.home[e]);
      UseSame(st, t, e);
    }
    assert Objects(page, k)[0] == page * PAGE by { assert Size(k) * 0 == 0; }
    assert PagesDiffer(t) by {
      forall e: nat, f: nat | InUse(t, e) && InUse(t, f) && e != f ensures t.desc[e].page != t.desc[f].page {
        if e != d && f != d { assert InUse(st, e) && InUse(st, f); }
      }
    }
    assert UseOk(t, d);
    PagesGone(st, t, d, page);
    hide PagesOk, PagesDiffer, UseOk;
    forall a: nat | a in t.live ensures LiveOk(t, a) { assert LiveOk(st, a); }
    forall e: nat | e < |st.desc| && e != d ensures Busy(t, e) { assert Busy(st, e); }
  }

  /** A descriptor that a step does not concern. */
  lemma UseSame(st: State, t: State, e: nat)
    requires Shaped(st) && Shaped(t) && InUse(st, e) && InUse(t, e) && UseOk(st, e)
    requires t.desc[e].(next := 0) == st.desc[e].(next := 0) && t.home[e] == st.home[e] && t.lists[e] == st.lists[e]
    requires |t.mem| == |st.mem| && t.desc[e].page !in t.avail && t.desc[e].page !in t.tables
    requires forall a: nat :: a in st.lists[e] && a < |st.mem| ==> t.mem[a] == st.mem[a]
    requires forall a: nat :: a in Objects(st.desc[e].page, st.home[e]) && a !in st.lists[e] ==> a in t.live
    ensures UseOk(t, e)
  {
    hide Size, PerPage;
    var c := st.lists[e];
    forall k: nat | k < |c| ensures Cell(t.mem, c, k) { assert c[k] in c && Cell(st.mem, c, k); }
  }

  lemma GrownChains(st: State, k: nat, page: nat, mem: seq<nat>)
    requires Shaped(st) && ChainsOk(st) && st.chains[BUCKETS] != [] && k < BUCKETS
    requires var d := st.chains[BUCKETS][0]; d < |st.desc| && st.home[d] == BUCKETS && Before(st, d, NULL)
    ensures ChainsOk(Grown(st, k, page, mem))
  {
    var d := st.chains[BUCKETS][0];
    MovedOk(st, d, NULL, k);
    var u, t := Moved(st, d, NULL, k), Grown(st, k, page, mem);
    hide DescChain;
    forall j: nat | j <= BUCKETS ensures DescChain(t.desc, t.head[j], t.chains[j]) {
      OtherOk(u.desc, t.desc, u.head[j], u.chains[j]);
    }
  }

  /** malloc hands out the first free object of `d`'s page. */
  function Taken(st: State, d: nat, len: nat): State
    requires Shaped(st) && d < |st.desc| && st.lists[d] != []
  {
    var e, c := st.desc[d], st.lists[d];
    st.(desc := st.desc[d := e.(freeptr := AddrAt(c, 1), refcnt := e.refcnt + 1)], lists := st.lists[d := c[1..]],
        live := st.live[c[0] := Obj(d, len)])
  }

  lemma TakenOk(st: State, d: nat, len: nat)
    requires Sound(st) && InUse(st, d) && st.lists[d] != [] && len <= Size(st.home[d])
    ensures Sound(Taken(st, d, len)) && Busy(Taken(st, d, len), d)
    ensures st.lists[d][0] !in st.live && st.lists[d][0] == st.desc[d].freeptr
    ensures st.lists[d][0] < |st.mem| && st.mem[st.lists[d][0]] == AddrAt(st.lists[d], 1) && st.lists[d][0] > 0
  {
    var c, t := st.lists[d], Taken(st, d, len);
    hide Size, PerPage;
    assert UseOk(st, d);
    ObjectsOk(st.desc[d].page, st.home[d]);
    assert c[0] in c && Cell(st.mem, c, 0);
    FreeIsDead(st, d, c[0]);
    SameChains(st, t);
    hide ChainsOk;
    forall e: nat | InUse(t, e) && e != d ensures UseOk(t, e) {
      assert InUse(st, e) && UseOk(st, e);
      UseSame(st, t, e);
    }
    TakenUse(st, d, len);
    forall a: nat | a in t.live ensures LiveOk(t, a) {
      TakenLive(st, d, len, a);
    }
    SamePages(st, t);
  }

  lemma TakenLive(st: State, d: nat, len: nat, a: nat)
    requires Shaped(st) && InUse(st, d) && UseOk(st, d) && st.lists[d] != [] && len <= Size(st.home[d])
    requires a in Taken(st, d, len).live && (a in st.live ==> LiveOk(st, a))
    ensures LiveOk(Taken(st, d, len), a)
  {
    hide Size, PerPage;
    var c := st.lists[d];
    if a == c[0] { TailLacks(c); } else { assert a !in c ==> a !in c[1..]; }
  }

  lemma FreeIsDead(st: State, d: nat, a: nat)
    requires Sound(st) && InUse(st, d) && a in st.lists[d]
    ensures a !in st.live
  {
    assert UseOk(st, d);
    assert a in st.live ==> LiveOk(st, a);
    if a in st.live { OwnerOf(st, d, a); }
  }

  lemma TakenUse(st: State, d: nat, len: nat)
    requires Shaped(st) && InUse(st, d) && UseOk(st, d) && st.lists[d] != []
    ensures UseOk(Taken(st, d, len), d)
  {
    hide Size, PerPage;
    var c, t := st.lists[d], Taken(st, d, len);
    assert c == [c[0]] + c[1..];
    forall k: nat | k < |c| - 1 ensures Cell(t.mem, c[1..], k) { assert Cell(st.mem, c, k + 1); }
  }

  lemma TailLacks(c: seq<nat>)
    requires Distinct(c) && c != []
    ensures c[0] !in c[1..] && Distinct(c[1..])
  {
  }

  /** Nothing moved between chains. */
  lemma SameChains(st: State, t: State)
    requires Shaped(st) && Shaped(t) && ChainsOk(st) && |t.desc| == |st.desc|
    requires t.head == st.head && t.chains == st.chains && t.home == st.home
    requires forall d: nat :: d < |st.desc| ==> t.desc[d].next == st.desc[d].next
    ensures ChainsOk(t)
  {
    hide DescChain;
    forall j: nat | j <= BUCKETS ensures DescChain(t.desc, t.head[j], t.chains[j]) {
      OtherOk(st.desc, t.desc, st.head[j], st.chains[j]);
    }
  }

  /** free_s puts a live object in front of its page's free list. */
  function Given(st: State, a: nat): State
    requires Shaped(st) && a in st.live && a < |st.mem| && st.live[a].d < |st.desc| && st.desc[st.live[a].d].refcnt > 0
  {
    var d := st.live[a].d;
    var e := st.desc[d];
    st.(mem := st.mem[a := e.freeptr], desc := st.desc[d := e.(freeptr := a, refcnt := e.refcnt - 1)],
        lists := st.lists[d := [a] + st.lists[d]], live := st.live - {a})
  }

  lemma GivenOk(st: State, a: nat)
    requires Inv(st) && a in st.live
    ensures a < |st.mem| && InUse(st, st.live[a].d) && st.desc[st.live[a].d].refcnt > 0
    ensures a in Objects(st.desc[st.live[a].d].page, st.home[st.live[a].d])
    ensures Sound(Given(st, a)) && forall e: nat :: e < |st.desc| && e != st.live[a].d ==> Busy(Given(st, a), e)
  {
    assert LiveOk(st, a);
    var d := st.live[a].d;
    assert UseOk(st, d) && Busy(st, d);
    ObjectsOk(st.desc[d].page, st.home[d]);
    var c, t := st.lists[d], Given(st, a);
    hide Size, PerPage;
    SameChains(st, t);
    SamePages(st, t);
    hide ChainsOk, PagesOk;
    forall e: nat | InUse(t, e) && e != d ensures UseOk(t, e) {
      assert InUse(st, e) && UseOk(st, e) && st.desc[e].page != st.desc[d].page;
      ObjectsOk(st.desc[e].page, st.home[e]);
      UseSame(st, t, e);
    }
    hide PagesDiffer;
    GivenUse(st, a);
    forall b: nat | b in t.live ensures LiveOk(t, b) { assert LiveOk(st, b); }
    forall e: nat | e < |st.desc| && e != d ensures Busy(t, e) { assert Busy(st, e); }
  }

  lemma GivenUse(st: State, a: nat)
    requires Shaped(st) && a in st.live && LiveOk(st, a) && UseOk(st, st.live[a].d) && st.desc[st.live[a].d].refcnt > 0
    requires a < |st.mem|
    ensures UseOk(Given(st, a), st.live[a].d)
  {
    hide Size, PerPage;
    var d := st.live[a].d;
    var c, t := st.lists[d], Given(st, a);
    PrependMembers(c, a);
    var w := [a] + c;
    forall k: nat | k < |w| ensures Cell(t.mem, w, k) {
      if k > 0 { assert c[k - 1] in c && Cell(st.mem, c, k - 1); }
    }
  }

  /** The last object of its page was freed: the page goes back, the descriptor is unused. */
  function Retired(st: State, d: nat, prev: int): State
    requires Shaped(st) && InUse(st, d)
  {
    Moved(st, d, prev, BUCKETS).(avail := st.avail + {st.desc[d].page})
  }

  lemma RetiredOk(st: State, d: nat, prev: int)
    requires Sound(st) && InUse(st, d) && st.desc[d].refcnt == 0 && Before(st, d, prev)
    requires forall e: nat :: e < |st.desc| && e != d ==> Busy(st, e)
    ensures Inv(Retired(st, d, prev))
    ensures st.desc[d].page !in st.avail && forall a: nat :: a in st.live ==> PageOf(a) != st.desc[d].page
  {
    var t := Retired(st, d, prev);
    MovedOk(st, d, prev, BUCKETS);
    assert UseOk(st, d);
    RefcntIsLive(st, d);
    assert LiveOn(st, d) == {};
    forall a: nat | a in st.live ensures PageOf(a) != st.desc[d].page {
      NotOn(st, d, a);
    }
    hide ChainsOk, Size, PerPage, Moved;
    RetiredRest(st, d, prev);
  }

  lemma NotOn(st: State, d: nat, a: nat)
    requires Sound(st) && InUse(st, d) && LiveOn(st, d) == {} && a in st.live
    ensures st.live[a].d != d && PageOf(a) != st.desc[d].page
  {
    assert LiveOk(st, a);
    assert a !in LiveOn(st, d);
    ObjectsOk(st.desc[st.live[a].d].page, st.home[st.live[a].d]);
  }

  lemma RetiredRest(st: State, d: nat, prev: int)
    requires Sound(st) && InUse(st, d) && LiveOn(st, d) == {} && UseOk(st, d)
    requires forall e: nat :: e < |st.desc| && e != d ==> Busy(st, e)
    requires ChainsOk(Moved(st, d, prev, BUCKETS))
    requires forall e: nat :: e < |st.desc| && e != d ==> Moved(st, d, prev, BUCKETS).desc[e].(next := 0) == st.desc[e].(next := 0)
    ensures Inv(Retired(st, d, prev))
  {
    hide Size, PerPage, DescChain;
    var t := Retired(st, d, prev);
    SameChains(Moved(st, d, prev, BUCKETS), t);
    PagesBack(st, t, d);
    assert PagesDiffer(t);
    hide ChainsOk, PagesOk, PagesDiffer;
    forall e: nat | InUse(t, e) ensures UseOk(t, e) { RetiredUse(st, d, prev, e); }
    forall a: nat | a in t.live ensures LiveOk(t, a) {
      assert LiveOk(st, a);
      NotOn(st, d, a);
    }
    forall e: nat | e < |t.desc| ensures Busy(t, e) { assert e != d ==> Busy(st, e); }
  }

  lemma RetiredUse(st: State, d: nat, prev: int, e: nat)
    requires Sound(st) && InUse(st, d) && Shaped(Retired(st, d, prev)) && InUse(Retired(st, d, prev), e)
    requires forall f: nat :: f < |st.desc| && f != d ==> Moved(st, d, prev, BUCKETS).desc[f].(next := 0) == st.desc[f].(next := 0)
    ensures UseOk(Retired(st, d, prev), e)
  {
    hide Size, PerPage, ChainsOk, PagesOk;
    assert InUse(st, e) && UseOk(st, e) && e != d && st.desc[e].page != st.desc[d].page;
    UseSame(st, Retired(st, d, prev), e);
  }

  // ---------- what a caller may count on ----------

  /** No free list runs through a live object, so its owner may write anywhere in it. */
  lemma OwnersMayWrite(st: State, a: nat, x: nat, v: nat)
    requires Inv(st) && Covers(st, a, x)
    ensures x < |st.mem| && Inv(st.(mem := st.mem[x := v]))
  {
    assert LiveOk(st, a);
    var o := st.live[a].d;
    assert UseOk(st, o);
    ObjectsOk(st.desc[o].page, st.home[o]);
    var t := st.(mem := st.mem[x := v]);
    hide Size, PerPage;
    SameChains(st, t);
    forall d: nat | InUse(t, d) ensures UseOk(t, d) {
      assert InUse(st, d) && UseOk(st, d);
      forall b: nat | b in st.lists[d] ensures b != x { FreeElsewhere(st, a, x, d, b); }
      UseSame(st, t, d);
    }
    hide ChainsOk;
    forall b: nat | b in t.live ensures LiveOk(t, b) { assert LiveOk(st, b); }
    forall d: nat | d < |t.desc| ensures Busy(t, d) { assert Busy(st, d); }
    SamePages(st, t);
  }

  lemma FreeElsewhere(st: State, a: nat, x: nat, d: nat, b: nat)
    requires Sound(st) && Covers(st, a, x) && InUse(st, d) && b in st.lists[d]
    ensures b != x
  {
    assert LiveOk(st, a) && UseOk(st, d);
    var o := st.live[a].d;
    var p, k := st.desc[o].page, st.home[o];
    ObjectsOk(p, k);
    ObjectsOk(st.desc[d].page, st.home[d]);
    hide Size, PerPage;
    if d == o {
      var i :| 0 <= i < PerPage(k) && Objects(p, k)[i] == a;
      var j :| 0 <= j < PerPage(k) && Objects(p, k)[j] == b;
      if i < j { Spaced(p, k, i, j); } else if j < i { Spaced(p, k, j, i); }
    }
  }

  // What the caller may rely on: no byte of a live object changed.
  ghost predicate Untouched(st: State, mem: seq<nat>)
    requires Shaped(st)
  {
    |mem| == |st.mem| &&
    forall a: nat, x: nat {:trigger Covers(st, a, x)} :: Covers(st, a, x) && x < |mem| ==> mem[x] == st.mem[x]
  }

  lemma NewPageUntouched(st: State, mem: seq<nat>)
    requires Inv(st) && |mem| == |st.mem| && forall x: nat :: x < |mem| && PageOf(x) !in st.avail ==> mem[x] == st.mem[x]
    ensures Untouched(st, mem)
  {
    hide Size, PerPage;
    forall a: nat, x: nat | Covers(st, a, x) && x < |mem| ensures mem[x] == st.mem[x] {
      CoversOnPage(st, a, x);
    }
  }

  lemma CoversOnPage(st: State, a: nat, x: nat)
    requires Inv(st) && Covers(st, a, x)
    ensures PageOf(x) == PageOf(a) == st.desc[st.live[a].d].page && PageOf(x) !in st.avail
  {
    assert LiveOk(st, a);
    var o := st.live[a].d;
    assert UseOk(st, o);
    ObjectsOk(st.desc[o].page, st.home[o]);
  }

  /** A second descriptor of the same chain that links to `d` cannot exist. */
  lemma PrevIs(st: State, d: nat, prev: int)
    requires Shaped(st) && ChainsOk(st) && d < |st.desc|
    requires if prev == NULL then st.head[st.home[d]] == d else 0 <= prev < |st.desc| && st.desc[prev].next == d
    ensures Before(st, d, prev)
  {
    var c := st.chains[if prev == NULL then st.home[d] else st.home[prev]];
    assert DescChain(st.desc, st.head[st.home[d]], st.chains[st.home[d]]);
    if prev != NULL {
      assert DescChain(st.desc, st.head[st.home[prev]], c);
      assert prev in c;
      var i := IndexOf(c, prev);
      assert DescLink(st.desc, c, i);
      assert c[i + 1] in c;
    }
  }

  /** With nothing live, all pages are back with the system, except those full of descriptors. */
  lemma NothingKept(st: State, p: nat)
    requires Inv(st) && st.live == map[] && OnMem(st, p)
    ensures p in st.avail <==> p !in st.tables
  {
    PageInUse(st, p);
  }

  // ---------- what each call does ----------

  // The bucket for a length: the smallest that is large enough.
  predicate IsBucket(k: nat, len: nat) {
    k < BUCKETS && Size(k) >= len && forall j: nat :: j < k ==> Size(j) < len
  }

  ghost predicate Room(st: State, k: nat)
    requires Shaped(st)
  {
    exists d: nat :: InUse(st, d) && st.home[d] == k && st.lists[d] != []
  }

  // The pages a new bucket takes: one for the objects, and one for descriptors if none is unused.
  function Needs(st: State): nat
    requires Shaped(st)
  {
    if st.head[BUCKETS] == NULL then 2 else 1
  }

  /** What malloc takes from the system: nothing if there was room, else the new object's page and perhaps one page of descriptors. */
  ghost predicate Supplied(s: State, t: State, k: nat, r: nat)
    requires Shaped(s)
  {
    if Room(s, k) then t.avail == s.avail && t.tables == s.tables
    else
      var more := t.tables - s.tables;
      && PageOf(r) in s.avail && PageOf(r) !in t.tables && s.tables <= t.tables && more <= s.avail && |more| == Needs(s) - 1
      && t.avail == s.avail - {PageOf(r)} - more
  }

  /** malloc(len) gives `r`. */
  ghost predicate Gets(s: State, t: State, len: nat, r: nat)
    requires Shaped(s)
  {
    && r != 0 && r !in s.live && r in t.live && t.live == s.live[r := t.live[r]] && t.live[r].len == len
    && t.live[r].d < |t.home| && IsBucket(t.home[t.live[r].d], len) && Supplied(s, t, t.home[t.live[r].d], r) && Untouched(s, t.mem)
  }

  /** free_s of `obj`: its page goes back exactly if nothing else on it is live. */
  ghost predicate Gives(s: State, t: State, obj: nat) {
    && obj in s.live && t.live == s.live - {obj} && t.tables == s.tables
    && t.avail == (if exists a: nat :: a in t.live && PageOf(a) == PageOf(obj) then s.avail else s.avail + {PageOf(obj)})
    && |t.mem| == |s.mem| && forall x: nat :: x < |s.mem| && x != obj ==> t.mem[x] == s.mem[x]
  }

  /** A call of a client that keeps a list of its objects: allocate, or free the i-th. */
  datatype Call = Get(len: nat) | Put(i: nat, size: nat)

  ghost predicate Owns(st: State, objs: seq<nat>) {
    Distinct(objs) && forall a: nat :: a in objs <==> a in st.live
  }

  /** The calls that panic: too long, too few pages, or freed with a size that is too large. */
  ghost predicate Panics(st: State, objs: seq<nat>, c: Call)
    requires Shaped(st)
  {
    match c
    case Get(len) => len > PAGE || exists k: nat :: IsBucket(k, len) && !Room(st, k) && |st.avail| < Needs(st)
    case Put(i, size) =>
      i < |objs| && objs[i] in st.live && st.live[objs[i]].d < |st.home| && size > Size(st.home[st.live[objs[i]].d])
  }

  ghost predicate Follows(s: State, objs: seq<nat>, t: State, objs': seq<nat>, c: Call)
    requires Shaped(s)
  {
    match c
    case Get(len) => |objs'| == |objs| + 1 && objs' == objs + [objs'[|objs|]] && Gets(s, t, len, objs'[|objs|])
    case Put(i, _) => if i >= |objs| then t == s && objs' == objs else objs' == Without(objs, i) && Gives(s, t, objs[i])
  }
}
