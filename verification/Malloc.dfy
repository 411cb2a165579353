/**
  malloc and free_s (linux-0.11/lib/malloc.c) on descriptors and page memory. A
  panic is a result here; what the kernel would do after it is not described.
 */
module Malloc {
  import opened Sequences
  import opened MallocModel

  class Malloc {
    const mem: array<nat>
    const dir: array<int>
    var freeDesc: int
    var desc: seq<Desc>
    var avail: set<nat>
    ghost var tables: set<nat>
    ghost var chains: seq<seq<nat>>
    ghost var home: seq<nat>
    ghost var lists: seq<seq<nat>>
    ghost var live: map<nat, Obj>

    ghost function S(): State
      reads this, mem, dir
    {
      State(desc, dir[..] + [freeDesc], mem[..], avail, tables, chains, home, lists, live)
    }

    ghost predicate Valid()
      reads this, mem, dir
    {
      dir.Length == BUCKETS && Inv(S())
    }

    constructor (frames: nat)
      ensures Valid() && live == map[] && avail == Below(frames) - {0} && tables == {} && fresh(mem) && fresh(dir)
    {
      mem := new nat[frames * PAGE](i => 0);
      dir := new int[BUCKETS](i => NULL);
      freeDesc := NULL;
      desc, chains, home, lists, live := [], seq(BUCKETS + 1, _ => []), [], [], map[];
      avail, tables := Below(frames) - {0}, {};
      new;
      FreshOk(S(), frames);
    }

    // Some free page, or 0.
    method GetFreePage() returns (page: nat)
      modifies this`avail
      ensures avail == old(avail) - {page}
      ensures if old(avail) == {} then page == 0 else page in old(avail)
    {
      page := 0;
      if avail != {} {
        page :| page in avail;
      }
      avail := avail - {page};
    }

    // The page now full of descriptors, or 0.
    method InitBucketDesc() returns (page: nat)
      requires Valid()
      modifies this
      ensures page == 0 <==> old(avail) == {}
      ensures page != 0 ==> page in old(avail) && S() == MoreDescs(old(S()), page) && Valid()
    {
      ghost var st := S();
      NotZero(st);
      hide Inv;
      page := GetFreePage();
      if page == 0 { return; }
      MoreDescsOk(st, page);
      var n := |desc|;
      var more := Descriptors(n, freeDesc);
      desc := desc + more;
      freeDesc := n;
      ghost var t := MoreDescs(st, page);
      chains, home, lists, tables := t.chains, t.home, t.lists, tables + {page};
      assert S().head == t.head;
    }

    method Descriptors(n: nat, rest: int) returns (more: seq<Desc>)
      ensures more == seq(DESCS, i requires 0 <= i < DESCS => NewDesc(n, rest, i))
    {
      more := [];
      for i := 0 to DESCS
        invariant |more| == i && forall j: nat :: j < i ==> more[j] == NewDesc(n, rest, j)
      {
        more := more + [Desc(0, if i + 1 < DESCS then n + i + 1 else rest, 0, 0, 0)];
      }
    }

    /** The chain of free objects of a new page. */
    method Carve(page: nat, k: nat)
      requires k < BUCKETS && (page + 1) * PAGE <= mem.Length && page >= 1
      modifies mem
      ensures Carved(old(mem[..]), mem[..], page, k)
    {
      ghost var before, n: nat := mem[..], 0;
      Exact(k);
      var cp, i := page * PAGE, PAGE / Size(k);
      Start(page, k);
      hide Size, PerPage, Objects, CarvedTo;
      assert CarvedTo(before, mem[..], page, k, 0) by { CarveStart(before, page, k); }
      while i > 1
        invariant 1 <= i && n + i == PerPage(k) && cp == Objects(page, k)[n] && CarvedTo(before, mem[..], page, k, n)
        decreases i
      {
        NextObject(page, k, n);
        CarveStep(before, mem[..], page, k, n);
        mem[cp] := cp + Size(k);
        cp := cp + Size(k);
        i, n := i - 1, n + 1;
      }
      CarveStep(before, mem[..], page, k, n);
      mem[cp] := 0;
      CarveEnd(before, mem[..], page, k);
    }

    /** Takes the first unused descriptor and puts it, with a new page, in front of chain `k`. */
    method Link(k: nat) returns (page: nat)
      requires Valid() && k < BUCKETS && freeDesc != NULL
      modifies this, dir, mem
      ensures page == 0 <==> old(avail) == {}
      ensures page != 0 ==> page in old(avail) && Carved(old(mem[..]), mem[..], page, k)
      ensures page != 0 ==> old(chains)[BUCKETS] != [] && old(chains)[BUCKETS][0] == old(freeDesc)
                            && 0 <= old(freeDesc) < |old(desc)| && old(home)[old(freeDesc)] == BUCKETS
                            && S() == Grown(old(S()), k, page, mem[..])
      ensures page == 0 ==> mem[..] == old(mem[..])
    {
      ghost var st := S();
      ChainHead(st, BUCKETS);
      FirstUnused(st);
      assert PagesOk(st) && Shaped(st);
      hide Inv, Carved, Size, PerPage, Objects, Before;
      var d := freeDesc;
      freeDesc := desc[d].next;
      page := GetFreePage();
      if page == 0 { return; }
      Carve(page, k);
      desc := desc[d := Desc(page, dir[k], page * PAGE, 0, Size(k))];
      dir[k] := d;
      chains := chains[BUCKETS := Remove(chains[BUCKETS], d)][k := [d] + chains[k]];
      home := home[d := k];
      lists := lists[d := Objects(page, k)];
      assert S() == Grown(st, k, page, mem[..]);
    }

    /** A new bucket; NULL if the system has too few pages. */
    method Grow(k: nat) returns (d: int)
      requires Valid() && k < BUCKETS
      modifies this, dir, mem
      ensures d == NULL <==> old(|avail|) < Needs(old(S()))
      ensures d != NULL ==> 0 <= d < |desc| && Sound(S()) && live == old(live) && desc[d].page in old(avail)
      ensures d != NULL ==> old(tables) <= tables && tables - old(tables) <= old(avail) && |tables - old(tables)| == Needs(old(S())) - 1
                            && avail == old(avail) - {desc[d].page} - (tables - old(tables))
      ensures d != NULL ==> InUse(S(), d) && home[d] == k && lists[d] != []
      ensures d != NULL ==> forall e: nat :: e < |desc| && e != d ==> Busy(S(), e)
      ensures forall x: nat :: x < mem.Length && PageOf(x) !in old(avail) ==> mem[x] == old(mem[x])
    {
      hide Inv, Sound, Size, PerPage, Carved, PageOf;
      var ok := Stock();
      if !ok { return NULL; }
      ghost var st := S();
      d := freeDesc;
      var page := Link(k);
      if page == 0 { return NULL; }
      GrownFacts(st, k, page, mem[..]);
    }

    // An unused descriptor, from a new page if there is none.
    method Stock() returns (ok: bool)
      requires Valid()
      modifies this
      ensures ok <==> old(freeDesc) != NULL || old(avail) != {}
      ensures ok ==> Valid() && freeDesc != NULL && live == old(live)
      ensures ok ==> old(tables) <= tables && tables - old(tables) <= old(avail) && |tables - old(tables)| == Needs(old(S())) - 1
                     && avail == old(avail) - (tables - old(tables)) && |avail| == |old(avail)| - (Needs(old(S())) - 1)
    {
      ghost var st := S();
      NotZero(st);
      hide Inv;
      ok := true;
      if freeDesc == NULL {
        var more := InitBucketDesc();
        ok := more != 0;
        if ok {
          NotTable(st, more);
          assert tables - st.tables == {more};
        }
      } else {
        assert tables - st.tables == {};
      }
    }

    /** The first descriptor of a chain with a free object. */
    method FindRoom(k: nat) returns (d: int)
      requires Valid() && k < BUCKETS
      ensures d == NULL <==> !Room(S(), k)
      ensures d != NULL ==> 0 <= d < |desc| && home[d] == k && lists[d] != []
    {
      ghost var st := S();
      ghost var c := chains[k];
      ChainHead(st, k);
      d := dir[k];
      ghost var i: nat := 0;
      while d != NULL
        invariant i <= |c| && d == At(c, i)
        invariant forall j :: 0 <= j < i ==> c[j] < |desc| && lists[c[j]] == []
        decreases |c| - i
      {
        Walk(st, k, i);
        assert InUse(st, d) && UseOk(st, d);
        FreeptrTells(st, d);
        if desc[d].freeptr != 0 { return; }
        d := desc[d].next;
        i := i + 1;
      }
      forall e: nat | InUse(st, e) && home[e] == k ensures lists[e] == [] {
        assert e in c;
      }
    }

    /** malloc; 0 stands for its panics, a length over a page or too few pages in the system. */
    method Alloc(len: nat) returns (r: nat)
      requires Valid()
      modifies this, dir, mem
      ensures r == 0 <==> Panics(old(S()), [], Get(len))
      ensures r != 0 ==> Valid() && Gets(old(S()), S(), len, r)
    {
      ghost var st := S();
      var k := 0;
      while k < BUCKETS && Size(k) < len
        invariant k <= BUCKETS && forall j: nat :: j < k ==> Size(j) < len
      {
        k := k + 1;
      }
      if k == BUCKETS {
        assert Size(8) == PAGE;
        return 0;
      }
      assert IsBucket(k, len) && len <= PAGE;
      hide Size, PerPage, Inv, Sound, Room, IsBucket, Gets, Taken, PageOf;
      OneBucket(len, k);
      var d := FindRoom(k);
      if d == NULL {
        d := Grow(k);
        if d == NULL { return 0; }
      }
      NewPageUntouched(st, mem[..]);
      ghost var u := S();
      r := HandOut(d, len);
      GotFirst(st, u, k, d, len);
    }

    method HandOut(d: nat, len: nat) returns (r: nat)
      requires dir.Length == BUCKETS && Sound(S()) && InUse(S(), d) && lists[d] != [] && len <= Size(home[d])
      requires forall e: nat :: e < |desc| && e != d ==> Busy(S(), e)
      modifies this
      ensures old(lists[d]) != [] && r == old(lists[d][0]) && S() == Taken(old(S()), d, len) && Valid() && r > 0 && r !in old(live)
    {
      ghost var st := S();
      TakenOk(st, d, len);
      r := desc[d].freeptr;
      desc := desc[d := desc[d].(freeptr := mem[r], refcnt := desc[d].refcnt + 1)];
      live := live[r := Obj(d, len)];
      lists := lists[d := lists[d][1..]];
      hide Sound, Size, PerPage;
      assert S() == Taken(st, d, len);
      forall e: nat | e < |desc| ensures Busy(S(), e) {
        assert e != d ==> Busy(st, e);
      }
      assert Inv(S());
    }

    /** The search of free_s: the descriptor of a page among the chains of objects of at least `size`. */
    method FindPage(page: nat, size: nat) returns (k: nat, d: int, prev: int)
      requires Valid()
      ensures d == NULL ==> forall e: nat :: InUse(S(), e) && Size(home[e]) >= size ==> desc[e].page != page
      ensures d != NULL ==> 0 <= d < |desc| && InUse(S(), d) && home[d] == k && Size(k) >= size && desc[d].page == page
      ensures d != NULL ==> Before(S(), d, prev)
    {
      hide Size, PerPage;
      ghost var st := S();
      k := 0;
      prev, d := NULL, NULL;
      while k < BUCKETS
        invariant k <= BUCKETS
        invariant forall e: nat :: e < |desc| && home[e] < k && Size(home[e]) >= size ==> desc[e].page != page
        decreases BUCKETS - k
      {
        if Size(k) >= size {
          d, prev := FindIn(page, k);
          if d != NULL { return; }
        }
        k := k + 1;
      }
      d := NULL;
    }

    method FindIn(page: nat, k: nat) returns (d: int, prev: int)
      requires Valid() && k < BUCKETS
      ensures d == NULL ==> forall e: nat :: e < |desc| && home[e] == k ==> desc[e].page != page
      ensures d != NULL ==> 0 <= d < |desc| && home[d] == k && desc[d].page == page && Before(S(), d, prev)
    {
      ghost var st := S();
      ghost var c := chains[k];
      ChainHead(st, k);
      d, prev := dir[k], NULL;
      ghost var i: nat := 0;
      while d != NULL
        invariant i <= |c| && d == At(c, i) && prev == At(c, i - 1)
        invariant forall j :: 0 <= j < i ==> c[j] < |desc| && desc[c[j]].page != page
        decreases |c| - i
      {
        Walk(st, k, i);
        if desc[d].page == page {
          assert c[i] in c;
          return;
        }
        prev := d;
        d := desc[d].next;
        i := i + 1;
      }
      forall e: nat | e < |desc| && home[e] == k ensures desc[e].page != page {
        assert e in c;
      }
    }

    /** The rest of free_s, with interrupts off. Other calls may have run since the search, so whatever
        `prev` is by now, the right predecessor is found. */
    method Finish(obj: nat, k: nat, d: nat, prev0: int)
      requires Valid() && obj in live && live[obj].d == d && d < |desc| && home[d] == k
      requires prev0 == NULL || 0 <= prev0 < |desc|
      modifies this, dir, mem
      ensures Valid() && Gives(old(S()), S(), obj)
    {
      ghost var st := S();
      GivenFacts(st, obj);
      hide Inv, Sound, Size, PerPage, Given, ChainsOk, PageOf, Gives;
      PutInFront(obj, d);
      Settle(k, d, prev0);
      Gave(st, S(), obj);
    }

    // The page goes back if nothing on it is live any more.
    method Settle(k: nat, d: nat, prev0: int)
      requires dir.Length == BUCKETS && Sound(S()) && InUse(S(), d) && home[d] == k
      requires forall e: nat :: e < |desc| && e != d ==> Busy(S(), e)
      requires prev0 == NULL || 0 <= prev0 < |desc|
      modifies this, dir
      ensures Valid() && live == old(live) && tables == old(tables)
      ensures avail == if exists a: nat :: a in live && PageOf(a) == old(desc[d].page) then old(avail) else old(avail) + {old(desc[d].page)}
    {
      hide Inv, Sound, Size, PerPage, ChainsOk, PageOf;
      if desc[d].refcnt == 0 {
        Retire(k, d, prev0);
      } else {
        SoundShaped(S());
        AllBusy(S(), S(), d);
        LiveThere(S(), d);
      }
    }

    // The object becomes the first free one of its page.
    method PutInFront(obj: nat, d: nat)
      requires Shaped(S()) && obj in live && obj < mem.Length && live[obj].d == d < |desc| && desc[d].refcnt > 0
      modifies this, mem
      ensures S() == Given(old(S()), obj) && home == old(home) && live == old(live) - {obj} && avail == old(avail) && tables == old(tables)
      ensures mem[..] == old(mem[..])[obj := old(desc[d]).freeptr]
    {
      ghost var st := S();
      mem[obj] := desc[d].freeptr;
      desc := desc[d := desc[d].(freeptr := obj, refcnt := desc[d].refcnt - 1)];
      lists := lists[d := [obj] + lists[d]];
      live := live - {obj};
      assert S() == Given(st, obj);
    }

    method Retire(k: nat, d: nat, prev0: int)
      requires dir.Length == BUCKETS && Sound(S()) && InUse(S(), d) && home[d] == k && desc[d].refcnt == 0
      requires forall e: nat :: e < |desc| && e != d ==> Busy(S(), e)
      requires prev0 == NULL || 0 <= prev0 < |desc|
      modifies this, dir
      ensures Valid() && live == old(live) && avail == old(avail) + {old(desc[d].page)} && tables == old(tables)
      ensures forall a: nat :: a in live ==> PageOf(a) != old(desc[d].page)
    {
      ghost var st := S();
      var prev := FindPrev(k, d, prev0);
      RetiredOk(st, d, prev);
      MovedOk(st, d, prev, BUCKETS);
      Drop(k, d, prev);
    }

    // Out of chain `k`, into the list of unused descriptors, and the page back to the system.
    method Drop(k: nat, d: nat, prev: int)
      requires dir.Length == BUCKETS && Shaped(S()) && InUse(S(), d) && home[d] == k
      requires prev == NULL || 0 <= prev < |desc|
      modifies this, dir
      ensures S() == Retired(old(S()), d, prev)
    {
      ghost var st := S();
      if prev != NULL {
        desc := desc[prev := desc[prev].(next := desc[d].next)];
      } else {
        dir[k] := desc[d].next;
      }
      avail := avail + {desc[d].page};
      desc := desc[d := desc[d].(next := freeDesc)];
      freeDesc := d;
      chains := chains[k := Remove(chains[k], d)][BUCKETS := [d] + chains[BUCKETS]];
      home := home[d := BUCKETS];
      assert S() == Retired(st, d, prev);
    }

    method FindPrev(k: nat, d: nat, prev0: int) returns (prev: int)
      requires dir.Length == BUCKETS && Sound(S()) && InUse(S(), d) && home[d] == k
      requires prev0 == NULL || 0 <= prev0 < |desc|
      ensures Before(S(), d, prev)
    {
      ghost var st := S();
      ghost var c := chains[k];
      prev := prev0;
      ChainHead(st, k);
      assert d in c;
      if (prev != NULL && desc[prev].next != d) || (prev == NULL && dir[k] != d) {
        prev := dir[k];
        ghost var i: nat := 0;
        while prev != NULL
          invariant i <= |c| && prev == At(c, i) && forall j :: 1 <= j <= i && j < |c| ==> c[j] != d
          decreases |c| - i
        {
          Walk(st, k, i);
          if desc[prev].next == d { break; }
          prev := desc[prev].next;
          i := i + 1;
        }
      }
      PrevIs(st, d, prev);
    }

    /** free_s; false stands for its panic. An object freed with a size it is large enough for is found. */
    method Free(obj: nat, size: nat) returns (ok: bool)
      requires Valid()
      requires obj in live || forall e: nat :: InUse(S(), e) ==> desc[e].page != PageOf(obj)
      modifies this, dir, mem
      ensures Valid()
      ensures ok <==> obj in old(live) && old(live[obj].d) < |old(home)| && size <= Size(old(home)[old(live[obj].d)])
      ensures ok ==> Gives(old(S()), S(), obj)
      ensures !ok ==> S() == old(S())
    {
      ghost var st := S();
      assert Shaped(st);
      hide Size, PerPage, Sound;
      if obj in live { OnItsPage(st, obj); }
      assert obj in live ==> InUse(st, live[obj].d);
      var k, d, prev := FindPage(PageOf(obj), size);
      ok := d != NULL;
      if ok {
        SameDesc(st, obj, d);
        PrevInRange(st, d, prev);
        Finish(obj, k, d, prev);
      }
    }

    /** One call of a client that owns `objs0`. */
    method Do(c: Call, objs0: seq<nat>) returns (ok: bool, objs: seq<nat>)
      requires Valid() && Owns(S(), objs0)
      modifies this, dir, mem
      ensures ok <==> !Panics(old(S()), objs0, c)
      ensures ok ==> Valid() && Owns(S(), objs) && Follows(old(S()), objs0, S(), objs, c)
    {
      hide Inv, Untouched, Supplied, Room, IsBucket, Size;
      InvShaped(S());
      objs, ok := objs0, true;
      match c
      case Get(len) =>
        var r := Alloc(len);
        ok := r != 0;
        if ok {
          objs := objs + [r];
          AppendMembers(objs0, r);
        }
      case Put(i, size) =>
        if i < |objs| {
          assert objs[i] in objs;
          OnItsPage(S(), objs[i]);
          ok := Free(objs[i], size);
          objs := Without(objs, i);
          WithoutMembers(objs0, i);
        }
    }

    /** Any list of calls, up to the first that panics: in every state live objects are disjoint and large enough, counters
        count them, and every page is with the system, full of descriptors, or holds one of them. */
    method Run(calls: seq<Call>, objs0: seq<nat>)
        returns (done: nat, objs: seq<nat>, ghost states: seq<State>, ghost owned: seq<seq<nat>>)
      requires Valid() && Owns(S(), objs0)
      modifies this, dir, mem
      ensures done <= |calls| && |states| == |owned| == done + 1 && states[0] == old(S()) && owned[0] == objs0 && owned[done] == objs
      ensures forall k: nat :: k <= done ==> Inv(states[k]) && Owns(states[k], owned[k])
      ensures forall k: nat :: k < done ==> Shaped(states[k]) && Follows(states[k], owned[k], states[k + 1], owned[k + 1], calls[k])
      ensures if done == |calls| then states[done] == S() else Shaped(states[done]) && Panics(states[done], objs, calls[done])
    {
      hide Inv, Follows, Panics, Owns;
      done, objs, states, owned := 0, objs0, [S()], [objs0];
      while done < |calls|
        invariant done <= |calls| && |states| == |owned| == done + 1 && states[0] == old(S()) && owned[0] == objs0
        invariant owned[done] == objs && states[done] == S() && Valid() && Owns(S(), objs)
        invariant forall k: nat :: k <= done ==> Inv(states[k]) && Owns(states[k], owned[k])
        invariant forall k: nat :: k < done ==> Shaped(states[k]) && Follows(states[k], owned[k], states[k + 1], owned[k + 1], calls[k])
      {
        InvShaped(S());
        var ok, more := Do(calls[done], objs);
        if !ok { return; }
        objs := more;
        states, owned := states + [S()], owned + [objs];
        done := done + 1;
      }
    }

    /** The owner of an object writes anywhere in it. */
    method Write(ghost a: nat, x: nat, v: nat)
      requires Valid() && Covers(S(), a, x)
      modifies mem
      ensures Valid() && x < mem.Length && mem[..] == old(mem[..])[x := v]
    {
      ghost var st := S();
      OwnersMayWrite(st, a, x, v);
      mem[x] := v;
      assert S() == st.(mem := st.mem[x := v]);
    }
  }

  lemma NotTable(st: State, page: nat)
    requires Inv(st) && page in st.avail
    ensures page !in st.tables
  {
  }

  lemma GrownFacts(st: State, k: nat, page: nat, mem: seq<nat>)
    requires Inv(st) && page in st.avail && st.chains[BUCKETS] != [] && k < BUCKETS && Carved(st.mem, mem, page, k)
    ensures var d := st.chains[BUCKETS][0];
      && d < |st.desc| && st.home[d] == BUCKETS &&
      var t := Grown(st, k, page, mem);
      && Sound(t) && InUse(t, d) && t.home[d] == k && t.lists[d] != [] && t.desc[d].page == page && |t.desc| == |st.desc|
      && t.live == st.live && t.avail == st.avail - {page} && t.tables == st.tables
      && (forall e: nat :: e < |st.desc| && e != d ==> Busy(t, e))
      && forall x: nat :: x < |mem| && PageOf(x) !in st.avail ==> mem[x] == st.mem[x]
  {
    GrownOk(st, k, page, mem);
    Exact(k);
    hide Sound, ChainsOk, Size, PerPage;
  }

  lemma GivenFacts(st: State, obj: nat)
    requires Inv(st) && obj in st.live
    ensures Shaped(st) && obj < |st.mem| && InUse(st, st.live[obj].d) && st.desc[st.live[obj].d].refcnt > 0
    ensures var t, d := Given(st, obj), st.live[obj].d;
      && Sound(t) && InUse(t, d) && t.desc[d].page == PageOf(obj) && |t.desc| == |st.desc|
      && forall e: nat :: e < |t.desc| && e != d ==> Busy(t, e)
  {
    GivenOk(st, obj);
    OnItsPage(st, obj);
    hide Sound, ChainsOk;
  }

  lemma OneBucket(len: nat, k: nat)
    requires IsBucket(k, len)
    ensures forall j: nat :: IsBucket(j, len) ==> j == k
  {
    hide Size;
  }

  lemma NotZero(st: State)
    requires Inv(st)
    ensures Shaped(st) && 0 !in st.avail
  {
  }

  /** The first free object of a descriptor that was found, or made with new pages, is what malloc promises. */
  lemma GotFirst(st: State, u: State, k: nat, d: nat, len: nat)
    requires Shaped(st) && Sound(u) && u.live == st.live && InUse(u, d) && u.home[d] == k && u.lists[d] != [] && IsBucket(k, len)
    requires Untouched(st, u.mem) && u.lists[d][0] > 0 && u.lists[d][0] !in u.live
    requires if Room(st, k) then u.avail == st.avail && u.tables == st.tables
             else
               var more := u.tables - st.tables;
               && u.desc[d].page in st.avail && st.tables <= u.tables && more <= st.avail && |more| == Needs(st) - 1
               && u.avail == st.avail - {u.desc[d].page} - more
    ensures Gets(st, Taken(u, d, len), len, u.lists[d][0])
  {
    hide Size, PerPage, ChainsOk;
    assert UseOk(u, d);
    ObjectsOk(u.desc[d].page, k);
    assert u.lists[d][0] in u.lists[d];
  }

  lemma InvShaped(st: State)
    requires Inv(st)
    ensures Shaped(st)
  {
  }

  lemma OnItsPage(st: State, a: nat)
    requires Inv(st) && a in st.live
    ensures LiveOk(st, a) && PageOf(a) == st.desc[st.live[a].d].page
  {
    assert LiveOk(st, a);
    ObjectsOk(st.desc[st.live[a].d].page, st.home[st.live[a].d]);
  }

  lemma SameDesc(st: State, a: nat, d: nat)
    requires Inv(st) && InUse(st, d) && st.desc[d].page == PageOf(a)
    requires a in st.live || forall e: nat :: InUse(st, e) ==> st.desc[e].page != PageOf(a)
    ensures a in st.live && st.live[a].d == d
  {
    if a in st.live { OnItsPage(st, a); }
  }

  lemma PrevInRange(st: State, d: nat, prev: int)
    requires Inv(st) && Before(st, d, prev)
    ensures prev == NULL || 0 <= prev < |st.desc|
  {
    if prev != NULL { assert prev in st.chains[st.home[d]]; }
  }

  lemma Gave(st: State, t: State, obj: nat)
    requires obj in st.live && obj < |st.mem| && t.live == st.live - {obj} && t.tables == st.tables && |t.mem| == |st.mem|
    requires t.mem == st.mem[obj := t.mem[obj]]
    requires t.avail == if exists a: nat :: a in t.live && PageOf(a) == PageOf(obj) then st.avail else st.avail + {PageOf(obj)}
    ensures Gives(st, t, obj)
  {
  }

  lemma SoundShaped(st: State)
    requires Sound(st)
    ensures Shaped(st)
  {
  }

  lemma AllBusy(st: State, t: State, d: nat)
    requires Shaped(t) && Sound(t) && d < |t.desc| && t.desc[d].refcnt > 0
    requires forall e: nat :: e < |t.desc| && e != d ==> Busy(t, e)
    ensures Inv(t)
  {
  }

  lemma FreeptrTells(st: State, d: nat)
    requires Shaped(st) && InUse(st, d) && UseOk(st, d)
    ensures st.desc[d].freeptr == 0 <==> st.lists[d] == []
  {
    ObjectsOk(st.desc[d].page, st.home[d]);
    hide Size, PerPage;
    assert st.lists[d] != [] ==> st.lists[d][0] in st.lists[d];
  }

  lemma CarveStart(mem: seq<nat>, page: nat, k: nat)
    ensures CarvedTo(mem, mem, page, k, 0)
  {
  }

  lemma CarveEnd(mem: seq<nat>, mem': seq<nat>, page: nat, k: nat)
    requires CarvedTo(mem, mem', page, k, PerPage(k))
    ensures Carved(mem, mem', page, k)
  {
    hide Size, PerPage;
  }

  lemma Start(page: nat, k: nat)
    requires PerPage(k) >= 1
    ensures Objects(page, k)[0] == page * PAGE
  {
    assert Size(k) * 0 == 0;
  }

  lemma NextObject(page: nat, k: nat, i: nat)
    requires i + 1 < PerPage(k)
    ensures Objects(page, k)[i + 1] == Objects(page, k)[i] + Size(k)
  {
    hide Size;
    assert Size(k) * (i + 1) == Size(k) * i + Size(k);
  }
}
