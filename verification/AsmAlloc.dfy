/** The first-fit memory manager (alloc.s): regions with in-band headers between heap_begin and current_break. */
module AsmAlloc {

  const HEADER_SIZE := 8
  const HDR_AVAIL_OFFSET := 0
  const HDR_SIZE_OFFSET := 4
  const UNAVAILABLE := 0
  const AVAILABLE := 1
  const WORD: int := 0x1_0000_0000

  type Byte = b: int | 0 <= b < 256

  type Memory = int -> Byte

  // ----- words -----

  /** movl from memory: four bytes, the lowest first. */
  function Load(mem: Memory, a: int): (w: int)
    ensures 0 <= w < WORD
  {
    mem(a) + 0x100 * (mem(a + 1) + 0x100 * (mem(a + 2) + 0x100 * mem(a + 3)))
  }

  function Store(mem: Memory, a: int, w: int): Memory
    requires 0 <= w < WORD
  {
    var b0, b1, b2, b3 := w % 0x100, w / 0x100 % 0x100, w / 0x1_0000 % 0x100, w / 0x100_0000;
    (x: int) =>
      if x == a then b0 else if x == a + 1 then b1 else if x == a + 2 then b2 else if x == a + 3 then b3 else mem(x)
  }

  lemma StoreLoad(mem: Memory, a: int, w: int)
    requires 0 <= w < WORD
    ensures Load(Store(mem, a, w), a) == w
    ensures forall x :: x < a || x >= a + 4 ==> Store(mem, a, w)(x) == mem(x)
  {
    assert w / 0x100 / 0x100 == w / 0x1_0000 && w / 0x1_0000 / 0x100 == w / 0x100_0000;
  }

  /** addl and incl. */
  function Add(a: int, b: int): (r: int)
    ensures 0 <= r < WORD
    ensures 0 <= a + b < WORD ==> r == a + b
  {
    (a + b) % WORD
  }

  /** The end of the address space is the system's: no break is ever there. */
  const LIMIT: int := WORD - HEADER_SIZE

  /** Whether the brk system call moves the break there; `granted` is what it answers about any place that is not the
      system's. */
  predicate Brk(newBreak: int, granted: bool) {
    granted && newBreak < LIMIT
  }

  /** The signed reading of a word, as jle takes it. */
  function Signed(w: int): int {
    if w >= WORD / 2 then w - WORD else w
  }

  // ----- regions -----

  datatype Region = Region(addr: int, size: nat, free: bool)
  {
    function End(): int { addr + HEADER_SIZE + size }
  }

  /** The header of the region is in memory. */
  ghost predicate Headed(mem: Memory, r: Region) {
    && Load(mem, r.addr + HDR_AVAIL_OFFSET) == (if r.free then AVAILABLE else UNAVAILABLE)
    && Load(mem, r.addr + HDR_SIZE_OFFSET) == r.size < WORD
  }

  /** The regions follow one another from `from` to `to` without gap or overlap. */
  ghost predicate Tiles(rs: seq<Region>, from: int, to: int) {
    if rs == [] then from == to
    else rs[0].addr == from && Tiles(rs[1..], rs[0].End(), to)
  }

  ghost predicate AllHeaded(mem: Memory, rs: seq<Region>) {
    forall i :: 0 <= i < |rs| ==> Headed(mem, rs[i])
  }

  lemma {:induction false} TilesAt(rs: seq<Region>, from: int, to: int, i: nat)
    requires Tiles(rs, from, to) && i <= |rs|
    ensures from <= to
    ensures i < |rs| ==> from <= rs[i].addr && rs[i].End() <= to
    ensures Tiles(rs[i..], if i < |rs| then rs[i].addr else to, to)
    decreases |rs|
  {
    if rs != [] {
      TilesAt(rs[1..], rs[0].End(), to, if i > 0 then i - 1 else 0);
      if i > 0 {
        assert rs[1..][i - 1..] == rs[i..];
      } else {
        assert rs[0..] == rs;
      }
    } else {
      assert rs[i..] == [];
    }
  }

  lemma TilesNone(a: int)
    ensures Tiles([], a, a)
  {
  }

  lemma {:induction false} TilesEnd(rs: seq<Region>, from: int, to: int)
    requires Tiles(rs, from, to)
    ensures rs != [] ==> rs[0].addr == from && rs[|rs| - 1].End() == to
    ensures rs == [] ==> from == to
    decreases |rs|
  {
    if rs != [] {
      TilesEnd(rs[1..], rs[0].End(), to);
    }
  }

  /** Where a region ends the next one begins. */
  lemma TilesNext(rs: seq<Region>, from: int, to: int, i: nat)
    requires Tiles(rs, from, to) && i < |rs|
    ensures rs[i].End() == if i + 1 < |rs| then rs[i + 1].addr else to
  {
    TilesAt(rs, from, to, i);
    assert rs[i..][0] == rs[i];
    TilesAt(rs[i..], rs[i].addr, to, 1);
    TilesEnd(rs[i..][1..], rs[i].End(), to);
  }

  /** Regions do not overlap. */
  lemma {:induction false} Disjoint(rs: seq<Region>, from: int, to: int, i: nat, j: nat)
    requires Tiles(rs, from, to) && i < j < |rs|
    ensures rs[i].End() <= rs[j].addr
    decreases |rs|
  {
    if i == 0 {
      TilesAt(rs[1..], rs[0].End(), to, j - 1);
    } else {
      Disjoint(rs[1..], rs[0].End(), to, i - 1, j - 1);
    }
  }

  /** Regions end in one place. */
  lemma TilesNot(rs: seq<Region>, from: int, to: int, to2: int)
    requires Tiles(rs, from, to) && to != to2 && rs != []
    ensures !Tiles(rs, from, to2)
  {
    TilesEnd(rs, from, to);
    if Tiles(rs, from, to2) {
      TilesEnd(rs, from, to2);
    }
  }

  lemma Wrapped(a: int, b: int)
    requires 0 <= a < WORD && 0 <= b < WORD && a + b >= WORD
    ensures Add(a, b) == a + b - WORD
  {
  }

  lemma {:induction false} TilesMore(rs: seq<Region>, from: int, to: int, r: Region)
    requires Tiles(rs, from, to) && r.addr == to
    ensures Tiles(rs + [r], from, r.End())
    decreases |rs|
  {
    if rs != [] {
      assert (rs + [r])[1..] == rs[1..] + [r];
      TilesMore(rs[1..], rs[0].End(), to, r);
    } else {
      assert (rs + [r])[1..] == [];
    }
  }

  lemma {:induction false} TilesMarked(rs: seq<Region>, from: int, to: int, i: nat, free: bool)
    requires Tiles(rs, from, to) && i < |rs|
    ensures Tiles(rs[i := rs[i].(free := free)], from, to)
    decreases |rs|
  {
    var rs2 := rs[i := rs[i].(free := free)];
    if i == 0 {
      assert rs2[1..] == rs[1..];
    } else {
      assert rs2[1..] == rs[1..][i - 1 := rs[1..][i - 1].(free := free)];
      TilesMarked(rs[1..], rs[0].End(), to, i - 1, free);
    }
  }

  /** A header is what its bytes say. */
  lemma HeadedSame(mem: Memory, mem2: Memory, r: Region)
    requires Headed(mem, r) && forall x :: r.addr <= x < r.addr + HEADER_SIZE ==> mem2(x) == mem(x)
    ensures Headed(mem2, r)
  {
  }

  lemma HeaderRead(mem: Memory, rs: seq<Region>, i: nat)
    requires AllHeaded(mem, rs) && i < |rs|
    ensures Load(mem, rs[i].addr + HDR_AVAIL_OFFSET) == (if rs[i].free then AVAILABLE else UNAVAILABLE)
    ensures Load(mem, rs[i].addr + HDR_SIZE_OFFSET) == rs[i].size < WORD
  {
    assert Headed(mem, rs[i]);
  }

  lemma NoneHeaded(mem: Memory)
    ensures AllHeaded(mem, [])
  {
  }

  lemma HeadedMarked(mem: Memory, r: Region, free: bool)
    requires Headed(mem, r)
    ensures Headed(Store(mem, r.addr + HDR_AVAIL_OFFSET, if free then AVAILABLE else UNAVAILABLE), r.(free := free))
  {
    StoreLoad(mem, r.addr + HDR_AVAIL_OFFSET, if free then AVAILABLE else UNAVAILABLE);
  }

  lemma HeadedNew(mem: Memory, r: Region)
    requires !r.free && r.size < WORD
    ensures var mem2 := Store(Store(mem, r.addr + HDR_AVAIL_OFFSET, UNAVAILABLE), r.addr + HDR_SIZE_OFFSET, r.size);
            Headed(mem2, r) && forall x :: x < r.addr || x >= r.addr + HEADER_SIZE ==> mem2(x) == mem(x)
  {
    StoreLoad(mem, r.addr + HDR_AVAIL_OFFSET, UNAVAILABLE);
    StoreLoad(Store(mem, r.addr + HDR_AVAIL_OFFSET, UNAVAILABLE), r.addr + HDR_SIZE_OFFSET, r.size);
  }

  /** Marking one region changes no other header, nor any byte outside its own. */
  lemma {:induction false} MarkHeaded(mem: Memory, rs: seq<Region>, from: int, to: int, i: nat, free: bool)
    requires Tiles(rs, from, to) && AllHeaded(mem, rs) && i < |rs|
    ensures var rs2 := rs[i := rs[i].(free := free)];
            && Tiles(rs2, from, to)
            && AllHeaded(Store(mem, rs[i].addr + HDR_AVAIL_OFFSET, if free then AVAILABLE else UNAVAILABLE), rs2)
  {
    var mem2 := Store(mem, rs[i].addr + HDR_AVAIL_OFFSET, if free then AVAILABLE else UNAVAILABLE);
    StoreLoad(mem, rs[i].addr + HDR_AVAIL_OFFSET, if free then AVAILABLE else UNAVAILABLE);
    TilesMarked(rs, from, to, i, free);
    HeadedMarked(mem, rs[i], free);
    hide Headed, Store;
    var rs2 := rs[i := rs[i].(free := free)];
    forall j | 0 <= j < |rs2|
      ensures Headed(mem2, rs2[j])
    {
      if j < i {
        Disjoint(rs, from, to, j, i);
        HeadedSame(mem, mem2, rs[j]);
      } else if j > i {
        Disjoint(rs, from, to, i, j);
        HeadedSame(mem, mem2, rs[j]);
      }
    }
  }

  /** A header written at the break makes one more region there. */
  lemma {:induction false} NewHeaded(mem: Memory, rs: seq<Region>, from: int, to: int, size: nat)
    requires Tiles(rs, from, to) && AllHeaded(mem, rs) && size < WORD
    ensures var rs2 := rs + [Region(to, size, false)];
            var mem2 := Store(Store(mem, to + HDR_AVAIL_OFFSET, UNAVAILABLE), to + HDR_SIZE_OFFSET, size);
            Tiles(rs2, from, to + HEADER_SIZE + size) && AllHeaded(mem2, rs2)
            && forall x :: x < to || x >= to + HEADER_SIZE ==> mem2(x) == mem(x)
  {
    hide Tiles, Headed, Store;
    var r := Region(to, size, false);
    var mem2 := Store(Store(mem, to + HDR_AVAIL_OFFSET, UNAVAILABLE), to + HDR_SIZE_OFFSET, size);
    HeadedNew(mem, r);
    TilesMore(rs, from, to, r);
    OneMoreHeaded(mem, mem2, rs, from, to, r);
  }

  lemma OneMoreHeaded(mem: Memory, mem2: Memory, rs: seq<Region>, from: int, to: int, r: Region)
    requires Tiles(rs, from, to) && AllHeaded(mem, rs) && Headed(mem2, r)
    requires forall x :: x < to ==> mem2(x) == mem(x)
    ensures AllHeaded(mem2, rs + [r])
  {
    hide Headed, Tiles;
    forall j | 0 <= j < |rs|
      ensures Headed(mem2, rs[j])
    {
      TilesAt(rs, from, to, j);
      HeadedSame(mem, mem2, rs[j]);
    }
  }

  // ----- the choice -----

  /** The scan takes sizes for signed numbers. */
  predicate Fits(r: Region, size: int) {
    r.free && Signed(size) <= Signed(r.size)
  }

  /** The lowest free region that fits, or the number of regions when there is none. */
  function FirstFit(rs: seq<Region>, size: int): (i: nat)
    ensures i <= |rs|
    ensures i < |rs| ==> Fits(rs[i], size)
    ensures forall j :: 0 <= j < i ==> !Fits(rs[j], size)
  {
    if rs == [] || Fits(rs[0], size) then 0 else 1 + FirstFit(rs[1..], size)
  }

  lemma FitsRead(r: Region, size: int)
    ensures Fits(r, size) <==> r.free && Signed(size) <= Signed(r.size)
  {
  }

  lemma FirstFitIs(rs: seq<Region>, size: int, i: nat)
    requires i <= |rs| && (i < |rs| ==> Fits(rs[i], size))
    requires forall j :: 0 <= j < i ==> !Fits(rs[j], size)
    ensures FirstFit(rs, size) == i
  {
  }

  /** The signed comparison finds a free region large enough exactly if it is, or exactly if both sizes are on the same
      side of 2^31. */
  lemma FitsExactly(r: Region, size: int)
    requires 0 <= size < WORD && r.size < WORD && r.free
    ensures (Fits(r, size) <==> size <= r.size) <==> (size < WORD / 2 <==> r.size < WORD / 2)
  {
  }

  /** A region that fits is large enough if and only if less than 2^31 is requested or it is itself not smaller. */
  lemma EnoughExactly(rs: seq<Region>, size: int)
    requires 0 <= size < WORD && forall r <- rs :: r.size < WORD
    ensures var i := FirstFit(rs, size);
            i < |rs| ==> (size <= rs[i].size <==> size < WORD / 2 || rs[i].size >= WORD / 2)
  {
    var i := FirstFit(rs, size);
    assert i < |rs| ==> rs[i] in rs;
  }

  /** Whatever the heap, a request gets no less than it asks for: that holds for the requests below 2^31 and no
      others. */
  lemma AlwaysEnough(size: int)
    requires 0 <= size < WORD
    ensures size < WORD / 2 <==>
            forall rs: seq<Region> | (forall r <- rs :: r.size < WORD) && FirstFit(rs, size) < |rs| ::
              size <= rs[FirstFit(rs, size)].size
  {
    if size < WORD / 2 {
      forall rs: seq<Region> | (forall r <- rs :: r.size < WORD) && FirstFit(rs, size) < |rs|
        ensures size <= rs[FirstFit(rs, size)].size
      {
        EnoughExactly(rs, size);
      }
    } else {
      var rs := [Region(0, 0, true)];
      assert Fits(rs[0], size);
      assert FirstFit(rs, size) == 0 && size > rs[0].size;
    }
  }

  // ----- the bytes of a block -----

  predicate InBlock(r: Region, x: int) {
    r.addr + HEADER_SIZE <= x < r.End()
  }

  /** No byte of a block is in a header. */
  lemma HeaderApart(rs: seq<Region>, from: int, to: int, i: nat, j: nat, x: int)
    requires Tiles(rs, from, to) && i < |rs| && j < |rs| && InBlock(rs[j], x)
    ensures !(rs[i].addr <= x < rs[i].addr + HEADER_SIZE)
  {
    if i < j {
      Disjoint(rs, from, to, i, j);
    } else if j < i {
      Disjoint(rs, from, to, j, i);
    }
  }

  /** What is written to a block leaves all headers as they are. */
  lemma WriteHeaded(mem: Memory, mem2: Memory, rs: seq<Region>, from: int, to: int, j: nat, x: int)
    requires Tiles(rs, from, to) && AllHeaded(mem, rs) && j < |rs| && InBlock(rs[j], x)
    requires forall y :: y != x ==> mem2(y) == mem(y)
    ensures AllHeaded(mem2, rs)
  {
    hide Headed, Tiles;
    forall i | 0 <= i < |rs|
      ensures Headed(mem2, rs[i])
    {
      HeaderApart(rs, from, to, i, j, x);
      HeadedSame(mem, mem2, rs[i]);
    }
  }

  /** A change confined to the header at `addr`, which is that of a region or of a new one at the break, is in no
      block. */
  lemma BlocksKept(mem: Memory, mem2: Memory, rs: seq<Region>, from: int, to: int, addr: int)
    requires Tiles(rs, from, to)
    requires addr == to || exists i :: 0 <= i < |rs| && rs[i].addr == addr
    requires forall x :: !(addr <= x < addr + HEADER_SIZE) ==> mem2(x) == mem(x)
    ensures SameBlocks(mem, mem2, rs)
  {
    hide Tiles;
    forall j, x | 0 <= j < |rs| && InBlock(rs[j], x)
      ensures mem2(x) == mem(x)
    {
      TilesAt(rs, from, to, j);
      if addr != to {
        var i :| 0 <= i < |rs| && rs[i].addr == addr;
        HeaderApart(rs, from, to, i, j, x);
      }
    }
  }

  /** Every byte of every block is the same. */
  ghost predicate SameBlocks(mem: Memory, mem2: Memory, rs: seq<Region>) {
    forall j, x :: 0 <= j < |rs| && InBlock(rs[j], x) ==> mem2(x) == mem(x)
  }

  class Allocator {
    var mem: Memory
    var heapBegin: int
    var currentBreak: int
    var initialized: bool
    ghost var regions: seq<Region>

    ghost predicate Valid()
      reads this
    {
      if initialized then
        && 0 <= heapBegin && currentBreak < LIMIT
        && Tiles(regions, heapBegin, currentBreak) && AllHeaded(mem, regions)
      else regions == []
    }

    constructor (mem: Memory)
      ensures Valid() && !initialized && heapBegin == currentBreak == 0 && regions == [] && this.mem == mem
    {
      this.mem := mem;
      heapBegin, currentBreak, initialized, regions := 0, 0, false, [];
    }

    /** `lastValid` is what the brk system call answers to 0. */
    method AllocateInit(lastValid: int)
      requires regions == [] && 0 <= lastValid < LIMIT - 1
      modifies this`heapBegin, this`currentBreak
      ensures heapBegin == currentBreak == lastValid + 1
    {
      currentBreak := Add(lastValid, 1);
      heapBegin := currentBreak;
    }

    /** The block returned is that of the lowest free region that fits; otherwise a new region at the break, if the
        brk system call moves it; otherwise 0. Nothing but the block's header changes, and so no byte of a block. All is
        well afterwards exactly if the new break has not wrapped around. */
    method Allocate(size: int, lastValid: int, granted: bool) returns (eax: int)
      requires Valid() && 0 <= size < WORD && 0 <= lastValid < LIMIT - 1
      modifies this
      ensures initialized
      ensures if old(initialized) then heapBegin == old(heapBegin) else heapBegin == lastValid + 1
      ensures var fit := FirstFit(old(regions), size);
              var top := if old(initialized) then old(currentBreak) else lastValid + 1;
              var newBreak := Add(top + HEADER_SIZE, size);
              && (Valid() <==> fit < |old(regions)| || !Brk(newBreak, granted) || top + HEADER_SIZE + size < WORD)
              && if fit < |old(regions)| then
                   && eax == old(regions)[fit].addr + HEADER_SIZE && currentBreak == top
                   && regions == old(regions)[fit := old(regions)[fit].(free := false)]
                 else if Brk(newBreak, granted) then
                   && eax == top + HEADER_SIZE && currentBreak == newBreak
                   && regions == old(regions) + [Region(top, size, false)]
                 else eax == 0 && currentBreak == top && regions == old(regions) && mem == old(mem)
      ensures forall x :: !(eax - HEADER_SIZE <= x < eax) ==> mem(x) == old(mem)(x)
      ensures SameBlocks(old(mem), mem, old(regions))
    {
      hide Tiles, Store, Load, SameBlocks, Signed, Add, AllHeaded, Headed, FirstFit, Fits;
      NoneHeaded(mem);
      if !initialized {
        initialized := true;
        AllocateInit(lastValid);
        TilesNone(heapBegin);
      }
      TilesEnd(regions, heapBegin, currentBreak);
      var ecx := size;
      eax := heapBegin;
      var ebx := currentBreak;
      ghost var i := 0;
      while eax != ebx
        invariant Valid() && initialized && mem == old(mem) && regions == old(regions)
        invariant heapBegin == (if old(initialized) then old(heapBegin) else lastValid + 1)
        invariant ebx == currentBreak == (if old(initialized) then old(currentBreak) else lastValid + 1)
        invariant 0 <= i <= |regions|
        invariant eax == if i < |regions| then regions[i].addr else ebx
        invariant forall j :: 0 <= j < i ==> !Fits(regions[j], size)
        decreases |regions| - i
      {
        TilesAt(regions, heapBegin, ebx, i);
        TilesNext(regions, heapBegin, ebx, i);
        HeaderRead(mem, regions, i);
        FitsRead(regions[i], size);
        var edx := Load(mem, eax + HDR_SIZE_OFFSET);
        if Load(mem, eax + HDR_AVAIL_OFFSET) != UNAVAILABLE {
          if Signed(ecx) <= Signed(edx) {
            FirstFitIs(regions, size, i);
            eax := AllocateHere(eax, i);
            return;
          }
        }
        eax := Add(eax, HEADER_SIZE);
        eax := Add(eax, edx);
        i := i + 1;
      }
      TilesAt(regions, heapBegin, ebx, i);
      assert i == |regions|;
      FirstFitIs(regions, size, i);
      eax := MoveBreak(ebx, ecx, granted);
    }

    /** allocate_here: the region at the address is taken. */
    method AllocateHere(addr: int, ghost i: nat) returns (eax: int)
      requires Valid() && initialized && i < |regions| && addr == regions[i].addr
      modifies this`mem, this`regions
      ensures Valid() && eax == addr + HEADER_SIZE && regions == old(regions)[i := old(regions)[i].(free := false)]
      ensures forall x :: !(addr <= x < eax) ==> mem(x) == old(mem)(x)
      ensures SameBlocks(old(mem), mem, old(regions))
    {
      hide Tiles, Store, SameBlocks, Add, AllHeaded;
      TilesAt(regions, heapBegin, currentBreak, i);
      MarkHeaded(mem, regions, heapBegin, currentBreak, i, false);
      StoreLoad(mem, addr + HDR_AVAIL_OFFSET, UNAVAILABLE);
      BlocksKept(mem, Store(mem, addr + HDR_AVAIL_OFFSET, UNAVAILABLE), regions, heapBegin, currentBreak, addr);
      mem := Store(mem, addr + HDR_AVAIL_OFFSET, UNAVAILABLE);
      regions := regions[i := regions[i].(free := false)];
      eax := Add(addr, HEADER_SIZE);
    }

    /** move_break: a new region at the break, if the brk system call moves it. */
    method MoveBreak(ebx: int, ecx: int, granted: bool) returns (eax: int)
      requires Valid() && initialized && ebx == currentBreak && 0 <= ecx < WORD
      modifies this`mem, this`regions, this`currentBreak
      ensures var newBreak := Add(ebx + HEADER_SIZE, ecx);
              && (Valid() <==> !Brk(newBreak, granted) || ebx + HEADER_SIZE + ecx < WORD)
              && if Brk(newBreak, granted) then
                   && eax == ebx + HEADER_SIZE && currentBreak == newBreak
                   && regions == old(regions) + [Region(ebx, ecx, false)]
                 else eax == 0 && currentBreak == ebx && regions == old(regions) && mem == old(mem)
      ensures forall x :: !(eax - HEADER_SIZE <= x < eax) ==> mem(x) == old(mem)(x)
      ensures SameBlocks(old(mem), mem, old(regions))
    {
      hide Tiles, Store, Load, SameBlocks, Add;
      TilesAt(regions, heapBegin, ebx, |regions|);
      eax := ebx;
      var newBreak := Add(ebx, HEADER_SIZE);
      newBreak := Add(newBreak, ecx);
      if !Brk(newBreak, granted) {
        NoneChanged(mem, regions);
        return 0;
      }
      NewHeaded(mem, regions, heapBegin, ebx, ecx);
      BlocksKept(mem, Store(Store(mem, eax + HDR_AVAIL_OFFSET, UNAVAILABLE), eax + HDR_SIZE_OFFSET, ecx), regions,
                 heapBegin, ebx, ebx);
      mem := Store(mem, eax + HDR_AVAIL_OFFSET, UNAVAILABLE);
      mem := Store(mem, eax + HDR_SIZE_OFFSET, ecx);
      regions := regions + [Region(ebx, ecx, false)];
      eax := Add(eax, HEADER_SIZE);
      currentBreak := newBreak;
      if eax + ecx >= WORD {
        Wrapped(eax, ecx);
        TilesNot(regions, heapBegin, eax + ecx, currentBreak);
      }
    }

    /** Gives the region whose block is at the address back, and changes nothing else. */
    method Deallocate(addr: int, ghost i: nat)
      requires Valid() && i < |regions| && addr == regions[i].addr + HEADER_SIZE
      modifies this`mem, this`regions
      ensures Valid() && regions == old(regions)[i := old(regions)[i].(free := true)]
      ensures forall x :: !(addr - HEADER_SIZE <= x < addr) ==> mem(x) == old(mem)(x)
      ensures SameBlocks(old(mem), mem, old(regions))
    {
      hide Tiles, SameBlocks;
      var eax := addr - HEADER_SIZE;
      MarkHeaded(mem, regions, heapBegin, currentBreak, i, true);
      StoreLoad(mem, eax + HDR_AVAIL_OFFSET, AVAILABLE);
      BlocksKept(mem, Store(mem, eax + HDR_AVAIL_OFFSET, AVAILABLE), regions, heapBegin, currentBreak, eax);
      mem := Store(mem, eax + HDR_AVAIL_OFFSET, AVAILABLE);
      regions := regions[i := regions[i].(free := true)];
    }

    /** The header of a region is the 8 bytes in front of its block: a word that is 1 if it is free and 0 if not,
        and a word with its size. */
    lemma HeaderWords(i: nat)
      requires Valid() && i < |regions|
      ensures regions[i].End() == regions[i].addr + 8 + regions[i].size
      ensures Load(mem, regions[i].addr) == if regions[i].free then 1 else 0
      ensures Load(mem, regions[i].addr + 4) == regions[i].size < 0x1_0000_0000
    {
      HeaderRead(mem, regions, i);
    }

    /** A program that has been given a block writes to it. */
    method Write(j: nat, x: int, v: Byte)
      requires Valid() && j < |regions| && 8 <= x - regions[j].addr < 8 + regions[j].size
      modifies this`mem
      ensures Valid() && mem(x) == v && forall y :: y != x ==> mem(y) == old(mem)(y)
    {
      ghost var before := mem;
      mem := var was := mem; (y: int) => if y == x then v else was(y);
      WriteHeaded(before, mem, regions, heapBegin, currentBreak, j, x);
    }
  }

  lemma NoneChanged(mem: Memory, rs: seq<Region>)
    ensures SameBlocks(mem, mem, rs)
  {
  }

  /** After a block of 8 bytes has been given back, a request for 2^31 bytes gets that block. */
  method GrantedTooLittle(mem: Memory, lastValid: int) returns (a: Allocator, eax: int)
    requires 0 <= lastValid && lastValid + 1 + HEADER_SIZE + 8 < LIMIT
    ensures fresh(a) && a.Valid() && a.regions == [Region(lastValid + 1, 8, false)]
    ensures eax == lastValid + 1 + HEADER_SIZE
  {
    hide Tiles, Headed, Add;
    a := new Allocator(mem);
    eax := a.Allocate(8, lastValid, true);
    assert a.regions == [Region(lastValid + 1, 8, false)];
    a.Deallocate(eax, 0);
    assert a.regions == [Region(lastValid + 1, 8, true)];
    assert Fits(a.regions[0], 0x8000_0000);
    eax := a.Allocate(0x8000_0000, lastValid, true);
  }

  /** A first request for 2^32 - 8 bytes gets a block, and the break stays where it was. */
  method GrantedNothing(mem: Memory, lastValid: int) returns (a: Allocator, eax: int)
    requires 0 <= lastValid < LIMIT - 1
    ensures fresh(a) && !a.Valid() && eax == lastValid + 1 + HEADER_SIZE
    ensures a.currentBreak == a.heapBegin == lastValid + 1
  {
    hide Tiles, Headed, Add;
    a := new Allocator(mem);
    Wrapped(lastValid + 1 + HEADER_SIZE, WORD - HEADER_SIZE);
    eax := a.Allocate(WORD - HEADER_SIZE, lastValid, true);
  }
}
