/** Patching a traced program's code (shiva_trace.c): shiva_trace_write, trampolines, and what is left
    of the code after any history of installing, restoring and re-installing them. */
module CodePatching {
  import opened Bytes
  import opened Pages
  import opened Modular
  import opened Patching

  // ----- Page protections -------------------------------------------------------------------

  datatype Prot = Prot(read: bool, write: bool, exec: bool)

  datatype MapEntry = MapEntry(base: nat, len: nat, prot: Prot)

  /** shiva_maps_prot_by_addr: the first entry that holds the address. */
  function ProtByAddr(maps: seq<MapEntry>, addr: nat): Option<Prot> {
    if maps == [] then None
    else if maps[0].base <= addr < maps[0].base + maps[0].len then Some(maps[0].prot)
    else ProtByAddr(maps[1..], addr)
  }

  /** The entry holds the address, and none before it does. */
  predicate FirstHolding(maps: seq<MapEntry>, addr: nat, k: nat) {
    && k < |maps| && maps[k].base <= addr < maps[k].base + maps[k].len
    && forall j :: 0 <= j < k ==> !(maps[j].base <= addr < maps[j].base + maps[j].len)
  }

  lemma {:induction false} ProtExact(maps: seq<MapEntry>, addr: nat)
    ensures ProtByAddr(maps, addr).Some? <==> exists k: nat :: FirstHolding(maps, addr, k)
    ensures forall k: nat :: FirstHolding(maps, addr, k) ==> ProtByAddr(maps, addr) == Some(maps[k].prot)
  {
    if maps != [] && maps[0].base <= addr < maps[0].base + maps[0].len {
      assert FirstHolding(maps, addr, 0);
    } else if maps != [] {
      ProtExact(maps[1..], addr);
      forall k: nat
        ensures FirstHolding(maps, addr, k) <==> k > 0 && FirstHolding(maps[1..], addr, k - 1)
      {
        HoldingNext(maps, addr, k);
      }
      if ProtByAddr(maps[1..], addr).Some? {
        var k: nat :| FirstHolding(maps[1..], addr, k);
        assert FirstHolding(maps, addr, k + 1);
      }
    }
  }

  lemma HoldingNext(maps: seq<MapEntry>, addr: nat, k: nat)
    requires maps != [] && !(maps[0].base <= addr < maps[0].base + maps[0].len)
    ensures FirstHolding(maps, addr, k) <==> k > 0 && FirstHolding(maps[1..], addr, k - 1)
  {
    if k > 0 && FirstHolding(maps[1..], addr, k - 1) {
      forall j | 0 <= j < k
        ensures !(maps[j].base <= addr < maps[j].base + maps[j].len)
      {
        if j > 0 { assert maps[j] == maps[1..][j - 1]; }
      }
    }
    if k > 0 && FirstHolding(maps, addr, k) {
      forall j | 0 <= j < k - 1
        ensures !(maps[1..][j].base <= addr < maps[1..][j].base + maps[1..][j].len)
      {
        assert maps[1..][j] == maps[j + 1];
      }
    }
  }

  /** The range that shiva_trace_write changes the protection of: first page and number of pages. */
  function FirstPage(addr: nat): nat { addr / PAGE }

  function PageCount(addr: nat, len: nat): nat {
    PageAlign(len) / PAGE + (if addr + len > FirstPage(addr) * PAGE + PageAlign(len) then 1 else 0)
  }

  predicate InRange(addr: nat, len: nat, page: nat) {
    FirstPage(addr) <= page < FirstPage(addr) + PageCount(addr, len)
  }

  /** Some byte of the page is written. */
  predicate Touched(addr: nat, len: nat, page: nat) {
    len > 0 && page * PAGE < addr + len && addr < page * PAGE + PAGE
  }

  /** The range is exactly the touched pages, except that an empty write to the middle of a page
      counts that page. */
  lemma RangeExact(addr: nat, len: nat, page: nat)
    ensures InRange(addr, len, page) <==>
            Touched(addr, len, page) || (len == 0 && addr % PAGE != 0 && page == FirstPage(addr))
  {
    var from, n := FirstPage(addr), PageAlign(len) / PAGE;
    assert PageAlign(len) == n * PAGE;
    assert from * PAGE <= addr < from * PAGE + PAGE;
    var last := from + PageCount(addr, len);
    if len > 0 {
      assert addr + len <= last * PAGE < addr + len + PAGE;
    }
  }

  /** mprotect over whole pages; it fails if one of them is not mapped. */
  predicate AllMapped(prot: map<nat, Prot>, addr: nat, len: nat) {
    forall p :: FirstPage(addr) <= p < FirstPage(addr) + PageCount(addr, len) ==> p in prot
  }

  function Protect(prot: map<nat, Prot>, addr: nat, len: nat, to: Prot): (r: map<nat, Prot>)
    ensures r.Keys == prot.Keys
    ensures forall p :: p in prot ==> r[p] == if InRange(addr, len, p) then to else prot[p]
  {
    map p | p in prot :: if InRange(addr, len, p) then to else prot[p]
  }

  /** Protections end as they were exactly when every page of the range had the protection recorded
      for the written address. */
  lemma ProtectionsKept(prot: map<nat, Prot>, addr: nat, len: nat, to: Prot)
    ensures Protect(prot, addr, len, to) == prot <==> forall p :: p in prot && InRange(addr, len, p) ==> prot[p] == to
  {
    var r := Protect(prot, addr, len, to);
    if forall p :: p in prot && InRange(addr, len, p) ==> prot[p] == to {
      assert forall p :: p in prot ==> r[p] == prot[p];
    }
  }

  /** Making the range writable first makes no difference to that. */
  lemma ProtectTwice(prot: map<nat, Prot>, addr: nat, len: nat, first: Prot, to: Prot)
    ensures Protect(Protect(prot, addr, len, first), addr, len, to) == Protect(prot, addr, len, to)
  {
    var r, q := Protect(Protect(prot, addr, len, first), addr, len, to), Protect(prot, addr, len, to);
    assert forall p :: p in prot ==> r[p] == q[p];
  }

  const CODE: Prot := Prot(true, false, true)
  const DATA: Prot := Prot(true, true, false)

  /** An empty write at address 1 changes the protection of a page that it does not touch. */
  lemma EmptyWriteCounts()
    ensures InRange(1, 0, 0) && !Touched(1, 0, 0)
    ensures Protect(map[0 := DATA], 1, 0, CODE) != map[0 := DATA]
  {
    RangeExact(1, 0, 0);
    assert Protect(map[0 := DATA], 1, 0, CODE)[0] == CODE;
  }

  /** A write across a code page and a data page makes the data page executable and read-only. */
  lemma CrossingWriteChanges()
    ensures Protect(map[0 := CODE, 1 := DATA], 4090, 12, CODE) == map[0 := CODE, 1 := CODE]
  {
    RangeExact(4090, 12, 0);
    RangeExact(4090, 12, 1);
  }

  // ----- Trampolines ---------------------------------------------------------------------------

  const WINDOW: nat := 12

  /** `movabs $handler, %rax; push %rax; ret`. */
  function Trampoline(handler: nat): (r: seq<byte>)
    ensures |r| == WINDOW
  {
    [0x48, 0xb8] + Bytes8(handler % WORD) + [0x50, 0xc3]
  }

  /** The address it jumps to is the handler's. */
  lemma TrampolineTarget(handler: nat)
    requires handler < WORD
    ensures Trampoline(handler)[2..10] == Bytes8(handler) && Word8(Bytes8(handler)) == handler
  {
    assert handler % WORD == handler;
    Middle([0x48, 0xb8], Bytes8(handler), [0x50, 0xc3]);
    Word8Bytes8(handler);
  }

  lemma Middle(a: seq<byte>, x: seq<byte>, b: seq<byte>)
    ensures (a + x + b)[|a|..|a| + |x|] == x
  {
  }

  // ----- What a trampoline does --------------------------------------------------------------------

  /** The part of the processor that a trampoline uses; the stack is a memory of 64-bit words. */
  datatype Cpu = Cpu(rip: nat, rsp: nat, rax: nat, stack: map<nat, nat>)

  /** One instruction at rip: `48 b8` and eight bytes load rax, `50` pushes it, `c3` pops the next rip. */
  function Execute(code: seq<byte>, cpu: Cpu): Option<Cpu> {
    if cpu.rip + 10 <= |code| && code[cpu.rip] == 0x48 && code[cpu.rip + 1] == 0xb8 then
      Some(cpu.(rax := Value(code[cpu.rip + 2..cpu.rip + 10]), rip := cpu.rip + 10))
    else if cpu.rip < |code| && code[cpu.rip] == 0x50 then
      var rsp := (cpu.rsp - 8) % 0x1_0000_0000_0000_0000;
      Some(cpu.(rsp := rsp, stack := cpu.stack[rsp := cpu.rax], rip := cpu.rip + 1))
    else if cpu.rip < |code| && code[cpu.rip] == 0xc3 && cpu.rsp in cpu.stack then
      Some(cpu.(rip := cpu.stack[cpu.rsp], rsp := (cpu.rsp + 8) % 0x1_0000_0000_0000_0000))
    else None
  }

  /** Three instructions. */
  function ExecuteThree(code: seq<byte>, cpu: Cpu): Option<Cpu> {
    match Execute(code, cpu)
    case None => None
    case Some(second) =>
      match Execute(code, second)
      case None => None
      case Some(third) => Execute(code, third)
  }

  /** Entering the function arrives at the handler, with the stack pointer unchanged. */
  ghost predicate LeadsTo(code: seq<byte>, addr: nat, handler: nat) {
    forall cpu: Cpu {:trigger ExecuteThree(code, cpu)} :: cpu.rip == addr && cpu.rsp < 0x1_0000_0000_0000_0000 ==>
      && ExecuteThree(code, cpu).Some?
      && ExecuteThree(code, cpu).value.rip == handler && ExecuteThree(code, cpu).value.rsp == cpu.rsp
  }

  /** After a trampoline has been written over a function, whoever enters the function arrives at the handler. */
  lemma TrampolineLeads(code: seq<byte>, addr: nat, handler: nat)
    requires Holds(code, Patch(addr, Trampoline(handler))) && handler < WORD
    ensures LeadsTo(code, addr, handler)
  {
    TrampolineHeld(code, addr, handler);
    forall cpu: Cpu | cpu.rip == addr && cpu.rsp < WORD
      ensures ExecuteThree(code, cpu).Some?
      ensures ExecuteThree(code, cpu).value.rip == handler && ExecuteThree(code, cpu).value.rsp == cpu.rsp
    {
      Balanced(cpu.rsp);
    }
  }

  lemma TrampolineHeld(code: seq<byte>, addr: nat, handler: nat)
    requires Holds(code, Patch(addr, Trampoline(handler))) && handler < WORD
    ensures addr + 12 <= |code| && code[addr] == 0x48 && code[addr + 1] == 0xb8
    ensures code[addr + 10] == 0x50 && code[addr + 11] == 0xc3 && Value(code[addr + 2..addr + 10]) == handler
  {
    var t := Trampoline(handler);
    forall i | 0 <= i < 12
      ensures code[addr + i] == t[i]
    {
      HeldByte(code, Patch(addr, t), addr + i);
    }
    TrampolineTarget(handler);
    assert code[addr + 2..addr + 10] == t[2..10];
  }

  lemma Balanced(rsp: nat)
    requires rsp < WORD
    ensures ((rsp - 8) % WORD + 8) % WORD == rsp
  {
    ModAdd(rsp - 8, 8, WORD);
  }

  /** So it is in the code after an installation. */
  lemma InstalledLeads(c: Code, addr: nat, handler: nat)
    requires Possible(c, Install(addr, handler)) && handler < WORD
    ensures LeadsTo(Follow(c, Install(addr, handler)).mem, addr, handler)
  {
    PutHolds(c.mem, Patch(addr, Trampoline(handler)));
    TrampolineLeads(Follow(c, Install(addr, handler)).mem, addr, handler);
  }

  datatype Bp = Bp(addr: nat, saved: seq<byte>, patched: seq<byte>, retaddrs: seq<nat>)

  /** The code, the breakpoints, the protection of each mapped page, and the protections recorded for
      address ranges when the memory map was read. */
  datatype Code = Code(mem: seq<byte>, bps: seq<Bp>, prot: map<nat, Prot>, maps: seq<MapEntry>)

  /** shiva_trace_write succeeds: a protection is recorded for the address, and the range is mapped. */
  predicate Writable(c: Code, addr: nat, len: nat) {
    ProtByAddr(c.maps, addr).Some? && AllMapped(c.prot, addr, len)
  }

  /** shiva_trace_write. */
  function Write(c: Code, p: Patch): Code
    requires Inside(p, |c.mem|) && Writable(c, p.off, |p.bytes|)
  {
    c.(mem := Put(c.mem, p), prot := Protect(c.prot, p.off, |p.bytes|, ProtByAddr(c.maps, p.off).value))
  }

  /** What can happen to the code: a trampoline is installed, or the saved or the new bytes of an earlier
      one are written. */
  datatype Event = Install(addr: nat, handler: nat) | Restore(k: nat) | Again(k: nat)

  /** The event's write. */
  function WriteOf(c: Code, e: Event): Patch
    requires !e.Install? ==> e.k < |c.bps|
  {
    match e
    case Install(addr, handler) => Patch(addr, Trampoline(handler))
    case Restore(k) => Patch(c.bps[k].addr, c.bps[k].saved)
    case Again(k) => Patch(c.bps[k].addr, c.bps[k].patched)
  }

  predicate Possible(c: Code, e: Event) {
    && (!e.Install? ==> e.k < |c.bps|)
    && Inside(WriteOf(c, e), |c.mem|) && Writable(c, WriteOf(c, e).off, |WriteOf(c, e).bytes|)
  }

  function Follow(c: Code, e: Event): Code
    requires Possible(c, e)
  {
    var next := Write(c, WriteOf(c, e));
    if e.Install?
    then next.(bps := c.bps + [Bp(e.addr, c.mem[e.addr..e.addr + WINDOW], Trampoline(e.handler), [])])
    else next
  }

  /** A new window must not overlap an earlier one. */
  predicate Separate(c: Code, e: Event) {
    e.Install? ==> forall k :: 0 <= k < |c.bps| ==> WindowsApart(c.bps[k].addr, e.addr)
  }

  predicate WindowsApart(a: nat, b: nat) { a + WINDOW <= b || b + WINDOW <= a }

  predicate InWindow(bp: Bp, i: int) { bp.addr <= i < bp.addr + WINDOW }

  /** Outside the windows the code is the original; each window holds its original or its new bytes,
      and the saved bytes are the original ones. */
  ghost predicate MemoryOk(orig: seq<byte>, mem: seq<byte>, bps: seq<Bp>) {
    && |mem| == |orig|
    && (forall k :: 0 <= k < |bps| ==> WindowOk(orig, mem, bps[k]))
    && (forall j, k :: 0 <= j < k < |bps| ==> WindowsApart(bps[j].addr, bps[k].addr))
    && (forall i {:trigger Outside(bps, i)} :: 0 <= i < |orig| && Outside(bps, i) ==> mem[i] == orig[i])
  }

  ghost predicate WindowOk(orig: seq<byte>, mem: seq<byte>, bp: Bp) {
    && |bp.patched| == WINDOW && Holds(orig, Patch(bp.addr, bp.saved)) && |bp.saved| == WINDOW
    && (Holds(mem, Patch(bp.addr, bp.saved)) || Holds(mem, Patch(bp.addr, bp.patched)))
  }

  ghost predicate Outside(bps: seq<Bp>, i: int) {
    forall k :: 0 <= k < |bps| ==> !InWindow(bps[k], i)
  }

  /** Besides, every window can be written. */
  ghost predicate Inv(orig: seq<byte>, c: Code) {
    MemoryOk(orig, c.mem, c.bps) && forall k :: 0 <= k < |c.bps| ==> Writable(c, c.bps[k].addr, WINDOW)
  }

  /** Writing one of a window's two versions keeps the memory right. */
  lemma VersionKeeps(orig: seq<byte>, mem: seq<byte>, bps: seq<Bp>, k: nat, bytes: seq<byte>)
    requires MemoryOk(orig, mem, bps) && k < |bps| && (bytes == bps[k].saved || bytes == bps[k].patched)
    ensures Inside(Patch(bps[k].addr, bytes), |mem|) && |bytes| == WINDOW
    ensures MemoryOk(orig, Put(mem, Patch(bps[k].addr, bytes)), bps)
  {
    assert WindowOk(orig, mem, bps[k]);
    var p := Patch(bps[k].addr, bytes);
    var after := Put(mem, p);
    PutHolds(mem, p);
    forall j | 0 <= j < |bps|
      ensures WindowOk(orig, after, bps[j])
    {
      assert WindowOk(orig, mem, bps[j]);
      if j != k {
        OtherVersionKept(mem, p, bps[j]);
      }
    }
    forall i | 0 <= i < |orig| && Outside(bps, i)
      ensures after[i] == orig[i]
    {
      assert !InWindow(bps[k], i);
    }
  }

  lemma OtherVersionKept(mem: seq<byte>, p: Patch, bp: Bp)
    requires Inside(p, |mem|) && |p.bytes| == WINDOW && WindowsApart(p.off, bp.addr)
    requires |bp.saved| == |bp.patched| == WINDOW
    ensures Holds(mem, Patch(bp.addr, bp.saved)) ==> Holds(Put(mem, p), Patch(bp.addr, bp.saved))
    ensures Holds(mem, Patch(bp.addr, bp.patched)) ==> Holds(Put(mem, p), Patch(bp.addr, bp.patched))
  {
    if Holds(mem, Patch(bp.addr, bp.saved)) { HoldsKept(mem, Patch(bp.addr, bp.saved), p); }
    if Holds(mem, Patch(bp.addr, bp.patched)) { HoldsKept(mem, Patch(bp.addr, bp.patched), p); }
  }

  /** So does installing a trampoline in a window of its own. */
  lemma InstallKeeps(orig: seq<byte>, mem: seq<byte>, bps: seq<Bp>, bp: Bp)
    requires MemoryOk(orig, mem, bps) && Inside(Patch(bp.addr, bp.patched), |mem|) && |bp.patched| == WINDOW
    requires bp.saved == mem[bp.addr..bp.addr + WINDOW]
    requires forall k :: 0 <= k < |bps| ==> WindowsApart(bps[k].addr, bp.addr)
    ensures MemoryOk(orig, Put(mem, Patch(bp.addr, bp.patched)), bps + [bp])
  {
    var p := Patch(bp.addr, bp.patched);
    var after, next := Put(mem, p), bps + [bp];
    PutHolds(mem, p);
    forall i | bp.addr <= i < bp.addr + WINDOW
      ensures mem[i] == orig[i]
    {
      assert Outside(bps, i);
    }
    assert orig[bp.addr..bp.addr + WINDOW] == bp.saved;
    forall j | 0 <= j < |next|
      ensures WindowOk(orig, after, next[j])
    {
      if j < |bps| {
        assert WindowOk(orig, mem, bps[j]);
        OtherVersionKept(mem, p, bps[j]);
      }
    }
    forall i | 0 <= i < |orig| && Outside(next, i)
      ensures after[i] == orig[i]
    {
      assert next[|bps|] == bp && !InWindow(bp, i);
      assert forall k :: 0 <= k < |bps| ==> next[k] == bps[k];
      assert Outside(bps, i);
    }
  }

  /** A history in which every window is separate from the earlier ones. */
  predicate Legal(c: Code, es: seq<Event>)
    decreases |es|
  {
    es != [] ==> Possible(c, es[0]) && Separate(c, es[0]) && Legal(Follow(c, es[0]), es[1..])
  }

  function Run(c: Code, es: seq<Event>): Code
    requires Legal(c, es)
    decreases |es|
  {
    if es == [] then c else Run(Follow(c, es[0]), es[1..])
  }

  /** Every history keeps the invariant, whatever is restored or written again in between. */
  lemma {:induction false} HistoryKeeps(orig: seq<byte>, c: Code, es: seq<Event>)
    requires Inv(orig, c) && Legal(c, es)
    ensures Inv(orig, Run(c, es))
    decreases |es|
  {
    if es != [] {
      EventKeeps(orig, c, es[0]);
      HistoryKeeps(orig, Follow(c, es[0]), es[1..]);
    }
  }

  lemma EventKeeps(orig: seq<byte>, c: Code, e: Event)
    requires Inv(orig, c) && Possible(c, e) && Separate(c, e)
    ensures Inv(orig, Follow(c, e))
  {
    match e {
      case Install(addr, handler) =>
        InstallKeeps(orig, c.mem, c.bps, Bp(addr, c.mem[addr..addr + WINDOW], Trampoline(handler), []));
      case Restore(k) => VersionKeeps(orig, c.mem, c.bps, k, c.bps[k].saved);
      case Again(k) => VersionKeeps(orig, c.mem, c.bps, k, c.bps[k].patched);
    }
    WritableKept(c, e);
  }

  /** Writes leave the set of mapped pages alone. */
  lemma WritableKept(c: Code, e: Event)
    requires Possible(c, e)
    ensures Follow(c, e).prot.Keys == c.prot.Keys && Follow(c, e).maps == c.maps
    ensures forall addr, len :: Writable(Follow(c, e), addr, len) <==> Writable(c, addr, len)
  {
    var keys := Follow(c, e).prot.Keys;
    assert keys == c.prot.Keys;
    assert forall p :: p in Follow(c, e).prot <==> p in keys;
    assert forall p :: p in c.prot <==> p in keys;
  }

  lemma HistoryFromStart(c: Code, es: seq<Event>)
    requires c.bps == [] && Legal(c, es)
    ensures Inv(c.mem, Run(c, es))
  {
    HistoryKeeps(c.mem, c, es);
  }

  // ----- Protections over a history ---------------------------------------------------------------

  /** The protection that the last write of a history to touch a page gives to it. */
  function LastSet(c: Code, es: seq<Event>, page: nat): Option<Prot>
    requires Legal(c, es)
    decreases |es|
  {
    if es == [] then None
    else
      var p := WriteOf(c, es[0]);
      match LastSet(Follow(c, es[0]), es[1..], page)
      case Some(prot) => Some(prot)
      case None => if InRange(p.off, |p.bytes|, page) then ProtByAddr(c.maps, p.off) else None
  }

  /** After every history a page has the protection recorded for the last write that touched it. */
  lemma {:induction false} ProtectionsAfter(c: Code, es: seq<Event>, page: nat)
    requires Legal(c, es) && page in c.prot
    ensures Run(c, es).prot.Keys == c.prot.Keys
    ensures page in Run(c, es).prot
    ensures Run(c, es).prot[page] == match LastSet(c, es, page) case Some(prot) => prot case None => c.prot[page]
    decreases |es|
  {
    if es != [] {
      WritableKept(c, es[0]);
      ProtectionsAfter(Follow(c, es[0]), es[1..], page);
    }
  }

  lemma {:induction false} KeysAfter(c: Code, es: seq<Event>)
    requires Legal(c, es)
    ensures Run(c, es).prot.Keys == c.prot.Keys
    decreases |es|
  {
    if es != [] {
      WritableKept(c, es[0]);
      KeysAfter(Follow(c, es[0]), es[1..]);
    }
  }

  /** So after every history protections are as they began if and only if for every touched page the
      last write to touch it was made with the page's own protection recorded. */
  lemma HistoryProtections(c: Code, es: seq<Event>)
    requires Legal(c, es)
    ensures Run(c, es).prot == c.prot <==>
            forall p :: p in c.prot && LastSet(c, es, p).Some? ==> LastSet(c, es, p).value == c.prot[p]
  {
    KeysAfter(c, es);
    forall p | p in c.prot
      ensures p in Run(c, es).prot
      ensures Run(c, es).prot[p] == c.prot[p] <==> (LastSet(c, es, p).Some? ==> LastSet(c, es, p).value == c.prot[p])
    {
      ProtectionsAfter(c, es, p);
    }
    assert forall p :: p in Run(c, es).prot ==> p in Run(c, es).prot.Keys;
  }

  /** Protections are what they were after every single event. */
  ghost predicate AlwaysKept(c: Code, es: seq<Event>)
    requires Legal(c, es)
    decreases |es|
  {
    es != [] ==> Follow(c, es[0]).prot == c.prot && AlwaysKept(Follow(c, es[0]), es[1..])
  }

  /** Every write's range has, in `prot`, the protection recorded for its address. */
  ghost predicate EachRecorded(prot: map<nat, Prot>, c: Code, es: seq<Event>)
    requires Legal(c, es)
    decreases |es|
  {
    es != [] ==>
      && RangeRecorded(prot, c, WriteOf(c, es[0]))
      && EachRecorded(prot, Follow(c, es[0]), es[1..])
  }

  ghost predicate RangeRecorded(prot: map<nat, Prot>, c: Code, w: Patch) {
    forall p :: p in prot && InRange(w.off, |w.bytes|, p) ==> ProtByAddr(c.maps, w.off) == Some(prot[p])
  }

  /** They are if and only if every write's range had the recorded protection to begin with. */
  lemma {:induction false} AlwaysKeptExact(c: Code, es: seq<Event>)
    requires Legal(c, es)
    ensures AlwaysKept(c, es) <==> EachRecorded(c.prot, c, es)
    ensures AlwaysKept(c, es) ==> Run(c, es).prot == c.prot
    decreases |es|
  {
    if es != [] {
      var w, next := WriteOf(c, es[0]), Follow(c, es[0]);
      ProtectionsKept(c.prot, w.off, |w.bytes|, ProtByAddr(c.maps, w.off).value);
      AlwaysKeptExact(next, es[1..]);
    }
  }

  /** At the end alone they can be right although one write was not: a later one can put them right. */
  lemma RepairedLater()
    ensures var c := Code(seq(8192, _ => 0), [], map[0 := CODE, 1 := DATA],
                          [MapEntry(0, 4096, CODE), MapEntry(4096, 4096, DATA)]);
            var es := [Install(4090, 1), Install(5000, 1)];
            Legal(c, es) && Run(c, es).prot == c.prot && !EachRecorded(c.prot, c, es)
  {
    var c := Code(seq(8192, _ => 0), [], map[0 := CODE, 1 := DATA],
                  [MapEntry(0, 4096, CODE), MapEntry(4096, 4096, DATA)]);
    var e, f := Install(4090, 1), Install(5000, 1);
    assert c.maps[1..][0] == MapEntry(4096, 4096, DATA);
    assert ProtByAddr(c.maps, 4090) == Some(CODE) && ProtByAddr(c.maps, 5000) == Some(DATA);
    forall p: nat
      ensures InRange(4090, 12, p) <==> p <= 1
      ensures InRange(5000, 12, p) <==> p == 1
    {
      RangeExact(4090, 12, p);
      RangeExact(5000, 12, p);
    }
    var d := Follow(c, e);
    assert d.prot == map[0 := CODE, 1 := CODE];
    assert Possible(d, f) && Separate(d, f);
    assert Follow(d, f).prot == c.prot;
    assert [e, f][1..] == [f] && [f][1..] == [];
    assert !RangeRecorded(c.prot, c, WriteOf(c, e)) by {
      assert InRange(4090, 12, 1) && c.prot[1] == DATA;
    }
  }

  // ----- Taking everything back ------------------------------------------------------------------

  /** Restoring breakpoints k, k + 1, .. up to the n-th. */
  function Restores(k: nat, n: nat): seq<Event>
    decreases n - k
  {
    if k >= n then [] else [Restore(k)] + Restores(k + 1, n)
  }

  ghost predicate FirstRestored(c: Code, n: nat) {
    n <= |c.bps| && forall k :: 0 <= k < n ==> Holds(c.mem, Patch(c.bps[k].addr, c.bps[k].saved))
  }

  lemma AllSaved(orig: seq<byte>, c: Code)
    requires Inv(orig, c) && FirstRestored(c, |c.bps|)
    ensures c.mem == orig
  {
    forall i | 0 <= i < |orig|
      ensures c.mem[i] == orig[i]
    {
      if !Outside(c.bps, i) {
        var k :| 0 <= k < |c.bps| && InWindow(c.bps[k], i);
        assert WindowOk(orig, c.mem, c.bps[k]);
        SameWindow(orig, c.mem, Patch(c.bps[k].addr, c.bps[k].saved), i);
      }
    }
  }

  lemma RestoreNext(orig: seq<byte>, c: Code, k: nat)
    requires Inv(orig, c) && k < |c.bps| && FirstRestored(c, k)
    ensures Possible(c, Restore(k)) && Inv(orig, Follow(c, Restore(k))) && FirstRestored(Follow(c, Restore(k)), k + 1)
  {
    VersionKeeps(orig, c.mem, c.bps, k, c.bps[k].saved);
    EventKeeps(orig, c, Restore(k));
    var p := Patch(c.bps[k].addr, c.bps[k].saved);
    PutHolds(c.mem, p);
    assert WindowOk(orig, c.mem, c.bps[k]);
    forall j | 0 <= j < k
      ensures Holds(Put(c.mem, p), Patch(c.bps[j].addr, c.bps[j].saved))
    {
      assert WindowOk(orig, c.mem, c.bps[j]);
      HoldsKept(c.mem, Patch(c.bps[j].addr, c.bps[j].saved), p);
    }
  }

  /** Restoring breakpoints k, k + 1, .. gives back the memory. */
  ghost predicate RestoresTo(c: Code, k: nat, mem: seq<byte>) {
    Legal(c, Restores(k, |c.bps|)) && Run(c, Restores(k, |c.bps|)).mem == mem
  }

  lemma {:induction false} RestoresFrom(orig: seq<byte>, c: Code, k: nat)
    requires Inv(orig, c) && FirstRestored(c, k)
    ensures RestoresTo(c, k, orig)
    decreases |c.bps| - k
  {
    if k == |c.bps| {
      AllSaved(orig, c);
    } else {
      RestoreNext(orig, c, k);
      RestoresFrom(orig, Follow(c, Restore(k)), k + 1);
      assert Restores(k, |c.bps|)[1..] == Restores(k + 1, |c.bps|);
    }
  }

  /** After any such history, restoring every breakpoint gives back the original code. */
  lemma RestoreAll(c: Code, es: seq<Event>)
    requires c.bps == [] && Legal(c, es)
    ensures RestoresTo(Run(c, es), 0, c.mem)
  {
    HistoryFromStart(c, es);
    RestoresFrom(c.mem, Run(c, es), 0);
  }

  lemma SameWindow(a: seq<byte>, b: seq<byte>, p: Patch, i: nat)
    requires Holds(a, p) && Holds(b, p) && Covers(p, i)
    ensures a[i] == b[i]
  {
    assert a[i] == a[p.off..p.off + |p.bytes|][i - p.off];
    assert b[i] == b[p.off..p.off + |p.bytes|][i - p.off];
  }

  // ----- The tracer ------------------------------------------------------------------------------

  datatype BranchSite = BranchSite(isCall: bool, target: nat, retaddr: nat)

  /** The return addresses of the recorded calls to a function. */
  function Returns(sites: seq<BranchSite>, base: nat, addr: nat): seq<nat> {
    if sites == [] then []
    else
      var s := sites[|sites| - 1];
      Returns(sites[..|sites| - 1], base, addr) +
        (if s.isCall && (s.target + base) % WORD == addr then [(s.retaddr + base) % WORD] else [])
  }

  /** They are, in order, the 64-bit sums of base and return address for the calls whose target is the function. */
  lemma {:induction false} ReturnsExact(sites: seq<BranchSite>, base: nat, addr: nat)
    ensures Returns([], base, addr) == []
    ensures sites != [] ==>
              var s := sites[0];
              Returns(sites, base, addr) ==
              (if s.isCall && (s.target + base) % 0x1_0000_0000_0000_0000 == addr
               then [(s.retaddr + base) % 0x1_0000_0000_0000_0000] else []) + Returns(sites[1..], base, addr)
  {
    if |sites| > 1 {
      var front := sites[..|sites| - 1];
      ReturnsExact(front, base, addr);
      assert sites[1..][..|sites| - 2] == front[1..];
    }
  }

  datatype Handler = Handler(fn: nat, trampoline: bool, bps: seq<Bp>)

  /** How often a function is registered among the first n handlers. */
  function MatchesUpTo(handlers: seq<Handler>, fn: nat, n: nat): nat
    requires n <= |handlers|
  {
    if n == 0 then 0 else MatchesUpTo(handlers, fn, n - 1) + (if handlers[n - 1].fn == fn then 1 else 0)
  }

  function Matches(handlers: seq<Handler>, fn: nat): nat { MatchesUpTo(handlers, fn, |handlers|) }

  /** The code after n installations on one address. */
  function Installs(c: Code, addr: nat, fn: nat, n: nat): (r: Code)
    requires addr + WINDOW <= |c.mem| && Writable(c, addr, WINDOW)
    ensures |r.mem| == |c.mem| && r.maps == c.maps && r.prot.Keys == c.prot.Keys
  {
    if n == 0 then c
    else
      var before := Installs(c, addr, fn, n - 1);
      SameKeys(c, before, addr, WINDOW);
      Follow(before, Install(addr, fn))
  }

  lemma SameKeys(c: Code, d: Code, addr: nat, len: nat)
    requires d.maps == c.maps && d.prot.Keys == c.prot.Keys
    ensures Writable(d, addr, len) <==> Writable(c, addr, len)
  {
    assert forall p :: p in d.prot <==> p in d.prot.Keys;
    assert forall p :: p in c.prot <==> p in c.prot.Keys;
  }

  /** Only the first of them saves the original window; the others save the trampoline. */
  ghost predicate Installed(c: Code, addr: nat, fn: nat, n: nat, d: Code)
    requires addr + WINDOW <= |c.mem|
  {
    && |d.bps| == |c.bps| + n && |d.mem| == |c.mem|
    && d.mem == (if n == 0 then c.mem else Put(c.mem, Patch(addr, Trampoline(fn))))
    && forall j :: 0 <= j < n ==> SavedAt(c, addr, fn, d, j)
  }

  ghost predicate SavedAt(c: Code, addr: nat, fn: nat, d: Code, j: nat)
    requires addr + WINDOW <= |c.mem|
  {
    && |c.bps| + j < |d.bps| && d.bps[|c.bps| + j].addr == addr
    && d.bps[|c.bps| + j].saved == if j == 0 then c.mem[addr..addr + WINDOW] else Trampoline(fn)
  }

  lemma {:induction false} InstallsSave(c: Code, addr: nat, fn: nat, n: nat)
    requires addr + WINDOW <= |c.mem| && Writable(c, addr, WINDOW)
    ensures Installed(c, addr, fn, n, Installs(c, addr, fn, n))
  {
    if n > 0 {
      InstallsSave(c, addr, fn, n - 1);
      var before, d := Installs(c, addr, fn, n - 1), Installs(c, addr, fn, n);
      var p := Patch(addr, Trampoline(fn));
      PutHolds(c.mem, p);
      PutOver(c.mem, p, p);
      forall j | 0 <= j < n
        ensures SavedAt(c, addr, fn, d, j)
      {
        assert j < n - 1 ==> SavedAt(c, addr, fn, before, j);
      }
    }
  }

  /** However often it is installed, the function leads to the handler. */
  lemma InstallsLead(c: Code, addr: nat, fn: nat, n: nat)
    requires addr + WINDOW <= |c.mem| && Writable(c, addr, WINDOW) && n > 0
    ensures fn < WORD ==> LeadsTo(Installs(c, addr, fn, n).mem, addr, fn)
  {
    InstallsSave(c, addr, fn, n);
    PutHolds(c.mem, Patch(addr, Trampoline(fn)));
    if fn < WORD { TrampolineLeads(Installs(c, addr, fn, n).mem, addr, fn); }
  }

  /** A store over the same place replaces the one before. */
  lemma PutOver(mem: seq<byte>, p: Patch, q: Patch)
    requires Inside(p, |mem|) && p.off == q.off && |p.bytes| == |q.bytes|
    ensures Put(Put(mem, p), q) == Put(mem, q)
  {
  }

  lemma PutSame(mem: seq<byte>, p: Patch)
    requires Inside(p, |mem|)
    ensures Put(mem, p) == mem <==> Holds(mem, p)
  {
    if Holds(mem, p) {
      forall i | 0 <= i < |mem|
        ensures Put(mem, p)[i] == mem[i]
      {
        if Covers(p, i) { HeldByte(mem, p, i); }
      }
    } else if Put(mem, p) == mem {
      PutHolds(mem, p);
    }
  }

  /** Breakpoints k .. are all on one address and can be written. */
  ghost predicate OneAddress(c: Code, addr: nat, k: nat) {
    && k <= |c.bps| && addr + WINDOW <= |c.mem| && Writable(c, addr, WINDOW)
    && forall j :: k <= j < |c.bps| ==> c.bps[j].addr == addr && |c.bps[j].saved| == WINDOW
  }

  /** Restoring them in order leaves what the last one saved. */
  lemma {:induction false} RestoresLast(c: Code, addr: nat, k: nat, base: seq<byte>, w: seq<byte>)
    requires OneAddress(c, addr, k) && |w| == WINDOW && |base| == |c.mem| && c.mem == Put(base, Patch(addr, w))
    ensures RestoresTo(c, k, Put(base, Patch(addr, if k == |c.bps| then w else c.bps[|c.bps| - 1].saved)))
    decreases |c.bps| - k
  {
    if k < |c.bps| {
      RestoreOver(c, addr, k, base, w);
      RestoresLast(Follow(c, Restore(k)), addr, k + 1, base, c.bps[k].saved);
      assert Restores(k, |c.bps|)[1..] == Restores(k + 1, |c.bps|);
    }
  }

  lemma RestoreOver(c: Code, addr: nat, k: nat, base: seq<byte>, w: seq<byte>)
    requires OneAddress(c, addr, k) && |w| == WINDOW && |base| == |c.mem| && c.mem == Put(base, Patch(addr, w))
    requires k < |c.bps|
    ensures Possible(c, Restore(k)) && Separate(c, Restore(k)) && Follow(c, Restore(k)).bps == c.bps
    ensures OneAddress(Follow(c, Restore(k)), addr, k + 1)
    ensures Follow(c, Restore(k)).mem == Put(base, Patch(addr, c.bps[k].saved))
  {
    PutOver(base, Patch(addr, w), Patch(addr, c.bps[k].saved));
    WritableKept(c, Restore(k));
  }

  /** Restoring n installations on one address in order gives back the code if and only if there was at
      most one of them, or the trampoline was there before. */
  lemma RestoreInstalls(c: Code, addr: nat, fn: nat, n: nat)
    requires addr + WINDOW <= |c.mem| && Writable(c, addr, WINDOW)
    ensures Legal(Installs(c, addr, fn, n), Restores(|c.bps|, |Installs(c, addr, fn, n).bps|))
    ensures RestoresTo(Installs(c, addr, fn, n), |c.bps|, c.mem) <==>
            n <= 1 || c.mem[addr..addr + WINDOW] == Trampoline(fn)
  {
    var d, window := Installs(c, addr, fn, n), c.mem[addr..addr + WINDOW];
    InstallsSave(c, addr, fn, n);
    PutSame(c.mem, Patch(addr, window));
    if n > 0 {
      SameKeys(c, d, addr, WINDOW);
      forall j | |c.bps| <= j < |d.bps|
        ensures d.bps[j].addr == addr && |d.bps[j].saved| == WINDOW
      {
        assert SavedAt(c, addr, fn, d, j - |c.bps|);
      }
      RestoresLast(d, addr, |c.bps|, c.mem, Trampoline(fn));
      assert SavedAt(c, addr, fn, d, n - 1);
      PutSame(c.mem, Patch(addr, Trampoline(fn)));
    }
  }

  /** Restoring breakpoints n - 1, n - 2, .. down to k. */
  function RestoresBack(k: nat, n: nat): seq<Event> {
    if k >= n then [] else [Restore(n - 1)] + RestoresBack(k, n - 1)
  }

  /** Restoring them in the opposite order always does. */
  lemma RestoreInstallsBack(c: Code, addr: nat, fn: nat, n: nat)
    requires addr + WINDOW <= |c.mem| && Writable(c, addr, WINDOW)
    ensures var d := Installs(c, addr, fn, n);
            Legal(d, RestoresBack(|c.bps|, |d.bps|)) && Run(d, RestoresBack(|c.bps|, |d.bps|)).mem == c.mem
  {
    var d := Installs(c, addr, fn, n);
    InstallsSave(c, addr, fn, n);
    SameKeys(c, d, addr, WINDOW);
    if n > 0 {
      forall j | |c.bps| <= j < |d.bps|
        ensures d.bps[j].addr == addr && |d.bps[j].saved| == WINDOW
      {
        assert SavedAt(c, addr, fn, d, j - |c.bps|);
      }
      RestoresFirst(d, addr, |c.bps|, |d.bps|, c.mem, Trampoline(fn));
      assert SavedAt(c, addr, fn, d, 0);
      PutSame(c.mem, Patch(addr, c.mem[addr..addr + WINDOW]));
    }
  }

  lemma {:induction false} RestoresFirst(c: Code, addr: nat, k: nat, n: nat, base: seq<byte>, w: seq<byte>)
    requires OneAddress(c, addr, k) && k <= n <= |c.bps|
    requires |w| == WINDOW && |base| == |c.mem| && c.mem == Put(base, Patch(addr, w))
    ensures Legal(c, RestoresBack(k, n))
    ensures Run(c, RestoresBack(k, n)).mem == Put(base, Patch(addr, if k == n then w else c.bps[k].saved))
    decreases n - k
  {
    if k < n {
      var saved := c.bps[n - 1].saved;
      var next := Follow(c, Restore(n - 1));
      PutOver(base, Patch(addr, w), Patch(addr, saved));
      WritableKept(c, Restore(n - 1));
      RestoresFirst(next, addr, k, n - 1, base, saved);
      assert RestoresBack(k, n)[1..] == RestoresBack(k, n - 1);
    }
  }

  /** A handler that is registered twice: restoring both breakpoints leaves the trampoline. */
  lemma RegisteredTwice()
    ensures var c := Code(seq(12, _ => 0), [], map[0 := CODE], [MapEntry(0, 4096, CODE)]);
            Writable(c, 0, WINDOW) && !RestoresTo(Installs(c, 0, 1, 2), 0, c.mem)
  {
    var c := Code(seq(12, _ => 0), [], map[0 := CODE], [MapEntry(0, 4096, CODE)]);
    forall p: nat
      ensures InRange(0, WINDOW, p) <==> p == 0
    {
      RangeExact(0, WINDOW, p);
    }
    RestoreInstalls(c, 0, 1, 2);
    assert Trampoline(1)[0] == 0x48 && c.mem[0..WINDOW][0] == 0;
  }

  /** A breakpoint without its return addresses. */
  function Bare(bp: Bp): Bp { bp.(retaddrs := []) }

  class Tracer {
    const maps: seq<MapEntry>
    const sites: seq<BranchSite>
    const base: nat
    const mem: array<byte>
    var prot: map<nat, Prot>
    var handlers: seq<Handler>
    ghost var log: seq<Bp>

    constructor (maps: seq<MapEntry>, sites: seq<BranchSite>, base: nat, mem: array<byte>, prot: map<nat, Prot>)
      ensures this.maps == maps && this.sites == sites && this.base == base && this.mem == mem && this.prot == prot
      ensures handlers == [] && log == []
    {
      this.maps, this.sites, this.base, this.mem, this.prot := maps, sites, base, mem, prot;
      handlers, log := [], [];
    }

    /** The code and all breakpoints in the order of their installation. */
    ghost function View(): Code
      reads this, mem
    {
      Code(mem[..], log, prot, maps)
    }

    method TraceWrite(dst: nat, src: seq<byte>) returns (ok: bool)
      requires Inside(Patch(dst, src), mem.Length)
      modifies mem, this`prot
      ensures ok == old(Writable(View(), dst, |src|))
      ensures View() == if ok then Write(old(View()), Patch(dst, src)) else old(View())
    {
      var oprot := ProtByAddr(maps, dst);
      if oprot.None? || !AllMapped(prot, dst, |src|) {
        return false;
      }
      ProtectTwice(prot, dst, |src|, oprot.value.(write := true), oprot.value);
      prot := Protect(prot, dst, |src|, oprot.value.(write := true));
      Store(mem, Patch(dst, src));
      prot := Protect(prot, dst, |src|, oprot.value);
      return true;
    }

    method RegisterHandler(fn: nat, trampoline: bool)
      modifies this`handlers
      ensures handlers == old(handlers) + [Handler(fn, trampoline, [])]
    {
      handlers := handlers + [Handler(fn, trampoline, [])];
    }

    /** The trampoline case for one handler of the list. */
    method InstallTrampoline(h: nat, addr: nat) returns (ok: bool)
      requires h < |handlers| && addr + WINDOW <= mem.Length
      modifies mem, this`prot, this`handlers, this`log
      ensures ok == old(Writable(View(), addr, WINDOW))
      ensures !ok ==> View() == old(View()) && handlers == old(handlers)
      ensures ok ==> View() == Follow(old(View()), Install(addr, old(handlers[h].fn)))
      ensures ok && old(handlers[h].fn) < WORD ==> LeadsTo(mem[..], addr, old(handlers[h].fn))
      ensures ok ==> |handlers| == |old(handlers)|
      ensures ok ==> forall j :: 0 <= j < |handlers| && j != h ==> handlers[j] == old(handlers[j])
      ensures ok ==> handlers[h].fn == old(handlers[h].fn) && |handlers[h].bps| == |old(handlers[h].bps)| + 1
      ensures ok ==> Bare(handlers[h].bps[|old(handlers[h].bps)|]) == log[|old(log)|]
      ensures ok ==> handlers[h].bps[|old(handlers[h].bps)|].retaddrs == Returns(sites, base, addr)
    {
      ghost var before := View();
      var tramp := Trampoline(handlers[h].fn);
      var saved := mem[addr..addr + WINDOW];
      ok := TraceWrite(addr, tramp);
      if !ok {
        return;
      }
      var retaddrs := CollectReturns(addr);
      var bp := Bp(addr, saved, tramp, retaddrs);
      handlers := handlers[h := handlers[h].(bps := handlers[h].bps + [bp])];
      log := log + [Bare(bp)];
      if old(handlers[h].fn) < WORD {
        InstalledLeads(before, addr, old(handlers[h].fn));
      }
    }

    /** shiva_trace_write with the saved or the new bytes of a breakpoint. */
    method WriteVersion(k: nat, again: bool, addr: nat, bytes: seq<byte>) returns (ok: bool)
      requires k < |log| && addr == log[k].addr && bytes == (if again then log[k].patched else log[k].saved)
      requires Inside(Patch(addr, bytes), mem.Length)
      modifies mem, this`prot
      ensures ok == old(Writable(View(), addr, |bytes|))
      ensures !ok ==> View() == old(View())
      ensures ok ==> View() == Follow(old(View()), if again then Again(k) else Restore(k))
    {
      ok := TraceWrite(addr, bytes);
    }

    /** shiva_trace_set_breakpoint when the function's handlers are trampolines: one installation per
        registration, so a function registered twice is installed twice. */
    method SetBreakpoint(fn: nat, addr: nat) returns (ok: bool)
      requires addr + WINDOW <= mem.Length
      requires forall h :: 0 <= h < |handlers| && handlers[h].fn == fn ==> handlers[h].trampoline
      modifies mem, this`prot, this`handlers, this`log
      ensures ok == (Matches(old(handlers), fn) > 0 && old(Writable(View(), addr, WINDOW)))
      ensures !ok ==> View() == old(View())
      ensures ok ==> View() == Installs(old(View()), addr, fn, Matches(old(handlers), fn))
      ensures ok ==> (RestoresTo(View(), |old(log)|, old(mem[..])) <==>
                      Matches(old(handlers), fn) <= 1 || old(mem[addr..addr + WINDOW]) == Trampoline(fn))
      ensures ok && fn < WORD ==> LeadsTo(mem[..], addr, fn)
    {
      ghost var start, n := View(), Matches(handlers, fn);
      ok := InstallEach(fn, addr);
      if ok {
        RestoreInstalls(start, addr, fn, n);
        InstallsLead(start, addr, fn, n);
      }
    }

    /** Its loop over the handlers. */
    method InstallEach(fn: nat, addr: nat) returns (ok: bool)
      requires addr + WINDOW <= mem.Length
      modifies mem, this`prot, this`handlers, this`log
      ensures ok == (Matches(old(handlers), fn) > 0 && old(Writable(View(), addr, WINDOW)))
      ensures !ok ==> View() == old(View())
      ensures ok ==> View() == Installs(old(View()), addr, fn, Matches(old(handlers), fn))
    {
      ghost var start, all := View(), handlers;
      ok := false;
      var i := 0;
      while i < |handlers|
        invariant i <= |handlers| == |all|
        invariant forall h :: 0 <= h < |handlers| ==> handlers[h].fn == all[h].fn
        invariant ok == (MatchesUpTo(all, fn, i) > 0)
        invariant !ok ==> View() == start
        invariant ok ==> Writable(start, addr, WINDOW)
        invariant ok ==> View() == Installs(start, addr, fn, MatchesUpTo(all, fn, i))
        decreases |all| - i
      {
        if handlers[i].fn == fn {
          SameKeys(start, View(), addr, WINDOW);
          var res := InstallTrampoline(i, addr);
          if !res {
            return false;
          }
          ok := true;
        }
        i := i + 1;
      }
    }

    method CollectReturns(addr: nat) returns (r: seq<nat>)
      ensures r == Returns(sites, base, addr)
    {
      r := [];
      var i := 0;
      while i < |sites|
        invariant i <= |sites| && r == Returns(sites[..i], base, addr)
      {
        assert sites[..i + 1][..i] == sites[..i];
        if sites[i].isCall && (sites[i].target + base) % WORD == addr {
          r := r + [(sites[i].retaddr + base) % WORD];
        }
        i := i + 1;
      }
      assert sites[..i] == sites;
    }
  }
}
