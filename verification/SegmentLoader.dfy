/** Mapping an executable's segments and its bss (shiva_ulexec.c). mmap and munmap are updates of a
    memory that gives each address a byte or nothing. */
module SegmentLoader {
  import opened Bytes
  import opened Pages

  const LDSO_BASE: nat := 0x1000000
  const TARGET_BASE: nat := 0x40000000

  datatype Segment = Segment(load: bool, offset: nat, vaddr: nat, filesz: nat, memsz: nat)

  type Memory = nat -> Option<byte>

  /** What a file mapping shows of byte k of the file: zeros to the end of the last page. */
  function FileByte(file: seq<byte>, k: nat): Option<byte> {
    if k < |file| then Some(file[k]) else if k < PageAlign(|file|) then Some(0) else None
  }

  /** mmap of a file at a fixed address; whole pages are mapped. */
  function MapFile(mem: Memory, addr: nat, n: nat, file: seq<byte>, off: nat): Memory {
    (a: nat) => if addr <= a < addr + PageAlign(n) then FileByte(file, off + (a - addr)) else mem(a)
  }

  lemma MapFileAt(mem: Memory, addr: nat, n: nat, file: seq<byte>, off: nat, a: nat)
    ensures addr <= a < addr + PageAlign(n) ==> MapFile(mem, addr, n, file, off)(a) == FileByte(file, off + (a - addr))
    ensures !(addr <= a < addr + PageAlign(n)) ==> MapFile(mem, addr, n, file, off)(a) == mem(a)
  {
  }

  /** memset to zero, and an anonymous mapping. */
  function Clear(mem: Memory, addr: nat, n: nat): Memory {
    (a: nat) => if addr <= a < addr + n then Some(0) else mem(a)
  }

  function Unmap(mem: Memory, addr: nat, n: nat): Memory {
    (a: nat) => if addr <= a < addr + n then None else mem(a)
  }

  // ----- One segment ---------------------------------------------------------------------------

  datatype State = State(mem: Memory, elfBss: nat, lastBss: nat)

  function Max(a: nat, b: nat): nat { if a > b then a else b }

  /** The first segment, of which the interpreter's mapping is made as long as the whole image. The
      rest is given back only if it starts at a page: munmap refuses any other address. */
  function FirstMapped(mem: Memory, file: seq<byte>, base: nat, interp: Option<nat>, p: Segment): Memory {
    match interp
    case None => MapFile(mem, base, p.filesz + PageOffset(p.vaddr), file, 0)
    case Some(total) =>
      var all := MapFile(mem, base, PageAlign(total), file, 0);
      if p.memsz % PAGE == 0 && p.memsz < PageAlign(total)
      then Unmap(all, base + p.memsz, PageAlign(total) - p.memsz)
      else all
  }

  /** One turn of the loop for a PT_LOAD segment. `interp` is the length of the whole image when an
      interpreter is loaded. */
  function LoadOne(s: State, file: seq<byte>, base: nat, interp: Option<nat>, p: Segment): State {
    if p.offset == 0 then s.(mem := FirstMapped(s.mem, file, base, interp, p))
    else
      var addr, skew := PageStart(base + p.vaddr), PageOffset(p.vaddr);
      State(MapFile(s.mem, addr, p.filesz + skew, file, if skew <= p.offset then p.offset - skew else 0),
            Max(s.elfBss, addr + p.filesz + skew), Max(s.lastBss, addr + p.memsz + skew))
  }

  /** The first n segments. */
  function LoadUpTo(s: State, file: seq<byte>, base: nat, interp: Option<nat>, loads: seq<Segment>, n: nat): State
    requires n <= |loads|
  {
    if n == 0 then s else LoadOne(LoadUpTo(s, file, base, interp, loads, n - 1), file, base, interp, loads[n - 1])
  }

  function LoadAll(s: State, file: seq<byte>, base: nat, interp: Option<nat>, loads: seq<Segment>): State {
    LoadUpTo(s, file, base, interp, loads, |loads|)
  }

  /** The bss: the rest of the last data page is cleared, further pages are mapped. */
  function ClearBss(s: State): Memory {
    var cleared := if PageOffset(s.elfBss) > 0 then Clear(s.mem, s.elfBss, PAGE - PageOffset(s.elfBss)) else s.mem;
    var from, to := PageAlign(s.elfBss), PageAlign(s.lastBss);
    if to > from then Clear(cleared, from, to - from) else cleared
  }

  // ----- Well-formed executables ------------------------------------------------------------------

  /** Position-independent: file offset 0 is mapped at address 0, offsets and addresses agree within a
      page, and segments are in order and share no page. */
  ghost predicate Ordered(file: seq<byte>, loads: seq<Segment>) {
    && (forall k :: 0 <= k < |loads| ==> Proper(file, loads[k], k))
    && (forall j, k :: 0 <= j < k < |loads| ==> Before(loads[j], loads[k]))
  }

  predicate Proper(file: seq<byte>, p: Segment, k: nat) {
    && p.offset + p.filesz <= |file| && p.filesz <= p.memsz
    && (k == 0 ==> p.offset == 0 && p.vaddr == 0)
    && (k > 0 ==> p.offset > 0 && p.offset % PAGE == p.vaddr % PAGE)
  }

  predicate Before(p: Segment, q: Segment) { PageAlign(p.vaddr + p.memsz) <= PageStart(q.vaddr) }

  /** The file's bytes are at the segment's addresses up to `end`. */
  ghost predicate Placed(mem: Memory, file: seq<byte>, base: nat, p: Segment, end: nat) {
    forall i: nat :: p.vaddr <= i < end ==> ByteAt(mem, file, base, p, i)
  }

  ghost predicate SameBelow(mem: Memory, after: Memory, limit: nat) {
    forall a: nat :: a < limit ==> after(a) == mem(a)
  }

  ghost predicate SameFrom(mem: Memory, after: Memory, limit: nat) {
    forall a: nat :: limit <= a ==> after(a) == mem(a)
  }

  /** The end of the last page that holds bytes of the segment's file part. */
  function EndOf(p: Segment): nat { PageAlign(p.vaddr + p.filesz) }

  ghost predicate ByteAt(mem: Memory, file: seq<byte>, base: nat, p: Segment, i: nat) {
    p.vaddr <= i && mem(base + i) == FileByte(file, p.offset + (i - p.vaddr))
  }

  lemma PageFacts(base: nat, n: nat)
    requires base % PAGE == 0
    ensures PageStart(base + n) == base + PageStart(n) && PageAlign(base + n) == base + PageAlign(n)
    ensures PageOffset(base + n) == PageOffset(n)
  {
    var b := base / PAGE;
    assert base == PAGE * b;
    assert (PAGE * b + n) / PAGE == b + n / PAGE;
    assert (PAGE * b + (n + PAGE - 1)) / PAGE == b + (n + PAGE - 1) / PAGE;
  }

  /** A later segment is mapped at its place, to the end of its last page, and over nothing of the
      earlier ones. */
  lemma LaterPlaced(s: State, file: seq<byte>, base: nat, interp: Option<nat>, p: Segment, k: nat)
    requires base % PAGE == 0 && k > 0 && Proper(file, p, k)
    ensures Placed(LoadOne(s, file, base, interp, p).mem, file, base, p, EndOf(p))
    ensures SameBelow(s.mem, LoadOne(s, file, base, interp, p).mem, base + PageStart(p.vaddr))
    ensures SameFrom(s.mem, LoadOne(s, file, base, interp, p).mem, base + EndOf(p))
    ensures LoadOne(s, file, base, interp, p).elfBss == Max(s.elfBss, base + p.vaddr + p.filesz)
    ensures LoadOne(s, file, base, interp, p).lastBss == Max(s.lastBss, base + p.vaddr + p.memsz)
  {
    PageFacts(base, p.vaddr);
    SkewFits(p);
    var t := LoadOne(s, file, base, interp, p);
    var skew := PageOffset(p.vaddr);
    PageFacts(p.vaddr - skew, p.filesz + skew);
    assert t.mem == MapFile(s.mem, base + p.vaddr - skew, p.filesz + skew, file, p.offset - skew);
    SkewedPlaced(s.mem, t.mem, file, base, p, skew);
  }

  lemma SkewedPlaced(mem: Memory, after: Memory, file: seq<byte>, base: nat, p: Segment, skew: nat)
    requires skew == PageOffset(p.vaddr) <= p.offset && skew <= p.vaddr && (base + p.vaddr - skew) % PAGE == 0
    requires after == MapFile(mem, base + p.vaddr - skew, p.filesz + skew, file, p.offset - skew)
    requires base + EndOf(p) <= base + p.vaddr - skew + PageAlign(p.filesz + skew)
    ensures Placed(after, file, base, p, EndOf(p))
  {
    forall i: nat | p.vaddr <= i < EndOf(p)
      ensures ByteAt(after, file, base, p, i)
    {
      MapFileAt(mem, base + p.vaddr - skew, p.filesz + skew, file, p.offset - skew, base + i);
      assert p.offset - skew + (base + i - (base + p.vaddr - skew)) == p.offset + (i - p.vaddr);
    }
  }

  lemma SkewFits(p: Segment)
    requires p.offset % PAGE == p.vaddr % PAGE
    ensures PageOffset(p.vaddr) <= p.offset
  {
  }

  lemma AlignMonotone(m: nat, n: nat)
    requires m <= n
    ensures PageAlign(m) <= PageAlign(n) && (n % PAGE == 0 ==> PageAlign(n) == n)
  {
    assert (m + PAGE - 1) / PAGE <= (n + PAGE - 1) / PAGE;
  }

  /** What the first segment's mapping shows at offset v from the base. An interpreter's is as long as
      the whole image, and cut off behind the segment only if that is the end of a page. */
  function Backdrop(mem: Memory, file: seq<byte>, base: nat, interp: Option<nat>, p: Segment, v: nat): Option<byte> {
    match interp
    case None => if v < PageAlign(p.filesz) then FileByte(file, v) else mem(base + v)
    case Some(total) =>
      if PageAlign(total) <= v then mem(base + v)
      else if p.memsz % PAGE == 0 && p.memsz <= v then None
      else FileByte(file, v)
  }

  lemma FirstShows(mem: Memory, file: seq<byte>, base: nat, interp: Option<nat>, p: Segment, v: nat)
    requires p.offset == 0 && p.vaddr % PAGE == 0
    ensures FirstMapped(mem, file, base, interp, p)(base + v) == Backdrop(mem, file, base, interp, p, v)
  {
    if interp.Some? {
      AlignMonotone(0, PageAlign(interp.value));
      MapFileAt(mem, base, PageAlign(interp.value), file, 0, base + v);
    } else {
      MapFileAt(mem, base, p.filesz + PageOffset(p.vaddr), file, 0, base + v);
    }
  }

  /** The first segment is mapped at its place. */
  lemma FirstPlaced(s: State, file: seq<byte>, base: nat, interp: Option<nat>, p: Segment)
    requires Proper(file, p, 0) && (interp.Some? ==> p.memsz <= PageAlign(interp.value))
    ensures Placed(LoadOne(s, file, base, interp, p).mem, file, base, p, EndOf(p))
    ensures LoadOne(s, file, base, interp, p) == s.(mem := FirstMapped(s.mem, file, base, interp, p))
  {
    var t := LoadOne(s, file, base, interp, p);
    AlignMonotone(p.filesz, p.memsz);
    if interp.Some? { AlignMonotone(p.memsz, PageAlign(interp.value)); }
    forall i: nat | p.vaddr <= i < EndOf(p)
      ensures ByteAt(t.mem, file, base, p, i)
    {
      FirstShows(s.mem, file, base, interp, p, i);
    }
  }

  /** An offset-0 segment's file bytes are at its addresses. */
  ghost predicate FirstRight(mem: Memory, file: seq<byte>, base: nat, p: Segment) {
    forall i: nat :: i < p.filesz ==> FirstByteRight(mem, file, base, p, i)
  }

  ghost predicate FirstByteRight(mem: Memory, file: seq<byte>, base: nat, p: Segment, i: nat) {
    FirstMapped(mem, file, base, None, p)(base + (p.vaddr + i)) == FileByte(file, i)
  }

  /** It is put at the base, whatever its address: its bytes are at their addresses, for every file and
      every memory, if and only if its address is 0. */
  lemma FirstAtBase(base: nat, p: Segment)
    requires p.offset == 0 && p.vaddr % PAGE == 0 && p.filesz > 0
    ensures (forall mem: Memory, file: seq<byte> :: p.filesz <= |file| ==> FirstRight(mem, file, base, p)) <==>
            p.vaddr == 0
  {
    if p.vaddr == 0 {
      forall mem: Memory, file: seq<byte> | p.filesz <= |file|
        ensures FirstRight(mem, file, base, p)
      {
        forall i: nat | i < p.filesz
          ensures FirstByteRight(mem, file, base, p, i)
        {
          FirstShows(mem, file, base, None, p, i);
        }
      }
    } else {
      var file: seq<byte> := [1] + seq(p.filesz - 1, _ => 0);
      FirstShows(_ => None, file, base, None, p, p.vaddr);
      assert !FirstByteRight(_ => None, file, base, p, 0);
      assert !FirstRight(_ => None, file, base, p);
    }
  }

  /** A first segment whose address is 4096: its only byte is not there. */
  lemma FirstMisplaced()
    ensures !FirstRight(_ => None, [7], TARGET_BASE, Segment(true, 0, 4096, 1, 1))
  {
    var p := Segment(true, 0, 4096, 1, 1);
    FirstShows(_ => None, [7], TARGET_BASE, None, p, 4096);
    assert !FirstByteRight(_ => None, [7], TARGET_BASE, p, 0);
  }

  // ----- All segments -------------------------------------------------------------------------------

  function Start(mem: Memory): State { State(mem, 0, 0) }

  ghost predicate AllPlaced(mem: Memory, file: seq<byte>, base: nat, loads: seq<Segment>, n: nat)
    requires n <= |loads|
  {
    forall k :: 0 <= k < n ==> Placed(mem, file, base, loads[k], EndOf(loads[k]))
  }

  /** The whole of the image that is mapped for an interpreter covers its first segment. */
  predicate Covers(interp: Option<nat>, loads: seq<Segment>) {
    interp.Some? && loads != [] ==> loads[0].memsz <= PageAlign(interp.value)
  }

  lemma {:induction false} LoadAllPlaced(mem: Memory, file: seq<byte>, base: nat, interp: Option<nat>,
                                         loads: seq<Segment>, n: nat)
    requires Ordered(file, loads) && base % PAGE == 0 && Covers(interp, loads) && n <= |loads|
    ensures AllPlaced(LoadUpTo(Start(mem), file, base, interp, loads, n).mem, file, base, loads, n)
  {
    if n > 0 {
      var s := LoadUpTo(Start(mem), file, base, interp, loads, n - 1);
      LoadAllPlaced(mem, file, base, interp, loads, n - 1);
      if n == 1 {
        FirstAllPlaced(s, file, base, interp, loads);
      } else {
        LaterAllPlaced(s, file, base, interp, loads, n);
      }
    }
  }

  lemma FirstAllPlaced(s: State, file: seq<byte>, base: nat, interp: Option<nat>, loads: seq<Segment>)
    requires Ordered(file, loads) && base % PAGE == 0 && Covers(interp, loads) && loads != []
    ensures AllPlaced(LoadOne(s, file, base, interp, loads[0]).mem, file, base, loads, 1)
  {
    assert Proper(file, loads[0], 0);
    FirstPlaced(s, file, base, interp, loads[0]);
  }

  lemma LaterAllPlaced(s: State, file: seq<byte>, base: nat, interp: Option<nat>, loads: seq<Segment>, n: nat)
    requires Ordered(file, loads) && base % PAGE == 0 && 1 < n <= |loads|
    requires AllPlaced(s.mem, file, base, loads, n - 1)
    ensures AllPlaced(LoadOne(s, file, base, interp, loads[n - 1]).mem, file, base, loads, n)
  {
    assert Proper(file, loads[n - 1], n - 1);
    LaterPlaced(s, file, base, interp, loads[n - 1], n - 1);
    PlacedNext(s.mem, LoadOne(s, file, base, interp, loads[n - 1]).mem, file, base, loads, n);
  }

  lemma PlacedNext(mem: Memory, after: Memory, file: seq<byte>, base: nat, loads: seq<Segment>, n: nat)
    requires Ordered(file, loads) && 1 < n <= |loads| && AllPlaced(mem, file, base, loads, n - 1)
    requires SameBelow(mem, after, base + PageStart(loads[n - 1].vaddr))
    requires Placed(after, file, base, loads[n - 1], EndOf(loads[n - 1]))
    ensures AllPlaced(after, file, base, loads, n)
  {
    forall k | 0 <= k < n - 1
      ensures Placed(after, file, base, loads[k], EndOf(loads[k]))
    {
      assert Proper(file, loads[k], k) && Before(loads[k], loads[n - 1]);
      EndBefore(loads[k], loads[n - 1]);
      KeptPlaced(mem, after, file, base, loads[k], EndOf(loads[k]), PageStart(loads[n - 1].vaddr));
    }
  }

  /** The bss starts where the last segment's file bytes end and ends where its memory does. */
  lemma {:induction false} LoadAllBss(mem: Memory, file: seq<byte>, base: nat, interp: Option<nat>,
                                      loads: seq<Segment>, n: nat)
    requires Ordered(file, loads) && base % PAGE == 0 && Covers(interp, loads) && n <= |loads|
    ensures LoadUpTo(Start(mem), file, base, interp, loads, n).elfBss ==
            if n <= 1 then 0 else base + loads[n - 1].vaddr + loads[n - 1].filesz
    ensures LoadUpTo(Start(mem), file, base, interp, loads, n).lastBss ==
            if n <= 1 then 0 else base + loads[n - 1].vaddr + loads[n - 1].memsz
  {
    if n > 0 {
      var s, last := LoadUpTo(Start(mem), file, base, interp, loads, n - 1), loads[n - 1];
      assert Proper(file, last, n - 1);
      LoadAllBss(mem, file, base, interp, loads, n - 1);
      if n == 1 {
        FirstPlaced(s, file, base, interp, last);
      } else {
        LaterPlaced(s, file, base, interp, last, n - 1);
        assert Before(loads[n - 2], last) && Proper(file, loads[n - 2], n - 2);
        EndBefore(loads[n - 2], last);
      }
    }
  }

  lemma EndBefore(p: Segment, q: Segment)
    requires Before(p, q) && p.filesz <= p.memsz
    ensures EndOf(p) <= PageStart(q.vaddr) && p.vaddr + p.memsz <= PageStart(q.vaddr)
  {
    AlignMonotone(p.vaddr + p.filesz, p.vaddr + p.memsz);
  }

  lemma KeptPlaced(mem: Memory, after: Memory, file: seq<byte>, base: nat, p: Segment, end: nat, limit: nat)
    requires Placed(mem, file, base, p, end) && end <= limit
    requires SameBelow(mem, after, base + limit)
    ensures Placed(after, file, base, p, end)
  {
    forall i: nat | p.vaddr <= i < end
      ensures ByteAt(after, file, base, p, i)
    {
      assert ByteAt(mem, file, base, p, i);
      assert after(base + i) == mem(base + i);
    }
  }

  // ----- The finished image --------------------------------------------------------------------------

  /** Clearing the bss touches nothing below it and leaves zeros up to its end. */
  lemma ClearBssRange(s: State, a: nat)
    ensures a < s.elfBss ==> ClearBss(s)(a) == s.mem(a)
    ensures s.elfBss <= a < s.lastBss ==> ClearBss(s)(a) == Some(0)
  {
    assert PageOffset(s.elfBss) > 0 ==> s.elfBss + (PAGE - PageOffset(s.elfBss)) == PageAlign(s.elfBss);
    assert PageOffset(s.elfBss) == 0 ==> PageAlign(s.elfBss) == s.elfBss;
  }

  function Loaded(mem: Memory, file: seq<byte>, base: nat, interp: Option<nat>, loads: seq<Segment>): Memory {
    ClearBss(LoadAll(Start(mem), file, base, interp, loads))
  }

  /** Nothing is cleared where a segment before the last has its memory, in the last one's file part,
      or in the only one. */
  lemma KeptByBss(mem: Memory, file: seq<byte>, base: nat, interp: Option<nat>, loads: seq<Segment>, k: nat, v: nat)
    requires Ordered(file, loads) && base % PAGE == 0 && Covers(interp, loads) && k < |loads|
    requires v < loads[k].vaddr + (if k == |loads| - 1 && |loads| >= 2 then loads[k].filesz else loads[k].memsz)
    ensures Loaded(mem, file, base, interp, loads)(base + v) ==
            LoadAll(Start(mem), file, base, interp, loads).mem(base + v)
  {
    var s, last := LoadAll(Start(mem), file, base, interp, loads), |loads| - 1;
    LoadAllBss(mem, file, base, interp, loads, |loads|);
    assert Proper(file, loads[k], k);
    if k < last {
      assert Before(loads[k], loads[last]);
      EndBefore(loads[k], loads[last]);
    }
    ClearBssRange(s, base + v);
  }

  /** Every file byte of every segment ends up at its address. */
  lemma FileBytesLoaded(mem: Memory, file: seq<byte>, base: nat, interp: Option<nat>, loads: seq<Segment>, k: nat,
                        i: nat)
    requires Ordered(file, loads) && base % PAGE == 0 && Covers(interp, loads) && k < |loads|
    requires i < loads[k].filesz
    ensures loads[k].offset + i < |file|
    ensures Loaded(mem, file, base, interp, loads)(base + (loads[k].vaddr + i)) == Some(file[loads[k].offset + i])
  {
    assert Proper(file, loads[k], k);
    KeptByBss(mem, file, base, interp, loads, k, loads[k].vaddr + i);
    PlacedAt(mem, file, base, interp, loads, k, loads[k].vaddr + i);
  }

  lemma PlacedAt(mem: Memory, file: seq<byte>, base: nat, interp: Option<nat>, loads: seq<Segment>, k: nat, v: nat)
    requires Ordered(file, loads) && base % PAGE == 0 && Covers(interp, loads) && k < |loads|
    requires loads[k].vaddr <= v < EndOf(loads[k])
    ensures LoadAll(Start(mem), file, base, interp, loads).mem(base + v) ==
            FileByte(file, loads[k].offset + (v - loads[k].vaddr))
  {
    var s := LoadAll(Start(mem), file, base, interp, loads);
    LoadAllPlaced(mem, file, base, interp, loads, |loads|);
    assert Placed(s.mem, file, base, loads[k], EndOf(loads[k]));
    assert ByteAt(s.mem, file, base, loads[k], v);
  }

  // ----- The bss of every segment ---------------------------------------------------------------------

  /** No segment after the first has a page there. */
  ghost predicate Between(loads: seq<Segment>, v: nat) {
    forall k :: 1 <= k < |loads| ==> OffPages(loads[k], v)
  }

  predicate OffPages(p: Segment, v: nat) { v < PageStart(p.vaddr) || EndOf(p) <= v }

  /** Such an address shows what the first segment's mapping shows. */
  lemma {:induction false} BetweenShows(mem: Memory, file: seq<byte>, base: nat, interp: Option<nat>,
                                        loads: seq<Segment>, v: nat, n: nat)
    requires Ordered(file, loads) && base % PAGE == 0 && Covers(interp, loads) && 1 <= n <= |loads| && Between(loads, v)
    ensures LoadUpTo(Start(mem), file, base, interp, loads, n).mem(base + v) ==
            Backdrop(mem, file, base, interp, loads[0], v)
  {
    var s, last := LoadUpTo(Start(mem), file, base, interp, loads, n - 1), loads[n - 1];
    assert Proper(file, last, n - 1);
    if n == 1 {
      FirstPlaced(s, file, base, interp, last);
      FirstShows(mem, file, base, interp, last, v);
    } else {
      BetweenShows(mem, file, base, interp, loads, v, n - 1);
      assert OffPages(last, v);
      LaterShows(s, file, base, interp, last, n - 1, v);
    }
  }

  lemma LaterShows(s: State, file: seq<byte>, base: nat, interp: Option<nat>, p: Segment, k: nat, v: nat)
    requires base % PAGE == 0 && k > 0 && Proper(file, p, k) && OffPages(p, v)
    ensures LoadOne(s, file, base, interp, p).mem(base + v) == s.mem(base + v)
  {
    LaterPlaced(s, file, base, interp, p, k);
  }

  /** Beyond the last file page of a segment there is none of another. */
  lemma BeyondIsBetween(file: seq<byte>, loads: seq<Segment>, k: nat, v: nat)
    requires Ordered(file, loads) && k < |loads| && EndOf(loads[k]) <= v < loads[k].vaddr + loads[k].memsz
    ensures Between(loads, v)
  {
    forall j | 1 <= j < |loads|
      ensures OffPages(loads[j], v)
    {
      assert Proper(file, loads[j], j) && Proper(file, loads[k], k);
      if j < k {
        assert Before(loads[j], loads[k]);
        EndBefore(loads[j], loads[k]);
      } else if k < j {
        assert Before(loads[k], loads[j]);
        EndBefore(loads[k], loads[j]);
      }
    }
  }

  /** When the bss byte at address v of segment k reads zero. */
  predicate BssZero(mem: Memory, file: seq<byte>, base: nat, interp: Option<nat>, loads: seq<Segment>, k: nat, v: nat)
    requires k < |loads| && loads[k].vaddr <= v
  {
    if k == |loads| - 1 && |loads| >= 2 then true
    else if v < EndOf(loads[k]) then FileByte(file, loads[k].offset + (v - loads[k].vaddr)) == Some(0)
    else Backdrop(mem, file, base, interp, loads[0], v) == Some(0)
  }

  /** The bss of every segment: a byte reads zero if and only if the segment is the last of several, or
      the byte is in the last file page and the file has a zero there, or it is beyond that page and
      zero is what the first mapping, or else the memory before, shows. */
  lemma BssExact(mem: Memory, file: seq<byte>, base: nat, interp: Option<nat>, loads: seq<Segment>, k: nat, v: nat)
    requires Ordered(file, loads) && base % PAGE == 0 && Covers(interp, loads) && k < |loads|
    requires loads[k].vaddr + loads[k].filesz <= v < loads[k].vaddr + loads[k].memsz
    ensures Loaded(mem, file, base, interp, loads)(base + v) == Some(0) <==>
            BssZero(mem, file, base, interp, loads, k, v)
  {
    if k == |loads| - 1 && |loads| >= 2 {
      LoadAllBss(mem, file, base, interp, loads, |loads|);
      ClearBssRange(LoadAll(Start(mem), file, base, interp, loads), base + v);
    } else {
      KeptByBss(mem, file, base, interp, loads, k, v);
      if v < EndOf(loads[k]) {
        PlacedAt(mem, file, base, interp, loads, k, v);
      } else {
        BeyondIsBetween(file, loads, k, v);
        BetweenShows(mem, file, base, interp, loads, v, |loads|);
      }
    }
  }

  /** For a program that is not an interpreter, memory beyond the last file page is not touched. */
  lemma BssUntouched(mem: Memory, file: seq<byte>, base: nat, loads: seq<Segment>, k: nat, v: nat)
    requires Ordered(file, loads) && base % PAGE == 0 && k < |loads| && (k < |loads| - 1 || |loads| == 1)
    requires EndOf(loads[k]) <= v < loads[k].vaddr + loads[k].memsz
    ensures Loaded(mem, file, base, None, loads)(base + v) == mem(base + v)
  {
    KeptByBss(mem, file, base, None, loads, k, v);
    BeyondIsBetween(file, loads, k, v);
    BetweenShows(mem, file, base, None, loads, v, |loads|);
    assert Proper(file, loads[0], 0);
    if k > 0 {
      assert Before(loads[0], loads[k]);
      EndBefore(loads[0], loads[k]);
    }
  }

  function Ones(n: nat): seq<byte> { seq(n, _ => 1) }

  /** Three segments, the middle one with a bss: its first byte shows the file, and a byte on its next
      page is not mapped at all. */
  lemma MiddleBssLeft()
    ensures var loads := [Segment(true, 0, 0, 16, 16), Segment(true, 4096, 4096, 16, 5000),
                          Segment(true, 8192, 12288, 16, 32)];
            && Ordered(Ones(12288), loads)
            && Loaded(_ => None, Ones(12288), TARGET_BASE, None, loads)(TARGET_BASE + 4112) != Some(0)
            && Loaded(_ => None, Ones(12288), TARGET_BASE, None, loads)(TARGET_BASE + 8192) == None
  {
    var loads := [Segment(true, 0, 0, 16, 16), Segment(true, 4096, 4096, 16, 5000), Segment(true, 8192, 12288, 16, 32)];
    BssExact(_ => None, Ones(12288), TARGET_BASE, None, loads, 1, 4112);
    BssUntouched(_ => None, Ones(12288), TARGET_BASE, loads, 1, 8192);
  }

  /** A single segment with a bss: the bytes behind its file part show the file. */
  lemma SingleBssLeft()
    ensures var loads := [Segment(true, 0, 0, 16, 32)];
            && Ordered(Ones(32), loads)
            && Loaded(_ => None, Ones(32), TARGET_BASE, None, loads)(TARGET_BASE + 16) != Some(0)
  {
    var loads := [Segment(true, 0, 0, 16, 32)];
    BssExact(_ => None, Ones(32), TARGET_BASE, None, loads, 0, 16);
  }

  // ----- The loader -----------------------------------------------------------------------------------

  /** The PT_LOAD segments among the first n. */
  function LoadsUpTo(phdrs: seq<Segment>, n: nat): seq<Segment>
    requires n <= |phdrs|
  {
    if n == 0 then []
    else if phdrs[n - 1].load then LoadsUpTo(phdrs, n - 1) + [phdrs[n - 1]]
    else LoadsUpTo(phdrs, n - 1)
  }

  function Loads(phdrs: seq<Segment>): seq<Segment> { LoadsUpTo(phdrs, |phdrs|) }

  /** shiva_ulexec_total_segment_len's result, from two segments on. */
  function TotalLen(loads: seq<Segment>): int
    requires |loads| >= 2
  {
    loads[|loads| - 1].vaddr + loads[|loads| - 1].memsz - PageStart(loads[0].vaddr)
  }

  /** It covers the first segment of an executable that is in order. */
  lemma TotalCovers(file: seq<byte>, loads: seq<Segment>)
    requires Ordered(file, loads) && |loads| >= 2
    ensures TotalLen(loads) >= 0 && Covers(Some(TotalLen(loads)), loads)
  {
    var last := |loads| - 1;
    assert Proper(file, loads[0], 0) && Proper(file, loads[last], last) && Before(loads[0], loads[last]);
  }

  /** mmap accepts the file offset; otherwise the program ends. */
  predicate Mappable(p: Segment) {
    if p.offset == 0 then p.vaddr % PAGE == 0 else p.offset % PAGE == p.vaddr % PAGE
  }

  lemma {:induction false} LoadSame(s: State, file: seq<byte>, base: nat, interp: Option<nat>, loads: seq<Segment>,
                                    p: Segment, n: nat)
    requires n <= |loads|
    ensures LoadUpTo(s, file, base, interp, loads + [p], n) == LoadUpTo(s, file, base, interp, loads, n)
  {
    if n > 0 {
      LoadSame(s, file, base, interp, loads, p, n - 1);
      assert (loads + [p])[n - 1] == loads[n - 1];
    }
  }

  lemma LoadAllSnoc(s: State, file: seq<byte>, base: nat, interp: Option<nat>, loads: seq<Segment>, p: Segment)
    ensures LoadAll(s, file, base, interp, loads + [p]) ==
            LoadOne(LoadAll(s, file, base, interp, loads), file, base, interp, p)
  {
    LoadSame(s, file, base, interp, loads, p, |loads|);
  }

  class Process {
    var mem: Memory
    var baseVaddr: nat

    constructor (mem: Memory)
      ensures this.mem == mem && baseVaddr == 0
    {
      this.mem := mem;
      baseVaddr := 0;
    }

    method TotalSegmentLen(phdrs: seq<Segment>) returns (len: int)
      requires |Loads(phdrs)| >= 2
      ensures len == TotalLen(Loads(phdrs))
    {
      var count, i := 0, 0;
      var firstVaddr, lastVaddr, lastMemsz := 0, 0, 0;
      while i < |phdrs|
        invariant i <= |phdrs| && count == |LoadsUpTo(phdrs, i)|
        invariant count >= 1 ==> firstVaddr == LoadsUpTo(phdrs, i)[0].vaddr
        invariant count >= 2 ==> lastVaddr == LoadsUpTo(phdrs, i)[count - 1].vaddr
        invariant count >= 2 ==> lastMemsz == LoadsUpTo(phdrs, i)[count - 1].memsz
      {
        if phdrs[i].load {
          if count == 0 {
            firstVaddr := phdrs[i].vaddr;
          } else {
            lastVaddr, lastMemsz := phdrs[i].vaddr, phdrs[i].memsz;
          }
          count := count + 1;
        }
        i := i + 1;
      }
      return lastVaddr + lastMemsz - PageStart(firstVaddr);
    }

    /** shiva_ulexec_load_elf_binary, up to the entry point and program header addresses. */
    method LoadElfBinary(phdrs: seq<Segment>, file: seq<byte>, interpreter: bool)
      requires forall p :: p in Loads(phdrs) ==> Mappable(p)
      requires interpreter ==> |Loads(phdrs)| >= 2 && TotalLen(Loads(phdrs)) >= 0
      modifies this
      ensures baseVaddr == if interpreter then LDSO_BASE else TARGET_BASE
      ensures mem == Loaded(old(mem), file, baseVaddr,
                            if interpreter then Some(TotalLen(Loads(phdrs))) else None, Loads(phdrs))
    {
      baseVaddr := if interpreter then LDSO_BASE else TARGET_BASE;
      var interp: Option<nat> := None;
      if interpreter {
        var total := TotalSegmentLen(phdrs);
        interp := Some(total);
      }
      ghost var start := Start(mem);
      var elfBss, lastBss, i := 0, 0, 0;
      while i < |phdrs|
        invariant i <= |phdrs| && baseVaddr == if interpreter then LDSO_BASE else TARGET_BASE
        invariant State(mem, elfBss, lastBss) == LoadAll(start, file, baseVaddr, interp, LoadsUpTo(phdrs, i))
      {
        if phdrs[i].load {
          LoadAllSnoc(start, file, baseVaddr, interp, LoadsUpTo(phdrs, i), phdrs[i]);
          elfBss, lastBss := MapSegment(phdrs[i], file, interp, elfBss, lastBss);
        }
        i := i + 1;
      }
      InitBss(elfBss, lastBss);
    }

    /** The body of that loop. */
    method MapSegment(p: Segment, file: seq<byte>, interp: Option<nat>, elfBss0: nat, lastBss0: nat)
      returns (elfBss: nat, lastBss: nat)
      modifies this`mem
      ensures State(mem, elfBss, lastBss) == LoadOne(State(old(mem), elfBss0, lastBss0), file, baseVaddr, interp, p)
    {
      elfBss, lastBss := elfBss0, lastBss0;
      if p.offset == 0 {
        mem := FirstMapped(mem, file, baseVaddr, interp, p);
        return;
      }
      var loadAddr, skew := PageStart(baseVaddr + p.vaddr), PageOffset(p.vaddr);
      mem := MapFile(mem, loadAddr, p.filesz + skew, file, if skew <= p.offset then p.offset - skew else 0);
      var k := loadAddr + p.filesz + skew;
      if k > elfBss {
        elfBss := k;
      }
      k := loadAddr + p.memsz + skew;
      if k > lastBss {
        lastBss := k;
      }
    }

    method InitBss(elfBss: nat, lastBss: nat)
      modifies this`mem
      ensures mem == ClearBss(State(old(mem), elfBss, lastBss))
    {
      var nbyte := PageOffset(elfBss);
      if nbyte > 0 {
        mem := Clear(mem, elfBss, PAGE - nbyte);
      }
      var from, to := PageAlign(elfBss), PageAlign(lastBss);
      if to > from {
        mem := Clear(mem, from, to - from);
      }
    }
  }
}
