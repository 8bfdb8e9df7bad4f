/** The process-entry stack that the userland exec rebuilds (shiva_ulexec.c, shiva_auxv.c): its layout,
    as in section 3.4.1 of the System V AMD64 psABI, and what a program finds on it. */
module UserStack {
  import opened Bytes
  import opened Modular
  import opened Patching

  const STACK_SIZE: nat := 4096 * 1000
  const AUXV_COUNT: nat := 19
  const ERRONEOUS_AUXV_COUNT: nat := 4096

  // ----- Strings laid end to end ------------------------------------------------------------

  predicate NulFree(ss: seq<seq<byte>>) {
    forall i :: 0 <= i < |ss| ==> 0 !in ss[i]
  }

  /** Each of the first n strings with its terminator. */
  function FlatUpTo(ss: seq<seq<byte>>, n: nat): seq<byte>
    requires n <= |ss|
  {
    if n == 0 then [] else FlatUpTo(ss, n - 1) + (ss[n - 1] + [0])
  }

  function Flat(ss: seq<seq<byte>>): seq<byte> { FlatUpTo(ss, |ss|) }

  /** The C string at the start of a memory. */
  function CString(mem: seq<byte>): (r: seq<byte>)
    ensures r <= mem && 0 !in r && (|r| < |mem| ==> mem[|r|] == 0)
  {
    if mem == [] || mem[0] == 0 then [] else [mem[0]] + CString(mem[1..])
  }

  /** It is the only NUL-free prefix that ends at a NUL. */
  lemma {:induction false} CStringIs(mem: seq<byte>, s: seq<byte>)
    requires s + [0] <= mem && 0 !in s
    ensures CString(mem) == s
  {
    assert mem[|s|] == (s + [0])[|s|];
    if s != [] {
      assert mem[0] == (s + [0])[0] == s[0];
      assert (s + [0])[1..] == s[1..] + [0];
      CStringIs(mem[1..], s[1..]);
    }
  }

  /** The string comes right behind `front`. */
  predicate Comes(data: seq<byte>, front: seq<byte>, s: seq<byte>) { front + (s + [0]) <= data }

  /** So does string i, behind those before it. */
  lemma FlatAt(ss: seq<seq<byte>>, i: nat)
    requires i < |ss|
    ensures Comes(Flat(ss), FlatUpTo(ss, i), ss[i])
  {
    FlatAtUpTo(ss, i, |ss|);
  }

  lemma {:induction false} FlatAtUpTo(ss: seq<seq<byte>>, i: nat, n: nat)
    requires i < n <= |ss|
    ensures Comes(FlatUpTo(ss, n), FlatUpTo(ss, i), ss[i])
  {
    if i < n - 1 { FlatAtUpTo(ss, i, n - 1); }
  }

  lemma FlatSame(a: seq<seq<byte>>, b: seq<seq<byte>>, n: nat)
    requires 0 < n <= |a| && n <= |b| && a[n - 1] == b[n - 1] && FlatUpTo(a, n - 1) == FlatUpTo(b, n - 1)
    ensures FlatUpTo(a, n) == FlatUpTo(b, n)
  {
  }

  lemma {:induction false} FlatLeft(a: seq<seq<byte>>, b: seq<seq<byte>>, n: nat)
    requires n <= |a|
    ensures FlatUpTo(a + b, n) == FlatUpTo(a, n)
  {
    if n > 0 {
      FlatLeft(a, b, n - 1);
      FlatSame(a + b, a, n);
    }
  }

  lemma {:induction false} FlatRight(a: seq<seq<byte>>, b: seq<seq<byte>>, n: nat)
    requires n <= |b|
    ensures FlatUpTo(a + b, |a| + n) == Flat(a) + FlatUpTo(b, n)
  {
    if n == 0 {
      FlatLeft(a, b, |a|);
    } else {
      FlatRight(a, b, n - 1);
      assert (a + b)[|a| + n - 1] == b[n - 1];
    }
  }

  // ----- Sizes ---------------------------------------------------------------------------------

  /** `(n + 16) & ~15`: always rounds up. */
  function Round16(n: nat): (r: nat)
    ensures n < r <= n + 16 && r % 16 == 0
  {
    (n + 16) / 16 * 16
  }

  /** What is set aside below the strings for n argument and environment pointers: argc is counted
      with 4 bytes. */
  function Count(n: nat): nat { Round16(4 + 8 * n + 16 + (AUXV_COUNT + 1) * 16) }

  function Total(n: nat, strings: nat): nat { Round16(Count(n) + strings) }

  predicate Fits(args: seq<seq<byte>>, envs: seq<seq<byte>>) {
    Total(|args| + |envs|, |Flat(args)| + |Flat(envs)|) <= STACK_SIZE
  }

  /** Where the words start, below the end of the stack. */
  function StartOf(args: seq<seq<byte>>, envs: seq<seq<byte>>): nat
    requires Fits(args, envs)
  {
    STACK_SIZE - Total(|args| + |envs|, |Flat(args)| + |Flat(envs)|)
  }

  /** Where the strings start. */
  function TopOf(args: seq<seq<byte>>, envs: seq<seq<byte>>): nat
    requires Fits(args, envs)
  {
    StartOf(args, envs) + Count(|args| + |envs|)
  }

  /** argc, the pointers, two terminators and m vector entries with their terminator fit below the
      strings exactly when there are at most 19 entries: the rounding makes up for the missing bytes. */
  lemma VectorFits(n: nat, m: nat)
    ensures 8 + 8 * n + 16 + 16 * (m + 1) <= Count(n) <==> m <= AUXV_COUNT
  {
  }

  /** What is written, which leaves out the value of the terminator, stays below the strings. */
  predicate VectorRoom(n: nat, m: nat) { 8 * (4 + n) + 16 * m <= Count(n) }

  /** That takes at most 19 entries, or 20 if the number of pointers is even. */
  lemma VectorRoomExact(n: nat, m: nat)
    ensures VectorRoom(n, m) <==> m <= AUXV_COUNT || (m == AUXV_COUNT + 1 && n % 2 == 0)
  {
  }

  /** One pointer and 20 entries: 360 bytes of words, with strings 352 bytes behind the first. */
  lemma TwentyEntriesOverlap()
    ensures Count(1) == 352 && 8 * (4 + 1) + 16 * 20 == 360 && !VectorRoom(1, 20)
  {
  }

  // ----- The auxiliary vector ----------------------------------------------------------------------

  datatype AuxEntry = AuxEntry(ty: nat, value: nat)

  /** A 64-bit type stored in an int and stored back. */
  function AsInt(ty: nat): (r: nat) {
    if ty % HALF < 0x8000_0000 then ty % HALF else WORD - HALF + ty % HALF
  }

  /** It is the same if and only if it is the value of an int, and it turns into AT_NULL, which cuts the
      rebuilt vector short, if and only if its low half is 0. */
  lemma AsIntExact(ty: nat)
    requires ty < WORD
    ensures AsInt(ty) < WORD
    ensures AsInt(ty) == ty <==> ty < 0x8000_0000 || WORD - 0x8000_0000 <= ty
    ensures AsInt(ty) == 0 <==> ty % HALF == 0
  {
  }

  /** An entry as the iterator delivers it. */
  function Delivered(e: AuxEntry): AuxEntry { AuxEntry(AsInt(e.ty), e.value) }

  const AT_PHDR: nat := 3
  const AT_PHNUM: nat := 5
  const AT_BASE: nat := 7
  const AT_ENTRY: nat := 9
  const AT_EXECFN: nat := 31

  /** The first NULL at or after k. */
  function NullFrom(words: seq<nat>, k: nat): (r: nat)
    requires k <= |words|
    ensures k <= r <= |words| && (r < |words| ==> words[r] == 0)
    ensures forall i :: k <= i < r ==> words[i] != 0
    decreases |words| - k
  {
    if k == |words| || words[k] == 0 then k else NullFrom(words, k + 1)
  }

  /** Where the vector is found does not depend on how far `envp` has been advanced. */
  lemma {:induction false} NullFromAgain(words: seq<nat>, k: nat, j: nat)
    requires k <= |words| && k <= j <= NullFrom(words, k)
    ensures NullFrom(words, j) == NullFrom(words, k)
    decreases j - k
  {
    if k < j {
      NullFromAgain(words, k + 1, j);
    }
  }

  /** The entries of a vector at word `at`, up to its AT_NULL. */
  function ReadAux(words: seq<nat>, at: nat): (r: seq<AuxEntry>)
    decreases |words| - at
  {
    if at + 1 >= |words| || words[at] == 0 then []
    else [AuxEntry(words[at], words[at + 1])] + ReadAux(words, at + 2)
  }

  /** The vector ends with an AT_NULL. */
  predicate AuxEnds(words: seq<nat>, at: nat)
    decreases |words| - at
  {
    at < |words| && (words[at] == 0 || (at + 1 < |words| && AuxEnds(words, at + 2)))
  }

  function AuxUpTo(es: seq<AuxEntry>, n: nat): (r: seq<nat>)
    requires n <= |es|
    ensures |r| == 2 * n
  {
    if n == 0 then [] else AuxUpTo(es, n - 1) + [es[n - 1].ty] + [es[n - 1].value]
  }

  function AuxWords(es: seq<AuxEntry>): (r: seq<nat>)
    ensures |r| == 2 * |es|
  {
    AuxUpTo(es, |es|)
  }

  lemma {:induction false} AuxUpToAt(es: seq<AuxEntry>, n: nat, i: nat)
    requires i < n <= |es|
    ensures AuxUpTo(es, n)[2 * i] == es[i].ty && AuxUpTo(es, n)[2 * i + 1] == es[i].value
  {
    if i < n - 1 {
      AuxUpToAt(es, n - 1, i);
    }
  }

  /** Where a vector's entries are. */
  lemma {:induction false} ReadAuxAt(words: seq<nat>, at: nat, k: nat)
    requires AuxEnds(words, at) && k <= |ReadAux(words, at)|
    ensures AuxEnds(words, at + 2 * k)
    ensures words[at + 2 * k] != 0 <==> k < |ReadAux(words, at)|
    ensures k < |ReadAux(words, at)| ==> ReadAux(words, at)[k] == AuxEntry(words[at + 2 * k], words[at + 2 * k + 1])
    decreases k
  {
    if k > 0 {
      ReadAuxAt(words, at + 2, k - 1);
    }
  }

  /** What the loader puts into the rebuilt vector. */
  datatype Target = Target(phdrVaddr: nat, phnum: nat, ldsoBase: nat, entryPoint: nat, path: nat)

  function Replaced(t: Target, e: AuxEntry): AuxEntry {
    AuxEntry(e.ty, if e.ty == AT_PHDR then t.phdrVaddr
                   else if e.ty == AT_PHNUM then t.phnum
                   else if e.ty == AT_BASE then t.ldsoBase
                   else if e.ty == AT_ENTRY then t.entryPoint
                   else if e.ty == AT_EXECFN then t.path
                   else e.value)
  }

  function ReplacedAll(t: Target, es: seq<AuxEntry>): (r: seq<AuxEntry>)
    ensures |r| == |es| && forall i :: 0 <= i < |es| ==> r[i] == Replaced(t, Delivered(es[i]))
  {
    seq(|es|, i requires 0 <= i < |es| => Replaced(t, Delivered(es[i])))
  }

  // ----- The stack ---------------------------------------------------------------------------------

  /** Pointers to the first n strings, which start at `addr`. */
  function PointersUpTo(addr: nat, ss: seq<seq<byte>>, n: nat): (r: seq<nat>)
    requires n <= |ss|
    ensures |r| == n
  {
    if n == 0 then [] else PointersUpTo(addr, ss, n - 1) + [addr + |FlatUpTo(ss, n - 1)|]
  }

  function Pointers(addr: nat, ss: seq<seq<byte>>): (r: seq<nat>)
    ensures |r| == |ss|
  {
    PointersUpTo(addr, ss, |ss|)
  }

  lemma {:induction false} PointersAt(addr: nat, ss: seq<seq<byte>>, n: nat, i: nat)
    requires i < n <= |ss|
    ensures PointersUpTo(addr, ss, n)[i] == addr + |FlatUpTo(ss, i)|
  {
    if i < n - 1 { PointersAt(addr, ss, n - 1, i); }
  }

  function PointerWords(addr: nat, args: seq<seq<byte>>, envs: seq<seq<byte>>): (r: seq<nat>)
    ensures |r| == 3 + |args| + |envs|
  {
    [|args|] + Pointers(addr, args) + [0] + Pointers(addr + |Flat(args)|, envs) + [0]
  }

  /** The words from the stack pointer on, without the terminating entry's value. */
  function StackWords(addr: nat, args: seq<seq<byte>>, envs: seq<seq<byte>>, aux: seq<AuxEntry>): (r: seq<nat>) {
    PointerWords(addr, args, envs) + AuxWords(aux) + [0]
  }

  /** Words from `start` on, below strings from `top` on. */
  ghost predicate Laid(mem: seq<byte>, start: nat, words: seq<nat>, top: nat, data: seq<byte>) {
    && start + 8 * |words| <= top && Holds(mem, Patch(top, data))
    && forall k: nat {:trigger WordHeld(mem, start, k, words[k])} :: k < |words| ==> WordHeld(mem, start, k, words[k])
  }

  ghost predicate WordHeld(mem: seq<byte>, start: nat, k: nat, v: nat) {
    Holds(mem, Patch(start + 8 * k, Bytes8(v)))
  }

  /** Pushing a word keeps everything, as long as it stays below the strings. */
  lemma LaidWord(mem: seq<byte>, start: nat, words: seq<nat>, top: nat, data: seq<byte>, v: nat)
    requires Laid(mem, start, words, top, data) && start + 8 * (|words| + 1) <= top
    ensures Laid(Put(mem, Patch(start + 8 * |words|, Bytes8(v))), start, words + [v], top, data)
  {
    var p := Patch(start + 8 * |words|, Bytes8(v));
    PutHolds(mem, p);
    HoldsKept(mem, Patch(top, data), p);
    forall k: nat | k <= |words|
      ensures WordHeld(Put(mem, p), start, k, (words + [v])[k])
    {
      if k < |words| {
        assert WordHeld(mem, start, k, words[k]);
        HoldsKept(mem, Patch(start + 8 * k, Bytes8(words[k])), p);
      }
    }
  }

  /** So does adding a string, which goes behind the others. */
  lemma LaidString(mem: seq<byte>, start: nat, words: seq<nat>, top: nat, data: seq<byte>, s: seq<byte>)
    requires Laid(mem, start, words, top, data) && top + |data| + |s| <= |mem|
    ensures Laid(Put(mem, Patch(top + |data|, s)), start, words, top, data + s)
  {
    var p := Patch(top + |data|, s);
    PutHolds(mem, p);
    HoldsKept(mem, Patch(top, data), p);
    HoldsAppend(Put(mem, p), top, data, s);
    forall k: nat | k < |words|
      ensures WordHeld(Put(mem, p), start, k, words[k])
    {
      assert WordHeld(mem, start, k, words[k]);
      HoldsKept(mem, Patch(start + 8 * k, Bytes8(words[k])), p);
    }
  }

  // ----- What the program finds -----------------------------------------------------------------------

  /** The word at an address of a memory that starts at `base`. */
  function Word(mem: seq<byte>, base: nat, addr: nat): Option<nat> {
    if base <= addr && addr + 8 <= base + |mem| then Some(Word8(mem[addr - base..addr - base + 8])) else None
  }

  function StringAt(mem: seq<byte>, base: nat, addr: nat): Option<seq<byte>> {
    if base <= addr <= base + |mem| then Some(CString(mem[addr - base..])) else None
  }

  lemma LaidWordAt(mem: seq<byte>, base: nat, start: nat, words: seq<nat>, top: nat, data: seq<byte>, k: nat)
    requires Laid(mem, start, words, top, data) && k < |words| && words[k] < 0x1_0000_0000_0000_0000
    ensures Word(mem, base, base + start + 8 * k) == Some(words[k])
  {
    assert WordHeld(mem, start, k, words[k]);
    Word8Bytes8(words[k]);
  }

  lemma LaidStringAt(mem: seq<byte>, base: nat, top: nat, ss: seq<seq<byte>>, i: nat, addr: nat)
    requires Holds(mem, Patch(top, Flat(ss))) && NulFree(ss) && i < |ss| && addr == base + top + |FlatUpTo(ss, i)|
    ensures StringAt(mem, base, addr) == Some(ss[i])
  {
    FlatAt(ss, i);
    StringInside(mem, base, top, FlatUpTo(ss, i), ss[i], Flat(ss), addr);
  }

  lemma StringInside(mem: seq<byte>, base: nat, top: nat, front: seq<byte>, s: seq<byte>, data: seq<byte>, addr: nat)
    requires Holds(mem, Patch(top, data)) && Comes(data, front, s) && 0 !in s && addr == base + top + |front|
    ensures StringAt(mem, base, addr) == Some(s)
  {
    HeldInside(mem, top, front, s + [0], data);
    CStringIs(mem[top + |front|..], s);
    assert addr - base == top + |front|;
  }

  lemma HeldInside(mem: seq<byte>, off: nat, a: seq<byte>, x: seq<byte>, data: seq<byte>)
    requires Holds(mem, Patch(off, data)) && a + x <= data
    ensures off + |a| <= |mem| && x <= mem[off + |a|..]
  {
    var n, m := off + |a|, off + |a| + |x|;
    assert mem[n..m] == mem[off..off + |data|][|a|..|a| + |x|] == data[|a|..|a| + |x|] == (a + x)[|a|..] == x;
  }

  /** The finished stack: words at `start`, strings at `top`, in a memory at `base`. */
  ghost predicate Built(mem: seq<byte>, base: nat, start: nat, top: nat, args: seq<seq<byte>>, envs: seq<seq<byte>>,
                        aux: seq<AuxEntry>) {
    && NulFree(args) && NulFree(envs) && base + |mem| <= WORD
    && (forall i :: 0 <= i < |aux| ==> 0 < aux[i].ty < WORD && aux[i].value < WORD)
    && Laid(mem, start, StackWords(base + top, args, envs, aux), top, Flat(args + envs))
  }

  /** argc is the number of arguments, and NULLs follow argv and envp. */
  lemma FindsTerminators(mem: seq<byte>, base: nat, start: nat, top: nat, args: seq<seq<byte>>, envs: seq<seq<byte>>,
                         aux: seq<AuxEntry>)
    requires Built(mem, base, start, top, args, envs, aux)
    ensures Word(mem, base, base + start) == Some(|args|)
    ensures Word(mem, base, base + start + 8 + 8 * |args|) == Some(0)
    ensures Word(mem, base, base + start + 16 + 8 * |args| + 8 * |envs|) == Some(0)
  {
    var words, data := StackWords(base + top, args, envs, aux), Flat(args + envs);
    assert |words| == 4 + |args| + |envs| + 2 * |aux|;
    assert words[0] == |args| && words[1 + |args|] == 0 && words[2 + |args| + |envs|] == 0;
    WordIs(mem, base, start, words, top, data, 0, |args|, base + start);
    WordIs(mem, base, start, words, top, data, 1 + |args|, 0, base + start + 8 + 8 * |args|);
    WordIs(mem, base, start, words, top, data, 2 + |args| + |envs|, 0, base + start + 16 + 8 * |args| + 8 * |envs|);
  }

  /** argv[i] points to the i-th argument. */
  lemma FindsArguments(mem: seq<byte>, base: nat, start: nat, top: nat, args: seq<seq<byte>>, envs: seq<seq<byte>>,
                       aux: seq<AuxEntry>, i: nat)
    requires Built(mem, base, start, top, args, envs, aux) && i < |args|
    ensures PointsTo(mem, base, base + start + 8 + 8 * i, args[i])
  {
    var ss := args + envs;
    ArgWord(base + top, args, envs, aux, i);
    FlatLeft(args, envs, i);
    PointerAt(mem, base, start, StackWords(base + top, args, envs, aux), top, ss, i, 1 + i, base + start + 8 + 8 * i);
  }

  /** envp[i] points to the i-th environment string. */
  lemma FindsEnvironment(mem: seq<byte>, base: nat, start: nat, top: nat, args: seq<seq<byte>>, envs: seq<seq<byte>>,
                         aux: seq<AuxEntry>, i: nat)
    requires Built(mem, base, start, top, args, envs, aux) && i < |envs|
    ensures PointsTo(mem, base, base + start + 16 + 8 * |args| + 8 * i, envs[i])
  {
    var ss, k := args + envs, |args| + i;
    EnvWord(base + top, args, envs, aux, i);
    FlatRight(args, envs, i);
    PointerAt(mem, base, start, StackWords(base + top, args, envs, aux), top, ss, k, 2 + k, base + start + 16 +
      8 * |args| + 8 * i);
  }

  /** The word at the address is a pointer to the string. */
  predicate PointsTo(mem: seq<byte>, base: nat, addr: nat, s: seq<byte>) {
    Word(mem, base, addr).Some? && StringAt(mem, base, Word(mem, base, addr).value) == Some(s)
  }

  lemma WordIs(mem: seq<byte>, base: nat, start: nat, words: seq<nat>, top: nat, data: seq<byte>, k: nat, v: nat,
               addr: nat)
    requires Laid(mem, start, words, top, data) && k < |words| && words[k] == v < WORD && addr == base + start + 8 * k
    ensures Word(mem, base, addr) == Some(v)
  {
    LaidWordAt(mem, base, start, words, top, data, k);
  }

  lemma PointerAt(mem: seq<byte>, base: nat, start: nat, words: seq<nat>, top: nat, ss: seq<seq<byte>>, i: nat, k: nat,
                  addr: nat)
    requires Laid(mem, start, words, top, Flat(ss)) && NulFree(ss) && i < |ss| && base + |mem| <= WORD
    requires k < |words| && words[k] == base + top + |FlatUpTo(ss, i)| && addr == base + start + 8 * k
    ensures PointsTo(mem, base, addr, ss[i])
  {
    StringBelow(mem, top, ss, i);
    WordIs(mem, base, start, words, top, Flat(ss), k, words[k], addr);
    LaidStringAt(mem, base, top, ss, i, words[k]);
  }

  lemma StringBelow(mem: seq<byte>, top: nat, ss: seq<seq<byte>>, i: nat)
    requires Holds(mem, Patch(top, Flat(ss))) && i < |ss|
    ensures top + |FlatUpTo(ss, i)| < |mem|
  {
    FlatAt(ss, i);
  }

  lemma ArgWord(addr: nat, args: seq<seq<byte>>, envs: seq<seq<byte>>, aux: seq<AuxEntry>, i: nat)
    requires i < |args|
    ensures |StackWords(addr, args, envs, aux)| > 1 + i
    ensures StackWords(addr, args, envs, aux)[1 + i] == addr + |FlatUpTo(args, i)|
  {
    PointersAt(addr, args, |args|, i);
  }

  lemma EnvWord(addr: nat, args: seq<seq<byte>>, envs: seq<seq<byte>>, aux: seq<AuxEntry>, i: nat)
    requires i < |envs|
    ensures |StackWords(addr, args, envs, aux)| > 2 + |args| + i
    ensures StackWords(addr, args, envs, aux)[2 + |args| + i] == addr + |Flat(args)| + |FlatUpTo(envs, i)|
  {
    PointersAt(addr + |Flat(args)|, envs, |envs|, i);
  }

  // ----- The rebuilt vector --------------------------------------------------------------------------

  /** The vector a program reads at an address. */
  function AuxFrom(mem: seq<byte>, base: nat, addr: nat): (r: seq<AuxEntry>)
    decreases base + |mem| - addr
  {
    if base <= addr && Word(mem, base, addr).Some? && Word(mem, base, addr).value != 0 &&
      Word(mem, base, addr + 8).Some?
    then [AuxEntry(Word(mem, base, addr).value, Word(mem, base, addr + 8).value)] + AuxFrom(mem, base, addr + 16)
    else []
  }

  function AuxAddress(base: nat, start: nat, args: seq<seq<byte>>, envs: seq<seq<byte>>): nat {
    base + start + 24 + 8 * |args| + 8 * |envs|
  }

  /** The program finds the vector that was built, behind the environment. */
  lemma {:induction false} FindsVector(mem: seq<byte>, base: nat, start: nat, top: nat, args: seq<seq<byte>>,
                                       envs: seq<seq<byte>>, aux: seq<AuxEntry>, i: nat)
    requires Built(mem, base, start, top, args, envs, aux) && i <= |aux|
    ensures AuxFrom(mem, base, AuxAddress(base, start, args, envs) + 16 * i) == aux[i..]
    decreases |aux| - i
  {
    var words, data := StackWords(base + top, args, envs, aux), Flat(args + envs);
    var n := 3 + |args| + |envs|;
    VectorWords(base + top, args, envs, aux, i);
    var addr := AuxAddress(base, start, args, envs) + 16 * i;
    if i == |aux| {
      WordIs(mem, base, start, words, top, data, n + 2 * i, 0, addr);
      AuxStops(mem, base, addr);
    } else {
      WordIs(mem, base, start, words, top, data, n + 2 * i, aux[i].ty, addr);
      WordIs(mem, base, start, words, top, data, n + 2 * i + 1, aux[i].value, addr + 8);
      FindsVector(mem, base, start, top, args, envs, aux, i + 1);
      AuxContinues(mem, base, addr, aux[i]);
      assert aux[i..] == [aux[i]] + aux[i + 1..];
    }
  }

  /** The vector of the host with five values replaced: the program headers' address (type 3) and number (5), the
      interpreter's base (7), the entry point (9) and the path (31). Types are as an int. */
  ghost predicate Carries(v: seq<AuxEntry>, host: seq<AuxEntry>, t: Target) {
    && |v| == |host|
    && forall i :: 0 <= i < |v| ==>
         v[i].ty == AsInt(host[i].ty) && v[i].value == CarriedValue(v[i].ty, host[i].value, t)
  }

  function CarriedValue(ty: nat, value: nat, t: Target): nat {
    match ty
    case 3 => t.phdrVaddr
    case 5 => t.phnum
    case 7 => t.ldsoBase
    case 9 => t.entryPoint
    case 31 => t.path
    case _ => value
  }

  /** That is what the program finds. */
  lemma FindsHostVector(mem: seq<byte>, base: nat, start: nat, top: nat, args: seq<seq<byte>>, envs: seq<seq<byte>>,
                        t: Target, es: seq<AuxEntry>, addr: nat)
    requires Built(mem, base, start, top, args, envs, ReplacedAll(t, es))
    requires addr == base + start + 24 + 8 * |args| + 8 * |envs|
    ensures Carries(AuxFrom(mem, base, addr), es, t)
  {
    FindsVector(mem, base, start, top, args, envs, ReplacedAll(t, es), 0);
  }

  lemma AuxStops(mem: seq<byte>, base: nat, addr: nat)
    requires Word(mem, base, addr) == Some(0)
    ensures AuxFrom(mem, base, addr) == []
  {
  }

  lemma AuxContinues(mem: seq<byte>, base: nat, addr: nat, e: AuxEntry)
    requires Word(mem, base, addr) == Some(e.ty) && e.ty != 0 && Word(mem, base, addr + 8) == Some(e.value)
    ensures AuxFrom(mem, base, addr) == [e] + AuxFrom(mem, base, addr + 16)
  {
  }

  lemma VectorWords(addr: nat, args: seq<seq<byte>>, envs: seq<seq<byte>>, aux: seq<AuxEntry>, i: nat)
    requires i <= |aux|
    ensures |StackWords(addr, args, envs, aux)| == 4 + |args| + |envs| + 2 * |aux|
    ensures StackWords(addr, args, envs, aux)[3 + |args| + |envs| + 2 * i] == if i < |aux| then aux[i].ty else 0
    ensures i < |aux| ==> StackWords(addr, args, envs, aux)[3 + |args| + |envs| + 2 * i + 1] == aux[i].value
  {
    if i < |aux| {
      AuxUpToAt(aux, |aux|, i);
    }
  }
}
