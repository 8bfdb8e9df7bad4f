/** From instruction definitions to decoded instructions: the whole table pipeline. */
module EndToEnd {
  import opened Bytes
  import opened Itab
  import opened OpcodeTrie
  import opened OpcodeTables
  import opened TableGenerator
  import opened DecoderState
  import opened Operands
  import opened Decoder
  import opened DecoderReading
  import opened TableWalk

  ghost predicate AllWellOrdered(items: seq<Item>) {
    forall k :: 0 <= k < |items| ==> WellOrdered(items[k].steps)
  }

  /** The node after the first `n + 1` steps of an item: a table there is one the item goes through. */
  lemma EdgeOf(items: seq<Item>, trie: Trie, q: Path, i: nat) returns (k: nat)
    requires BuiltFrom(items, trie) && IsTable(trie, q + [i])
    ensures k < |items| && |q| + 1 < |items[k].steps|
    ensures items[k].steps[|q|].index == i && Indices(items[k].steps)[..|q|] == q
    ensures trie[q + [i]] == Table(items[k].steps[|q| + 1].kind)
    ensures q in trie && trie[q] == Table(items[k].steps[|q|].kind)
  {
    var c := q + [i];
    assert NodeIsPrefix(items, trie, c);
    k :| 0 <= k < |items| && c <= Indices(items[k].steps);
    var p := Indices(items[k].steps);
    assert p[..|c|] == c && p[..|q|] == q && p[|q|] == c[|q|] == i;
    LastOnOwn(items, k);
    assert LeafIsLast(items, trie, p);
    assert p[..|p|] == p;
    assert Follows(trie, items[k].steps);
  }

  lemma {:induction false} LastOnOwn(items: seq<Item>, k: nat)
    requires k < |items|
    ensures LastOn(items, Indices(items[k].steps)).Some?
  {
    if k < |items| - 1 { LastOnOwn(items[..|items| - 1], k); }
  }

  /** A trie built from well-ordered paths is one the decoder can walk. */
  lemma BuiltIsWf(items: seq<Item>, trie: Trie)
    requires BuiltFrom(items, trie) && AllWellOrdered(items)
    ensures WfTrie(trie)
  {
    forall q, i
      ensures EdgeFine(trie, q, i)
    {
      if IsTable(trie, q + [i]) {
        var k := EdgeOf(items, trie, q, i);
        assert MayFollow(items[k].steps[|q|], items[k].steps[|q| + 1]);
      }
    }
  }

  // ----- Nesting of opcode tables ------------------------------------------------

  /** No path has more than `n` plain opcodes. */
  ghost predicate Shallow(items: seq<Item>, n: nat) {
    forall k, j :: 0 <= k < |items| && n <= j < |items[k].steps| ==> items[k].steps[j].kind != OpcTbl
  }

  lemma {:induction false} NestedFrom(flat: Flat, trie: Trie, loc: map<Path, nat>, items: seq<Item>, q: Path, n: nat)
    requires Compiled(flat, trie, loc) && WfFlat(flat) && BuiltFrom(items, trie) && Shallow(items, n)
    requires q in loc && q in trie && trie[q] == Table(OpcTbl) && |q| < n
    ensures loc[q] < |flat.tables| && flat.tables[loc[q]].kind == OpcTbl
    ensures Nested(flat, loc[q], n - |q|)
    decreases n - |q|
  {
    ChildPtr(flat, trie, loc, q, 0);
    forall b: byte | NextOpcodeTable(flat, EntryFor(flat, loc[q], b))
      ensures Nested(flat, EntryFor(flat, loc[q], b) - GROUP_BIT, n - |q| - 1)
    {
      ChildPtr(flat, trie, loc, q, b);
      ChildPtr(flat, trie, loc, q + [b], 0);
      var k := EdgeOf(items, trie, q, b);
      NestedFrom(flat, trie, loc, items, q + [b], n);
    }
  }

  /** Tables made from definitions with at most three plain opcodes never need more than 42
      bytes for one instruction, which the 64-byte session buffer holds. */
  lemma GeneratedLength(flat: Flat, trie: Trie, loc: map<Path, nat>, items: seq<Item>, cfg: Config, rem: seq<byte>)
    requires Compiled(flat, trie, loc) && BuiltFrom(items, trie) && Shallow(items, 3)
    ensures WfFlat(flat)
    ensures Decode(flat, cfg, rem).ctr <= 42
  {
    CompiledIsWf(flat, trie, loc);
    NestedFrom(flat, trie, loc, items, [], 3);
    DecodeLength(flat, cfg, rem, 3);
  }

  // ----- Matching a definition -----------------------------------------------------

  /** A `/mod` step equal to an earlier one. */
  ghost predicate Repeat(steps: seq<Step>, n: nat)
    requires n < |steps|
  {
    steps[n].kind == Mod && steps[n] in steps[..n]
  }

  /** The state `c` goes on to match the path from step `n`: plain opcodes are the bytes that
      follow, and each extension is the entry the decoder chooses, in the order of the path,
      with the definitions alone saying which alternatives exist.  A repeated `/mod` step
      asks for nothing. */
  ghost predicate Takes(items: seq<Item>, rem: seq<byte>, cfg: Config, c: Core, steps: seq<Step>, n: nat)
    requires n <= |steps|
    decreases |steps| - n
  {
    if n == |steps| || steps[n].kind == ThreeDNow then true
    else if steps[n].kind == OpcTbl then
      var c1 := Next(rem, c).0;
      !c1.insn.err && c1.curr == steps[n].index && Takes(items, rem, cfg, c1.(primary := Some(c1.curr)), steps, n + 1)
    else if Repeat(steps, n) then Takes(items, rem, cfg, c, steps, n + 1)
    else
      && MayEnter(steps[n].kind, c)
      && var (c1, idx) := Choose(rem, cfg, c, steps[n].kind, Offered(items, c, steps, n));
         idx == steps[n].index && Takes(items, rem, cfg, c1, steps, n + 1)
  }

  /** The state after that. */
  ghost function Taken(items: seq<Item>, rem: seq<byte>, cfg: Config, c: Core, steps: seq<Step>, n: nat): Core
    requires n <= |steps| && Takes(items, rem, cfg, c, steps, n)
    decreases |steps| - n
  {
    if n == |steps| || steps[n].kind == ThreeDNow then c
    else if steps[n].kind == OpcTbl then
      var c1 := Next(rem, c).0;
      Taken(items, rem, cfg, c1.(primary := Some(c1.curr)), steps, n + 1)
    else if Repeat(steps, n) then Taken(items, rem, cfg, c, steps, n + 1)
    else Taken(items, rem, cfg, Choose(rem, cfg, c, steps[n].kind, Offered(items, c, steps, n)).0, steps, n + 1)
  }

  /** Going on from d at step n + 1 is the same as from c at step n. */
  ghost predicate SameEnd(items: seq<Item>, rem: seq<byte>, cfg: Config, c: Core, d: Core, steps: seq<Step>, n: nat) {
    && n < |steps| && Takes(items, rem, cfg, c, steps, n) && Takes(items, rem, cfg, d, steps, n + 1)
    && Taken(items, rem, cfg, c, steps, n) == Taken(items, rem, cfg, d, steps, n + 1)
  }

  lemma TakenRepeat(items: seq<Item>, rem: seq<byte>, cfg: Config, c: Core, steps: seq<Step>, n: nat)
    requires n < |steps| && Takes(items, rem, cfg, c, steps, n) && Repeat(steps, n)
    ensures Takes(items, rem, cfg, c, steps, n + 1)
    ensures Taken(items, rem, cfg, c, steps, n) == Taken(items, rem, cfg, c, steps, n + 1)
  {
  }

  lemma TakenChoice(items: seq<Item>, rem: seq<byte>, cfg: Config, c: Core, steps: seq<Step>, n: nat)
    requires n < |steps| && Takes(items, rem, cfg, c, steps, n) && !Repeat(steps, n)
    requires steps[n].kind != OpcTbl && steps[n].kind != ThreeDNow
    ensures MayEnter(steps[n].kind, c)
    ensures var (d, i) := Choose(rem, cfg, c, steps[n].kind, Offered(items, c, steps, n));
            && i == steps[n].index && Takes(items, rem, cfg, d, steps, n + 1)
            && Taken(items, rem, cfg, c, steps, n) == Taken(items, rem, cfg, d, steps, n + 1)
  {
  }

  /** Some definition goes on with the alternative that the choice at step `n` depends on. */
  ghost predicate Offered(items: seq<Item>, c: Core, steps: seq<Step>, n: nat)
    requires n < |steps|
  {
    Probe(steps[n].kind, c) < SizeOf(steps[n].kind) && OnPath(items, Indices(steps)[..n] + [Probe(steps[n].kind, c)])
  }

  /** The input matches the path from its first byte on. */
  ghost predicate Matches(items: seq<Item>, rem: seq<byte>, cfg: Config, steps: seq<Step>) {
    var c := DecodePrefixes(rem, cfg, FRESH, 0);
    steps != [] && !c.insn.err && c.curr == steps[0].index &&
      Takes(items, rem, cfg, c.(primary := Some(c.curr)), steps, 1)
  }

  /** The state in which a matching input is decoded. */
  ghost function PathTaken(items: seq<Item>, rem: seq<byte>, cfg: Config, steps: seq<Step>): Core
    requires Matches(items, rem, cfg, steps)
  {
    var c := DecodePrefixes(rem, cfg, FRESH, 0);
    Taken(items, rem, cfg, c.(primary := Some(c.curr)), steps, 1)
  }

  /** The target is the last item on the path; at a 3DNow table the entry for the path's last
      index names it. */
  ghost predicate Arrives(items: seq<Item>, steps: seq<Step>, t: Target)
    requires steps != []
  {
    var entry := LastOn(items, Indices(steps));
    && entry.Some?
    && if steps[|steps| - 1].kind == ThreeDNow
       then t.Now? && (steps[|steps| - 1].index < |t.names| ==>
         t.names[steps[|steps| - 1].index] == entry.value.mnemonic)
            && |t.names| == 256
       else t == Row(entry.value)
  }

  /** Every `/mod` step so far agrees with the ModRM byte read. */
  ghost predicate ModKnown(c: Core, steps: seq<Step>, n: nat)
    requires n <= |steps|
  {
    forall j :: 0 <= j < n && steps[j].kind == Mod ==> c.modrm.Some? && (ModOf(c.modrm.value) + 1) / 4 == steps[j].index
  }

  ghost predicate Setting(items: seq<Item>, trie: Trie, steps: seq<Step>, k: nat, bound: nat) {
    && BuiltFrom(items, trie) && WfTrie(trie) && Limit(trie, bound)
    && k < |items| && items[k].steps == steps && WellOrdered(steps) && steps != []
  }

  lemma AtStep(items: seq<Item>, trie: Trie, steps: seq<Step>, k: nat, bound: nat, n: nat)
    requires Setting(items, trie, steps, k, bound) && n < |steps|
    ensures var q := Indices(steps)[..n];
            && q in trie && trie[q] == Table(steps[n].kind) && |q| <= bound
            && q + [steps[n].index] == Indices(steps)[..n + 1]
  {
    assert Follows(trie, items[k].steps);
  }

  lemma AtLeaf(items: seq<Item>, trie: Trie, steps: seq<Step>, k: nat, bound: nat)
    requires Setting(items, trie, steps, k, bound)
    ensures var q := Indices(steps);
            && q in trie && LastOn(items, q).Some? && trie[q] == Insn(LastOn(items, q).value) && |q| <= bound
  {
    LastOnOwn(items, k);
    assert LeafIsLast(items, trie, Indices(steps));
  }

  /** A repeated `/mod` chooses the entry it chose before and changes nothing. */
  lemma RepeatIsFree(rem: seq<byte>, cfg: Config, c: Core, steps: seq<Step>, n: nat, present: bool)
    requires n < |steps| && Repeat(steps, n) && ModKnown(c, steps, n) && MayEnter(Mod, c)
    ensures Choose(rem, cfg, c, Mod, present) == (c, steps[n].index)
  {
    var j :| 0 <= j < n && steps[..n][j] == steps[n];
    assert steps[j] == steps[n];
  }

  ghost predicate Clean(c: Core) {
    (c.insn.str == 0 || c.insn.str == 0xF2 || c.insn.str == 0xF3) && (c.insn.opr == 0 || c.insn.opr == 0x66)
  }

  /** One extension step of the walk stays on the path. */
  lemma ExtStays(items: seq<Item>, trie: Trie, rem: seq<byte>, cfg: Config, c: Core, steps: seq<Step>, k: nat, n: nat,
                 bound: nat) returns (c1: Core)
    requires Setting(items, trie, steps, k, bound) && n < |steps|
    requires steps[n].kind != OpcTbl && steps[n].kind != ThreeDNow
    requires Takes(items, rem, cfg, c, steps, n) && ModKnown(c, steps, n) && Clean(c)
    ensures IsTable(trie, Indices(steps)[..n]) && trie[Indices(steps)[..n]].kind == steps[n].kind
    ensures |Indices(steps)[..n]| <= bound
    ensures MayEnter(steps[n].kind, c)
    ensures TrieStep(trie, rem, cfg, c, Indices(steps)[..n]) == (c1, Indices(steps)[..n + 1])
    ensures Taken(items, rem, cfg, c, steps, n) == Taken(items, rem, cfg, c1, steps, n + 1)
    ensures Takes(items, rem, cfg, c1, steps, n + 1) && ModKnown(c1, steps, n + 1) && Clean(c1)
  {
    AtStep(items, trie, steps, k, bound, n);
    var present := Offered(items, c, steps, n);
    assert NodeIsPrefix(items, trie, Indices(steps)[..n] + [Probe(steps[n].kind, c)]);
    if Repeat(steps, n) {
      RepeatIsFree(rem, cfg, c, steps, n, present);
    }
    c1 := Choose(rem, cfg, c, steps[n].kind, present).0;
    ModStaysKnown(rem, cfg, c, steps, n, present);
  }

  lemma ModStaysKnown(rem: seq<byte>, cfg: Config, c: Core, steps: seq<Step>, n: nat, present: bool)
    requires n < |steps| && ModKnown(c, steps, n)
    requires steps[n].kind != ThreeDNow && MayEnter(steps[n].kind, c)
    requires Choose(rem, cfg, c, steps[n].kind, present).1 == steps[n].index
    ensures ModKnown(Choose(rem, cfg, c, steps[n].kind, present).0, steps, n + 1)
  {
  }

  /** The walk from there is the walk from behind the step. */
  lemma ExtMoves(items: seq<Item>, trie: Trie, rem: seq<byte>, cfg: Config, c: Core, steps: seq<Step>, k: nat, n: nat,
                 bound: nat) returns (c1: Core)
    requires Setting(items, trie, steps, k, bound) && n < |steps|
    requires steps[n].kind != OpcTbl && steps[n].kind != ThreeDNow
    requires Takes(items, rem, cfg, c, steps, n) && ModKnown(c, steps, n) && Clean(c)
    ensures n + 1 < |steps| ==> steps[n + 1].kind != OpcTbl
    ensures Takes(items, rem, cfg, c1, steps, n + 1) && ModKnown(c1, steps, n + 1) && Clean(c1)
    ensures Taken(items, rem, cfg, c, steps, n) == Taken(items, rem, cfg, c1, steps, n + 1)
    ensures |Indices(steps)[..n]| <= bound && MayWalk(trie, c, Indices(steps)[..n])
    ensures MayWalk(trie, c1, Indices(steps)[..n + 1])
    ensures TrieWalkExt(trie, rem, cfg, c, Indices(steps)[..n], bound) ==
            TrieWalkExt(trie, rem, cfg, c1, Indices(steps)[..n + 1], bound)
  {
    c1 := ExtStays(items, trie, rem, cfg, c, steps, k, n, bound);
    assert n < |steps| - 1 ==> MayFollow(steps[n], steps[n + 1]);
    WalkGoesOn(trie, rem, cfg, c, Indices(steps)[..n], bound);
  }

  /** At the leaf. */
  lemma LeafReached(items: seq<Item>, trie: Trie, rem: seq<byte>, cfg: Config, c: Core, steps: seq<Step>, k: nat,
                    bound: nat, q: Path)
    requires Setting(items, trie, steps, k, bound) && steps[|steps| - 1].kind != ThreeDNow
    requires q == Indices(steps)[..|steps|]
    ensures |q| <= bound + 1 && MayWalk(trie, c, q)
    ensures Arrives(items, steps, TrieWalkExt(trie, rem, cfg, c, q, bound).1)
    ensures TrieWalkExt(trie, rem, cfg, c, q, bound).0 == c
  {
    assert q == Indices(steps);
    AtLeaf(items, trie, steps, k, bound);
  }

  /** At a 3DNow table, which is the last on its path. */
  lemma NowReached(items: seq<Item>, trie: Trie, rem: seq<byte>, cfg: Config, c: Core, steps: seq<Step>, k: nat,
                   n: nat, bound: nat)
    requires Setting(items, trie, steps, k, bound) && n < |steps| && steps[n].kind == ThreeDNow && Clean(c)
    ensures |Indices(steps)[..n]| <= bound + 1 && MayWalk(trie, c, Indices(steps)[..n])
    ensures Arrives(items, steps, TrieWalkExt(trie, rem, cfg, c, Indices(steps)[..n], bound).1)
    ensures TrieWalkExt(trie, rem, cfg, c, Indices(steps)[..n], bound).0 == c
  {
    AtLeaf(items, trie, steps, k, bound);
    AtStep(items, trie, steps, k, bound, n);
    assert n < |steps| - 1 ==> MayFollow(steps[n], steps[n + 1]);
    assert Indices(steps)[..n + 1] == Indices(steps);
  }

  /** From step `n` on, the walk through the extension tables ends at the last definition. */
  lemma {:induction false} ExtFollows(items: seq<Item>, trie: Trie, rem: seq<byte>, cfg: Config, c: Core,
                                      steps: seq<Step>,
                                      k: nat, n: nat, bound: nat)
    requires Setting(items, trie, steps, k, bound) && 1 <= n <= |steps|
    requires n < |steps| ==> steps[n].kind != OpcTbl
    requires steps[n - 1].kind != ThreeDNow
    requires Takes(items, rem, cfg, c, steps, n) && ModKnown(c, steps, n) && Clean(c)
    ensures |Indices(steps)[..n]| <= bound + 1 && MayWalk(trie, c, Indices(steps)[..n])
    ensures Arrives(items, steps, TrieWalkExt(trie, rem, cfg, c, Indices(steps)[..n], bound).1)
    ensures TrieWalkExt(trie, rem, cfg, c, Indices(steps)[..n], bound).0 == Taken(items, rem, cfg, c, steps, n)
    decreases |steps| - n
  {
    if n == |steps| {
      LeafReached(items, trie, rem, cfg, c, steps, k, bound, Indices(steps)[..n]);
    } else if steps[n].kind == ThreeDNow {
      NowReached(items, trie, rem, cfg, c, steps, k, n, bound);
    } else {
      var c1 := ExtMoves(items, trie, rem, cfg, c, steps, k, n, bound);
      ExtFollows(items, trie, rem, cfg, c1, steps, k, n + 1, bound);
    }
  }

  /** At the last opcode table of the path. */
  lemma OpcodesEnd(items: seq<Item>, trie: Trie, rem: seq<byte>, cfg: Config, c: Core, steps: seq<Step>, k: nat, n: nat,
                   bound: nat)
    requires Setting(items, trie, steps, k, bound) && n < |steps| && steps[n].kind == OpcTbl
    requires forall j :: 0 <= j <= n ==> steps[j].kind == OpcTbl
    requires Entering(c) && !c.insn.err && c.curr == steps[n].index
    requires Takes(items, rem, cfg, c.(primary := Some(c.curr)), steps, n + 1)
    requires n + 1 < |steps| ==> steps[n + 1].kind != OpcTbl
    ensures var q := Indices(steps)[..n];
            && q in trie && trie[q] == Table(OpcTbl)
            && var (d, t) := TrieWalkOpcode(trie, rem, cfg, c, q, bound);
               && t.Some? && Arrives(items, steps, t.value)
               && d == Taken(items, rem, cfg, c.(primary := Some(c.curr)), steps, n + 1)
  {
    AtStep(items, trie, steps, k, bound, n);
    var child := Indices(steps)[..n + 1];
    if n + 1 < |steps| { AtStep(items, trie, steps, k, bound, n + 1); }
    else { AtLeaf(items, trie, steps, k, bound); assert child == Indices(steps); }
    ExtFollows(items, trie, rem, cfg, c.(primary := Some(c.curr)), steps, k, n + 1, bound);
  }

  lemma {:induction false} OpcodeFollows(items: seq<Item>, trie: Trie, rem: seq<byte>, cfg: Config, c: Core,
                                         steps: seq<Step>, k: nat, n: nat, bound: nat)
    requires Setting(items, trie, steps, k, bound) && n < |steps| && steps[n].kind == OpcTbl
    requires forall j :: 0 <= j <= n ==> steps[j].kind == OpcTbl
    requires Entering(c) && !c.insn.err && c.curr == steps[n].index
    requires Takes(items, rem, cfg, c.(primary := Some(c.curr)), steps, n + 1)
    ensures var q := Indices(steps)[..n];
            && q in trie && trie[q] == Table(OpcTbl)
            && var (d, t) := TrieWalkOpcode(trie, rem, cfg, c, q, bound);
               && t.Some? && Arrives(items, steps, t.value)
               && d == Taken(items, rem, cfg, c.(primary := Some(c.curr)), steps, n + 1)
    decreases |steps| - n
  {
    AtStep(items, trie, steps, k, bound, n);
    var c1 := c.(primary := Some(c.curr));
    if n + 1 < |steps| && steps[n + 1].kind == OpcTbl {
      AtStep(items, trie, steps, k, bound, n + 1);
      OpcodeFollows(items, trie, rem, cfg, Next(rem, c1).0, steps, k, n + 1, bound);
    } else {
      OpcodesEnd(items, trie, rem, cfg, c, steps, k, n, bound);
    }
  }

  // ----- The converse: what the walk finds was matched ------------------------------------

  /** Every Mod table on the way to `q` was left by the ModRM byte read. */
  ghost predicate ModSeen(c: Core, trie: Trie, q: Path) {
    forall j :: 0 <= j < |q| && q[..j] in trie && trie[q[..j]] == Table(Mod) ==>
      c.modrm.Some? && (ModOf(c.modrm.value) + 1) / 4 == q[j]
  }

  /** A node is on the path of an item, whose next step has the node's kind. */
  lemma ItemThrough(items: seq<Item>, trie: Trie, q: Path) returns (k: nat)
    requires BuiltFrom(items, trie) && q in trie && q != []
    ensures k < |items| && q <= Indices(items[k].steps)
    ensures trie[q].Table? ==> |q| < |items[k].steps| && trie[q] == Table(items[k].steps[|q|].kind)
    ensures trie[q].Insn? ==> |q| == |items[k].steps|
  {
    assert NodeIsPrefix(items, trie, q);
    k :| 0 <= k < |items| && q <= Indices(items[k].steps);
    NodeOnPath(items, trie, q, k);
  }

  lemma NodeOnPath(items: seq<Item>, trie: Trie, q: Path, k: nat)
    requires BuiltFrom(items, trie) && q in trie && k < |items| && q <= Indices(items[k].steps)
    ensures trie[q].Table? ==> |q| < |items[k].steps| && trie[q] == Table(items[k].steps[|q|].kind)
    ensures trie[q].Insn? ==> |q| == |items[k].steps|
  {
    var p := Indices(items[k].steps);
    LastOnOwn(items, k);
    assert LeafIsLast(items, trie, p);
    assert q == p[..|q|];
    assert |q| == |p| ==> q == p;
    assert Follows(trie, items[k].steps);
  }

  lemma ModSeenKnown(items: seq<Item>, trie: Trie, c: Core, q: Path, k: nat)
    requires BuiltFrom(items, trie) && k < |items| && q <= Indices(items[k].steps) && ModSeen(c, trie, q)
    ensures ModKnown(c, items[k].steps, |q|)
  {
    var steps := items[k].steps;
    assert Follows(trie, steps);
    forall j | 0 <= j < |q| && steps[j].kind == Mod
      ensures c.modrm.Some? && (ModOf(c.modrm.value) + 1) / 4 == steps[j].index
    {
      assert q[..j] == Indices(steps)[..j];
    }
  }

  /** One step of the walk, seen from an item on whose path it is. */
  lemma StepTaken(items: seq<Item>, trie: Trie, rem: seq<byte>, cfg: Config, c: Core, q: Path, k: nat)
    requires BuiltFrom(items, trie) && WfTrie(trie) && k < |items|
    requires IsTable(trie, q) && MayEnter(trie[q].kind, c) && trie[q].kind != ThreeDNow && ModSeen(c, trie, q)
    requires TrieStep(trie, rem, cfg, c, q).1 <= Indices(items[k].steps)
    requires Takes(items, rem, cfg, TrieStep(trie, rem, cfg, c, q).0, items[k].steps, |q| + 1)
    ensures Takes(items, rem, cfg, c, items[k].steps, |q|)
  {
    var steps, n := items[k].steps, |q|;
    var next := TrieStep(trie, rem, cfg, c, q).1;
    assert Indices(steps)[..n] == next[..n] == q && next[n] == steps[n].index;
    NodeOnPath(items, trie, q, k);
    ModSeenKnown(items, trie, c, q, k);
    assert NodeIsPrefix(items, trie, q + [Probe(steps[n].kind, c)]);
    if Repeat(steps, n) {
      RepeatIsFree(rem, cfg, c, steps, n, Offered(items, c, steps, n));
    }
  }

  lemma StepSeen(trie: Trie, rem: seq<byte>, cfg: Config, c: Core, q: Path)
    requires WfTrie(trie) && IsTable(trie, q) && MayEnter(trie[q].kind, c) && trie[q].kind != ThreeDNow
    requires ModSeen(c, trie, q)
    ensures ModSeen(TrieStep(trie, rem, cfg, c, q).0, trie, TrieStep(trie, rem, cfg, c, q).1)
  {
    var (c1, next) := TrieStep(trie, rem, cfg, c, q);
    forall j | 0 <= j < |next| && next[..j] in trie && trie[next[..j]] == Table(Mod)
      ensures c1.modrm.Some? && (ModOf(c1.modrm.value) + 1) / 4 == next[j]
    {
      if j < |q| {
        assert next[..j] == q[..j];
      } else {
        assert next[..j] == q;
      }
    }
  }

  /** A walk through the extension tables that stops at a node of the trie was taken by an item. */
  lemma {:induction false} ExtTaken(items: seq<Item>, trie: Trie, rem: seq<byte>, cfg: Config, c: Core, q: Path,
                                    bound: nat) returns (k: nat)
    requires BuiltFrom(items, trie) && WfTrie(trie) && Limit(trie, bound)
    requires q != [] && |q| <= bound + 1 && MayWalk(trie, c, q) && ModSeen(c, trie, q)
    requires TrieExtEnd(trie, rem, cfg, c, q, bound) in trie
    ensures k < |items| && q <= Indices(items[k].steps) && Takes(items, rem, cfg, c, items[k].steps, |q|)
    decreases bound + 1 - |q|
  {
    if !IsTable(trie, q) || trie[q].kind == ThreeDNow {
      k := ItemThrough(items, trie, q);
    } else {
      var (c1, next) := TrieStep(trie, rem, cfg, c, q);
      StepSeen(trie, rem, cfg, c, q);
      k := ExtTaken(items, trie, rem, cfg, c1, next, bound);
      StepTaken(items, trie, rem, cfg, c, q, k);
      assert q == next[..|q|];
    }
  }

  /** The same from an opcode table on. */
  lemma {:induction false} OpcodeTaken(items: seq<Item>, trie: Trie, rem: seq<byte>, cfg: Config, c: Core, q: Path,
                                       bound: nat) returns (k: nat)
    requires BuiltFrom(items, trie) && WfTrie(trie) && Limit(trie, bound) && Entering(c)
    requires q in trie && trie[q] == Table(OpcTbl) && OnlyOpcodes(trie, q)
    requires TrieOpcodeEnd(trie, rem, cfg, c, q, bound).Some?
    requires TrieOpcodeEnd(trie, rem, cfg, c, q, bound).value in trie
    ensures !c.insn.err && k < |items| && q + [c.curr] <= Indices(items[k].steps)
    ensures Takes(items, rem, cfg, c.(primary := Some(c.curr)), items[k].steps, |q| + 1)
    decreases bound + 1 - |q|
  {
    var c1, child := c.(primary := Some(c.curr)), q + [c.curr];
    OpcodesBelow(trie, q, c.curr);
    assert EdgeFine(trie, q, c.curr);
    if child in trie && trie[child] == Table(OpcTbl) {
      var c2 := Next(rem, c1).0;
      k := OpcodeTaken(items, trie, rem, cfg, c2, child, bound);
      var next := child + [c2.curr];
      assert child == next[..|child|] && next[|child|] == c2.curr;
      NodeOnPath(items, trie, child, k);
    } else {
      k := ExtTaken(items, trie, rem, cfg, c1, child, bound);
    }
  }

  /** Only opcode tables lead to `q`. */
  ghost predicate OnlyOpcodes(trie: Trie, q: Path) {
    forall j :: 0 <= j < |q| && q[..j] in trie ==> trie[q[..j]] == Table(OpcTbl)
  }

  lemma OpcodesBelow(trie: Trie, q: Path, i: nat)
    requires q in trie && trie[q] == Table(OpcTbl) && OnlyOpcodes(trie, q)
    ensures OnlyOpcodes(trie, q + [i]) && forall c :: ModSeen(c, trie, q + [i])
  {
    var child := q + [i];
    forall j | 0 <= j < |child| && child[..j] in trie
      ensures trie[child[..j]] == Table(OpcTbl)
    {
      assert child[..j] == if j < |q| then q[..j] else q;
    }
  }

  /** And an item that is taken leads to a node. */
  lemma EndGoesOn(trie: Trie, rem: seq<byte>, cfg: Config, c: Core, q: Path, bound: nat)
    requires WfTrie(trie) && Limit(trie, bound) && |q| <= bound
    requires IsTable(trie, q) && MayEnter(trie[q].kind, c) && trie[q].kind != ThreeDNow
    ensures var (c1, next) := TrieStep(trie, rem, cfg, c, q);
            TrieExtEnd(trie, rem, cfg, c, q, bound) == TrieExtEnd(trie, rem, cfg, c1, next, bound)
  {
  }

  lemma {:induction false} ExtStops(items: seq<Item>, trie: Trie, rem: seq<byte>, cfg: Config, c: Core,
                                    steps: seq<Step>, k: nat, n: nat, bound: nat)
    requires Setting(items, trie, steps, k, bound) && 1 <= n <= |steps|
    requires n < |steps| ==> steps[n].kind != OpcTbl
    requires Takes(items, rem, cfg, c, steps, n) && ModKnown(c, steps, n) && Clean(c)
    ensures |Indices(steps)[..n]| <= bound + 1 && MayWalk(trie, c, Indices(steps)[..n])
    ensures TrieExtEnd(trie, rem, cfg, c, Indices(steps)[..n], bound) in trie
    decreases |steps| - n
  {
    if n == |steps| {
      assert Indices(steps)[..n] == Indices(steps);
      AtLeaf(items, trie, steps, k, bound);
    } else if steps[n].kind == ThreeDNow {
      AtStep(items, trie, steps, k, bound, n);
    } else {
      var c1 := ExtStays(items, trie, rem, cfg, c, steps, k, n, bound);
      assert n < |steps| - 1 ==> MayFollow(steps[n], steps[n + 1]);
      ExtStops(items, trie, rem, cfg, c1, steps, k, n + 1, bound);
      EndGoesOn(trie, rem, cfg, c, Indices(steps)[..n], bound);
    }
  }

  lemma {:induction false} OpcodeStops(items: seq<Item>, trie: Trie, rem: seq<byte>, cfg: Config, c: Core,
                                       steps: seq<Step>, k: nat, n: nat, bound: nat)
    requires Setting(items, trie, steps, k, bound) && n < |steps| && steps[n].kind == OpcTbl
    requires forall j :: 0 <= j <= n ==> steps[j].kind == OpcTbl
    requires Entering(c) && !c.insn.err && c.curr == steps[n].index
    requires Takes(items, rem, cfg, c.(primary := Some(c.curr)), steps, n + 1)
    ensures var q := Indices(steps)[..n];
            && q in trie && trie[q] == Table(OpcTbl)
            && EndsInside(trie, TrieOpcodeEnd(trie, rem, cfg, c, q, bound))
    decreases |steps| - n
  {
    AtStep(items, trie, steps, k, bound, n);
    var c1 := c.(primary := Some(c.curr));
    var child := Indices(steps)[..n + 1];
    if n + 1 < |steps| && steps[n + 1].kind == OpcTbl {
      AtStep(items, trie, steps, k, bound, n + 1);
      OpcodeStops(items, trie, rem, cfg, Next(rem, c1).0, steps, k, n + 1, bound);
    } else {
      if n + 1 < |steps| { AtStep(items, trie, steps, k, bound, n + 1); }
      else { AtLeaf(items, trie, steps, k, bound); assert child == Indices(steps); }
      ExtStops(items, trie, rem, cfg, c1, steps, k, n + 1, bound);
    }
  }

  /** A walk over the trie stops at a node if and only if the input matches some item. */
  lemma TrieMatched(items: seq<Item>, trie: Trie, cfg: Config, rem: seq<byte>, bound: nat)
    requires BuiltFrom(items, trie) && AllWellOrdered(items) && WfTrie(trie) && Limit(trie, bound) && Rooted(items)
    ensures EndsInside(trie, TrieEnd(trie, cfg, rem, bound)) <==> MatchesSome(items, rem, cfg)
  {
    PrefixesEntering(rem, cfg, FRESH, 0);
    var c := DecodePrefixes(rem, cfg, FRESH, 0);
    if EndsInside(trie, TrieEnd(trie, cfg, rem, bound)) {
      var k := OpcodeTaken(items, trie, rem, cfg, c, [], bound);
      assert ([] + [c.curr])[0] == c.curr;
      assert Matches(items, rem, cfg, items[k].steps);
    }
    if MatchesSome(items, rem, cfg) {
      var k :| 0 <= k < |items| && Matches(items, rem, cfg, items[k].steps);
      OpcodeStops(items, trie, rem, cfg, c, items[k].steps, k, 0, bound);
      assert Indices(items[k].steps)[..0] == [];
    }
  }

  ghost predicate EndsInside(trie: Trie, end: Option<Path>) { end.Some? && end.value in trie }

  ghost predicate MatchesSome(items: seq<Item>, rem: seq<byte>, cfg: Config) {
    exists k :: 0 <= k < |items| && Matches(items, rem, cfg, items[k].steps)
  }

  // ----- The pipeline -----------------------------------------------------------------

  ghost predicate AllSound(defs: seq<InsnDef>) {
    forall i :: 0 <= i < |defs| ==> Sound(defs[i])
  }

  lemma SoundWellOrdered(defs: seq<InsnDef>)
    requires AllSound(defs)
    ensures AllWellOrdered(ItemsOf(defs))
  {
    forall k | 0 <= k < |defs|
      ensures WellOrdered(ItemsOf(defs)[k].steps)
    {
      PathWellOrdered(defs[k]);
    }
  }

  /** The trie leads a matching input to the last definition on its path. */
  lemma TrieReached(items: seq<Item>, trie: Trie, k: nat, cfg: Config, rem: seq<byte>, bound: nat)
    requires BuiltFrom(items, trie) && AllWellOrdered(items) && WfTrie(trie) && Limit(trie, bound)
    requires k < |items| && Rooted(items) && Matches(items, rem, cfg, items[k].steps)
    ensures var (d, t) := TrieWalk(trie, cfg, rem, bound);
            && t.Some? && Arrives(items, items[k].steps, t.value)
            && d == PathTaken(items, rem, cfg, items[k].steps)
  {
    var steps := items[k].steps;
    PrefixesEntering(rem, cfg, FRESH, 0);
    OpcodeFollows(items, trie, rem, cfg, DecodePrefixes(rem, cfg, FRESH, 0), steps, k, 0, bound);
    assert Indices(steps)[..0] == [];
  }

  /** What the flat form of an accepted sequence of sound definitions is. */
  ghost predicate FlatOf(defs: seq<InsnDef>, flat: Flat, loc: map<Path, nat>) {
    && BuildDefs(defs).Some? && AllSound(defs) && Encodes(flat, BuildDefs(defs).value, loc) && Fits(flat)
    && flat.itab != [] && flat.itab[0] == INVALID_ENTRY
  }

  /** Its trie. */
  lemma FlatTrie(defs: seq<InsnDef>, flat: Flat, loc: map<Path, nat>) returns (trie: Trie)
    requires FlatOf(defs, flat, loc)
    ensures BuiltFrom(ItemsOf(defs), trie) && AllWellOrdered(ItemsOf(defs)) && WfTrie(trie) && Rooted(ItemsOf(defs))
    ensures Compiled(flat, trie, loc) && WfFlat(flat)
  {
    trie := BuildDefs(defs).value;
    IndexableRooted(defs);
    BuildHolds(ItemsOf(defs));
    SoundWellOrdered(defs);
    BuiltIsWf(ItemsOf(defs), trie);
    CompiledIsWf(flat, trie, loc);
  }

  /** In the flat form an input that takes a definition's path is led to the last definition on it. */
  lemma PathReached(defs: seq<InsnDef>, k: nat, flat: Flat, loc: map<Path, nat>, cfg: Config, rem: seq<byte>)
    requires FlatOf(defs, flat, loc) && k < |defs| && Matches(ItemsOf(defs), rem, cfg, PathOf(defs[k]))
    ensures WfFlat(flat)
    ensures var (d, t) := Walk(flat, cfg, rem);
            && t.Some? && Arrives(ItemsOf(defs), PathOf(defs[k]), t.value)
            && d == PathTaken(ItemsOf(defs), rem, cfg, PathOf(defs[k]))
  {
    var trie := FlatTrie(defs, flat, loc);
    var bound := DepthExists(trie);
    TrieReached(ItemsOf(defs), trie, k, cfg, rem, bound);
    WalkSim(flat, trie, loc, cfg, rem, bound);
  }

  /** The walk ends at a row other than row 0, or at a 3DNow table, if and only if the input takes some
      definition's path; one that takes none is decoded as the invalid instruction. */
  lemma PathMatched(defs: seq<InsnDef>, flat: Flat, loc: map<Path, nat>, cfg: Config, rem: seq<byte>)
    requires FlatOf(defs, flat, loc)
    ensures WfFlat(flat)
    ensures WalkEnd(flat, cfg, rem).Some? && WalkEnd(flat, cfg, rem).value != 0 <==>
              MatchesSome(ItemsOf(defs), rem, cfg)
    ensures !MatchesSome(ItemsOf(defs), rem, cfg) ==> Decode(flat, cfg, rem).insn.entry == Some(INVALID_ENTRY)
  {
    var trie := FlatTrie(defs, flat, loc);
    var bound := DepthExists(trie);
    TrieMatched(ItemsOf(defs), trie, cfg, rem, bound);
    WalkSim(flat, trie, loc, cfg, rem, bound);
    if !MatchesSome(ItemsOf(defs), rem, cfg) {
      UnmatchedInvalid(flat, cfg, rem);
    }
  }

  /** A walk that an error stops, or that ends at row 0, leaves the invalid instruction. */
  lemma UnmatchedInvalid(flat: Flat, cfg: Config, rem: seq<byte>)
    requires WfFlat(flat) && (WalkEnd(flat, cfg, rem).Some? ==> WalkEnd(flat, cfg, rem).value == 0)
    ensures Decode(flat, cfg, rem).insn.entry == Some(flat.itab[0])
  {
    if WalkEnd(flat, cfg, rem).Some? {
      DecodeShows(flat, cfg, rem);
    } else {
      PrefixesEntering(rem, cfg, FRESH, 0);
      StoppedByError(flat, rem, cfg, DecodePrefixes(rem, cfg, FRESH, 0), 0);
    }
  }

  lemma {:induction false} StoppedByError(flat: Flat, rem: seq<byte>, cfg: Config, c: Core, g: nat)
    requires WfFlat(flat) && g < |flat.tables| && flat.tables[g].kind == OpcTbl && Entering(c)
    requires WalkOpcode(flat, rem, cfg, c, g).1.None?
    ensures WalkOpcode(flat, rem, cfg, c, g).0.insn.err
    decreases |flat.tables| - g
  {
    if !c.insn.err {
      var c1, ptr := c.(primary := Some(c.curr)), OpcodeEntry(flat, c, g);
      if NextOpcodeTable(flat, ptr) {
        StoppedByError(flat, rem, cfg, Next(rem, c1).0, ptr - GROUP_BIT);
      }
    }
  }

  /** The script: add every definition, then generate the tables.  None is the error exit. */
  method CompileDefs(defs: seq<InsnDef>) returns (r: Option<Flat>, ghost loc: map<Path, nat>)
    ensures r.Some? <==> BuildDefs(defs).Some?
    ensures r.Some? ==>
              && Encodes(r.value, BuildDefs(defs).value, loc)
              && r.value.itab != [] && r.value.itab[0] == INVALID_ENTRY
  {
    loc := map[];
    var tables := AddAll(defs);
    if tables.None? {
      return None, loc;
    }
    IndexableRooted(defs);
    BuildHolds(ItemsOf(defs));
    var generator := new UdItabGenerator();
    var flat;
    flat, loc := generator.Generate(tables.value);
    r := Some(flat);
  }

  /** The trie of all definitions. */
  method AddAll(defs: seq<InsnDef>) returns (r: Option<Trie>)
    ensures r == BuildDefs(defs)
  {
    var tables := new UdOpcodeTables();
    for n := 0 to |defs|
      invariant BuildDefs(defs[..n]) == Some(tables.nodes)
    {
      var ok := AddNext(tables, defs, n);
      if !ok {
        RefusedStays(defs, n + 1);
        return None;
      }
    }
    assert defs[..|defs|] == defs;
    return Some(tables.nodes);
  }

  method AddNext(tables: UdOpcodeTables, defs: seq<InsnDef>, n: nat) returns (ok: bool)
    requires n < |defs| && BuildDefs(defs[..n]) == Some(tables.nodes)
    modifies tables
    ensures ok == BuildDefs(defs[..n + 1]).Some?
    ensures ok ==> BuildDefs(defs[..n + 1]) == Some(tables.nodes)
  {
    ok := tables.AddInsnDef(defs[n], defs[..n], defs[..n + 1]);
  }

  lemma {:induction false} RefusedStays(defs: seq<InsnDef>, n: nat)
    requires n <= |defs| && BuildDefs(defs[..n]).None?
    ensures BuildDefs(defs).None?
    decreases |defs| - n
  {
    if n == |defs| {
      assert defs[..n] == defs;
    } else {
      var a, b := defs[..n], defs[..n + 1];
      if AllIndexable(b) {
        forall i | 0 <= i < n
          ensures Indexable(a[i].opcodes)
        {
          assert b[i] == a[i];
        }
        IndexableRooted(a);
        IndexableRooted(b);
        assert ItemsOf(b)[..n] == ItemsOf(a);
      }
      RefusedStays(defs, n + 1);
    }
  }
}
