/** Correctness of the table compiler: walking the flat tables does what walking the trie does. */
module TableWalk {
  import opened Bytes
  import opened Itab
  import opened OpcodeTrie
  import opened OpcodeTables
  import opened TableGenerator
  import opened DecoderState
  import opened Operands
  import opened Decoder

  // ----- The meaning of a trie ---------------------------------------------------

  /** Kinds on the trie's edges follow each other as the decoder relies on. */
  ghost predicate WfTrie(trie: Trie) {
    && [] in trie && trie[[]] == Table(OpcTbl)
    && forall q, i :: EdgeFine(trie, q, i)
  }

  ghost predicate EdgeFine(trie: Trie, q: Path, i: nat) {
    IsTable(trie, q) && IsTable(trie, q + [i]) ==> MayFollow(Step(trie[q].kind, i), Step(trie[q + [i]].kind, 0))
  }

  ghost predicate Limit(trie: Trie, bound: nat) {
    forall q :: q in trie ==> |q| <= bound
  }

  /** The instruction at a path, or the invalid one. */
  ghost function EntryAt(trie: Trie, q: Path): Entry {
    if q in trie && trie[q].Insn? then trie[q].entry else INVALID_ENTRY
  }

  ghost predicate MayWalk(trie: Trie, c: Core, path: Path) {
    IsTable(trie, path) ==> MayEnter(trie[path].kind, c)
  }

  ghost function TrieStep(trie: Trie, rem: seq<byte>, cfg: Config, c: Core, path: Path): (r: (Core, Path))
    requires WfTrie(trie) && IsTable(trie, path) && MayEnter(trie[path].kind, c) && trie[path].kind != ThreeDNow
    ensures |r.1| == |path| + 1 && MayWalk(trie, r.0, r.1)
  {
    var kind := trie[path].kind;
    var present := Probe(kind, c) < SizeOf(kind) && path + [Probe(kind, c)] in trie;
    var (c1, idx) := Choose(rem, cfg, c, kind, present);
    assert EdgeFine(trie, path, idx);
    (c1, path + [idx])
  }

  ghost function TrieWalkExt(trie: Trie, rem: seq<byte>, cfg: Config, c: Core, path: Path,
                             bound: nat): (r: (Core, Target))
    requires WfTrie(trie) && Limit(trie, bound) && |path| <= bound + 1 && MayWalk(trie, c, path)
    decreases bound + 1 - |path|
  {
    if !IsTable(trie, path) then (c, Row(EntryAt(trie, path)))
    else if trie[path].kind == ThreeDNow then
      (c, Now(EntryAt(trie, path + [0x0c]), seq(256, b requires 0 <= b < 256 => EntryAt(trie, path + [b]).mnemonic)))
    else
      var (c1, next) := TrieStep(trie, rem, cfg, c, path);
      TrieWalkExt(trie, rem, cfg, c1, next, bound)
  }

  ghost function TrieWalkOpcode(trie: Trie, rem: seq<byte>, cfg: Config, c: Core, path: Path,
                                bound: nat): (r: (Core, Option<Target>))
    requires WfTrie(trie) && Limit(trie, bound) && Entering(c)
    requires path in trie && trie[path] == Table(OpcTbl)
    decreases bound + 1 - |path|
  {
    if c.insn.err then (c, None)
    else
      var c1, q := c.(primary := Some(c.curr)), path + [c.curr];
      if q in trie && trie[q] == Table(OpcTbl) then TrieWalkOpcode(trie, rem, cfg, Next(rem, c1).0, q, bound)
      else
        assert EdgeFine(trie, path, c.curr);
        var (c2, t) := TrieWalkExt(trie, rem, cfg, c1, q, bound);
        (c2, Some(t))
  }

  /** Decoding by the trie: no numbering, no table list. */
  ghost function TrieWalk(trie: Trie, cfg: Config, rem: seq<byte>, bound: nat): (r: (Core, Option<Target>))
    requires WfTrie(trie) && Limit(trie, bound)
  {
    PrefixesEntering(rem, cfg, FRESH, 0);
    TrieWalkOpcode(trie, rem, cfg, DecodePrefixes(rem, cfg, FRESH, 0), [], bound)
  }

  // ----- The flat tables are well formed ------------------------------------------

  /** Numbers that the 16-bit entries and their group bit can hold. */
  ghost predicate Fits(flat: Flat) {
    |flat.tables| <= GROUP_BIT && |flat.itab| <= GROUP_BIT
  }

  ghost predicate Compiled(flat: Flat, trie: Trie, loc: map<Path, nat>) {
    Encodes(flat, trie, loc) && Fits(flat) && flat.itab != [] && flat.itab[0] == INVALID_ENTRY && WfTrie(trie)
  }

  /** The entry that stands for the node at `q`. */
  ghost function PtrOf(trie: Trie, loc: map<Path, nat>, q: Path): nat
    requires q in trie ==> q in loc
  {
    if q !in trie then 0 else if trie[q].Insn? then loc[q] else GROUP_BIT + loc[q]
  }

  lemma ChildPtr(flat: Flat, trie: Trie, loc: map<Path, nat>, q: Path, i: nat)
    requires Compiled(flat, trie, loc) && q in loc && IsTable(trie, q) && i < SizeOf(trie[q].kind)
    ensures loc[q] < |flat.tables| && flat.tables[loc[q]].kind == trie[q].kind
    ensures |flat.tables[loc[q]].row| == SizeOf(trie[q].kind)
    ensures q + [i] in trie ==> q + [i] in loc
    ensures flat.tables[loc[q]].row[i] == PtrOf(trie, loc, q + [i])
    ensures PtrOf(trie, loc, q + [i]) == 0 <==> q + [i] !in trie
    ensures IsGroup(PtrOf(trie, loc, q + [i])) <==> IsTable(trie, q + [i])
    ensures WfEntry(flat, loc[q], i, flat.tables[loc[q]].row[i])
  {
    assert PlacedFlat(flat, trie, loc, q);
    assert ChildRight(flat.tables[loc[q]].row[i], trie, loc, q, i);
    assert EdgeFine(trie, q, i);
    if q + [i] in trie { assert PlacedFlat(flat, trie, loc, q + [i]); }
  }

  /** Generated tables satisfy everything the decoder relies on. */
  lemma CompiledIsWf(flat: Flat, trie: Trie, loc: map<Path, nat>)
    requires Compiled(flat, trie, loc)
    ensures WfFlat(flat)
  {
    assert PlacedFlat(flat, trie, loc, []);
    forall g | 0 <= g < |flat.tables|
      ensures WfTable(flat, g)
    {
      assert Owner(loc, trie, g);
      var q :| q in loc && IsTable(trie, q) && loc[q] == g;
      ChildPtr(flat, trie, loc, q, 0);
      forall i | 0 <= i < SizeOf(trie[q].kind)
        ensures WfEntry(flat, g, i, flat.tables[g].row[i])
      {
        ChildPtr(flat, trie, loc, q, i);
      }
    }
  }

  // ----- Simulation -----------------------------------------------------------------

  lemma EntryPtr(flat: Flat, trie: Trie, loc: map<Path, nat>, q: Path)
    requires Compiled(flat, trie, loc) && (q in trie ==> q in loc) && !IsTable(trie, q)
    ensures PtrOf(trie, loc, q) < |flat.itab| && !IsGroup(PtrOf(trie, loc, q))
    ensures flat.itab[PtrOf(trie, loc, q)] == EntryAt(trie, q)
  {
    if q in trie { assert PlacedFlat(flat, trie, loc, q); }
  }

  lemma StepSim(flat: Flat, trie: Trie, loc: map<Path, nat>, rem: seq<byte>, cfg: Config, c: Core, q: Path)
    requires Compiled(flat, trie, loc) && WfFlat(flat) && q in loc && IsTable(trie, q)
    requires MayEnter(trie[q].kind, c) && trie[q].kind != ThreeDNow
    ensures loc[q] < |flat.tables| && flat.tables[loc[q]].kind == trie[q].kind
    ensures var (c1, next) := TrieStep(trie, rem, cfg, c, q);
            && (next in trie ==> next in loc)
            && ExtStep(flat, rem, cfg, c, loc[q]) == (c1, PtrOf(trie, loc, next))
  {
    var kind := trie[q].kind;
    var probe := Probe(kind, c);
    ChildPtr(flat, trie, loc, q, 0);
    if probe < SizeOf(kind) { ChildPtr(flat, trie, loc, q, probe); }
    var present := probe < SizeOf(kind) && q + [probe] in trie;
    ChildPtr(flat, trie, loc, q, Choose(rem, cfg, c, kind, present).1);
  }

  lemma NowSim(flat: Flat, trie: Trie, loc: map<Path, nat>, q: Path)
    requires Compiled(flat, trie, loc) && WfFlat(flat) && q in loc && IsTable(trie, q) && trie[q].kind == ThreeDNow
    ensures loc[q] < |flat.tables| && flat.tables[loc[q]].kind == ThreeDNow
    ensures Target3dnow(flat, loc[q]) ==
            Now(EntryAt(trie, q + [0x0c]), seq(256, b requires 0 <= b < 256 => EntryAt(trie, q + [b]).mnemonic))
  {
    ChildPtr(flat, trie, loc, q, 0);
    forall b | 0 <= b < 256
      ensures Row3dnow(flat, loc[q], b) == EntryAt(trie, q + [b])
    {
      ChildPtr(flat, trie, loc, q, b);
      EntryPtr(flat, trie, loc, q + [b]);
    }
  }

  lemma WalkGoesOn(trie: Trie, rem: seq<byte>, cfg: Config, c: Core, q: Path, bound: nat)
    requires WfTrie(trie) && Limit(trie, bound) && |q| <= bound
    requires IsTable(trie, q) && MayEnter(trie[q].kind, c) && trie[q].kind != ThreeDNow
    ensures var (c1, next) := TrieStep(trie, rem, cfg, c, q);
            TrieWalkExt(trie, rem, cfg, c, q, bound) == TrieWalkExt(trie, rem, cfg, c1, next, bound)
  {
  }

  lemma {:induction false} WalkExtSim(flat: Flat, trie: Trie, loc: map<Path, nat>, rem: seq<byte>, cfg: Config,
                                      c: Core, q: Path,
                                      bound: nat)
    requires Compiled(flat, trie, loc) && WfFlat(flat) && Limit(trie, bound)
    requires (q in trie ==> q in loc) && |q| <= bound + 1 && MayWalk(trie, c, q)
    ensures ValidPtr(flat, c, PtrOf(trie, loc, q))
    ensures WalkExt(flat, rem, cfg, c, PtrOf(trie, loc, q)) == TrieWalkExt(trie, rem, cfg, c, q, bound)
    decreases bound + 1 - |q|
  {
    if !IsTable(trie, q) {
      EntryPtr(flat, trie, loc, q);
    } else if trie[q].kind == ThreeDNow {
      NowSim(flat, trie, loc, q);
    } else {
      StepSim(flat, trie, loc, rem, cfg, c, q);
      var (c1, next) := TrieStep(trie, rem, cfg, c, q);
      WalkExtSim(flat, trie, loc, rem, cfg, c1, next, bound);
      WalkGoesOn(trie, rem, cfg, c, q, bound);
      FlatGoesOn(flat, rem, cfg, c, loc[q]);
    }
  }

  /** What an opcode table's entry for the current byte says about the child. */
  lemma OpcodeEntrySim(flat: Flat, trie: Trie, loc: map<Path, nat>, c: Core, q: Path)
    requires Compiled(flat, trie, loc) && WfFlat(flat) && Entering(c)
    requires q in loc && q in trie && trie[q] == Table(OpcTbl)
    ensures loc[q] < |flat.tables| && flat.tables[loc[q]].kind == OpcTbl
    ensures var child := q + [c.curr];
            && (child in trie ==> child in loc)
            && OpcodeEntry(flat, c, loc[q]) == PtrOf(trie, loc, child)
            && (NextOpcodeTable(flat, PtrOf(trie, loc, child)) <==> child in trie && trie[child] == Table(OpcTbl))
            && (!(child in trie && trie[child] == Table(OpcTbl)) ==> MayWalk(trie, c, child))
  {
    ChildPtr(flat, trie, loc, q, c.curr);
    assert EdgeFine(trie, q, c.curr);
    if IsTable(trie, q + [c.curr]) { ChildPtr(flat, trie, loc, q + [c.curr], 0); }
  }

  lemma {:induction false} WalkOpcodeSim(flat: Flat, trie: Trie, loc: map<Path, nat>, rem: seq<byte>, cfg: Config,
                                         c: Core,
                                         q: Path, bound: nat)
    requires Compiled(flat, trie, loc) && WfFlat(flat) && Limit(trie, bound) && Entering(c)
    requires q in loc && q in trie && trie[q] == Table(OpcTbl)
    ensures loc[q] < |flat.tables| && flat.tables[loc[q]].kind == OpcTbl
    ensures WalkOpcode(flat, rem, cfg, c, loc[q]) == TrieWalkOpcode(trie, rem, cfg, c, q, bound)
    decreases bound + 1 - |q|
  {
    OpcodeEntrySim(flat, trie, loc, c, q);
    if !c.insn.err {
      var c1, child := c.(primary := Some(c.curr)), q + [c.curr];
      if child in trie && trie[child] == Table(OpcTbl) {
        WalkOpcodeSim(flat, trie, loc, rem, cfg, Next(rem, c1).0, child, bound);
      } else {
        OpcodesEndSim(flat, trie, loc, rem, cfg, c, q, bound);
      }
    }
  }

  /** At the last opcode table. */
  lemma OpcodesEndSim(flat: Flat, trie: Trie, loc: map<Path, nat>, rem: seq<byte>, cfg: Config, c: Core, q: Path,
                      bound: nat)
    requires Compiled(flat, trie, loc) && WfFlat(flat) && Limit(trie, bound) && Entering(c)
    requires q in loc && q in trie && trie[q] == Table(OpcTbl) && !c.insn.err
    requires var child := q + [c.curr]; !(child in trie && trie[child] == Table(OpcTbl))
    ensures loc[q] < |flat.tables| && flat.tables[loc[q]].kind == OpcTbl
    ensures WalkOpcode(flat, rem, cfg, c, loc[q]) == TrieWalkOpcode(trie, rem, cfg, c, q, bound)
  {
    OpcodeEntrySim(flat, trie, loc, c, q);
    WalkExtSim(flat, trie, loc, rem, cfg, c.(primary := Some(c.curr)), q + [c.curr], bound);
  }

  // ----- The entry at which the walk stops ---------------------------------------------

  /** The entry of the flat tables at which decode_ext stops. */
  ghost function ExtEnd(flat: Flat, rem: seq<byte>, cfg: Config, c: Core, ptr: nat): (r: nat)
    requires WfFlat(flat) && ValidPtr(flat, c, ptr)
    ensures IsLeaf(flat, r) && WalkExt(flat, rem, cfg, c, ptr).1 == TargetAt(flat, r)
    decreases Ahead(flat, ptr)
  {
    if IsLeaf(flat, ptr) then ptr
    else
      var (c1, next) := ExtStep(flat, rem, cfg, c, ptr - GROUP_BIT);
      ExtEnd(flat, rem, cfg, c1, next)
  }

  ghost function OpcodeEnd(flat: Flat, rem: seq<byte>, cfg: Config, c: Core, g: nat): (r: Option<nat>)
    requires WfFlat(flat) && g < |flat.tables| && flat.tables[g].kind == OpcTbl && Entering(c)
    ensures r.Some? ==> IsLeaf(flat, r.value)
    ensures WalkOpcode(flat, rem, cfg, c, g).1 == if r.Some? then Some(TargetAt(flat, r.value)) else None
    decreases |flat.tables| - g
  {
    if c.insn.err then None
    else
      var c1 := c.(primary := Some(c.curr));
      var ptr := OpcodeEntry(flat, c, g);
      if NextOpcodeTable(flat, ptr) then OpcodeEnd(flat, rem, cfg, Next(rem, c1).0, ptr - GROUP_BIT)
      else Some(ExtEnd(flat, rem, cfg, c1, ptr))
  }

  ghost function WalkEnd(flat: Flat, cfg: Config, rem: seq<byte>): (r: Option<nat>)
    requires WfFlat(flat)
    ensures r.Some? ==> IsLeaf(flat, r.value)
    ensures Walk(flat, cfg, rem).1 == if r.Some? then Some(TargetAt(flat, r.value)) else None
  {
    PrefixesEntering(rem, cfg, FRESH, 0);
    OpcodeEnd(flat, rem, cfg, DecodePrefixes(rem, cfg, FRESH, 0), 0)
  }

  /** The path at which a walk over the trie stops. */
  ghost function TrieExtEnd(trie: Trie, rem: seq<byte>, cfg: Config, c: Core, path: Path, bound: nat): (r: Path)
    requires WfTrie(trie) && Limit(trie, bound) && |path| <= bound + 1 && MayWalk(trie, c, path)
    decreases bound + 1 - |path|
  {
    if !IsTable(trie, path) || trie[path].kind == ThreeDNow then path
    else
      var (c1, next) := TrieStep(trie, rem, cfg, c, path);
      TrieExtEnd(trie, rem, cfg, c1, next, bound)
  }

  ghost function TrieOpcodeEnd(trie: Trie, rem: seq<byte>, cfg: Config, c: Core, path: Path,
                               bound: nat): (r: Option<Path>)
    requires WfTrie(trie) && Limit(trie, bound) && Entering(c)
    requires path in trie && trie[path] == Table(OpcTbl)
    decreases bound + 1 - |path|
  {
    if c.insn.err then None
    else
      var c1, q := c.(primary := Some(c.curr)), path + [c.curr];
      if q in trie && trie[q] == Table(OpcTbl) then TrieOpcodeEnd(trie, rem, cfg, Next(rem, c1).0, q, bound)
      else
        assert EdgeFine(trie, path, c.curr);
        Some(TrieExtEnd(trie, rem, cfg, c1, q, bound))
  }

  ghost function TrieEnd(trie: Trie, cfg: Config, rem: seq<byte>, bound: nat): (r: Option<Path>)
    requires WfTrie(trie) && Limit(trie, bound)
  {
    PrefixesEntering(rem, cfg, FRESH, 0);
    TrieOpcodeEnd(trie, rem, cfg, DecodePrefixes(rem, cfg, FRESH, 0), [], bound)
  }

  lemma {:induction false} ExtEndSim(flat: Flat, trie: Trie, loc: map<Path, nat>, rem: seq<byte>, cfg: Config, c: Core,
                                     q: Path, bound: nat)
    requires Compiled(flat, trie, loc) && WfFlat(flat) && Limit(trie, bound)
    requires (q in trie ==> q in loc) && |q| <= bound + 1 && MayWalk(trie, c, q)
    ensures ValidPtr(flat, c, PtrOf(trie, loc, q))
    ensures var end := TrieExtEnd(trie, rem, cfg, c, q, bound);
            (end in trie ==> end in loc) && ExtEnd(flat, rem, cfg, c, PtrOf(trie, loc, q)) == PtrOf(trie, loc, end)
    decreases bound + 1 - |q|
  {
    if !IsTable(trie, q) {
      EntryPtr(flat, trie, loc, q);
    } else if trie[q].kind == ThreeDNow {
      NowSim(flat, trie, loc, q);
    } else {
      StepSim(flat, trie, loc, rem, cfg, c, q);
      var (c1, next) := TrieStep(trie, rem, cfg, c, q);
      ExtEndSim(flat, trie, loc, rem, cfg, c1, next, bound);
    }
  }

  lemma {:induction false} OpcodeEndSim(flat: Flat, trie: Trie, loc: map<Path, nat>, rem: seq<byte>, cfg: Config,
                                        c: Core, q: Path, bound: nat)
    requires Compiled(flat, trie, loc) && WfFlat(flat) && Limit(trie, bound) && Entering(c)
    requires q in loc && q in trie && trie[q] == Table(OpcTbl)
    ensures loc[q] < |flat.tables| && flat.tables[loc[q]].kind == OpcTbl
    ensures EndsAgree(trie, loc, OpcodeEnd(flat, rem, cfg, c, loc[q]), TrieOpcodeEnd(trie, rem, cfg, c, q, bound))
    decreases bound + 1 - |q|
  {
    OpcodeEntrySim(flat, trie, loc, c, q);
    if !c.insn.err {
      var c1, child := c.(primary := Some(c.curr)), q + [c.curr];
      if child in trie && trie[child] == Table(OpcTbl) {
        OpcodeEndSim(flat, trie, loc, rem, cfg, Next(rem, c1).0, child, bound);
      } else {
        ExtEndSim(flat, trie, loc, rem, cfg, c1, child, bound);
      }
    }
  }

  /** An entry stands for the node at a path. */
  ghost predicate EndsAgree(trie: Trie, loc: map<Path, nat>, ptr: Option<nat>, end: Option<Path>) {
    && (ptr.Some? <==> end.Some?)
    && (end.Some? ==> (end.value in trie ==> end.value in loc) && ptr.value == PtrOf(trie, loc, end.value))
  }

  /** Compiler correctness: for every trie, every input and every decoder configuration, the
      flat tables lead where the trie leads, with the same decoder state, and to row 0 if and only if
      the trie has nothing there. */
  lemma WalkSim(flat: Flat, trie: Trie, loc: map<Path, nat>, cfg: Config, rem: seq<byte>, bound: nat)
    requires Compiled(flat, trie, loc) && Limit(trie, bound)
    ensures WfFlat(flat)
    ensures Walk(flat, cfg, rem) == TrieWalk(trie, cfg, rem, bound)
    ensures EndsAgree(trie, loc, WalkEnd(flat, cfg, rem), TrieEnd(trie, cfg, rem, bound))
    ensures var ptr, end := WalkEnd(flat, cfg, rem), TrieEnd(trie, cfg, rem, bound);
            end.Some? ==> (ptr.value == 0 <==> end.value !in trie)
  {
    CompiledIsWf(flat, trie, loc);
    PrefixesEntering(rem, cfg, FRESH, 0);
    WalkOpcodeSim(flat, trie, loc, rem, cfg, DecodePrefixes(rem, cfg, FRESH, 0), [], bound);
    OpcodeEndSim(flat, trie, loc, rem, cfg, DecodePrefixes(rem, cfg, FRESH, 0), [], bound);
    var end := TrieEnd(trie, cfg, rem, bound);
    if end.Some? && end.value in trie {
      assert PlacedFlat(flat, trie, loc, end.value);
    }
  }
}
