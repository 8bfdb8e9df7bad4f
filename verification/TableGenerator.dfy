/** The flattening of the opcode trie into numbered lookup tables (ud_itab.py). */
module TableGenerator {
  import opened Bytes
  import opened Itab
  import opened OpcodeTrie

  /** A generated table: its kind and its row of 16-bit entries. */
  datatype LookupTable = LookupTable(kind: TableKind, row: seq<nat>)

  /** The generated program: ud_lookup_table_list and ud_itab. */
  datatype Flat = Flat(tables: seq<LookupTable>, itab: seq<Entry>)

  const GROUP_BIT: nat := 0x8000

  /** 0x8000 | id. */
  function ToGroupId(id: nat): (r: nat)
    ensures id < GROUP_BIT ==> r == GROUP_BIT + id
  {
    if (id / GROUP_BIT) % 2 == 1 then id else id + GROUP_BIT
  }

  // ----- What generation computes ------------------------------------------

  /** The generator's tables, and for the proofs the number each trie node received:
      a table's group number or an instruction's row in the instruction table. */
  datatype Gen = Gen(itab: seq<Entry>, meta: seq<TableKind>, lookup: map<nat, seq<nat>>, loc: map<Path, nat>)

  const START := Gen([INVALID_ENTRY], [], map[], map[])

  ghost predicate Bounded(trie: Trie, path: Path, depth: nat) {
    forall q :: q in trie ==> |q| <= |path| + depth
  }

  ghost predicate IsTable(trie: Trie, path: Path) {
    path in trie && trie[path].Table?
  }

  /** genLookupTable on the node at `path`: number the table, then its entries left to right. */
  ghost function GenTable(g: Gen, trie: Trie, path: Path, depth: nat): (r: (Gen, nat))
    requires IsTable(trie, path) && Bounded(trie, path, depth)
    decreases depth, 300
  {
    var tab := |g.meta|;
    var g1 := g.(meta := g.meta + [trie[path].kind], loc := g.loc[path := tab]);
    var (g2, row) := GenRow(g1, trie, path, SizeOf(trie[path].kind), depth);
    (g2.(lookup := g2.lookup[tab := row]), ToGroupId(tab))
  }

  /** The first `n` entries of the table at `path`. */
  ghost function GenRow(g: Gen, trie: Trie, path: Path, n: nat, depth: nat): (r: (Gen, seq<nat>))
    requires Bounded(trie, path, depth) && n <= 256
    decreases depth, n
  {
    if n == 0 then (g, [])
    else
      var (g1, row) := GenRow(g, trie, path, n - 1, depth);
      var (g2, entry) := GenEntry(g1, trie, path, n - 1, depth);
      (g2, row + [entry])
  }

  ghost function GenEntry(g: Gen, trie: Trie, path: Path, i: nat, depth: nat): (r: (Gen, nat))
    requires Bounded(trie, path, depth)
    decreases depth, 0
  {
    var q := path + [i];
    if q !in trie then (g, 0)
    else
      match trie[q]
      case Insn(e) => (g.(itab := g.itab + [e], loc := g.loc[q := |g.itab|]), |g.itab|)
      case Table(_) => GenTable(g, trie, q, depth - 1)
  }

  // ----- What it means to encode the trie -----------------------------------

  /** Entry `i` of the table made for `q` names the child of `q` at `i`, or is 0 without one. */
  ghost predicate EntryRight(g: Gen, trie: Trie, q: Path, i: nat)
    requires q in g.loc && g.loc[q] in g.lookup && i < |g.lookup[g.loc[q]]|
  {
    var c, entry := q + [i], g.lookup[g.loc[q]][i];
    if c !in trie then entry == 0
    else
      && c in g.loc
      && (trie[c].Insn? ==> entry == g.loc[c])
      && (trie[c].Table? ==> entry == ToGroupId(g.loc[c]) && g.loc[c] > g.loc[q])
  }

  ghost predicate Placed(g: Gen, trie: Trie, q: Path) {
    && q in g.loc && q in trie
    && match trie[q]
       case Insn(e) => 1 <= g.loc[q] < |g.itab| && g.itab[g.loc[q]] == e
       case Table(kind) =>
         && g.loc[q] < |g.meta| && g.meta[g.loc[q]] == kind
         && g.loc[q] in g.lookup && |g.lookup[g.loc[q]]| == SizeOf(kind)
         && forall i {:trigger EntryRight(g, trie, q, i)} :: 0 <= i < SizeOf(kind) ==> EntryRight(g, trie, q, i)
  }

  /** Nothing already generated is changed later. */
  ghost predicate Grew(g: Gen, g': Gen) {
    && g.itab <= g'.itab && g.meta <= g'.meta
    && (forall k :: k in g.lookup ==> k in g'.lookup && g'.lookup[k] == g.lookup[k])
    && (forall q :: q in g.loc ==> q in g'.loc && g'.loc[q] == g.loc[q])
  }

  lemma GrewTrans(a: Gen, b: Gen, c: Gen)
    requires Grew(a, b) && Grew(b, c)
    ensures Grew(a, c)
  {
  }

  lemma PlacedStays(g: Gen, g': Gen, trie: Trie, q: Path)
    requires Placed(g, trie, q) && Grew(g, g')
    ensures Placed(g', trie, q)
  {
    if trie[q].Table? {
      forall i | 0 <= i < SizeOf(trie[q].kind)
        ensures EntryRight(g', trie, q, i)
      {
        assert EntryRight(g, trie, q, i);
      }
    }
  }

  /** The table numbers made between two states are consecutive, and each has its row. */
  ghost predicate Contiguous(g: Gen, g': Gen) {
    && (forall k :: |g.meta| <= k < |g'.meta| ==> k in g'.lookup)
    && (forall k :: k in g'.lookup ==> k in g.lookup || |g.meta| <= k < |g'.meta|)
  }

  /** Every table number made between two states belongs to a table of the trie. */
  ghost predicate Owned(g: Gen, g': Gen, trie: Trie) {
    forall k :: |g.meta| <= k < |g'.meta| ==> Owner(g'.loc, trie, k)
  }

  ghost predicate Owner(loc: map<Path, nat>, trie: Trie, k: nat) {
    exists q :: q in loc && IsTable(trie, q) && loc[q] == k
  }

  lemma OwnerStays(g: Gen, g': Gen, trie: Trie, k: nat)
    requires Owner(g.loc, trie, k) && Grew(g, g')
    ensures Owner(g'.loc, trie, k)
  {
    var q :| q in g.loc && IsTable(trie, q) && g.loc[q] == k;
    assert q in g'.loc && g'.loc[q] == k;
  }

  /** Every node numbered between two states lies under `path` and is placed. */
  ghost predicate NewPlaced(g: Gen, g': Gen, trie: Trie, path: Path) {
    forall q :: q in g'.loc && q !in g.loc ==> path <= q && Placed(g', trie, q)
  }

  ghost predicate Ready(g: Gen) {
    g.itab != [] && forall k :: k in g.lookup ==> k < |g.meta|
  }

  /** No node under `path` has been numbered. */
  ghost predicate Untouched(g: Gen, path: Path) {
    forall q :: q in g.loc ==> !(path <= q)
  }

  /** Entries of `path` from `n` on have not been numbered. */
  ghost predicate UntouchedFrom(g: Gen, path: Path, n: nat) {
    forall q :: q in g.loc ==> Below(path, q, n)
  }

  /** A proper extension of `path` goes on with an index below `n`. */
  predicate Below(path: Path, q: Path, n: nat) { path < q ==> q[|path|] < n }

  ghost predicate RowRight(g: Gen, trie: Trie, q: Path, row: seq<nat>)
    requires q in g.loc
  {
    forall i :: 0 <= i < |row| ==>
      var c := q + [i];
      if c !in trie then row[i] == 0
      else
        && c in g.loc
        && (trie[c].Insn? ==> row[i] == g.loc[c])
        && (trie[c].Table? ==> row[i] == ToGroupId(g.loc[c]) && g.loc[c] > g.loc[q])
  }

  lemma {:induction false} GenTableHolds(g: Gen, trie: Trie, path: Path, depth: nat)
    requires IsTable(trie, path) && Bounded(trie, path, depth)
    requires Ready(g) && Untouched(g, path)
    ensures var (g', id) := GenTable(g, trie, path, depth);
            && Grew(g, g') && Contiguous(g, g') && NewPlaced(g, g', trie, path) && Owned(g, g', trie) && Ready(g')
            && path in g'.loc && g'.loc[path] == |g.meta| && id == ToGroupId(|g.meta|)
            && |g.meta| < |g'.meta|
    decreases depth, 300
  {
    var tab, size := |g.meta|, SizeOf(trie[path].kind);
    var g1 := g.(meta := g.meta + [trie[path].kind], loc := g.loc[path := tab]);
    var (g2, row) := GenRow(g1, trie, path, size, depth);
    GenRowHolds(g1, trie, path, size, depth);
    CloseTable(g, g1, g2, trie, path, row);
  }

  /** Storing the finished row places the table itself and disturbs nothing. */
  lemma CloseTable(g: Gen, g1: Gen, g2: Gen, trie: Trie, path: Path, row: seq<nat>)
    requires IsTable(trie, path) && Ready(g) && Untouched(g, path)
    requires g1 == g.(meta := g.meta + [trie[path].kind], loc := g.loc[path := |g.meta|])
    requires Grew(g1, g2) && Contiguous(g1, g2) && NewPlaced(g1, g2, trie, path) && Owned(g1, g2, trie) && Ready(g2)
    requires |row| == SizeOf(trie[path].kind) && path in g2.loc && RowRight(g2, trie, path, row)
    ensures var g' := g2.(lookup := g2.lookup[|g.meta| := row]);
            && Grew(g, g') && Contiguous(g, g') && NewPlaced(g, g', trie, path) && Owned(g, g', trie) && Ready(g')
            && path in g'.loc && g'.loc[path] == |g.meta| && |g.meta| < |g'.meta|
  {
    var tab := |g.meta|;
    var g' := g2.(lookup := g2.lookup[tab := row]);
    assert g1.meta[tab] == trie[path].kind && g2.meta[tab] == trie[path].kind;
    assert tab !in g2.lookup;
    assert Grew(g2, g');
    assert Placed(g', trie, path) by {
      forall i | 0 <= i < SizeOf(trie[path].kind)
        ensures EntryRight(g', trie, path, i)
      {
      }
    }
    forall q | q in g'.loc && q !in g.loc
      ensures path <= q && Placed(g', trie, q)
    {
      if q != path { PlacedStays(g2, g', trie, q); }
    }
    assert Owner(g'.loc, trie, tab) by { assert path in g'.loc && g'.loc[path] == tab; }
    forall k | |g.meta| <= k < |g'.meta|
      ensures Owner(g'.loc, trie, k)
    {
      if k != tab { OwnerStays(g2, g', trie, k); }
    }
  }

  lemma {:induction false} GenRowHolds(g: Gen, trie: Trie, path: Path, n: nat, depth: nat)
    requires Bounded(trie, path, depth) && n <= 256
    requires Ready(g) && UntouchedFrom(g, path, 0)
    requires path in g.loc && g.loc[path] < |g.meta|
    ensures var (g', row) := GenRow(g, trie, path, n, depth);
            && Grew(g, g') && Contiguous(g, g') && NewPlaced(g, g', trie, path) && Owned(g, g', trie) && Ready(g')
            && UntouchedFrom(g', path, n)
            && |row| == n && path in g'.loc && RowRight(g', trie, path, row)
    decreases depth, n
  {
    if n != 0 {
      var (g1, row) := GenRow(g, trie, path, n - 1, depth);
      GenRowHolds(g, trie, path, n - 1, depth);
      var (g2, entry) := GenEntry(g1, trie, path, n - 1, depth);
      assert GenRow(g, trie, path, n, depth) == (g2, row + [entry]);
      GenEntryHolds(g1, trie, path, n - 1, depth);
      ExtendRow(g, g1, g2, trie, path, row, entry);
    }
  }

  lemma ExtendRow(g: Gen, g1: Gen, g2: Gen, trie: Trie, path: Path, row: seq<nat>, entry: nat)
    requires Grew(g, g1) && Contiguous(g, g1) && NewPlaced(g, g1, trie, path) && Owned(g, g1, trie)
    requires Grew(g1, g2) && Contiguous(g1, g2) && NewPlaced(g1, g2, trie, path) && Owned(g1, g2, trie)
    requires path in g1.loc && path in g2.loc && RowRight(g1, trie, path, row)
    requires |g.meta| <= |g1.meta| <= |g2.meta|
    requires var c := path + [|row|];
             if c !in trie then entry == 0
             else
               && c in g2.loc
               && (trie[c].Insn? ==> entry == g2.loc[c])
               && (trie[c].Table? ==> entry == ToGroupId(g2.loc[c]) && g2.loc[c] > g2.loc[path])
    ensures Grew(g, g2) && Contiguous(g, g2) && NewPlaced(g, g2, trie, path) && Owned(g, g2, trie)
    ensures RowRight(g2, trie, path, row + [entry])
  {
    GrewTrans(g, g1, g2);
    forall q | q in g2.loc && q !in g.loc
      ensures path <= q && Placed(g2, trie, q)
    {
      if q in g1.loc { PlacedStays(g1, g2, trie, q); }
    }
    forall k | |g.meta| <= k < |g2.meta|
      ensures Owner(g2.loc, trie, k)
    {
      if k < |g1.meta| { OwnerStays(g1, g2, trie, k); }
    }
  }

  lemma {:induction false} GenEntryHolds(g: Gen, trie: Trie, path: Path, i: nat, depth: nat)
    requires Bounded(trie, path, depth)
    requires Ready(g) && UntouchedFrom(g, path, i)
    requires path in g.loc && g.loc[path] < |g.meta|
    ensures var (g', entry) := GenEntry(g, trie, path, i, depth);
            var c := path + [i];
            && Grew(g, g') && Contiguous(g, g') && NewPlaced(g, g', trie, path) && Owned(g, g', trie) && Ready(g')
            && UntouchedFrom(g', path, i + 1) && |g.meta| <= |g'.meta| && path in g'.loc
            && (if c !in trie then entry == 0
                else
                  && c in g'.loc
                  && (trie[c].Insn? ==> entry == g'.loc[c])
                  && (trie[c].Table? ==> entry == ToGroupId(g'.loc[c]) && g'.loc[c] > g'.loc[path]))
    decreases depth, 0
  {
    var c := path + [i];
    if c in trie {
      assert c[|path|] == i && path < c;
      assert Untouched(g, c) by {
        forall q | q in g.loc && path < q
          ensures q[|path|] != i
        {
        }
      }
      if trie[c].Table? {
        GenTableHolds(g, trie, c, depth - 1);
        var (g', id) := GenTable(g, trie, c, depth - 1);
        forall q | q in g'.loc && path < q
          ensures q[|path|] < i + 1
        {
          if q !in g.loc { assert c <= q; }
        }
      }
    }
  }

  /** The trie in flat form: table 0 is the root, every numbered node is placed, and every
      table belongs to a node. */
  ghost predicate Encodes(flat: Flat, trie: Trie, loc: map<Path, nat>) {
    && [] in loc && loc[[]] == 0
    && (forall q {:trigger PlacedFlat(flat, trie, loc, q)} :: q in loc ==> PlacedFlat(flat, trie, loc, q))
    && (forall k {:trigger Owner(loc, trie, k)} :: 0 <= k < |flat.tables| ==> Owner(loc, trie, k))
  }

  ghost predicate PlacedFlat(flat: Flat, trie: Trie, loc: map<Path, nat>, q: Path)
    requires q in loc
  {
    && q in trie
    && match trie[q]
       case Insn(e) => 1 <= loc[q] < |flat.itab| && flat.itab[loc[q]] == e
       case Table(kind) =>
         && loc[q] < |flat.tables| && flat.tables[loc[q]].kind == kind
         && |flat.tables[loc[q]].row| == SizeOf(kind)
         && forall i {:trigger ChildRight(flat.tables[loc[q]].row[i], trie, loc, q, i)} ::
              0 <= i < SizeOf(kind) ==> ChildRight(flat.tables[loc[q]].row[i], trie, loc, q, i)
  }

  /** The entry for child `i` of `q`. */
  ghost predicate ChildRight(entry: nat, trie: Trie, loc: map<Path, nat>, q: Path, i: nat)
    requires q in loc
  {
    var c := q + [i];
    if c !in trie then entry == 0
    else
      && c in loc
      && (trie[c].Insn? ==> entry == loc[c])
      && (trie[c].Table? ==> entry == ToGroupId(loc[c]) && loc[c] > loc[q])
  }

  /** genLookupTableList pairs each table's kind with its row. */
  ghost function Listing(g: Gen): Flat
    requires forall k :: 0 <= k < |g.meta| ==> k in g.lookup
  {
    Flat(seq(|g.meta|, i requires 0 <= i < |g.meta| && i in g.lookup => LookupTable(g.meta[i], g.lookup[i])), g.itab)
  }

  lemma PlacedIsFlat(g: Gen, trie: Trie, q: Path)
    requires forall k :: 0 <= k < |g.meta| ==> k in g.lookup
    requires Placed(g, trie, q)
    ensures PlacedFlat(Listing(g), trie, g.loc, q)
  {
    if trie[q].Table? {
      forall i | 0 <= i < SizeOf(trie[q].kind)
        ensures ChildRight(Listing(g).tables[g.loc[q]].row[i], trie, g.loc, q, i)
      {
        assert EntryRight(g, trie, q, i);
      }
    }
  }

  /** Generating from the root encodes the whole trie. */
  lemma GenerateEncodes(trie: Trie, depth: nat)
    requires IsTable(trie, []) && Bounded(trie, [], depth)
    ensures var g := GenTable(START, trie, [], depth).0;
            && (forall k :: 0 <= k < |g.meta| ==> k in g.lookup)
            && Listing(g).itab != [] && Listing(g).itab[0] == INVALID_ENTRY
            && Encodes(Listing(g), trie, g.loc)
  {
    var g := GenTable(START, trie, [], depth).0;
    GenTableHolds(START, trie, [], depth);
    forall q | q in g.loc
      ensures PlacedFlat(Listing(g), trie, g.loc, q)
    {
      PlacedIsFlat(g, trie, q);
    }
  }

  // ----- The generator ------------------------------------------------------

  lemma {:induction false} DepthExists(trie: Trie) returns (depth: nat)
    ensures Bounded(trie, [], depth)
    decreases |trie|
  {
    if trie == map[] {
      depth := 0;
    } else {
      var p :| p in trie;
      var rest := trie - {p};
      assert rest.Keys == trie.Keys - {p};
      var d := DepthExists(rest);
      depth := if d < |p| then |p| else d;
      forall q | q in trie
        ensures |q| <= depth
      {
        if q != p { assert q in rest; }
      }
    }
  }

  /** UdItabGenerator: the counters and tables that genLookupTable advances. */
  class UdItabGenerator {
    var itab: seq<Entry>
    var itabIdx: nat
    var gtabIdx: nat
    var gtabMeta: seq<TableKind>
    var itabLookup: map<nat, seq<nat>>
    ghost var loc: map<Path, nat>

    ghost predicate Valid()
      reads this
    {
      itabIdx == |itab| && gtabIdx == |gtabMeta|
    }

    ghost function State(): Gen
      reads this
    {
      Gen(itab, gtabMeta, itabLookup, loc)
    }

    constructor ()
      ensures Valid() && State() == START
    {
      itab, itabIdx := [INVALID_ENTRY], 1;
      gtabIdx, gtabMeta, itabLookup := 0, [], map[];
      loc := map[];
    }

    method GenLookupTable(trie: Trie, path: Path, ghost depth: nat) returns (id: nat)
      requires Valid() && IsTable(trie, path) && Bounded(trie, path, depth)
      modifies this
      ensures Valid() && (State(), id) == GenTable(old(State()), trie, path, depth)
      decreases depth
    {
      var idxArray: seq<nat> := [];
      var tabIdx := gtabIdx;
      gtabIdx := gtabIdx + 1;
      gtabMeta := gtabMeta + [trie[path].kind];
      loc := loc[path := tabIdx];
      ghost var g1 := State();
      var size := SizeOf(trie[path].kind);
      for idx := 0 to size
        invariant Valid() && (State(), idxArray) == GenRow(g1, trie, path, idx, depth)
      {
        var i := 0;
        if path + [idx] in trie {
          var e := trie[path + [idx]];
          if e.Insn? {
            i := itabIdx;
            itabIdx := itabIdx + 1;
            itab := itab + [e.entry];
            loc := loc[path + [idx] := i];
          } else {
            i := GenLookupTable(trie, path + [idx], depth - 1);
          }
        }
        idxArray := idxArray + [i];
      }
      itabLookup := itabLookup[tabIdx := idxArray];
      id := ToGroupId(tabIdx);
    }

    method GenLookupTableList() returns (tables: seq<LookupTable>)
      requires forall k :: 0 <= k < |gtabMeta| ==> k in itabLookup
      ensures tables == Listing(State()).tables
    {
      tables := [];
      for i := 0 to |gtabMeta|
        invariant tables == Listing(State()).tables[..i]
      {
        tables := tables + [LookupTable(gtabMeta[i], itabLookup[i])];
      }
    }

    /** genItabC: the flat form of any trie encodes it. */
    method Generate(trie: Trie) returns (flat: Flat, ghost numbering: map<Path, nat>)
      requires Valid() && State() == START && IsTable(trie, [])
      modifies this
      ensures Encodes(flat, trie, numbering) && flat.itab != [] && flat.itab[0] == INVALID_ENTRY
    {
      ghost var depth := DepthExists(trie);
      var root := GenLookupTable(trie, [], depth);
      GenerateEncodes(trie, depth);
      var tables := GenLookupTableList();
      flat := Flat(tables, itab);
      numbering := loc;
    }
  }
}
