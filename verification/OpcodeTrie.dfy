/** The trie of opcode tables that ud_opcode.py grows in place.

    The script nests dictionaries: a table maps an index to a table or to an
    instruction.  A nested dictionary is kept here as one map from the path of
    indices that leads to a node to that node, so that the in-place update of an
    inner dictionary is an update of this map.  Indices, which the script writes
    as two-digit hexadecimal strings, are numbers. */
module OpcodeTrie {
  import opened Bytes
  import opened Itab

  datatype TableKind =
    | OpcTbl | Sse | Reg | Rm | Mod | Mode | X87 | ASize | OSize | ThreeDNow | Vendor

  function SizeOf(kind: TableKind): (n: nat)
    ensures 2 <= n <= 256
  {
    match kind
    case OpcTbl => 256
    case Sse => 4
    case Reg => 8
    case Rm => 8
    case Mod => 2
    case Mode => 2
    case X87 => 64
    case ASize => 3
    case OSize => 3
    case ThreeDNow => 256
    case Vendor => 3
  }

  /** One step down the trie: the kind of the table stepped from and the index taken in it. */
  datatype Step = Step(kind: TableKind, index: nat)

  function Indices(steps: seq<Step>): (r: seq<nat>)
    ensures |r| == |steps|
    ensures forall i :: 0 <= i < |r| ==> r[i] == steps[i].index
  {
    seq(|steps|, i requires 0 <= i < |steps| => steps[i].index)
  }

  // ----- The trie ----------------------------------------------------------

  datatype Node = Table(kind: TableKind) | Insn(entry: Entry)

  type Path = seq<nat>
  type Trie = map<Path, Node>

  const EMPTY_TRIE: Trie := map[[] := Table(OpcTbl)]

  /** updateTable: create the node if absent; a node of another type is a violation. */
  predicate MayPut(trie: Trie, path: Path, node: Node) {
    path in trie ==> if node.Insn? then trie[path].Insn? else trie[path] == node
  }

  /** The tables for the first `n` indices of the path, created or checked in order. */
  function PutTables(trie: Trie, steps: seq<Step>, n: nat): Option<Trie>
    requires n < |steps|
  {
    if n == 0 then Some(trie)
    else
      match PutTables(trie, steps, n - 1)
      case None => None
      case Some(t) =>
        var path, node := Indices(steps)[..n], Table(steps[n].kind);
        if MayPut(t, path, node) then Some(t[path := node]) else None
  }

  /** parse: walk down the path creating levels as needed, then make the leaf. */
  function Put(trie: Trie, steps: seq<Step>, entry: Entry): Option<Trie>
    requires steps != []
  {
    match PutTables(trie, steps, |steps| - 1)
    case None => None
    case Some(t) =>
      if MayPut(t, Indices(steps), Insn(entry)) then Some(t[Indices(steps) := Insn(entry)]) else None
  }

  /** An instruction to be added: the path to its leaf and its table row. */
  datatype Item = Item(steps: seq<Step>, entry: Entry)

  predicate Rooted(items: seq<Item>) {
    forall i :: 0 <= i < |items| ==> items[i].steps != [] && items[i].steps[0].kind == OpcTbl
  }

  /** The trie after adding all items in order; None if any of them is refused. */
  function Build(items: seq<Item>): Option<Trie>
    requires Rooted(items)
  {
    if items == [] then Some(EMPTY_TRIE)
    else
      match Build(items[..|items| - 1])
      case None => None
      case Some(t) => Put(t, items[|items| - 1].steps, items[|items| - 1].entry)
  }

  /** The entry of the last item on exactly this path. */
  function LastOn(items: seq<Item>, path: Path): Option<Entry> {
    if items == [] then None
    else if Indices(items[|items| - 1].steps) == path then Some(items[|items| - 1].entry)
    else LastOn(items[..|items| - 1], path)
  }

  // ----- What the trie holds ----------------------------------------------

  /** Every inner node on the path is a table of the kind the path says. */
  ghost predicate Follows(trie: Trie, steps: seq<Step>) {
    forall n :: 0 <= n < |steps| ==>
      Indices(steps)[..n] in trie && trie[Indices(steps)[..n]] == Table(steps[n].kind)
  }

  /** Creating tables adds their paths, */
  lemma {:induction false} PutTablesKeys(trie: Trie, steps: seq<Step>, n: nat, q: Path)
    requires n < |steps| && PutTables(trie, steps, n).Some?
    ensures q in PutTables(trie, steps, n).value <==> q in trie || exists k :: 1 <= k <= n && q == Indices(steps)[..k]
  {
    if n != 0 {
      PutTablesKeys(trie, steps, n - 1, q);
    }
  }

  /** and keeps what was there. */
  lemma {:induction false} PutTablesHolds(trie: Trie, steps: seq<Step>, n: nat)
    requires n < |steps| && PutTables(trie, steps, n).Some?
    ensures forall q :: q in trie ==>
              q in PutTables(trie, steps, n).value && PutTables(trie, steps, n).value[q] == trie[q]
    ensures forall k :: 1 <= k <= n ==>
              Indices(steps)[..k] in PutTables(trie, steps, n).value
              && PutTables(trie, steps, n).value[Indices(steps)[..k]] == Table(steps[k].kind)
  {
    if n != 0 {
      PutTablesHolds(trie, steps, n - 1);
    }
  }

  /** Adding one definition: its own path now follows its kinds and ends in its entry,
      nothing else is added, and no other node changes. */
  lemma PutHolds(trie: Trie, steps: seq<Step>, entry: Entry)
    requires steps != []
    requires [] in trie && trie[[]] == Table(steps[0].kind)
    requires Put(trie, steps, entry).Some?
    ensures var t := Put(trie, steps, entry).value;
            && Follows(t, steps)
            && Indices(steps) in t && t[Indices(steps)] == Insn(entry)
            && (forall q :: q in t <==> q in trie || q <= Indices(steps))
            && (forall q :: q in trie && q != Indices(steps) ==> t[q] == trie[q])
            && (Indices(steps) in trie ==> trie[Indices(steps)].Insn?)
  {
    PutTablesHolds(trie, steps, |steps| - 1);
    var p, t := Indices(steps), Put(trie, steps, entry).value;
    forall n | 0 <= n < |steps|
      ensures p[..n] in t && t[p[..n]] == Table(steps[n].kind)
    {
      assert |p[..n]| == n < |p|;
      if n == 0 { assert p[..0] == []; }
    }
    forall q
      ensures q in t ==> q in trie || q <= p
    {
      PutTablesKeys(trie, steps, |steps| - 1, q);
    }
    forall q | q <= p
      ensures q in t
    {
      assert q == p[..|q|];
      if |q| == |p| { assert q == p; }
    }
  }

  /** Some item's path starts with `path`. */
  ghost predicate OnPath(items: seq<Item>, path: Path) {
    exists i :: 0 <= i < |items| && path <= Indices(items[i].steps)
  }

  /** The nodes are exactly the prefixes of the items' paths. */
  ghost predicate NodesArePrefixes(items: seq<Item>, t: Trie) {
    forall q :: NodeIsPrefix(items, t, q)
  }

  ghost predicate NodeIsPrefix(items: seq<Item>, t: Trie, q: Path) {
    q in t <==> q == [] || OnPath(items, q)
  }

  /** Inner nodes carry the kinds that the paths prescribe. */
  ghost predicate PathsFollowed(items: seq<Item>, t: Trie) {
    forall i {:trigger Follows(t, items[i].steps)} :: 0 <= i < |items| ==> Follows(t, items[i].steps)
  }

  /** A path's leaf carries the entry of the last item added on it. */
  ghost predicate LeavesAreLast(items: seq<Item>, t: Trie) {
    forall q :: LeafIsLast(items, t, q)
  }

  ghost predicate LeafIsLast(items: seq<Item>, t: Trie, q: Path) {
    && (q in t && t[q].Insn? <==> LastOn(items, q).Some?)
    && (LastOn(items, q).Some? ==> t[q] == Insn(LastOn(items, q).value))
  }

  ghost predicate BuiltFrom(items: seq<Item>, t: Trie) {
    && [] in t && t[[]] == Table(OpcTbl)
    && NodesArePrefixes(items, t) && PathsFollowed(items, t) && LeavesAreLast(items, t)
  }

  lemma SplitLast<T>(s: seq<T>)
    requires s != []
    ensures s[..|s| - 1] + [s[|s| - 1]] == s
  {
  }

  /** For every accepted sequence of items. */
  lemma {:induction false} BuildHolds(items: seq<Item>)
    requires Rooted(items) && Build(items).Some?
    ensures BuiltFrom(items, Build(items).value)
  {
    if items == [] {
    } else {
      var front, last := items[..|items| - 1], items[|items| - 1];
      SplitLast(items);
      BuildHolds(front);
      AddHolds(front, last, Build(front).value);
    }
  }

  lemma AddHolds(front: seq<Item>, last: Item, t: Trie)
    requires BuiltFrom(front, t)
    requires last.steps != [] && last.steps[0].kind == OpcTbl
    requires Put(t, last.steps, last.entry).Some?
    ensures BuiltFrom(front + [last], Put(t, last.steps, last.entry).value)
  {
    var t' := Put(t, last.steps, last.entry).value;
    PutHolds(t, last.steps, last.entry);
    PrefixesStep(front, last, t, t');
    PathsStep(front, last, t, t');
    LeavesStep(front, last, t, t');
  }

  lemma PrefixesStep(front: seq<Item>, last: Item, t: Trie, t': Trie)
    requires NodesArePrefixes(front, t)
    requires forall q :: q in t' <==> q in t || q <= Indices(last.steps)
    ensures NodesArePrefixes(front + [last], t')
  {
    var items := front + [last];
    forall q
      ensures NodeIsPrefix(items, t', q)
    {
      assert NodeIsPrefix(front, t, q);
      if OnPath(front, q) {
        var i :| 0 <= i < |front| && q <= Indices(front[i].steps);
        assert items[i] == front[i];
      }
      assert items[|front|] == last;
    }
  }

  /** The new leaf replaces no inner node of an older path. */
  lemma PathsStep(front: seq<Item>, last: Item, t: Trie, t': Trie)
    requires PathsFollowed(front, t)
    requires Follows(t', last.steps)
    requires forall q :: q in t ==> q in t'
    requires forall q :: q in t && q != Indices(last.steps) ==> t'[q] == t[q]
    requires Indices(last.steps) in t ==> t[Indices(last.steps)].Insn?
    ensures PathsFollowed(front + [last], t')
  {
    var items := front + [last];
    forall i | 0 <= i < |front|
      ensures Follows(t', items[i].steps)
    {
      assert items[i] == front[i];
      assert Follows(t, front[i].steps);
    }
  }

  lemma LeavesStep(front: seq<Item>, last: Item, t: Trie, t': Trie)
    requires LeavesAreLast(front, t)
    requires Follows(t', last.steps)
    requires var p := Indices(last.steps); p in t' && t'[p] == Insn(last.entry)
    requires forall q :: q in t' <==> q in t || q <= Indices(last.steps)
    requires forall q :: q in t && q != Indices(last.steps) ==> t'[q] == t[q]
    ensures LeavesAreLast(front + [last], t')
  {
    var items, p := front + [last], Indices(last.steps);
    assert items[..|front|] == front && items[|front|] == last;
    forall q
      ensures LeafIsLast(items, t', q)
    {
      assert LeafIsLast(front, t, q);
      if q <= p && q != p {
        assert q == p[..|q|];
        assert t'[q].Table?;
      }
    }
  }

  lemma {:induction false} PutTablesStops(trie: Trie, steps: seq<Step>, n: nat, m: nat)
    requires n <= m < |steps| && PutTables(trie, steps, n).None?
    ensures PutTables(trie, steps, m).None?
    decreases m
  {
    if n < m { PutTablesStops(trie, steps, n, m - 1); }
  }

  // ----- Which definitions are accepted ------------------------------------------------------

  /** Where two paths have the same indices so far, both go on with tables of one kind, or both end. */
  ghost predicate Compatible(a: seq<Step>, b: seq<Step>) {
    forall n {:trigger Indices(a)[..n]} :: 0 <= n <= |a| && n <= |b| && Indices(a)[..n] == Indices(b)[..n] ==>
      CompatibleAt(a, b, n)
  }

  predicate CompatibleAt(a: seq<Step>, b: seq<Step>, n: nat)
    requires n <= |a| && n <= |b|
  {
    (n < |a| <==> n < |b|) && (n < |a| ==> a[n].kind == b[n].kind)
  }

  ghost predicate AllCompatible(items: seq<Item>) {
    forall i, j :: 0 <= i < |items| && 0 <= j < |items| ==> Compatible(items[i].steps, items[j].steps)
  }

  /** Paths in one trie agree. */
  lemma BuiltAgree(items: seq<Item>, t: Trie, i: nat, j: nat)
    requires BuiltFrom(items, t) && i < |items| && j < |items|
    ensures Compatible(items[i].steps, items[j].steps)
  {
    var a, b := items[i].steps, items[j].steps;
    LeafOf(items, t, i);
    LeafOf(items, t, j);
    assert Follows(t, a) && Follows(t, b);
    forall n | 0 <= n <= |a| && n <= |b| && Indices(a)[..n] == Indices(b)[..n]
      ensures CompatibleAt(a, b, n)
    {
      if n == |a| { assert Indices(a)[..n] == Indices(a); }
      if n == |b| { assert Indices(b)[..n] == Indices(b); }
    }
  }

  lemma LeafOf(items: seq<Item>, t: Trie, i: nat)
    requires BuiltFrom(items, t) && i < |items|
    ensures Indices(items[i].steps) in t && t[Indices(items[i].steps)].Insn?
  {
    OwnLast(items, i);
    assert LeafIsLast(items, t, Indices(items[i].steps));
  }

  lemma {:induction false} OwnLast(items: seq<Item>, i: nat)
    requires i < |items|
    ensures LastOn(items, Indices(items[i].steps)).Some?
  {
    if i < |items| - 1 { OwnLast(items[..|items| - 1], i); }
  }

  /** An item whose path agrees with those of the trie can be put into it: its tables, */
  lemma {:induction false} TablesFit(items: seq<Item>, t: Trie, steps: seq<Step>, n: nat)
    requires BuiltFrom(items, t) && n < |steps| && forall i :: 0 <= i < |items| ==> Compatible(steps, items[i].steps)
    ensures PutTables(t, steps, n).Some?
  {
    if n > 0 {
      TablesFit(items, t, steps, n - 1);
      var before, q := PutTables(t, steps, n - 1).value, Indices(steps)[..n];
      PutTablesKeys(t, steps, n - 1, q);
      PutTablesHolds(t, steps, n - 1);
      if q in t { NodeAgrees(items, t, steps, n); }
    }
  }

  /** A node on the path is of the kind that the path asks for. */
  lemma NodeAgrees(items: seq<Item>, t: Trie, steps: seq<Step>, n: nat)
    requires BuiltFrom(items, t) && 0 < n <= |steps| && Indices(steps)[..n] in t
    requires forall i :: 0 <= i < |items| ==> Compatible(steps, items[i].steps)
    ensures if n < |steps| then t[Indices(steps)[..n]] == Table(steps[n].kind) else t[Indices(steps)[..n]].Insn?
  {
    var q := Indices(steps)[..n];
    assert NodeIsPrefix(items, t, q);
    var i :| 0 <= i < |items| && q <= Indices(items[i].steps);
    var b := items[i].steps;
    assert q == Indices(b)[..n];
    assert Compatible(steps, b) && CompatibleAt(steps, b, n);
    assert Follows(t, b);
    if n == |b| {
      assert Indices(b)[..n] == Indices(b);
      LeafOf(items, t, i);
    }
  }

  /** and its leaf. */
  lemma ItemFits(items: seq<Item>, t: Trie, last: Item)
    requires BuiltFrom(items, t) && last.steps != []
    requires forall i :: 0 <= i < |items| ==> Compatible(last.steps, items[i].steps)
    ensures Put(t, last.steps, last.entry).Some?
  {
    var steps, n := last.steps, |last.steps|;
    TablesFit(items, t, steps, n - 1);
    PutTablesKeys(t, steps, n - 1, Indices(steps));
    PutTablesHolds(t, steps, n - 1);
    assert Indices(steps)[..n] == Indices(steps);
    if Indices(steps) in t { NodeAgrees(items, t, steps, n); }
  }

  /** A sequence of items is accepted if and only if all their paths agree. */
  lemma {:induction false} AcceptedExactly(items: seq<Item>)
    requires Rooted(items)
    ensures Build(items).Some? <==> AllCompatible(items)
  {
    if Build(items).Some? {
      BuildHolds(items);
      forall i, j | 0 <= i < |items| && 0 <= j < |items|
        ensures Compatible(items[i].steps, items[j].steps)
      {
        BuiltAgree(items, Build(items).value, i, j);
      }
    }
    if AllCompatible(items) && items != [] {
      var front, last := items[..|items| - 1], items[|items| - 1];
      assert AllCompatible(front);
      AcceptedExactly(front);
      BuildHolds(front);
      ItemFits(front, Build(front).value, last);
    }
  }
}
