/** Instruction definitions and the class that adds them to the trie (ud_opcode.py). */
module OpcodeTables {
  import opened Bytes
  import opened Itab
  import opened OpcodeTrie

  datatype SsePrefix = SseNone | SseF2 | SseF3 | Sse66
  datatype VendorTag = Amd | Intel | AnyVendor

  /** The widths that modes and effective sizes have. */
  type ModeBits = m: int | m == 16 || m == 32 || m == 64 witness 16

  /** An opcode extension of a definition, such as `/mod=11` or `/reg=3`. */
  datatype Ext =
    | ModExt(is11: bool) | X87Ext(n: nat) | RegExt(n: nat) | RmExt(n: nat)
    | SseExt(prefix: SsePrefix) | OExt(bits: ModeBits) | AExt(bits: ModeBits) | MExt(is64: bool)
    | ThreeDNowExt(n: nat)

  datatype Opc = Plain(value: nat) | Extension(ext: Ext)

  datatype InsnDef = InsnDef(opcodes: seq<Opc>, vendor: Option<VendorTag>, entry: Entry)

  function KindOf(e: Ext): TableKind {
    match e
    case ModExt(_) => Mod
    case X87Ext(_) => X87
    case RegExt(_) => Reg
    case RmExt(_) => Rm
    case SseExt(_) => Sse
    case OExt(_) => OSize
    case AExt(_) => ASize
    case MExt(_) => Mode
    case ThreeDNowExt(_) => ThreeDNow
  }

  /** The index an extension value stands for in its table. */
  function IndexOf(e: Ext): nat {
    match e
    case ModExt(is11) => if is11 then 1 else 0
    case X87Ext(n) => n
    case RegExt(n) => n
    case RmExt(n) => n
    case SseExt(p) => (match p case SseNone => 0 case SseF2 => 1 case SseF3 => 2 case Sse66 => 3)
    case OExt(bits) => bits / 32
    case AExt(bits) => bits / 32
    case MExt(is64) => if is64 then 1 else 0
    case ThreeDNowExt(n) => n
  }

  function VendorIndex(v: VendorTag): nat {
    match v
    case Amd => 0
    case Intel => 1
    case AnyVendor => 2
  }

  // ----- Ordering the opcodes of one definition ---------------------------

  const PASSES: nat := 9

  /** The order in which extensions are appended after the plain opcodes. */
  function Pass(k: nat): TableKind
    requires k < PASSES
  {
    match k
    case 0 => Mod
    case 1 => X87
    case 2 => Reg
    case 3 => Rm
    case 4 => Sse
    case 5 => OSize
    case 6 => ASize
    case 7 => Mode
    case _ => ThreeDNow
  }

  /** The passes compare by string prefix: the pass for `/m` also picks `/mod`. */
  predicate Picks(pass: TableKind, opc: Opc) {
    opc.Extension? && (KindOf(opc.ext) == pass || (pass == Mode && KindOf(opc.ext) == Mod))
  }

  function Select(pass: TableKind, opcodes: seq<Opc>): (r: seq<Opc>)
    ensures forall j :: 0 <= j < |r| ==> Picks(pass, r[j])
  {
    if opcodes == [] then []
    else
      var front, last := opcodes[..|opcodes| - 1], opcodes[|opcodes| - 1];
      Select(pass, front) + (if Picks(pass, last) then [last] else [])
  }

  function Plains(opcodes: seq<Opc>): (r: seq<Opc>)
    ensures forall j :: 0 <= j < |r| ==> r[j].Plain?
    ensures r != [] <==> exists i :: 0 <= i < |opcodes| && opcodes[i].Plain?
  {
    if opcodes == [] then []
    else
      var front, last := opcodes[..|opcodes| - 1], opcodes[|opcodes| - 1];
      Plains(front) + (if last.Plain? then [last] else [])
  }

  /** What each pass picks. */
  function Picked(opcodes: seq<Opc>): (r: seq<seq<Opc>>)
    ensures |r| == PASSES
    ensures forall k :: 0 <= k < PASSES ==> r[k] == Select(Pass(k), opcodes)
  {
    seq(PASSES, k requires 0 <= k < PASSES => Select(Pass(k), opcodes))
  }

  /** A first part followed by the first `n` of the others. */
  function Join(first: seq<Opc>, parts: seq<seq<Opc>>, n: nat): seq<Opc>
    requires n <= |parts|
  {
    if n == 0 then first else Join(first, parts, n - 1) + parts[n - 1]
  }

  /** Two-byte opcodes get an artificial `/sse=none`. */
  function WithSseNone(opcodes: seq<Opc>): seq<Opc> {
    if |opcodes| >= 2 && opcodes[0] == Plain(0x0f) && opcodes[1] != Plain(0x0f)
    then opcodes + [Extension(SseExt(SseNone))]
    else opcodes
  }

  /** A definition the constructor indexes without an IndexError. */
  predicate Indexable(opcodes: seq<Opc>) {
    && opcodes != []
    && (opcodes[0] == Plain(0x0f) ==> |opcodes| >= 2)
    && exists i :: 0 <= i < |opcodes| && opcodes[i].Plain?
  }

  function Ordered(opcodes: seq<Opc>): seq<Opc> {
    var all := WithSseNone(opcodes);
    Join(Plains(all), Picked(all), PASSES)
  }

  // ----- The path of a definition -----------------------------------------

  function StepOf(opc: Opc): Step {
    match opc
    case Plain(b) => Step(OpcTbl, b)
    case Extension(e) => Step(KindOf(e), IndexOf(e))
  }

  function StepsOf(opcodes: seq<Opc>): (r: seq<Step>)
    ensures |r| == |opcodes|
    ensures forall i :: 0 <= i < |r| ==> r[i] == StepOf(opcodes[i])
  {
    seq(|opcodes|, i requires 0 <= i < |opcodes| => StepOf(opcodes[i]))
  }

  function VendorStep(vendor: Option<VendorTag>): seq<Step> {
    match vendor
    case None => []
    case Some(v) => [Step(Vendor, VendorIndex(v))]
  }

  /** A definition as the class keeps it: its opcodes in order, of which the first are the plain ones, and
      its vendor. */
  datatype Form = Form(opcodes: seq<Opc>, plains: nat, vendor: Option<VendorTag>)

  function FormOf(def: InsnDef): Form { Form(Ordered(def.opcodes), |Plains(def.opcodes)|, def.vendor) }

  function FormsOf(defs: seq<InsnDef>): (r: seq<Form>)
    ensures |r| == |defs| && forall i :: 0 <= i < |r| ==> r[i] == FormOf(defs[i])
  {
    seq(|defs|, i requires 0 <= i < |defs| => FormOf(defs[i]))
  }

  function StepsOfForm(form: Form): seq<Step> { StepsOf(form.opcodes) + VendorStep(form.vendor) }

  function PathOf(def: InsnDef): seq<Step> { StepsOfForm(FormOf(def)) }

  /** The extensions of a definition in their order, kind by kind: the artificial `/sse=none` of a two-byte
      opcode comes behind the definition's own, and every `/mod` comes again with `/m`. */
  function Spelled(o: seq<Opc>): (r: seq<seq<Opc>>) {
    var none := if |o| >= 2 && o[0] == Plain(0x0f) && o[1] != Plain(0x0f) then [Extension(SseExt(SseNone))] else [];
    [OfKind(o, {Mod}), OfKind(o, {X87}), OfKind(o, {Reg}), OfKind(o, {Rm}), OfKind(o, {Sse}) + none,
     OfKind(o, {OSize}), OfKind(o, {ASize}), OfKind(o, {Mode, Mod}), OfKind(o, {ThreeDNow})]
  }

  /** The constructor puts the plain opcodes first, and then these. */
  lemma OrderedSpelled(o: seq<Opc>)
    ensures Ordered(o) == Chain(Plains(o), Spelled(o))
  {
    var parts, spelled := Picked(WithSseNone(o)), Spelled(o);
    forall k | 0 <= k < PASSES
      ensures parts[k] == spelled[k]
    {
      SelectIs(Pass(k), o, WithSseNone(o));
    }
    assert parts == spelled;
    PlainsKept(o);
    ChainIsJoin(Plains(o), parts, PASSES);
    assert parts[..PASSES] == parts;
  }

  /** The extensions of the given kinds, in the order they are written. */
  function OfKind(o: seq<Opc>, kinds: set<TableKind>): seq<Opc> {
    if o == [] then []
    else
      var last := o[|o| - 1];
      OfKind(o[..|o| - 1], kinds) + (if last.Extension? && KindOf(last.ext) in kinds then [last] else [])
  }

  /** A first part followed by the others. */
  function Chain(first: seq<Opc>, parts: seq<seq<Opc>>): seq<Opc>
    decreases |parts|
  {
    if parts == [] then first else Chain(first + parts[0], parts[1..])
  }

  /** So the plain opcodes come first and everything behind them is an extension. */
  lemma PlainsFirst(o: seq<Opc>)
    ensures Plains(o) <= Ordered(o)
    ensures forall j :: |Plains(o)| <= j < |Ordered(o)| ==> Ordered(o)[j].Extension?
  {
    OrderedSpelled(o);
    forall k, j | 0 <= k < |Spelled(o)| && 0 <= j < |Spelled(o)[k]|
      ensures Spelled(o)[k][j].Extension?
    {
      SpelledExtension(o, k);
    }
    ChainBehind(Plains(o), Spelled(o), |Plains(o)|);
  }

  lemma SpelledExtension(o: seq<Opc>, k: nat)
    requires k < |Spelled(o)|
    ensures forall j :: 0 <= j < |Spelled(o)[k]| ==> Spelled(o)[k][j].Extension?
  {
    OfKindExtensions(o, {Mod});
    OfKindExtensions(o, {X87});
    OfKindExtensions(o, {Reg});
    OfKindExtensions(o, {Rm});
    OfKindExtensions(o, {Sse});
    OfKindExtensions(o, {OSize});
    OfKindExtensions(o, {ASize});
    OfKindExtensions(o, {Mode, Mod});
    OfKindExtensions(o, {ThreeDNow});
  }

  lemma {:induction false} OfKindExtensions(o: seq<Opc>, kinds: set<TableKind>)
    ensures forall j :: 0 <= j < |OfKind(o, kinds)| ==> OfKind(o, kinds)[j].Extension?
  {
    if o != [] { OfKindExtensions(o[..|o| - 1], kinds); }
  }

  lemma {:induction false} ChainBehind(first: seq<Opc>, parts: seq<seq<Opc>>, n: nat)
    requires n <= |first| && forall j :: n <= j < |first| ==> first[j].Extension?
    requires forall k, j :: 0 <= k < |parts| && 0 <= j < |parts[k]| ==> parts[k][j].Extension?
    ensures first <= Chain(first, parts)
    ensures forall j :: n <= j < |Chain(first, parts)| ==> Chain(first, parts)[j].Extension?
    decreases |parts|
  {
    if parts != [] { ChainBehind(first + parts[0], parts[1..], n); }
  }

  lemma {:induction false} ChainIsJoin(first: seq<Opc>, parts: seq<seq<Opc>>, n: nat)
    requires n <= |parts|
    ensures Chain(first, parts[..n]) == Join(first, parts, n)
  {
    if n != 0 {
      ChainIsJoin(first, parts, n - 1);
      ChainSnoc(first, parts[..n - 1], parts[n - 1]);
      assert parts[..n - 1] + [parts[n - 1]] == parts[..n];
    }
  }

  lemma {:induction false} ChainSnoc(first: seq<Opc>, parts: seq<seq<Opc>>, last: seq<Opc>)
    ensures Chain(first, parts + [last]) == Chain(first, parts) + last
    decreases |parts|
  {
    if parts == [] {
      assert (parts + [last])[1..] == [];
    } else {
      ChainSnoc(first + parts[0], parts[1..], last);
      assert (parts + [last])[1..] == parts[1..] + [last];
    }
  }

  lemma PlainsKept(o: seq<Opc>)
    ensures Plains(WithSseNone(o)) == Plains(o)
  {
    if WithSseNone(o) != o { assert WithSseNone(o)[..|o|] == o; }
  }

  lemma SelectIs(pass: TableKind, o: seq<Opc>, all: seq<Opc>)
    requires all == WithSseNone(o)
    ensures o <= all
    ensures Select(pass, all) ==
            OfKind(o, if pass == Mode then {Mode, Mod} else {pass}) + (if pass == Sse then all[|o|..] else [])
  {
    SelectKinds(pass, o);
    if all != o { assert all[..|o|] == o; }
  }

  lemma {:induction false} SelectKinds(pass: TableKind, o: seq<Opc>)
    ensures Select(pass, o) == OfKind(o, if pass == Mode then {Mode, Mod} else {pass})
  {
    if o != [] { SelectKinds(pass, o[..|o| - 1]); }
  }

  lemma IndexableHasPath(opcodes: seq<Opc>)
    requires Indexable(opcodes)
    ensures Ordered(opcodes) != [] && Ordered(opcodes)[0].Plain?
  {
    var all := WithSseNone(opcodes);
    var i :| 0 <= i < |opcodes| && opcodes[i].Plain?;
    assert all[i].Plain?;
    JoinStartsWith(Plains(all), Picked(all), PASSES);
  }

  lemma {:induction false} JoinStartsWith(first: seq<Opc>, parts: seq<seq<Opc>>, n: nat)
    requires n <= |parts|
    ensures first <= Join(first, parts, n)
  {
    if n != 0 { JoinStartsWith(first, parts, n - 1); }
  }

  function ItemOf(def: InsnDef): Item {
    Item(PathOf(def), def.entry)
  }

  function ItemsOf(defs: seq<InsnDef>): (r: seq<Item>)
    ensures |r| == |defs|
    ensures forall i :: 0 <= i < |r| ==> r[i] == ItemOf(defs[i])
  {
    seq(|defs|, i requires 0 <= i < |defs| => ItemOf(defs[i]))
  }

  predicate AllIndexable(defs: seq<InsnDef>) {
    forall i :: 0 <= i < |defs| ==> Indexable(defs[i].opcodes)
  }

  lemma IndexableRooted(defs: seq<InsnDef>)
    requires AllIndexable(defs)
    ensures Rooted(ItemsOf(defs))
  {
    forall i | 0 <= i < |defs|
      ensures ItemsOf(defs)[i].steps != [] && ItemsOf(defs)[i].steps[0].kind == OpcTbl
    {
      IndexableHasPath(defs[i].opcodes);
    }
  }

  /** The trie of a sequence of definitions; None if one of them raises an error. */
  function BuildDefs(defs: seq<InsnDef>): Option<Trie> {
    if AllIndexable(defs) then
      IndexableRooted(defs);
      Build(ItemsOf(defs))
    else None
  }

  // ----- The shape of a definition's path -----------------------------------

  /** What the decoder relies on: opcode tables come only after opcode tables, an x87 table
      only after `/mod=11`, and nothing after a 3DNow table. */
  predicate MayFollow(a: Step, b: Step) {
    && (b.kind == OpcTbl ==> a.kind == OpcTbl)
    && (b.kind == X87 ==> a == Step(Mod, 1))
    && a.kind != ThreeDNow
  }

  ghost predicate WellOrdered(steps: seq<Step>) {
    forall j :: 0 <= j < |steps| - 1 ==> MayFollow(steps[j], steps[j + 1])
  }

  /** What the definition itself must say for that: one x87 extension at most, and then the
      last `/mod` is 11; one 3DNow extension at most, and then no vendor. */
  ghost predicate Sound(def: InsnDef) {
    var mods, x87s, nows :=
      Select(Mod, def.opcodes), Select(X87, def.opcodes), Select(ThreeDNow, def.opcodes);
    && |x87s| <= 1 && (x87s != [] ==> mods != [] && mods[|mods| - 1] == Extension(ModExt(true)))
    && |nows| <= 1 && (nows != [] ==> def.vendor.None?)
  }

  lemma WellOrderedConcat(a: seq<Step>, b: seq<Step>)
    requires WellOrdered(a) && WellOrdered(b)
    requires a != [] && b != [] ==> MayFollow(a[|a| - 1], b[0])
    ensures WellOrdered(a + b)
  {
    forall j | 0 <= j < |a + b| - 1
      ensures MayFollow((a + b)[j], (a + b)[j + 1])
    {
      if j >= |a| { assert (a + b)[j] == b[j - |a|]; }
    }
  }

  lemma SelectWithSseNone(pass: TableKind, opcodes: seq<Opc>)
    requires pass != Sse
    ensures Select(pass, WithSseNone(opcodes)) == Select(pass, opcodes)
  {
    var all := WithSseNone(opcodes);
    if all != opcodes { assert all[..|opcodes|] == opcodes; }
  }

  lemma StepsOfConcat(a: seq<Opc>, b: seq<Opc>)
    ensures StepsOf(a + b) == StepsOf(a) + StepsOf(b)
  {
  }

  /** What holds after `n` passes, given whether there are x87 and 3DNow extensions. */
  ghost predicate InOrder(s: seq<Opc>, n: nat, x87: bool, now: bool) {
    && WellOrdered(StepsOf(s))
    && (n < PASSES || !now ==> forall j :: 0 <= j < |s| ==> StepOf(s[j]).kind != ThreeDNow)
    && (n == 1 && x87 ==> s != [] && s[|s| - 1] == Extension(ModExt(true)))
  }

  lemma AppendPass(s: seq<Opc>, more: seq<Opc>, k: nat, x87: bool, now: bool)
    requires k < PASSES && InOrder(s, k, x87, now)
    requires forall j :: 0 <= j < |more| ==> Picks(Pass(k), more[j])
    requires k == 0 && x87 ==> more != [] && more[|more| - 1] == Extension(ModExt(true))
    requires k == 1 ==> |more| <= 1 && x87 == (more != [])
    requires k == 8 ==> |more| <= 1 && now == (more != [])
    ensures InOrder(s + more, k + 1, x87, now)
  {
    WellOrderedConcat(StepsOf(s), StepsOf(more));
    StepsOfConcat(s, more);
  }

  lemma {:induction false} JoinInOrder(plains: seq<Opc>, parts: seq<seq<Opc>>, n: nat)
    requires n <= PASSES == |parts|
    requires forall j :: 0 <= j < |plains| ==> plains[j].Plain?
    requires forall k, j :: 0 <= k < PASSES && 0 <= j < |parts[k]| ==> Picks(Pass(k), parts[k][j])
    requires |parts[1]| <= 1 && |parts[8]| <= 1
    requires parts[1] != [] ==> parts[0] != [] && parts[0][|parts[0]| - 1] == Extension(ModExt(true))
    ensures InOrder(Join(plains, parts, n), n, parts[1] != [], parts[8] != [])
  {
    if n != 0 {
      JoinInOrder(plains, parts, n - 1);
      AppendPass(Join(plains, parts, n - 1), parts[n - 1], n - 1, parts[1] != [], parts[8] != []);
    }
  }

  /** Every sound definition gives a well-ordered path. */
  lemma PathWellOrdered(def: InsnDef)
    requires Sound(def)
    ensures WellOrdered(PathOf(def))
  {
    var all := WithSseNone(def.opcodes);
    SelectWithSseNone(Mod, def.opcodes);
    SelectWithSseNone(X87, def.opcodes);
    SelectWithSseNone(ThreeDNow, def.opcodes);
    JoinInOrder(Plains(all), Picked(all), PASSES);
    WellOrderedConcat(StepsOf(Ordered(def.opcodes)), VendorStep(def.vendor));
  }

  // ----- The script's own steps ---------------------------------------------

  method PlainOpcodes(all: seq<Opc>) returns (out: seq<Opc>)
    ensures out == Plains(all)
  {
    out := [];
    for i := 0 to |all|
      invariant out == Plains(all[..i])
    {
      assert all[..i + 1][..i] == all[..i];
      if all[i].Plain? { out := out + [all[i]]; }
    }
    assert all[..|all|] == all;
  }

  method PickedOpcodes(pass: TableKind, all: seq<Opc>) returns (out: seq<Opc>)
    ensures out == Select(pass, all)
  {
    out := [];
    for i := 0 to |all|
      invariant out == Select(pass, all[..i])
    {
      assert all[..i + 1][..i] == all[..i];
      if Picks(pass, all[i]) { out := out + [all[i]]; }
    }
    assert all[..|all|] == all;
  }

  /** Insn.__init__: order the opcodes of one definition; None stands for the IndexError. */
  method OrderOpcodes(opcodes: seq<Opc>) returns (r: Option<seq<Opc>>)
    ensures r == if Indexable(opcodes) then Some(Ordered(opcodes)) else None
  {
    if opcodes == [] || (opcodes[0] == Plain(0x0f) && |opcodes| < 2) {
      return None;
    }
    var all := opcodes;
    if opcodes[0] == Plain(0x0f) && opcodes[1] != Plain(0x0f) {
      all := all + [Extension(SseExt(SseNone))];
    }
    var out := PlainOpcodes(all);
    assert forall i :: 0 <= i < |opcodes| ==> all[i] == opcodes[i];
    if out == [] {
      return None;
    }
    assert Indexable(opcodes);
    out := AllPasses(all, out);
    r := Some(out);
  }

  /** The passes over the opcodes, after the plain ones. */
  method AllPasses(all: seq<Opc>, plain: seq<Opc>) returns (out: seq<Opc>)
    requires plain == Plains(all)
    ensures out == Join(Plains(all), Picked(all), PASSES)
  {
    out := plain;
    for k := 0 to PASSES
      invariant out == Join(Plains(all), Picked(all), k)
    {
      var more := PickedOpcodes(Pass(k), all);
      out := out + more;
    }
  }

  /** UdOpcodeTables: the dictionaries under OpcodeTable0, updated in place. */
  class UdOpcodeTables {
    var nodes: Trie

    constructor ()
      ensures nodes == EMPTY_TRIE
    {
      nodes := EMPTY_TRIE;
    }

    /** Create or check the node at `path`; false stands for the NameError. */
    method UpdateTable(path: Path, node: Node) returns (ok: bool)
      modifies this
      ensures ok == MayPut(old(nodes), path, node)
      ensures ok && node.Table? ==> nodes == old(nodes)[path := node]
      ensures ok && node.Insn? ==>
                path in nodes && nodes[path].Insn? && nodes[path := node] == old(nodes)[path := node]
    {
      if path !in nodes {
        nodes := nodes[path := node];
      }
      ok := if node.Insn? then nodes[path].Insn? else nodes[path] == node;
    }

    /** parse, on an ordered opcode list. */
    method Parse(opcodes: seq<Opc>, vendor: Option<VendorTag>, entry: Entry) returns (ok: bool)
      requires opcodes != []
      modifies this
      ensures var added := Put(old(nodes), StepsOf(opcodes) + VendorStep(vendor), entry);
              ok == added.Some? && (ok ==> nodes == added.value)
    {
      ghost var steps := StepsOf(opcodes) + VendorStep(vendor);
      ghost var start := nodes;
      var table: Path := [];
      var index := StepOf(opcodes[0]).index;
      for n := 1 to |opcodes|
        invariant table == Indices(steps)[..n - 1] && index == steps[n - 1].index
        invariant PutTables(start, steps, n - 1) == Some(nodes)
      {
        table := table + [index];
        assert table == Indices(steps)[..n];
        var done := UpdateTable(table, Table(StepOf(opcodes[n]).kind));
        if !done {
          PutTablesStops(start, steps, n, |steps| - 1);
          return false;
        }
        index := StepOf(opcodes[n]).index;
      }
      ok := AddLeaf(table, index, vendor, entry, start, steps, |opcodes|);
    }

    /** The end of parse: the vendor's table, if any, and the leaf. */
    method AddLeaf(table: Path, index: nat, vendor: Option<VendorTag>, entry: Entry, ghost start: Trie,
                   ghost steps: seq<Step>, ghost n: nat)
      returns (ok: bool)
      requires 1 <= n <= |steps| == n + |VendorStep(vendor)| && steps[n..] == VendorStep(vendor)
      requires table == Indices(steps)[..n - 1] && index == steps[n - 1].index &&
               PutTables(start, steps, n - 1) == Some(nodes)
      modifies this
      ensures ok == Put(start, steps, entry).Some? && (ok ==> nodes == Put(start, steps, entry).value)
    {
      var path := table + [index];
      assert path == Indices(steps)[..n];
      if vendor.Some? {
        assert steps[n] == steps[n..][0];
        var done := UpdateTable(path, Table(Vendor));
        if !done {
          return false;
        }
        path := path + [VendorIndex(vendor.value)];
      }
      assert path == Indices(steps);
      ok := UpdateTable(path, Insn(entry));
      if ok {
        nodes := nodes[path := Insn(entry)];
      }
    }

    /** addInsnDef: the new definition is added to those already there. */
    method AddInsnDef(def: InsnDef, ghost defs: seq<InsnDef>, ghost all: seq<InsnDef>) returns (ok: bool)
      requires BuildDefs(defs) == Some(nodes) && all == defs + [def]
      modifies this
      ensures ok == BuildDefs(all).Some?
      ensures ok ==> BuildDefs(all) == Some(nodes)
    {
      var opcodes := OrderOpcodes(def.opcodes);
      if opcodes.None? {
        assert all[|defs|] == def;
        return false;
      }
      IndexableHasPath(def.opcodes);
      BuildDefsSnoc(defs, def);
      ok := Parse(opcodes.value, def.vendor, def.entry);
    }
  }

  lemma BuildDefsSnoc(defs: seq<InsnDef>, def: InsnDef)
    requires BuildDefs(defs).Some? && Indexable(def.opcodes) && PathOf(def) != []
    ensures BuildDefs(defs + [def]) == Put(BuildDefs(defs).value, PathOf(def), def.entry)
  {
    var all := defs + [def];
    IndexableRooted(all);
    assert ItemsOf(all)[..|defs|] == ItemsOf(defs);
  }
}
