/** The decoder's choices are what the definitions ask of the input (ud_opcode.py, decode.c). */
module PathMeaning {
  import opened Bytes
  import opened Itab
  import opened OpcodeTrie
  import opened OpcodeTables
  import opened TableGenerator
  import opened DecoderState
  import opened Operands
  import opened Decoder
  import opened TableWalk
  import opened EndToEnd
  import opened Encoding

  // ----- Prefixes ------------------------------------------------------------------------------

  /** The instruction fields that prefixes set. */
  function GivenInsn(g: Given): Instr {
    NO_INSN.(seg := SegmentOf(g.seg), str := g.str, opr := if g.opr then 0x66 else 0, adr := if g.adr then 0x67 else 0,
             lock := if g.lock then 0xF0 else 0, rex := g.rex)
  }

  predicate StringPrefix(g: Given) { g.str == 0 || g.str == 0xF2 || g.str == 0xF3 }

  lemma {:induction false} LastAmongOne(s: seq<byte>, among: set<byte>)
    ensures LastAmong(s, among) == 0 || LastAmong(s, among) in among
  {
    if s != [] { LastAmongOne(s[..|s| - 1], among); }
  }

  lemma SaidString(s: seq<byte>, mode: ModeBits)
    ensures StringPrefix(Said(s, mode))
  {
    LastAmongOne(s, {0xF2, 0xF3});
  }

  lemma SaidNext(s: seq<byte>, b: byte, mode: ModeBits)
    requires IsPrefix(b, mode)
    ensures var g, h := Said(s, mode).(rex := 0), Said(s + [b], mode).(rex := 0);
            match WithPrefix(GivenInsn(g), b)
            case Some(insn) => GivenInsn(h) == insn
            case None => h == g && mode == 64 && 0x40 <= b < 0x50
  {
    assert (s + [b])[..|s|] == s;
  }

  /** The decoder after i prefixes. */
  function AfterPrefixes(rem: seq<byte>, mode: ModeBits, i: nat): Core
    requires i <= |rem|
  {
    FRESH.(ctr := i, curr := if i == 0 then 0 else rem[i - 1], insn := GivenInsn(Said(rem[..i], mode).(rex := 0)))
  }

  /** What the prefix loop gives after i prefixes. */
  function Prefixed(rem: seq<byte>, cfg: Config, i: nat): Core
    requires i <= |rem| && i < MAX_INSN_LENGTH
  {
    DecodePrefixes(rem, cfg, AfterPrefixes(rem, cfg.mode, i), AfterPrefixes(rem, cfg.mode, i).curr)
  }

  lemma PrefixTurn(rem: seq<byte>, cfg: Config, i: nat)
    requires i < |rem| && i + 1 < MAX_INSN_LENGTH && IsPrefix(rem[i], cfg.mode)
    ensures Prefixed(rem, cfg, i) == Prefixed(rem, cfg, i + 1)
  {
    SaidNext(rem[..i], rem[i], cfg.mode);
    assert rem[..i] + [rem[i]] == rem[..i + 1];
  }

  /** The first n bytes are the prefixes, and the one behind them is read. */
  predicate PrefixesRight(rem: seq<byte>, mode: ModeBits, n: nat, d: Core)
    requires n <= |rem|
  {
    if n <= 13 && n < |rem|
    then d == FRESH.(ctr := n + 1, curr := rem[n], insn := GivenInsn(Said(rem[..n], mode)))
    else d.insn.err
  }

  lemma PrefixStop(rem: seq<byte>, cfg: Config, i: nat)
    requires i <= |rem| && i < MAX_INSN_LENGTH && (i < 14 ==> PrefixEnd(rem, cfg.mode, i) == i)
    ensures PrefixesRight(rem, cfg.mode, PrefixEnd(rem, cfg.mode, i), Prefixed(rem, cfg, i))
  {
  }

  lemma {:induction false} PrefixesRead(rem: seq<byte>, cfg: Config, i: nat, d: Core)
    requires i <= |rem| && i < MAX_INSN_LENGTH && d == Prefixed(rem, cfg, i)
    ensures PrefixesRight(rem, cfg.mode, PrefixEnd(rem, cfg.mode, i), d)
    decreases MAX_INSN_LENGTH - i
  {
    if i < |rem| && i + 1 < MAX_INSN_LENGTH && IsPrefix(rem[i], cfg.mode) {
      PrefixTurn(rem, cfg, i);
      PrefixesRead(rem, cfg, i + 1, d);
    } else {
      PrefixStop(rem, cfg, i);
    }
  }

  /** The prefixes that are read are the ones that count. */
  lemma PrefixesMean(rem: seq<byte>, cfg: Config)
    ensures PrefixesRight(rem, cfg.mode, PrefixCount(rem, cfg.mode), DecodePrefixes(rem, cfg, FRESH, 0))
  {
    assert rem[..0] == [];
    assert AfterPrefixes(rem, cfg.mode, 0) == FRESH;
    PrefixesRead(rem, cfg, 0, DecodePrefixes(rem, cfg, FRESH, 0));
  }

  // ----- One extension ------------------------------------------------------------------------------

  /** The decoder has read up to position p, where the ModRM byte is, and may have read that; the prefixes
      that are not used up are `g`. */
  predicate Holding(rem: seq<byte>, p: nat, c: Core, g: Given) {
    && StringPrefix(g) && c.insn == GivenInsn(g).(err := c.insn.err)
    && (c.modrm.None? ==> c.ctr == p && !c.end && !c.insn.err)
    && (c.modrm.Some? ==>
          && c.modrm.value == ByteOrZero(rem, p)
          && if p < |rem| then c.ctr == p + 1 && !c.end && !c.insn.err else c.insn.err)
  }

  lemma ModrmHeld(rem: seq<byte>, p: nat, c: Core, g: Given)
    requires Holding(rem, p, c, g)
    ensures Modrm(rem, c).1 == ByteOrZero(rem, p) && Holding(rem, p, Modrm(rem, c).0, g)
  {
  }

  /** The decoder takes an extension's entry if and only if the input is what the extension asks for, and then
      uses up its prefix. */
  lemma ChosenIfAsked(rem: seq<byte>, cfg: Config, c: Core, g: Given, p: nat, e: Ext, present: bool, offered: bool)
    requires Holding(rem, p, c, g) && !e.ThreeDNowExt? && MayEnter(KindOf(e), c)
    requires e.SseExt? && Candidate(g).Some? ==> present == offered
    requires e.SseExt? && Candidate(g) == Some(e.prefix) ==> offered
    ensures Choose(rem, cfg, c, KindOf(e), present).1 == IndexOf(e) <==>
            Asked(e, g, ByteOrZero(rem, p), cfg.mode, offered)
    ensures Choose(rem, cfg, c, KindOf(e), present).1 == IndexOf(e) ==>
              Holding(rem, p, Choose(rem, cfg, c, KindOf(e), present).0, Used(e, g))
  {
    ModrmHeld(rem, p, c, g);
    if e.SseExt? { SseIfAsked(rem, cfg, c, g, p, e.prefix, present, offered); }
  }

  lemma SseIfAsked(rem: seq<byte>, cfg: Config, c: Core, g: Given, p: nat, x: SsePrefix, present: bool, offered: bool)
    requires Holding(rem, p, c, g) && MayEnter(Sse, c)
    requires Candidate(g).Some? ==> present == offered
    requires Candidate(g) == Some(x) ==> offered
    ensures Choose(rem, cfg, c, Sse, present).1 == IndexOf(SseExt(x)) <==>
            Asked(SseExt(x), g, ByteOrZero(rem, p), cfg.mode, offered)
    ensures Choose(rem, cfg, c, Sse, present).1 == IndexOf(SseExt(x)) ==>
              Holding(rem, p, Choose(rem, cfg, c, Sse, present).0, Used(SseExt(x), g))
  {
  }

  // ----- Paths and opcodes --------------------------------------------------------------------------

  lemma StepOfInjective(a: Opc, b: Opc)
    requires StepOf(a) == StepOf(b)
    ensures a == b
  {
  }

  /** Equal steps come from equal opcodes. */
  lemma OpcodesFromSteps(a: Form, b: Form, n: nat)
    requires n <= |b.opcodes| && n <= |StepsOfForm(a)| && StepsOfForm(a)[..n] == StepsOfForm(b)[..n]
    ensures n <= |a.opcodes| && a.opcodes[..n] == b.opcodes[..n]
  {
    forall m | 0 <= m < n
      ensures m < |a.opcodes| && a.opcodes[m] == b.opcodes[m]
    {
      assert StepsOfForm(a)[m] == StepsOfForm(a)[..n][m] == StepsOfForm(b)[..n][m];
      OpcodeFromStep(a, b, m);
    }
    if n > |a.opcodes| {
      OpcodeFromStep(a, b, n - 1);
    }
  }

  lemma OpcodeFromStep(a: Form, b: Form, m: nat)
    requires m < |b.opcodes| && m < |StepsOfForm(a)| && StepsOfForm(a)[m] == StepsOfForm(b)[m]
    ensures m < |a.opcodes| && a.opcodes[m] == b.opcodes[m]
  {
    StepOfOpcode(a, m);
    StepOfOpcode(b, m);
    if m < |a.opcodes| {
      StepOfInjective(a.opcodes[m], b.opcodes[m]);
    }
  }

  /** The steps of a definition: its opcodes', and its vendor's. */
  lemma StepOfOpcode(def: Form, n: nat)
    requires n < |StepsOfForm(def)|
    ensures n < |def.opcodes| ==> StepsOfForm(def)[n] == StepOf(def.opcodes[n])
    ensures n >= |def.opcodes| ==>
              && def.vendor.Some? && n == |def.opcodes| && |StepsOfForm(def)| == n + 1
              && StepsOfForm(def)[n] == Step(Vendor, VendorIndex(def.vendor.value))
  {
  }

  /** Two paths in one trie that have one index prefix have the same steps there. */
  lemma StepsAgree(trie: Trie, a: seq<Step>, b: seq<Step>, n: nat)
    requires Follows(trie, a) && Follows(trie, b) && n <= |a| && n <= |b| && Indices(a)[..n] == Indices(b)[..n]
    ensures a[..n] == b[..n] && (n < |a| && n < |b| ==> a[n].kind == b[n].kind)
  {
    forall m | 0 <= m < n
      ensures a[m] == b[m]
    {
      KindsAgree(trie, a, b, n, m);
      assert Indices(a)[..n][m] == Indices(b)[..n][m];
    }
    if n < |a| && n < |b| {
      KindsAgree(trie, a, b, n, n);
    }
  }

  lemma KindsAgree(trie: Trie, a: seq<Step>, b: seq<Step>, n: nat, m: nat)
    requires Follows(trie, a) && Follows(trie, b) && n <= |a| && n <= |b| && Indices(a)[..n] == Indices(b)[..n]
    requires m <= n && m < |a| && m < |b|
    ensures a[m].kind == b[m].kind
  {
    assert Indices(a)[..m] == Indices(a)[..n][..m] == Indices(b)[..m];
  }

  /** The definitions' paths are the items', and in the trie. */
  ghost predicate Grown(items: seq<Item>, forms: seq<Form>, trie: Trie) {
    && |items| == |forms|
    && forall j: nat {:trigger PathIn(items, forms, trie, j)} :: j < |forms| ==> PathIn(items, forms, trie, j)
  }

  ghost predicate PathIn(items: seq<Item>, forms: seq<Form>, trie: Trie, j: nat)
    requires j < |items| == |forms|
  {
    items[j].steps == StepsOfForm(forms[j]) && Follows(trie, StepsOfForm(forms[j]))
  }

  /** Definition j takes the same n steps and then x. */
  predicate StepsOn(forms: seq<Form>, k: nat, n: nat, x: Step, j: nat)
    requires k < |forms|
  {
    && j < |forms| && n < |StepsOfForm(forms[j])| && n <= |StepsOfForm(forms[k])|
    && StepsOfForm(forms[j])[..n] == StepsOfForm(forms[k])[..n] && StepsOfForm(forms[j])[n] == x
  }

  /** A child of the node after n steps is there for a definition that goes on with it. */
  lemma ChildHasStep(items: seq<Item>, forms: seq<Form>, trie: Trie, k: nat, n: nat, x: Step) returns (j: nat)
    requires k < |forms| && Grown(items, forms, trie)
    requires n < |StepsOfForm(forms[k])| && StepsOfForm(forms[k])[n].kind == x.kind
    requires OnPath(items, Indices(StepsOfForm(forms[k]))[..n] + [x.index])
    ensures StepsOn(forms, k, n, x, j)
  {
    var q := Indices(StepsOfForm(forms[k]))[..n];
    j :| 0 <= j < |items| && q + [x.index] <= Indices(items[j].steps);
    assert PathIn(items, forms, trie, j) && PathIn(items, forms, trie, k);
    PrefixSplit(Indices(items[j].steps), q, x.index);
    StepsAgree(trie, StepsOfForm(forms[j]), StepsOfForm(forms[k]), n);
  }

  lemma PrefixSplit(p: Path, q: Path, i: nat)
    requires q + [i] <= p
    ensures |q| < |p| && p[..|q|] == q && p[|q|] == i
  {
    assert p[..|q|] == p[..|q| + 1][..|q|] == q;
  }

  /** And for each of these definitions there is the child. */
  lemma StepHasChild(items: seq<Item>, forms: seq<Form>, trie: Trie, k: nat, n: nat, x: Step, j: nat)
    requires k < |forms| && Grown(items, forms, trie) && StepsOn(forms, k, n, x, j)
    ensures OnPath(items, Indices(StepsOfForm(forms[k]))[..n] + [x.index])
  {
    var a, b := StepsOfForm(forms[j]), StepsOfForm(forms[k]);
    forall m | 0 <= m < n
      ensures Indices(a)[m] == Indices(b)[m]
    {
      assert a[..n][m] == b[..n][m];
    }
    assert PathIn(items, forms, trie, j);
    assert Indices(b)[..n] + [x.index] <= Indices(items[j].steps);
  }

  lemma GoesOnIs(forms: seq<Form>, k: nat, n: nat, e: Ext, j: nat)
    requires k < |forms| && j < |forms| && n <= |forms[k].opcodes|
    ensures StepsOn(forms, k, n, StepOf(Extension(e)), j) <==> GoesOn(forms[j], forms[k], n, Extension(e))
  {
    if StepsOn(forms, k, n, StepOf(Extension(e)), j) {
      OpcodesFromSteps(forms[j], forms[k], n);
      if n < |forms[j].opcodes| {
        StepOfInjective(forms[j].opcodes[n], Extension(e));
      }
    }
    if GoesOn(forms[j], forms[k], n, Extension(e)) {
      SameSteps(forms[j].opcodes, forms[k].opcodes, n);
      assert StepsOfForm(forms[j])[..n] == StepsOf(forms[j].opcodes)[..n];
      assert StepsOfForm(forms[k])[..n] == StepsOf(forms[k].opcodes)[..n];
    }
  }

  lemma SameSteps(os: seq<Opc>, ps: seq<Opc>, n: nat)
    requires n <= |os| && n <= |ps| && os[..n] == ps[..n]
    ensures StepsOf(os)[..n] == StepsOf(ps)[..n]
  {
    forall m | 0 <= m < n
      ensures StepsOf(os)[m] == StepsOf(ps)[m]
    {
      assert os[..n][m] == ps[..n][m];
    }
  }

  /** The alternative that an SSE table offers is a definition's. */
  lemma OfferedSame(items: seq<Item>, forms: seq<Form>, trie: Trie, k: nat, n: nat, c: Core, g: Given)
    requires k < |forms| && Grown(items, forms, trie)
    requires n < |forms[k].opcodes| && StepsOfForm(forms[k])[n].kind == Sse
    requires StringPrefix(g) && c.insn.str == g.str && c.insn.opr == (if g.opr then 0x66 else 0) && Candidate(g).Some?
    ensures EndToEnd.Offered(items, c, StepsOfForm(forms[k]), n) <==> Encoding.Offered(forms, k, n, g)
  {
    CandidateIndex(c, g);
    OfferedAt(items, forms, trie, k, n, SseExt(Candidate(g).value));
  }

  lemma CandidateIndex(c: Core, g: Given)
    requires StringPrefix(g) && c.insn.str == g.str && c.insn.opr == (if g.opr then 0x66 else 0) && Candidate(g).Some?
    ensures StepOf(Extension(SseExt(Candidate(g).value))) == Step(Sse, Probe(Sse, c)) && Probe(Sse, c) < SizeOf(Sse)
  {
  }

  lemma OfferedAt(items: seq<Item>, forms: seq<Form>, trie: Trie, k: nat, n: nat, e: Ext)
    requires k < |forms| && Grown(items, forms, trie)
    requires n < |forms[k].opcodes| && StepsOfForm(forms[k])[n].kind == KindOf(e)
    ensures OnPath(items, Indices(StepsOfForm(forms[k]))[..n] + [IndexOf(e)]) <==>
            exists j :: 0 <= j < |forms| && GoesOn(forms[j], forms[k], n, Extension(e))
  {
    if OnPath(items, Indices(StepsOfForm(forms[k]))[..n] + [IndexOf(e)]) {
      var j := ChildHasStep(items, forms, trie, k, n, StepOf(Extension(e)));
      GoesOnIs(forms, k, n, e, j);
    }
    if j :| 0 <= j < |forms| && GoesOn(forms[j], forms[k], n, Extension(e)) {
      GoesOnIs(forms, k, n, e, j);
      StepHasChild(items, forms, trie, k, n, StepOf(Extension(e)), j);
    }
  }

  /** The alternative that a vendor table offers first is one for AMD. */
  lemma AmdSame(items: seq<Item>, forms: seq<Form>, trie: Trie, k: nat, c: Core)
    requires k < |forms| && Grown(items, forms, trie) && forms[k].vendor.Some?
    ensures EndToEnd.Offered(items, c, StepsOfForm(forms[k]), |forms[k].opcodes|) <==> SameForAmd(forms, k)
  {
    var n := |forms[k].opcodes|;
    if EndToEnd.Offered(items, c, StepsOfForm(forms[k]), n) {
      var j := ChildHasStep(items, forms, trie, k, n, Step(Vendor, 0));
      AmdIs(forms, k, j);
    }
    if SameForAmd(forms, k) {
      var j :| 0 <= j < |forms| && forms[j].opcodes == forms[k].opcodes && forms[j].vendor == Some(Amd);
      AmdIs(forms, k, j);
      StepHasChild(items, forms, trie, k, n, Step(Vendor, 0), j);
    }
  }

  lemma AmdIs(forms: seq<Form>, k: nat, j: nat)
    requires k < |forms| && j < |forms| && forms[k].vendor.Some?
    ensures StepsOn(forms, k, |forms[k].opcodes|, Step(Vendor, 0), j) <==>
            forms[j].opcodes == forms[k].opcodes && forms[j].vendor == Some(Amd)
  {
    var n := |forms[k].opcodes|;
    if StepsOn(forms, k, n, Step(Vendor, 0), j) {
      OpcodesFromSteps(forms[j], forms[k], n);
      StepOfOpcode(forms[j], n);
      SameWhole(forms[j].opcodes, forms[k].opcodes, n);
    }
    if forms[j].opcodes == forms[k].opcodes && forms[j].vendor == Some(Amd) {
      PathFront(forms[j]);
      PathFront(forms[k]);
      StepOfOpcode(forms[j], n);
    }
  }

  lemma SameWhole<T>(a: seq<T>, b: seq<T>, n: nat)
    requires n == |a| == |b| && a[..n] == b[..n]
    ensures a == b
  {
    assert a[..n] == a && b[..n] == b;
  }

  lemma PathFront(def: Form)
    ensures |StepsOfForm(def)| == |def.opcodes| + (if def.vendor.Some? then 1 else 0)
    ensures StepsOfForm(def)[..|def.opcodes|] == StepsOf(def.opcodes)
  {
  }

  // ----- The extensions of a definition -----------------------------------------------------------------

  /** The alternatives in the trie are those of the definitions, at step n of definition k, */
  ghost predicate OfferRight(items: seq<Item>, forms: seq<Form>, k: nat, n: nat, c: Core, g: Given) {
    k < |forms| && n < |forms[k].opcodes| && StepsOfForm(forms[k])[n].kind == Sse &&
    Candidate(g).Some? && StringPrefix(g) && c.insn.str == g.str && c.insn.opr == (if g.opr then 0x66 else 0) ==>
      (EndToEnd.Offered(items, c, StepsOfForm(forms[k]), n) <==> Encoding.Offered(forms, k, n, g))
  }

  /** and at its vendor. */
  ghost predicate VendorRight(items: seq<Item>, forms: seq<Form>, k: nat, c: Core) {
    k < |forms| && forms[k].vendor.Some? ==>
      (EndToEnd.Offered(items, c, StepsOfForm(forms[k]), |forms[k].opcodes|) <==> SameForAmd(forms, k))
  }

  ghost predicate Faithful(items: seq<Item>, forms: seq<Form>, k: nat) {
    && k < |forms| && WellOrdered(StepsOfForm(forms[k]))
    && (forall n: nat, c, g {:trigger OfferRight(items, forms, k, n, c, g)} :: OfferRight(items, forms, k, n, c, g))
    && (forall c {:trigger VendorRight(items, forms, k, c)} :: VendorRight(items, forms, k, c))
  }

  lemma GrownFaithful(items: seq<Item>, forms: seq<Form>, trie: Trie, k: nat)
    requires k < |forms| && Grown(items, forms, trie) && WellOrdered(StepsOfForm(forms[k]))
    ensures Faithful(items, forms, k)
  {
    forall n: nat, c, g
      ensures OfferRight(items, forms, k, n, c, g)
    {
      if n < |forms[k].opcodes| && StepsOfForm(forms[k])[n].kind == Sse && Candidate(g).Some? && StringPrefix(g) &&
         c.insn.str == g.str && c.insn.opr == (if g.opr then 0x66 else 0) {
        OfferedSame(items, forms, trie, k, n, c, g);
      }
    }
    forall c
      ensures VendorRight(items, forms, k, c)
    {
      if forms[k].vendor.Some? { AmdSame(items, forms, trie, k, c); }
    }
  }

  /** The decoder at extension n: what it holds, and that every `/mod` so far was what the input asked for. */
  ghost predicate At(rem: seq<byte>, p: nat, c: Core, g: Given, steps: seq<Step>, n: nat) {
    1 <= n <= |steps| && Holding(rem, p, c, g) && ModKnown(c, steps, n)
  }

  /** An x87 table is only entered behind `/mod=11`. */
  lemma Enterable(steps: seq<Step>, rem: seq<byte>, p: nat, c: Core, g: Given, n: nat)
    requires WellOrdered(steps) && At(rem, p, c, g, steps, n) && n < |steps| && steps[n].kind != OpcTbl
    ensures MayEnter(steps[n].kind, c)
  {
    if steps[n].kind == X87 {
      assert MayFollow(steps[n - 1], steps[n]);
    }
  }

  /** One extension: its entry is chosen if and only if it is what the input asks for. */
  lemma ExtensionTaken(items: seq<Item>, forms: seq<Form>, k: nat, rem: seq<byte>, cfg: Config, c: Core, g: Given,
                       p: nat, n: nat, e: Ext)
    requires k < |forms| && Faithful(items, forms, k) && At(rem, p, c, g, StepsOfForm(forms[k]), n)
    requires n < |forms[k].opcodes| && forms[k].opcodes[n] == Extension(e) && !e.ThreeDNowExt?
    ensures StepsOfForm(forms[k])[n] == Step(KindOf(e), IndexOf(e)) && MayEnter(KindOf(e), c)
    ensures var (d, i) := Choose(rem, cfg, c, KindOf(e), EndToEnd.Offered(items, c, StepsOfForm(forms[k]), n));
            && (i == IndexOf(e) <==> Asked(e, g, ByteOrZero(rem, p), cfg.mode, Encoding.Offered(forms, k, n, g)))
            && (i == IndexOf(e) ==> At(rem, p, d, Used(e, g), StepsOfForm(forms[k]), n + 1))
  {
    StepOfOpcode(forms[k], n);
    Enterable(StepsOfForm(forms[k]), rem, p, c, g, n);
    OwnOffer(items, forms, k, c, g, n, e);
    var present := EndToEnd.Offered(items, c, StepsOfForm(forms[k]), n);
    ChosenIfAsked(rem, cfg, c, g, p, e, present, Encoding.Offered(forms, k, n, g));
    if Choose(rem, cfg, c, KindOf(e), present).1 == IndexOf(e) {
      ModStaysKnown(rem, cfg, c, StepsOfForm(forms[k]), n, present);
    }
  }

  lemma OwnOffer(items: seq<Item>, forms: seq<Form>, k: nat, c: Core, g: Given, n: nat, e: Ext)
    requires k < |forms| && Faithful(items, forms, k) && StringPrefix(g)
    requires c.insn.str == g.str && c.insn.opr == if g.opr then 0x66 else 0
    requires n < |forms[k].opcodes| && forms[k].opcodes[n] == Extension(e)
    ensures e.SseExt? && Candidate(g).Some? ==>
              (EndToEnd.Offered(items, c, StepsOfForm(forms[k]), n) <==> Encoding.Offered(forms, k, n, g))
    ensures e.SseExt? && Candidate(g) == Some(e.prefix) ==> Encoding.Offered(forms, k, n, g)
  {
    assert OfferRight(items, forms, k, n, c, g);
    StepOfOpcode(forms[k], n);
    if e.SseExt? && Candidate(g) == Some(e.prefix) {
      assert GoesOn(forms[k], forms[k], n, Extension(SseExt(Candidate(g).value)));
    }
  }

  /** A repeated `/mod` asks for what was asked before. */
  lemma RepeatAsked(steps: seq<Step>, rem: seq<byte>, p: nat, c: Core, g: Given, n: nat, e: Ext, mode: ModeBits,
                    offered: bool)
    requires At(rem, p, c, g, steps, n) && n < |steps| && steps[n] == Step(KindOf(e), IndexOf(e)) && Repeat(steps, n)
    ensures !e.ThreeDNowExt? && Asked(e, g, ByteOrZero(rem, p), mode, offered) && Used(e, g) == g
    ensures At(rem, p, c, g, steps, n + 1)
  {
    var j :| 0 <= j < n && steps[..n][j] == steps[n];
    assert steps[j] == steps[n];
  }

  /** The vendor table. */
  lemma VendorTaken(items: seq<Item>, forms: seq<Form>, k: nat, rem: seq<byte>, cfg: Config, c: Core, g: Given,
                    p: nat)
    requires k < |forms| && Faithful(items, forms, k) && forms[k].vendor.Some?
    requires Holding(rem, p, c, g)
    ensures var steps, n := StepsOfForm(forms[k]), |forms[k].opcodes|;
            && |steps| == n + 1 && steps[n].kind == Vendor && MayEnter(Vendor, c)
            && var (d, i) := Choose(rem, cfg, c, Vendor, EndToEnd.Offered(items, c, steps, n));
               d == c && (i == steps[n].index <==> VendorAsked(forms, k, cfg.vendor))
  {
    assert VendorRight(items, forms, k, c);
    StepOfOpcode(forms[k], |forms[k].opcodes|);
    if forms[k].vendor == Some(Amd) {
      assert forms[k].opcodes == forms[k].opcodes && SameForAmd(forms, k);
    }
  }

  predicate AllExtensions(os: seq<Opc>, n: nat) {
    forall j :: n <= j < |os| ==> os[j].Extension?
  }

  ghost predicate TakesAsAsked(items: seq<Item>, forms: seq<Form>, k: nat, rem: seq<byte>, cfg: Config, c: Core,
                               g: Given, p: nat, n: nat)
  {
    k < |forms| && n <= |forms[k].opcodes| && n <= |StepsOfForm(forms[k])| &&
    (Takes(items, rem, cfg, c, StepsOfForm(forms[k]), n) <==>
     ExtensionsAsked(forms, k, g, ByteOrZero(rem, p), cfg, n))
  }

  /** The path takes the extensions of the definition and its vendor if and only if they are what the input
      asks for. */
  lemma {:induction false} TakesAsked(items: seq<Item>, forms: seq<Form>, k: nat, rem: seq<byte>, cfg: Config,
                                      c: Core, g: Given, p: nat, n: nat)
    requires k < |forms| && Faithful(items, forms, k) && At(rem, p, c, g, StepsOfForm(forms[k]), n)
    requires n <= |forms[k].opcodes| && AllExtensions(forms[k].opcodes, n)
    ensures TakesAsAsked(items, forms, k, rem, cfg, c, g, p, n)
    decreases |forms[k].opcodes| - n
  {
    var os := forms[k].opcodes;
    if n == |os| {
      VendorLast(items, forms, k, rem, cfg, c, g, p);
    } else if os[n].ext.ThreeDNowExt? {
      StepOfOpcode(forms[k], n);
      NowAsked(items, forms, k, rem, cfg, c, g, ByteOrZero(rem, p), n);
    } else {
      var d, taken := StepAsked(items, forms, k, rem, cfg, c, g, p, n, os[n].ext);
      if taken {
        TakesAsked(items, forms, k, rem, cfg, d, Used(os[n].ext, g), p, n + 1);
      }
    }
  }

  /** One extension, repeated or not. */
  lemma StepAsked(items: seq<Item>, forms: seq<Form>, k: nat, rem: seq<byte>, cfg: Config, c: Core, g: Given,
                  p: nat, n: nat, e: Ext) returns (d: Core, taken: bool)
    requires k < |forms| && Faithful(items, forms, k) && At(rem, p, c, g, StepsOfForm(forms[k]), n)
    requires n < |forms[k].opcodes| && forms[k].opcodes[n] == Extension(e) && !e.ThreeDNowExt?
    ensures taken ==> At(rem, p, d, Used(e, g), StepsOfForm(forms[k]), n + 1)
    ensures ExtensionsAsked(forms, k, g, ByteOrZero(rem, p), cfg, n) <==>
              taken && ExtensionsAsked(forms, k, Used(e, g), ByteOrZero(rem, p), cfg, n + 1)
    ensures Takes(items, rem, cfg, c, StepsOfForm(forms[k]), n) <==>
              taken && Takes(items, rem, cfg, d, StepsOfForm(forms[k]), n + 1)
  {
    StepOfOpcode(forms[k], n);
    if Repeat(StepsOfForm(forms[k]), n) {
      RepeatNext(items, forms, k, rem, cfg, c, g, p, n, e);
      d, taken := c, true;
    } else {
      d, taken := ChoiceAsked(items, forms, k, rem, cfg, c, g, p, n, e);
    }
  }

  lemma NowAsked(items: seq<Item>, forms: seq<Form>, k: nat, rem: seq<byte>, cfg: Config, c: Core, g: Given,
                 modrm: byte, n: nat)
    requires k < |forms| && n < |forms[k].opcodes| && n < |StepsOfForm(forms[k])|
    requires forms[k].opcodes[n].Extension? && forms[k].opcodes[n].ext.ThreeDNowExt?
    ensures Takes(items, rem, cfg, c, StepsOfForm(forms[k]), n) && ExtensionsAsked(forms, k, g, modrm, cfg, n)
  {
    StepOfOpcode(forms[k], n);
  }

  lemma RepeatNext(items: seq<Item>, forms: seq<Form>, k: nat, rem: seq<byte>, cfg: Config, c: Core, g: Given,
                   p: nat, n: nat, e: Ext)
    requires k < |forms| && At(rem, p, c, g, StepsOfForm(forms[k]), n)
    requires n < |forms[k].opcodes| && forms[k].opcodes[n] == Extension(e) && !e.ThreeDNowExt?
    requires n < |StepsOfForm(forms[k])| && Repeat(StepsOfForm(forms[k]), n)
    ensures At(rem, p, c, g, StepsOfForm(forms[k]), n + 1) && Used(e, g) == g
    ensures Takes(items, rem, cfg, c, StepsOfForm(forms[k]), n) <==>
            Takes(items, rem, cfg, c, StepsOfForm(forms[k]), n + 1)
    ensures ExtensionsAsked(forms, k, g, ByteOrZero(rem, p), cfg, n) <==>
            ExtensionsAsked(forms, k, g, ByteOrZero(rem, p), cfg, n + 1)
  {
    StepOfOpcode(forms[k], n);
    RepeatAsked(StepsOfForm(forms[k]), rem, p, c, g, n, e, cfg.mode, Encoding.Offered(forms, k, n, g));
    ExtensionsNext(forms, k, g, ByteOrZero(rem, p), cfg, n, e);
  }

  lemma ExtensionsNext(forms: seq<Form>, k: nat, g: Given, modrm: byte, cfg: Config, n: nat, e: Ext)
    requires k < |forms| && n < |forms[k].opcodes| && forms[k].opcodes[n] == Extension(e) && !e.ThreeDNowExt?
    ensures ExtensionsAsked(forms, k, g, modrm, cfg, n) <==>
              Asked(e, g, modrm, cfg.mode, Encoding.Offered(forms, k, n, g)) &&
              ExtensionsAsked(forms, k, Used(e, g), modrm, cfg, n + 1)
  {
  }

  lemma ChoiceAsked(items: seq<Item>, forms: seq<Form>, k: nat, rem: seq<byte>, cfg: Config, c: Core, g: Given,
                    p: nat, n: nat, e: Ext) returns (d: Core, taken: bool)
    requires k < |forms| && Faithful(items, forms, k) && At(rem, p, c, g, StepsOfForm(forms[k]), n)
    requires n < |forms[k].opcodes| && forms[k].opcodes[n] == Extension(e) && !e.ThreeDNowExt?
    requires n < |StepsOfForm(forms[k])| && !Repeat(StepsOfForm(forms[k]), n)
    ensures taken ==> At(rem, p, d, Used(e, g), StepsOfForm(forms[k]), n + 1)
    ensures ExtensionsAsked(forms, k, g, ByteOrZero(rem, p), cfg, n) <==>
              taken && ExtensionsAsked(forms, k, Used(e, g), ByteOrZero(rem, p), cfg, n + 1)
    ensures Takes(items, rem, cfg, c, StepsOfForm(forms[k]), n) <==>
              taken && Takes(items, rem, cfg, d, StepsOfForm(forms[k]), n + 1)
  {
    ExtensionTaken(items, forms, k, rem, cfg, c, g, p, n, e);
    ExtensionsNext(forms, k, g, ByteOrZero(rem, p), cfg, n, e);
    var (d', i) := Choose(rem, cfg, c, KindOf(e), EndToEnd.Offered(items, c, StepsOfForm(forms[k]), n));
    d, taken := d', i == IndexOf(e);
  }

  lemma VendorLast(items: seq<Item>, forms: seq<Form>, k: nat, rem: seq<byte>, cfg: Config, c: Core, g: Given,
                   p: nat)
    requires k < |forms| && Faithful(items, forms, k) && Holding(rem, p, c, g)
    requires |forms[k].opcodes| <= |StepsOfForm(forms[k])|
    ensures Takes(items, rem, cfg, c, StepsOfForm(forms[k]), |forms[k].opcodes|) <==>
            ExtensionsAsked(forms, k, g, ByteOrZero(rem, p), cfg, |forms[k].opcodes|)
  {
    if forms[k].vendor.Some? { VendorTaken(items, forms, k, rem, cfg, c, g, p); }
  }

  // ----- A whole definition --------------------------------------------------------------------------------

  /** The decoder behind n opcode bytes of an instruction with q prefixes. */
  predicate BehindOpcodes(rem: seq<byte>, c: Core, g: Given, q: nat, n: nat) {
    && StringPrefix(g) && c.insn == GivenInsn(g) && c.modrm.None? && !c.end && c.ctr == q + n <= |rem|
  }

  lemma {:induction false} OpcodesTaken(items: seq<Item>, forms: seq<Form>, k: nat, rem: seq<byte>, cfg: Config,
                                        c: Core, g: Given, q: nat, n: nat, b: nat)
    requires k < |forms| && Faithful(items, forms, k) && BehindOpcodes(rem, c, g, q, n)
    requires 1 <= n <= b <= |forms[k].opcodes|
    requires forall j :: 0 <= j < b ==> forms[k].opcodes[j].Plain?
    requires AllExtensions(forms[k].opcodes, b)
    ensures Takes(items, rem, cfg, c, StepsOfForm(forms[k]), n) <==>
            OpcodesThere(forms[k].opcodes, rem, q, n, b) &&
            ExtensionsAsked(forms, k, g, ByteOrZero(rem, q + b), cfg, b)
    decreases b - n
  {
    var os, steps := forms[k].opcodes, StepsOfForm(forms[k]);
    if n == b {
      assert At(rem, q + b, c, g, steps, n);
      TakesAsked(items, forms, k, rem, cfg, c, g, q + b, n);
    } else {
      StepOfOpcode(forms[k], n);
      var c1 := Next(rem, c).0;
      if !c1.insn.err && c1.curr == steps[n].index {
        OpcodesTaken(items, forms, k, rem, cfg, c1.(primary := Some(c1.curr)), g, q, n + 1, b);
      }
    }
  }

  /** An input takes a definition's path if and only if it is an instance of the definition. */
  lemma MatchesSame(items: seq<Item>, forms: seq<Form>, k: nat, rem: seq<byte>, cfg: Config)
    requires k < |forms| && Faithful(items, forms, k) && Proper(forms[k])
    ensures EndToEnd.Matches(items, rem, cfg, StepsOfForm(forms[k])) <==> Encoding.Matches(forms, k, rem, cfg)
  {
    var q := PrefixCount(rem, cfg.mode);
    MatchesBegun(items, rem, cfg, StepsOfForm(forms[k]), q, Said(rem[..q], cfg.mode));
    InstanceTaken(items, forms, k, rem, cfg, Said(rem[..q], cfg.mode), q);
  }

  /** Behind q prefixes that say `g`. */
  ghost predicate Started(items: seq<Item>, rem: seq<byte>, cfg: Config, steps: seq<Step>, q: nat, g: Given) {
    && steps != [] && q <= 13 && q < |rem| && rem[q] == steps[0].index
    && Takes(items, rem, cfg, Begun(rem, q, g), steps, 1)
  }

  lemma InstanceTaken(items: seq<Item>, forms: seq<Form>, k: nat, rem: seq<byte>, cfg: Config, g: Given, q: nat)
    requires k < |forms| && Faithful(items, forms, k) && Proper(forms[k]) && q <= |rem|
    requires g == Said(rem[..q], cfg.mode)
    ensures Started(items, rem, cfg, StepsOfForm(forms[k]), q, g) <==> Instance(forms, k, rem, cfg, q, g)
  {
    SaidString(rem[..q], cfg.mode);
    if q < |rem| {
      FirstTaken(items, forms, k, rem, cfg, g, q, forms[k].plains);
    }
  }

  /** The plain opcodes, of which there is one at least, come first. */
  predicate Proper(form: Form) {
    && 1 <= form.plains <= |form.opcodes| && AllExtensions(form.opcodes, form.plains)
    && forall j :: 0 <= j < form.plains ==> form.opcodes[j].Plain?
  }

  lemma FormProper(def: InsnDef)
    requires Indexable(def.opcodes)
    ensures Proper(FormOf(def))
  {
    PlainsFirst(def.opcodes);
    assert forall j :: 0 <= j < |Plains(def.opcodes)| ==> Ordered(def.opcodes)[j] == Plains(def.opcodes)[j];
  }

  lemma MatchesBegun(items: seq<Item>, rem: seq<byte>, cfg: Config, steps: seq<Step>, q: nat, g: Given)
    requires q == PrefixCount(rem, cfg.mode) && g == Said(rem[..q], cfg.mode)
    ensures EndToEnd.Matches(items, rem, cfg, steps) <==> Started(items, rem, cfg, steps, q, g)
    ensures EndToEnd.Matches(items, rem, cfg, steps) ==>
              PathTaken(items, rem, cfg, steps) == Taken(items, rem, cfg, Begun(rem, q, g), steps, 1)
  {
    BegunIs(rem, cfg);
  }

  /** The decoder behind the prefixes and the first opcode byte. */
  function Begun(rem: seq<byte>, q: nat, g: Given): Core
    requires q < |rem|
  {
    FRESH.(ctr := q + 1, curr := rem[q], insn := GivenInsn(g), primary := Some(rem[q]))
  }

  lemma BegunIs(rem: seq<byte>, cfg: Config)
    ensures var c, q := DecodePrefixes(rem, cfg, FRESH, 0), PrefixCount(rem, cfg.mode);
            if q <= 13 && q < |rem|
            then !c.insn.err && c.curr == rem[q] &&
                 c.(primary := Some(c.curr)) == Begun(rem, q, Said(rem[..q], cfg.mode))
            else c.insn.err
  {
    PrefixesMean(rem, cfg);
  }

  lemma FirstTaken(items: seq<Item>, forms: seq<Form>, k: nat, rem: seq<byte>, cfg: Config, g: Given, q: nat, b: nat)
    requires k < |forms| && Faithful(items, forms, k) && 1 <= b <= |forms[k].opcodes| && q < |rem|
    requires forall j :: 0 <= j < b ==> forms[k].opcodes[j].Plain?
    requires AllExtensions(forms[k].opcodes, b) && StringPrefix(g)
    ensures rem[q] == StepsOfForm(forms[k])[0].index &&
            Takes(items, rem, cfg, Begun(rem, q, g), StepsOfForm(forms[k]), 1) <==>
              OpcodesThere(forms[k].opcodes, rem, q, 0, b) &&
              ExtensionsAsked(forms, k, g, ByteOrZero(rem, q + b), cfg, b)
  {
    StepOfOpcode(forms[k], 0);
    OpcodesTaken(items, forms, k, rem, cfg, Begun(rem, q, g), g, q, 1, b);
  }

  // ----- What the walk leaves to the instruction ---------------------------------------------------------------

  /** Before extension n, on the way to d with `left` left. */
  ghost predicate OnTheWay(items: seq<Item>, form: Form, rem: seq<byte>, cfg: Config, c: Core, g: Given, p: nat, n: nat,
                           d: Core, left: Given)
  {
    && At(rem, p, c, g, StepsOfForm(form), n) && n <= |form.opcodes| && AllExtensions(form.opcodes, n)
    && Takes(items, rem, cfg, c, StepsOfForm(form), n)
    && d == Taken(items, rem, cfg, c, StepsOfForm(form), n) && left == LeftOver(form.opcodes, n, g)
  }

  /** Taking a definition's extensions leaves the prefixes that they do not use up. */
  lemma {:induction false} TakenHolds(items: seq<Item>, forms: seq<Form>, k: nat, rem: seq<byte>, cfg: Config,
                                      c: Core, g: Given, p: nat, n: nat, d: Core, left: Given)
    requires k < |forms| && n <= |forms[k].opcodes|
    ensures Faithful(items, forms, k) && OnTheWay(items, forms[k], rem, cfg, c, g, p, n, d, left) ==>
              Holding(rem, p, d, left)
    decreases |forms[k].opcodes| - n
  {
    var os := forms[k].opcodes;
    if Faithful(items, forms, k) && OnTheWay(items, forms[k], rem, cfg, c, g, p, n, d, left) {
      if n == |os| || os[n].ext.ThreeDNowExt? {
        NothingTaken(items, forms, k, rem, cfg, c, g, p, n, d, left);
      } else {
        var c1 := StepOnTheWay(items, forms, k, rem, cfg, c, g, p, n, d, left);
        TakenHolds(items, forms, k, rem, cfg, c1, Used(os[n].ext, g), p, n + 1, d, left);
      }
    }
  }

  lemma StepOnTheWay(items: seq<Item>, forms: seq<Form>, k: nat, rem: seq<byte>, cfg: Config, c: Core, g: Given,
                     p: nat, n: nat, d: Core, left: Given) returns (c1: Core)
    requires k < |forms| && Faithful(items, forms, k) && OnTheWay(items, forms[k], rem, cfg, c, g, p, n, d, left)
    requires n < |forms[k].opcodes| && !forms[k].opcodes[n].ext.ThreeDNowExt?
    ensures OnTheWay(items, forms[k], rem, cfg, c1, Used(forms[k].opcodes[n].ext, g), p, n + 1, d, left)
  {
    c1 := StepTaken(items, forms, k, rem, cfg, c, g, p, n, forms[k].opcodes[n].ext);
  }

  /** Neither the vendor nor the 3DNow table changes anything. */
  lemma NothingTaken(items: seq<Item>, forms: seq<Form>, k: nat, rem: seq<byte>, cfg: Config, c: Core, g: Given,
                     p: nat, n: nat, d: Core, left: Given)
    requires k < |forms| && Faithful(items, forms, k) && OnTheWay(items, forms[k], rem, cfg, c, g, p, n, d, left)
    requires n == |forms[k].opcodes| || forms[k].opcodes[n].ext.ThreeDNowExt?
    ensures Holding(rem, p, d, left)
  {
    if n == |forms[k].opcodes| {
      VendorHolds(items, forms, k, rem, cfg, c, g, p);
    } else {
      StepOfOpcode(forms[k], n);
      NowTaken(items, forms, k, rem, cfg, c, g, n);
    }
  }

  lemma StepTaken(items: seq<Item>, forms: seq<Form>, k: nat, rem: seq<byte>, cfg: Config, c: Core, g: Given,
                  p: nat, n: nat, e: Ext) returns (d: Core)
    requires k < |forms| && Faithful(items, forms, k) && At(rem, p, c, g, StepsOfForm(forms[k]), n)
    requires n < |forms[k].opcodes| && forms[k].opcodes[n] == Extension(e) && !e.ThreeDNowExt?
    requires Takes(items, rem, cfg, c, StepsOfForm(forms[k]), n)
    ensures At(rem, p, d, Used(e, g), StepsOfForm(forms[k]), n + 1)
    ensures SameEnd(items, rem, cfg, c, d, StepsOfForm(forms[k]), n)
    ensures LeftOver(forms[k].opcodes, n, g) == LeftOver(forms[k].opcodes, n + 1, Used(e, g))
  {
    StepOfOpcode(forms[k], n);
    if Repeat(StepsOfForm(forms[k]), n) {
      RepeatTaken(items, forms, k, rem, cfg, c, g, p, n, e);
      d := c;
    } else {
      d := ChoiceTaken(items, forms, k, rem, cfg, c, g, p, n, e);
    }
  }

  lemma NowTaken(items: seq<Item>, forms: seq<Form>, k: nat, rem: seq<byte>, cfg: Config, c: Core, g: Given, n: nat)
    requires k < |forms| && n < |forms[k].opcodes| && n < |StepsOfForm(forms[k])|
    requires forms[k].opcodes[n].Extension? && forms[k].opcodes[n].ext.ThreeDNowExt?
    ensures Takes(items, rem, cfg, c, StepsOfForm(forms[k]), n)
    ensures Taken(items, rem, cfg, c, StepsOfForm(forms[k]), n) == c && LeftOver(forms[k].opcodes, n, g) == g
  {
    StepOfOpcode(forms[k], n);
  }

  lemma RepeatTaken(items: seq<Item>, forms: seq<Form>, k: nat, rem: seq<byte>, cfg: Config, c: Core, g: Given,
                    p: nat, n: nat, e: Ext)
    requires k < |forms| && At(rem, p, c, g, StepsOfForm(forms[k]), n)
    requires n < |forms[k].opcodes| && forms[k].opcodes[n] == Extension(e) && !e.ThreeDNowExt?
    requires n < |StepsOfForm(forms[k])| && Repeat(StepsOfForm(forms[k]), n)
    requires Takes(items, rem, cfg, c, StepsOfForm(forms[k]), n)
    ensures At(rem, p, c, g, StepsOfForm(forms[k]), n + 1) && Used(e, g) == g
    ensures SameEnd(items, rem, cfg, c, c, StepsOfForm(forms[k]), n)
    ensures LeftOver(forms[k].opcodes, n, g) == LeftOver(forms[k].opcodes, n + 1, g)
  {
    StepOfOpcode(forms[k], n);
    RepeatAsked(StepsOfForm(forms[k]), rem, p, c, g, n, e, cfg.mode, false);
    TakenRepeat(items, rem, cfg, c, StepsOfForm(forms[k]), n);
  }

  lemma ChoiceTaken(items: seq<Item>, forms: seq<Form>, k: nat, rem: seq<byte>, cfg: Config, c: Core, g: Given,
                    p: nat, n: nat, e: Ext) returns (d: Core)
    requires k < |forms| && Faithful(items, forms, k) && At(rem, p, c, g, StepsOfForm(forms[k]), n)
    requires n < |forms[k].opcodes| && forms[k].opcodes[n] == Extension(e) && !e.ThreeDNowExt?
    requires n < |StepsOfForm(forms[k])| && !Repeat(StepsOfForm(forms[k]), n)
    requires Takes(items, rem, cfg, c, StepsOfForm(forms[k]), n)
    ensures At(rem, p, d, Used(e, g), StepsOfForm(forms[k]), n + 1)
    ensures SameEnd(items, rem, cfg, c, d, StepsOfForm(forms[k]), n)
    ensures LeftOver(forms[k].opcodes, n, g) == LeftOver(forms[k].opcodes, n + 1, Used(e, g))
  {
    ExtensionTaken(items, forms, k, rem, cfg, c, g, p, n, e);
    TakenChoice(items, rem, cfg, c, StepsOfForm(forms[k]), n);
    d := Choose(rem, cfg, c, KindOf(e), EndToEnd.Offered(items, c, StepsOfForm(forms[k]), n)).0;
  }

  lemma VendorHolds(items: seq<Item>, forms: seq<Form>, k: nat, rem: seq<byte>, cfg: Config, c: Core, g: Given,
                    p: nat)
    requires k < |forms| && Faithful(items, forms, k) && Holding(rem, p, c, g)
    requires |forms[k].opcodes| <= |StepsOfForm(forms[k])|
    requires Takes(items, rem, cfg, c, StepsOfForm(forms[k]), |forms[k].opcodes|)
    ensures Taken(items, rem, cfg, c, StepsOfForm(forms[k]), |forms[k].opcodes|) == c
  {
    if forms[k].vendor.Some? {
      VendorTaken(items, forms, k, rem, cfg, c, g, p);
      TakenChoice(items, rem, cfg, c, StepsOfForm(forms[k]), |forms[k].opcodes|);
    }
  }

  lemma {:induction false} OpcodesHold(items: seq<Item>, forms: seq<Form>, k: nat, rem: seq<byte>, cfg: Config,
                                       c: Core, g: Given, q: nat, n: nat, b: nat)
    requires k < |forms| && Faithful(items, forms, k) && BehindOpcodes(rem, c, g, q, n)
    requires 1 <= n <= b <= |forms[k].opcodes|
    requires forall j :: 0 <= j < b ==> forms[k].opcodes[j].Plain?
    requires AllExtensions(forms[k].opcodes, b) && Takes(items, rem, cfg, c, StepsOfForm(forms[k]), n)
    ensures Holding(rem, q + b, Taken(items, rem, cfg, c, StepsOfForm(forms[k]), n),
                    LeftOver(forms[k].opcodes, b, g))
    decreases b - n
  {
    var steps := StepsOfForm(forms[k]);
    if n == b {
      assert At(rem, q + b, c, g, steps, n);
      TakenHolds(items, forms, k, rem, cfg, c, g, q + b, n, Taken(items, rem, cfg, c, StepsOfForm(forms[k]), n),
                 LeftOver(forms[k].opcodes, n, g));
    } else {
      StepOfOpcode(forms[k], n);
      var c1 := Next(rem, c).0;
      OpcodesHold(items, forms, k, rem, cfg, c1.(primary := Some(c1.curr)), g, q, n + 1, b);
    }
  }

  /** The state in which an instance of definition k is decoded. */
  lemma InstanceHolds(items: seq<Item>, forms: seq<Form>, k: nat, rem: seq<byte>, cfg: Config, g: Given, q: nat)
    requires k < |forms| && Faithful(items, forms, k) && Proper(forms[k]) && q <= |rem|
    requires g == Said(rem[..q], cfg.mode) && Instance(forms, k, rem, cfg, q, g)
    ensures Started(items, rem, cfg, StepsOfForm(forms[k]), q, g)
    ensures Holding(rem, q + forms[k].plains, Taken(items, rem, cfg, Begun(rem, q, g), StepsOfForm(forms[k]), 1),
                    LeftOver(forms[k].opcodes, forms[k].plains, g))
  {
    InstanceTaken(items, forms, k, rem, cfg, g, q);
    FirstHolds(items, forms, k, rem, cfg, g, q, forms[k].plains);
  }

  lemma FirstHolds(items: seq<Item>, forms: seq<Form>, k: nat, rem: seq<byte>, cfg: Config, g: Given, q: nat, b: nat)
    requires k < |forms| && Faithful(items, forms, k) && 1 <= b <= |forms[k].opcodes| && q < |rem|
    requires forall j :: 0 <= j < b ==> forms[k].opcodes[j].Plain?
    requires AllExtensions(forms[k].opcodes, b) && g == Said(rem[..q], cfg.mode)
    requires Takes(items, rem, cfg, Begun(rem, q, g), StepsOfForm(forms[k]), 1)
    ensures Holding(rem, q + b, Taken(items, rem, cfg, Begun(rem, q, g), StepsOfForm(forms[k]), 1),
                    LeftOver(forms[k].opcodes, b, g))
  {
    SaidString(rem[..q], cfg.mode);
    OpcodesHold(items, forms, k, rem, cfg, Begun(rem, q, g), g, q, 1, b);
  }

  // ----- Whether the ModRM byte has been read ------------------------------------------------------------------

  predicate ByModrm(kind: TableKind) { kind == Mod || kind == Reg || kind == Rm || kind == X87 }

  predicate StepsRead(steps: seq<Step>, n: nat)
    requires n <= |steps|
    decreases |steps| - n
  {
    n < |steps| && steps[n].kind != ThreeDNow && (ByModrm(steps[n].kind) || StepsRead(steps, n + 1))
  }

  /** The walk has read the ModRM byte if and only if an extension looks at it. */
  lemma {:induction false} ModrmTaken(items: seq<Item>, rem: seq<byte>, cfg: Config, c: Core, steps: seq<Step>, n: nat)
    requires n <= |steps| && Takes(items, rem, cfg, c, steps, n) && ModKnown(c, steps, n)
    ensures Taken(items, rem, cfg, c, steps, n).modrm.Some? <==> c.modrm.Some? || StepsRead(steps, n)
    decreases |steps| - n
  {
    if n < |steps| && steps[n].kind != ThreeDNow {
      if steps[n].kind == OpcTbl {
        var c1 := Next(rem, c).0;
        ModrmTaken(items, rem, cfg, c1.(primary := Some(c1.curr)), steps, n + 1);
      } else if Repeat(steps, n) {
        RepeatKnown(c, steps, n);
        TakenRepeat(items, rem, cfg, c, steps, n);
        ModrmTaken(items, rem, cfg, c, steps, n + 1);
      } else {
        TakenChoice(items, rem, cfg, c, steps, n);
        var present := EndToEnd.Offered(items, c, steps, n);
        var d := Choose(rem, cfg, c, steps[n].kind, present).0;
        ModStaysKnown(rem, cfg, c, steps, n, present);
        ChoiceReads(rem, cfg, c, steps[n].kind, present);
        ModrmTaken(items, rem, cfg, d, steps, n + 1);
      }
    }
  }

  lemma RepeatKnown(c: Core, steps: seq<Step>, n: nat)
    requires n < |steps| && Repeat(steps, n) && ModKnown(c, steps, n)
    ensures c.modrm.Some? && ModKnown(c, steps, n + 1)
  {
    var j :| 0 <= j < n && steps[..n][j] == steps[n];
    assert steps[j] == steps[n];
  }

  lemma ChoiceReads(rem: seq<byte>, cfg: Config, c: Core, kind: TableKind, present: bool)
    requires MayEnter(kind, c) && kind != ThreeDNow
    ensures Choose(rem, cfg, c, kind, present).0.modrm.Some? <==> c.modrm.Some? || ByModrm(kind)
  {
  }

  lemma {:induction false} StepsReadIs(form: Form, n: nat)
    requires n <= |form.opcodes| <= |StepsOfForm(form)|
    ensures StepsRead(StepsOfForm(form), n) <==> ReadsModrm(form.opcodes, n)
    decreases |form.opcodes| - n
  {
    if n < |form.opcodes| {
      StepOfOpcode(form, n);
      StepsReadIs(form, n + 1);
    } else if n < |StepsOfForm(form)| {
      StepOfOpcode(form, n);
      assert !StepsRead(StepsOfForm(form), n + 1);
    }
  }
}
