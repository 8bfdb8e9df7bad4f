/** Saving the host's arguments and environment, and rebuilding the process-entry stack from them
    (shiva_ulexec.c, shiva_auxv.c). */
module Ulexec {
  import opened Bytes
  import opened Modular
  import opened Patching
  import opened UserStack

  /** The environment of the host process: pointers up to a NULL, each to a C string. */
  ghost predicate EnvWf(words: seq<nat>, text: map<nat, seq<byte>>, envp: nat) {
    && envp <= |words| && NullFrom(words, envp) < |words|
    && forall i :: envp <= i < NullFrom(words, envp) ==> words[i] in text && 0 !in text[words[i]]
  }

  /** Its strings. */
  ghost function Envs(words: seq<nat>, text: map<nat, seq<byte>>, envp: nat): (r: seq<seq<byte>>)
    requires EnvWf(words, text, envp)
    ensures NulFree(r) && |r| == NullFrom(words, envp) - envp
  {
    seq(NullFrom(words, envp) - envp, i requires 0 <= i < NullFrom(words, envp) - envp => text[words[envp + i]])
  }

  lemma {:induction false} FlatPrefix(ss: seq<seq<byte>>, i: nat, n: nat)
    requires i <= n <= |ss|
    ensures |FlatUpTo(ss, i)| <= |FlatUpTo(ss, n)|
  {
    if i < n { FlatPrefix(ss, i, n - 1); }
  }

  // ----- The iterator over an auxiliary vector --------------------------------------------------

  datatype IterResult = IterOk(entry: AuxEntry) | IterDone | IterError

  class AuxvIterator {
    const words: array<nat>
    var auxv: nat
    var index: nat

    constructor (words: array<nat>)
      ensures this.words == words
    {
      this.words := words;
      auxv, index := 0, 0;
    }

    /** With a vector given, iterate over that one; otherwise over the one behind the environment, if
        there is an environment. */
    method Init(envp: Option<nat>, given: Option<nat>) returns (ok: bool)
      requires given.None? && envp.Some? ==>
                 envp.value <= words.Length && NullFrom(words[..], envp.value) < words.Length
      modifies this`auxv, this`index
      ensures ok == (given.Some? || envp.Some?) && index == 0
      ensures ok ==> auxv == if given.Some? then given.value else NullFrom(words[..], envp.value) + 1
    {
      index := 0;
      if given.Some? {
        auxv := given.value;
        return true;
      }
      if envp.None? {
        return false;
      }
      var i := envp.value;
      while words[i] != 0
        invariant envp.value <= i <= NullFrom(words[..], envp.value)
        invariant NullFrom(words[..], i) == NullFrom(words[..], envp.value)
        decreases words.Length - i
      {
        i := i + 1;
      }
      auxv := i + 1;
      return true;
    }

    /** Delivers the entries one by one; the index advances even past the limit that makes it an error. */
    method Next() returns (r: IterResult)
      requires AuxEnds(words[..], auxv + 2 * index)
      modifies this`index
      ensures r.IterDone? <==> words[auxv + 2 * old(index)] == 0
      ensures r.IterDone? ==> index == old(index)
      ensures !r.IterDone? ==> index == old(index) + 1 && AuxEnds(words[..], auxv + 2 * index)
      ensures !r.IterDone? ==> (r.IterError? <==> old(index) >= ERRONEOUS_AUXV_COUNT)
      ensures r.IterOk? ==>
                r.entry == Delivered(AuxEntry(words[auxv + 2 * old(index)], words[auxv + 2 * old(index) + 1]))
    {
      var k := auxv + 2 * index;
      if words[k] == 0 {
        return IterDone;
      }
      var entry := Delivered(AuxEntry(words[k], words[k + 1]));
      index := index + 1;
      if index - 1 >= ERRONEOUS_AUXV_COUNT {
        return IterError;
      }
      return IterOk(entry);
    }

    /** Changes the value of the entry delivered last, and nothing else. */
    method SetValue(value: nat) returns (ok: bool)
      requires index > 0 ==> auxv + 2 * index - 1 < words.Length
      modifies words
      ensures ok == (index > 0)
      ensures words[..] == if ok then old(words[..])[auxv + 2 * index - 1 := value] else old(words[..])
    {
      if index == 0 {
        return false;
      }
      words[auxv + 2 * (index - 1) + 1] := value;
      return true;
    }
  }

  // ----- The context ----------------------------------------------------------------------------

  class ShivaCtx {
    const argv: seq<seq<byte>>
    const host: array<nat>
    const text: map<nat, seq<byte>>
    const target: Target
    var envp: nat
    var arglen: nat
    var envpcount: nat
    var envplen: nat
    var argstr: array<byte>
    var envstr: array<byte>
    var stack: array<byte>

    constructor (argv: seq<seq<byte>>, host: array<nat>, envp: nat, text: map<nat, seq<byte>>, target: Target)
      ensures this.argv == argv && this.host == host && this.envp == envp && this.text == text && this.target == target
      ensures fresh(argstr) && fresh(envstr) && fresh(stack)
    {
      this.argv, this.host, this.envp, this.text, this.target := argv, host, envp, text, target;
      arglen, envpcount, envplen := 0, 0, 0;
      argstr := new byte[0];
      envstr := new byte[0];
      stack := new byte[0];
    }

    /** A string and its terminator, byte by byte. */
    method CopyString(dst: array<byte>, off: nat, s: seq<byte>)
      requires off + |s| + 1 <= dst.Length
      modifies dst
      ensures dst[..] == Put(old(dst[..]), Patch(off, s + [0]))
    {
      var j := 0;
      while j < |s|
        invariant 0 <= j <= |s|
        invariant dst[..] == Put(old(dst[..]), Patch(off, s[..j]))
      {
        dst[off + j] := s[j];
        j := j + 1;
      }
      dst[off + j] := 0;
    }

    /** String i of a table, behind those before it. */
    method CopyNext(dst: array<byte>, off: nat, s: seq<byte>, ghost ss: seq<seq<byte>>, ghost i: nat)
      requires i < |ss| && s == ss[i] && off == |FlatUpTo(ss, i)| && dst.Length == |Flat(ss)|
      requires Holds(dst[..], Patch(0, FlatUpTo(ss, i)))
      modifies dst
      ensures Holds(dst[..], Patch(0, FlatUpTo(ss, i + 1))) && |FlatUpTo(ss, i + 1)| <= dst.Length
    {
      FlatPrefix(ss, i + 1, |ss|);
      HoldsNext(dst[..], FlatUpTo(ss, i), s + [0]);
      CopyString(dst, off, s);
    }

    /** Both string tables are laid end to end, and `envp` is left at its terminator. */
    method SaveStack()
      requires EnvWf(host[..], text, envp)
      modifies this`arglen, this`envpcount, this`envplen, this`argstr, this`envstr, this`envp
      ensures fresh(argstr) && argstr[..] == Flat(argv) && arglen == |Flat(argv)|
      ensures fresh(envstr) && envstr[..] == Flat(old(Envs(host[..], text, envp)))
      ensures envpcount == |old(Envs(host[..], text, envp))| && envplen == |Flat(old(Envs(host[..], text, envp)))|
      ensures envp == NullFrom(host[..], old(envp))
    {
      MeasureArguments();
      MeasureEnvironment();
      envstr := new byte[envplen];
      argstr := new byte[arglen];
      CopyArguments();
      CopyEnvironment();
    }

    method MeasureArguments()
      modifies this`arglen
      ensures arglen == |Flat(argv)|
    {
      var i, sz := 0, 0;
      while i < |argv|
        invariant i <= |argv| && sz == |FlatUpTo(argv, i)|
      {
        sz := sz + |argv[i]| + 1;
        i := i + 1;
      }
      arglen := sz;
    }

    method MeasureEnvironment()
      requires EnvWf(host[..], text, envp)
      modifies this`envpcount, this`envplen
      ensures envpcount == |Envs(host[..], text, envp)| && envplen == |Flat(Envs(host[..], text, envp))|
    {
      ghost var words, envs := host[..], Envs(host[..], text, envp);
      var envpp, i, sz := envp, 0, 0;
      while host[envpp] != 0
        invariant envp <= envpp <= NullFrom(words, envp) && i == envpp - envp
        invariant sz == |FlatUpTo(envs, i)|
        decreases NullFrom(words, envp) - envpp
      {
        assert envs[i] == text[host[envpp]];
        sz := sz + |text[host[envpp]]| + 1;
        envpp, i := envpp + 1, i + 1;
      }
      envpcount := i;
      envplen := sz;
    }

    method CopyArguments()
      requires argstr.Length == |Flat(argv)|
      modifies argstr
      ensures argstr[..] == Flat(argv)
    {
      var s, i := 0, 0;
      while i < |argv|
        invariant i <= |argv| && s == |FlatUpTo(argv, i)| <= argstr.Length
        invariant Holds(argstr[..], Patch(0, FlatUpTo(argv, i)))
      {
        CopyNext(argstr, s, argv[i], argv, i);
        s := s + |argv[i]| + 1;
        i := i + 1;
      }
    }

    method CopyEnvironment()
      requires EnvWf(host[..], text, envp) && envstr.Length == |Flat(Envs(host[..], text, envp))| && envstr != argstr
      modifies envstr, this`envp
      ensures envstr[..] == Flat(old(Envs(host[..], text, envp)))
      ensures envp == NullFrom(host[..], old(envp))
    {
      ghost var words, first, envs := host[..], envp, Envs(host[..], text, envp);
      var i := 0;
      while host[envp] != 0
        invariant first <= envp <= NullFrom(words, first)
        invariant i == |FlatUpTo(envs, envp - first)| <= envstr.Length
        invariant Holds(envstr[..], Patch(0, FlatUpTo(envs, envp - first)))
        decreases NullFrom(words, first) - envp
      {
        assert envs[envp - first] == text[host[envp]];
        CopyNext(envstr, i, text[host[envp]], envs, envp - first);
        i := i + |text[host[envp]]| + 1;
        envp := envp + 1;
      }
    }

    // ----- Rebuilding ---------------------------------------------------------------------------

    /** `*esp++ = v`. */
    method PushWord(esp: nat, v: nat, ghost start: nat, ghost words: seq<nat>, ghost top: nat, ghost data: seq<byte>)
      requires Laid(stack[..], start, words, top, data) && esp == start + 8 * |words| && esp + 8 <= top
      modifies stack
      ensures Laid(stack[..], start, words + [v], top, data)
    {
      LaidWord(stack[..], start, words, top, data, v);
      Store(stack, Patch(esp, Bytes8(v)));
    }

    /** The two loops that copy strings out of a table and push pointers to them. */
    method PushStrings(base: nat, table: array<byte>, n: nat, esp0: nat, strdata0: nat,
                       ghost ss: seq<seq<byte>>, ghost start: nat, ghost words: seq<nat>, ghost top: nat,
                         ghost data: seq<byte>)
      returns (esp: nat, strdata: nat)
      requires table != stack && table[..] == Flat(ss) && n == |ss| && NulFree(ss)
      requires Laid(stack[..], start, words, top, data) && esp0 == start + 8 * |words| && strdata0 == top + |data|
      requires esp0 + 8 * n <= top && strdata0 + |Flat(ss)| <= stack.Length
      modifies stack
      ensures esp == esp0 + 8 * n && strdata == strdata0 + |Flat(ss)|
      ensures Laid(stack[..], start, words + Pointers(base + strdata0, ss), top, data + Flat(ss))
    {
      esp, strdata := esp0, strdata0;
      var s, i := 0, 0;
      assert words + PointersUpTo(base + strdata0, ss, 0) == words && data + FlatUpTo(ss, 0) == data;
      while i < n
        invariant i <= n && esp == esp0 + 8 * i && s == |FlatUpTo(ss, i)| && strdata == strdata0 + s
        invariant table[..] == Flat(ss)
        invariant Laid(stack[..], start, words + PointersUpTo(base + strdata0, ss, i), top, data + FlatUpTo(ss, i))
      {
        var len := PushNext(base, table, s, esp, strdata, strdata0, ss, i, start, words, top, data);
        s := s + len;
        esp, strdata := esp + 8, strdata + len;
        i := i + 1;
      }
    }

    /** The body of those loops. */
    method PushNext(base: nat, table: array<byte>, s: nat, esp: nat, strdata: nat, ghost strdata0: nat,
                    ghost ss: seq<seq<byte>>, ghost i: nat, ghost start: nat, ghost words: seq<nat>, ghost top: nat,
                    ghost data: seq<byte>)
      returns (len: nat)
      requires table != stack && table[..] == Flat(ss) && NulFree(ss) && i < |ss| && s == |FlatUpTo(ss, i)|
      requires Laid(stack[..], start, words + PointersUpTo(base + strdata0, ss, i), top, data + FlatUpTo(ss, i))
      requires esp == start + 8 * (|words| + i) && strdata0 == top + |data| && strdata == strdata0 + s
      requires esp + 8 <= top && strdata0 + |Flat(ss)| <= stack.Length
      modifies stack
      ensures len == |ss[i]| + 1
      ensures Laid(stack[..], start, words + PointersUpTo(base + strdata0, ss, i + 1), top, data + FlatUpTo(ss, i + 1))
    {
      var str := StringFrom(table, s, ss, i);
      len := |str| + 1;
      PushAt(base, str, esp, strdata, strdata0, ss, i, start, words, top, data);
    }

    method PushAt(base: nat, str: seq<byte>, esp: nat, strdata: nat, ghost strdata0: nat, ghost ss: seq<seq<byte>>,
                  ghost i: nat, ghost start: nat, ghost words: seq<nat>, ghost top: nat, ghost data: seq<byte>)
      requires i < |ss| && str == ss[i] && strdata == strdata0 + |FlatUpTo(ss, i)| && strdata0 == top + |data|
      requires Laid(stack[..], start, words + PointersUpTo(base + strdata0, ss, i), top, data + FlatUpTo(ss, i))
      requires esp == start + 8 * (|words| + i) && esp + 8 <= top && strdata + |str| + 1 <= stack.Length
      modifies stack
      ensures Laid(stack[..], start, words + PointersUpTo(base + strdata0, ss, i + 1), top, data + FlatUpTo(ss, i + 1))
    {
      ghost var w, d := words + PointersUpTo(base + strdata0, ss, i), data + FlatUpTo(ss, i);
      PushString(base, str, esp, strdata, start, w, top, d);
      PointersNext(base + strdata0, ss, i, words, data, base + strdata);
    }

    /** The string that starts at s. */
    method StringFrom(table: array<byte>, s: nat, ghost ss: seq<seq<byte>>, ghost i: nat) returns (str: seq<byte>)
      requires table[..] == Flat(ss) && NulFree(ss) && i < |ss| && s == |FlatUpTo(ss, i)|
      ensures str == ss[i] && s + |str| + 1 <= |Flat(ss)|
    {
      FlatAt(ss, i);
      LaidStringAt(table[..], 0, 0, ss, i, s);
      assert table[s..] == table[..][s..];
      str := CString(table[s..]);
    }

    method PushString(base: nat, str: seq<byte>, esp: nat, strdata: nat, ghost start: nat, ghost words: seq<nat>,
                      ghost top: nat, ghost data: seq<byte>)
      requires Laid(stack[..], start, words, top, data) && esp == start + 8 * |words| && strdata == top + |data|
      requires esp + 8 <= top && strdata + |str| + 1 <= stack.Length
      modifies stack
      ensures Laid(stack[..], start, words + [base + strdata], top, data + (str + [0]))
    {
      LaidString(stack[..], start, words, top, data, str + [0]);
      Store(stack, Patch(strdata, str + [0]));
      PushWord(esp, base + strdata, start, words, top, data + (str + [0]));
    }

    /** The vector: the host's entries with five values replaced, and AT_NULL. */
    method PushVector(esp: nat, ghost es: seq<AuxEntry>, ghost start: nat, ghost words: seq<nat>, ghost top: nat,
                      ghost data: seq<byte>)
      requires envp <= host.Length && NullFrom(host[..], envp) < host.Length
      requires AuxEnds(host[..], NullFrom(host[..], envp) + 1) && es == ReadAux(host[..], NullFrom(host[..], envp) + 1)
      requires |es| <= ERRONEOUS_AUXV_COUNT
      requires Laid(stack[..], start, words, top, data) && esp == start + 8 * |words| && esp + 16 * |es| + 8 <= top
      modifies stack
      ensures Laid(stack[..], start, words + AuxWords(ReplacedAll(target, es)) + [0], top, data)
    {
      var iter := new AuxvIterator(host);
      var found := iter.Init(Some(envp), None);
      var auxv := PushEntries(iter, esp, es, start, words, top, data);
      PushWord(auxv, 0, start, words + AuxWords(ReplacedAll(target, es)), top, data);
    }

    /** The loop over the entries. */
    method PushEntries(iter: AuxvIterator, esp: nat, ghost es: seq<AuxEntry>, ghost start: nat, ghost words: seq<nat>,
                       ghost top: nat, ghost data: seq<byte>) returns (auxv: nat)
      requires iter.words == host && iter.index == 0 && |es| <= ERRONEOUS_AUXV_COUNT
      requires AuxEnds(host[..], iter.auxv) && es == ReadAux(host[..], iter.auxv)
      requires Laid(stack[..], start, words, top, data) && esp == start + 8 * |words| && esp + 16 * |es| + 8 <= top
      modifies stack, iter`index
      ensures auxv == esp + 16 * |es|
      ensures Laid(stack[..], start, words + AuxWords(ReplacedAll(target, es)), top, data)
    {
      ghost var list, k := ReplacedAll(target, es), 0;
      assert words + AuxUpTo(list, 0) == words;
      auxv := esp;
      var r := NextEntry(iter, es, k);
      while r.IterOk?
        invariant k <= |es| && auxv == esp + 16 * k
        invariant if r.IterOk? then k < |es| && iter.index == k + 1 && r.entry == Delivered(es[k]) else k == |es|
        invariant Laid(stack[..], start, words + AuxUpTo(list, k), top, data)
        decreases |es| - k, r.IterOk?
      {
        PushEntry(auxv, r.entry, es, k, start, words, top, data);
        auxv, k := auxv + 16, k + 1;
        r := NextEntry(iter, es, k);
      }
    }

    /** Entry k of the vector es, or its end. */
    method NextEntry(iter: AuxvIterator, ghost es: seq<AuxEntry>, ghost k: nat) returns (r: IterResult)
      requires AuxEnds(iter.words[..], iter.auxv) && es == ReadAux(iter.words[..], iter.auxv)
      requires iter.index == k <= |es| <= ERRONEOUS_AUXV_COUNT
      modifies iter`index
      ensures if k < |es| then r == IterOk(Delivered(es[k])) && iter.index == k + 1 else r == IterDone
    {
      ReadAuxAt(iter.words[..], iter.auxv, k);
      r := iter.Next();
    }

    /** One entry, with its value replaced where it has to be. */
    method PushEntry(auxv: nat, entry: AuxEntry, ghost es: seq<AuxEntry>, ghost k: nat,
                     ghost start: nat, ghost words: seq<nat>, ghost top: nat, ghost data: seq<byte>)
      requires k < |es| && entry == Delivered(es[k])
      requires Laid(stack[..], start, words + AuxUpTo(ReplacedAll(target, es), k), top, data)
      requires auxv == start + 8 * |words| + 16 * k && auxv + 16 <= top
      modifies stack
      ensures Laid(stack[..], start, words + AuxUpTo(ReplacedAll(target, es), k + 1), top, data)
    {
      var e := Replaced(target, entry);
      VectorNext(ReplacedAll(target, es), k, words);
      PushWord(auxv, e.ty, start, words + AuxUpTo(ReplacedAll(target, es), k), top, data);
      PushWord(auxv + 8, e.value, start, words + AuxUpTo(ReplacedAll(target, es), k) + [e.ty], top, data);
    }

    method BuildAuxvStack(base: nat, ghost envs: seq<seq<byte>>, ghost es: seq<AuxEntry>) returns (rsp: nat)
      requires base % 4096 == 0 && base + STACK_SIZE <= WORD
      requires NulFree(argv) && argstr[..] == Flat(argv) && arglen == |Flat(argv)|
      requires NulFree(envs) && envstr[..] == Flat(envs) && envplen == |Flat(envs)| && envpcount == |envs|
      requires Fits(argv, envs) && VectorWf(host[..], envp, es) && TargetWf(target)
      requires VectorRoom(|argv| + |envs|, |es|)
      modifies this`stack
      ensures fresh(stack) && rsp == base + StartOf(argv, envs) && rsp % 16 == 0
      ensures Built(stack[..], base, StartOf(argv, envs), TopOf(argv, envs), argv, envs, ReplacedAll(target, es))
    {
      var count := Count(|argv| + envpcount);
      var totalsize := Total(|argv| + envpcount, arglen + envplen);
      AlignedBelow(base, totalsize);
      Room(argv, envs, |es|);
      var start := STACK_SIZE - totalsize;
      var top := start + count;
      assert start == StartOf(argv, envs) && top == TopOf(argv, envs);
      Fill(base, start, top, envs, es);
      rsp := base + start;
    }

    /** The allocation and everything after it. */
    method Fill(base: nat, start: nat, top: nat, ghost envs: seq<seq<byte>>, ghost es: seq<AuxEntry>)
      requires NulFree(argv) && argstr[..] == Flat(argv)
      requires NulFree(envs) && envstr[..] == Flat(envs) && envpcount == |envs|
      requires VectorWf(host[..], envp, es) && TargetWf(target) && base + STACK_SIZE <= WORD
      requires |es| <= ERRONEOUS_AUXV_COUNT
      requires start + 8 * (4 + |argv| + |envs|) + 16 * |es| <= top && top + |Flat(argv)| + |Flat(envs)| <= STACK_SIZE
      modifies this`stack
      ensures fresh(stack)
      ensures Built(stack[..], base, start, top, argv, envs, ReplacedAll(target, es))
    {
      ReplacedWf(target, es);
      stack := new byte[STACK_SIZE];
      var esp := PushPointers(base, start, top, envs);
      PushVector(esp, es, start, PointerWords(base + top, argv, envs), top, Flat(argv + envs));
    }

    /** argc, argv and envp. */
    method PushPointers(base: nat, start: nat, top: nat, ghost envs: seq<seq<byte>>) returns (esp: nat)
      requires NulFree(argv) && argstr[..] == Flat(argv) && argstr != stack
      requires NulFree(envs) && envstr[..] == Flat(envs) && envstr != stack && envpcount == |envs|
      requires start + 8 * (3 + |argv| + |envs|) <= top && top + |Flat(argv)| + |Flat(envs)| <= stack.Length
      modifies stack
      ensures esp == start + 8 * (3 + |argv| + |envs|)
      ensures Laid(stack[..], start, PointerWords(base + top, argv, envs), top, Flat(argv + envs))
    {
      var strdata;
      esp, strdata := PushArguments(base, start, top);
      esp, strdata := PushTable(base, envstr, envpcount, esp, strdata, envs,
                                start, [|argv|] + Pointers(base + top, argv) + [0], top, Flat(argv));
      FlatRight(argv, envs, |envs|);
    }

    /** argc and argv. */
    method PushArguments(base: nat, start: nat, top: nat) returns (esp: nat, strdata: nat)
      requires NulFree(argv) && argstr[..] == Flat(argv) && argstr != stack
      requires start + 8 * (2 + |argv|) <= top && top + |Flat(argv)| <= stack.Length
      modifies stack
      ensures esp == start + 8 * (2 + |argv|) && strdata == top + |Flat(argv)|
      ensures Laid(stack[..], start, [|argv|] + Pointers(base + top, argv) + [0], top, Flat(argv))
    {
      assert Laid(stack[..], start, [], top, []) && [] + [|argv|] == [|argv|];
      PushWord(start, |argv|, start, [], top, []);
      esp, strdata := PushTable(base, argstr, |argv|, start + 8, top, argv, start, [|argv|], top, []);
      assert [] + Flat(argv) == Flat(argv);
    }

    /** Strings, their pointers and a NULL. */
    method PushTable(base: nat, table: array<byte>, n: nat, esp0: nat, strdata0: nat,
                     ghost ss: seq<seq<byte>>, ghost start: nat, ghost words: seq<nat>, ghost top: nat,
                       ghost data: seq<byte>)
      returns (esp: nat, strdata: nat)
      requires table != stack && table[..] == Flat(ss) && n == |ss| && NulFree(ss)
      requires Laid(stack[..], start, words, top, data) && esp0 == start + 8 * |words| && strdata0 == top + |data|
      requires esp0 + 8 * n + 8 <= top && strdata0 + |Flat(ss)| <= stack.Length
      modifies stack
      ensures esp == esp0 + 8 * n + 8 && strdata == strdata0 + |Flat(ss)|
      ensures Laid(stack[..], start, words + Pointers(base + strdata0, ss) + [0], top, data + Flat(ss))
    {
      esp, strdata := PushStrings(base, table, n, esp0, strdata0, ss, start, words, top, data);
      PushWord(esp, 0, start, words + Pointers(base + strdata0, ss), top, data + Flat(ss));
      esp := esp + 8;
    }

    /** shiva_ulexec_save_stack and shiva_ulexec_build_auxv_stack: for every argument list, environment
        and host vector that fit, the new stack is laid out as a process expects. */
    method PrepareStack(base: nat, ghost envs: seq<seq<byte>>, ghost es: seq<AuxEntry>) returns (rsp: nat)
      requires base % 4096 == 0 && base + STACK_SIZE <= WORD && NulFree(argv)
      requires EnvWf(host[..], text, envp) && envs == Envs(host[..], text, envp)
      requires VectorWf(host[..], envp, es) && TargetWf(target) && Fits(argv, envs)
      requires VectorRoom(|argv| + |envs|, |es|)
      modifies this
      ensures rsp == base + StartOf(argv, envs) && rsp % 16 == 0
      ensures Built(stack[..], base, StartOf(argv, envs), TopOf(argv, envs), argv, envs, ReplacedAll(target, es))
      ensures Carries(AuxFrom(stack[..], base, rsp + 24 + 8 * |argv| + 8 * |envs|), es, target)
    {
      NullFromAgain(host[..], envp, NullFrom(host[..], envp));
      SaveStack();
      rsp := BuildAuxvStack(base, envs, es);
      FindsHostVector(stack[..], base, StartOf(argv, envs), TopOf(argv, envs), argv, envs, target, es,
                      rsp + 24 + 8 * |argv| + 8 * |envs|);
    }
  }

  lemma Room(args: seq<seq<byte>>, envs: seq<seq<byte>>, m: nat)
    requires Fits(args, envs) && VectorRoom(|args| + |envs|, m)
    ensures m <= ERRONEOUS_AUXV_COUNT
    ensures StartOf(args, envs) + 8 * (4 + |args| + |envs|) + 16 * m <= TopOf(args, envs)
    ensures TopOf(args, envs) + |Flat(args)| + |Flat(envs)| <= STACK_SIZE
  {
    VectorRoomExact(|args| + |envs|, m);
  }

  lemma AlignedBelow(base: nat, totalsize: nat)
    requires base % 4096 == 0 && totalsize % 16 == 0
    ensures (base + STACK_SIZE - totalsize) % 16 == 0
  {
    var a, b := base / 4096, totalsize / 16;
    assert base + STACK_SIZE - totalsize == 16 * (256 * a + 256000 - b);
  }

  /** The host's vector: terminated, and no type that turns into AT_NULL in an int. */
  ghost predicate VectorWf(words: seq<nat>, envp: nat, es: seq<AuxEntry>) {
    && envp <= |words| && NullFrom(words, envp) < |words|
    && AuxEnds(words, NullFrom(words, envp) + 1) && es == ReadAux(words, NullFrom(words, envp) + 1)
    && forall k :: 0 <= k < |es| ==> es[k].ty < WORD && AsInt(es[k].ty) != 0 && es[k].value < WORD
  }

  ghost predicate TargetWf(t: Target) {
    t.phdrVaddr < WORD && t.phnum < WORD && t.ldsoBase < WORD && t.entryPoint < WORD && t.path < WORD
  }

  lemma ReplacedWf(t: Target, es: seq<AuxEntry>)
    requires TargetWf(t)
    requires forall k :: 0 <= k < |es| ==> es[k].ty < WORD && AsInt(es[k].ty) != 0 && es[k].value < WORD
    ensures forall k :: 0 <= k < |es| ==> 0 < ReplacedAll(t, es)[k].ty < WORD && ReplacedAll(t, es)[k].value < WORD
  {
    forall k | 0 <= k < |es|
      ensures 0 < ReplacedAll(t, es)[k].ty < WORD && ReplacedAll(t, es)[k].value < WORD
    {
      AsIntExact(es[k].ty);
    }
  }

  lemma VectorNext(es: seq<AuxEntry>, k: nat, words: seq<nat>)
    requires k < |es|
    ensures words + AuxUpTo(es, k + 1) == words + AuxUpTo(es, k) + [es[k].ty] + [es[k].value]
  {
  }

  /** One more string, and a pointer to it. */
  lemma PointersNext(addr: nat, ss: seq<seq<byte>>, i: nat, words: seq<nat>, data: seq<byte>, here: nat)
    requires i < |ss| && here == addr + |FlatUpTo(ss, i)|
    ensures words + PointersUpTo(addr, ss, i + 1) == (words + PointersUpTo(addr, ss, i)) + [here]
    ensures data + FlatUpTo(ss, i + 1) == (data + FlatUpTo(ss, i)) + (ss[i] + [0])
  {
  }

  lemma HoldsNext(mem: seq<byte>, a: seq<byte>, b: seq<byte>)
    requires Holds(mem, Patch(0, a)) && |a| + |b| <= |mem|
    ensures Holds(Put(mem, Patch(|a|, b)), Patch(0, a + b))
  {
    HoldsKept(mem, Patch(0, a), Patch(|a|, b));
    PutHolds(mem, Patch(|a|, b));
    HoldsAppend(Put(mem, Patch(|a|, b)), 0, a, b);
  }
}
