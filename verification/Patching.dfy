/** Stores of byte strings into a memory image. */
module Patching {
  import opened Bytes
  import opened Modular

  datatype Patch = Patch(off: nat, bytes: seq<byte>)

  predicate Inside(p: Patch, n: nat) { p.off + |p.bytes| <= n }

  predicate Covers(p: Patch, i: int) { p.off <= i < p.off + |p.bytes| }

  predicate Apart(p: Patch, q: Patch) {
    p.off + |p.bytes| <= q.off || q.off + |q.bytes| <= p.off
  }

  /** The image after one store. */
  function Put(image: seq<byte>, p: Patch): (r: seq<byte>)
    requires Inside(p, |image|)
    ensures |r| == |image|
    ensures forall i :: 0 <= i < |r| ==> r[i] == if Covers(p, i) then p.bytes[i - p.off] else image[i]
  {
    image[..p.off] + p.bytes + image[p.off + |p.bytes|..]
  }

  // ----- What an image holds -----------------------------------------------------------

  /** The image holds what the store put there. */
  ghost predicate Holds(image: seq<byte>, p: Patch) {
    Inside(p, |image|) && image[p.off..p.off + |p.bytes|] == p.bytes
  }

  lemma PutHolds(image: seq<byte>, p: Patch)
    requires Inside(p, |image|)
    ensures Holds(Put(image, p), p)
  {
  }

  lemma HoldsKept(image: seq<byte>, p: Patch, q: Patch)
    requires Holds(image, p) && Inside(q, |image|) && Apart(p, q)
    ensures Holds(Put(image, q), p)
  {
    var n := p.off + |p.bytes|;
    assert Put(image, q)[p.off..n] == image[p.off..n];
  }

  lemma HoldsAppend(image: seq<byte>, off: nat, a: seq<byte>, b: seq<byte>)
    requires Holds(image, Patch(off, a)) && Holds(image, Patch(off + |a|, b))
    ensures Holds(image, Patch(off, a + b))
  {
    var n, m := off + |a|, off + |a| + |b|;
    assert image[off..m] == image[off..n] + image[n..m];
  }

  lemma HoldsPrefix(image: seq<byte>, off: nat, a: seq<byte>, n: nat)
    requires Holds(image, Patch(off, a)) && n <= |a|
    ensures Holds(image, Patch(off, a[..n]))
  {
    assert image[off..off + |a|][..n] == image[off..off + n];
  }

  lemma HeldByte(image: seq<byte>, p: Patch, i: nat)
    requires Holds(image, p) && Covers(p, i)
    ensures image[i] == p.bytes[i - p.off]
  {
    assert image[i] == image[p.off..p.off + |p.bytes|][i - p.off];
  }

  // ----- Passes: stores made one step at a time, until one fails ---------------------

  datatype Step = Skip | Fails | Writes(p: Patch)

  /** Every step that stores, stores inside an image of n bytes. */
  ghost predicate StepsInside(steps: seq<Step>, n: nat) {
    forall k :: 0 <= k < |steps| && steps[k].Writes? ==> Inside(steps[k].p, n)
  }

  /** No two steps store to one place. */
  ghost predicate StepsApart(steps: seq<Step>) {
    && (forall k :: 0 <= k < |steps| && steps[k].Writes? ==> steps[k].p.bytes != [])
    && (forall j, k :: 0 <= j < k < |steps| && steps[j].Writes? && steps[k].Writes? ==> Apart(steps[j].p, steps[k].p))
  }

  predicate Succeeds(steps: seq<Step>) {
    forall k :: 0 <= k < |steps| ==> !steps[k].Fails?
  }

  /** The image after the stores of the first n steps. */
  ghost function Stored(image: seq<byte>, steps: seq<Step>, n: nat): (r: seq<byte>)
    requires StepsInside(steps, |image|) && n <= |steps|
    ensures |r| == |image|
  {
    if n == 0 then image
    else if steps[n - 1].Writes? then Put(Stored(image, steps, n - 1), steps[n - 1].p)
    else Stored(image, steps, n - 1)
  }

  /** How many of the first n steps are taken before one fails. */
  function Taken(steps: seq<Step>, n: nat): (r: nat)
    requires n <= |steps|
    ensures r <= n
  {
    if n == 0 then 0
    else
      var k := Taken(steps, n - 1);
      if k < n - 1 || steps[n - 1].Fails? then k else n
  }

  /** The image after the whole pass. */
  ghost function After(image: seq<byte>, steps: seq<Step>): (r: seq<byte>)
    requires StepsInside(steps, |image|)
    ensures |r| == |image|
  {
    Stored(image, steps, Taken(steps, |steps|))
  }

  /** A pass that succeeds takes every step. */
  lemma {:induction false} TakenAll(steps: seq<Step>, n: nat)
    requires n <= |steps| && forall k :: 0 <= k < n ==> !steps[k].Fails?
    ensures Taken(steps, n) == n
  {
    if n > 0 { TakenAll(steps, n - 1); }
  }

  /** A pass stops at the first step that fails. */
  lemma {:induction false} TakenUpTo(steps: seq<Step>, i: nat, n: nat)
    requires i < n <= |steps| && (forall k :: 0 <= k < i ==> !steps[k].Fails?) && steps[i].Fails?
    ensures Taken(steps, n) == i
  {
    if n == i + 1 { TakenAll(steps, i); } else { TakenUpTo(steps, i, n - 1); }
  }

  lemma AfterSuccess(image: seq<byte>, steps: seq<Step>)
    requires StepsInside(steps, |image|) && Succeeds(steps)
    ensures After(image, steps) == Stored(image, steps, |steps|)
  {
    TakenAll(steps, |steps|);
  }

  lemma AfterFailure(image: seq<byte>, steps: seq<Step>, i: nat)
    requires StepsInside(steps, |image|) && i < |steps| && (forall k :: 0 <= k < i ==> !steps[k].Fails?) &&
             steps[i].Fails?
    ensures After(image, steps) == Stored(image, steps, i)
  {
    TakenUpTo(steps, i, |steps|);
  }

  /** What step k stored is there after n steps, if no later one stores over it. */
  lemma {:induction false} StepHolds(image: seq<byte>, steps: seq<Step>, n: nat, k: nat)
    requires StepsInside(steps, |image|) && k < n <= |steps| && steps[k].Writes?
    requires forall j :: k < j < n && steps[j].Writes? ==> Apart(steps[k].p, steps[j].p)
    ensures Holds(Stored(image, steps, n), steps[k].p)
  {
    var before := Stored(image, steps, n - 1);
    if k == n - 1 {
      PutHolds(before, steps[k].p);
    } else {
      StepHolds(image, steps, n - 1, k);
      if steps[n - 1].Writes? {
        HoldsKept(before, steps[k].p, steps[n - 1].p);
      }
    }
  }

  /** What the image holds in a place that no step stores to stays there. */
  lemma {:induction false} HoldsThrough(image: seq<byte>, steps: seq<Step>, n: nat, p: Patch)
    requires StepsInside(steps, |image|) && Holds(image, p) && n <= |steps|
    requires forall k :: 0 <= k < n && steps[k].Writes? ==> Apart(p, steps[k].p)
    ensures Holds(Stored(image, steps, n), p)
  {
    if n > 0 {
      HoldsThrough(image, steps, n - 1, p);
      if steps[n - 1].Writes? {
        HoldsKept(Stored(image, steps, n - 1), p, steps[n - 1].p);
      }
    }
  }

  // ----- The order of steps that store to different places ------------------------------

  /** A byte's value is decided by whichever step covers it. */
  lemma CoveredByte(image: seq<byte>, steps: seq<Step>, k: nat, i: nat)
    requires StepsInside(steps, |image|) && StepsApart(steps) && Succeeds(steps)
    requires k < |steps| && steps[k].Writes? && Covers(steps[k].p, i)
    ensures After(image, steps)[i] == steps[k].p.bytes[i - steps[k].p.off]
  {
    AfterSuccess(image, steps);
    StepHolds(image, steps, |steps|, k);
    HeldByte(After(image, steps), steps[k].p, i);
  }

  lemma UncoveredByte(image: seq<byte>, steps: seq<Step>, i: nat)
    requires StepsInside(steps, |image|) && Succeeds(steps) && i < |image|
    requires forall k :: 0 <= k < |steps| && steps[k].Writes? ==> !Covers(steps[k].p, i)
    ensures After(image, steps)[i] == image[i]
  {
    AfterSuccess(image, steps);
    UntouchedByte(image, steps, |steps|, i);
  }

  lemma {:induction false} UntouchedByte(image: seq<byte>, steps: seq<Step>, n: nat, i: nat)
    requires StepsInside(steps, |image|) && n <= |steps| && i < |image|
    requires forall k :: 0 <= k < n && steps[k].Writes? ==> !Covers(steps[k].p, i)
    ensures Stored(image, steps, n)[i] == image[i]
  {
    if n > 0 { UntouchedByte(image, steps, n - 1, i); }
  }

  lemma {:induction false} TwoOccurrences<T>(s: seq<T>, x: T)
    requires multiset(s)[x] >= 2
    ensures exists i, j :: 0 <= i < j < |s| && s[i] == x && s[j] == x
  {
    var front, last := s[..|s| - 1], s[|s| - 1];
    assert s == front + [last];
    if last == x {
      assert x in multiset(front);
      var i :| 0 <= i < |front| && front[i] == x;
      assert s[i] == x && s[|front|] == x;
    } else {
      TwoOccurrences(front, x);
      var i, j :| 0 <= i < j < |front| && front[i] == x && front[j] == x;
      assert s[i] == x && s[j] == x;
    }
  }

  lemma SameMembers(steps: seq<Step>, order: seq<Step>)
    requires multiset(steps) == multiset(order)
    ensures forall k :: 0 <= k < |order| ==> order[k] in steps
    ensures forall k :: 0 <= k < |steps| ==> steps[k] in order
  {
    forall k | 0 <= k < |order|
      ensures order[k] in steps
    {
      assert order[k] in multiset(order);
    }
    forall k | 0 <= k < |steps|
      ensures steps[k] in order
    {
      assert steps[k] in multiset(steps);
    }
  }

  /** Steps that store to different places may be taken in any order. */
  lemma AnyOrder(image: seq<byte>, steps: seq<Step>, order: seq<Step>)
    requires StepsApart(steps) && StepsInside(steps, |image|) && Succeeds(steps)
    requires multiset(steps) == multiset(order)
    ensures Succeeds(order) && StepsInside(order, |image|)
    ensures After(image, order) == After(image, steps)
  {
    SameMembers(steps, order);
    AnyOrderApart(steps, order);
    forall i | 0 <= i < |image|
      ensures After(image, order)[i] == After(image, steps)[i]
    {
      AnyOrderByte(image, steps, order, i);
    }
  }

  lemma AnyOrderByte(image: seq<byte>, steps: seq<Step>, order: seq<Step>, i: nat)
    requires StepsApart(steps) && StepsInside(steps, |image|) && Succeeds(steps) && i < |image|
    requires StepsApart(order) && StepsInside(order, |image|) && Succeeds(order)
    requires forall k :: 0 <= k < |order| ==> order[k] in steps
    requires forall k :: 0 <= k < |steps| ==> steps[k] in order
    ensures After(image, order)[i] == After(image, steps)[i]
  {
    if k :| 0 <= k < |steps| && steps[k].Writes? && Covers(steps[k].p, i) {
      var j :| 0 <= j < |order| && order[j] == steps[k];
      CoveredByte(image, steps, k, i);
      CoveredByte(image, order, j, i);
    } else {
      forall j | 0 <= j < |order| && order[j].Writes?
        ensures !Covers(order[j].p, i)
      {
        var k :| 0 <= k < |steps| && steps[k] == order[j];
      }
      UncoveredByte(image, steps, i);
      UncoveredByte(image, order, i);
    }
  }

  lemma AnyOrderApart(steps: seq<Step>, order: seq<Step>)
    requires StepsApart(steps) && multiset(steps) == multiset(order)
    ensures StepsApart(order)
  {
    SameMembers(steps, order);
    forall j, k | 0 <= j < k < |order| && order[j].Writes? && order[k].Writes?
      ensures Apart(order[j].p, order[k].p)
    {
      if order[j] == order[k] {
        assert order == order[..k] + [order[k]] + order[k + 1..];
        assert order[..k][j] == order[k];
        TwoOccurrences(steps, order[k]);
      } else {
        var a :| 0 <= a < |steps| && steps[a] == order[j];
        var b :| 0 <= b < |steps| && steps[b] == order[k];
      }
    }
  }

  // ----- Little-endian words ---------------------------------------------------------

  /** The low n bytes of a number, least significant first. */
  function Little(v: nat, n: nat): (r: seq<byte>)
    ensures |r| == n
    decreases v, n
  {
    if n == 0 then [] else [v % 256] + Little(v / 256, n - 1)
  }

  /** The number that bytes stand for. */
  function Value(s: seq<byte>): nat
    decreases s
  {
    if s == [] then 0 else (var b: nat := s[0]; b) + 256 * Value(s[1..])
  }

  /** Storing and loading a number of n bytes. */
  lemma {:induction false} ValueLittle(v: nat, n: nat)
    requires v < Pow256(n)
    ensures Value(Little(v, n)) == v
    decreases n
  {
    if n > 0 {
      ValueLittle(v / 256, n - 1);
      assert Little(v, n)[1..] == Little(v / 256, n - 1);
    }
  }

  /** Byte k of a number has weight 256^k, when it is stored */
  lemma {:induction false} LittleAt(v: nat, n: nat, k: nat)
    requires k < n
    ensures Little(v, n)[k] == v / Pow256(k) % 256
    decreases n
  {
    if k > 0 {
      LittleAt(v / 256, n - 1, k - 1);
      DivDiv(v, Pow256(k - 1));
    }
  }

  /** and when it is loaded. */
  lemma {:induction false} ValueAt(s: seq<byte>, k: nat)
    requires k < |s|
    ensures Value(s) / Pow256(k) % 256 == s[k]
    decreases k
  {
    if k > 0 {
      ValueAt(s[1..], k - 1);
      DivDiv(Value(s), Pow256(k - 1));
    }
  }

  lemma DivDiv(v: nat, p: nat)
    requires p >= 1
    ensures v / (256 * p) == v / 256 / p
  {
    var a, b := v / 256, v % 256;
    var q, r := a / p, a % p;
    assert v == 256 * (p * q + r) + b;
    assert 256 * (p * q + r) + b == (256 * p) * q + (256 * r + b);
    QuotientIs(v, 256 * p, q, 256 * r + b);
  }

  lemma QuotientIs(v: nat, m: nat, q: nat, r: nat)
    requires m >= 1 && r < m && v == m * q + r
    ensures v / m == q
  {
    var d := v / m - q;
    assert m * (v / m) + v % m == v;
    assert m * d == r - v % m by { assert m * d == m * (v / m) - m * q; }
    SmallMultiple(m, d);
  }

  function Bytes4(v: nat): (r: seq<byte>)
    ensures |r| == 4
  {
    Little(v, 4)
  }

  function Bytes8(v: nat): (r: seq<byte>)
    ensures |r| == 8
  {
    Little(v, 8)
  }

  function Word4(s: seq<byte>): (r: nat)
    requires |s| == 4
  {
    Value(s)
  }

  function Word8(s: seq<byte>): (r: nat)
    requires |s| == 8
  {
    Value(s)
  }

  lemma Limits()
    ensures Pow256(4) == 0x1_0000_0000 && Pow256(8) == 0x1_0000_0000_0000_0000
  {
    assert Pow256(4) == 256 * Pow256(3) == 256 * (256 * Pow256(2));
    assert Pow256(8) == 256 * Pow256(7) == 256 * (256 * Pow256(6));
    assert Pow256(6) == 256 * Pow256(5) == 256 * (256 * Pow256(4));
  }

  lemma Word4Bytes4(v: nat)
    requires v < 0x1_0000_0000
    ensures Word4(Bytes4(v)) == v
  {
    Limits();
    ValueLittle(v, 4);
  }

  lemma Word8Bytes8(v: nat)
    requires v < 0x1_0000_0000_0000_0000
    ensures Word8(Bytes8(v)) == v
  {
    Limits();
    ValueLittle(v, 8);
  }

  /** A store into an array. */
  method Store(mem: array<byte>, p: Patch)
    requires Inside(p, mem.Length)
    modifies mem
    ensures mem[..] == Put(old(mem[..]), p)
  {
    forall i | 0 <= i < |p.bytes| {
      mem[p.off + i] := p.bytes[i];
    }
  }
}
