/**
 * The register array of HyperLogLog.java as a value: what `add` and `merge`
 * do to it, and the laws that make the estimator mergeable.
 *
 * A register array is a `seq<int>` of 16384 entries; each entry is the Java
 * byte stored in that register (always a rank in [0, 51]).
 *
 * Most laws come twice: over `Sample`s (`Fill`, `FillIsMaxRank`,
 * `SlotsOf`, ...) and over hashes (`Build`, `BuildIsMaxRank`, `Slots`, ...).
 * The inductive proofs are done on samples, which keeps the bit-vector
 * reasoning of `Slot` and `Rank` out of them; each hash-level law is then
 * derived from its sample-level twin through `Observations`.
 */
module Registers {
  import opened HashSplit

  function Max(a: int, b: int): (m: int)
    ensures m >= a && m >= b && (m == a || m == b)
  {
    if a < b then b else a
  }

  /** 16384 registers, each holding 0 or a rank. */
  predicate Wf(r: seq<int>)
  {
    |r| == RegisterCount && forall i :: 0 <= i < |r| ==> 0 <= r[i] <= MaxRank
  }

  /** The registers of a new estimator, `new byte[16384]`. */
  function Empty(): (r: seq<int>)
    ensures Wf(r)
    ensures forall i :: 0 <= i < |r| ==> r[i] == 0
  {
    seq(RegisterCount, _ => 0)
  }

  /**
   * The register update of `add`: register `i` is raised to `rank` when
   * `rank` is larger, and nothing else changes.
   */
  function Insert(r: seq<int>, i: nat, rank: nat): (r': seq<int>)
    requires |r| == RegisterCount && i < RegisterCount && 1 <= rank <= MaxRank
    ensures |r'| == RegisterCount
    ensures r'[i] == Max(r[i], rank)
    ensures forall j :: 0 <= j < |r| && j != i ==> r'[j] == r[j]
    ensures forall j :: 0 <= j < |r| ==> r[j] <= r'[j]
    ensures Wf(r) ==> Wf(r')
  {
    if rank > r[i] then r[i := rank] else r
  }

  /** What `add` takes from one hash: the register it selects and the rank it offers. */
  datatype Sample = Sample(slot: nat, rank: nat)

  predicate Fits(s: Sample)
  {
    s.slot < RegisterCount && 1 <= s.rank <= MaxRank
  }

  function Observe(h: Hash): (s: Sample)
    ensures Fits(s)
  {
    Sample(Slot(h), Rank(h))
  }

  /** `add` of the hash `h`: its rank goes to the register its index selects. */
  function Add(r: seq<int>, h: Hash): (r': seq<int>)
    requires |r| == RegisterCount
    ensures |r'| == RegisterCount
    ensures r'[Slot(h)] == Max(r[Slot(h)], Rank(h))
    ensures forall j :: 0 <= j < |r| && j != Slot(h) ==> r'[j] == r[j]
    ensures Wf(r) ==> Wf(r')
  {
    Insert(r, Observe(h).slot, Observe(h).rank)
  }

  /** `merge` on the registers: the register-wise maximum. */
  function Merge(a: seq<int>, b: seq<int>): (r: seq<int>)
    requires |a| == RegisterCount && |b| == RegisterCount
    ensures |r| == RegisterCount
    ensures forall i :: 0 <= i < RegisterCount ==> r[i] == Max(a[i], b[i])
    ensures Wf(a) && Wf(b) ==> Wf(r)
  {
    seq(RegisterCount, i requires 0 <= i < RegisterCount => Max(a[i], b[i]))
  }

  /** The registers of a new estimator after the updates of `ss`, in order. */
  function Fill(ss: seq<Sample>): (r: seq<int>)
    requires forall s :: s in ss ==> Fits(s)
    ensures Wf(r)
  {
    if ss == [] then Empty()
    else
      var last := ss[|ss| - 1];
      assert last in ss && Fits(last);
      Insert(Fill(ss[..|ss| - 1]), last.slot, last.rank)
  }

  /** The samples of a sequence of hashes, one per hash. */
  function Observations(hs: seq<Hash>): (ss: seq<Sample>)
    ensures |ss| == |hs|
    ensures forall k :: 0 <= k < |hs| ==> ss[k] == Observe(hs[k])
    ensures forall s :: s in ss ==> Fits(s)
  {
    seq(|hs|, k requires 0 <= k < |hs| => Observe(hs[k]))
  }

  /** The registers of a new estimator after `add` of each hash of `hs`, in order. */
  function Build(hs: seq<Hash>): (r: seq<int>)
    ensures Wf(r)
  {
    Fill(Observations(hs))
  }

  /** One more `add` extends the history by one hash. */
  lemma BuildStep(hs: seq<Hash>, h: Hash)
    ensures Build(hs + [h]) == Add(Build(hs), h)
  {
    var ss := Observations(hs + [h]);
    assert ss[..|ss| - 1] == Observations(hs);
  }

  // ---- add

  /** Repeating an update changes nothing; so adding the same hash twice is adding it once. */
  lemma InsertIdempotent(r: seq<int>, i: nat, rank: nat)
    requires |r| == RegisterCount && i < RegisterCount && 1 <= rank <= MaxRank
    ensures Insert(Insert(r, i, rank), i, rank) == Insert(r, i, rank)
  {
  }

  /** Two updates give the same registers in either order; so do two adds. */
  lemma InsertCommutes(r: seq<int>, i: nat, rank: nat, j: nat, rank': nat)
    requires |r| == RegisterCount && i < RegisterCount && 1 <= rank <= MaxRank
    requires j < RegisterCount && 1 <= rank' <= MaxRank
    ensures Insert(Insert(r, i, rank), j, rank') == Insert(Insert(r, j, rank'), i, rank)
  {
  }

  /**
   * Each register of `Fill(ss)` is the largest rank among the samples that
   * select it, and 0 exactly when no sample selects it.
   */
  lemma {:induction false} FillIsMaxRank(ss: seq<Sample>, i: nat)
    requires forall s :: s in ss ==> Fits(s)
    requires i < RegisterCount
    ensures forall s :: s in ss && s.slot == i ==> s.rank <= Fill(ss)[i]
    ensures Fill(ss)[i] == 0 <==> forall s :: s in ss ==> s.slot != i
    ensures Fill(ss)[i] != 0 ==> Sample(i, Fill(ss)[i]) in ss
  {
    if ss != [] {
      var init, last := ss[..|ss| - 1], ss[|ss| - 1];
      assert ss == init + [last];
      FillIsMaxRank(init, i);
    }
  }

  /** The registers depend only on the set of samples, not on order or repetition. */
  lemma FillOrderIndependent(a: seq<Sample>, b: seq<Sample>)
    requires forall s :: s in a ==> Fits(s)
    requires forall s :: s in a <==> s in b
    ensures Fill(a) == Fill(b)
  {
    forall i | 0 <= i < RegisterCount
      ensures Fill(a)[i] == Fill(b)[i]
    {
      FillIsMaxRank(a, i);
      FillIsMaxRank(b, i);
    }
  }

  /**
   * Each register of `Build(hs)` is the largest rank among the hashes of `hs`
   * whose index selects it, and 0 exactly when no hash of `hs` selects it.
   */
  lemma BuildIsMaxRank(hs: seq<Hash>, i: nat)
    requires i < RegisterCount
    ensures forall h :: h in hs && Observe(h).slot == i ==> Observe(h).rank <= Build(hs)[i]
    ensures Build(hs)[i] == 0 <==> forall h :: h in hs ==> Observe(h).slot != i
    ensures Build(hs)[i] != 0 ==>
              exists h :: h in hs && Observe(h) == Sample(i, Build(hs)[i])
  {
    var ss := Observations(hs);
    FillIsMaxRank(ss, i);
    forall h | h in hs
      ensures Observe(h) in ss
    {
      var k :| 0 <= k < |hs| && hs[k] == h;
      assert ss[k] == Observe(h);
    }
    if Build(hs)[i] != 0 {
      var k :| 0 <= k < |ss| && ss[k] == Sample(i, Build(hs)[i]);
      assert hs[k] in hs;
    }
  }

  /**
   * The registers depend only on the set of hashes added: neither the order
   * of the adds nor repeated adds of one hash change them.
   */
  lemma OrderIndependent(a: seq<Hash>, b: seq<Hash>)
    requires forall h :: h in a <==> h in b
    ensures Build(a) == Build(b)
  {
    var sa, sb := Observations(a), Observations(b);
    forall s | s in sa
      ensures s in sb
    {
      var k :| 0 <= k < |sa| && sa[k] == s;
      assert a[k] in a;
      var k' :| 0 <= k' < |b| && b[k'] == a[k];
      assert sb[k'] == s;
    }
    forall s | s in sb
      ensures s in sa
    {
      var k :| 0 <= k < |sb| && sb[k] == s;
      assert b[k] in b;
      var k' :| 0 <= k' < |a| && a[k'] == b[k];
      assert sa[k'] == s;
    }
    FillOrderIndependent(sa, sb);
  }

  // ---- merge

  lemma MergeCommutative(a: seq<int>, b: seq<int>)
    requires |a| == RegisterCount && |b| == RegisterCount
    ensures Merge(a, b) == Merge(b, a)
  {
  }

  lemma MergeAssociative(a: seq<int>, b: seq<int>, c: seq<int>)
    requires |a| == RegisterCount && |b| == RegisterCount && |c| == RegisterCount
    ensures Merge(Merge(a, b), c) == Merge(a, Merge(b, c))
  {
  }

  /** Merging registers with themselves changes nothing. */
  lemma MergeIdempotent(a: seq<int>)
    requires |a| == RegisterCount
    ensures Merge(a, a) == a
  {
  }

  /** Merging with a new estimator changes nothing. */
  lemma MergeEmpty(a: seq<int>)
    requires Wf(a)
    ensures Merge(a, Empty()) == a
  {
  }

  /** An update after a merge is the update applied to the merged-in side. */
  lemma InsertIntoMerge(x: seq<int>, y: seq<int>, i: nat, rank: nat)
    requires |x| == RegisterCount && |y| == RegisterCount
    requires i < RegisterCount && 1 <= rank <= MaxRank
    ensures Insert(Merge(x, y), i, rank) == Merge(x, Insert(y, i, rank))
  {
  }

  /** Merging the registers of two sample histories gives those of their concatenation. */
  lemma {:induction false} FillMerge(a: seq<Sample>, b: seq<Sample>)
    requires forall s :: s in a ==> Fits(s)
    requires forall s :: s in b ==> Fits(s)
    ensures Merge(Fill(a), Fill(b)) == Fill(a + b)
  {
    if b == [] {
      assert a + b == a;
      MergeEmpty(Fill(a));
    } else {
      var init, last := b[..|b| - 1], b[|b| - 1];
      assert last in b;
      assert (a + b)[..|a + b| - 1] == a + init;
      assert (a + b)[|a + b| - 1] == last;
      FillMerge(a, init);
      InsertIntoMerge(Fill(a), Fill(init), last.slot, last.rank);
    }
  }

  /**
   * Merging the estimator built from `a` with the one built from `b` gives
   * exactly the registers of one estimator fed `a` and then `b`.
   */
  lemma MergeIsUnion(a: seq<Hash>, b: seq<Hash>)
    ensures Merge(Build(a), Build(b)) == Build(a + b)
  {
    assert Observations(a + b) == Observations(a) + Observations(b);
    FillMerge(Observations(a), Observations(b));
  }

  // ---- the zero-register tally of `count`

  /** The number of registers still 0. */
  function ZeroCount(s: seq<int>): (n: nat)
    ensures n <= |s|
  {
    if s == [] then 0 else ZeroCount(s[..|s| - 1]) + (if s[|s| - 1] == 0 then 1 else 0)
  }

  /** The tally is the length exactly when every register is 0, and 0 exactly when none is. */
  lemma {:induction false} ZeroCountAll(s: seq<int>)
    ensures ZeroCount(s) == |s| <==> forall i :: 0 <= i < |s| ==> s[i] == 0
    ensures ZeroCount(s) == 0 <==> forall i :: 0 <= i < |s| ==> s[i] != 0
  {
    if s != [] {
      ZeroCountAll(s[..|s| - 1]);
    }
  }

  /** A new estimator has all 16384 registers at 0. */
  lemma ZeroCountEmpty()
    ensures ZeroCount(Empty()) == RegisterCount
  {
    ZeroCountAll(Empty());
  }

  /** Changing one register changes the tally by at most one, as that register's zero-ness says. */
  lemma {:induction false} ZeroCountUpdate(s: seq<int>, i: nat, v: int)
    requires i < |s|
    ensures ZeroCount(s[i := v]) ==
            ZeroCount(s) - (if s[i] == 0 then 1 else 0) + (if v == 0 then 1 else 0)
  {
    var n := |s| - 1;
    if i < n {
      assert s[i := v][..n] == s[..n][i := v];
      ZeroCountUpdate(s[..n], i, v);
    } else {
      assert s[i := v][..n] == s[..n];
    }
  }

  /** An update lowers the tally by one exactly when the register it touches was 0. */
  lemma ZeroCountInsert(r: seq<int>, i: nat, rank: nat)
    requires |r| == RegisterCount && i < RegisterCount && 1 <= rank <= MaxRank
    ensures ZeroCount(Insert(r, i, rank)) == ZeroCount(r) - (if r[i] == 0 then 1 else 0)
  {
    if rank > r[i] {
      ZeroCountUpdate(r, i, rank);
    }
  }

  /** The registers that the samples select. */
  function SlotsOf(ss: seq<Sample>): set<nat>
  {
    set s | s in ss :: s.slot
  }

  /** After the updates of `ss`, the tally is 16384 minus the number of registers selected. */
  lemma {:induction false} ZeroCountFill(ss: seq<Sample>)
    requires forall s :: s in ss ==> Fits(s)
    ensures |SlotsOf(ss)| <= RegisterCount
    ensures ZeroCount(Fill(ss)) == RegisterCount - |SlotsOf(ss)|
  {
    if ss == [] {
      ZeroCountEmpty();
      assert SlotsOf(ss) == {};
    } else {
      var init, last := ss[..|ss| - 1], ss[|ss| - 1];
      assert ss == init + [last];
      assert last in ss;
      assert SlotsOf(ss) == SlotsOf(init) + {last.slot};
      ZeroCountFill(init);
      ZeroCountInsert(Fill(init), last.slot, last.rank);
      FillIsMaxRank(init, last.slot);
      assert Fill(ss) == Insert(Fill(init), last.slot, last.rank);
      if last.slot in SlotsOf(init) {
        var w :| w in init && w.slot == last.slot;
        assert Fill(init)[last.slot] != 0;
        assert SlotsOf(ss) == SlotsOf(init);
      } else {
        assert Fill(init)[last.slot] == 0;
        assert |SlotsOf(ss)| == |SlotsOf(init)| + 1;
      }
    }
  }

  /** The registers that the indices of the hashes select. */
  function Slots(hs: seq<Hash>): set<nat>
  {
    set h | h in hs :: Observe(h).slot
  }

  /**
   * After adding `hs` to a new estimator, the zero tally is 16384 minus the
   * number of distinct registers the hashes select.
   */
  lemma ZeroCountBuild(hs: seq<Hash>)
    ensures |Slots(hs)| <= RegisterCount
    ensures ZeroCount(Build(hs)) == RegisterCount - |Slots(hs)|
  {
    var ss := Observations(hs);
    ZeroCountFill(ss);
    forall i | i in SlotsOf(ss)
      ensures i in Slots(hs)
    {
      var s :| s in ss && s.slot == i;
      var k :| 0 <= k < |ss| && ss[k] == s;
      assert hs[k] in hs;
    }
    forall i | i in Slots(hs)
      ensures i in SlotsOf(ss)
    {
      var h :| h in hs && Observe(h).slot == i;
      var k :| 0 <= k < |hs| && hs[k] == h;
      assert ss[k] in ss;
    }
    assert SlotsOf(ss) == Slots(hs);
  }
}
