/** sortParticles of ParticleSystem.cpp: each live particle gets the key
    dot(position - cameraPosition, cameraForward) paired with its slot; the
    pairs are sorted by decreasing key and the particles copied back in that
    order. The sort range handed to std::sort ends at the LAST pair rather
    than one past it, so the last particle never moves. */
module DepthSort {
  import opened Vectors
  import opened Particles

  /** The depth key of a particle as seen from the camera. */
  function Key(p: Particle, cameraPosition: Vec3, cameraForward: Vec3): real
  {
    Dot(Sub(p.position, cameraPosition), cameraForward)
  }

  /** An element of sortArray: (key, slot). */
  type Entry = (real, int)

  predicate SortedDesc(s: seq<Entry>)
  {
    forall i, j | 0 <= i < j < |s| :: s[i].0 >= s[j].0
  }

  /** The comparator a.first > b.first, used by insertion into a sorted run. */
  function Insert(e: Entry, s: seq<Entry>): (r: seq<Entry>)
    ensures multiset(r) == multiset(s) + multiset{e} && |r| == |s| + 1
  {
    if |s| == 0 then [e]
    else if e.0 >= s[0].0 then [e] + s
    else
      assert s == [s[0]] + s[1..];
      [s[0]] + Insert(e, s[1..])
  }

  lemma {:induction false} InsertSorted(e: Entry, s: seq<Entry>)
    requires SortedDesc(s)
    ensures SortedDesc(Insert(e, s))
  {
    if |s| > 0 && e.0 < s[0].0 {
      InsertSorted(e, s[1..]);
      var r := Insert(e, s[1..]);
      forall x | x in r
        ensures x.0 <= s[0].0
      {
        assert x in multiset(r);
        if x != e {
          assert x in multiset(s[1..]);
        }
      }
    }
  }

  /** A sort by decreasing key; std::sort is not stable, and any order of
      equal keys is one it may produce. */
  function SortDesc(s: seq<Entry>): (r: seq<Entry>)
    ensures multiset(r) == multiset(s) && |r| == |s|
  {
    if |s| == 0 then []
    else
      assert s == [s[0]] + s[1..];
      Insert(s[0], SortDesc(s[1..]))
  }

  lemma {:induction false} SortDescSorted(s: seq<Entry>)
    ensures SortedDesc(SortDesc(s))
  {
    if |s| > 0 {
      SortDescSorted(s[1..]);
      InsertSorted(s[0], SortDesc(s[1..]));
    }
  }

  /** sortArray as filled by the first loop: (key of slot i, i). */
  function Entries(ps: seq<Particle>, cameraPosition: Vec3, cameraForward: Vec3): (r: seq<Entry>)
    ensures |r| == |ps|
    ensures forall i | 0 <= i < |ps| :: r[i] == (Key(ps[i], cameraPosition, cameraForward), i)
  {
    seq(|ps|, i requires 0 <= i < |ps| => (Key(ps[i], cameraPosition, cameraForward), i))
  }

  predicate SlotsIn(s: seq<Entry>, n: int)
  {
    forall i | 0 <= i < |s| :: 0 <= s[i].1 < n
  }

  /** The copy-back loop: slot i receives the particle the i-th pair names. */
  function Gather(c: seq<Particle>, s: seq<Entry>): (r: seq<Particle>)
    requires SlotsIn(s, |c|)
    ensures |r| == |s|
    ensures forall i | 0 <= i < |s| :: r[i] == c[s[i].1]
  {
    if |s| == 0 then []
    else
      [c[s[0].1]] + Gather(c, s[1..])
  }

  lemma {:induction false} GatherConcat(c: seq<Particle>, s: seq<Entry>, t: seq<Entry>)
    requires SlotsIn(s, |c|) && SlotsIn(t, |c|)
    ensures SlotsIn(s + t, |c|) && Gather(c, s + t) == Gather(c, s) + Gather(c, t)
  {
  }

  /** Taking out the pair x takes its particle out of the gathered ones. */
  lemma GatherRemove(c: seq<Particle>, a: seq<Entry>, x: Entry, b: seq<Entry>)
    requires SlotsIn(a, |c|) && SlotsIn(b, |c|) && 0 <= x.1 < |c|
    ensures SlotsIn(a + [x] + b, |c|) && SlotsIn(a + b, |c|)
    ensures multiset(Gather(c, a + [x] + b)) == multiset(Gather(c, a + b)) + multiset{c[x.1]}
  {
    GatherConcat(c, a, [x]);
    GatherConcat(c, a + [x], b);
    GatherConcat(c, a, b);
  }

  /** Rearranging pairs keeps every slot they name in range. */
  lemma SlotsInPermutation(p: seq<Entry>, q: seq<Entry>, n: int)
    requires SlotsIn(q, n) && multiset(p) == multiset(q)
    ensures SlotsIn(p, n)
  {
    forall i | 0 <= i < |p|
      ensures 0 <= p[i].1 < n
    {
      assert p[i] in multiset(q);
    }
  }

  /** Removing the first element x of p from q at position j keeps the two
      arrangements of the rest equal as multisets. */
  lemma RemoveBoth(p: seq<Entry>, a: seq<Entry>, x: Entry, b: seq<Entry>)
    requires |p| > 0 && p[0] == x && multiset(p) == multiset(a + [x] + b)
    ensures multiset(p[1..]) == multiset(a + b)
  {
    assert p == [x] + p[1..];
    calc {
      multiset(p[1..]);
      multiset(p) - multiset{x};
      multiset(a + [x] + b) - multiset{x};
      multiset(a) + multiset(b);
    }
  }

  /** Splitting the pairs around position j keeps the slots in range. */
  lemma SlotsInSplit(q: seq<Entry>, j: int, n: int)
    requires SlotsIn(q, n) && 0 <= j < |q|
    ensures SlotsIn(q[..j], n) && SlotsIn(q[j + 1..], n)
    ensures q == q[..j] + [q[j]] + q[j + 1..]
  {
    var b := q[j + 1..];
    forall i | 0 <= i < |b|
      ensures 0 <= b[i].1 < n
    {
      assert b[i] == q[j + 1 + i];
    }
  }

  /** The first gathered particle is the one the first pair names. */
  lemma GatherFirst(c: seq<Particle>, p: seq<Entry>)
    requires SlotsIn(p, |c|) && |p| > 0
    ensures SlotsIn(p[1..], |c|)
    ensures multiset(Gather(c, p)) == multiset{c[p[0].1]} + multiset(Gather(c, p[1..]))
  {
    assert Gather(c, p) == [c[p[0].1]] + Gather(c, p[1..]);
  }

  /** The first pair of p sits somewhere in any rearrangement q of p. */
  lemma PositionOf(p: seq<Entry>, q: seq<Entry>) returns (j: int)
    requires |p| > 0 && multiset(p) == multiset(q)
    ensures 0 <= j < |q| && q[j] == p[0]
  {
    assert p[0] in multiset(q);
    j :| 0 <= j < |q| && q[j] == p[0];
  }

  /** Gathering along two arrangements of the same pairs gives two
      arrangements of the same particles. */
  lemma {:induction false} GatherPermutation(c: seq<Particle>, p: seq<Entry>, q: seq<Entry>)
    requires SlotsIn(q, |c|) && multiset(p) == multiset(q)
    ensures SlotsIn(p, |c|) && multiset(Gather(c, p)) == multiset(Gather(c, q))
    decreases |p|
  {
    SlotsInPermutation(p, q, |c|);
    if |p| == 0 {
      assert |q| == |multiset(q)| == 0;
    } else {
      var x := p[0];
      var j := PositionOf(p, q);
      SlotsInSplit(q, j, |c|);
      var a, b := q[..j], q[j + 1..];
      GatherRemove(c, a, x, b);
      RemoveBoth(p, a, x, b);
      GatherPermutation(c, p[1..], a + b);
      GatherFirst(c, p);
    }
  }

  /** Gathering along the unsorted pairs gives the particles back. */
  lemma GatherEntries(ps: seq<Particle>, cameraPosition: Vec3, cameraForward: Vec3)
    ensures SlotsIn(Entries(ps, cameraPosition, cameraForward), |ps|)
    ensures Gather(ps, Entries(ps, cameraPosition, cameraForward)) == ps
  {
  }

  /** Every pair of s carries the key of the particle of ps it names. */
  predicate KeysMatch(s: seq<Entry>, ps: seq<Particle>, cameraPosition: Vec3, cameraForward: Vec3)
    requires SlotsIn(s, |ps|)
  {
    forall i | 0 <= i < |s| :: s[i].0 == Key(ps[s[i].1], cameraPosition, cameraForward)
  }

  /** Rearranging pairs keeps each paired with the key of its particle. */
  lemma KeysMatchPermutation(p: seq<Entry>, q: seq<Entry>, ps: seq<Particle>, cameraPosition: Vec3, cameraForward: Vec3)
    requires SlotsIn(q, |ps|) && KeysMatch(q, ps, cameraPosition, cameraForward) && multiset(p) == multiset(q)
    ensures SlotsIn(p, |ps|) && KeysMatch(p, ps, cameraPosition, cameraForward)
  {
    SlotsInPermutation(p, q, |ps|);
    forall i | 0 <= i < |p|
      ensures p[i].0 == Key(ps[p[i].1], cameraPosition, cameraForward)
    {
      assert p[i] in multiset(q);
      var j :| 0 <= j < |q| && q[j] == p[i];
    }
  }

  /** The pairs in the order the source leaves them: all but the last sorted,
      the last where the first loop put it. */
  function ArrangedAsWritten(e: seq<Entry>): (r: seq<Entry>)
    requires |e| > 0
    ensures multiset(r) == multiset(e)
  {
    var n := |e|;
    assert e == e[..n - 1] + [e[n - 1]];
    SortDesc(e[..n - 1]) + [e[n - 1]]
  }

  /** The particles sortParticles leaves in slots 0..n-1 of the pool. */
  function SortedAsWritten(ps: seq<Particle>, cameraPosition: Vec3, cameraForward: Vec3): (r: seq<Particle>)
    requires |ps| > 0
    ensures |r| == |ps|
  {
    var e := Entries(ps, cameraPosition, cameraForward);
    GatherEntries(ps, cameraPosition, cameraForward);
    SlotsInPermutation(ArrangedAsWritten(e), e, |ps|);
    Gather(ps, ArrangedAsWritten(e))
  }

  /** The particles sorted over the whole range, as the comment on the sort
      intends: back to front along the camera direction. */
  function SortedByDepth(ps: seq<Particle>, cameraPosition: Vec3, cameraForward: Vec3): (r: seq<Particle>)
    ensures |r| == |ps|
  {
    var e := Entries(ps, cameraPosition, cameraForward);
    GatherEntries(ps, cameraPosition, cameraForward);
    SlotsInPermutation(SortDesc(e), e, |ps|);
    Gather(ps, SortDesc(e))
  }

  /** Gathering along a rearrangement of the pairs of the first loop gives a
      rearrangement of the particles, each at the key its pair carries. */
  lemma GatherArranged(ps: seq<Particle>, cameraPosition: Vec3, cameraForward: Vec3, a: seq<Entry>)
    requires multiset(a) == multiset(Entries(ps, cameraPosition, cameraForward))
    ensures SlotsIn(a, |ps|) && KeysMatch(a, ps, cameraPosition, cameraForward)
    ensures multiset(Gather(ps, a)) == multiset(ps)
    ensures forall i | 0 <= i < |a| :: Key(Gather(ps, a)[i], cameraPosition, cameraForward) == a[i].0
  {
    var e := Entries(ps, cameraPosition, cameraForward);
    GatherEntries(ps, cameraPosition, cameraForward);
    KeysMatchPermutation(a, e, ps, cameraPosition, cameraForward);
    GatherPermutation(ps, a, e);
  }

  /** sortParticles as written rearranges the live particles... */
  lemma SortedAsWrittenPermutation(ps: seq<Particle>, cameraPosition: Vec3, cameraForward: Vec3)
    requires |ps| > 0
    ensures multiset(SortedAsWritten(ps, cameraPosition, cameraForward)) == multiset(ps)
  {
    var e := Entries(ps, cameraPosition, cameraForward);
    GatherArranged(ps, cameraPosition, cameraForward, ArrangedAsWritten(e));
  }

  /** ...puts slots 0..n-2 in decreasing key order... */
  lemma SortedAsWrittenOrder(ps: seq<Particle>, cameraPosition: Vec3, cameraForward: Vec3)
    requires |ps| > 0
    ensures var r := SortedAsWritten(ps, cameraPosition, cameraForward);
      forall i, j | 0 <= i < j < |ps| - 1 ::
        Key(r[i], cameraPosition, cameraForward) >= Key(r[j], cameraPosition, cameraForward)
  {
    var e := Entries(ps, cameraPosition, cameraForward);
    var a := ArrangedAsWritten(e);
    GatherArranged(ps, cameraPosition, cameraForward, a);
    SortDescSorted(e[..|e| - 1]);
    assert forall i | 0 <= i < |ps| - 1 :: a[i] == SortDesc(e[..|e| - 1])[i];
  }

  /** ...and leaves the last live particle where it was. */
  lemma SortedAsWrittenLast(ps: seq<Particle>, cameraPosition: Vec3, cameraForward: Vec3)
    requires |ps| > 0
    ensures SortedAsWritten(ps, cameraPosition, cameraForward)[|ps| - 1] == ps[|ps| - 1]
  {
  }

  /** The corrected sort rearranges the particles into decreasing key order
      over the whole range. */
  lemma SortedByDepthCorrect(ps: seq<Particle>, cameraPosition: Vec3, cameraForward: Vec3)
    ensures var r := SortedByDepth(ps, cameraPosition, cameraForward);
      multiset(r) == multiset(ps) &&
      forall i, j | 0 <= i < j < |ps| ::
        Key(r[i], cameraPosition, cameraForward) >= Key(r[j], cameraPosition, cameraForward)
  {
    var e := Entries(ps, cameraPosition, cameraForward);
    GatherArranged(ps, cameraPosition, cameraForward, SortDesc(e));
    SortDescSorted(e);
  }

  /** Two live particles with the farther one in the last slot: the sort as
      written leaves them front to back, so they are drawn in the wrong
      order, where the corrected sort swaps them. */
  lemma SortEndCounterexample(near: Particle, far: Particle, cameraPosition: Vec3, cameraForward: Vec3)
    requires Key(near, cameraPosition, cameraForward) < Key(far, cameraPosition, cameraForward)
    ensures SortedAsWritten([near, far], cameraPosition, cameraForward) == [near, far]
    ensures SortedByDepth([near, far], cameraPosition, cameraForward) == [far, near]
  {
    PairAsWritten(near, far, cameraPosition, cameraForward);
    PairByDepth(near, far, cameraPosition, cameraForward);
  }

  /** The first loop of sortParticles on two particles. */
  lemma PairEntries(near: Particle, far: Particle, cameraPosition: Vec3, cameraForward: Vec3)
    ensures Entries([near, far], cameraPosition, cameraForward)
         == [(Key(near, cameraPosition, cameraForward), 0), (Key(far, cameraPosition, cameraForward), 1)]
  {
    var e := Entries([near, far], cameraPosition, cameraForward);
    assert |e| == 2 && e[0] == (Key(near, cameraPosition, cameraForward), 0);
    assert e[1] == (Key(far, cameraPosition, cameraForward), 1);
  }

  /** The sort as written leaves two particles where they were. */
  lemma PairAsWritten(near: Particle, far: Particle, cameraPosition: Vec3, cameraForward: Vec3)
    ensures SortedAsWritten([near, far], cameraPosition, cameraForward) == [near, far]
  {
    var e := Entries([near, far], cameraPosition, cameraForward);
    PairEntries(near, far, cameraPosition, cameraForward);
    assert e[..1] == [e[0]];
    assert SortDesc([e[0]]) == [e[0]];
    assert ArrangedAsWritten(e) == e;
    assert Gather([near, far], e) == [near, far];
  }

  /** The corrected sort puts the farther of two particles first. */
  lemma PairByDepth(near: Particle, far: Particle, cameraPosition: Vec3, cameraForward: Vec3)
    requires Key(near, cameraPosition, cameraForward) < Key(far, cameraPosition, cameraForward)
    ensures SortedByDepth([near, far], cameraPosition, cameraForward) == [far, near]
  {
    var kn, kf := Key(near, cameraPosition, cameraForward), Key(far, cameraPosition, cameraForward);
    var e := Entries([near, far], cameraPosition, cameraForward);
    PairEntries(near, far, cameraPosition, cameraForward);
    assert e[1..] == [(kf, 1)];
    assert SortDesc([(kf, 1)]) == [(kf, 1)];
    assert SortDesc(e) == Insert((kn, 0), [(kf, 1)]) == [(kf, 1), (kn, 0)];
    assert Gather([near, far], [(kf, 1), (kn, 0)]) == [far, near];
  }
}
