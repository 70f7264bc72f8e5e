/**
  Least-recently-used replacement on recency lists: the resident pages, least recently used first. What
  memreplace.c's counters must agree with, and the classical theorems about it.
*/
module Lru {
  import opened Sequences

  /** The list without page p. */
  function Remove(r: seq<nat>, p: nat): (r': seq<nat>)
    ensures p !in r'
    ensures forall q :: q in r' <==> q in r && q != p
    ensures p !in r ==> r' == r
  {
    if r == [] then []
    else if r[0] == p then Remove(r[1..], p)
    else [r[0]] + Remove(r[1..], p)
  }

  /** One access with a full memory: a hit moves the page to the end, a miss also drops the first page. */
  function Access(r: seq<nat>, p: nat): seq<nat>
    requires r != []
  {
    if p in r then Remove(r, p) + [p] else r[1..] + [p]
  }

  lemma RemoveNoDup(r: seq<nat>, p: nat)
    requires NoDup(r)
    ensures NoDup(Remove(r, p)) && |Remove(r, p)| == (if p in r then |r| - 1 else |r|)
  {
    if r != [] {
      RemoveNoDup(r[1..], p);
      if r[0] != p {
        var rest := Remove(r[1..], p);
        assert r[0] !in r[1..];
        forall i, j | 0 <= i < j < |rest| + 1
          ensures ([r[0]] + rest)[i] != ([r[0]] + rest)[j]
        {
          if i == 0 {
            assert ([r[0]] + rest)[j] in rest;
          }
        }
      }
    }
  }

  lemma AccessNoDup(r: seq<nat>, p: nat)
    requires NoDup(r) && r != []
    ensures NoDup(Access(r, p)) && |Access(r, p)| == |r|
  {
    RemoveNoDup(r, p);
  }

  function Run(r: seq<nat>, accesses: seq<nat>): seq<nat>
    requires r != []
    decreases |accesses|
  {
    if accesses == [] then r
    else
      var r' := Access(r, accesses[0]);
      assert r' != [];
      Run(r', accesses[1..])
  }

  /** How many accesses miss: each is one replacement. */
  function Faults(r: seq<nat>, accesses: seq<nat>): nat
    requires r != []
    decreases |accesses|
  {
    if accesses == [] then 0
    else (if accesses[0] in r then 0 else 1) + Faults(Access(r, accesses[0]), accesses[1..])
  }

  // ---------------------------------------------------------------- the k most recently used pages

  /** The distinct pages of a history, in order of their last use. */
  function Recency(h: seq<nat>): (r: seq<nat>)
    ensures forall q :: q in r <==> q in h
  {
    if h == [] then []
    else
      var p := h[|h| - 1];
      assert forall q :: q in h <==> q in h[..|h| - 1] || q == p;
      Remove(Recency(h[..|h| - 1]), p) + [p]
  }

  lemma RecencyNoDup(h: seq<nat>)
    ensures NoDup(Recency(h))
  {
    if h != [] {
      RecencyNoDup(h[..|h| - 1]);
      RemoveNoDup(Recency(h[..|h| - 1]), h[|h| - 1]);
    }
  }

  function Last(r: seq<nat>, k: nat): seq<nat>
    requires k <= |r|
  {
    r[|r| - k..]
  }

  /** Removing a page from the front part leaves the back part. */
  lemma RemoveSplit(a: seq<nat>, b: seq<nat>, p: nat)
    ensures Remove(a + b, p) == Remove(a, p) + Remove(b, p)
  {
    if a == [] {
      assert a + b == b;
    } else {
      assert (a + b)[1..] == a[1..] + b;
      RemoveSplit(a[1..], b, p);
    }
  }

  lemma LastOfConcat(a: seq<nat>, b: seq<nat>)
    ensures |b| <= |a + b| && Last(a + b, |b|) == b
  {
  }

  /** An access keeps "the k most recent of r" for any longer recency list r. */
  lemma AccessIsSuffix(r: seq<nat>, k: nat, p: nat)
    requires NoDup(r) && 0 < k <= |r|
    ensures k <= |Remove(r, p) + [p]| && Access(Last(r, k), p) == Last(Remove(r, p) + [p], k)
  {
    var front, back := r[..|r| - k], Last(r, k);
    assert front + back == r && NoDup(front) && NoDup(back);
    RemoveSplit(front, back, p);
    SuffixAfter(Remove(front, p), back, p);
  }

  /** The last |b| + 1 pages of a + b + [p]. */
  lemma LastThree(a: seq<nat>, b: seq<nat>, p: nat)
    ensures Last(a + b + [p], |b| + 1) == b + [p]
  {
    LastOfConcat(a, b + [p]);
    assert a + b + [p] == a + (b + [p]);
  }

  lemma MoveFirst(a: seq<nat>, back: seq<nat>, p: nat)
    requires back != []
    ensures a + back + [p] == (a + [back[0]]) + back[1..] + [p]
  {
  }

  lemma SuffixAfter(a: seq<nat>, back: seq<nat>, p: nat)
    requires NoDup(back) && back != []
    ensures |back| <= |a + Remove(back, p) + [p]| && Access(back, p) == Last(a + Remove(back, p) + [p], |back|)
  {
    RemoveNoDup(back, p);
    if p in back {
      LastThree(a, Remove(back, p), p);
    } else {
      MoveFirst(a, back, p);
      LastThree(a + [back[0]], back[1..], p);
    }
  }

  lemma SuffixAccess(h: seq<nat>, k: nat, p: nat)
    requires 0 < k <= |Recency(h)|
    ensures k <= |Recency(h + [p])| && Access(Last(Recency(h), k), p) == Last(Recency(h + [p]), k)
  {
    RecencyNoDup(h);
    AccessIsSuffix(Recency(h), k, p);
    assert (h + [p])[..|h|] == h;
  }

  lemma RunFirst(r: seq<nat>, accesses: seq<nat>)
    requires r != [] && accesses != []
    ensures Run(r, accesses) == Run(Access(r, accesses[0]), accesses[1..])
  {
  }

  lemma HistoryFirst(h: seq<nat>, accesses: seq<nat>)
    requires accesses != []
    ensures h + accesses == (h + [accesses[0]]) + accesses[1..]
  {
  }

  /** After any run the resident pages are the k most recently used of the initial ones followed by the accesses. */
  lemma {:induction false} RunIsRecency(h: seq<nat>, k: nat, accesses: seq<nat>)
    requires 0 < k <= |Recency(h)|
    ensures k <= |Recency(h + accesses)| && Run(Last(Recency(h), k), accesses) == Last(Recency(h + accesses), k)
    decreases |accesses|
  {
    if accesses == [] {
      assert h + accesses == h;
    } else {
      SuffixAccess(h, k, accesses[0]);
      RunFirst(Last(Recency(h), k), accesses);
      HistoryFirst(h, accesses);
      RunIsRecency(h + [accesses[0]], k, accesses[1..]);
    }
  }

  // ---------------------------------------------------------------- inclusion

  lemma LastIncluded(r: seq<nat>, k: nat, m: nat)
    requires k <= m <= |r|
    ensures forall q :: q in Last(r, k) ==> q in Last(r, m)
  {
  }

  /** With memories of k and m pages, k <= m, that start as suffixes of one history: the larger contains the smaller. */
  lemma Inclusion(h: seq<nat>, k: nat, m: nat, accesses: seq<nat>)
    requires 0 < k <= m <= |Recency(h)|
    ensures forall q :: q in Run(Last(Recency(h), k), accesses) ==> q in Run(Last(Recency(h), m), accesses)
  {
    RunIsRecency(h, k, accesses);
    RunIsRecency(h, m, accesses);
    LastIncluded(Recency(h + accesses), k, m);
  }

  /** The faults of a run, from those after its first access. */
  lemma FirstFault(h: seq<nat>, k: nat, accesses: seq<nat>)
    requires 0 < k <= |Recency(h)| && accesses != []
    ensures k <= |Recency(h + [accesses[0]])|
    ensures Faults(Last(Recency(h), k), accesses) ==
            (if accesses[0] in Last(Recency(h), k) then 0 else 1)
            + Faults(Last(Recency(h + [accesses[0]]), k), accesses[1..])
  {
    SuffixAccess(h, k, accesses[0]);
  }

  /** No anomaly: the larger memory never faults more. */
  lemma {:induction false} MoreMemoryFewerFaults(h: seq<nat>, k: nat, m: nat, accesses: seq<nat>)
    requires 0 < k <= m <= |Recency(h)|
    ensures Faults(Last(Recency(h), m), accesses) <= Faults(Last(Recency(h), k), accesses)
    decreases |accesses|
  {
    if accesses != [] {
      FirstFault(h, k, accesses);
      FirstFault(h, m, accesses);
      MoreMemoryFewerFaults(h + [accesses[0]], k, m, accesses[1..]);
      LastIncluded(Recency(h), k, m);
    }
  }

  // ---------------------------------------------------------------- competitiveness

  /**
    A step of any policy with c frames: the page is resident afterwards, and no page comes in that was not asked
    for. It may drop any number of pages, at any time.
  */
  predicate PolicyStep(s: set<nat>, p: nat, s': set<nat>, c: nat) {
    p in s' && s' <= s + {p} && |s'| <= c
  }

  /** Some policy's resident sets: one before the run and one after each access. */
  ghost predicate Policy(sets: seq<set<nat>>, accesses: seq<nat>, c: nat) {
    && |sets| == |accesses| + 1 && |sets[0]| <= c
    && forall i :: 0 <= i < |accesses| ==> PolicyStep(sets[i], accesses[i], sets[i + 1], c)
  }

  function PolicyFaults(sets: seq<set<nat>>, accesses: seq<nat>): nat
    requires |sets| == |accesses| + 1
    decreases |accesses|
  {
    if accesses == [] then 0
    else (if accesses[0] in sets[0] then 0 else 1) + PolicyFaults(sets[1..], accesses[1..])
  }

  /** The pages of r the policy does not hold, each weighted by its place in r counted from base + 1. */
  function Potential(r: seq<nat>, s: set<nat>, base: nat): nat {
    if r == [] then 0 else (if r[0] in s then 0 else base + 1) + Potential(r[1..], s, base + 1)
  }

  /** How many pages of r the policy does not hold. */
  function Missing(r: seq<nat>, s: set<nat>): nat {
    if r == [] then 0 else (if r[0] in s then 0 else 1) + Missing(r[1..], s)
  }

  lemma {:induction false} PotentialShift(r: seq<nat>, s: set<nat>, base: nat)
    ensures Potential(r, s, base + 1) == Potential(r, s, base) + Missing(r, s)
  {
    if r != [] {
      PotentialShift(r[1..], s, base + 1);
    }
  }

  lemma {:induction false} PotentialConcat(a: seq<nat>, b: seq<nat>, s: set<nat>, base: nat)
    ensures Potential(a + b, s, base) == Potential(a, s, base) + Potential(b, s, base + |a|)
  {
    if a == [] {
      assert a + b == b;
    } else {
      assert (a + b)[1..] == a[1..] + b;
      PotentialConcat(a[1..], b, s, base + 1);
    }
  }

  /** Losing one page the policy held costs at most the highest weight. */
  lemma {:induction false} PotentialAfterPolicy(r: seq<nat>, s: set<nat>, s': set<nat>, out: nat, base: nat)
    requires NoDup(r) && s - {out} <= s'
    ensures Potential(r, s', base) <= Potential(r, s, base) + (if out in r then base + |r| else 0)
  {
    if r != [] {
      assert r[0] !in r[1..];
      PotentialAfterPolicy(r[1..], s, s', out, base + 1);
    }
  }

  /** A policy that drops no more than it must: it holds at least what the given one does, and faults only with it. */
  lemma LazyStep(s: set<nat>, p: nat, s': set<nat>, lazy: set<nat>, c: nat) returns (lazy': set<nat>, out: nat)
    requires PolicyStep(s, p, s', c) && s <= lazy && |lazy| <= c
    ensures p in lazy' && s' <= lazy' && |lazy'| <= c
    ensures p in lazy ==> lazy' == lazy
    ensures lazy - {out} <= lazy'
  {
    lazy', out := lazy + {p}, p;
    if p !in lazy && |lazy| == c {
      if lazy + {p} <= s' {
        SubsetCount(lazy + {p}, s');
        assert false;
      }
      out :| out in lazy + {p} && out !in s';
      lazy' := lazy + {p} - {out};
    } else if p in lazy {
      assert lazy + {p} == lazy;
    }
  }

  lemma SubsetCount(a: set<nat>, b: set<nat>)
    requires a <= b
    ensures |a| <= |b|
  {
    if a != {} {
      var x :| x in a;
      SubsetCount(a - {x}, b - {x});
    }
  }

  /** With p held by the policy but not resident, few of the resident pages are held too. */
  lemma {:induction false} MissingCount(r: seq<nat>, s: set<nat>, p: nat)
    requires NoDup(r) && p in s && p !in r
    ensures Missing(r, s) + |s| >= |r| + 1
    decreases |r|
  {
    if r == [] {
      SubsetCount({p}, s);
    } else if r[0] in s {
      assert r[0] !in r[1..];
      MissingCount(r[1..], s - {r[0]}, p);
      MissingWithout(r[1..], s, r[0]);
    } else {
      MissingCount(r[1..], s, p);
    }
  }

  lemma {:induction false} MissingWithout(r: seq<nat>, s: set<nat>, x: nat)
    requires x !in r
    ensures Missing(r, s - {x}) == Missing(r, s)
  {
    if r != [] {
      MissingWithout(r[1..], s, x);
    }
  }

  /** A hit on a page the policy holds does not raise the potential. */
  lemma {:induction false} PotentialAfterHit(r: seq<nat>, s: set<nat>, p: nat, base: nat)
    requires p in s && p in r
    ensures Potential(Remove(r, p) + [p], s, base) <= Potential(r, s, base)
  {
    PotentialConcat(Remove(r, p), [p], s, base);
    PotentialOfRemove(r, s, p, base);
  }

  lemma {:induction false} PotentialOfRemove(r: seq<nat>, s: set<nat>, p: nat, base: nat)
    ensures Potential(Remove(r, p), s, base) <= Potential(r, s, base)
  {
    if r != [] {
      if r[0] == p {
        PotentialOfRemove(r[1..], s, p, base);
        PotentialShift(r[1..], s, base);
      } else {
        PotentialOfRemove(r[1..], s, p, base + 1);
        assert ([r[0]] + Remove(r[1..], p))[1..] == Remove(r[1..], p);
      }
    }
  }

  /** A miss on a page the policy holds lowers it by one for every resident page the policy does not hold. */
  lemma PotentialAfterMiss(r: seq<nat>, s: set<nat>, p: nat)
    requires r != [] && p in s
    ensures Potential(r[1..] + [p], s, 0) + Missing(r, s) == Potential(r, s, 0)
  {
    PotentialConcat(r[1..], [p], s, 0);
    PotentialShift(r[1..], s, 0);
  }

  /** One access, when the lazy policy already holds the page. */
  lemma AccessPotential(r: seq<nat>, s: set<nat>, p: nat, c: nat)
    requires NoDup(r) && r != [] && p in s && |s| <= c <= |r|
    ensures Potential(Access(r, p), s, 0) + (if p in r then 0 else |r| - c + 1) <= Potential(r, s, 0)
  {
    if p in r {
      PotentialAfterHit(r, s, p, 0);
    } else {
      PotentialAfterMiss(r, s, p);
      MissingCount(r, s, p);
    }
  }

  lemma PotentialStep(r: seq<nat>, s: set<nat>, p: nat, s': set<nat>, lazy: set<nat>, c: nat) returns (lazy': set<nat>)
    requires NoDup(r) && r != [] && c <= |r|
    requires PolicyStep(s, p, s', c) && s <= lazy && |lazy| <= c
    ensures s' <= lazy' && |lazy'| <= c
    ensures Potential(Access(r, p), lazy', 0) + (if p in r then 0 else |r| - c + 1)
            <= Potential(r, lazy, 0) + (if p in s then 0 else |r|)
  {
    var out;
    lazy', out := LazyStep(s, p, s', lazy, c);
    AccessPotential(r, lazy', p, c);
    if p !in lazy {
      PotentialAfterPolicy(r, lazy, lazy', out, 0);
    }
  }

  /** Sleator and Tarjan's bound, with any start: k frames of LRU against c <= k frames of any policy. */
  lemma {:induction false} CompetitiveFrom(r: seq<nat>, accesses: seq<nat>, sets: seq<set<nat>>, lazy: set<nat>, c: nat)
    requires NoDup(r) && r != [] && c <= |r| && Policy(sets, accesses, c)
    requires sets[0] <= lazy && |lazy| <= c
    ensures (|r| - c + 1) * Faults(r, accesses) <= |r| * PolicyFaults(sets, accesses) + Potential(r, lazy, 0)
    decreases |accesses|
  {
    if accesses != [] {
      var p := accesses[0];
      assert PolicyStep(sets[0], p, sets[1], c);
      var lazy' := PotentialStep(r, sets[0], p, sets[1], lazy, c);
      AccessNoDup(r, p);
      PolicyTail(sets, accesses, c);
      CompetitiveFrom(Access(r, p), accesses[1..], sets[1..], lazy', c);
      Charge(|r| - c + 1, |r|, Faults(Access(r, p), accesses[1..]), PolicyFaults(sets[1..], accesses[1..]),
             Potential(Access(r, p), lazy', 0), Potential(r, lazy, 0), p in r, p in sets[0]);
    }
  }

  /** The cost of one more access, charged to the change of potential. */
  lemma Charge(w: nat, k: nat, f: nat, g: nat, after: nat, before: nat, hit: bool, policyHit: bool)
    requires w * f <= k * g + after
    requires after + (if hit then 0 else w) <= before + (if policyHit then 0 else k)
    ensures w * ((if hit then 0 else 1) + f) <= k * ((if policyHit then 0 else 1) + g) + before
  {
  }

  lemma PolicyTail(sets: seq<set<nat>>, accesses: seq<nat>, c: nat)
    requires Policy(sets, accesses, c) && accesses != []
    ensures Policy(sets[1..], accesses[1..], c)
  {
  }

  lemma {:induction false} NothingMissing(r: seq<nat>, s: set<nat>, base: nat)
    requires forall q :: q in r ==> q in s
    ensures Potential(r, s, base) == 0
  {
    if r != [] {
      NothingMissing(r[1..], s, base + 1);
    }
  }

  /**
    LRU is k-competitive: from the same resident pages it faults at most k times as often as any policy with as many
    frames, however that policy chooses, even knowing all accesses in advance.
  */
  lemma Competitive(r: seq<nat>, accesses: seq<nat>, sets: seq<set<nat>>)
    requires NoDup(r) && r != [] && Policy(sets, accesses, |r|)
    requires forall q :: q in r ==> q in sets[0]
    ensures Faults(r, accesses) <= |r| * PolicyFaults(sets, accesses)
  {
    var k := |r|;
    NothingMissing(r, sets[0], 0);
    CompetitiveFrom(r, accesses, sets, sets[0], k);
    Unit(Faults(r, accesses), k);
  }

  lemma Unit(f: nat, k: nat)
    ensures (k - k + 1) * f == f
  {
  }

  // ---------------------------------------------------------------- LRU is such a policy

  /** Its resident sets: before the run and after each access. */
  ghost function Residents(r: seq<nat>, accesses: seq<nat>): (sets: seq<set<nat>>)
    requires r != []
    ensures |sets| == |accesses| + 1 && sets[0] == Elems(r)
    decreases |accesses|
  {
    if accesses == [] then [Elems(r)] else [Elems(r)] + Residents(Access(r, accesses[0]), accesses[1..])
  }

  lemma {:induction false} ElemsFew(r: seq<nat>)
    ensures |Elems(r)| <= |r|
  {
    if r == [] {
      assert Elems(r) == {};
    } else {
      ElemsFew(r[1..]);
      assert Elems(r) == {r[0]} + Elems(r[1..]);
    }
  }

  /** The policies LRU is measured against include LRU itself, and their faults are counted as LRU's are. */
  lemma {:induction false} LruIsAPolicy(r: seq<nat>, accesses: seq<nat>)
    requires NoDup(r) && r != []
    ensures Policy(Residents(r, accesses), accesses, |r|)
    ensures PolicyFaults(Residents(r, accesses), accesses) == Faults(r, accesses)
    decreases |accesses|
  {
    ElemsFew(r);
    if accesses != [] {
      var p, rest := accesses[0], accesses[1..];
      var r' := Access(r, p);
      AccessNoDup(r, p);
      LruIsAPolicy(r', rest);
      ElemsFew(r');
      var sets := Residents(r, accesses);
      assert sets[1..] == Residents(r', rest);
      forall i | 0 <= i < |accesses| ensures PolicyStep(sets[i], accesses[i], sets[i + 1], |r|) {
        if i == 0 {
          assert p in r' && forall q :: q in r' ==> q in r || q == p;
        } else {
          assert PolicyStep(Residents(r', rest)[i - 1], rest[i - 1], Residents(r', rest)[i], |r|);
        }
      }
    }
  }

  // ---------------------------------------------------------------- recency is the order of last use

  /** b has been used after the last use of a. */
  ghost predicate UsedAfter(h: seq<nat>, a: nat, b: nat) {
    exists k :: 0 <= k < |h| && h[k] == b && a !in h[k..]
  }

  ghost predicate InOrderOfUse(h: seq<nat>, r: seq<nat>) {
    forall i, j :: 0 <= i < j < |r| ==> UsedAfter(h, r[i], r[j])
  }

  lemma {:induction false} RemoveKeepsOrder(h: seq<nat>, r: seq<nat>, p: nat)
    requires InOrderOfUse(h, r)
    ensures InOrderOfUse(h, Remove(r, p))
  {
    if r != [] {
      RemoveKeepsOrder(h, r[1..], p);
      if r[0] != p {
        var rest := Remove(r[1..], p);
        forall i, j | 0 <= i < j < |rest| + 1 ensures UsedAfter(h, ([r[0]] + rest)[i], ([r[0]] + rest)[j]) {
          if i == 0 {
            assert ([r[0]] + rest)[j] in rest;
            var k :| 0 <= k < |r[1..]| && r[1..][k] == ([r[0]] + rest)[j];
            assert UsedAfter(h, r[0], r[k + 1]);
          } else {
            assert UsedAfter(h, rest[i - 1], rest[j - 1]);
          }
        }
      }
    }
  }

  lemma StillAfter(h: seq<nat>, p: nat, a: nat, b: nat)
    requires UsedAfter(h, a, b) && a != p
    ensures UsedAfter(h + [p], a, b)
  {
    var k :| 0 <= k < |h| && h[k] == b && a !in h[k..];
    assert (h + [p])[k..] == h[k..] + [p];
  }

  /** The pages of a history in order of recency: each was used after the last use of those before it. */
  lemma {:induction false} RecencyIsOrder(h: seq<nat>)
    ensures InOrderOfUse(h, Recency(h))
  {
    if h != [] {
      var h', p := h[..|h| - 1], h[|h| - 1];
      var kept := Remove(Recency(h'), p);
      assert h == h' + [p];
      RecencyIsOrder(h');
      RemoveKeepsOrder(h', Recency(h'), p);
      forall i, j | 0 <= i < j < |kept| + 1 ensures UsedAfter(h, (kept + [p])[i], (kept + [p])[j]) {
        if j < |kept| {
          assert kept[i] in kept;
          StillAfter(h', p, kept[i], kept[j]);
        } else {
          assert kept[i] in kept && h[|h| - 1..] == [p];
        }
      }
    }
  }
}
