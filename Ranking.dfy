/** Relevance ranking of search results: the comparator handed to
    `Array.prototype.sort` and the in-place sort itself. */
module Ranking {
  import opened Strings
  import opened CompanyStore

  /** The comparator: records are ordered by relevance class (exact key,
      key starting with the query, other), and within the prefix and the
      other class by `name`. Two exact matches each claim to come first. */
  function Compare(a: Company, b: Company, q: string): (r: int)
    ensures -1 <= r <= 1
    ensures Tier(a, q) < Tier(b, q) ==> r == -1
    ensures Tier(a, q) > Tier(b, q) ==> r == 1
    ensures Tier(a, q) == Tier(b, q) == 0 ==> r == -1
    ensures Tier(a, q) == Tier(b, q) != 0 ==> r == LexCompare(a.name, b.name)
  {
    if a.normalizedName == q then -1
    else if b.normalizedName == q then 1
    else if IsPrefix(q, a.normalizedName) && !IsPrefix(q, b.normalizedName) then -1
    else if !IsPrefix(q, a.normalizedName) && IsPrefix(q, b.normalizedName) then 1
    else LexCompare(a.name, b.name)
  }

  /** Relevance class of a record: 0 exact key, 1 key starts with the query, 2 other. */
  function Tier(c: Company, q: string): nat {
    if c.normalizedName == q then 0
    else if IsPrefix(q, c.normalizedName) then 1
    else 2
  }

  /** `a` may stand before `b` in a sorted answer. */
  predicate Precedes(a: Company, b: Company, q: string) {
    Compare(a, b, q) <= 0
  }

  /** Every pair of the sequence is in comparator order. */
  ghost predicate Ranked(s: seq<Company>, q: string) {
    forall i, j :: 0 <= i < j < |s| ==> Precedes(s[i], s[j], q)
  }

  /** The comparator orders by relevance class first; within the prefix
      and the other class by `name`; the exact class is left unordered. */
  lemma PrecedesIsTierOrder(a: Company, b: Company, q: string)
    ensures Precedes(a, b, q) <==>
      Tier(a, q) < Tier(b, q) ||
      (Tier(a, q) == Tier(b, q) && (Tier(a, q) == 0 || LexCompare(a.name, b.name) <= 0))
  {
  }

  /** Two exact matches: the comparator answers -1 both ways, so it is not
      a consistent comparator on such a pair. */
  lemma ExactPairInconsistent(a: Company, b: Company, q: string)
    requires a.normalizedName == q && b.normalizedName == q
    ensures Compare(a, b, q) == -1 && Compare(b, a, q) == -1
  {
  }

  /** Outside that pair the comparator is antisymmetric. */
  lemma CompareAntisymmetric(a: Company, b: Company, q: string)
    requires a.normalizedName != q || b.normalizedName != q
    ensures Compare(a, b, q) == -Compare(b, a, q)
  {
    LexCompareAntisymmetric(a.name, b.name);
  }

  lemma PrecedesTotal(a: Company, b: Company, q: string)
    ensures Precedes(a, b, q) || Precedes(b, a, q)
  {
    LexCompareAntisymmetric(a.name, b.name);
  }

  lemma PrecedesTransitive(a: Company, b: Company, c: Company, q: string)
    requires Precedes(a, b, q) && Precedes(b, c, q)
    ensures Precedes(a, c, q)
  {
    PrecedesIsTierOrder(a, b, q);
    PrecedesIsTierOrder(b, c, q);
    PrecedesIsTierOrder(a, c, q);
    if Tier(a, q) == Tier(b, q) == Tier(c, q) != 0 {
      LexCompareTransitive(a.name, b.name, c.name);
    }
  }

  /** What a ranked answer means: exact keys come first, then keys that
      start with the query, and within each of the latter two classes
      names ascend. */
  lemma RankedOrder(s: seq<Company>, q: string, i: nat, j: nat)
    requires Ranked(s, q) && i < |s| && j < |s|
    ensures s[i].normalizedName == q && s[j].normalizedName != q ==> i < j
    ensures s[i].normalizedName != q && IsPrefix(q, s[i].normalizedName) && !IsPrefix(q, s[j].normalizedName) ==> i < j
    ensures i < j && Tier(s[i], q) == Tier(s[j], q) != 0 ==> LexCompare(s[i].name, s[j].name) <= 0
  {
    if j < i {
      assert Precedes(s[j], s[i], q);
    } else if i < j {
      assert Precedes(s[i], s[j], q);
    }
  }

  /** `perm` maps each position of `s` to the distinct position of `s0`
      its record came from. */
  ghost predicate Tracks(s: seq<Company>, perm: seq<nat>, s0: seq<Company>) {
    && |perm| == |s| == |s0|
    && (forall k :: 0 <= k < |s| ==> perm[k] < |s0| && s[k] == s0[perm[k]])
    && (forall x, y :: 0 <= x < y < |perm| ==> perm[x] != perm[y])
  }

  /** Two records stand in the reverse of their input order only when the
      comparator refuses their input order, or when both keys equal the
      query: for such a pair the comparator is inconsistent and their
      relative order is left open. */
  ghost predicate KeepsAcceptedOrder(s: seq<Company>, perm: seq<nat>, q: string)
    requires |perm| == |s|
  {
    forall x, y :: 0 <= x < y < |s| && perm[x] > perm[y] && (s[x].normalizedName != q || s[y].normalizedName != q) ==>
      !Precedes(s[y], s[x], q)
  }

  /** `s` is `s0` put in ranked order, where every pair the comparator
      accepts in its input order keeps that order, two exact matches
      excepted. */
  ghost predicate IsRankingOf(s: seq<Company>, s0: seq<Company>, q: string) {
    && multiset(s) == multiset(s0)
    && Ranked(s, q)
    && exists perm :: Tracks(s, perm, s0) && KeepsAcceptedOrder(s, perm, q)
  }

  /** The records at input positions `i < j` keep their order when the
      comparator accepts it and they are not both exact matches: in
      particular, records it ties stay in input order. */
  lemma {:induction false} RankingKeepsAcceptedPairs(s: seq<Company>, perm: seq<nat>, s0: seq<Company>, q: string, x: nat, y: nat)
    requires Tracks(s, perm, s0) && KeepsAcceptedOrder(s, perm, q)
    requires x < |s| && y < |s| && perm[x] < perm[y]
    requires Precedes(s0[perm[x]], s0[perm[y]], q)
    requires s0[perm[x]].normalizedName != q || s0[perm[y]].normalizedName != q
    ensures x < y
  {
  }

  /** `s` with positions `j - 1` and `j` exchanged. */
  function Swapped<T>(s: seq<T>, j: nat): (r: seq<T>)
    requires 0 < j < |s|
    ensures |r| == |s| && r[j - 1] == s[j] && r[j] == s[j - 1]
    ensures forall k :: 0 <= k < |s| && k != j - 1 && k != j ==> r[k] == s[k]
  {
    s[j - 1 := s[j]][j := s[j - 1]]
  }

  /** Exchanging an adjacent pair the comparator refuses keeps the
      provenance and introduces only a justified reversal. */
  lemma SwapKeepsAcceptedOrder(s: seq<Company>, perm: seq<nat>, s0: seq<Company>, q: string, j: nat)
    requires Tracks(s, perm, s0) && KeepsAcceptedOrder(s, perm, q)
    requires 0 < j < |s| && !Precedes(s[j - 1], s[j], q)
    ensures Tracks(Swapped(s, j), Swapped(perm, j), s0)
    ensures KeepsAcceptedOrder(Swapped(s, j), Swapped(perm, j), q)
  {
    var s', perm' := Swapped(s, j), Swapped(perm, j);
    forall x, y | 0 <= x < y < |perm'| ensures perm'[x] != perm'[y] {
      var x0 := if x == j - 1 then j else if x == j then j - 1 else x;
      var y0 := if y == j - 1 then j else if y == j then j - 1 else y;
      assert perm'[x] == perm[x0] && perm'[y] == perm[y0] && x0 != y0;
    }
    forall x, y | 0 <= x < y < |s'| && perm'[x] > perm'[y] && (s'[x].normalizedName != q || s'[y].normalizedName != q)
      ensures !Precedes(s'[y], s'[x], q)
    {
      if x != j - 1 || y != j {
        var x0 := if x == j - 1 then j else if x == j then j - 1 else x;
        var y0 := if y == j - 1 then j else if y == j then j - 1 else y;
        assert s'[x] == s[x0] && s'[y] == s[y0] && perm'[x] == perm[x0] && perm'[y] == perm[y0];
        assert x0 < y0;
      }
    }
  }

  /** The first `n` records are in comparator order. */
  ghost predicate RankedPrefix(s: seq<Company>, n: nat, q: string) {
    forall x, y :: 0 <= x < y < n && y < |s| ==> Precedes(s[x], s[y], q)
  }

  /** Mid-pass state of the insertion sort: the record at `j` is moving
      left; without it the first `i + 1` records are ranked, and it may
      precede every record to its right. */
  ghost predicate Sinking(s: seq<Company>, i: nat, j: nat, q: string) {
    && j <= i < |s|
    && (forall x, y :: 0 <= x < y <= i && x != j && y != j ==> Precedes(s[x], s[y], q))
    && (forall y :: j < y <= i ==> Precedes(s[j], s[y], q))
  }

  /** Moving the sinking record one place left keeps the pass's state and
      the multiset of records. */
  lemma SwapKeepsSinking(s: seq<Company>, q: string, i: nat, j: nat)
    requires Sinking(s, i, j, q) && 0 < j && !Precedes(s[j - 1], s[j], q)
    ensures Sinking(Swapped(s, j), i, j - 1, q)
    ensures multiset(Swapped(s, j)) == multiset(s)
  {
    PrecedesTotal(s[j - 1], s[j], q);
    var s' := Swapped(s, j);
    assert s' == s[..j - 1] + [s[j], s[j - 1]] + s[j + 1..];
    assert s == s[..j - 1] + [s[j - 1], s[j]] + s[j + 1..];
  }

  /** When the sinking record has stopped, the first `i + 1` records are ranked. */
  lemma SinkingDone(s: seq<Company>, q: string, i: nat, j: nat)
    requires Sinking(s, i, j, q) && (j == 0 || Precedes(s[j - 1], s[j], q))
    ensures RankedPrefix(s, i + 1, q)
  {
    forall x, y | 0 <= x < y <= i ensures Precedes(s[x], s[y], q) {
      if y == j && x < j - 1 {
        PrecedesTransitive(s[x], s[j - 1], s[j], q);
      }
    }
  }

  /** One pass of the insertion sort: the record at `i` moves left past
      every neighbour the comparator puts after it, so the first `i + 1`
      records end up ranked. */
  method Insert(a: array<Company>, i: nat, q: string, ghost s0: seq<Company>, ghost perm0: seq<nat>)
    returns (ghost perm: seq<nat>)
    requires i < a.Length
    requires RankedPrefix(a[..], i, q)
    requires Tracks(a[..], perm0, s0) && KeepsAcceptedOrder(a[..], perm0, q)
    modifies a
    ensures RankedPrefix(a[..], i + 1, q)
    ensures multiset(a[..]) == old(multiset(a[..]))
    ensures Tracks(a[..], perm, s0) && KeepsAcceptedOrder(a[..], perm, q)
  {
    perm := perm0;
    var j: nat := i;
    while j > 0 && !Precedes(a[j - 1], a[j], q)
      invariant Sinking(a[..], i, j, q)
      invariant multiset(a[..]) == old(multiset(a[..]))
      invariant Tracks(a[..], perm, s0) && KeepsAcceptedOrder(a[..], perm, q)
    {
      ghost var before := a[..];
      SwapKeepsSinking(before, q, i, j);
      SwapKeepsAcceptedOrder(before, perm, s0, q, j);
      a[j - 1], a[j] := a[j], a[j - 1];
      assert a[..] == Swapped(before, j);
      perm := Swapped(perm, j);
      j := j - 1;
    }
    SinkingDone(a[..], q, i, j);
  }

  /** `results.sort(comparator)`, in place: an insertion sort by adjacent
      swaps. It exchanges two neighbours only when the comparator refuses
      their order, so records it ties keep their input order (`perm` gives
      each final position's input position). The contract leaves the order
      of two exact matches open, as ECMAScript does. */
  method SortResults(a: array<Company>, q: string) returns (ghost perm: seq<nat>)
    modifies a
    ensures Ranked(a[..], q)
    ensures multiset(a[..]) == old(multiset(a[..]))
    ensures Tracks(a[..], perm, old(a[..])) && KeepsAcceptedOrder(a[..], perm, q)
  {
    ghost var s0 := a[..];
    perm := seq(a.Length, k requires 0 <= k < a.Length => k);
    var i := 0;
    while i < a.Length
      invariant 0 <= i <= a.Length
      invariant RankedPrefix(a[..], i, q)
      invariant multiset(a[..]) == multiset(s0)
      invariant Tracks(a[..], perm, s0) && KeepsAcceptedOrder(a[..], perm, q)
    {
      perm := Insert(a, i, q, s0, perm);
      i := i + 1;
    }
  }
}
