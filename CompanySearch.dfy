/** Company autocomplete: a prefix-range query on the `companies`
    collection, with a scan of the bundled dataset as fallback, both ranked
    by relevance. */
module CompanySearch {
  import opened Strings
  import opened CompanyStore
  import opened Ranking

  /** U+F8FF, the upper-bound character appended to the query. */
  const Sentinel: char := '\U{F8FF}'

  /** Shortest query that is sent anywhere. */
  const MinQueryLength: nat := 2

  /** `normalizedName >= q` and `normalizedName <= q + U+F8FF`, both inclusive. */
  predicate InPrefixRange(key: string, q: string) {
    InBounds(key, Some(q), Some(q + [Sentinel]))
  }

  /** The part of a key after the query that still lies under the bound. */
  predicate TailBelowSentinel(t: string) {
    t == [] || t[0] < Sentinel || t == [Sentinel]
  }

  /** The range holds exactly the keys `q + t` where `t` is empty, starts
      below the sentinel, or is the sentinel alone (the bound is inclusive). */
  lemma {:induction false} PrefixRange(q: string, key: string)
    ensures InPrefixRange(key, q) <==> IsPrefix(q, key) && TailBelowSentinel(key[|q|..])
    decreases |q|
  {
    if q == [] {
      assert q + [Sentinel] == [Sentinel];
      assert key[|q|..] == key;
      if key != [] && key[0] == Sentinel {
        assert LexCompare(key, [Sentinel]) == LexCompare(key[1..], []);
        assert key[1..] == [] ==> key == [Sentinel];
      }
    } else if key != [] && key[0] == q[0] {
      assert (q + [Sentinel])[1..] == q[1..] + [Sentinel];
      PrefixRange(q[1..], key[1..]);
      if |q| <= |key| {
        assert key[1..][|q[1..]|..] == key[|q|..];
      }
      assert IsPrefix(q, key) <==> IsPrefix(q[1..], key[1..]);
    } else if key != [] {
      assert (q + [Sentinel])[0] == q[0];
    }
  }

  /** Every key the range query returns starts with the query. */
  lemma RangeOnlyPrefixes(q: string, key: string)
    requires InPrefixRange(key, q)
    ensures IsPrefix(q, key)
  {
    PrefixRange(q, key);
  }

  /** Ids of the documents the range query selects. */
  ghost function RangeKeys(docs: map<string, Company>, q: string): set<string> {
    Selected(docs, Some(q), Some(q + [Sentinel]))
  }

  /** The local match rule: the query occurs in the key, in the lower-cased
      name, or in the lower-cased industry when there is one. Every key the
      range query can select also matches, the empty query matches
      everything, and without an industry only key and name count. */
  function Matches(c: Company, q: string): (r: bool)
    ensures IsPrefix(q, c.normalizedName) ==> r
    ensures q == [] ==> r
    ensures c.industry.None? || c.industry == Some("") ==>
      (r <==> Contains(c.normalizedName, q) || Contains(Lower(c.name), q))
  {
    assert c.normalizedName[0..] == c.normalizedName;
    || Contains(c.normalizedName, q)
    || Contains(Lower(c.name), q)
    || (c.industry.Some? && c.industry.value != "" && Contains(Lower(c.industry.value), q))
  }

  /** `topCompanies.filter(...)`: the matching entries, each as often as
      the dataset holds it. That they keep dataset order is
      `LocalMatchesInOrder`. */
  function LocalMatches(dataset: seq<Company>, q: string): (r: seq<Company>)
    ensures |r| <= |dataset|
    ensures forall c :: multiset(r)[c] == if Matches(c, q) then multiset(dataset)[c] else 0
    ensures forall c :: c in r <==> c in dataset && Matches(c, q)
    decreases |dataset|
  {
    if dataset == [] then []
    else
      assert dataset == [dataset[0]] + dataset[1..];
      (if Matches(dataset[0], q) then [dataset[0]] else []) + LocalMatches(dataset[1..], q)
  }

  /** `r` is `s` read at the strictly increasing positions `idx`. */
  ghost predicate ReadAt(r: seq<Company>, s: seq<Company>, idx: seq<nat>) {
    && |idx| == |r|
    && (forall k :: 0 <= k < |idx| ==> idx[k] < |s| && r[k] == s[idx[k]])
    && (forall k, l :: 0 <= k < l < |idx| ==> idx[k] < idx[l])
  }

  /** `idx` holds exactly the positions of the entries of `s` that match `q`. */
  ghost predicate MatchPositions(s: seq<Company>, q: string, idx: seq<nat>) {
    forall i :: 0 <= i < |s| ==> (i in idx <==> Matches(s[i], q))
  }

  /** The filter keeps dataset order: its result is the dataset read at
      the strictly increasing positions `idx`, and those are exactly the
      positions of the matching entries. */
  lemma {:induction false} LocalMatchesInOrder(dataset: seq<Company>, q: string) returns (idx: seq<nat>)
    ensures ReadAt(LocalMatches(dataset, q), dataset, idx)
    ensures MatchPositions(dataset, q, idx)
    decreases |dataset|
  {
    if dataset == [] {
      idx := [];
      return;
    }
    var rest := LocalMatchesInOrder(dataset[1..], q);
    var kept: seq<Company> := if Matches(dataset[0], q) then [dataset[0]] else [];
    assert LocalMatches(dataset, q) == kept + LocalMatches(dataset[1..], q) by {
      assert dataset == [dataset[0]] + dataset[1..];
    }
    idx := ConsPositions(dataset, q, LocalMatches(dataset[1..], q), rest);
  }

  /** One step of `LocalMatchesInOrder`: prepending the first entry, kept
      when it matches, to the positions found for the rest. */
  lemma ConsPositions(dataset: seq<Company>, q: string, tail: seq<Company>, rest: seq<nat>)
    returns (idx: seq<nat>)
    requires dataset != []
    requires ReadAt(tail, dataset[1..], rest) && MatchPositions(dataset[1..], q, rest)
    ensures ReadAt((if Matches(dataset[0], q) then [dataset[0]] else []) + tail, dataset, idx)
    ensures MatchPositions(dataset, q, idx)
  {
    var keep := Matches(dataset[0], q);
    idx := (if keep then [0] else []) + Shifted(rest);
    ConsReadAt(dataset, keep, tail, rest);
    forall i | 0 < i < |dataset| ensures i in idx <==> Matches(dataset[i], q) {
      assert dataset[i] == dataset[1..][i - 1];
      assert i in idx <==> i - 1 in rest;
    }
  }

  /** Reading the first entry (when `keep`) and then the rest's positions
      shifted by one reads the kept entry followed by `tail`. */
  lemma ConsReadAt(dataset: seq<Company>, keep: bool, tail: seq<Company>, rest: seq<nat>)
    requires dataset != [] && ReadAt(tail, dataset[1..], rest)
    ensures ReadAt((if keep then [dataset[0]] else []) + tail, dataset, (if keep then [0] else []) + Shifted(rest))
  {
    var r := (if keep then [dataset[0]] else []) + tail;
    var shifted := Shifted(rest);
    var head: seq<nat> := if keep then [0] else [];
    var idx := head + shifted;
    forall k | 0 <= k < |idx| ensures idx[k] < |dataset| && r[k] == dataset[idx[k]] {
      if k >= |head| {
        var m := k - |head|;
        assert idx[k] == shifted[m] == rest[m] + 1;
        assert r[k] == tail[m] == dataset[1..][rest[m]];
      } else {
        assert idx[k] == 0 && r[k] == dataset[0];
      }
    }
  }

  /** Every position of `s` moved one place up. */
  function Shifted(s: seq<nat>): (r: seq<nat>)
    ensures |r| == |s| && forall k :: 0 <= k < |s| ==> r[k] == s[k] + 1
    ensures forall i :: 0 < i ==> (i in r <==> i - 1 in s)
    ensures 0 !in r
  {
    if s == [] then [] else [s[0] + 1] + Shifted(s[1..])
  }

  /** `s` is the answer of the range query, put in ranked order. */
  ghost predicate IsRankedRangeAnswer(s: seq<Company>, docs: map<string, Company>, q: string) {
    exists snap :: Enumerates(snap, docs, RangeKeys(docs, q)) && IsRankingOf(s, DataOf(snap), q)
  }

  /** A ranked range answer consists of stored records whose key starts
      with the query, one per selected document. */
  lemma RangeAnswerContents(s: seq<Company>, docs: map<string, Company>, q: string)
    requires IsRankedRangeAnswer(s, docs, q)
    ensures |s| == |RangeKeys(docs, q)|
    ensures forall c :: c in s ==> IsPrefix(q, c.normalizedName) && c in docs.Values
  {
    var snap :| Enumerates(snap, docs, RangeKeys(docs, q)) && IsRankingOf(s, DataOf(snap), q);
    EnumerationSize(snap, docs, RangeKeys(docs, q));
    assert |s| == |multiset(s)| == |multiset(DataOf(snap))| == |snap|;
    forall c | c in s ensures IsPrefix(q, c.normalizedName) && c in docs.Values {
      assert c in multiset(DataOf(snap));
      var i :| 0 <= i < |snap| && DataOf(snap)[i] == c;
      RangeOnlyPrefixes(q, c.normalizedName);
    }
  }

  /** `searchCompaniesLocally(q)`: filter the dataset, then rank. */
  method SearchLocally(dataset: seq<Company>, q: string) returns (results: seq<Company>)
    ensures IsRankingOf(results, LocalMatches(dataset, q), q)
  {
    var matches := LocalMatches(dataset, q);
    var a := new Company[|matches|](i requires 0 <= i < |matches| => matches[i]);
    assert a[..] == matches;
    ghost var perm := SortResults(a, q);
    results := a[..];
    assert Tracks(results, perm, matches) && KeepsAcceptedOrder(results, perm, q);
  }

  /** `searchCompanies(queryText)`. `queryError` is the error the range
      query throws, if any; the function never throws itself. */
  method Search(store: Store, dataset: seq<Company>, queryText: Option<string>, queryError: Option<string>)
    returns (results: seq<Company>)
    ensures queryText.None? || |queryText.value| < MinQueryLength ==> results == []
    ensures queryText.Some? && |queryText.value| >= MinQueryLength ==>
      var q := Lower(queryText.value);
      if queryError.None? && RangeKeys(store.docs, q) != {}
      then IsRankedRangeAnswer(results, store.docs, q)
      else IsRankingOf(results, LocalMatches(dataset, q), q)
  {
    if queryText.None? || |queryText.value| < MinQueryLength {
      return [];
    }
    var q := Lower(queryText.value);
    var answer := store.Query(Some(q), Some(q + [Sentinel]), queryError);
    if answer.Failure? {
      results := SearchLocally(dataset, q);
      return;
    }
    var snap := answer.value;
    EnumerationSize(snap, store.docs, RangeKeys(store.docs, q));
    var a := new Company[|snap|];
    for i := 0 to |snap|
      invariant forall k :: 0 <= k < i ==> a[k] == snap[k].data
    {
      a[i] := snap[i].data;
    }
    assert a[..] == DataOf(snap);
    if a.Length > 0 {
      ghost var perm := SortResults(a, q);
      results := a[..];
      assert Tracks(results, perm, DataOf(snap)) && KeepsAcceptedOrder(results, perm, q);
      return;
    }
    results := SearchLocally(dataset, q);
  }

  /** Example: `goo` selects the key `google` and not `apple`. */
  lemma RangeExamples()
    ensures InPrefixRange("google", "goo")
    ensures !InPrefixRange("apple", "goo")
  {
    PrefixRange("goo", "google");
    assert "google"[..3] == "goo" && "google"[3..] == "gle";
    PrefixRange("goo", "apple");
    assert "apple"[..3] != "goo";
  }

  /** Example: locally `bank` finds a name match and an industry-only
      match, and nothing without the industry. */
  lemma LocalMatchExamples()
    ensures Matches(Company("Bank of America", "bank of america", Some("Banking"), None, None), "bank")
    ensures Matches(Company("OCBC", "ocbc", Some("Banking"), None, None), "bank")
    ensures !Matches(Company("OCBC", "ocbc", None, None, None), "bank")
  {
    assert IsPrefix("bank", "bank of america");
    assert Lower("Banking") == "banking";
    assert IsPrefix("bank", "banking");
    assert Lower("OCBC") == "ocbc";
    assert "ocbc"[..4][0] != "bank"[0];
    assert "ocbc"[1..] == "cbc";
    ShorterContainsNothing("cbc", "bank");
  }

  /** Example: the two `Intel` entries of the bundled data (same key and
      name, different size) tie for the query `int`, so the local search
      returns them in dataset order. */
  lemma LocalSearchKeepsTiedOrder(s: seq<Company>)
    requires
      var first := Company("Intel", "intel", Some("Semiconductors"), Some("120k+"), None);
      var second := Company("Intel", "intel", Some("Semiconductors"), Some("110k+"), None);
      IsRankingOf(s, LocalMatches([first, second], "int"), "int")
    ensures s == [Company("Intel", "intel", Some("Semiconductors"), Some("120k+"), None),
                  Company("Intel", "intel", Some("Semiconductors"), Some("110k+"), None)]
  {
    var first := Company("Intel", "intel", Some("Semiconductors"), Some("120k+"), None);
    var second := Company("Intel", "intel", Some("Semiconductors"), Some("110k+"), None);
    assert IsPrefix("int", "intel");
    assert [first, second][1..] == [second] && [second][1..] == [];
    assert LocalMatches([second], "int") == [second];
    var pool := LocalMatches([first, second], "int");
    assert pool == [first, second];
    var perm :| Tracks(s, perm, pool) && KeepsAcceptedOrder(s, perm, "int");
    LexCompareZeroIffEqual("Intel", "Intel");
    assert Precedes(first, second, "int") && Precedes(second, first, "int");
    assert perm[0] < perm[1];
  }

  /** Example: the two `Intel` entries are both exact matches for `intel`;
      the comparator is inconsistent on them, and either order is a ranking. */
  lemma ExactPairOrderOpen()
    ensures
      var first := Company("Intel", "intel", Some("Semiconductors"), Some("120k+"), None);
      var second := Company("Intel", "intel", Some("Semiconductors"), Some("110k+"), None);
      IsRankingOf([first, second], [first, second], "intel") && IsRankingOf([second, first], [first, second], "intel")
  {
    var first := Company("Intel", "intel", Some("Semiconductors"), Some("120k+"), None);
    var second := Company("Intel", "intel", Some("Semiconductors"), Some("110k+"), None);
    ExactPairKept(first, second, "intel");
    ExactPairSwapped(first, second, "intel");
  }

  /** Two exact matches may stay in input order. */
  lemma ExactPairKept(a: Company, b: Company, q: string)
    requires a.normalizedName == q && b.normalizedName == q
    ensures IsRankingOf([a, b], [a, b], q)
  {
    ExactPairInconsistent(a, b, q);
    var keep: seq<nat> := [0, 1];
    assert Tracks([a, b], keep, [a, b]);
    assert KeepsAcceptedOrder([a, b], keep, q);
  }

  /** Two exact matches may be swapped. */
  lemma ExactPairSwapped(a: Company, b: Company, q: string)
    requires a.normalizedName == q && b.normalizedName == q
    ensures IsRankingOf([b, a], [a, b], q)
  {
    ExactPairInconsistent(a, b, q);
    var swap: seq<nat> := [1, 0];
    assert Tracks([b, a], swap, [a, b]);
    assert KeepsAcceptedOrder([b, a], swap, q);
    assert multiset([b, a]) == multiset([a, b]);
  }
}
