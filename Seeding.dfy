/** One-shot population of the `companies` collection from the bundled
    dataset. The collection-level emptiness check means a store that holds
    anything at all is never topped up. */
module Seeding {
  import opened Strings
  import opened CompanyStore

  datatype SeedMessage =
    | AlreadyPopulated(existing: nat)
    | Added(added: nat)
    | Failed(reason: string)

  /** The `{success, count, message}` object handed back to the caller. */
  datatype SeedResult = SeedResult(success: bool, count: nat, message: SeedMessage)

  /** `field || ''`: a missing or empty optional field becomes `''`. */
  function OrEmpty(field: Option<string>): (r: string)
    ensures field.Some? ==> r == field.value
    ensures field.None? ==> r == ""
  {
    if field.Some? then field.value else ""
  }

  /** The document written for a dataset entry (timestamps left out). */
  function StoredForm(c: Company): (r: Company)
    ensures r.name == c.name && r.normalizedName == c.normalizedName
    ensures r.industry.Some? && r.employeeSize.Some? && r.logoURL.Some?
    ensures c.industry.Some? ==> r.industry == c.industry
    ensures c.employeeSize.Some? ==> r.employeeSize == c.employeeSize
    ensures c.logoURL.Some? ==> r.logoURL == c.logoURL
    ensures c.industry.None? ==> r.industry == Some("")
    ensures c.employeeSize.None? ==> r.employeeSize == Some("")
    ensures c.logoURL.None? ==> r.logoURL == Some("")
  {
    Company(c.name, c.normalizedName, Some(OrEmpty(c.industry)), Some(OrEmpty(c.employeeSize)), Some(OrEmpty(c.logoURL)))
  }

  /** The collection after attempting, in order, the writes of the first
      `n` entries; the entries whose index is in `writeErrors` throw. No
      document is removed, and at most one is added per successful write
      (two entries with one key land on one document). */
  function Written(docs: map<string, Company>, dataset: seq<Company>, writeErrors: set<nat>, n: nat): (r: map<string, Company>)
    requires n <= |dataset|
    ensures docs.Keys <= r.Keys
    ensures |r| <= |docs| + Successes(writeErrors, n)
  {
    if n == 0 then docs
    else
      var before := Written(docs, dataset, writeErrors, n - 1);
      if n - 1 in writeErrors then before
      else before[dataset[n - 1].normalizedName := StoredForm(dataset[n - 1])]
  }

  /** How many of the first `n` writes succeed: the positions below `n`
      that are not in `writeErrors`. */
  function Successes(writeErrors: set<nat>, n: nat): (r: nat)
    ensures r == |set i: nat | i < n && i !in writeErrors|
    ensures r <= n
  {
    if n == 0 then
      assert (set i: nat | i < n && i !in writeErrors) == {};
      0
    else
      var m := n - 1;
      var below := set i: nat | i < m && i !in writeErrors;
      var r := Successes(writeErrors, m);
      if m in writeErrors then
        assert (set i: nat | i < n && i !in writeErrors) == below;
        r
      else
        assert (set i: nat | i < n && i !in writeErrors) == below + {m};
        r + 1
  }

  /** The `i`-th write succeeded and stored the entry under its key. */
  ghost predicate Wrote(dataset: seq<Company>, writeErrors: set<nat>, n: nat, i: nat, key: string) {
    i < n <= |dataset| && i !in writeErrors && dataset[i].normalizedName == key
  }

  /** The keys of the seeded collection: the old ones plus the key of
      every successful write. */
  lemma {:induction false} WrittenKeys(docs: map<string, Company>, dataset: seq<Company>, writeErrors: set<nat>, n: nat, key: string)
    requires n <= |dataset|
    ensures key in Written(docs, dataset, writeErrors, n) <==>
      key in docs || exists i: nat :: Wrote(dataset, writeErrors, n, i, key)
  {
    if n > 0 {
      var m := n - 1;
      WrittenKeys(docs, dataset, writeErrors, m, key);
      if exists i: nat :: Wrote(dataset, writeErrors, n, i, key) {
        var i: nat :| Wrote(dataset, writeErrors, n, i, key);
        if i < m {
          assert Wrote(dataset, writeErrors, m, i, key);
        }
      }
      if exists i: nat :: Wrote(dataset, writeErrors, m, i, key) {
        var i: nat :| Wrote(dataset, writeErrors, m, i, key);
        assert Wrote(dataset, writeErrors, n, i, key);
      }
      if m !in writeErrors && dataset[m].normalizedName == key {
        assert Wrote(dataset, writeErrors, n, m, key);
      }
    }
  }

  /** Each newly written document holds the stored form of the LAST
      successful write to its key (the `i`-th), so its `normalizedName` is
      its id. */
  lemma {:induction false} WrittenValue(docs: map<string, Company>, dataset: seq<Company>, writeErrors: set<nat>, n: nat, key: string)
    returns (i: nat)
    requires n <= |dataset|
    requires key in Written(docs, dataset, writeErrors, n) && key !in docs
    ensures Written(docs, dataset, writeErrors, n)[key].normalizedName == key
    ensures Wrote(dataset, writeErrors, n, i, key)
    ensures Written(docs, dataset, writeErrors, n)[key] == StoredForm(dataset[i])
    ensures forall j :: i < j < n && j !in writeErrors ==> dataset[j].normalizedName != key
  {
    var m := n - 1;
    var w, before := Written(docs, dataset, writeErrors, n), Written(docs, dataset, writeErrors, m);
    if m !in writeErrors && dataset[m].normalizedName == key {
      assert w[key] == StoredForm(dataset[m]);
      i := m;
    } else {
      assert w == before || w == before[dataset[m].normalizedName := StoredForm(dataset[m])];
      assert key in before && w[key] == before[key];
      i := WrittenValue(docs, dataset, writeErrors, m, key);
    }
  }

  /** With distinct keys every successful write adds a document, so the
      seeded size equals `count`. */
  lemma {:induction false} WrittenSizeDistinctKeys(dataset: seq<Company>, writeErrors: set<nat>, n: nat)
    requires n <= |dataset|
    requires forall i, j :: 0 <= i < j < |dataset| ==> dataset[i].normalizedName != dataset[j].normalizedName
    ensures |Written(map[], dataset, writeErrors, n)| == Successes(writeErrors, n)
  {
    if n > 0 {
      var m := n - 1;
      WrittenSizeDistinctKeys(dataset, writeErrors, m);
      var key := dataset[m].normalizedName;
      WrittenKeys(map[], dataset, writeErrors, m, key);
      assert forall i: nat :: !Wrote(dataset, writeErrors, m, i, key);
    }
  }

  /** When no write throws, `count` is the size of the dataset. */
  lemma {:induction false} AllWritesSucceed(writeErrors: set<nat>, n: nat)
    requires forall i :: i < n ==> i !in writeErrors
    ensures Successes(writeErrors, n) == n
  {
    if n > 0 {
      AllWritesSucceed(writeErrors, n - 1);
    }
  }

  /** A seed that wrote anything leaves a non-empty collection, so the
      next seed takes the already-populated branch. */
  lemma ReseedFindsDocuments(dataset: seq<Company>, writeErrors: set<nat>)
    requires Successes(writeErrors, |dataset|) > 0
    ensures Written(map[], dataset, writeErrors, |dataset|) != map[]
  {
    var n := |dataset|;
    var i := LastSuccess(writeErrors, n);
    WrittenKeys(map[], dataset, writeErrors, n, dataset[i].normalizedName);
    assert Wrote(dataset, writeErrors, n, i, dataset[i].normalizedName);
  }

  /** The index of some successful write among the first `n`. */
  lemma {:induction false} LastSuccess(writeErrors: set<nat>, n: nat) returns (i: nat)
    requires Successes(writeErrors, n) > 0
    ensures i < n && i !in writeErrors
  {
    if n - 1 in writeErrors {
      i := LastSuccess(writeErrors, n - 1);
    } else {
      i := n - 1;
    }
  }

  /** Two entries with one key (as `intel` is twice in the bundled data)
      make `count` exceed the number of documents. */
  lemma DuplicateKeyInflatesCount()
    ensures var intel := Company("Intel", "intel", Some("Semiconductors"), None, None);
      var dataset := [intel, intel];
      Successes({}, 2) == 2 && |Written(map[], dataset, {}, 2)| == 1
  {
    var intel := Company("Intel", "intel", Some("Semiconductors"), None, None);
    var dataset := [intel, intel];
    assert Written(map[], dataset, {}, 1) == map["intel" := StoredForm(intel)];
    assert Written(map[], dataset, {}, 2) == map["intel" := StoredForm(intel)];
  }

  /** `seedCompanies()`. `listError` is the error the initial listing
      throws, if any; `writeErrors` lists the dataset positions whose
      write throws. */
  method Seed(store: Store, dataset: seq<Company>, listError: Option<string>, writeErrors: set<nat>)
    returns (result: SeedResult)
    modifies store
    ensures listError.Some? ==>
      result == SeedResult(false, 0, Failed(listError.value)) && store.docs == old(store.docs)
    ensures listError.None? && old(store.docs) != map[] ==>
      result == SeedResult(true, |old(store.docs)|, AlreadyPopulated(|old(store.docs)|))
      && store.docs == old(store.docs)
    ensures listError.None? && old(store.docs) == map[] ==>
      var count := Successes(writeErrors, |dataset|);
      result == SeedResult(true, count, Added(count))
      && store.docs == Written(map[], dataset, writeErrors, |dataset|)
  {
    var success, count := false, 0;
    var existing := store.Query(None, None, listError);
    if existing.Failure? {
      success := false;
      return SeedResult(success, count, Failed(existing.error));
    }
    var snap := existing.value;
    assert Selected(store.docs, None, None) == store.docs.Keys;
    EnumerationSize(snap, store.docs, store.docs.Keys);
    if |snap| != 0 {
      success, count := true, |snap|;
      return SeedResult(success, count, AlreadyPopulated(count));
    }
    assert store.docs == map[];
    var added: seq<string> := [];
    for i := 0 to |dataset|
      invariant store.docs == Written(map[], dataset, writeErrors, i)
      invariant |added| == Successes(writeErrors, i)
    {
      var company := dataset[i];
      var ok := store.SetDoc(company.normalizedName, StoredForm(company), i in writeErrors);
      if ok {
        added := added + [company.name];
      }
    }
    success, count := true, |added|;
    result := SeedResult(success, count, Added(count));
  }
}
