/** The company record and the `companies` document collection it is stored
    in. The collection is a map from document id to record; every call into
    it takes an error oracle that, when present, makes the call throw with
    that message instead of answering. */
module CompanyStore {
  import opened Strings

  /** One company: display name, lower-case key, optional free-text fields. */
  datatype Company = Company(
    name: string,
    normalizedName: string,
    industry: Option<string>,
    employeeSize: Option<string>,
    logoURL: Option<string>)

  /** One document of a query answer: its id and its data. */
  datatype DocSnapshot = DocSnapshot(id: string, data: Company)

  /** What a store call resolves to: a value, or the message it threw. */
  datatype Result<+T> = Success(value: T) | Failure(error: string)

  /** The optional inclusive bounds `>= lo` and `<= hi` on `normalizedName`. */
  predicate InBounds(key: string, lo: Option<string>, hi: Option<string>) {
    && (lo.None? || LexCompare(lo.value, key) <= 0)
    && (hi.None? || LexCompare(key, hi.value) <= 0)
  }

  /** Ids of the documents whose `normalizedName` field lies within the bounds. */
  ghost function Selected(docs: map<string, Company>, lo: Option<string>, hi: Option<string>): set<string> {
    set k | k in docs && InBounds(docs[k].normalizedName, lo, hi)
  }

  /** `snap` lists each document of `keys` exactly once, with its data,
      in some order. */
  ghost predicate Enumerates(snap: seq<DocSnapshot>, docs: map<string, Company>, keys: set<string>) {
    && (forall i, j :: 0 <= i < j < |snap| ==> snap[i].id != snap[j].id)
    && (forall i :: 0 <= i < |snap| ==> snap[i].id in keys && snap[i].id in docs && snap[i].data == docs[snap[i].id])
    && (forall k :: k in keys ==> exists i :: 0 <= i < |snap| && snap[i].id == k)
  }

  /** `doc.data()` of every document of a snapshot, in snapshot order. */
  function DataOf(snap: seq<DocSnapshot>): (r: seq<Company>)
    ensures |r| == |snap|
    ensures forall i :: 0 <= i < |snap| ==> r[i] == snap[i].data
  {
    seq(|snap|, i requires 0 <= i < |snap| => snap[i].data)
  }

  /** A snapshot has as many entries as the documents it enumerates, so
      `snapshot.size` and `snapshot.empty` speak about the documents. */
  lemma {:induction false} EnumerationSize(snap: seq<DocSnapshot>, docs: map<string, Company>, keys: set<string>)
    requires Enumerates(snap, docs, keys)
    ensures |snap| == |keys|
    decreases |snap|
  {
    if snap == [] {
      assert keys == {};
    } else {
      var n := |snap| - 1;
      var rest := snap[..n];
      var keys' := keys - {snap[n].id};
      forall k | k in keys' ensures exists i :: 0 <= i < |rest| && rest[i].id == k {
        var i :| 0 <= i < |snap| && snap[i].id == k;
        assert i < n && rest[i] == snap[i];
      }
      assert Enumerates(rest, docs, keys');
      EnumerationSize(rest, docs, keys');
    }
  }

  /** The `companies` collection. */
  class Store {
    var docs: map<string, Company>

    constructor (initial: map<string, Company>)
      ensures docs == initial
    {
      docs := initial;
    }

    /** `getDocs` over the collection, optionally restricted by inclusive
        bounds on `normalizedName`. The order of the answer is not specified. */
    method Query(lo: Option<string>, hi: Option<string>, error: Option<string>) returns (r: Result<seq<DocSnapshot>>)
      ensures error.Some? ==> r == Failure(error.value)
      ensures error.None? ==> r.Success? && Enumerates(r.value, docs, Selected(docs, lo, hi))
    {
      if error.Some? {
        return Failure(error.value);
      }
      var remaining := docs.Keys;
      var out: seq<DocSnapshot> := [];
      while remaining != {}
        invariant remaining <= docs.Keys
        invariant forall i :: 0 <= i < |out| ==> out[i].id !in remaining
        invariant Enumerates(out, docs, Selected(docs, lo, hi) - remaining)
        decreases |remaining|
      {
        var k :| k in remaining;
        ghost var before, seen := out, Selected(docs, lo, hi) - remaining;
        if InBounds(docs[k].normalizedName, lo, hi) {
          out := out + [DocSnapshot(k, docs[k])];
        }
        remaining := remaining - {k};
        forall k' | k' in Selected(docs, lo, hi) - remaining
          ensures exists i :: 0 <= i < |out| && out[i].id == k'
        {
          if k' == k {
            assert out[|before|].id == k;
          } else {
            assert k' in seen;
            var i :| 0 <= i < |before| && before[i].id == k';
            assert out[i] == before[i];
          }
        }
      }
      assert Selected(docs, lo, hi) - remaining == Selected(docs, lo, hi);
      r := Success(out);
    }

    /** `setDoc(doc(db, 'companies', key), value)`: a full overwrite, unless
        the write throws. */
    method SetDoc(key: string, value: Company, fails: bool) returns (ok: bool)
      modifies this
      ensures ok == !fails
      ensures docs == if fails then old(docs) else old(docs)[key := value]
    {
      ok := !fails;
      if ok {
        docs := docs[key := value];
      }
    }
  }
}
