/** The directory with the id assignment the `addCliente` comment asks for
    ("the next available id"): a counter kept beside the records that only
    ever grows, instead of `clientes.length + 1`. Every other resolver is
    the same operation as in `Directory`. */
module CountedDirectory {
  import opened Wrappers
  import opened Customers
  import opened CustomerStore
  import Directory

  /** The records plus the id the next added record receives. */
  datatype CountedStore = CountedStore(records: Store, nextId: int)

  /** Ids are unique and all below the counter, so the counter is fresh. */
  ghost predicate Valid(d: CountedStore) {
    && UniqueIds(d.records)
    && forall i :: 0 <= i < |d.records| ==> d.records[i].id < d.nextId
  }

  /** The seed, with the counter just past its largest id. */
  function Initial(): (d: CountedStore)
    ensures d.records == Seed()
    ensures Valid(d)
  {
    OneToNIsUnique(Seed());
    CountedStore(Seed(), |Seed()| + 1)
  }

  /** Removing one record keeps the rest pairwise distinct and below any
      bound they were below. */
  lemma RemovePreservesValid(d: CountedStore, k: int)
    requires Valid(d)
    requires 0 <= k < |d.records|
    ensures Valid(CountedStore(d.records[..k] + d.records[k + 1..], d.nextId))
  {
    var s := d.records;
    var s' := s[..k] + s[k + 1..];
    assert forall j :: 0 <= j < |s'| ==> s'[j] == s[if j < k then j else j + 1];
  }

  /** Serves one request. Only `addCliente` differs from `Directory.Step`: it
      takes the counter as the id and advances it. */
  function Step(d: CountedStore, req: Directory.Request): (r: (CountedStore, Directory.Response))
    ensures r.0.nextId >= d.nextId
    ensures !req.AddCliente? ==> (r.0.records, r.1) == Directory.Step(d.records, req)
    ensures req.AddCliente? ==> r.1.Added? && PushedAtEnd(d.records, r.0.records, r.1.added)
                                && BuiltFrom(r.1.added, req.input, d.nextId)
  {
    match req
    case AddCliente(input) =>
      var (s', c) := Append(d.records, input, d.nextId);
      (CountedStore(s', d.nextId + 1), Directory.Added(c))
    case _ =>
      var (s', resp) := Directory.Step(d.records, req);
      (CountedStore(s', d.nextId), resp)
  }

  /** Every request, deletes included, keeps the ids unique and the counter
      fresh. */
  lemma StepPreservesValid(d: CountedStore, req: Directory.Request)
    requires Valid(d)
    ensures Valid(Step(d, req).0)
  {
    if req.ExcluirCliente? && Directory.Step(d.records, req).1.Deleted? {
      var k := FirstMatch(d.records, req.id).value;
      RemovePreservesValid(d, k);
    }
  }

  /** Serves the requests in order. */
  function Run(d: CountedStore, reqs: seq<Directory.Request>): (r: (CountedStore, seq<Directory.Response>))
    ensures |r.1| == |reqs|
    decreases |reqs|
  {
    if |reqs| == 0 then (d, [])
    else
      var (d', resp) := Step(d, reqs[0]);
      var (d'', resps) := Run(d', reqs[1..]);
      (d'', [resp] + resps)
  }

  /** Every trace, deletes included, keeps the ids unique. */
  lemma {:induction false} RunPreservesValid(d: CountedStore, reqs: seq<Directory.Request>)
    requires Valid(d)
    ensures Valid(Run(d, reqs).0)
    ensures UniqueIds(Run(d, reqs).0.records)
    decreases |reqs|
  {
    if |reqs| > 0 {
      StepPreservesValid(d, reqs[0]);
      RunPreservesValid(Step(d, reqs[0]).0, reqs[1..]);
    }
  }

  /** As long as nothing is deleted, the counter equals `length + 1` and the
      corrected directory answers exactly as the length-based `Directory` does. */
  lemma {:induction false} AgreesWithoutDeletes(s: Store, reqs: seq<Directory.Request>)
    requires Directory.NoDeletes(reqs)
    ensures var (s', resps) := Directory.Run(s, reqs);
      Run(CountedStore(s, |s| + 1), reqs) == (CountedStore(s', |s'| + 1), resps)
    decreases |reqs|
  {
    if |reqs| > 0 {
      var s1 := Directory.Step(s, reqs[0]).0;
      assert Step(CountedStore(s, |s| + 1), reqs[0]).0 == CountedStore(s1, |s1| + 1);
      assert Directory.NoDeletes(reqs[1..]) by {
        forall i | 0 <= i < |reqs[1..]|
          ensures !reqs[1..][i].ExcluirCliente?
        {
          assert reqs[1..][i] == reqs[i + 1];
        }
      }
      AgreesWithoutDeletes(s1, reqs[1..]);
    }
  }

  /** The trace that duplicates an id in `Directory` does not here: deleting
      id 2 from the seed and then adding gives the new record id 6. */
  lemma DeleteThenAddStaysUnique(input: CustomerInput)
    ensures var (d, resps) := Run(Initial(), [Directory.ExcluirCliente(Some(2)), Directory.AddCliente(input)]);
      && resps[1].Added? && resps[1].added.id == 6
      && |d.records| == 5
      && UniqueIds(d.records)
  {
    var reqs := [Directory.ExcluirCliente(Some(2)), Directory.AddCliente(input)];
    RunPreservesValid(Initial(), reqs);
    assert IsFirstMatch(Seed(), Some(2), 1);
    var d1 := CountedStore(Seed()[..1] + Seed()[2..], 6);
    assert Step(Initial(), reqs[0]).0 == d1;
    var (s, c) := Append(d1.records, input, 6);
    var one := [Directory.AddCliente(input)];
    assert reqs[1..] == one && one[0] == Directory.AddCliente(input) && one[1..] == [];
    assert Step(d1, one[0]) == (CountedStore(s, 7), Directory.Added(c));
    assert Run(CountedStore(s, 7), one[1..]) == (CountedStore(s, 7), []);
    assert [Directory.Added(c)] + [] == [Directory.Added(c)];
    assert Run(d1, one) == (CountedStore(s, 7), [Directory.Added(c)]);
  }
}
