/** The directory as a state machine: a request is one GraphQL field
    resolution (`clientes`, `clientesPorId`, `addCliente`, `excluirCliente`),
    the state is the `clientes` sequence, and a trace is a sequence of
    requests served one after another. */
module Directory {
  import opened Wrappers
  import opened Customers
  import opened CustomerStore

  datatype Request =
    | Clientes
    | ClientesPorId(id: Option<int>)
    | AddCliente(input: CustomerInput)
    | ExcluirCliente(id: Option<int>)

  /** What the resolver hands back to the GraphQL executor: a value, or the
      message of the error it threw. */
  datatype Response =
    | Listed(all: seq<Customer>)
    | Found(found: Option<Customer>)
    | Added(added: Customer)
    | Deleted(removed: Customer)
    | Error(message: string)

  /** Serves one request. */
  function Step(s: Store, req: Request): (r: (Store, Response))
    ensures r.1.Error? ==> r.0 == s && req.ExcluirCliente? && r.1.message == NotFoundMessage
    ensures req.Clientes? ==> r == (s, Listed(s))
    ensures req.ClientesPorId? ==> r.0 == s && r.1 == Found(FindById(s, req.id))
    ensures req.AddCliente? ==> r.1.Added? && PushedAtEnd(s, r.0, r.1.added)
                                && BuiltFrom(r.1.added, req.input, |s| + 1)
    ensures req.ExcluirCliente? ==> (r.1.Error? <==> NoMatch(s, req.id)) && (r.1.Error? || r.1.Deleted?)
    ensures req.ExcluirCliente? ==> forall k :: IsFirstMatch(s, req.id, k) ==>
              r == (s[..k] + s[k + 1..], Deleted(s[k]))
  {
    match req
    case Clientes => (s, Listed(s))
    case ClientesPorId(id) => (s, Found(FindById(s, id)))
    case AddCliente(input) =>
      var (s', c) := Add(s, input);
      (s', Added(c))
    case ExcluirCliente(id) =>
      match Delete(s, id)
      case Failure(msg) => (s, Error(msg))
      case Success((s', c)) => (s', Deleted(c))
  }

  /** Serves the requests in order; the final store and one response per
      request. */
  function Run(s: Store, reqs: seq<Request>): (r: (Store, seq<Response>))
    ensures |r.1| == |reqs|
    decreases |reqs|
  {
    if |reqs| == 0 then (s, [])
    else
      var (s', resp) := Step(s, reqs[0]);
      var (s'', resps) := Run(s', reqs[1..]);
      (s'', [resp] + resps)
  }

  /** The trace never calls `excluirCliente`. */
  predicate NoDeletes(reqs: seq<Request>) {
    forall i :: 0 <= i < |reqs| ==> !reqs[i].ExcluirCliente?
  }

  /** Listing and lookup leave the store as it is; listing returns it whole
      and lookup answers with the first matching record or nothing. */
  lemma ReadsDoNotModify(s: Store, id: Option<int>)
    ensures Step(s, Clientes) == (s, Listed(s))
    ensures Step(s, ClientesPorId(id)).0 == s
    ensures Step(s, ClientesPorId(id)).1.found.None? <==> NoMatch(s, id)
  {
  }

  /** A trace without deletes keeps the ids exactly 1..n in order when they
      start that way. */
  lemma {:induction false} NoDeletesKeepIdsOneToN(s: Store, reqs: seq<Request>)
    requires IdsAreOneToN(s)
    requires NoDeletes(reqs)
    ensures IdsAreOneToN(Run(s, reqs).0)
    decreases |reqs|
  {
    if |reqs| > 0 {
      var s' := Step(s, reqs[0]).0;
      assert IdsAreOneToN(s');
      assert NoDeletes(reqs[1..]) by {
        forall i | 0 <= i < |reqs[1..]|
          ensures !reqs[1..][i].ExcluirCliente?
        {
          assert reqs[1..][i] == reqs[i + 1];
        }
      }
      NoDeletesKeepIdsOneToN(s', reqs[1..]);
    }
  }

  /** Positive half: from the seed, any trace of additions (with any reads in
      between) leaves ids exactly 1..n in order, hence unique, and every
      added record can be found again by the id it was given. */
  lemma AddsFromSeedKeepIdsUnique(reqs: seq<Request>)
    requires NoDeletes(reqs)
    ensures var s := Run(Seed(), reqs).0;
      IdsAreOneToN(s) && UniqueIds(s)
    ensures forall input :: var s := Run(Seed(), reqs).0;
      FindById(Add(s, input).0, Some(|s| + 1)) == Some(Add(s, input).1)
  {
    var s := Run(Seed(), reqs).0;
    NoDeletesKeepIdsOneToN(Seed(), reqs);
    OneToNIsUnique(s);
    forall input
      ensures FindById(Add(s, input).0, Some(|s| + 1)) == Some(Add(s, input).1)
    {
      FindAfterAdd(s, input);
    }
  }

  /** Negative half: from the seed, deleting id 2 and then adding any record
      gives the new record the id 5, which the untouched `Roberto Almeida`
      record already holds. The ids are no longer unique, and a lookup by 5
      finds the old record, never the new one. */
  lemma DeleteThenAddDuplicatesId(input: CustomerInput)
    ensures var (s, resps) := Run(Seed(), [ExcluirCliente(Some(2)), AddCliente(input)]);
      && resps[0] == Deleted(Seed()[1])
      && resps[1].Added? && resps[1].added.id == 5
      && |s| == 5
      && s[3] == Seed()[4] && s[4] == resps[1].added
      && !UniqueIds(s)
      && FindById(s, Some(5)) == Some(Seed()[4])
  {
    var s1 := Seed()[..1] + Seed()[2..];
    assert IsFirstMatch(Seed(), Some(2), 1);
    assert Step(Seed(), ExcluirCliente(Some(2))) == (s1, Deleted(Seed()[1]));
    var (s, c) := Add(s1, input);
    var reqs := [ExcluirCliente(Some(2)), AddCliente(input)];
    assert reqs[1..] == [AddCliente(input)] && reqs[1..][1..] == [];
    assert Step(s1, AddCliente(input)) == (s, Added(c));
    var one := [AddCliente(input)];
    assert one[0] == AddCliente(input) && one[1..] == [];
    assert Run(s, one[1..]) == (s, []);
    assert [Added(c)] + [] == [Added(c)];
    assert Run(s1, one) == (s, [Added(c)]);
    assert IsFirstMatch(s, Some(5), 3);
  }

  /** Adding `Teste` to the seed returns it under id 6 and the list grows to
      six records. */
  lemma AddToSeedScenario()
    ensures var input := CustomerInput("Teste", Some("123"), Some("000"), Some("Rua A"));
      var (s, resp) := Step(Seed(), AddCliente(input));
      && resp == Added(Customer(6, "Teste", Some("123"), Some("000"), Some("Rua A")))
      && |s| == 6
  {
  }

  /** Deleting id 2 from the seed returns `Maria Oliveira`, and the four
      records left hold no id 2. */
  lemma DeleteFromSeedScenario()
    ensures var (s, resp) := Step(Seed(), ExcluirCliente(Some(2)));
      && resp.Deleted? && resp.removed.nome == "Maria Oliveira"
      && |s| == 4
      && !HasId(s, 2)
  {
    assert IsFirstMatch(Seed(), Some(2), 1);
  }

  /** Deleting an id no record has (999) is an error and the store is
      unchanged. */
  lemma DeleteUnknownScenario()
    ensures Step(Seed(), ExcluirCliente(Some(999))) == (Seed(), Error(NotFoundMessage))
  {
  }
}
