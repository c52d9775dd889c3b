/** The four resolvers of the customer directory as pure operations on the
    store: each takes the current `clientes` sequence and returns what the
    resolver returns together with the sequence it leaves behind. */
module CustomerStore {
  import opened Wrappers
  import opened Customers

  /** The message `excluirCliente` throws when no record matches. */
  const NotFoundMessage: string := "Cliente n\U{e3}o encontrado"

  /** The predicate both resolvers pass to `find`/`findIndex`:
      `cliente.id === parseInt(id)`. A missing or unparseable argument is
      `None` (`NaN` in the source) and equals no id. */
  predicate Matches(c: Customer, id: Option<int>) {
    id.Some? && c.id == id.value
  }

  /** `k` is the position of the first record that matches `id`. */
  ghost predicate IsFirstMatch(s: Store, id: Option<int>, k: int) {
    && 0 <= k < |s|
    && Matches(s[k], id)
    && forall j :: 0 <= j < k ==> !Matches(s[j], id)
  }

  /** No record of the store matches `id`. */
  ghost predicate NoMatch(s: Store, id: Option<int>) {
    forall j :: 0 <= j < |s| ==> !Matches(s[j], id)
  }

  /** There is at most one first match. */
  lemma FirstMatchIsUnique(s: Store, id: Option<int>, k: int, k': int)
    requires IsFirstMatch(s, id, k) && IsFirstMatch(s, id, k')
    ensures k == k'
  {
  }

  /** Front-to-back scan for the first matching position, as `find` and
      `findIndex` perform it. */
  function FirstMatch(s: Store, id: Option<int>): (r: Option<nat>)
    ensures r.None? <==> NoMatch(s, id)
    ensures r.Some? ==> IsFirstMatch(s, id, r.value)
  {
    if |s| == 0 then None
    else if Matches(s[0], id) then Some(0)
    else match FirstMatch(s[1..], id)
      case None => None
      case Some(k) => Some(k + 1)
  }

  /** `clientes.findIndex(...)`: the first matching position, or -1. */
  method FindIndex(s: Store, id: Option<int>) returns (k: int)
    ensures -1 <= k < |s|
    ensures k == -1 <==> NoMatch(s, id)
    ensures k != -1 ==> IsFirstMatch(s, id, k)
  {
    var i := 0;
    while i < |s|
      invariant 0 <= i <= |s|
      invariant forall j :: 0 <= j < i ==> !Matches(s[j], id)
    {
      if Matches(s[i], id) {
        return i;
      }
      i := i + 1;
    }
    return -1;
  }

  /** Resolver of `clientesPorId`: the first record whose id equals the
      argument, or nothing. Not finding a record is not an error. */
  function FindById(s: Store, id: Option<int>): (r: Option<Customer>)
    ensures r.None? <==> NoMatch(s, id)
    ensures forall k :: IsFirstMatch(s, id, k) ==> r == Some(s[k])
  {
    match FirstMatch(s, id)
    case None => None
    case Some(k) => Some(s[k])
  }

  /** The record `addCliente` builds from its input under a given id: every
      input field copied as is, an absent optional field left absent. */
  ghost predicate BuiltFrom(c: Customer, input: CustomerInput, id: int) {
    && c.id == id
    && c.nome == input.nome
    && c.telefone == input.telefone
    && c.cpf == input.cpf
    && c.endereco == input.endereco
  }

  /** `s'` is `s` with exactly the record `c` pushed at the end. */
  ghost predicate PushedAtEnd(s: Store, s': Store, c: Customer) {
    && |s'| == |s| + 1
    && s'[..|s|] == s
    && s'[|s|] == c
  }

  /** Builds a record from `input` under the id `id` and pushes it. */
  function Append(s: Store, input: CustomerInput, id: int): (r: (Store, Customer))
    ensures BuiltFrom(r.1, input, id)
    ensures PushedAtEnd(s, r.0, r.1)
  {
    var c := Customer(id, input.nome, input.telefone, input.cpf, input.endereco);
    (s + [c], c)
  }

  /** Resolver of `addCliente`: the new record takes the id `length + 1`, is
      pushed at the end, and is returned. */
  function Add(s: Store, input: CustomerInput): (r: (Store, Customer))
    ensures BuiltFrom(r.1, input, |s| + 1)
    ensures PushedAtEnd(s, r.0, r.1)
  {
    Append(s, input, |s| + 1)
  }

  /** Resolver of `excluirCliente`: with no matching record it throws
      `Cliente não encontrado` and the store is untouched; otherwise it
      splices out the first matching record and returns it. */
  function Delete(s: Store, id: Option<int>): (r: Result<(Store, Customer), string>)
    ensures r.Failure? <==> NoMatch(s, id)
    ensures r.Failure? ==> r.error == NotFoundMessage
    ensures forall k :: IsFirstMatch(s, id, k) ==>
              r == Success((s[..k] + s[k + 1..], s[k]))
  {
    match FirstMatch(s, id)
    case None => Failure(NotFoundMessage)
    case Some(k) => Success((s[..k] + s[k + 1..], s[k]))
  }

  /** A successful delete, whose first match sits at position `k`, shrinks
      the store by one, returns the record at `k` and keeps every other
      record in its relative order: the records before `k` stay put and the
      ones after move up by one. */
  lemma DeleteRemovesExactlyOne(s: Store, id: Option<int>, k: int)
    requires IsFirstMatch(s, id, k)
    ensures Delete(s, id).Success?
    ensures var (s', c) := Delete(s, id).value;
      && |s'| == |s| - 1
      && c == s[k]
      && (forall j :: 0 <= j < k ==> s'[j] == s[j])
      && (forall j :: k <= j < |s'| ==> s'[j] == s[j + 1])
  {
  }

  /** As a multiset, a successful delete loses the returned record and
      nothing else. */
  lemma DeleteLosesOnlyRemoved(s: Store, id: Option<int>)
    requires !NoMatch(s, id)
    ensures Delete(s, id).Success?
    ensures var (s', c) := Delete(s, id).value;
      multiset(s) == multiset(s') + multiset{c}
  {
    var k := FirstMatch(s, id).value;
    assert s == s[..k] + [s[k]] + s[k + 1..];
  }

  /** A missing or unparseable id never deletes anything. */
  lemma DeleteMissingIdFails(s: Store)
    ensures Delete(s, None) == Failure(NotFoundMessage)
  {
  }

  /** If the id `length + 1` is not already taken, the record `Add` returns
      is exactly what a following lookup by that id finds. */
  lemma FindAfterAdd(s: Store, input: CustomerInput)
    requires !HasId(s, |s| + 1)
    ensures var (s', c) := Add(s, input);
      FindById(s', Some(|s| + 1)) == Some(c)
  {
    var (s', c) := Add(s, input);
    assert IsFirstMatch(s', Some(|s| + 1), |s|);
  }

  /** Under the same condition, deleting the id `Add` just assigned undoes
      the add and returns the added record. */
  lemma DeleteUndoesAdd(s: Store, input: CustomerInput)
    requires !HasId(s, |s| + 1)
    ensures var (s', c) := Add(s, input);
      Delete(s', Some(|s| + 1)) == Success((s, c))
  {
    var (s', c) := Add(s, input);
    assert IsFirstMatch(s', Some(|s| + 1), |s|);
    assert s'[..|s|] + s'[|s| + 1..] == s;
  }
}
