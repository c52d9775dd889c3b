/** The customer record (`Cliente`), the input of `addCliente`
    (`ClienteInput`), the store they live in and its five-record seed. */
module Customers {
  import opened Wrappers

  /** One `Cliente`: `id` and `nome` are non-null, the rest may be absent. */
  datatype Customer = Customer(
    id: int,
    nome: string,
    telefone: Option<string>,
    cpf: Option<string>,
    endereco: Option<string>)

  /** One `ClienteInput`. The schema makes `nome` non-null, so a value of this
      type always carries a name; the other fields may be absent. */
  datatype CustomerInput = CustomerInput(
    nome: string,
    telefone: Option<string>,
    cpf: Option<string>,
    endereco: Option<string>)

  /** The module-level `clientes` array, in order. */
  type Store = seq<Customer>

  /** The initial contents of `clientes`. */
  function Seed(): (s: Store)
    ensures |s| == 5
    ensures IdsAreOneToN(s)
  {
    [ Customer(1, "Jo\U{e3}o Silva", Some("(11) 98765-4321"), Some("123.456.789-01"),
               Some("Rua das Flores, 123, Jardim Primavera, S\U{e3}o Paulo, SP")),
      Customer(2, "Maria Oliveira", Some("(21) 91234-5678"), Some("234.567.890-12"),
               Some("Avenida dos P\U{e1}ssaros, 456, Centro, Rio de Janeiro, RJ")),
      Customer(3, "Carlos Pereira", Some("(31) 99876-5432"), Some("345.678.901-23"),
               Some("Travessa da Paz, 789, Savassi, Belo Horizonte, MG")),
      Customer(4, "Ana Castro", Some("(41) 91234-5678"), Some("456.789.012-34"),
               Some("Rua das Orqu\U{ed}deas, 321, Batel, Curitiba, PR")),
      Customer(5, "Roberto Almeida", Some("(51) 98765-4321"), Some("567.890.123-45"),
               Some("Pra\U{e7}a da Harmonia, 654, Moinhos de Vento, Porto Alegre, RS")) ]
  }

  /** The ids of the store are exactly 1, 2, ..., |s|, in order. */
  predicate IdsAreOneToN(s: Store) {
    forall i :: 0 <= i < |s| ==> s[i].id == i + 1
  }

  /** No two records of the store share an id. */
  predicate UniqueIds(s: Store) {
    forall i, j :: 0 <= i < j < |s| ==> s[i].id != s[j].id
  }

  /** Some record of the store carries the given id. */
  predicate HasId(s: Store, id: int) {
    exists i :: 0 <= i < |s| && s[i].id == id
  }

  /** Ids 1..n in order are in particular pairwise distinct, and no id
      outside 1..n occurs. */
  lemma OneToNIsUnique(s: Store)
    requires IdsAreOneToN(s)
    ensures UniqueIds(s)
    ensures forall id :: HasId(s, id) <==> 1 <= id <= |s|
  {
    forall id | 1 <= id <= |s|
      ensures HasId(s, id)
    {
      assert s[id - 1].id == id;
    }
  }
}
