# Customer directory (`clientes`) — a Dafny model

The repository serves a GraphQL API over an in-memory list of customers
(`clientes`). Each customer (`Cliente`) has an `id`, a required `nome` and
optional `telefone`, `cpf` and `endereco`. Four resolvers act on the list:

- `clientes` lists every record;
- `clientesPorId` returns the first record with the given id, or nothing;
- `addCliente` builds a record with `id = clientes.length + 1`, pushes it and returns it;
- `excluirCliente` finds the first record with the given id and splices it out and returns it,
  or throws `Cliente não encontrado` when there is none.

The model treats the list as an immutable `seq<Customer>`. Each resolver is a
pure function that returns the new list together with the resolver's result
or error.

- `wrappers.dfy` (`Wrappers`): `Option` and `Result`.
- `customers.dfy` (`Customers`): the record, the `ClienteInput` argument, the
  five-record seed, and the id predicates (`IdsAreOneToN`, `UniqueIds`, `HasId`).
- `customer_store.dfy` (`CustomerStore`): the `cliente.id === parseInt(id)` test
  (`Matches`); the first-match scan, both as a recursive function (`FirstMatch`)
  and as the `findIndex` loop with its `-1` sentinel (`FindIndex`); and the
  operations `FindById`, `Add` and `Delete`. The reference predicates
  `IsFirstMatch`, `NoMatch`, `BuiltFrom` and `PushedAtEnd` state what the
  operations promise, and lemmas relate the operations to each other.
- `directory.dfy` (`Directory`): the resolvers as one state machine
  (`Request`, `Response`, `Step`, `Run`), lemmas over traces, and the concrete
  scenarios from the seed.
- `counted_directory.dfy` (`CountedDirectory`): the same machine with the id
  taken from a counter that only grows. This is the corrected version of the
  finding below.

The id argument is `Option<int>`: `Some(n)` is a string that `parseInt` reads
as `n`, and `None` is a missing argument or one that parses to `NaN`. `None`
equals no id.

The comment at src/index.js:95 calls the new id "the next available id", but
the code assigns `clientes.length + 1`. The model follows the code, so a
sequential delete followed by an add reuses an id (see Findings).

## Model

| member | source | states |
|---|---|---|
| Customers.Seed | src/index.js:5-41 | the initial list has five records whose ids are 1..5 in order |
| CustomerStore.FirstMatch | src/index.js:69 | the scan returns nothing exactly when no record's id equals the argument; otherwise it returns the position of a matching record with no match before it |
| CustomerStore.FindIndex | src/index.js:111 | `findIndex` returns -1 exactly when nothing matches; otherwise it returns the first matching position |
| CustomerStore.FindById | src/index.js:68-70 | lookup returns nothing (not an error) exactly when no record matches; otherwise it returns the record at the first matching position |
| CustomerStore.Append | src/index.js:94-102 | the pushed record copies `nome`, `telefone`, `cpf` and `endereco` from the input unchanged (absent stays absent) under the given id; the list grows by exactly that record at the end and earlier records keep their positions |
| CustomerStore.Add | src/index.js:93-103 | `addCliente` gives the new record the id old length + 1; the list grows by one; every earlier record is unchanged in place; the returned record is the one appended |
| CustomerStore.Delete | src/index.js:110-120 | `excluirCliente` fails with `Cliente não encontrado` exactly when no record matches; otherwise it returns the first matching record and the list without exactly that position |
| CustomerStore.DeleteRemovesExactlyOne | src/index.js:117-119 | a successful delete shrinks the list by one and returns the record at the first match; records before it stay put and records after it move up by one, so relative order is kept |
| CustomerStore.DeleteLosesOnlyRemoved | src/index.js:117 | as a multiset, the list after a successful delete is the list before minus exactly the returned record |
| CustomerStore.DeleteMissingIdFails | src/index.js:108-115 | with the optional id absent or unparseable, delete throws the not-found error |
| CustomerStore.FindAfterAdd | src/index.js:68-103 | when id length + 1 is not already taken, looking up that id right after an add returns exactly the added record |
| CustomerStore.DeleteUndoesAdd | src/index.js:93-120 | under the same condition, deleting the id just assigned restores the previous list and returns the added record |
| Directory.Step | src/index.js:57-121 | listing returns the list and keeps it; lookup keeps the list and answers with the first matching record or nothing; add appends a record built from the input with id length + 1; delete throws the not-found error and keeps the list exactly when nothing matches, and otherwise splices out the first matching record and returns it |
| Directory.ReadsDoNotModify | src/index.js:59-70 | `clientes` and `clientesPorId` leave the list unchanged; listing returns it whole; lookup finds nothing exactly when nothing matches |
| Directory.NoDeletesKeepIdsOneToN | src/index.js:95-101 | a trace with no `excluirCliente` keeps ids exactly 1..n in order if they start that way |
| Directory.AddsFromSeedKeepIdsUnique | src/index.js:5-41 | from the seed, adds (with reads in between) keep ids exactly 1..n, hence unique, and every next added record is found by its id |
| Directory.DeleteThenAddDuplicatesId | src/index.js:95-117 | from the seed, deleting id 2 and then adding gives the new record id 5, which the kept record `Roberto Almeida` also has; ids are no longer unique, and lookup by 5 finds the old record |
| Directory.AddToSeedScenario | src/index.js:93-103 | adding `Teste` to the seed returns it with id 6 and all its fields, and the list has six records |
| Directory.DeleteFromSeedScenario | src/index.js:110-119 | deleting id 2 from the seed returns `Maria Oliveira` and leaves four records, none with id 2 |
| Directory.DeleteUnknownScenario | src/index.js:113-115 | deleting id 999 from the seed throws the not-found error and the list is unchanged |
| CountedDirectory.Step | src/index.js:94-101 | with a counter, every request other than add answers exactly as `Directory.Step` does; add builds the record from the input under the counter's id and pushes it; the counter never decreases |
| CountedDirectory.StepPreservesValid | src/index.js:95 | with a counter, every request keeps ids unique and below the counter, deletes included |
| CountedDirectory.RunPreservesValid | src/index.js:95 | with a counter, every trace from a valid state keeps ids unique |
| CountedDirectory.AgreesWithoutDeletes | src/index.js:88-104 | on traces without deletes, the counter version gives the same list and responses as the length-based `Directory.Run`, with counter = length + 1 |
| CountedDirectory.DeleteThenAddStaysUnique | src/index.js:95 | with a counter, the trace that duplicates an id in the length-based `Directory` instead gives the new record id 6 and keeps ids unique |

## Left out

- The Express app, the `graphqlHTTP` middleware, GraphiQL, the port and the start-up log line (src/index.js:131-143). These are HTTP and I/O plumbing.
- Building the schema and validating arguments (src/index.js:43-52, 75-83, 126-129). The `graphql` library does this and is not part of this model. The only effect kept is that an input always carries `nome`, which the `CustomerInput` type guarantees.
- `parseInt`: the id argument is already an `Option<int>`. The string forms `parseInt` accepts, and the string serialisation of `ID` in responses, are not modelled.
- `clientes` returns the live array object, so a caller holding it would later see changes made through it. The model returns values, so this aliasing is not represented.
- The seed's phone, CPF and address strings are copied as data. No property depends on their contents.
- CountedDirectory.Run: its contract states only that there is one response per request. What a trace computes is stated by `RunPreservesValid` and `AgreesWithoutDeletes`.
- Directory.Run: its contract states only that there is one response per request. What a trace computes is stated by the trace lemmas.

## Findings

| source | as written | input that shows it | evidently intended | confidence | as-written member | corrected member |
|---|---|---|---|---|---|---|
| src/index.js:95 | the new id is `clientes.length + 1`, and the list shrinks on delete (src/index.js:117) | from the seed, `excluirCliente(id: "2")` then any `addCliente`: the new record gets id 5, and the kept `Roberto Almeida` record already has id 5 | the next id no present record holds (the comment says "next available id"), e.g. from a counter that never goes back | high; not executed | Directory.DeleteThenAddDuplicatesId | CountedDirectory.RunPreservesValid |
