# Transaction services of a personal-finance tracker, in Dafny

This project models the two application services of a small finance
tracker.

- **Bulk import** (`ImportTransactionsService.execute`) reads CSV rows. It
  trims every cell and drops the rows whose title, type or value is empty.
  It then looks up the kept rows' category names in the store and creates
  each missing name once. Finally it saves one transaction per kept row,
  bound to the category with that row's name.
- **Single creation** (`CreateTransactionService.execute`) refuses an
  outcome larger than the current balance. Otherwise it finds the category
  by title or creates it, and saves exactly one transaction.

The object-relational store is replaced by a class `Repository.Store`. It
holds the category table and the transaction table as sequences, plus an
identifier counter that each `save` draws on:

- `find({ title: In(names) })` becomes the filter `Entities.WithTitleIn`, in
  store order.
- `findOne` and `Array.prototype.find` become the first-match lookup
  `Entities.FindByTitle`.
- `save` becomes an append with fresh identifiers.

Files and modules:

- `wrappers.dfy` (`Wrappers`): `Option` and `Result`.
- `entities.dfy` (`Entities`): the category and transaction records and the
  category lookups.
- `store.dfy` (`Repository`): the store class and its two batch saves.
- `text.dfy` (`Text`): JavaScript's `String.prototype.trim`, with the
  ECMAScript white-space and line-terminator characters.
- `import_transactions.dfy` (`ImportTransactions`): the import service.
- `create_transaction.dfy` (`CreateTransaction`): the single-creation
  service.

Each service's `Execute` method changes the store. Its postcondition states
the new store as pure functions of the old store and the input
(`AddedCategories`, `ImportedTransactions`, `ResolveCategory`). The lemmas
beside those functions prove what the services promise.

The source's `type` field is called `kind`, because `type` is a Dafny
keyword. A transaction's value is an `Amount`: `Number(n)` for the
single-creation service and `Text(raw)` for the import. The import passes
the trimmed cell through as text, whatever its `number` annotation says.

Two facts about the code that the model keeps as they are:

- The code does not check the sign of a value. Any income passes the
  balance guard, and so does any outcome whose value is at most the
  balance, negative values included. The model allows them too.
- The lookup passes the list of names, duplicates included, to `In`. That
  selects the same categories as the de-duplicated set would.

## Model

| member | source | states |
|---|---|---|
| Text.TrimStartSpec | src/services/ImportTransactionsService.ts:45-47 | left trimming keeps a suffix that starts with a non-space character and drops only white space |
| Text.TrimEndSpec | src/services/ImportTransactionsService.ts:45-47 | right trimming keeps a prefix that ends with a non-space character and drops only white space |
| Text.TrimSpec | src/services/ImportTransactionsService.ts:45-47 | `cell.trim()`, computed by `Text.Trim`, is the slice between the leading and trailing white space, and it neither starts nor ends with white space |
| Text.TrimEmptyIff | src/services/ImportTransactionsService.ts:45-49 | a cell trims to empty exactly when it is all white space, which is when the filter `ImportTransactions.Keeps` treats it as missing |
| Text.TrimKeepsUnpadded | src/services/ImportTransactionsService.ts:45-47 | a cell without surrounding white space is unchanged by trim |
| Entities.FindByTitle | src/services/CreateTransactionService.ts:33-35 | the lookup by title returns nothing exactly when no category has the title, and otherwise returns the first category with the title |
| Entities.FindByTitleAppend | src/services/ImportTransactionsService.ts:86-96 | `find` over `[...newCategories, ...existentCategories]` searches the new categories first, then the fetched ones |
| Entities.WithTitleIn | src/services/ImportTransactionsService.ts:60-65 | `find` with `In(categories)` returns exactly the stored categories whose title is one of the names |
| Repository.NewCategories | src/services/ImportTransactionsService.ts:78-82 | the created categories carry the requested titles, one each, in order |
| Repository.Store.SaveCategories | src/services/ImportTransactionsService.ts:84 | the store gains exactly the new categories, with fresh increasing ids, and nothing else changes |
| Repository.Store.SaveTransactions | src/services/ImportTransactionsService.ts:100 | the store gains exactly the new transactions, with fresh increasing ids, and nothing else changes |
| ImportTransactions.KeptIndicesUpTo | src/services/ImportTransactionsService.ts:44-54 | the kept positions are exactly the rows that pass the filter, in increasing order |
| ImportTransactions.KeptRowsInInputOrder | src/services/ImportTransactionsService.ts:44-54 | among the first n rows, the k-th row kept by `KeptRowsUpTo` is the k-th row passing the filter `Keeps`, with its cells trimmed by `Parse`, so a dropped row leaves no trace |
| ImportTransactions.KeptRowsAreFilteredRows | src/services/ImportTransactionsService.ts:44-54 | over the whole input, a row is kept exactly when it passes `Keeps`, and `KeptRows` lists the passing rows, trimmed, in input order |
| ImportTransactions.CollectRows | src/services/ImportTransactionsService.ts:36-57 | the row handler's loop pushes exactly the kept rows, and the `categories` list lines up with them index by index |
| ImportTransactions.Absent | src/services/ImportTransactionsService.ts:73-74 | the names that are not existing titles, and only those |
| ImportTransactions.IndexOf | src/services/ImportTransactionsService.ts:75 | `indexOf` gives the first position of a value, or -1 exactly when the value is absent |
| ImportTransactions.Dedup | src/services/ImportTransactionsService.ts:73-75 | the reference de-duplication has no duplicates and keeps every element |
| ImportTransactions.KeepFirstIsDedup | src/services/ImportTransactionsService.ts:75 | the `indexOf` filter over a prefix (`KeepFirst`) equals left-to-right de-duplication of that prefix |
| ImportTransactions.FirstOccurrencesIsDedup | src/services/ImportTransactionsService.ts:75 | the `indexOf` filter over the whole list (`FirstOccurrences`) keeps each element once, in first-occurrence order, and loses none |
| ImportTransactions.MissingTitlesSpec | src/services/ImportTransactionsService.ts:73-75 | `addCategoryTitles`, computed by `MissingTitles`, has no duplicates, is in first-occurrence order, and holds exactly the names that are not existing titles |
| ImportTransactions.AddCategoryTitlesSpec | src/services/ImportTransactionsService.ts:60-75 | with `ExistingCategories` the categories fetched by `In` and `AddCategoryTitles` the titles to create: the titles to create are unique and are named by kept rows. None of them is in the store, and every kept row's name is a fetched title or a title to create |
| ImportTransactions.ImportedTransactionsSpec | src/services/ImportTransactionsService.ts:78-100 | with `AddedCategories` the saved new categories and `ImportedTransactions` the saved transactions built by `Materialise`: one transaction per kept row, in order, with the row's title, type and value. `find` never returns undefined: each transaction gets a stored category with the row's name. Every new category is saved before every new transaction |
| ImportTransactions.ReimportCreatesNoCategories | src/services/ImportTransactionsService.ts:60-75 | importing the same rows a second time creates no category |
| ImportTransactions.ImportKeepsTitlesUnique | src/services/ImportTransactionsService.ts:60-84 | if stored category titles were unique before an import, they are unique after it |
| ImportTransactions.KeepsUnpaddedRow | src/services/ImportTransactionsService.ts:45-53 | a four-cell row whose first three cells are non-empty and unpadded is kept unchanged |
| ImportTransactions.JobAndHousingMissing | src/services/ImportTransactionsService.ts:73-75 | two distinct names, neither stored, are both missing, in input order |
| ImportTransactions.SalaryAndRentScenario | src/services/ImportTransactionsService.ts:44-100 | a file with two complete rows and one untitled row yields the categories "Job" and "Housing" and two transactions |
| ImportTransactions.Execute | src/services/ImportTransactionsService.ts:20-105 | the service adds exactly the missing categories and then exactly the row transactions to the store, and nothing else changes |
| CreateTransaction.Admits | src/services/CreateTransactionService.ts:27-29 | an income always passes the balance guard. An outcome passes exactly when its value is at most the balance, so an outcome equal to the balance is allowed |
| CreateTransaction.ResolveCategory | src/services/CreateTransactionService.ts:33-41 | the resolved category has the requested title. A stored title creates nothing and uses the first match. A new title creates exactly one category with that title and a fresh id |
| CreateTransaction.ResolveTwiceSharesCategory | src/services/CreateTransactionService.ts:33-41 | two creations with the same category name share one category, and the second creates nothing |
| CreateTransaction.ResolveKeepsTitlesUnique | src/services/CreateTransactionService.ts:33-41 | if stored category titles were unique before a creation, they are unique after it |
| CreateTransaction.Execute | src/services/CreateTransactionService.ts:18-53 | a refused outcome fails with InsufficientBalance and leaves the store untouched. Otherwise at most the resolved category and exactly one transaction, carrying the request's fields and bound to that category, are added, and nothing else changes |

## Left out

- Reading the file, `csv-parse` tokenising and its header skip are not modelled. The input is the list of rows after the header, each already split into cells.
- The deletion of the file after the import (`fs.promises.unlink`) is not modelled. The service awaits it without catching errors, so a failed deletion makes the import fail after both saves are already committed. The model does not capture that failure.
- The `'data'`/`'end'` event handshake and async/await are replaced by one sequential loop over all rows.
- ImportTransactions.Execute: a kept row with only three cells pushes `undefined` as its category name. The store's handling of an undefined title is unknown, so the model requires that no such row occurs (`CategoryCellPresent`).
- TypeORM's `create`, `save` and `In` are modelled as in-memory sequences. Identifiers come from one counter, not from the database. `In` over an empty list is taken to return no rows. The fetched categories come back in store order.
- Store failures are not modelled. This covers constraint violations, lost connections and the absence of atomicity across the two saves.
- CreateTransaction.Execute: the balance comes in as the parameter `total`. `TransactionsRepository.getBalance` is not part of this model, so the balance arithmetic and the "balance after = balance before ± value" properties are not stated.
- CreateTransaction.Execute: values are unbounded integers, not JavaScript floating-point numbers.
- Two concurrent calls can both decide that a category is missing and create duplicates. This race is not modelled, because the model is sequential. `ImportKeepsTitlesUnique` and `ResolveKeepsTitlesUnique` hold only for calls that run one after the other.
- `AppError`'s HTTP status code is not modelled. It belongs to the web layer.
