/** `ImportTransactionsService.execute`: the rows of a CSV file become
    transactions. Rows without a title, type or value are skipped; the
    category names of the remaining rows that the store does not know yet are
    created once each; then every row is saved as a transaction bound to the
    category with its name. The file itself, the CSV tokenizer and the
    deletion of the file are not modelled: the input is the list of rows
    after the header, each already split into cells. */
module ImportTransactions {
  import opened Wrappers
  import opened Text
  import opened Entities
  import opened Repository

  /** A row that passed the filter, every field trimmed (`CSVTransactions`).
      `value` stays the raw trimmed text. */
  datatype CsvRow = CsvRow(title: string, kind: string, value: string, category: string)

  /** The filter of the row handler: the trimmed title, type and value are
      all non-empty. A cell past the end of the row is `undefined`, which the
      filter rejects just like an empty cell. */
  predicate Keeps(cells: seq<string>)
  {
    |cells| >= 3 && Trim(cells[0]) != "" && Trim(cells[1]) != "" && Trim(cells[2]) != ""
  }

  /** Every row the filter keeps also has a category cell. */
  predicate CategoryCellPresent(rows: seq<seq<string>>)
  {
    forall i | 0 <= i < |rows| :: Keeps(rows[i]) ==> |rows[i]| >= 4
  }

  /** The destructured, trimmed cells of a row. */
  function Parse(cells: seq<string>): CsvRow
    requires |cells| >= 4
  {
    CsvRow(Trim(cells[0]), Trim(cells[1]), Trim(cells[2]), Trim(cells[3]))
  }

  /** The rows the handler has pushed after seeing the first `n` rows, in
      the order they arrived. */
  function KeptRowsUpTo(rows: seq<seq<string>>, n: nat): seq<CsvRow>
    requires CategoryCellPresent(rows) && n <= |rows|
  {
    if n == 0 then []
    else KeptRowsUpTo(rows, n - 1) + (if Keeps(rows[n - 1]) then [Parse(rows[n - 1])] else [])
  }

  function KeptRows(rows: seq<seq<string>>): seq<CsvRow>
    requires CategoryCellPresent(rows)
  {
    KeptRowsUpTo(rows, |rows|)
  }

  /** The positions below `n` of the rows that pass the filter: exactly
      those, in increasing order. */
  function KeptIndicesUpTo(rows: seq<seq<string>>, n: nat): (r: seq<nat>)
    requires n <= |rows|
    ensures forall k | 0 <= k < |r| :: r[k] < n && Keeps(rows[r[k]])
    ensures forall i | 0 <= i < n && Keeps(rows[i]) :: i in r
    ensures forall k, l | 0 <= k < l < |r| :: r[k] < r[l]
  {
    if n == 0 then []
    else KeptIndicesUpTo(rows, n - 1) + (if Keeps(rows[n - 1]) then [n - 1] else [])
  }

  function KeptIndices(rows: seq<seq<string>>): seq<nat>
  {
    KeptIndicesUpTo(rows, |rows|)
  }

  /** Kept rows are exactly the rows that pass the filter, trimmed, in input
      order: the k-th kept row is the parse of the k-th passing row, so a
      dropped row leaves no trace. */
  lemma {:induction false} KeptRowsInInputOrder(rows: seq<seq<string>>, n: nat)
    requires CategoryCellPresent(rows) && n <= |rows|
    ensures |KeptRowsUpTo(rows, n)| == |KeptIndicesUpTo(rows, n)|
    ensures forall k | 0 <= k < |KeptRowsUpTo(rows, n)| ::
              |rows[KeptIndicesUpTo(rows, n)[k]]| >= 4
              && KeptRowsUpTo(rows, n)[k] == Parse(rows[KeptIndicesUpTo(rows, n)[k]])
  {
    if n > 0 {
      KeptRowsInInputOrder(rows, n - 1);
    }
  }

  /** Over the whole input: a row is kept exactly when it passes the filter,
      and the k-th kept row is the trimmed parse of the k-th passing row. */
  lemma KeptRowsAreFilteredRows(rows: seq<seq<string>>)
    requires CategoryCellPresent(rows)
    ensures forall i | 0 <= i < |rows| :: i in KeptIndices(rows) <==> Keeps(rows[i])
    ensures |KeptRows(rows)| == |KeptIndices(rows)|
    ensures forall k | 0 <= k < |KeptRows(rows)| ::
              |rows[KeptIndices(rows)[k]]| >= 4
              && KeptRows(rows)[k] == Parse(rows[KeptIndices(rows)[k]])
  {
    KeptRowsInInputOrder(rows, |rows|);
  }

  /** The category name of each kept row, index by index. */
  function CategoryNames(kept: seq<CsvRow>): (r: seq<string>)
    ensures |r| == |kept|
  {
    seq(|kept|, k requires 0 <= k < |kept| => kept[k].category)
  }

  /** The row handler run over every row until the end of the stream: it
      pushes the kept rows onto `transactions` and their category names onto
      `categories`, which therefore line up index by index. */
  method CollectRows(rows: seq<seq<string>>) returns (transactions: seq<CsvRow>, categories: seq<string>)
    requires CategoryCellPresent(rows)
    ensures transactions == KeptRows(rows)
    ensures |categories| == |transactions|
    ensures forall k | 0 <= k < |categories| :: categories[k] == transactions[k].category
  {
    transactions, categories := [], [];
    var i := 0;
    while i < |rows|
      invariant 0 <= i <= |rows|
      invariant transactions == KeptRowsUpTo(rows, i)
      invariant |categories| == |transactions|
      invariant forall k | 0 <= k < |categories| :: categories[k] == transactions[k].category
    {
      var line := rows[i];
      var cells := seq(|line|, k requires 0 <= k < |line| => Trim(line[k]));
      if |cells| >= 3 && cells[0] != "" && cells[1] != "" && cells[2] != "" {
        assert Keeps(rows[i]);
        var row := CsvRow(cells[0], cells[1], cells[2], cells[3]);
        categories := categories + [row.category];
        transactions := transactions + [row];
      }
      i := i + 1;
    }
  }

  predicate NoDuplicates(s: seq<string>)
  {
    forall i, j | 0 <= i < j < |s| :: s[i] != s[j]
  }

  /** `categories.filter(category => !existentCategoriesTitles.includes(category))`. */
  function Absent(names: seq<string>, existing: seq<string>): (r: seq<string>)
    ensures forall x :: x in r <==> x in names && x !in existing
  {
    if names == [] then []
    else
      assert forall x :: x in names <==> x == names[0] || x in names[1..];
      (if names[0] in existing then [] else [names[0]]) + Absent(names[1..], existing)
  }

  /** `Array.prototype.indexOf`: the first position of `x`, or -1. */
  function IndexOf(s: seq<string>, x: string): (i: int)
    ensures -1 <= i < |s|
    ensures i == -1 <==> x !in s
    ensures 0 <= i ==> s[i] == x && x !in s[..i]
  {
    if s == [] then -1
    else if s[0] == x then 0
    else
      var j := IndexOf(s[1..], x);
      assert forall y :: y in s <==> y == s[0] || y in s[1..];
      assert j >= 0 ==> s[..j + 1] == [s[0]] + s[1..][..j];
      if j == -1 then -1 else j + 1
  }

  /** `self.indexOf(value) === index` kept as a filter over the first `n`
      positions of `s`. */
  function KeepFirst(s: seq<string>, n: nat): seq<string>
    requires n <= |s|
  {
    if n == 0 then []
    else KeepFirst(s, n - 1) + (if IndexOf(s, s[n - 1]) == n - 1 then [s[n - 1]] else [])
  }

  /** `.filter((value, index, self) => self.indexOf(value) === index)`. */
  function FirstOccurrences(s: seq<string>): seq<string>
  {
    KeepFirst(s, |s|)
  }

  /** Reference de-duplication: walk left to right and keep an element only
      when it has not been seen before. */
  function Dedup(s: seq<string>): (r: seq<string>)
    ensures NoDuplicates(r)
    ensures forall x :: x in r <==> x in s
  {
    if s == [] then []
    else
      var init, last := s[..|s| - 1], s[|s| - 1];
      assert forall x :: x in s <==> x in init || x == last;
      Dedup(init) + (if last in init then [] else [last])
  }

  lemma {:induction false} KeepFirstIsDedup(s: seq<string>, n: nat)
    requires n <= |s|
    ensures KeepFirst(s, n) == Dedup(s[..n])
  {
    if n > 0 {
      KeepFirstIsDedup(s, n - 1);
      assert s[..n][..n - 1] == s[..n - 1];
      var x := s[n - 1];
      assert s[n - 1] == x;
      var i := IndexOf(s, x);
      assert i < n - 1 ==> s[..n - 1][i] == x;
    }
  }

  /** The `indexOf` filter keeps the first occurrence of every element, in
      the order of first occurrence, and nothing else. */
  lemma FirstOccurrencesIsDedup(s: seq<string>)
    ensures FirstOccurrences(s) == Dedup(s)
    ensures NoDuplicates(FirstOccurrences(s))
    ensures forall x :: x in FirstOccurrences(s) <==> x in s
  {
    KeepFirstIsDedup(s, |s|);
    assert s[..|s|] == s;
  }

  /** `addCategoryTitles`: the names not among `existingTitles`, each once, in
      the order of first occurrence. */
  function MissingTitles(names: seq<string>, existingTitles: seq<string>): seq<string>
  {
    FirstOccurrences(Absent(names, existingTitles))
  }

  lemma MissingTitlesSpec(names: seq<string>, existingTitles: seq<string>)
    ensures MissingTitles(names, existingTitles) == Dedup(Absent(names, existingTitles))
    ensures NoDuplicates(MissingTitles(names, existingTitles))
    ensures forall x :: x in MissingTitles(names, existingTitles) <==> x in names && x !in existingTitles
  {
    FirstOccurrencesIsDedup(Absent(names, existingTitles));
  }

  /** `existentCategories`: the stored categories named by some kept row. */
  function ExistingCategories(cats: seq<Category>, rows: seq<seq<string>>): seq<Category>
    requires CategoryCellPresent(rows)
  {
    WithTitleIn(cats, CategoryNames(KeptRows(rows)))
  }

  /** `addCategoryTitles` for a store holding `cats`. */
  function AddCategoryTitles(cats: seq<Category>, rows: seq<seq<string>>): seq<string>
    requires CategoryCellPresent(rows)
  {
    MissingTitles(CategoryNames(KeptRows(rows)), Titles(ExistingCategories(cats, rows)))
  }

  /** The titles to create: each once, each named by a kept row, none already
      in the store; and every kept row's category name is either already in
      the store (and then among the fetched categories) or to be created. */
  lemma AddCategoryTitlesSpec(cats: seq<Category>, rows: seq<seq<string>>)
    requires CategoryCellPresent(rows)
    ensures NoDuplicates(AddCategoryTitles(cats, rows))
    ensures forall x :: x in AddCategoryTitles(cats, rows) <==> x in CategoryNames(KeptRows(rows)) && x !in Titles(cats)
    ensures forall x | x in CategoryNames(KeptRows(rows)) ::
              x in Titles(ExistingCategories(cats, rows)) || x in AddCategoryTitles(cats, rows)
  {
    var names := CategoryNames(KeptRows(rows));
    var existing := ExistingCategories(cats, rows);
    MissingTitlesSpec(names, Titles(existing));
    forall x | x in names && x in Titles(cats) ensures x in Titles(existing) {
      var i :| 0 <= i < |cats| && Titles(cats)[i] == x;
      assert cats[i] in existing;
      var j :| 0 <= j < |existing| && existing[j] == cats[i];
      assert Titles(existing)[j] == x;
    }
    forall x | x in Titles(existing) ensures x in Titles(cats) {
      var j :| 0 <= j < |existing| && Titles(existing)[j] == x;
      assert existing[j] in cats;
      var i :| 0 <= i < |cats| && cats[i] == existing[j];
      assert Titles(cats)[i] == x;
    }
  }

  /** `transactions.map(t => ({ ..., category: finalCategories.find(...) }))`. */
  function Materialise(kept: seq<CsvRow>, finalCategories: seq<Category>): (r: seq<Draft>)
    ensures |r| == |kept|
  {
    seq(|kept|, k requires 0 <= k < |kept| =>
      Draft(kept[k].title, kept[k].kind, Text(kept[k].value), FindByTitle(finalCategories, kept[k].category)))
  }

  /** The categories the import saves into a store holding `cats`, numbered
      from `firstId`. */
  function AddedCategories(cats: seq<Category>, rows: seq<seq<string>>, firstId: nat): seq<Category>
    requires CategoryCellPresent(rows)
  {
    NewCategories(AddCategoryTitles(cats, rows), firstId)
  }

  /** The transactions the import saves, after the new categories: each row
      is bound to the first category with its name among the new categories
      followed by the fetched ones (`[...newCategories, ...existentCategories]`). */
  function ImportedTransactions(cats: seq<Category>, rows: seq<seq<string>>, firstId: nat): seq<Transaction>
    requires CategoryCellPresent(rows)
  {
    var added := AddedCategories(cats, rows, firstId);
    Stamped(Materialise(KeptRows(rows), added + ExistingCategories(cats, rows)), firstId + |added|)
  }

  /** One transaction per kept row, in row order, with the row's title, type
      and value; the `find` never comes back empty: every transaction is
      bound to a category of the updated store whose title is the row's
      category name; and every new category was saved before (has a smaller
      identifier than) every new transaction. */
  lemma ImportedTransactionsSpec(cats: seq<Category>, rows: seq<seq<string>>, firstId: nat)
    requires CategoryCellPresent(rows)
    ensures var added := AddedCategories(cats, rows, firstId);
            var kept := KeptRows(rows);
            var created := ImportedTransactions(cats, rows, firstId);
            && |created| == |kept|
            && (forall k | 0 <= k < |kept| ::
                  && created[k].title == kept[k].title && created[k].kind == kept[k].kind
                  && created[k].value == Text(kept[k].value)
                  && created[k].category.Some?
                  && created[k].category.value.title == kept[k].category
                  && created[k].category.value in cats + added)
            && (forall i, k | 0 <= i < |added| && 0 <= k < |created| :: added[i].id < created[k].id)
  {
    var added := AddedCategories(cats, rows, firstId);
    var existing := ExistingCategories(cats, rows);
    var kept := KeptRows(rows);
    var names := CategoryNames(kept);
    AddCategoryTitlesSpec(cats, rows);
    forall k | 0 <= k < |kept|
      ensures FindByTitle(added + existing, kept[k].category).Some?
      ensures FindByTitle(added + existing, kept[k].category).value in cats + added
    {
      var x := kept[k].category;
      assert names[k] == x;
      FindByTitleAppend(added, existing, x);
      var found := FindByTitle(added + existing, x);
      if found.Some? {
        var i :| 0 <= i < |added + existing| && (added + existing)[i] == found.value;
        if i >= |added| { assert existing[i - |added|] in cats; }
      }
    }
  }

  /** Importing the same rows a second time creates no category: after the
      first import every category name of a kept row is a stored title. */
  lemma ReimportCreatesNoCategories(cats: seq<Category>, rows: seq<seq<string>>, firstId: nat)
    requires CategoryCellPresent(rows)
    ensures AddCategoryTitles(cats + AddedCategories(cats, rows, firstId), rows) == []
  {
    var after := cats + AddedCategories(cats, rows, firstId);
    AddCategoryTitlesSpec(cats, rows);
    AddCategoryTitlesSpec(after, rows);
    var again := AddCategoryTitles(after, rows);
    assert Titles(after) == Titles(cats) + AddCategoryTitles(cats, rows);
  }

  /** When stored category titles are unique, they stay unique after the
      import's categories are added. */
  lemma ImportKeepsTitlesUnique(cats: seq<Category>, rows: seq<seq<string>>, firstId: nat)
    requires CategoryCellPresent(rows)
    requires UniqueTitles(cats)
    ensures UniqueTitles(cats + AddedCategories(cats, rows, firstId))
  {
    var added := AddedCategories(cats, rows, firstId);
    var all := cats + added;
    AddCategoryTitlesSpec(cats, rows);
    forall i, j | 0 <= i < j < |all| ensures all[i].title != all[j].title {
      if j >= |cats| {
        assert all[j].title == AddCategoryTitles(cats, rows)[j - |cats|];
        if i >= |cats| {
          assert all[i].title == AddCategoryTitles(cats, rows)[i - |cats|];
        } else {
          assert Titles(cats)[i] == all[i].title;
        }
      }
    }
  }

  /** A row of four cells none of which is padded, the first three
      non-empty, is kept as it is. */
  lemma KeepsUnpaddedRow(cells: seq<string>)
    requires |cells| == 4
    requires forall k | 0 <= k < 4 :: cells[k] == [] || (!IsWhitespace(cells[k][0]) && !IsWhitespace(cells[k][|cells[k]| - 1]))
    requires cells[0] != [] && cells[1] != [] && cells[2] != []
    ensures Keeps(cells) && Parse(cells) == CsvRow(cells[0], cells[1], cells[2], cells[3])
  {
    TrimKeepsUnpadded(cells[0]);
    TrimKeepsUnpadded(cells[1]);
    TrimKeepsUnpadded(cells[2]);
    TrimKeepsUnpadded(cells[3]);
  }

  /** The category names "Job" and "Housing", none stored yet, are both
      missing, in that order. */
  lemma JobAndHousingMissing()
    ensures MissingTitles(["Job", "Housing"], []) == ["Job", "Housing"]
  {
    var names := ["Job", "Housing"];
    assert names[1..] == ["Housing"] && names[1..][1..] == [];
    assert Absent(names, []) == names;
    FirstOccurrencesIsDedup(names);
    assert names[..1] == ["Job"];
  }

  /** A three-row file whose last row has no title, imported into an empty
      store: the third row is dropped, two categories ("Job", "Housing") and
      two transactions are saved. */
  lemma SalaryAndRentScenario()
    ensures var rows := [["Salary", "income", "5000", "Job"],
                         ["Rent", "outcome", "1200", "Housing"],
                         ["", "outcome", "50", "Housing"]];
            && CategoryCellPresent(rows)
            && Titles(AddedCategories([], rows, 0)) == ["Job", "Housing"]
            && |ImportedTransactions([], rows, 0)| == 2
  {
    var salary, rent, untitled := ["Salary", "income", "5000", "Job"], ["Rent", "outcome", "1200", "Housing"], ["", "outcome", "50", "Housing"];
    KeepsUnpaddedRow(salary);
    KeepsUnpaddedRow(rent);
    assert !Keeps(untitled);
    var rows := [salary, rent, untitled];
    assert CategoryCellPresent(rows);
    assert KeptRowsUpTo(rows, 1) == [CsvRow("Salary", "income", "5000", "Job")];
    assert KeptRowsUpTo(rows, 2) == [CsvRow("Salary", "income", "5000", "Job"), CsvRow("Rent", "outcome", "1200", "Housing")];
    assert KeptRows(rows) == KeptRowsUpTo(rows, 2);
    assert CategoryNames(KeptRows(rows)) == ["Job", "Housing"];
    JobAndHousingMissing();
  }

  /** The whole service: collect the rows, fetch the existing categories,
      create the missing ones, then save one transaction per kept row. */
  method Execute(store: Store, rows: seq<seq<string>>) returns (created: seq<Transaction>)
    requires store.Valid()
    requires CategoryCellPresent(rows)
    modifies store
    ensures store.Valid()
    ensures store.categories == old(store.categories) + AddedCategories(old(store.categories), rows, old(store.nextId))
    ensures created == ImportedTransactions(old(store.categories), rows, old(store.nextId))
    ensures store.transactions == old(store.transactions) + created
    ensures store.nextId == old(store.nextId) + |AddedCategories(old(store.categories), rows, old(store.nextId))| + |created|
  {
    var transactions, categories := CollectRows(rows);
    assert categories == CategoryNames(transactions);

    var existentCategories := WithTitleIn(store.categories, categories);
    var existentCategoriesTitles := Titles(existentCategories);
    var addCategoryTitles := MissingTitles(categories, existentCategoriesTitles);

    var newCategories := store.SaveCategories(addCategoryTitles);
    var finalCategories := newCategories + existentCategories;

    created := store.SaveTransactions(Materialise(transactions, finalCategories));
  }
}
