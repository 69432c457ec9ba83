/** `CreateTransactionService.execute`: one income or outcome transaction.
    An outcome larger than the current balance is refused; otherwise the
    category is looked up by title, created when missing, and the
    transaction is saved bound to it. The balance itself is computed by a
    repository that is not part of this model and comes in as `total`. */
module CreateTransaction {
  import opened Wrappers
  import opened Entities
  import opened Repository

  /** The `AppError` the service throws ('You do not have enough balance'). */
  datatype AppError = InsufficientBalance

  /** The balance guard: only an outcome strictly larger than the balance is
      refused, so an income always passes and an outcome may spend the whole
      balance. */
  function Admits(kind: string, value: int, total: int): (ok: bool)
    ensures kind == "income" ==> ok
    ensures kind == "outcome" ==> (ok <==> value <= total)
  {
    !(kind == "outcome" && value > total)
  }

  /** The category a new transaction is bound to, and the categories created
      for it. The resolved category carries the requested title. When the
      title is stored, nothing is created and the first stored category with
      it is used; when it is not, exactly one category with that title is
      created, with the next identifier, and used. */
  function ResolveCategory(cats: seq<Category>, title: string, freshId: nat): (r: (Category, seq<Category>))
    ensures r.0.title == title
    ensures title in Titles(cats) <==> r.1 == []
    ensures title in Titles(cats) ==>
              exists i | 0 <= i < |cats| :: cats[i] == r.0 && forall j | 0 <= j < i :: cats[j].title != title
    ensures title !in Titles(cats) ==> r.1 == [r.0] && r.0.id == freshId
  {
    match FindByTitle(cats, title)
    case Some(c) => (c, [])
    case None => (Category(freshId, title), [Category(freshId, title)])
  }

  /** Two transactions created one after the other with the same category
      name share one category: the second resolution finds the category the
      first one used and creates nothing. */
  lemma ResolveTwiceSharesCategory(cats: seq<Category>, title: string, firstId: nat, secondId: nat)
    ensures var (first, added) := ResolveCategory(cats, title, firstId);
            var (second, addedAgain) := ResolveCategory(cats + added, title, secondId);
            second == first && addedAgain == []
  {
    var (first, added) := ResolveCategory(cats, title, firstId);
    FindByTitleAppend(cats, added, title);
  }

  /** When stored category titles are unique, they stay unique after a
      category is resolved for a new transaction. */
  lemma ResolveKeepsTitlesUnique(cats: seq<Category>, title: string, freshId: nat)
    requires UniqueTitles(cats)
    ensures UniqueTitles(cats + ResolveCategory(cats, title, freshId).1)
  {
    var all := cats + ResolveCategory(cats, title, freshId).1;
    forall i, j | 0 <= i < j < |all| ensures all[i].title != all[j].title {
      if j >= |cats| {
        assert Titles(cats)[i] == all[i].title;
      }
    }
  }

  /** The whole service. On refusal the store is untouched; on success the
      store gains at most the one category resolution creates and exactly one
      transaction with the request's title, type and value, bound to the
      resolved category. */
  method Execute(store: Store, total: int, title: string, kind: string, value: int, category: string)
    returns (r: Result<Transaction, AppError>)
    requires store.Valid()
    modifies store
    ensures store.Valid()
    ensures r.Failure? <==> !Admits(kind, value, total)
    ensures r.Failure? ==> r.error == InsufficientBalance && unchanged(store)
    ensures r.Success? ==>
              var (resolved, added) := ResolveCategory(old(store.categories), category, old(store.nextId));
              && store.categories == old(store.categories) + added
              && r.value == Transaction(old(store.nextId) + |added|, title, kind, Number(value), Some(resolved))
              && store.transactions == old(store.transactions) + [r.value]
              && store.nextId == old(store.nextId) + |added| + 1
  {
    if !Admits(kind, value, total) {
      return Failure(InsufficientBalance);
    }

    var transactionCategory := FindByTitle(store.categories, category);
    if transactionCategory.None? {
      var saved := store.SaveCategories([category]);
      transactionCategory := Some(saved[0]);
    }

    var saved := store.SaveTransactions([Draft(title, kind, Number(value), transactionCategory)]);
    r := Success(saved[0]);
  }
}
