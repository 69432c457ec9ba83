/** An in-memory stand-in for the two TypeORM repositories the services use:
    the category table, the transaction table, and the identifier generator
    that `save` draws on. */
module Repository {
  import opened Entities

  /** The categories `save` gives to freshly created records with the given
      titles, numbered from `firstId` in order. */
  function NewCategories(titles: seq<string>, firstId: nat): (r: seq<Category>)
    ensures |r| == |titles| && Titles(r) == titles
  {
    seq(|titles|, k requires 0 <= k < |titles| => Category(firstId + k, titles[k]))
  }

  /** The transactions `save` makes of the drafts, numbered from `firstId` in
      order. */
  function Stamped(drafts: seq<Draft>, firstId: nat): (r: seq<Transaction>)
    ensures |r| == |drafts|
  {
    seq(|drafts|, k requires 0 <= k < |drafts| =>
      Transaction(firstId + k, drafts[k].title, drafts[k].kind, drafts[k].value, drafts[k].category))
  }

  predicate IncreasingCategoryIds(cats: seq<Category>, bound: nat)
  {
    && (forall i | 0 <= i < |cats| :: cats[i].id < bound)
    && (forall i, j | 0 <= i < j < |cats| :: cats[i].id < cats[j].id)
  }

  predicate IncreasingTransactionIds(txs: seq<Transaction>, bound: nat)
  {
    && (forall i | 0 <= i < |txs| :: txs[i].id < bound)
    && (forall i, j | 0 <= i < j < |txs| :: txs[i].id < txs[j].id)
  }

  class Store {
    var categories: seq<Category>
    var transactions: seq<Transaction>
    var nextId: nat

    /** Identifiers are handed out by one counter, so in each table they
        increase in the order of saving and stay below the counter. */
    ghost predicate Valid()
      reads this
    {
      IncreasingCategoryIds(categories, nextId) && IncreasingTransactionIds(transactions, nextId)
    }

    constructor ()
      ensures Valid()
      ensures categories == [] && transactions == [] && nextId == 0
    {
      categories, transactions, nextId := [], [], 0;
    }

    /** `categoryRepository.save(records)`: appends one category per title,
        in order, each with a fresh identifier. */
    method SaveCategories(titles: seq<string>) returns (saved: seq<Category>)
      requires Valid()
      modifies this
      ensures Valid()
      ensures saved == NewCategories(titles, old(nextId))
      ensures categories == old(categories) + saved
      ensures transactions == old(transactions)
      ensures nextId == old(nextId) + |titles|
    {
      saved := NewCategories(titles, nextId);
      categories := categories + saved;
      nextId := nextId + |titles|;
    }

    /** `transactionRepository.save(records)`: appends the drafts, in order,
        each with a fresh identifier. */
    method SaveTransactions(drafts: seq<Draft>) returns (saved: seq<Transaction>)
      requires Valid()
      modifies this
      ensures Valid()
      ensures saved == Stamped(drafts, old(nextId))
      ensures transactions == old(transactions) + saved
      ensures categories == old(categories)
      ensures nextId == old(nextId) + |drafts|
    {
      saved := Stamped(drafts, nextId);
      transactions := transactions + saved;
      nextId := nextId + |drafts|;
    }
  }
}
