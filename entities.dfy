/** The records the two services read and write, and the ways they look
    categories up: by one title (`findOne`, `Array.prototype.find`) and by a
    list of titles (`find` with an `In` condition). */
module Entities {
  import opened Wrappers

  /** A persisted category; `id` is the identifier the store assigns on save. */
  datatype Category = Category(id: nat, title: string)

  /** A transaction's amount: the single-transaction service passes a number,
      while the import passes the trimmed CSV cell through untouched. */
  datatype Amount = Number(n: int) | Text(raw: string)

  /** A persisted transaction (`kind` is the source's `type` field). The
      category reference is optional because the import's `find` may in
      principle return `undefined`. */
  datatype Transaction = Transaction(id: nat, title: string, kind: string, value: Amount, category: Option<Category>)

  /** A transaction built by `create` and not yet saved: it has no id. */
  datatype Draft = Draft(title: string, kind: string, value: Amount, category: Option<Category>)

  function Titles(cats: seq<Category>): (r: seq<string>)
    ensures |r| == |cats|
    ensures forall k | 0 <= k < |cats| :: r[k] == cats[k].title
  {
    seq(|cats|, k requires 0 <= k < |cats| => cats[k].title)
  }

  predicate UniqueTitles(cats: seq<Category>)
  {
    forall i, j | 0 <= i < j < |cats| :: cats[i].title != cats[j].title
  }

  /** The first category whose title equals `title`, or None when there is
      none. */
  function FindByTitle(cats: seq<Category>, title: string): (r: Option<Category>)
    ensures r.None? <==> title !in Titles(cats)
    ensures r.Some? ==> exists i | 0 <= i < |cats| ::
                          && cats[i] == r.value && r.value.title == title
                          && forall j | 0 <= j < i :: cats[j].title != title
  {
    if cats == [] then None
    else if cats[0].title == title then Some(cats[0])
    else
      var r := FindByTitle(cats[1..], title);
      assert Titles(cats) == [cats[0].title] + Titles(cats[1..]);
      if r.Some? then
        var i :| 0 <= i < |cats[1..]| && cats[1..][i] == r.value && r.value.title == title
                 && forall j | 0 <= j < i :: cats[1..][j].title != title;
        assert cats[i + 1] == r.value;
        assert forall j | 0 <= j < i + 1 :: cats[j].title != title by {
          forall j | 0 <= j < i + 1 ensures cats[j].title != title {
            if j > 0 { assert cats[j] == cats[1..][j - 1]; }
          }
        }
        r
      else r
  }

  /** Looking up in a concatenation looks in the first part, then in the
      second. */
  lemma {:induction false} FindByTitleAppend(a: seq<Category>, b: seq<Category>, title: string)
    ensures FindByTitle(a + b, title) == if FindByTitle(a, title).Some? then FindByTitle(a, title) else FindByTitle(b, title)
  {
    if a == [] {
      assert a + b == b;
    } else if a[0].title != title {
      assert (a + b)[0] == a[0];
      assert (a + b)[1..] == a[1..] + b;
      FindByTitleAppend(a[1..], b, title);
    }
  }

  /** The categories of the store whose title is among `titles`, in store
      order: `find({ where: { title: In(titles) } })`. */
  function WithTitleIn(cats: seq<Category>, titles: seq<string>): (r: seq<Category>)
    ensures |r| <= |cats|
    ensures forall c :: c in r <==> c in cats && c.title in titles
  {
    if cats == [] then []
    else
      var rest := WithTitleIn(cats[1..], titles);
      assert forall c :: c in cats <==> c == cats[0] || c in cats[1..];
      if cats[0].title in titles then [cats[0]] + rest else rest
  }
}
