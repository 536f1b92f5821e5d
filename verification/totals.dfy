/**
 * The expense summary: `groupby("Category")["Amount"].sum()` over the debit
 * rows, sorted by amount in descending order.
 */
module Totals {
  import opened Transactions

  /** One line of the summary table. */
  datatype Total = Total(category: string, amount: int)

  /** Sum of the amounts of the rows filed under `c`. */
  function SumFor(rows: seq<Transaction>, c: string): int
    decreases |rows|
  {
    if |rows| == 0 then 0
    else SumFor(rows[..|rows| - 1], c)
         + (if rows[|rows| - 1].category == c then rows[|rows| - 1].amount else 0)
  }

  /** Sum of all the amounts. */
  function TotalAmount(rows: seq<Transaction>): int
    decreases |rows|
  {
    if |rows| == 0 then 0 else TotalAmount(rows[..|rows| - 1]) + rows[|rows| - 1].amount
  }

  /** The categories occurring among the rows. */
  function CategorySet(rows: seq<Transaction>): set<string>
    decreases |rows|
  {
    if |rows| == 0 then {} else CategorySet(rows[..|rows| - 1]) + {rows[|rows| - 1].category}
  }

  /** The categories that have a line in the table. */
  function Keys(g: seq<Total>): set<string>
    decreases |g|
  {
    if |g| == 0 then {} else {g[0].category} + Keys(g[1..])
  }

  /** No category has two lines. */
  predicate NoDupKeys(g: seq<Total>)
    decreases |g|
  {
    |g| == 0 || (g[0].category !in Keys(g[1..]) && NoDupKeys(g[1..]))
  }

  function Sum(g: seq<Total>): int
    decreases |g|
  {
    if |g| == 0 then 0 else g[0].amount + Sum(g[1..])
  }

  /** The amount of the first line for `c`, or 0 when there is none. */
  function Get(g: seq<Total>, c: string): int
    decreases |g|
  {
    if |g| == 0 then 0 else if g[0].category == c then g[0].amount else Get(g[1..], c)
  }

  /** Each line's amount is at least the next one's. */
  predicate Descending(g: seq<Total>)
    decreases |g|
  {
    |g| <= 1 || (g[0].amount >= g[1].amount && Descending(g[1..]))
  }

  /** Adds `a` to the line for `c`, opening a new line at the end when there
      is none. */
  function Accumulate(g: seq<Total>, c: string, a: int): (r: seq<Total>)
    ensures Keys(r) == Keys(g) + {c}
    ensures NoDupKeys(g) ==> NoDupKeys(r)
    ensures Sum(r) == Sum(g) + a
    ensures forall k :: Get(r, k) == Get(g, k) + (if k == c then a else 0)
    decreases |g|
  {
    if |g| == 0 then
      [Total(c, a)]
    else if g[0].category == c then
      var r := [Total(c, g[0].amount + a)] + g[1..];
      assert r[1..] == g[1..];
      r
    else
      var r := [g[0]] + Accumulate(g[1..], c, a);
      assert r[1..] == Accumulate(g[1..], c, a);
      r
  }

  /** The grouped sums, one line per category, before sorting. */
  function Group(rows: seq<Transaction>): (r: seq<Total>)
    ensures NoDupKeys(r)
    ensures Keys(r) == CategorySet(rows)
    ensures forall c :: Get(r, c) == SumFor(rows, c)
    ensures Sum(r) == TotalAmount(rows)
    decreases |rows|
  {
    if |rows| == 0 then []
    else Accumulate(Group(rows[..|rows| - 1]), rows[|rows| - 1].category, rows[|rows| - 1].amount)
  }

  /** In a table without repeated categories, every line holds the amount
      `Get` finds for its category. */
  lemma {:induction false} GetFindsLine(g: seq<Total>, x: Total)
    requires NoDupKeys(g) && x in g
    ensures Get(g, x.category) == x.amount
    decreases |g|
  {
    if g[0] != x {
      assert x in g[1..];
      KeysHas(g[1..], x);
      GetFindsLine(g[1..], x);
    }
  }

  lemma {:induction false} KeysHas(g: seq<Total>, x: Total)
    requires x in g
    ensures x.category in Keys(g)
    decreases |g|
  {
    if g[0] != x {
      assert x in g[1..];
      KeysHas(g[1..], x);
    }
  }

  /** Inserts `t` before the first line whose amount is not larger. */
  function Insert(t: Total, g: seq<Total>): (r: seq<Total>)
    ensures |r| == |g| + 1 && |r| > 0
    ensures r[0] == t || (|g| > 0 && r[0] == g[0])
    ensures multiset(r) == multiset(g) + multiset{t}
    ensures Descending(g) ==> Descending(r)
    decreases |g|
  {
    if |g| == 0 || t.amount >= g[0].amount then
      var r := [t] + g;
      assert r[1..] == g;
      r
    else
      var rest := Insert(t, g[1..]);
      var r := [g[0]] + rest;
      assert r[1..] == rest;
      assert g == [g[0]] + g[1..];
      r
  }

  /** Inserting a line adds its category and its amount to the table, and
      adds no repeat when its category is new. */
  lemma {:induction false} InsertKeeps(t: Total, g: seq<Total>)
    ensures Keys(Insert(t, g)) == Keys(g) + {t.category}
    ensures Sum(Insert(t, g)) == Sum(g) + t.amount
    ensures NoDupKeys(g) && t.category !in Keys(g) ==> NoDupKeys(Insert(t, g))
    decreases |g|
  {
    var r := Insert(t, g);
    if |g| == 0 || t.amount >= g[0].amount {
      assert r[1..] == g;
    } else {
      InsertKeeps(t, g[1..]);
      assert r[1..] == Insert(t, g[1..]);
    }
  }

  /** Insertion sort by descending amount: a permutation of its input. */
  function SortDescending(g: seq<Total>): (r: seq<Total>)
    ensures multiset(r) == multiset(g)
    ensures Descending(r)
    decreases |g|
  {
    if |g| == 0 then []
    else
      assert g == [g[0]] + g[1..];
      Insert(g[0], SortDescending(g[1..]))
  }

  /** Sorting keeps the table's categories and its sum, and adds no repeat. */
  lemma {:induction false} SortKeeps(g: seq<Total>)
    ensures Keys(SortDescending(g)) == Keys(g)
    ensures Sum(SortDescending(g)) == Sum(g)
    ensures NoDupKeys(g) ==> NoDupKeys(SortDescending(g))
    decreases |g|
  {
    if |g| > 0 {
      var rest := SortDescending(g[1..]);
      assert SortDescending(g) == Insert(g[0], rest);
      SortKeeps(g[1..]);
      InsertKeeps(g[0], rest);
      assert Keys(g) == {g[0].category} + Keys(g[1..]);
      assert Sum(g) == g[0].amount + Sum(g[1..]);
    }
  }

  /** The recursive `Descending` is the usual ordering by position. */
  lemma {:induction false} DescendingByIndex(g: seq<Total>, i: nat, j: nat)
    requires Descending(g) && i <= j < |g|
    ensures g[i].amount >= g[j].amount
    decreases j
  {
    if i < j {
      if i == 0 {
        DescendingByIndex(g[1..], 0, j - 1);
      } else {
        DescendingByIndex(g[1..], i - 1, j - 1);
      }
    }
  }

  /**
   * The summary table: exactly one line per category occurring among the
   * debit rows, each holding the sum of those rows' amounts, ordered by
   * non-increasing amount, and adding up to the total debit amount. (The
   * order among equal amounts is not specified.)
   */
  function CategoryTotals(debits: seq<Transaction>): (r: seq<Total>)
    ensures NoDupKeys(r)
    ensures Keys(r) == CategorySet(debits)
    ensures forall i :: 0 <= i < |r| ==> r[i].amount == SumFor(debits, r[i].category)
    ensures forall i, j :: 0 <= i < j < |r| ==> r[i].amount >= r[j].amount
    ensures Sum(r) == TotalAmount(debits)
  {
    var g := Group(debits);
    var r := SortDescending(g);
    SortKeeps(g);
    forall i | 0 <= i < |r|
      ensures r[i].amount == SumFor(debits, r[i].category)
    {
      assert r[i] in multiset(g);
      GetFindsLine(g, r[i]);
    }
    forall i, j | 0 <= i < j < |r|
      ensures r[i].amount >= r[j].amount
    {
      DescendingByIndex(r, i, j);
    }
    r
  }

  /** Every category that occurs among the debit rows has its line, holding
      the sum of that category's debit amounts. */
  lemma TotalsOfDebits(batch: seq<Transaction>, c: string)
    requires c in CategorySet(Debits(batch))
    ensures var r := CategoryTotals(Debits(batch));
            exists i :: 0 <= i < |r| && r[i].category == c && r[i].amount == SumFor(Debits(batch), c)
  {
    var r := CategoryTotals(Debits(batch));
    KeysHasIndex(r, c);
  }

  lemma {:induction false} KeysHasIndex(g: seq<Total>, c: string)
    requires c in Keys(g)
    ensures exists i :: 0 <= i < |g| && g[i].category == c
    decreases |g|
  {
    if g[0].category != c {
      KeysHasIndex(g[1..], c);
      var i :| 0 <= i < |g[1..]| && g[1..][i].category == c;
      assert g[i + 1].category == c;
    }
  }
}
