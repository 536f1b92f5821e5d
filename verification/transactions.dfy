/**
 * A transaction record as the dashboard holds it once the CSV is loaded, and
 * the split of a batch into its Debit and Credit views.
 */
module Transactions {
  import opened Seqs

  /**
   * One row of the loaded statement. `date` is the parsed calendar date as a
   * day number, `amount` is in cents, `flag` is the raw `Debit/Credit`
   * column and `category` the assigned category.
   */
  datatype Transaction = Transaction(
    date: int,
    details: string,
    amount: int,
    flag: string,
    category: string)

  const DebitFlag: string := "Debit"
  const CreditFlag: string := "Credit"

  /** `df[df["Debit/Credit"] == flag]`: the rows whose flag is exactly `flag`,
      in batch order. */
  function Select(rows: seq<Transaction>, flag: string): (r: seq<Transaction>)
    ensures |r| <= |rows|
    ensures forall t :: t in r <==> t in rows && t.flag == flag
    ensures forall t :: multiset(r)[t] == if t.flag == flag then multiset(rows)[t] else 0
  {
    if |rows| == 0 then []
    else
      assert rows == [rows[0]] + rows[1..];
      (if rows[0].flag == flag then [rows[0]] else []) + Select(rows[1..], flag)
  }

  /** `df[df["Debit/Credit"] == "Debit"]`: every debit row, as often as it
      occurs, in batch order, and nothing else. */
  function Debits(rows: seq<Transaction>): (r: seq<Transaction>)
    ensures IsSubsequence(r, rows)
    ensures forall t :: multiset(r)[t] == if t.flag == DebitFlag then multiset(rows)[t] else 0
  {
    SelectIsSubsequence(rows, DebitFlag);
    Select(rows, DebitFlag)
  }

  /** `df[df["Debit/Credit"] == "Credit"]`, likewise for the credit rows. */
  function Credits(rows: seq<Transaction>): (r: seq<Transaction>)
    ensures IsSubsequence(r, rows)
    ensures forall t :: multiset(r)[t] == if t.flag == CreditFlag then multiset(rows)[t] else 0
  {
    SelectIsSubsequence(rows, CreditFlag);
    Select(rows, CreditFlag)
  }

  /** The rows flagged neither Debit nor Credit, which neither view shows. */
  function Others(rows: seq<Transaction>): (r: seq<Transaction>)
    ensures forall t :: t in r <==> t in rows && t.flag != DebitFlag && t.flag != CreditFlag
    ensures forall t :: multiset(r)[t]
                        == if t.flag != DebitFlag && t.flag != CreditFlag then multiset(rows)[t] else 0
  {
    if |rows| == 0 then []
    else
      assert rows == [rows[0]] + rows[1..];
      (if rows[0].flag != DebitFlag && rows[0].flag != CreditFlag then [rows[0]] else [])
      + Others(rows[1..])
  }

  /** A selection keeps the batch order: it is a subsequence of the batch. */
  lemma {:induction false} SelectIsSubsequence(rows: seq<Transaction>, flag: string)
    ensures IsSubsequence(Select(rows, flag), rows)
    decreases |rows|
  {
    if |rows| > 0 {
      SelectIsSubsequence(rows[1..], flag);
      var r := Select(rows, flag);
      if rows[0].flag == flag {
        assert r[1..] == Select(rows[1..], flag);
      } else {
        assert r == Select(rows[1..], flag);
      }
    }
  }

  /** Selecting from a concatenation selects from each part. */
  lemma {:induction false} SelectAppend(a: seq<Transaction>, b: seq<Transaction>, flag: string)
    ensures Select(a + b, flag) == Select(a, flag) + Select(b, flag)
    decreases |a|
  {
    if |a| > 0 {
      assert (a + b)[1..] == a[1..] + b;
      SelectAppend(a[1..], b, flag);
    } else {
      assert a + b == b;
    }
  }

  /** The Debit and Credit views are order-preserving, share no row, and
      together with the remaining rows account for the whole batch. */
  lemma {:induction false} SplitPartitions(rows: seq<Transaction>)
    ensures IsSubsequence(Debits(rows), rows) && IsSubsequence(Credits(rows), rows)
    ensures forall t :: t in Debits(rows) ==> t !in Credits(rows)
    ensures |Debits(rows)| + |Credits(rows)| + |Others(rows)| == |rows|
    decreases |rows|
  {
    SelectIsSubsequence(rows, DebitFlag);
    SelectIsSubsequence(rows, CreditFlag);
    if |rows| > 0 {
      SplitPartitions(rows[1..]);
    }
  }
}
