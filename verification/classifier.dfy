/**
 * `categorize_transactions`: every row is reset to "Uncategorized", then the
 * categories are scanned in store order and a row whose key equals the key
 * of one of a category's keywords takes that category, overwriting any
 * earlier assignment. The last matching category therefore wins.
 */
module Classifier {
  import opened Text
  import opened Categories
  import opened Transactions

  /** `[kw.lower().strip() for kw in keywords]` */
  function Lowered(keywords: seq<string>): seq<string> {
    seq(|keywords|, i requires 0 <= i < |keywords| => Key(keywords[i]))
  }

  /** Whole-string, case-insensitive, whitespace-trimmed match. */
  predicate Matches(details: string, keywords: seq<string>) {
    Key(details) in Lowered(keywords)
  }

  /** The scan skips the reserved category and categories without keywords. */
  predicate Eligible(c: Category) {
    c.name != Uncategorized && |c.keywords| > 0
  }

  /** Category `c` claims a row with these details. */
  predicate Hit(c: Category, details: string) {
    Eligible(c) && Matches(details, c.keywords)
  }

  /** The category a row with these details ends with: the name of the last
      category in store order that claims it, or "Uncategorized". */
  function LastMatch(s: Store, details: string): (r: string)
    ensures r == Uncategorized || exists j :: 0 <= j < |s| && Hit(s[j], details) && s[j].name == r
    decreases |s|
  {
    if |s| == 0 then Uncategorized
    else if Hit(s[|s| - 1], details) then s[|s| - 1].name
    else
      var r := LastMatch(s[..|s| - 1], details);
      assert forall j :: 0 <= j < |s| - 1 ==> s[..|s| - 1][j] == s[j];
      r
  }

  /** One more category in the scan either claims the row or leaves it as it was. */
  lemma LastMatchStep(s: Store, k: nat, details: string)
    requires k < |s|
    ensures LastMatch(s[..k + 1], details)
            == if Hit(s[k], details) then s[k].name else LastMatch(s[..k], details)
  {
    assert s[..k + 1][..k] == s[..k];
  }

  /** The categorised batch, stated row by row: every row is kept, in order,
      with every field but the category unchanged, and the category is
      "Uncategorized" or a name from the store. */
  function Classify(rows: seq<Transaction>, s: Store): (r: seq<Transaction>)
    ensures |r| == |rows|
    ensures forall i :: 0 <= i < |rows| ==> r[i].(category := rows[i].category) == rows[i]
    ensures forall i :: 0 <= i < |rows| ==> r[i].category == Uncategorized || Has(s, r[i].category)
  {
    seq(|rows|, i requires 0 <= i < |rows| => rows[i].(category := LastMatch(s, rows[i].details)))
  }

  /** A keyword matches exactly when the two keys are equal. */
  lemma MatchesIff(details: string, keywords: seq<string>)
    ensures Matches(details, keywords) <==> exists k :: k in keywords && Key(k) == Key(details)
  {
    if Matches(details, keywords) {
      var i :| 0 <= i < |keywords| && Lowered(keywords)[i] == Key(details);
      assert keywords[i] in keywords;
    }
    if exists k :: k in keywords && Key(k) == Key(details) {
      var k :| k in keywords && Key(k) == Key(details);
      var i :| 0 <= i < |keywords| && keywords[i] == k;
      assert Lowered(keywords)[i] == Key(details);
    }
  }

  /** The inner loop for one eligible category: every row it claims takes
      its name, every other row is left alone. */
  method ClaimRows(rows: seq<Transaction>, c: Category) returns (out: seq<Transaction>)
    requires Eligible(c)
    ensures |out| == |rows|
    ensures forall i :: 0 <= i < |rows| ==>
              out[i] == if Hit(c, rows[i].details) then rows[i].(category := c.name) else rows[i]
  {
    var lowered := Lowered(c.keywords);
    out := rows;
    var j := 0;
    while j < |out|
      invariant 0 <= j <= |out| && |out| == |rows|
      invariant forall i :: 0 <= i < j ==>
                  out[i] == if Hit(c, rows[i].details) then rows[i].(category := c.name) else rows[i]
      invariant forall i :: j <= i < |rows| ==> out[i] == rows[i]
    {
      var details := Key(out[j].details);
      if details in lowered {
        out := out[j := out[j].(category := c.name)];
      }
      j := j + 1;
    }
  }

  /** The loop as written: reset every row, then let each eligible category
      in store order claim its rows, overwriting earlier claims. */
  method Categorize(rows: seq<Transaction>, s: Store) returns (out: seq<Transaction>)
    ensures |out| == |rows|
    ensures forall i :: 0 <= i < |rows| ==>
              out[i] == rows[i].(category := LastMatch(s, rows[i].details))
  {
    out := [];
    var n := 0;
    while n < |rows|
      invariant 0 <= n <= |rows| && |out| == n
      invariant forall i :: 0 <= i < n ==> out[i] == rows[i].(category := Uncategorized)
    {
      out := out + [rows[n].(category := Uncategorized)];
      n := n + 1;
    }
    var k := 0;
    while k < |s|
      invariant 0 <= k <= |s| && |out| == |rows|
      invariant forall i :: 0 <= i < |rows| ==>
                  out[i] == rows[i].(category := LastMatch(s[..k], rows[i].details))
    {
      var c := s[k];
      forall i | 0 <= i < |rows|
        ensures LastMatch(s[..k + 1], rows[i].details)
                == if Hit(c, rows[i].details) then c.name else LastMatch(s[..k], rows[i].details)
      {
        LastMatchStep(s, k, rows[i].details);
      }
      if c.name != Uncategorized && |c.keywords| != 0 {
        out := ClaimRows(out, c);
      }
      k := k + 1;
    }
    assert s[..|s|] == s;
  }

  /** With no claiming category the row stays "Uncategorized", and only then. */
  lemma {:induction false} LastMatchNone(s: Store, details: string)
    ensures LastMatch(s, details) == Uncategorized
            <==> forall j :: 0 <= j < |s| ==> !Hit(s[j], details)
    decreases |s|
  {
    if |s| > 0 {
      LastMatchNone(s[..|s| - 1], details);
      assert forall j :: 0 <= j < |s| - 1 ==> s[..|s| - 1][j] == s[j];
    }
  }

  /** The last claiming category in store order is the one assigned. */
  lemma {:induction false} LastMatchLastHit(s: Store, details: string, j: nat)
    requires j < |s| && Hit(s[j], details)
    requires forall m :: j < m < |s| ==> !Hit(s[m], details)
    ensures LastMatch(s, details) == s[j].name
    decreases |s|
  {
    if j < |s| - 1 {
      var p := s[..|s| - 1];
      assert p[j] == s[j];
      assert forall m :: j < m < |p| ==> p[m] == s[m];
      LastMatchLastHit(p, details, j);
    }
  }

  /** Position of the last category in store order that claims the row, or
      -1 when none does. */
  function LastHit(s: Store, details: string): (r: int)
    ensures -1 <= r < |s|
    ensures r >= 0 ==> Hit(s[r], details)
    ensures forall m :: r < m < |s| ==> !Hit(s[m], details)
    decreases |s|
  {
    if |s| == 0 then -1
    else if Hit(s[|s| - 1], details) then |s| - 1
    else
      var p := s[..|s| - 1];
      var r := LastHit(p, details);
      assert forall m :: r < m < |p| ==> p[m] == s[m];
      r
  }

  /** The category assigned is the one at the last claiming position. */
  lemma {:induction false} LastMatchIsLastHit(s: Store, details: string)
    ensures LastMatch(s, details)
            == if LastHit(s, details) < 0 then Uncategorized else s[LastHit(s, details)].name
    decreases |s|
  {
    if |s| > 0 && !Hit(s[|s| - 1], details) {
      var p := s[..|s| - 1];
      LastMatchIsLastHit(p, details);
      if LastHit(p, details) >= 0 {
        assert p[LastHit(p, details)] == s[LastHit(p, details)];
      }
    }
  }

  /** Every row is reset before the scan, so the result depends on the
      details only: categorising the categorised batch again changes nothing. */
  lemma ClassifyIdempotent(rows: seq<Transaction>, s: Store)
    ensures Classify(Classify(rows, s), s) == Classify(rows, s)
  {
  }

  /** Stores that agree on which category claims what, and on the names
      involved, categorise alike. */
  lemma {:induction false} LastMatchAgree(s: Store, t: Store, details: string)
    requires SameNames(s, t)
    requires forall j :: 0 <= j < |s| ==> (Hit(s[j], details) <==> Hit(t[j], details))
    ensures LastMatch(s, details) == LastMatch(t, details)
    decreases |s|
  {
    if |s| > 0 {
      var n := |s| - 1;
      assert forall j :: 0 <= j < n ==> s[..n][j] == s[j] && t[..n][j] == t[j];
      LastMatchAgree(s[..n], t[..n], details);
    }
  }

  /** Keywords filed under "Uncategorized" never influence categorisation. */
  lemma UncategorizedKeywordsIgnored(s: Store, keyword: string, details: string)
    requires Has(s, Uncategorized)
    ensures LastMatch(AddKeyword(s, Uncategorized, keyword).store, details) == LastMatch(s, details)
  {
    var t := AddKeyword(s, Uncategorized, keyword).store;
    var u := Locate(s, Uncategorized);
    AddKeywordSpec(s, Uncategorized, keyword);
    assert t[u].name == Uncategorized;
    LastMatchAgree(s, t, details);
  }

  /** Matching is whole-string: "Netflix" matches the keyword "netflix"... */
  lemma ExactMatchExample()
    ensures Matches("Netflix", ["netflix"])
  {
    assert Lower("Netflix") == "netflix";
    assert Strip("netflix") == "netflix";
    assert Lowered(["netflix"]) == ["netflix"];
  }

  /** ... and "Netflix Inc" does not. */
  lemma NoSubstringMatchExample()
    ensures !Matches("Netflix Inc", ["netflix"])
  {
    var l := Lower("Netflix Inc");
    assert l[0] == 'n' && l[|l| - 1] == 'c';
    StripUnpadded(l);
    var m := Lower("netflix");
    assert m[0] == 'n' && m[|m| - 1] == 'x';
    StripUnpadded(m);
    assert Lowered(["netflix"]) == [m];
    assert |l| != |m|;
  }

  /** When two categories claim the same details, the later one wins. */
  lemma LastMatchWinsExample()
    ensures LastMatch([Category("Food", ["tesco"]), Category("Groceries", ["Tesco "])], "TESCO")
            == "Groceries"
  {
    var s := [Category("Food", ["tesco"]), Category("Groceries", ["Tesco "])];
    assert Lower("TESCO") == "tesco";
    assert Strip("tesco") == "tesco";
    assert Lower("Tesco ") == "tesco ";
    assert TrimEnd("tesco ") == "tesco" by {
      assert "tesco "[..5] == "tesco";
    }
    assert Key("Tesco ") == "tesco";
    assert Lowered(["Tesco "]) == ["tesco"];
    assert Hit(s[1], "TESCO");
  }
}
