/**
 * The two text normalisations `load_transactions` applies before parsing:
 * trimming the column names and removing the thousands separators from the
 * amount text. Parsing the amount and the date is not part of this model.
 */
module Loading {
  import opened Seqs
  import opened Text

  /** `[col.strip() for col in df.columns]` */
  function TrimColumns(cols: seq<string>): seq<string> {
    seq(|cols|, i requires 0 <= i < |cols| => Strip(cols[i]))
  }

  /** Every column name keeps its place and loses exactly its padding: the
      trimmed name neither starts nor ends with whitespace, and the original
      is the trimmed name with whitespace only added on either side. */
  lemma TrimColumnsSpec(cols: seq<string>)
    ensures |TrimColumns(cols)| == |cols|
    ensures forall i :: 0 <= i < |cols| ==> Unpadded(TrimColumns(cols)[i])
    ensures forall i :: 0 <= i < |cols| ==> PaddedFrom(cols[i], TrimColumns(cols)[i])
  {
    forall i | 0 <= i < |cols|
      ensures Unpadded(TrimColumns(cols)[i]) && PaddedFrom(cols[i], TrimColumns(cols)[i])
    {
      StripPadded(cols[i]);
    }
  }

  /** Trimming the column names a second time changes nothing, so every
      name is already in its looked-up form. */
  lemma TrimColumnsIdempotent(cols: seq<string>)
    ensures TrimColumns(TrimColumns(cols)) == TrimColumns(cols)
  {
    forall i | 0 <= i < |cols|
      ensures Strip(Strip(cols[i])) == Strip(cols[i])
    {
      StripIdempotent(cols[i]);
    }
  }

  /** A header exported with stray spaces is found under its plain name. */
  lemma PaddedHeaderExample()
    ensures TrimColumns(["Date ", " Amount"]) == ["Date", "Amount"]
  {
    assert TrimEnd("Date ") == "Date" by {
      assert "Date "[..4] == "Date";
    }
    assert TrimStart(" Amount") == "Amount" by {
      assert " Amount"[1..] == "Amount";
    }
  }

  /** `s.replace(",", "")` */
  function RemoveCommas(s: string): (r: string)
    ensures ',' !in r
    ensures IsSubsequence(r, s)
    ensures forall c :: c != ',' ==> multiset(r)[c] == multiset(s)[c]
    decreases |s|
  {
    if |s| == 0 then []
    else
      var rest := RemoveCommas(s[1..]);
      assert s == [s[0]] + s[1..];
      if s[0] == ',' then rest
      else
        var r := [s[0]] + rest;
        assert r[1..] == rest;
        r
  }

  /** Text without commas is left as it is; in particular removing commas
      twice is removing them once. */
  lemma {:induction false} RemoveCommasNoop(s: string)
    requires ',' !in s
    ensures RemoveCommas(s) == s
    decreases |s|
  {
    if |s| > 0 {
      RemoveCommasNoop(s[1..]);
    }
  }

  /** Commas are removed independently in each part of a text. */
  lemma {:induction false} RemoveCommasAppend(a: string, b: string)
    ensures RemoveCommas(a + b) == RemoveCommas(a) + RemoveCommas(b)
    decreases |a|
  {
    if |a| > 0 {
      assert (a + b)[1..] == a[1..] + b;
      RemoveCommasAppend(a[1..], b);
    } else {
      assert a + b == b;
    }
  }

  lemma AmountExample()
    ensures RemoveCommas("1,234.50") == "1234.50"
  {
    RemoveCommasAppend("1,", "234.50");
    RemoveCommasNoop("234.50");
  }
}
