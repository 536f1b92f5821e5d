/**
 * The Apply-Changes loop of the expenses tab: each edited debit row whose
 * category differs from the current one takes the new category, and its
 * details text is offered to `add_keyword_to_category` for that category.
 */
module Learner {
  import opened Text
  import opened Categories
  import opened Transactions
  import opened Classifier

  /** The two columns of an edited row that the loop reads. */
  datatype EditedRow = EditedRow(details: string, category: string)

  /** The state the loop updates: the category store and the debit rows. */
  datatype Session = Session(store: Store, debits: seq<Transaction>)

  /** One edited row per debit row, each naming a category of the store. The
      model assumes this of every row; a cleared category cell or a row's
      unchanged category missing from the store falls outside it. */
  predicate ValidEdits(store: Store, debits: seq<Transaction>, edits: seq<EditedRow>) {
    && |edits| == |debits|
    && forall i :: 0 <= i < |edits| ==> Has(store, edits[i].category)
  }

  /** Row `i` is a real correction: its edited category differs. */
  predicate Corrected(debits: seq<Transaction>, edits: seq<EditedRow>, i: nat)
    requires i < |debits| && i < |edits|
  {
    edits[i].category != debits[i].category
  }

  /** Row `i` is a correction whose details are not blank: the loop files
      its stripped details under the new category. */
  predicate Teaches(debits: seq<Transaction>, edits: seq<EditedRow>, i: nat)
    requires i < |debits| && i < |edits|
  {
    Corrected(debits, edits, i) && Strip(edits[i].details) != []
  }

  /** One iteration of the loop, for row `i`; the store keeps its names. */
  function Step(st: Session, edits: seq<EditedRow>, i: nat): (r: Session)
    requires i < |edits| == |st.debits| && Has(st.store, edits[i].category)
    ensures SameNames(r.store, st.store) && |r.debits| == |st.debits|
  {
    if edits[i].category == st.debits[i].category then st
    else
      Session(AddKeyword(st.store, edits[i].category, edits[i].details).store,
              st.debits[i := st.debits[i].(category := edits[i].category)])
  }

  /** One iteration: a row already in its edited category changes nothing;
      otherwise that row alone takes the edited category, every other row
      is left as it was, and the details are offered to the edited category. */
  lemma StepSpec(st: Session, edits: seq<EditedRow>, i: nat)
    requires i < |edits| == |st.debits| && Has(st.store, edits[i].category)
    ensures var r := Step(st, edits, i);
      && (edits[i].category == st.debits[i].category ==> r == st)
      && r.debits[i] == st.debits[i].(category := edits[i].category)
      && (forall j :: 0 <= j < |st.debits| && j != i ==> r.debits[j] == st.debits[j])
      && (edits[i].category != st.debits[i].category ==>
            r.store == AddKeyword(st.store, edits[i].category, edits[i].details).store)
  {
  }

  /** The first `k` iterations of the loop. */
  function ApplyFirst(store: Store, debits: seq<Transaction>, edits: seq<EditedRow>, k: nat): (r: Session)
    requires ValidEdits(store, debits, edits) && k <= |edits|
    ensures |r.debits| == |debits| && SameNames(r.store, store)
    decreases k
  {
    if k == 0 then Session(store, debits)
    else
      var prev := ApplyFirst(store, debits, edits, k - 1);
      SameNamesLocate(store, prev.store, edits[k - 1].category);
      Step(prev, edits, k - 1)
  }

  /** The whole loop: every row ends in its edited category, and the store
      keeps its names. */
  function ApplyChanges(store: Store, debits: seq<Transaction>, edits: seq<EditedRow>): (r: Session)
    requires ValidEdits(store, debits, edits)
    ensures SameNames(r.store, store) && |r.debits| == |debits|
    ensures forall i :: 0 <= i < |debits| ==> r.debits[i] == debits[i].(category := edits[i].category)
  {
    forall i | 0 <= i < |debits|
      ensures ApplyFirst(store, debits, edits, |edits|).debits[i] == debits[i].(category := edits[i].category)
    {
      ApplyFirstRow(store, debits, edits, |edits|, i);
    }
    ApplyFirst(store, debits, edits, |edits|)
  }

  /**
   * The store after the first `k` iterations, read off the rows as they
   * were before the loop: no iteration touches a later row, so row `i` still
   * has its original category when its own iteration comes.
   */
  function Learn(store: Store, debits: seq<Transaction>, edits: seq<EditedRow>, k: nat): (r: Store)
    requires ValidEdits(store, debits, edits) && k <= |edits|
    ensures SameNames(r, store)
    decreases k
  {
    if k == 0 then store
    else
      var prev := Learn(store, debits, edits, k - 1);
      SameNamesLocate(store, prev, edits[k - 1].category);
      if Corrected(debits, edits, k - 1) then
        AddKeyword(prev, edits[k - 1].category, edits[k - 1].details).store
      else
        prev
  }

  /** A keyword the loop has stored for a corrected row. */
  predicate Learned(store: Store, t: Store, debits: seq<Transaction>, edits: seq<EditedRow>, i: nat)
    requires ValidEdits(store, debits, edits) && i < |edits| && |t| == |store|
  {
    Strip(edits[i].details) in t[Locate(store, edits[i].category)].keywords
  }

  /** After the first `k` iterations, a row among them carries its edited
      category and any later row is untouched. */
  lemma {:induction false} ApplyFirstRow(store: Store, debits: seq<Transaction>, edits: seq<EditedRow>, k: nat, i: nat)
    requires ValidEdits(store, debits, edits) && k <= |edits| && i < |edits|
    ensures ApplyFirst(store, debits, edits, k).debits[i]
            == if i < k then debits[i].(category := edits[i].category) else debits[i]
    decreases k
  {
    if k > 0 {
      var prev := ApplyFirst(store, debits, edits, k - 1).debits;
      var cur := ApplyFirst(store, debits, edits, k).debits;
      ApplyFirstRow(store, debits, edits, k - 1, i);
      assert cur == if edits[k - 1].category == prev[k - 1].category then prev
                    else prev[k - 1 := prev[k - 1].(category := edits[k - 1].category)];
    }
  }

  /** The loop's store is the one `Learn` describes. */
  lemma {:induction false} ApplyFirstStore(store: Store, debits: seq<Transaction>, edits: seq<EditedRow>, k: nat)
    requires ValidEdits(store, debits, edits) && k <= |edits|
    ensures ApplyFirst(store, debits, edits, k).store == Learn(store, debits, edits, k)
    decreases k
  {
    if k > 0 {
      ApplyFirstStore(store, debits, edits, k - 1);
      ApplyFirstRow(store, debits, edits, k - 1, k - 1);
      var prev := ApplyFirst(store, debits, edits, k - 1);
      SameNamesLocate(store, prev.store, edits[k - 1].category);
      assert prev.debits[k - 1].category == debits[k - 1].category;
      assert ApplyFirst(store, debits, edits, k).store == Step(prev, edits, k - 1).store;
    }
  }

  /** The keyword lists only grow, at the end. */
  lemma {:induction false} LearnGrows(store: Store, debits: seq<Transaction>, edits: seq<EditedRow>, k: nat, j: nat)
    requires ValidEdits(store, debits, edits) && k <= |edits| && j < |store|
    ensures store[j].keywords <= Learn(store, debits, edits, k)[j].keywords
    decreases k
  {
    if k > 0 {
      LearnGrows(store, debits, edits, k - 1, j);
      var prev := Learn(store, debits, edits, k - 1);
      var c := edits[k - 1].category;
      SameNamesLocate(store, prev, c);
      if Corrected(debits, edits, k - 1) {
        AddKeywordSpec(prev, c, edits[k - 1].details);
      }
    }
  }

  /** A well-formed store stays well formed, so no keyword is ever stored
      twice under one category. */
  lemma {:induction false} LearnWellformed(store: Store, debits: seq<Transaction>, edits: seq<EditedRow>, k: nat)
    requires ValidEdits(store, debits, edits) && k <= |edits| && Wellformed(store)
    ensures Wellformed(Learn(store, debits, edits, k))
    decreases k
  {
    if k > 0 {
      LearnWellformed(store, debits, edits, k - 1);
      var prev := Learn(store, debits, edits, k - 1);
      SameNamesLocate(store, prev, edits[k - 1].category);
      if Corrected(debits, edits, k - 1) {
        AddKeywordWellformed(prev, edits[k - 1].category, edits[k - 1].details);
      }
    }
  }

  /** A corrected row with non-blank details has, once its iteration is
      done, its stripped details among the keywords of its new category. */
  lemma {:induction false} LearnLearns(store: Store, debits: seq<Transaction>, edits: seq<EditedRow>, k: nat, i: nat)
    requires ValidEdits(store, debits, edits) && i < k <= |edits| && Teaches(debits, edits, i)
    ensures Learned(store, Learn(store, debits, edits, k), debits, edits, i)
    decreases k
  {
    var prev := Learn(store, debits, edits, k - 1);
    var c := edits[k - 1].category;
    SameNamesLocate(store, prev, c);
    var loc := Locate(store, edits[i].category);
    if i == k - 1 {
      AddKeywordSpec(prev, c, edits[k - 1].details);
    } else {
      LearnLearns(store, debits, edits, k - 1, i);
      LearnGrows(store, debits, edits, k - 1, loc);
      if Corrected(debits, edits, k - 1) {
        AddKeywordSpec(prev, c, edits[k - 1].details);
        assert prev[loc].keywords <= Learn(store, debits, edits, k)[loc].keywords;
      }
    }
  }

  /** A keyword the first `k` iterations added is the stripped details of a
      corrected row among them whose new category is the one it was added to. */
  lemma {:induction false} LearnProvenance(store: Store, debits: seq<Transaction>, edits: seq<EditedRow>,
                                           k: nat, j: nat, w: string)
    requires ValidEdits(store, debits, edits) && k <= |edits| && j < |store|
    requires w in Learn(store, debits, edits, k)[j].keywords && w !in store[j].keywords
    ensures exists i :: 0 <= i < k && Corrected(debits, edits, i)
                        && edits[i].category == store[j].name && w == Strip(edits[i].details)
    decreases k
  {
    var prev := Learn(store, debits, edits, k - 1);
    var c := edits[k - 1].category;
    SameNamesLocate(store, prev, c);
    if w in prev[j].keywords {
      LearnProvenance(store, debits, edits, k - 1, j, w);
    } else {
      AddKeywordSpec(prev, c, edits[k - 1].details);
      assert Corrected(debits, edits, k - 1) && c == store[j].name;
    }
  }

  /** The whole loop, summing up the lemmas above. */
  lemma ApplyChangesSpec(store: Store, debits: seq<Transaction>, edits: seq<EditedRow>)
    requires ValidEdits(store, debits, edits)
    ensures var r := ApplyChanges(store, debits, edits);
      && (forall i :: 0 <= i < |debits| ==> r.debits[i] == debits[i].(category := edits[i].category))
      && (forall j :: 0 <= j < |store| ==> store[j].keywords <= r.store[j].keywords)
      && (forall i :: 0 <= i < |edits| && Teaches(debits, edits, i) ==>
            Learned(store, r.store, debits, edits, i))
      && (forall j, w :: 0 <= j < |store| && w in r.store[j].keywords && w !in store[j].keywords ==>
            exists i :: 0 <= i < |edits| && Corrected(debits, edits, i)
                        && edits[i].category == store[j].name && w == Strip(edits[i].details))
      && (Wellformed(store) ==> Wellformed(r.store))
  {
    var k := |edits|;
    forall i | 0 <= i < |debits|
      ensures ApplyFirst(store, debits, edits, k).debits[i] == debits[i].(category := edits[i].category)
    {
      ApplyFirstRow(store, debits, edits, k, i);
    }
    ApplyFirstStore(store, debits, edits, k);
    var t := Learn(store, debits, edits, k);
    forall j | 0 <= j < |store|
      ensures store[j].keywords <= t[j].keywords
    {
      LearnGrows(store, debits, edits, k, j);
    }
    if Wellformed(store) {
      LearnWellformed(store, debits, edits, k);
    }
    forall i | 0 <= i < k && Teaches(debits, edits, i)
      ensures Learned(store, t, debits, edits, i)
    {
      LearnLearns(store, debits, edits, k, i);
    }
    forall j, w | 0 <= j < |store| && w in t[j].keywords && w !in store[j].keywords
      ensures exists i :: 0 <= i < k && Corrected(debits, edits, i)
                          && edits[i].category == store[j].name && w == Strip(edits[i].details)
    {
      LearnProvenance(store, debits, edits, k, j, w);
    }
  }

  /** Applying the same edits a second time changes nothing: every row
      already carries its edited category, so every row is skipped. */
  lemma {:induction false} ApplyFirstSettled(st: Session, edits: seq<EditedRow>, k: nat)
    requires ValidEdits(st.store, st.debits, edits) && k <= |edits|
    requires forall i :: 0 <= i < |edits| ==> st.debits[i].category == edits[i].category
    ensures ApplyFirst(st.store, st.debits, edits, k) == st
    decreases k
  {
    if k > 0 {
      ApplyFirstSettled(st, edits, k - 1);
    }
  }

  lemma ApplyChangesIdempotent(store: Store, debits: seq<Transaction>, edits: seq<EditedRow>)
    requires ValidEdits(store, debits, edits)
    ensures var r := ApplyChanges(store, debits, edits);
            ValidEdits(r.store, r.debits, edits) && ApplyChanges(r.store, r.debits, edits) == r
  {
    ApplyChangesSpec(store, debits, edits);
    var r := ApplyChanges(store, debits, edits);
    forall i | 0 <= i < |edits|
      ensures Has(r.store, edits[i].category)
    {
      SameNamesLocate(store, r.store, edits[i].category);
    }
    ApplyFirstSettled(r, edits, |edits|);
  }

  /**
   * What a correction teaches: once a row with non-blank details has been
   * corrected to a category other than "Uncategorized", categorising the
   * same details text with the updated store no longer gives
   * "Uncategorized", and the category it gives is the corrected one or one
   * that comes after it in store order.
   */
  lemma CorrectionTeaches(store: Store, debits: seq<Transaction>, edits: seq<EditedRow>, i: nat)
    requires ValidEdits(store, debits, edits) && i < |edits|
    requires Corrected(debits, edits, i) && Strip(edits[i].details) != []
    requires edits[i].category != Uncategorized
    ensures var r := ApplyChanges(store, debits, edits);
            var d := edits[i].details;
            && LastMatch(r.store, d) != Uncategorized
            && Locate(store, edits[i].category) <= LastHit(r.store, d)
            && r.store[LastHit(r.store, d)].name == LastMatch(r.store, d)
  {
    ApplyChangesSpec(store, debits, edits);
    var r := ApplyChanges(store, debits, edits);
    var d := edits[i].details;
    var loc := Locate(store, edits[i].category);
    var ks := r.store[loc].keywords;
    assert Teaches(debits, edits, i);
    assert Strip(d) in ks;
    var n :| 0 <= n < |ks| && ks[n] == Strip(d);
    KeyOfStripped(d);
    assert Lowered(ks)[n] == Key(d);
    assert Hit(r.store[loc], d);
    LastMatchIsLastHit(r.store, d);
  }
}
