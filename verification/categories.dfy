/**
 * The category store: an insertion-ordered mapping from category name to its
 * list of keywords, with the two operations that mutate it (adding a category
 * and adding a keyword).
 */
module Categories {
  import opened Text

  /** The reserved catch-all category. */
  const Uncategorized: string := "Uncategorized"

  datatype Category = Category(name: string, keywords: seq<string>)

  /** A dictionary in insertion order; a well-formed store has unique names. */
  type Store = seq<Category>

  /** The store a fresh session starts with. */
  const Initial: Store := [Category(Uncategorized, [])]

  /** `name in categories` */
  predicate Has(s: Store, name: string) {
    exists i :: 0 <= i < |s| && s[i].name == name
  }

  predicate UniqueNames(s: Store) {
    forall i, j :: 0 <= i < j < |s| ==> s[i].name != s[j].name
  }

  predicate NoDup(ks: seq<string>) {
    forall i, j :: 0 <= i < j < |ks| ==> ks[i] != ks[j]
  }

  /** What a dictionary guarantees: unique names; plus what the keyword
      operation keeps: no keyword listed twice under one category. */
  predicate Wellformed(s: Store) {
    && UniqueNames(s)
    && forall i :: 0 <= i < |s| ==> NoDup(s[i].keywords)
  }

  /** Linear search for `name` from position `from` on; `|s|` when absent. */
  function Find(s: Store, name: string, from: nat): (r: nat)
    requires from <= |s|
    ensures from <= r <= |s|
    ensures r < |s| ==> s[r].name == name
    ensures forall j :: from <= j < r ==> s[j].name != name
    decreases |s| - from
  {
    if from == |s| then |s|
    else if s[from].name == name then from
    else Find(s, name, from + 1)
  }

  /** Position of the entry `categories[name]` refers to. */
  function Locate(s: Store, name: string): (r: nat)
    requires Has(s, name)
    ensures r < |s| && s[r].name == name
    ensures forall j :: 0 <= j < r ==> s[j].name != name
  {
    Find(s, name, 0)
  }

  function KeywordsOf(s: Store, name: string): seq<string>
    requires Has(s, name)
  {
    s[Locate(s, name)].keywords
  }

  /** Two stores list the same names in the same order. */
  predicate SameNames(s: Store, t: Store) {
    |s| == |t| && forall j {:trigger s[j].name} {:trigger t[j].name} :: 0 <= j < |s| ==> s[j].name == t[j].name
  }

  /** Lookups agree between stores that list the same names. */
  lemma SameNamesLocate(s: Store, t: Store, name: string)
    requires SameNames(s, t) && Has(s, name)
    ensures Has(t, name) && Locate(t, name) == Locate(s, name)
  {
  }

  /** Result of `add_keyword_to_category`: the new store and whether it changed. */
  datatype Added = Added(store: Store, changed: bool)

  /**
   * `add_keyword_to_category(category, keyword)`: the keyword is stripped and
   * appended when it is non-empty and not already listed, comparing exactly
   * (case-sensitively). A blank keyword is refused before the category is
   * looked up; a non-blank one needs an existing category, since indexing
   * the dictionary with an unknown name raises.
   */
  function AddKeyword(s: Store, category: string, keyword: string): (r: Added)
    requires Strip(keyword) == [] || Has(s, category)
    ensures SameNames(r.store, s)
    ensures Strip(keyword) == [] ==> r == Added(s, false)
  {
    var k := Strip(keyword);
    if k == [] then Added(s, false)
    else
      var i := Locate(s, category);
      if k !in s[i].keywords then
        Added(s[i := Category(category, s[i].keywords + [k])], true)
      else
        Added(s, false)
  }

  /** What `add_keyword_to_category` does: it reports a change exactly when
      the stripped keyword is non-empty and not yet listed under the
      category; it then appends it to that category's list and touches no
      other entry; otherwise the store is returned as it was. */
  lemma AddKeywordSpec(s: Store, category: string, keyword: string)
    requires Has(s, category)
    ensures var r := AddKeyword(s, category, keyword);
      && Has(r.store, category) && Locate(r.store, category) == Locate(s, category)
      && (r.changed <==> Strip(keyword) != [] && Strip(keyword) !in KeywordsOf(s, category))
      && KeywordsOf(r.store, category)
         == KeywordsOf(s, category) + (if r.changed then [Strip(keyword)] else [])
      && (forall j :: 0 <= j < |s| && j != Locate(s, category) ==> r.store[j] == s[j])
      && (!r.changed ==> r.store == s)
  {
  }

  /** Adding a keyword keeps the store well formed: in particular a keyword
      is never listed twice under one category. */
  lemma AddKeywordWellformed(s: Store, category: string, keyword: string)
    requires Has(s, category) && Wellformed(s)
    ensures Wellformed(AddKeyword(s, category, keyword).store)
  {
  }

  /** Repeating the same call changes nothing and reports no change. */
  lemma {:induction false} AddKeywordTwice(s: Store, category: string, keyword: string)
    requires Has(s, category)
    ensures var r := AddKeyword(s, category, keyword);
            var r2 := AddKeyword(r.store, category, keyword);
            !r2.changed && r2.store == r.store
  {
  }

  /**
   * The add-category branch of the dashboard: a non-empty name that is not
   * yet a key gets an empty keyword list at the end of the store. Names made
   * only of whitespace are accepted.
   */
  function AddCategory(s: Store, name: string): (r: Store)
    ensures name != [] ==> Has(r, name)
    ensures Has(s, name) || name == [] ==> r == s
    ensures !Has(s, name) && name != [] ==> |r| == |s| + 1 && r[|s|] == Category(name, [])
    ensures |s| <= |r| && r[..|s|] == s
  {
    if name != [] && !Has(s, name) then
      var r := s + [Category(name, [])];
      assert r[|s|].name == name;
      r
    else
      s
  }

  /** Adding a category keeps the store well formed. */
  lemma AddCategoryWellformed(s: Store, name: string)
    requires Wellformed(s)
    ensures Wellformed(AddCategory(s, name))
  {
  }

  /** Adding the same category twice is the same as adding it once. */
  lemma AddCategoryIdempotent(s: Store, name: string)
    ensures AddCategory(AddCategory(s, name), name) == AddCategory(s, name)
  {
  }

  /** The initial store is well formed and holds the reserved category. */
  lemma InitialWellformed()
    ensures Wellformed(Initial) && Has(Initial, Uncategorized)
  {
    assert Initial[0].name == Uncategorized;
  }

  /** Keyword de-duplication is case-sensitive: "Coffee", "coffee " and
      " COFFEE" become three separate keywords. */
  lemma CaseVariantsAreKept()
    ensures Has([Category("Drinks", [])], "Drinks")
    ensures var s0 := [Category("Drinks", [])];
            var s1 := AddKeyword(s0, "Drinks", "Coffee").store;
            var s2 := AddKeyword(s1, "Drinks", "coffee ").store;
            var s3 := AddKeyword(s2, "Drinks", " COFFEE").store;
            KeywordsOf(s3, "Drinks") == ["Coffee", "coffee", "COFFEE"]
  {
    var s0 := [Category("Drinks", [])];
    assert s0[0].name == "Drinks";
    assert Strip("Coffee") == "Coffee";
    assert TrimEnd("coffee ") == "coffee" by {
      assert "coffee "[..|"coffee "| - 1] == "coffee";
    }
    assert Strip("coffee ") == "coffee";
    assert TrimStart(" COFFEE") == "COFFEE" by {
      assert " COFFEE"[1..] == "COFFEE";
    }
    assert Strip(" COFFEE") == "COFFEE";
  }
}
