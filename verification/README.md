# Transaction categoriser of the financial dashboard

This project models the engine inside a small personal-finance dashboard:
the code that gives categories to the rows of a bank statement, the keyword
store it consults, and the expense summary built from the result. It also
proves properties of that model.

- **Category store** (`Categories`). An insertion-ordered list of
  `(name, keywords)` entries. It starts as the reserved `"Uncategorized"`
  category with no keywords. It has two operations:
  - `add_keyword_to_category` strips the keyword and appends it when it is
    non-empty and not yet listed. The comparison is exact and case-sensitive.
  - The add-category branch appends a non-empty, unknown name with an empty
    keyword list.
- **Classifier** (`Classifier`). `categorize_transactions` resets every row to
  `"Uncategorized"`. It then scans the categories in store order, skipping
  `"Uncategorized"` and categories without keywords. A category claims a row
  when `details.lower().strip()` equals `kw.lower().strip()` for one of its
  keywords.
  - `Categorize` is the nested loop as written.
  - `LastMatch` is the reference definition: the last claiming category wins,
    because later assignments overwrite earlier ones.
- **Correction learner** (`Learner`). The Apply-Changes loop walks the edited
  debit rows. A row whose category was changed takes the new category, and
  its details text is offered to `add_keyword_to_category` for that category.
  - `ApplyFirst` follows the loop over a session of store and rows.
  - `Learn` describes the resulting store from the original rows. The lemma
    `ApplyFirstStore` shows the two agree.
- **Debit/Credit split** (`Transactions`). Two order-preserving filters on the
  exact flag strings `"Debit"` and `"Credit"`.
- **Expense summary** (`Totals`). A group-by-sum of the debit amounts per
  category, sorted by amount in descending order.
- **Loading helpers** (`Loading`). Column-name trimming, and removal of the
  thousands separators from the amount text.

Text handling (`Text`) follows Python on ASCII:
- whitespace is what `str.isspace()` accepts below 128;
- `lower()` maps `A`-`Z` only.

Amounts are integers (cents).

Behaviour of the code that the model keeps as written:
- **Overlapping keywords.** Each claiming category overwrites the row's
  category, so the last matching category in store order wins
  (main.py:36-51).
- **Duplicate keywords.** `add_keyword_to_category` tests `keyword not in`
  the list, an exact and case-sensitive comparison, so `"Coffee"` and
  `"coffee"` are both kept (main.py:88).
- **Blank keywords and unknown categories.** The test `keyword and …`
  short-circuits: a blank keyword returns false before the category is looked
  up, whatever the category. A non-blank keyword indexes
  `categories[category]`, which raises `KeyError` for an unknown name; the
  model makes a known category a precondition of that case only (main.py:88).
- **Whitespace-only names.** The add-category branch tests only that the name
  is non-empty, so a name made only of whitespace is accepted
  (main.py:133-136).
- **Keywords under "Uncategorized".** The correction loop files the details
  under whatever category the row was changed to, `"Uncategorized"`
  included; the classifier skips that category, so such keywords change
  nothing (`UncategorizedKeywordsIgnored`).

## Model

| member | source | states |
|---|---|---|
| Text.TrimStartSpec | main.py:87 | `lstrip` keeps a suffix of the text, removes only whitespace, and what it keeps does not start with whitespace |
| Text.TrimEndSpec | main.py:87 | `rstrip` keeps a prefix of the text, removes only whitespace, and what it keeps does not end with whitespace |
| Text.Strip | main.py:87 | `strip()` returns a text no longer than its input that neither starts nor ends with whitespace |
| Text.StripPadded | main.py:87 | the input is the stripped text with whitespace only added before and after it |
| Text.StripUnpadded | main.py:87 | a text that neither starts nor ends with whitespace is unchanged by `strip()` |
| Text.StripIdempotent | main.py:87 | stripping twice is stripping once |
| Text.Lower | main.py:42 | `lower()` keeps the length and lower-cases each character on its own |
| Text.LowerStripCommute | main.py:42-47 | lower-casing and stripping commute, so the key `x.lower().strip()` is also `x.strip().lower()` |
| Text.Key | main.py:42-47 | the matching key `x.lower().strip()` neither starts nor ends with whitespace and holds no capital letter |
| Text.StripKeepsNoCapitals | main.py:42-47 | stripping a text without capitals leaves none |
| Text.KeyOfStripped | main.py:47 | the stripped details that the learner stores have the same matching key as the raw details |
| Categories.Locate | main.py:88 | `categories[name]` finds the first entry with that name |
| Categories.AddKeyword | main.py:86-92 | adding a keyword keeps every category name, in order; a blank keyword is refused with the store unchanged, without the category being looked up |
| Categories.AddKeywordSpec | main.py:86-92 | reports a change exactly when the stripped keyword is non-empty and not already listed (exact comparison); the category's list then gains it at the end; no other entry changes; without a change the store is unchanged |
| Categories.AddKeywordWellformed | main.py:88-89 | a keyword is never listed twice under one category, and names stay unique |
| Categories.AddKeywordTwice | main.py:86-92 | a second identical call reports no change and leaves the store as it is |
| Categories.CaseVariantsAreKept | main.py:87-88 | "Coffee", "coffee " and " COFFEE" are stored as three keywords: duplicates are detected case-sensitively |
| Categories.AddCategory | main.py:133-136 | a non-empty name is present afterwards; a new one is appended with no keywords and existing entries are unchanged; an empty or known name leaves the store unchanged |
| Categories.AddCategoryWellformed | main.py:133-136 | adding a category keeps the names unique |
| Categories.AddCategoryIdempotent | main.py:133-136 | adding the same category twice is adding it once |
| Categories.InitialWellformed | main.py:15-16 | the initial store holds "Uncategorized" and is well formed |
| Classifier.MatchesIff | main.py:42-50 | a row matches a category exactly when some keyword has the same key as its details |
| Classifier.LastMatch | main.py:36-51 | the category a row is given is "Uncategorized" or the name of a store category that claims the row |
| Classifier.Classify | main.py:31-53 | categorising keeps the row count, the order and every field except the category, and every category it gives is "Uncategorized" or a store name |
| Classifier.LastMatchStep | main.py:36-51 | scanning one more category either gives the row that category, when it claims the row, or leaves the earlier result |
| Classifier.ClaimRows | main.py:45-51 | the inner loop gives every row the category claims that category's name, and leaves every other row unchanged |
| Classifier.Categorize | main.py:31-53 | the loop as written yields, row by row, the batch `Classify` describes: the same rows in the same order, each differing only in its category, which is the last claiming category in store order, or "Uncategorized" |
| Classifier.LastMatchNone | main.py:33-51 | a row stays "Uncategorized" if and only if no eligible category has a keyword with the same key as its details |
| Classifier.LastMatchLastHit | main.py:36-51 | the last claiming category in store order is the one assigned |
| Classifier.LastHit | main.py:36-51 | the position of the last category that claims the row: that category claims it and no later one does |
| Classifier.LastMatchIsLastHit | main.py:36-51 | the assigned category is the one at the last claiming position, or "Uncategorized" when there is none |
| Classifier.ClassifyIdempotent | main.py:33 | categorising the categorised batch again changes nothing |
| Classifier.LastMatchAgree | main.py:36-51 | two stores with the same names whose categories claim the same rows categorise alike |
| Classifier.UncategorizedKeywordsIgnored | main.py:38 | a keyword filed under "Uncategorized" never changes any row's category |
| Classifier.ExactMatchExample | main.py:42-50 | "Netflix" matches the keyword "netflix" |
| Classifier.NoSubstringMatchExample | main.py:50 | "Netflix Inc" does not match the keyword "netflix": matching is whole-string |
| Classifier.LastMatchWinsExample | main.py:36-51 | with "tesco" under Food and "Tesco " under Groceries, a "TESCO" row goes to Groceries, the later category |
| Learner.Step | main.py:175-186 | one iteration keeps the number of rows and the store's names |
| Learner.StepSpec | main.py:175-186 | one iteration skips a row already in its edited category; otherwise that row alone takes the edited category and its details are offered to that category |
| Learner.ApplyChanges | main.py:171-186 | after the loop every row carries its edited category and every other field is unchanged; the store keeps its names |
| Learner.ApplyFirst | main.py:171-186 | the loop keeps the number of rows and the store's names |
| Learner.Learn | main.py:171-186 | the store after the first iterations, read off the original rows, keeps the names |
| Learner.ApplyFirstRow | main.py:175-184 | after the loop has passed a row, that row carries its edited category; later rows are untouched |
| Learner.ApplyFirstStore | main.py:171-186 | the loop's store equals the store obtained by offering each changed row's details, in row order |
| Learner.LearnGrows | main.py:186 | every category's keyword list only grows, at its end |
| Learner.LearnWellformed | main.py:186 | a well-formed store stays well formed, so no keyword is stored twice under one category |
| Learner.LearnLearns | main.py:182-186 | a changed row with non-blank details has its stripped details listed under its new category |
| Learner.LearnProvenance | main.py:175-186 | each keyword the loop adds is the stripped details of a changed row whose new category received it |
| Learner.ApplyChangesSpec | main.py:171-186 | after the loop, every row carries its edited category; keyword lists only grow; every changed row with non-blank details taught its keyword; every new keyword comes from such a row; well-formedness is kept |
| Learner.ApplyFirstSettled | main.py:175-179 | when every row already carries its edited category, the loop changes nothing |
| Learner.ApplyChangesIdempotent | main.py:171-186 | applying the same edits a second time changes neither the rows nor the store |
| Learner.CorrectionTeaches | main.py:182-186 | after the loop, the corrected row's details text as edited, when non-blank and corrected to a category other than "Uncategorized", is no longer classified "Uncategorized"; it goes to that category or to one after it in store order (the row itself keeps its old details, since edited details are not written back) |
| Transactions.Select | main.py:113-116 | a row is in the filtered view exactly when it is in the batch with that exact flag, and as often as it occurs there |
| Transactions.Others | main.py:113-116 | the rows flagged neither "Debit" nor "Credit" are exactly those the two views leave out, each as often as it occurs in the batch |
| Transactions.Debits | main.py:113 | the debit view keeps the batch order and holds each row flagged "Debit" as often as it occurs, and no other row |
| Transactions.Credits | main.py:116 | the credit view keeps the batch order and holds each row flagged "Credit" as often as it occurs, and no other row |
| Transactions.SelectIsSubsequence | main.py:113-116 | a filtered view keeps the batch order |
| Transactions.SelectAppend | main.py:113-116 | filtering a concatenation filters each part |
| Transactions.SplitPartitions | main.py:113-116 | the Debit and Credit views keep the batch order, share no row, and together with the other rows account for every row |
| Totals.Accumulate | main.py:192-196 | adding an amount to a category adds it to that category's sum only, adds the category, and opens no second line for a category |
| Totals.Group | main.py:192-196 | one line per category of the rows, each holding the sum of that category's amounts, adding up to the total amount |
| Totals.Insert | main.py:199 | inserting into a descending table keeps it descending, and the result is the table plus the new line |
| Totals.InsertKeeps | main.py:199 | inserting a line adds its category and its amount to the table, and adds no repeat when the category is new |
| Totals.SortDescending | main.py:199 | the sorted table is a permutation of the grouped table, ordered by non-increasing amount |
| Totals.SortKeeps | main.py:199 | sorting keeps the categories, the sum, and the absence of repeated categories |
| Totals.CategoryTotals | main.py:192-199 | exactly one line per category among the debit rows, each holding that category's sum, in non-increasing amount order, adding up to the total debit amount |
| Totals.TotalsOfDebits | main.py:192-199 | every category that occurs among the debit rows has a line holding its sum |
| Loading.TrimColumnsSpec | main.py:67 | trimming keeps the number and order of the column names; each trimmed name neither starts nor ends with whitespace and is the original name less whitespace on both sides |
| Loading.TrimColumnsIdempotent | main.py:67 | trimming the trimmed names again changes nothing |
| Loading.PaddedHeaderExample | main.py:67 | headers "Date " and " Amount" become "Date" and "Amount" |
| Loading.RemoveCommas | main.py:70 | the result has no comma, is a subsequence of the text, and keeps every other character as often as it occurs |
| Loading.RemoveCommasNoop | main.py:70 | text without commas is unchanged, so removing commas twice is removing them once |
| Loading.RemoveCommasAppend | main.py:70 | commas are removed from each part of a text independently |
| Loading.AmountExample | main.py:70 | "1,234.50" becomes "1234.50" |

## Left out

- Persistence is not modelled. This covers loading `categories.json` at start-up (main.py:21-23) and `save_categories` after each mutation (main.py:26-28, 90, 136). It is file I/O. The in-memory store is the model's state.
- CSV reading (`pd.read_csv`), the `astype(float)` conversion and date parsing (main.py:61, 70, 73) are left out. They are foreign library calls. Amounts are whole cents and dates are day numbers in `Transaction`. Only the comma removal of main.py:70 is modelled.
- The exception handler of `load_transactions` (main.py:78-82) is left out. It only turns a pandas failure into a UI message.
- Streamlit wiring is left out: file upload, tabs, data editor, buttons, `st.rerun`, metrics, the credit tab and the pie chart. The model takes the edited rows as the `edits` input of `ApplyChanges`, one per debit row and in row order.
- The edited `Details` column is not written back to the rows (main.py:184 updates only the category), and the model does the same.
- Text.Lower: non-ASCII letters are not lower-cased. Text.IsSpace: non-ASCII whitespace is not recognised. Python does both. The model stays on ASCII.
- Totals.SortDescending: pandas' `sort_values` is not stable, so the order among equal amounts is unspecified in the source. The model's insertion sort fixes one order, and `CategoryTotals` promises nothing about ties.
- Totals.Group: pandas orders group keys alphabetically before the sort. The model groups in first-occurrence order. Only the sorted result is specified, and that order is not visible in it apart from ties.
- Learner.ApplyChanges: it requires every edited category to be in the store (`ValidEdits`), including rows the loop skips and rows with blank details, for which the source never looks the category up. The category column offers the store's names (main.py:156-158) but is not marked required, so a category outside the store is either a row's unchanged category (such as "Uncategorized" missing from a loaded store) or `None` from a cleared cell. A cleared cell fails the skip test and is written into the row (main.py:175-184); with non-blank details `categories[None]` then raises `KeyError` at main.py:88, which nothing inside the loop catches, so the loop stops with the earlier rows already applied and saved; with blank details the row keeps a `None` category, which the group-by of main.py:192 drops. For such a batch the model promises nothing: neither the partial application before a `KeyError` nor a `None` category is modelled.
- Non-text cells are left out: the model's details and amount values are always strings. The source differs in three places:
  - Classifier.Classify: `pd.read_csv` turns an empty Details cell into NaN, and also "NA", "N/A", "None" and "null" by default. Once some category is eligible (main.py:38), `row["Details"].lower()` at main.py:47 raises `AttributeError` on such a cell, and the handler at main.py:78-82 refuses the whole statement. The model instead classifies every row.
  - Learner.ApplyChanges: a corrected row whose edited Details is NaN, or `None` from a cleared editor cell, makes `keyword.strip()` raise at main.py:87. Nothing catches it, so the loop stops with that row's category already written (main.py:184) and the earlier rows applied and saved. The model has no such row.
  - Loading.RemoveCommas: when no Amount value holds a comma, `read_csv` parses the column as numbers, and `.str.replace` at main.py:70 raises, so the handler at main.py:78-82 refuses the file. The model only sees amount text.
