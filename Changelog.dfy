/**
  The changelog writer of both scripts: `generateChangelog` in
  scripts/release.js (curated policy) and `updateChangelog` in
  scripts/bump-version.js (inclusive policy). Both group the formatted
  commits by category in the order they arrive, render an entry that lists
  the non-empty categories in a fixed order, and splice it into the
  existing document in front of its first `## ` section.

  The grouping and the rendering are methods with loops, proved against
  the functions `Grouping` and `EntryText`; what those functions mean is
  stated by `Items` (the commits of one category, in input order) and the
  lemmas below.
 */
module Changelog {
  import opened Wrappers
  import opened Strings
  import opened Conventional
  import opened CommitFormat

  /** Which classifier a script uses. */
  datatype Policy = Curated | Inclusive

  /** The category of a commit under a policy; `None` is `null`, a dropped commit. */
  function Classify(policy: Policy, message: string): (c: Option<Category>)
    ensures policy == Inclusive ==> c.Some?
    ensures policy == Curated && c.Some? ==> IsUserFacing(c.value)
  {
    match policy
    case Curated => CuratedCategory(message)
    case Inclusive => Some(InclusiveCategory(message))
  }

  /** The fixed order in which the categories are emitted. */
  function Order(policy: Policy): seq<Category> {
    match policy
    case Curated => [Breaking, Added, Changed, Fixed, Performance]
    case Inclusive =>
      [Breaking, Added, Changed, Fixed, Performance, Documentation, Testing, Maintenance, Other]
  }

  predicate NoDuplicates(order: seq<Category>) {
    forall i, j | 0 <= i < j < |order| :: order[i] != order[j]
  }

  /** Every category a policy can assign is emitted, once. */
  lemma OrderCovers(policy: Policy, message: string)
    ensures NoDuplicates(Order(policy))
    ensures Classify(policy, message).Some? ==> Classify(policy, message).value in Order(policy)
  {
  }

  /** The formatted commits of category `c`, in input order. */
  function Items(policy: Policy, commits: seq<string>, c: Category): seq<string> {
    if commits == [] then []
    else
      var n := |commits| - 1;
      Items(policy, commits[..n], c)
        + (if Classify(policy, commits[n]) == Some(c) then [FormatCommit(commits[n])] else [])
  }

  lemma ItemsSnoc(policy: Policy, commits: seq<string>, m: string, c: Category)
    ensures Items(policy, commits + [m], c)
         == Items(policy, commits, c) + (if Classify(policy, m) == Some(c) then [FormatCommit(m)] else [])
  {
    assert (commits + [m])[..|commits|] == commits;
  }

  /** A category has no items exactly when no commit falls into it. */
  lemma {:induction false} ItemsEmptyIff(policy: Policy, commits: seq<string>, c: Category)
    ensures Items(policy, commits, c) == [] <==>
            forall i | 0 <= i < |commits| :: Classify(policy, commits[i]) != Some(c)
  {
    if commits != [] {
      var n := |commits| - 1;
      ItemsEmptyIff(policy, commits[..n], c);
      assert forall i | 0 <= i < n :: commits[..n][i] == commits[i];
    }
  }

  /**
    The `grouped` object after the loop over `commits`: each commit that
    classifies appends its formatted line to the list of its category,
    creating the list first when it is missing.
   */
  function Grouping(policy: Policy, commits: seq<string>): map<Category, seq<string>> {
    if commits == [] then map[]
    else
      var n := |commits| - 1;
      var g := Grouping(policy, commits[..n]);
      match Classify(policy, commits[n])
      case None => g
      case Some(c) => g[c := (if c in g then g[c] else []) + [FormatCommit(commits[n])]]
  }

  /** The grouped lists are exactly the non-empty per-category item lists. */
  lemma {:induction false} GroupingItems(policy: Policy, commits: seq<string>)
    ensures forall c :: c in Grouping(policy, commits) <==> Items(policy, commits, c) != []
    ensures forall c | c in Grouping(policy, commits) :: Grouping(policy, commits)[c] == Items(policy, commits, c)
  {
    if commits != [] {
      GroupingItems(policy, commits[..|commits| - 1]);
    }
  }

  lemma GroupingStep(policy: Policy, commits: seq<string>, n: nat)
    requires n < |commits|
    ensures var g := Grouping(policy, commits[..n]);
      Grouping(policy, commits[..n + 1]) ==
        match Classify(policy, commits[n])
        case None => g
        case Some(c) => g[c := (if c in g then g[c] else []) + [FormatCommit(commits[n])]]
  {
    assert commits[..n + 1][..n] == commits[..n];
  }

  /** Creating a missing list and then pushing onto it is one update of the grouping. */
  lemma PushStep(g: map<Category, seq<string>>, cat: Category, line: string)
    ensures var g1 := if cat !in g then g[cat := []] else g;
      g1[cat := g1[cat] + [line]] == g[cat := (if cat in g then g[cat] else []) + [line]]
  {
  }

  /** The grouping loop shared by `generateChangelog` and `updateChangelog`. */
  method GroupCommits(policy: Policy, commits: seq<string>) returns (grouped: map<Category, seq<string>>)
    ensures grouped == Grouping(policy, commits)
  {
    grouped := map[];
    for n := 0 to |commits|
      invariant grouped == Grouping(policy, commits[..n])
    {
      var commit := commits[n];
      GroupingStep(policy, commits, n);
      var category := Classify(policy, commit);
      if category.Some? {
        var cat := category.value;
        PushStep(grouped, cat, FormatCommit(commit));
        if cat !in grouped {
          grouped := grouped[cat := []];
        }
        grouped := grouped[cat := grouped[cat] + [FormatCommit(commit)]];
      }
    }
    assert commits[..|commits|] == commits;
  }

  /** A commit that classifies puts its category into the grouping. */
  lemma ClassifiedIsGrouped(policy: Policy, commits: seq<string>, i: nat)
    requires i < |commits|
    ensures Classify(policy, commits[i]).Some? ==> Classify(policy, commits[i]).value in Grouping(policy, commits)
  {
    GroupingItems(policy, commits);
    if Classify(policy, commits[i]).Some? {
      ItemsEmptyIff(policy, commits, Classify(policy, commits[i]).value);
    }
  }

  /** No category is grouped exactly when no commit classifies. */
  lemma GroupingEmptyIff(policy: Policy, commits: seq<string>)
    ensures |Grouping(policy, commits)| == 0 <==>
            forall i | 0 <= i < |commits| :: Classify(policy, commits[i]).None?
  {
    var g := Grouping(policy, commits);
    if |g| == 0 {
      assert g.Keys == {};
      forall i | 0 <= i < |commits| ensures Classify(policy, commits[i]).None? {
        ClassifiedIsGrouped(policy, commits, i);
      }
    } else {
      var c :| c in g;
      GroupingItems(policy, commits);
      ItemsEmptyIff(policy, commits, c);
    }
  }

  /** The heading line of an entry and the blank line after it. */
  function Heading(version: string, date: string): string {
    "## [" + version + "] - " + date + "\n\n"
  }

  /** One `- item` line per item. */
  function Bullets(items: seq<string>): string {
    if items == [] then "" else Bullets(items[..|items| - 1]) + "- " + items[|items| - 1] + "\n"
  }

  /** A category's sub-heading, its bullet list and a blank line. */
  function Section(c: Category, items: seq<string>): string {
    "### " + c.Name() + "\n\n" + Bullets(items) + "\n"
  }

  /** The sections of the categories of `order` that have a non-empty list. */
  function Sections(grouped: map<Category, seq<string>>, order: seq<Category>): string {
    if order == [] then ""
    else
      var c := order[|order| - 1];
      Sections(grouped, order[..|order| - 1])
        + (if c in grouped && |grouped[c]| > 0 then Section(c, grouped[c]) else "")
  }

  /** The entry as the rendering loops build it. */
  function EntryText(version: string, date: string, grouped: map<Category, seq<string>>,
                     order: seq<Category>): string {
    Heading(version, date) + Sections(grouped, order)
  }

  /** The nested rendering loops of `generateChangelog` and `updateChangelog`. */
  method RenderEntry(version: string, date: string, grouped: map<Category, seq<string>>,
                     order: seq<Category>) returns (entry: string)
    ensures entry == EntryText(version, date, grouped, order)
  {
    entry := "## [" + version + "] - " + date + "\n\n";
    for i := 0 to |order|
      invariant entry == EntryText(version, date, grouped, order[..i])
    {
      var category := order[i];
      EntryTextStep(version, date, grouped, order, i);
      if category in grouped && |grouped[category]| > 0 {
        entry := AppendSection(entry, category, grouped[category]);
      }
    }
    assert order[..|order|] == order;
  }

  /** The body of the outer rendering loop: the sub-heading, the inner loop over the items, the blank line. */
  method AppendSection(entry0: string, category: Category, items: seq<string>) returns (entry: string)
    ensures entry == entry0 + Section(category, items)
  {
    var title := "### " + category.Name() + "\n\n";
    entry := entry0 + title;
    ghost var prefix := entry0 + title;
    for j := 0 to |items|
      invariant entry == prefix + Bullets(items[..j])
    {
      BulletAppend(prefix, items, j);
      entry := entry + "- " + items[j] + "\n";
    }
    assert items[..|items|] == items;
    SectionAppend(entry0, category, items);
    entry := entry + "\n";
  }

  /** One iteration of the inner loop extends the bullet list by one line. */
  lemma BulletAppend(prefix: string, items: seq<string>, j: nat)
    requires j < |items|
    ensures prefix + Bullets(items[..j]) + "- " + items[j] + "\n" == prefix + Bullets(items[..j + 1])
  {
    BulletsStep(items, j);
  }

  /** The sub-heading, the bullet list and the blank line make up the section. */
  lemma SectionAppend(entry0: string, category: Category, items: seq<string>)
    ensures entry0 + ("### " + category.Name() + "\n\n") + Bullets(items) + "\n" == entry0 + Section(category, items)
  {
  }

  lemma EntryTextStep(version: string, date: string, grouped: map<Category, seq<string>>,
                      order: seq<Category>, i: nat)
    requires i < |order|
    ensures EntryText(version, date, grouped, order[..i + 1]) == EntryText(version, date, grouped, order[..i])
      + (if order[i] in grouped && |grouped[order[i]]| > 0 then Section(order[i], grouped[order[i]]) else "")
  {
    assert order[..i + 1][..i] == order[..i];
  }

  lemma BulletsStep(items: seq<string>, j: nat)
    requires j < |items|
    ensures Bullets(items[..j + 1]) == Bullets(items[..j]) + "- " + items[j] + "\n"
  {
    assert items[..j + 1][..j] == items[..j];
  }

  /** The entry a policy renders for a batch of commits. */
  function Entry(policy: Policy, version: string, date: string, commits: seq<string>): string {
    EntryText(version, date, Grouping(policy, commits), Order(policy))
  }

  /** The sections written straight from the per-category lists. */
  function CategorySections(policy: Policy, commits: seq<string>, order: seq<Category>): string {
    if order == [] then ""
    else
      var c := order[|order| - 1];
      var items := Items(policy, commits, c);
      CategorySections(policy, commits, order[..|order| - 1]) + (if items != [] then Section(c, items) else "")
  }

  /**
    The rendered entry is the heading followed, for each category of the
    fixed order that received a commit, by that category's section listing
    its commits in input order.
   */
  lemma {:induction false} SectionsOfGrouping(policy: Policy, commits: seq<string>, order: seq<Category>)
    ensures Sections(Grouping(policy, commits), order) == CategorySections(policy, commits, order)
  {
    if order != [] {
      SectionsOfGrouping(policy, commits, order[..|order| - 1]);
      GroupingItems(policy, commits);
    }
  }

  lemma EntryByCategory(policy: Policy, version: string, date: string, commits: seq<string>)
    ensures Entry(policy, version, date, commits)
         == Heading(version, date) + CategorySections(policy, commits, Order(policy))
  {
    SectionsOfGrouping(policy, commits, Order(policy));
  }

  /** With nothing grouped, the entry is its heading alone. */
  lemma {:induction false} SectionsEmpty(grouped: map<Category, seq<string>>, order: seq<Category>)
    requires |grouped| == 0
    ensures Sections(grouped, order) == ""
  {
    if order != [] {
      SectionsEmpty(grouped, order[..|order| - 1]);
      assert order[|order| - 1] !in grouped.Keys;
    }
  }

  /** `updateChangelog` with no commits still writes the heading-only entry. */
  lemma InclusiveEmptyEntry(version: string, date: string)
    ensures Entry(Inclusive, version, date, []) == "## [" + version + "] - " + date + "\n\n"
  {
    SectionsEmpty(Grouping(Inclusive, []), Order(Inclusive));
  }

  /** The item lists of the categories of `order`, one after the other: the bullets of the entry, top to bottom. */
  function CategoryItems(policy: Policy, commits: seq<string>, order: seq<Category>): seq<string> {
    if order == [] then []
    else CategoryItems(policy, commits, order[..|order| - 1]) + Items(policy, commits, order[|order| - 1])
  }

  /** The line `- item` of every item is in the bullet list. */
  lemma {:induction false} BulletsShowItems(items: seq<string>, j: nat)
    requires j < |items|
    ensures Contains(Bullets(items), "- " + items[j] + "\n")
  {
    var n := |items| - 1;
    assert Bullets(items) == Bullets(items[..n]) + ("- " + items[n] + "\n");
    if j < n {
      BulletsShowItems(items[..n], j);
      ContainsConcat(Bullets(items[..n]), "- " + items[n] + "\n", "- " + items[j] + "\n");
    } else {
      assert OccursAt("- " + items[n] + "\n", "- " + items[j] + "\n", 0);
      ContainsConcat(Bullets(items[..n]), "- " + items[n] + "\n", "- " + items[j] + "\n");
    }
  }

  /** The line `- item` of every item is in the section. */
  lemma SectionShowsItems(c: Category, items: seq<string>, j: nat)
    requires j < |items|
    ensures Contains(Section(c, items), "- " + items[j] + "\n")
  {
    var line := "- " + items[j] + "\n";
    BulletsShowItems(items, j);
    assert Section(c, items) == "### " + c.Name() + "\n\n" + (Bullets(items) + "\n");
    ContainsConcat(Bullets(items), "\n", line);
    ContainsConcat("### " + c.Name() + "\n\n", Bullets(items) + "\n", line);
  }

  /** Appending a category's section keeps the earlier bullet lines and adds those of its items. */
  lemma AppendShowsItems(text: string, front: seq<string>, c: Category, items: seq<string>, k: nat)
    requires k < |front| + |items|
    requires k < |front| ==> Contains(text, "- " + front[k] + "\n")
    ensures Contains(text + (if items != [] then Section(c, items) else ""), "- " + (front + items)[k] + "\n")
  {
    var last := if items != [] then Section(c, items) else "";
    if k < |front| {
      assert (front + items)[k] == front[k];
    } else {
      assert (front + items)[k] == items[k - |front|];
      SectionShowsItems(c, items, k - |front|);
    }
    ContainsConcat(text, last, "- " + (front + items)[k] + "\n");
  }

  /** Every item of `CategoryItems` appears as a bullet line in the sections. */
  lemma {:induction false} SectionsShowItems(policy: Policy, commits: seq<string>, order: seq<Category>, k: nat)
    requires k < |CategoryItems(policy, commits, order)|
    ensures Contains(CategorySections(policy, commits, order), "- " + CategoryItems(policy, commits, order)[k] + "\n")
  {
    var o := order[..|order| - 1];
    var front := CategoryItems(policy, commits, o);
    if k < |front| {
      SectionsShowItems(policy, commits, o, k);
    }
    AppendShowsItems(CategorySections(policy, commits, o), front, order[|order| - 1],
                     Items(policy, commits, order[|order| - 1]), k);
  }

  /** The bullets `CategoryItems` lists are lines of the rendered entry. */
  lemma EntryShowsItems(policy: Policy, version: string, date: string, commits: seq<string>, k: nat)
    requires k < |CategoryItems(policy, commits, Order(policy))|
    ensures Contains(Entry(policy, version, date, commits),
                     "- " + CategoryItems(policy, commits, Order(policy))[k] + "\n")
  {
    EntryByCategory(policy, version, date, commits);
    SectionsShowItems(policy, commits, Order(policy), k);
    ContainsConcat(Heading(version, date), CategorySections(policy, commits, Order(policy)),
                   "- " + CategoryItems(policy, commits, Order(policy))[k] + "\n");
  }

  /** The formatted commits that fall into a category of `order`, in input order. */
  function Listed(policy: Policy, commits: seq<string>, order: seq<Category>): seq<string> {
    if commits == [] then []
    else
      var m := commits[|commits| - 1];
      var c := Classify(policy, m);
      Listed(policy, commits[..|commits| - 1], order)
        + (if c.Some? && c.value in order then [FormatCommit(m)] else [])
  }

  /** Each formatted commit, in input order. */
  function FormatAll(commits: seq<string>): (lines: seq<string>)
    ensures |lines| == |commits|
  {
    if commits == [] then [] else FormatAll(commits[..|commits| - 1]) + [FormatCommit(commits[|commits| - 1])]
  }

  lemma {:induction false} CategoryItemsOfNone(policy: Policy, order: seq<Category>)
    ensures CategoryItems(policy, [], order) == []
  {
    if order != [] {
      CategoryItemsOfNone(policy, order[..|order| - 1]);
    }
  }

  /** What one commit adds to the bullets of the categories of `order`. */
  function Contribution(policy: Policy, m: string, order: seq<Category>): multiset<string> {
    var c := Classify(policy, m);
    if c.Some? && c.value in order then multiset{FormatCommit(m)} else multiset{}
  }

  lemma ContributionSnoc(policy: Policy, m: string, o: seq<Category>, c: Category)
    requires c !in o
    ensures Contribution(policy, m, o + [c])
         == Contribution(policy, m, o) + (if Classify(policy, m) == Some(c) then multiset{FormatCommit(m)} else multiset{})
  {
  }

  lemma CategoryItemsUnfold(policy: Policy, commits: seq<string>, o: seq<Category>, c: Category)
    ensures CategoryItems(policy, commits, o + [c]) == CategoryItems(policy, commits, o) + Items(policy, commits, c)
  {
    assert (o + [c])[..|o|] == o;
  }

  /** The multiset bookkeeping of one induction step of `CategoryItemsSnoc`. */
  lemma MultisetSnocStep(p1: seq<string>, p0: seq<string>, i1: seq<string>, i0: seq<string>,
                         extra: seq<string>, k0: multiset<string>)
    requires multiset(p1) == multiset(p0) + k0
    requires i1 == i0 + extra
    ensures multiset(p1 + i1) == multiset(p0 + i0) + (k0 + multiset(extra))
  {
  }

  /** One more commit adds its line to the bullets exactly once when its category is emitted. */
  lemma {:induction false} CategoryItemsSnoc(policy: Policy, commits: seq<string>, m: string, order: seq<Category>)
    requires NoDuplicates(order)
    ensures multiset(CategoryItems(policy, commits + [m], order))
         == multiset(CategoryItems(policy, commits, order)) + Contribution(policy, m, order)
  {
    if order != [] {
      var o := order[..|order| - 1];
      var c := order[|order| - 1];
      assert order == o + [c];
      assert NoDuplicates(o) && c !in o;
      CategoryItemsSnoc(policy, commits, m, o);
      ItemsSnoc(policy, commits, m, c);
      ContributionSnoc(policy, m, o, c);
      var extra := if Classify(policy, m) == Some(c) then [FormatCommit(m)] else [];
      MultisetSnocStep(CategoryItems(policy, commits + [m], o), CategoryItems(policy, commits, o),
                       Items(policy, commits + [m], c), Items(policy, commits, c),
                       extra, Contribution(policy, m, o));
      CategoryItemsUnfold(policy, commits + [m], o, c);
      CategoryItemsUnfold(policy, commits, o, c);
    }
  }

  /** The bullets are the listed commits, each exactly once. */
  lemma {:induction false} BulletsAreListed(policy: Policy, commits: seq<string>, order: seq<Category>)
    requires NoDuplicates(order)
    ensures multiset(CategoryItems(policy, commits, order)) == multiset(Listed(policy, commits, order))
  {
    if commits == [] {
      CategoryItemsOfNone(policy, order);
    } else {
      var n := |commits| - 1;
      BulletsAreListed(policy, commits[..n], order);
      assert commits == commits[..n] + [commits[n]];
      CategoryItemsSnoc(policy, commits[..n], commits[n], order);
    }
  }

  lemma {:induction false} InclusiveListsAll(commits: seq<string>)
    ensures Listed(Inclusive, commits, Order(Inclusive)) == FormatAll(commits)
  {
    if commits != [] {
      InclusiveListsAll(commits[..|commits| - 1]);
      OrderCovers(Inclusive, commits[|commits| - 1]);
    }
  }

  /**
    `updateChangelog`: every commit appears exactly once among the bullets,
    so there are as many bullets as commits.
   */
  lemma InclusiveBulletsAreCommits(commits: seq<string>)
    ensures multiset(CategoryItems(Inclusive, commits, Order(Inclusive))) == multiset(FormatAll(commits))
    ensures |CategoryItems(Inclusive, commits, Order(Inclusive))| == |commits|
  {
    OrderCovers(Inclusive, "");
    BulletsAreListed(Inclusive, commits, Order(Inclusive));
    InclusiveListsAll(commits);
    assert |multiset(CategoryItems(Inclusive, commits, Order(Inclusive)))| == |commits|;
  }

  /** The formatted commits the curated classifier keeps, in input order. */
  function Kept(commits: seq<string>): seq<string> {
    if commits == [] then []
    else
      var m := commits[|commits| - 1];
      Kept(commits[..|commits| - 1]) + (if CuratedCategory(m).Some? then [FormatCommit(m)] else [])
  }

  lemma {:induction false} CuratedListsKept(commits: seq<string>)
    ensures Listed(Curated, commits, Order(Curated)) == Kept(commits)
  {
    if commits != [] {
      CuratedListsKept(commits[..|commits| - 1]);
      OrderCovers(Curated, commits[|commits| - 1]);
    }
  }

  /** `generateChangelog`: every kept commit appears exactly once among the bullets, and nothing else does. */
  lemma CuratedBulletsAreKept(commits: seq<string>)
    ensures multiset(CategoryItems(Curated, commits, Order(Curated))) == multiset(Kept(commits))
  {
    OrderCovers(Curated, "");
    BulletsAreListed(Curated, commits, Order(Curated));
    CuratedListsKept(commits);
  }

  /** The title whose presence marks a document as a changelog. */
  const Header: string := "# Changelog"

  /** The header text written when the document lacks `# Changelog`. */
  const Preamble: string :=
    Header + "\n\nAll notable changes to the Arc plugin will be documented in this file.\n\n"
    + "The format is based on [Keep a Changelog](https://keepachangelog.com/en/1.1.0/),\n"
    + "and this project adheres to [Semantic Versioning](https://semver.org/spec/v2.0.0.html).\n\n"

  /**
    The document the entry goes into: the existing file (empty when there is
    none), replaced by the preamble when it does not contain `# Changelog`.
   */
  function Base(existing: Option<string>): (doc: string)
    ensures var prior := if existing.Some? then existing.value else "";
      && (Contains(prior, Header) ==> doc == prior)
      && (!Contains(prior, Header) ==> doc == Preamble)
  {
    var prior := if existing.Some? then existing.value else "";
    if Contains(prior, Header) then prior else Preamble
  }

  /** The document the entry goes into always has the `# Changelog` header, so a second run keeps it. */
  lemma BaseKeepsHeader(existing: Option<string>)
    ensures Contains(Base(existing), Header)
    ensures Base(Some(Base(existing))) == Base(existing)
  {
    assert OccursAt(Preamble, Header, 0) by {
      assert Preamble[..|Header|] == Header;
    }
  }

  /** Where the entry goes: just after the newline of the first `\n## `, or the end of the document. */
  function InsertionPoint(doc: string): (p: nat)
    ensures p <= |doc|
    ensures p < |doc| <==> Contains(doc, "\n## ")
    ensures p < |doc| ==> 0 < p && OccursAt(doc, "\n## ", p - 1)
                          && forall j: nat | j < p - 1 :: !OccursAt(doc, "\n## ", j)
  {
    match IndexOf(doc, "\n## ")
    case Some(h) => h + 1
    case None => |doc|
  }

  /** The splice: `changelog.slice(0, headerEnd) + '\n' + entry + changelog.slice(headerEnd + 1)`, or an append. */
  function Splice(doc: string, entry: string): (r: string)
    ensures var p := InsertionPoint(doc); r == doc[..p] + entry + doc[p..]
  {
    match IndexOf(doc, "\n## ")
    case Some(h) =>
      assert doc[h] == '\n' by { assert doc[h..h + 4][0] == doc[h]; }
      assert doc[..h] + "\n" == doc[..h + 1];
      doc[..h] + "\n" + entry + doc[h + 1..]
    case None => doc + entry
  }

  /** The splice at the first `\n## `, as the script writes it. */
  lemma SpliceAt(doc: string, entry: string, h: nat)
    requires IndexOf(doc, "\n## ") == Some(h)
    ensures Splice(doc, entry) == doc[..h] + "\n" + entry + doc[h + 1..]
  {
  }

  /** Cutting the entry out of the spliced document gives the document back. */
  lemma SpliceRemovable(doc: string, entry: string)
    ensures var p := InsertionPoint(doc); var r := Splice(doc, entry);
      && p + |entry| <= |r| && r[p..p + |entry|] == entry
      && r[..p] + r[p + |entry|..] == doc
  {
    var p := InsertionPoint(doc);
    CutOut(doc[..p], entry, doc[p..]);
    assert doc[..p] + doc[p..] == doc;
  }

  /** The middle part of a three-part concatenation, and what is left when it is cut out. */
  lemma CutOut(a: string, e: string, b: string)
    ensures (a + e + b)[|a|..|a| + |e|] == e
    ensures (a + e + b)[..|a|] + (a + e + b)[|a| + |e|..] == a + b
  {
    var r := a + e + b;
    assert r[..|a|] == a;
    assert r[|a| + |e|..] == b;
  }

  /** Without a `## ` section the entry is appended. */
  lemma SpliceAppends(doc: string, entry: string)
    requires !Contains(doc, "\n## ")
    ensures Splice(doc, entry) == doc + entry
  {
    assert doc[..|doc|] == doc;
  }

  /** The document that `generateChangelog` and `updateChangelog` write. */
  function Written(existing: Option<string>, entry: string): string {
    Splice(Base(existing), entry)
  }

  /** The header has no newline. */
  lemma HeaderHasNoNewline(d: string, i: nat)
    requires OccursAt(d, Header, i)
    ensures forall k | i <= k < i + |Header| :: d[k] != '\n'
  {
    forall k | i <= k < i + |Header| ensures d[k] != '\n' {
      assert d[k] == d[i..i + |Header|][k - i];
    }
  }

  /** A text without newlines survives the splice, since the entry goes in just after a newline. */
  lemma SpliceKeepsLine(d: string, entry: string, sub: string, i: nat)
    requires OccursAt(d, sub, i)
    requires forall k | i <= k < i + |sub| :: d[k] != '\n'
    ensures Contains(Splice(d, entry), sub)
  {
    var p := InsertionPoint(d);
    var r := Splice(d, entry);
    if p < |d| {
      assert d[p - 1] == '\n' by { assert d[p - 1..p + 3][0] == d[p - 1]; }
    }
    if i + |sub| <= p {
      assert r[i..i + |sub|] == d[i..i + |sub|];
      assert OccursAt(r, sub, i);
    } else {
      assert r[i + |entry|..i + |entry| + |sub|] == d[i..i + |sub|];
      assert OccursAt(r, sub, i + |entry|);
    }
  }

  /** The written document carries the `# Changelog` header: the splice never cuts through it. */
  lemma WrittenHasHeader(existing: Option<string>, entry: string)
    ensures Contains(Written(existing, entry), Header)
  {
    var d := Base(existing);
    BaseKeepsHeader(existing);
    var i: nat :| i <= |d| && OccursAt(d, Header, i);
    HeaderHasNoNewline(d, i);
    SpliceKeepsLine(d, entry, Header, i);
  }

  /**
    The pure part of scripts/release.js `generateChangelog`: `None` when no
    commit is user-facing (nothing is written), otherwise the document written.
   */
  method GenerateChangelog(newVersion: string, date: string, commits: seq<string>, existing: Option<string>)
    returns (written: Option<string>)
    ensures written.None? <==> forall i | 0 <= i < |commits| :: CuratedCategory(commits[i]).None?
    ensures written.Some? ==> written.value == Written(existing, Entry(Curated, newVersion, date, commits))
  {
    var grouped := GroupCommits(Curated, commits);
    GroupingEmptyIff(Curated, commits);
    if |grouped| == 0 {
      return None;
    }
    var entry := RenderEntry(newVersion, date, grouped, Order(Curated));
    var changelog := WriteEntry(existing, entry);
    return Some(changelog);
  }

  /**
    The pure part of scripts/bump-version.js `updateChangelog`: the document
    written and the entry returned. It writes even when there are no commits.
   */
  method UpdateChangelog(newVersion: string, date: string, commits: seq<string>, existing: Option<string>)
    returns (changelog: string, entry: string)
    ensures entry == Entry(Inclusive, newVersion, date, commits)
    ensures changelog == Written(existing, entry)
  {
    var grouped := GroupCommits(Inclusive, commits);
    entry := RenderEntry(newVersion, date, grouped, Order(Inclusive));
    changelog := WriteEntry(existing, entry);
  }

  /** Reading the old document, replacing it by the preamble if needed, and splicing in the entry. */
  method WriteEntry(existing: Option<string>, entry: string) returns (changelog: string)
    ensures changelog == Written(existing, entry)
  {
    changelog := "";
    if existing.Some? {
      changelog := existing.value;
    }
    if !Contains(changelog, Header) {
      changelog := Preamble;
    }
    assert changelog == Base(existing);
    ghost var base := changelog;
    var headerEnd := IndexOf(changelog, "\n## ");
    if headerEnd.Some? {
      var h := headerEnd.value;
      changelog := changelog[..h] + "\n" + entry + changelog[h + 1..];
      SpliceAt(base, entry, h);
    } else {
      changelog := changelog + entry;
      assert changelog == Splice(base, entry);
    }
  }
}
