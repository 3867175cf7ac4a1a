/**
 The changelog renderer: one Markdown section per category of the category
 table, in the table's order, holding one bullet per entry with that label, in
 entry order; a category without entries gets no section at all.
 */
module Changelog {
  import opened Options
  import opened Tables
  import opened HistoryWalker

  /** `f"\n#### {category}\n\n"` */
  function Heading(category: string): string {
    "\n#### " + category + "\n\n"
  }

  /** `f"- {title}\n"` */
  function Bullet(title: string): string {
    "- " + title + "\n"
  }

  /** `label == entry["label"]`: a category key never equals an entry without
      a label. */
  predicate Matches(name: string, e: Entry) {
    e.changelogLabel == Some(name)
  }

  /** The bullets of the entries labelled `name`, in entry order. */
  function Bullets(name: string, entries: seq<Entry>): string {
    if entries == [] then ""
    else (if Matches(name, entries[0]) then Bullet(entries[0].title) else "") + Bullets(name, entries[1..])
  }

  predicate HasEntry(name: string, entries: seq<Entry>) {
    exists i :: 0 <= i < |entries| && Matches(name, entries[i])
  }

  /** The section of one category: its heading and bullets, or nothing. */
  function Section(name: string, category: string, entries: seq<Entry>): string {
    if HasEntry(name, entries) then Heading(category) + Bullets(name, entries) else ""
  }

  /** The sections of `cats`, in order. */
  function RenderCategories(cats: seq<(string, string)>, entries: seq<Entry>): string {
    if cats == [] then ""
    else Section(cats[0].0, cats[0].1, entries) + RenderCategories(cats[1..], entries)
  }

  /** The changelog text of a list of entries. */
  function Rendered(entries: seq<Entry>): string {
    RenderCategories(Categories, entries)
  }

  // ---------------------------------------------------------------------------
  // Properties of the rendering

  /** Bullets keep the entries' relative order across a split. */
  lemma {:induction false} BulletsAppend(name: string, a: seq<Entry>, b: seq<Entry>)
    ensures Bullets(name, a + b) == Bullets(name, a) + Bullets(name, b)
  {
    if a == [] {
      assert a + b == b;
    } else {
      assert (a + b)[0] == a[0];
      assert (a + b)[1..] == a[1..] + b;
      BulletsAppend(name, a[1..], b);
    }
  }

  /** Every entry labelled `name` yields its bullet, between the bullets of the
      entries before it and those of the entries after it. */
  lemma BulletsAt(name: string, entries: seq<Entry>, i: nat)
    requires i < |entries| && Matches(name, entries[i])
    ensures Bullets(name, entries) ==
      Bullets(name, entries[..i]) + Bullet(entries[i].title) + Bullets(name, entries[i + 1..])
  {
    var here := [entries[i]];
    assert entries == entries[..i] + (here + entries[i + 1..]);
    BulletsAppend(name, entries[..i], here + entries[i + 1..]);
    BulletsAppend(name, here, entries[i + 1..]);
    assert here[1..] == [];
  }

  /** A category has bullets exactly when some entry carries its label. */
  lemma {:induction false} BulletsEmptyIff(name: string, entries: seq<Entry>)
    ensures Bullets(name, entries) == "" <==> !HasEntry(name, entries)
  {
    if entries != [] {
      BulletsEmptyIff(name, entries[1..]);
      if HasEntry(name, entries[1..]) && !Matches(name, entries[0]) {
        var i :| 0 <= i < |entries[1..]| && Matches(name, entries[1..][i]);
        assert Matches(name, entries[i + 1]);
      }
      if HasEntry(name, entries) && !Matches(name, entries[0]) {
        var i :| 0 <= i < |entries| && Matches(name, entries[i]);
        assert Matches(name, entries[1..][i - 1]);
      }
    }
  }

  /** No output at all exactly when no entry carries the label of one of the
      categories rendered. */
  lemma {:induction false} RenderCategoriesEmptyIff(cats: seq<(string, string)>, entries: seq<Entry>)
    ensures RenderCategories(cats, entries) == "" <==>
      forall c :: 0 <= c < |cats| ==> !HasEntry(cats[c].0, entries)
  {
    if cats != [] {
      RenderCategoriesEmptyIff(cats[1..], entries);
      if HasEntry(cats[0].0, entries) {
        assert |Heading(cats[0].1)| > 0;
      }
      assert forall c :: 0 < c < |cats| ==> cats[c] == cats[1..][c - 1];
    }
  }

  /** The changelog is empty exactly when no entry has a label of the
      category table: entries without a label and entries labelled
      `changelog/ignore` or `changelog/security` produce nothing. */
  lemma RenderedEmptyIff(entries: seq<Entry>)
    ensures Rendered(entries) == "" <==>
      forall i :: 0 <= i < |entries| ==>
        entries[i].changelogLabel.None? || CategoryOf(entries[i].changelogLabel.value).None?
  {
    RenderCategoriesEmptyIff(Categories, entries);
    CategoryKeys();
    if forall i :: 0 <= i < |entries| ==>
        entries[i].changelogLabel.None? || CategoryOf(entries[i].changelogLabel.value).None? {
    } else {
      var i :| 0 <= i < |entries| &&
        !(entries[i].changelogLabel.None? || CategoryOf(entries[i].changelogLabel.value).None?);
      var name := entries[i].changelogLabel.value;
      assert name in Keys(Categories);
      var c :| 0 <= c < |Categories| && Keys(Categories)[c] == name;
      assert Matches(Categories[c].0, entries[i]);
    }
  }

  /** The entries whose label is one of `names`. */
  function KeepLabelled(names: seq<string>, entries: seq<Entry>): (kept: seq<Entry>)
    ensures |kept| <= |entries|
    ensures forall e :: e in kept <==>
      e in entries && e.changelogLabel.Some? && e.changelogLabel.value in names
  {
    if entries == [] then []
    else
      assert entries == [entries[0]] + entries[1..];
      (if entries[0].changelogLabel.Some? && entries[0].changelogLabel.value in names
       then [entries[0]] else [])
      + KeepLabelled(names, entries[1..])
  }

  lemma {:induction false} KeepLabelledBullets(names: seq<string>, name: string, entries: seq<Entry>)
    requires name in names
    ensures Bullets(name, KeepLabelled(names, entries)) == Bullets(name, entries)
    ensures HasEntry(name, KeepLabelled(names, entries)) == HasEntry(name, entries)
  {
    if entries != [] {
      var head := if entries[0].changelogLabel.Some? && entries[0].changelogLabel.value in names
        then [entries[0]] else [];
      KeepLabelledBullets(names, name, entries[1..]);
      BulletsAppend(name, head, KeepLabelled(names, entries[1..]));
      assert head == [] || head[1..] == [];
      BulletsEmptyIff(name, entries);
      BulletsEmptyIff(name, KeepLabelled(names, entries));
      BulletsEmptyIff(name, KeepLabelled(names, entries[1..]));
      BulletsEmptyIff(name, entries[1..]);
    }
  }

  lemma {:induction false} KeepLabelledRender(names: seq<string>, cats: seq<(string, string)>,
                                              entries: seq<Entry>)
    requires forall c :: 0 <= c < |cats| ==> cats[c].0 in names
    ensures RenderCategories(cats, KeepLabelled(names, entries)) == RenderCategories(cats, entries)
  {
    if cats != [] {
      KeepLabelledBullets(names, cats[0].0, entries);
      KeepLabelledRender(names, cats[1..], entries);
    }
  }

  /** Dropping the entries whose label has no category, and those without a
      label, does not change the changelog. */
  lemma RenderedDropsUncategorised(entries: seq<Entry>)
    ensures Rendered(KeepLabelled(Keys(Categories), entries)) == Rendered(entries)
  {
    KeepLabelledRender(Keys(Categories), Categories, entries);
  }

  /** The sections of a five-category table, spelt out. */
  lemma RenderFive(cats: seq<(string, string)>, entries: seq<Entry>)
    requires |cats| == 5
    ensures RenderCategories(cats, entries) ==
      Section(cats[0].0, cats[0].1, entries) +
      (Section(cats[1].0, cats[1].1, entries) +
      (Section(cats[2].0, cats[2].1, entries) +
      (Section(cats[3].0, cats[3].1, entries) +
       Section(cats[4].0, cats[4].1, entries))))
  {
    var r1 := cats[1..];
    var r2 := r1[1..];
    var r3 := r2[1..];
    var r4 := r3[1..];
    assert r4[1..] == [];
    assert r1[0] == cats[1] && r2[0] == cats[2] && r3[0] == cats[3] && r4[0] == cats[4];
    var s4 := Section(cats[4].0, cats[4].1, entries);
    assert RenderCategories(r4, entries) == s4;
    var s3 := Section(cats[3].0, cats[3].1, entries) + s4;
    assert RenderCategories(r3, entries) == s3;
    var s2 := Section(cats[2].0, cats[2].1, entries) + s3;
    assert RenderCategories(r2, entries) == s2;
    var s1 := Section(cats[1].0, cats[1].1, entries) + s2;
    assert RenderCategories(r1, entries) == s1;
  }

  /** The sections come in the order of the category table, whatever the
      order of the entries. */
  lemma RenderedInTableOrder(entries: seq<Entry>)
    ensures Rendered(entries) ==
      Section("changelog/breaking", "Breaking Changes", entries) +
      (Section("changelog/enhancement", "Enhancements", entries) +
      (Section("changelog/feature", "Feature", entries) +
      (Section("changelog/bugfix", "Fixed", entries) +
       Section("changelog/internal", "Internal", entries))))
  {
    RenderFive(Categories, entries);
  }

  /** Three entries, one labelled `changelog/bugfix`, one `changelog/feature`
      and one without a label: the Feature section comes first although its
      entry is second, and the unlabelled entry is not shown. */
  lemma RenderedExample(entries: seq<Entry>)
    requires entries == [Entry(Some("changelog/bugfix"), "Fix X"),
                         Entry(Some("changelog/feature"), "Add Y"),
                         Entry(None, "Untitled")]
    ensures Rendered(entries) == "\n#### Feature\n\n- Add Y\n\n#### Fixed\n\n- Fix X\n"
  {
    RenderedInTableOrder(entries);
    NoMatchByLength("changelog/breaking", entries);
    SectionOfNone("changelog/breaking", "Breaking Changes", entries);
    NoMatchByLength("changelog/enhancement", entries);
    SectionOfNone("changelog/enhancement", "Enhancements", entries);
    NoMatchByLength("changelog/internal", entries);
    SectionOfNone("changelog/internal", "Internal", entries);
    SectionOfOne("changelog/feature", "Feature", entries, 1);
    SectionOfOne("changelog/bugfix", "Fixed", entries, 0);
    DropEmpty(Section("changelog/breaking", "Breaking Changes", entries),
              Section("changelog/enhancement", "Enhancements", entries),
              Section("changelog/feature", "Feature", entries),
              Section("changelog/bugfix", "Fixed", entries),
              Section("changelog/internal", "Internal", entries));
    ExampleText();
  }

  /** Five sections of which the first, second and last are empty: the text
      is the middle two. */
  lemma DropEmpty(a: string, b: string, c: string, d: string, e: string)
    requires a == "" && b == "" && e == ""
    ensures a + (b + (c + (d + e))) == c + d
  {
    assert d + e == d;
  }

  /** The example's two sections, spelt out as one string. */
  lemma ExampleText()
    ensures (Heading("Feature") + Bullet("Add Y")) + (Heading("Fixed") + Bullet("Fix X")) ==
      "\n#### Feature\n\n- Add Y\n\n#### Fixed\n\n- Fix X\n"
  {
  }

  /** A category that no entry matches gets no section. */
  lemma SectionOfNone(name: string, category: string, entries: seq<Entry>)
    requires forall i :: 0 <= i < |entries| ==> !Matches(name, entries[i])
    ensures Section(name, category, entries) == ""
  {
  }

  /** A sufficient condition for no entry to match, cheap to check on literal
      labels: every label differs in length from the category key. */
  lemma NoMatchByLength(name: string, entries: seq<Entry>)
    requires forall i :: 0 <= i < |entries| ==>
      entries[i].changelogLabel.None? || |entries[i].changelogLabel.value| != |name|
    ensures forall i :: 0 <= i < |entries| ==> !Matches(name, entries[i])
  {
  }

  lemma SectionOfOne(name: string, category: string, entries: seq<Entry>, k: nat)
    requires k < |entries| && Matches(name, entries[k])
    requires forall i :: 0 <= i < |entries| && i != k ==> !Matches(name, entries[i])
    ensures Section(name, category, entries) == Heading(category) + Bullet(entries[k].title)
  {
    BulletsAt(name, entries, k);
    var before, after := entries[..k], entries[k + 1..];
    assert !HasEntry(name, before) by {
      forall i | 0 <= i < |before| ensures !Matches(name, before[i]) {
        assert before[i] == entries[i];
      }
    }
    assert !HasEntry(name, after) by {
      forall i | 0 <= i < |after| ensures !Matches(name, after[i]) {
        assert after[i] == entries[k + 1 + i];
      }
    }
    BulletsEmptyIff(name, before);
    BulletsEmptyIff(name, after);
    var b := Bullet(entries[k].title);
    assert Bullets(name, entries) == "" + b + "";
    assert "" + b + "" == b;
    assert HasEntry(name, entries);
  }

  // ---------------------------------------------------------------------------
  // Step lemmas for the rendering loops

  /** String concatenation is associative; the loops regroup `output + (x +
      rest)` with it. */
  lemma Associate(a: string, b: string, c: string)
    ensures a + (b + c) == (a + b) + c
  {
  }

  lemma BulletsStep(name: string, entries: seq<Entry>, j: nat)
    requires j < |entries|
    ensures Bullets(name, entries[j..]) ==
      (if Matches(name, entries[j]) then Bullet(entries[j].title) else "") + Bullets(name, entries[j + 1..])
  {
    assert entries[j..][0] == entries[j];
    assert entries[j..][1..] == entries[j + 1..];
  }

  lemma RenderStep(cats: seq<(string, string)>, c: nat, entries: seq<Entry>)
    requires c < |cats|
    ensures RenderCategories(cats[c..], entries) ==
      Section(cats[c].0, cats[c].1, entries) + RenderCategories(cats[c + 1..], entries)
  {
    assert cats[c..][0] == cats[c];
    assert cats[c..][1..] == cats[c + 1..];
  }

  // ---------------------------------------------------------------------------
  // The renderer and the generation run

  /** The rendering loops of `run_changelog_generation`: for each category,
      collect the bullets of the matching entries under a heading and append
      them when there was at least one. */
  method RenderChangelog(entries: seq<Entry>) returns (output: string)
    ensures output == Rendered(entries)
  {
    output := RenderSections(Categories, entries);
  }

  /** The two loops themselves, over the pairs of a category table. */
  method RenderSections(cats: seq<(string, string)>, entries: seq<Entry>) returns (output: string)
    ensures output == RenderCategories(cats, entries)
  {
    output := "";
    for c := 0 to |cats|
      invariant RenderCategories(cats, entries) == output + RenderCategories(cats[c..], entries)
    {
      var name, category := cats[c].0, cats[c].1;
      var hasEntries, categoryOutput := CollectCategory(name, category, entries);
      RenderStep(cats, c, entries);
      var rest := RenderCategories(cats[c + 1..], entries);
      if hasEntries {
        assert Section(name, category, entries) == categoryOutput;
        Associate(output, categoryOutput, rest);
        output := output + categoryOutput;
      } else {
        assert Section(name, category, entries) == "";
        assert "" + rest == rest;
      }
    }
    assert cats[|cats|..] == [];
  }

  /** The inner loop, over the entries for one category: whether any entry
      carries the category's label, and the heading followed by their bullets. */
  method CollectCategory(name: string, category: string, entries: seq<Entry>)
    returns (hasEntries: bool, categoryOutput: string)
    ensures hasEntries <==> HasEntry(name, entries)
    ensures categoryOutput == Heading(category) + Bullets(name, entries)
  {
    hasEntries := false;
    categoryOutput := Heading(category);
    for j := 0 to |entries|
      invariant hasEntries <==> exists k :: 0 <= k < j && Matches(name, entries[k])
      invariant Heading(category) + Bullets(name, entries) ==
        categoryOutput + Bullets(name, entries[j..])
    {
      BulletsStep(name, entries, j);
      if Matches(name, entries[j]) {
        hasEntries := true;
        var title := entries[j].title;
        Associate(categoryOutput, Bullet(title), Bullets(name, entries[j + 1..]));
        categoryOutput := categoryOutput + Bullet(title);
      }
    }
    assert entries[|entries|..] == [];
  }

  /** `run_changelog_generation`: the entries of the walk, rendered. */
  method RunChangelogGeneration(commits: seq<Commit>, startSha: string,
                                labelsOf: nat -> seq<string>)
    returns (output: string)
    ensures output == Rendered(Collect(Until(commits, startSha), labelsOf))
  {
    var entries := GetChangelogEntries(commits, startSha, labelsOf);
    output := RenderChangelog(entries);
  }
}
