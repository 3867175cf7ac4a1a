/**
 The fixed tables of the changelog generator: the recognised changelog labels
 and the ordered label-to-category map.
 */
module Tables {
  import opened Options

  /** The recognised labels, in the order the source lists them
      ("changelog/feature" is listed twice). */
  const ChangelogLabels: seq<string> := [
    "changelog/bugfix",
    "changelog/breaking",
    "changelog/enhancement",
    "changelog/feature",
    "changelog/internal",
    "changelog/ignore",
    "changelog/feature",
    "changelog/security"
  ]

  /** `label in CHANGELOG_LABELS`: list membership by string equality. */
  predicate IsRecognised(name: string) {
    name in ChangelogLabels
  }

  lemma RecognisedLabels(name: string)
    ensures IsRecognised(name) <==>
      name in {"changelog/bugfix", "changelog/breaking", "changelog/enhancement",
                "changelog/feature", "changelog/internal", "changelog/ignore",
                "changelog/security"}
  {
  }

  // ---------------------------------------------------------------------------
  // Python dictionaries as ordered association lists

  /** The keys of an association list, in order. */
  function Keys<K, V>(d: seq<(K, V)>): (ks: seq<K>)
    ensures |ks| == |d|
    ensures forall i :: 0 <= i < |d| ==> ks[i] == d[i].0
  {
    if d == [] then [] else [d[0].0] + Keys(d[1..])
  }

  predicate NoDuplicates<K(==)>(s: seq<K>) {
    forall i, j :: 0 <= i < j < |s| ==> s[i] != s[j]
  }

  /** `d[k]`: the value stored for the first entry with key `k`. */
  function Lookup<K(==,!new), V>(d: seq<(K, V)>, k: K): (r: Option<V>)
    ensures r.None? <==> k !in Keys(d)
  {
    if d == [] then None
    else if d[0].0 == k then Some(d[0].1)
    else Lookup(d[1..], k)
  }

  /** `d[k] = v` on a Python dict: a present key keeps its position and takes
      the new value; an absent key is appended at the end. */
  function DictSet<K(==,!new), V>(d: seq<(K, V)>, k: K, v: V): seq<(K, V)> {
    if d == [] then [(k, v)]
    else if d[0].0 == k then [(k, v)] + d[1..]
    else [d[0]] + DictSet(d[1..], k, v)
  }

  /** Keys and lookups of a list with one pair in front. */
  lemma ConsFacts<K(!new), V>(p: (K, V), d: seq<(K, V)>)
    ensures Keys([p] + d) == [p.0] + Keys(d)
    ensures forall k :: Lookup([p] + d, k) == if p.0 == k then Some(p.1) else Lookup(d, k)
  {
    assert ([p] + d)[1..] == d;
  }

  /** Setting a key keeps the keys when it is present and appends it when it
      is absent. */
  lemma {:induction false} DictSetKeys<K(!new), V>(d: seq<(K, V)>, k: K, v: V)
    ensures k in Keys(d) ==> Keys(DictSet(d, k, v)) == Keys(d)
    ensures k !in Keys(d) ==> Keys(DictSet(d, k, v)) == Keys(d) + [k]
  {
    if d != [] {
      assert d == [d[0]] + d[1..];
      ConsFacts(d[0], d[1..]);
      if d[0].0 == k {
        ConsFacts((k, v), d[1..]);
      } else {
        DictSetKeys(d[1..], k, v);
        ConsFacts(d[0], DictSet(d[1..], k, v));
      }
    }
  }

  /** After setting `k` to `v`, `k` looks up `v` and every other key looks up
      what it did before. */
  lemma {:induction false} DictSetLookup<K(!new), V>(d: seq<(K, V)>, k: K, v: V)
    ensures Lookup(DictSet(d, k, v), k) == Some(v)
    ensures forall k' :: k' != k ==> Lookup(DictSet(d, k, v), k') == Lookup(d, k')
  {
    if d != [] {
      assert d == [d[0]] + d[1..];
      ConsFacts(d[0], d[1..]);
      if d[0].0 == k {
        ConsFacts((k, v), d[1..]);
      } else {
        DictSetLookup(d[1..], k, v);
        ConsFacts(d[0], DictSet(d[1..], k, v));
      }
    }
  }

  /** Setting an absent key appends the pair. */
  lemma {:induction false} DictSetAbsent<K(!new), V>(d: seq<(K, V)>, k: K, v: V)
    requires k !in Keys(d)
    ensures DictSet(d, k, v) == d + [(k, v)]
  {
    if d != [] {
      assert k !in Keys(d[1..]) && d[0].0 != k by {
        assert Keys(d) == [d[0].0] + Keys(d[1..]);
      }
      DictSetAbsent(d[1..], k, v);
      assert d == [d[0]] + d[1..];
    }
  }

  /** Setting a present key overwrites its pair in place. */
  lemma {:induction false} DictSetPresent<K(!new), V>(d: seq<(K, V)>, i: nat, k: K, v: V)
    requires i < |d| && d[i].0 == k && NoDuplicates(Keys(d))
    ensures DictSet(d, k, v) == d[i := (k, v)]
  {
    if i > 0 {
      assert Keys(d[1..]) == Keys(d)[1..];
      assert Keys(d)[0] != Keys(d)[i];
      DictSetPresent(d[1..], i - 1, k, v);
      assert d[i := (k, v)] == [d[0]] + d[1..][i - 1 := (k, v)];
    }
  }

  /** The keys of `s` with later repetitions dropped, in first-occurrence order. */
  function FirstOccurrences<K(==,!new)>(s: seq<K>): (r: seq<K>)
    ensures forall k :: k in r <==> k in s
    ensures NoDuplicates(r)
  {
    if s == [] then []
    else
      var init := FirstOccurrences(s[..|s| - 1]);
      assert forall k :: k in s <==> k in s[..|s| - 1] || k == s[|s| - 1];
      if s[|s| - 1] in init then init else init + [s[|s| - 1]]
  }

  /** The value paired with the last occurrence of `k` in `pairs`. */
  function LastValue<K(==,!new), V>(pairs: seq<(K, V)>, k: K): Option<V> {
    if pairs == [] then None
    else if pairs[|pairs| - 1].0 == k then Some(pairs[|pairs| - 1].1)
    else LastValue(pairs[..|pairs| - 1], k)
  }

  /** A Python dict literal `{k0: v0, k1: v1, ...}`: the pairs inserted left to right. */
  function DictFromPairs<K(==,!new), V>(pairs: seq<(K, V)>): seq<(K, V)> {
    if pairs == [] then []
    else
      var n := |pairs| - 1;
      DictSet(DictFromPairs(pairs[..n]), pairs[n].0, pairs[n].1)
  }

  /** A dict literal keeps the first occurrence of each key, in order, and
      each key looks up the value of its last occurrence. */
  lemma {:induction false} DictFromPairsSound<K(!new), V>(pairs: seq<(K, V)>)
    ensures Keys(DictFromPairs(pairs)) == FirstOccurrences(Keys(pairs))
    ensures forall k :: Lookup(DictFromPairs(pairs), k) == LastValue(pairs, k)
  {
    if pairs != [] {
      var n := |pairs| - 1;
      var init := pairs[..n];
      assert Keys(init) == Keys(pairs)[..n];
      DictFromPairsSound(init);
      DictSetKeys(DictFromPairs(init), pairs[n].0, pairs[n].1);
      DictSetLookup(DictFromPairs(init), pairs[n].0, pairs[n].1);
    }
  }

  /** The well-formed entries of the category literal, in source order. The
      literal's last line (a bare key with no value) is dropped. */
  const CategoryLiteral: seq<(string, string)> := [
    ("changelog/breaking", "Breaking Changes"),
    ("changelog/enhancement", "Enhancements"),
    ("changelog/feature", "Features"),
    ("changelog/bugfix", "Fixed"),
    ("changelog/internal", "Internal"),
    ("changelog/feature", "Feature")
  ]

  /** `CHANGELOG_CATEGORIES`, in `.items()` order: what the dict literal
      builds (see CategoriesFromLiteral). */
  const Categories: seq<(string, string)> := [
    ("changelog/breaking", "Breaking Changes"),
    ("changelog/enhancement", "Enhancements"),
    ("changelog/feature", "Feature"),
    ("changelog/bugfix", "Fixed"),
    ("changelog/internal", "Internal")
  ]

  /** The category heading of a label, if it has one. */
  function CategoryOf(name: string): Option<string> {
    Lookup(Categories, name)
  }

  /** The first five keys of the literal are pairwise distinct. */
  lemma LiteralPrefixDistinct()
    ensures NoDuplicates(Keys(CategoryLiteral[..5]))
  {
    var ks := Keys(CategoryLiteral[..5]);
    assert ks[0][10] == 'b' && ks[1][10] == 'e' && ks[2][10] == 'f' && ks[3][10] == 'b' && ks[4][10] == 'i';
    assert ks[0][11] == 'r' && ks[3][11] == 'u';
  }

  /** A literal without repeated keys builds the dict of exactly its pairs. */
  lemma {:induction false} DictFromDistinctPairs<K(!new), V>(pairs: seq<(K, V)>)
    requires NoDuplicates(Keys(pairs))
    ensures DictFromPairs(pairs) == pairs
  {
    if pairs != [] {
      var n := |pairs| - 1;
      var init := pairs[..n];
      assert Keys(init) == Keys(pairs)[..n];
      DictFromDistinctPairs(init);
      assert pairs[n].0 !in Keys(init) by {
        forall j | 0 <= j < n ensures Keys(init)[j] != pairs[n].0 {
          assert Keys(init)[j] == Keys(pairs)[j] && pairs[n].0 == Keys(pairs)[n];
        }
      }
      DictSetAbsent(init, pairs[n].0, pairs[n].1);
      assert init + [pairs[n]] == pairs;
    }
  }

  /** The duplicate key keeps its first position and takes its last value. */
  lemma CategoriesFromLiteral()
    ensures DictFromPairs(CategoryLiteral) == Categories
  {
    LiteralPrefixDistinct();
    var p := CategoryLiteral;
    assert p == p[..5] + [p[5]];
    RepeatedLastKey(p[..5], p[5], 2);
  }

  /** A literal whose last pair `p` repeats the key at `i`, and no other
      repetition: the dict is the other pairs, with the pair at `i` replaced. */
  lemma RepeatedLastKey<K(!new), V>(init: seq<(K, V)>, p: (K, V), i: nat)
    requires i < |init| && init[i].0 == p.0 && NoDuplicates(Keys(init))
    ensures DictFromPairs(init + [p]) == init[i := p]
  {
    assert (init + [p])[..|init|] == init;
    DictFromDistinctPairs(init);
    DictSetPresent(init, i, p.0, p.1);
  }

  /** The keys of the category map, in order. */
  lemma CategoryKeys()
    ensures Keys(Categories) == ["changelog/breaking", "changelog/enhancement",
                                 "changelog/feature", "changelog/bugfix", "changelog/internal"]
    ensures NoDuplicates(Keys(Categories))
  {
    var ks := Keys(Categories);
    assert ks[0][10] == 'b' && ks[1][10] == 'e' && ks[2][10] == 'f' && ks[3][10] == 'b' && ks[4][10] == 'i';
    assert ks[0][11] == 'r' && ks[3][11] == 'u';
  }

  /** Every label with a category is recognised. */
  lemma CategoryLabelsRecognised()
    ensures forall i :: 0 <= i < |Categories| ==> IsRecognised(Categories[i].0)
  {
    CategoryKeys();
    var ks := Keys(Categories);
    assert ks[0] == ChangelogLabels[1] && ks[1] == ChangelogLabels[2] && ks[2] == ChangelogLabels[3];
    assert ks[3] == ChangelogLabels[0] && ks[4] == ChangelogLabels[4];
  }

  /** "changelog/ignore" and "changelog/security" are recognised but have no
      category. */
  lemma UncategorisedLabels()
    ensures IsRecognised("changelog/ignore") && CategoryOf("changelog/ignore") == None
    ensures IsRecognised("changelog/security") && CategoryOf("changelog/security") == None
  {
    CategoryKeys();
    var ks := Keys(Categories);
    var ignore, security := "changelog/ignore", "changelog/security";
    assert ks[0][10] == 'b' && ks[1][10] == 'e' && ks[2][10] == 'f' && ks[3][10] == 'b' && ks[4][10] == 'i';
    assert ks[4][11] == 'n' && ignore[10] == 'i' && ignore[11] == 'g' && security[10] == 's';
    assert ignore == ChangelogLabels[5] && security == ChangelogLabels[7];
  }
}
