/**
 The history walker: turns the commits of the main branch, newest first, into
 changelog entries. The repository client becomes two inputs: the commit
 sequence and a function from pull-request number to that pull request's labels.
 */
module HistoryWalker {
  import opened Options
  import opened MessageParser
  import opened Tables
  import opened Labels

  datatype Commit = Commit(sha: string, message: string)

  /** `{"label": ..., "title": ...}`; the label is None when the pull request
      has no recognised label. */
  datatype Entry = Entry(changelogLabel: Option<string>, title: string)

  /** The commits the walk processes: those before the first one whose sha is
      `startSha`. */
  function Until(commits: seq<Commit>, startSha: string): (walked: seq<Commit>)
    ensures |walked| <= |commits| && walked == commits[..|walked|]
    ensures forall i :: 0 <= i < |walked| ==> walked[i].sha != startSha
    ensures |walked| < |commits| ==> commits[|walked|].sha == startSha
  {
    if commits == [] || commits[0].sha == startSha then []
    else [commits[0]] + Until(commits[1..], startSha)
  }

  /** The walk stops at the start commit and drops it and everything older. */
  lemma UntilStopsAt(before: seq<Commit>, start: Commit, after: seq<Commit>)
    requires forall i :: 0 <= i < |before| ==> before[i].sha != start.sha
    ensures Until(before + [start] + after, start.sha) == before
  {
    var commits := before + [start] + after;
    assert commits[..|before|] == before;
    UntilPrefix(commits, |before|, start.sha);
  }

  /** The walked commits are the prefix before the first start commit. */
  lemma UntilPrefix(commits: seq<Commit>, i: nat, startSha: string)
    requires i < |commits| && commits[i].sha == startSha
    requires forall j :: 0 <= j < i ==> commits[j].sha != startSha
    ensures Until(commits, startSha) == commits[..i]
  {
  }

  /** Without the start commit the whole history is walked. */
  lemma UntilAbsent(commits: seq<Commit>, startSha: string)
    requires forall i :: 0 <= i < |commits| ==> commits[i].sha != startSha
    ensures Until(commits, startSha) == commits
  {
  }

  /** The entry a commit contributes, if its message names a pull request. */
  function EntryFor(commit: Commit, labelsOf: nat -> seq<string>): Option<Entry> {
    match ParseMessage(commit.message)
    case None => None
    case Some(pr) => Some(Entry(FirstRecognised(labelsOf(pr.number)), pr.title))
  }

  /** The entries one commit contributes: none or one. */
  function Contribution(commit: Commit, labelsOf: nat -> seq<string>): seq<Entry> {
    match EntryFor(commit, labelsOf) case None => [] case Some(e) => [e]
  }

  /** The concatenation of `f` over `xs`, in order. */
  function Flatten<A, B>(xs: seq<A>, f: A -> seq<B>): seq<B> {
    if xs == [] then [] else f(xs[0]) + Flatten(xs[1..], f)
  }

  /** Flattening distributes over concatenation: relative order is kept. */
  lemma {:induction false} FlattenAppend<A, B>(a: seq<A>, b: seq<A>, f: A -> seq<B>)
    ensures Flatten(a + b, f) == Flatten(a, f) + Flatten(b, f)
  {
    if a == [] {
      assert a + b == b;
    } else {
      assert (a + b)[0] == a[0];
      assert (a + b)[1..] == a[1..] + b;
      FlattenAppend(a[1..], b, f);
    }
  }

  /** One entry per commit whose message parses, in commit order. */
  function Collect(commits: seq<Commit>, labelsOf: nat -> seq<string>): seq<Entry> {
    Flatten(commits, c => Contribution(c, labelsOf))
  }

  /** Collecting distributes over concatenation. */
  lemma CollectAppend(a: seq<Commit>, b: seq<Commit>, labelsOf: nat -> seq<string>)
    ensures Collect(a + b, labelsOf) == Collect(a, labelsOf) + Collect(b, labelsOf)
  {
    FlattenAppend(a, b, c => Contribution(c, labelsOf));
  }

  /** Extending the walked prefix by one commit appends that commit's
      contribution. */
  lemma CollectStep(commits: seq<Commit>, i: nat, labelsOf: nat -> seq<string>)
    requires i < |commits|
    ensures Collect(commits[..i + 1], labelsOf) ==
      Collect(commits[..i], labelsOf) + Contribution(commits[i], labelsOf)
  {
    var f := c => Contribution(c, labelsOf);
    assert commits[..i + 1] == commits[..i] + [commits[i]];
    FlattenAppend(commits[..i], [commits[i]], f);
    assert [commits[i]][1..] == [];
  }

  /** What holds of every part holds of the concatenation. */
  lemma {:induction false} FlattenEvery<A, B>(xs: seq<A>, f: A -> seq<B>, p: B -> bool)
    requires forall i, y :: 0 <= i < |xs| && y in f(xs[i]) ==> p(y)
    ensures forall y :: y in Flatten(xs, f) ==> p(y)
  {
    if xs != [] {
      assert forall i, y :: 0 <= i < |xs[1..]| && y in f(xs[1..][i]) ==> p(y) by {
        forall i, y | 0 <= i < |xs[1..]| && y in f(xs[1..][i]) ensures p(y) {
          assert xs[1..][i] == xs[i + 1];
        }
      }
      FlattenEvery(xs[1..], f, p);
    }
  }

  /** Every entry's label is one of the recognised changelog labels, or none. */
  predicate LabelRecognisedOrNone(e: Entry) {
    e.changelogLabel.None? || IsRecognised(e.changelogLabel.value)
  }

  lemma CollectLabelsRecognised(commits: seq<Commit>, labelsOf: nat -> seq<string>)
    ensures forall e :: e in Collect(commits, labelsOf) ==> LabelRecognisedOrNone(e)
  {
    FlattenEvery(commits, c => Contribution(c, labelsOf), LabelRecognisedOrNone);
  }

  /** The number of commits whose message names a pull request. */
  function CountParsed(commits: seq<Commit>): nat {
    if commits == [] then 0
    else (if ParseMessage(commits[0].message).Some? then 1 else 0) + CountParsed(commits[1..])
  }

  /** Exactly one entry per parseable commit, whatever the labels: entries
      without a recognised label are kept. */
  lemma {:induction false} CollectLength(commits: seq<Commit>, labelsOf: nat -> seq<string>)
    ensures |Collect(commits, labelsOf)| == CountParsed(commits)
  {
    if commits != [] {
      CollectLength(commits[1..], labelsOf);
    }
  }

  /** The i-th commit's entry sits among the entries at the position given by
      the parseable commits before it. */
  lemma CollectAt(commits: seq<Commit>, i: nat, labelsOf: nat -> seq<string>)
    requires i < |commits| && EntryFor(commits[i], labelsOf).Some?
    ensures var k := CountParsed(commits[..i]);
      k < |Collect(commits, labelsOf)| &&
      Collect(commits, labelsOf)[k] == EntryFor(commits[i], labelsOf).value
  {
    var before, here, after := commits[..i], [commits[i]], commits[i + 1..];
    assert commits == before + here + after;
    CollectAppend(before + here, after, labelsOf);
    CollectAppend(before, here, labelsOf);
    CollectLength(before, labelsOf);
    assert here[1..] == [];
  }

  /** The body of the walk for one commit: the merge pattern on the whole
      message, else the squash pattern on its first line, then the label
      picker on the pull request's labels. */
  method ProcessCommit(commit: Commit, labelsOf: nat -> seq<string>)
    returns (contribution: seq<Entry>)
    ensures contribution == Contribution(commit, labelsOf)
  {
    var result := MatchMerge(commit.message);
    if result.None? {
      var firstLine := FirstLine(commit.message);
      result := MatchSquash(firstLine);
    }
    contribution := [];
    if result.Some? {
      var changelogLabel := GetChangelogLabel(labelsOf(result.value.number));
      contribution := [Entry(changelogLabel, result.value.title)];
    }
  }

  /** `_get_changelog_entries`: walks the commits newest first, stops at
      `startSha`, parses each message and appends one entry per pull request
      found, labelled by the label picker. */
  method GetChangelogEntries(commits: seq<Commit>, startSha: string,
                             labelsOf: nat -> seq<string>)
    returns (entries: seq<Entry>)
    ensures entries == Collect(Until(commits, startSha), labelsOf)
  {
    entries := [];
    var i := 0;
    while i < |commits| && commits[i].sha != startSha
      invariant i <= |commits|
      invariant forall j :: 0 <= j < i ==> commits[j].sha != startSha
      invariant entries == Collect(commits[..i], labelsOf)
    {
      var contribution := ProcessCommit(commits[i], labelsOf);
      CollectStep(commits, i, labelsOf);
      entries := entries + contribution;
      i := i + 1;
    }
    if i < |commits| {
      UntilPrefix(commits, i, startSha);
    } else {
      UntilAbsent(commits, startSha);
      assert commits[..i] == commits;
    }
  }
}
