/**
 The two readers of a pull request's labels: the label picker used by the
 changelog generator, and the CI gate.
 */
module Labels {
  import opened Options
  import opened Tables

  /** The first recognised label of the pull request, in the order its labels
      are listed. */
  function FirstRecognised(names: seq<string>): (r: Option<string>)
    ensures r.None? <==> forall i :: 0 <= i < |names| ==> !IsRecognised(names[i])
    ensures r.Some? ==> IsRecognised(r.value) && r.value in names
  {
    if names == [] then None
    else if IsRecognised(names[0]) then Some(names[0])
    else FirstRecognised(names[1..])
  }

  /** The picked label is the one at the first recognised position. */
  lemma {:induction false} FirstRecognisedAt(names: seq<string>, i: nat)
    requires i < |names| && IsRecognised(names[i])
    requires forall j :: 0 <= j < i ==> !IsRecognised(names[j])
    ensures FirstRecognised(names) == Some(names[i])
  {
    if i > 0 {
      FirstRecognisedAt(names[1..], i - 1);
    }
  }

  /** `get_changelog_label`: scans the labels and returns the first recognised
      one, or None. */
  method GetChangelogLabel(names: seq<string>) returns (r: Option<string>)
    ensures r == FirstRecognised(names)
    ensures r.None? <==> forall i :: 0 <= i < |names| ==> !IsRecognised(names[i])
    ensures r.Some? ==> exists i :: 0 <= i < |names| && names[i] == r.value && IsRecognised(r.value) &&
                          forall j :: 0 <= j < i ==> !IsRecognised(names[j])
  {
    for i := 0 to |names|
      invariant forall j :: 0 <= j < i ==> !IsRecognised(names[j])
    {
      if IsRecognised(names[i]) {
        FirstRecognisedAt(names, i);
        return Some(names[i]);
      }
    }
    return None;
  }

  /** How many of the pull request's labels are recognised. */
  function CountRecognised(names: seq<string>): (n: nat)
    ensures n <= |names|
    ensures n == 0 <==> forall i :: 0 <= i < |names| ==> !IsRecognised(names[i])
  {
    if names == [] then 0
    else (if IsRecognised(names[0]) then 1 else 0) + CountRecognised(names[1..])
  }

  lemma {:induction false} CountRecognisedSnoc(names: seq<string>, name: string)
    ensures CountRecognised(names + [name]) == CountRecognised(names) + if IsRecognised(name) then 1 else 0
  {
    if names != [] {
      assert (names + [name])[1..] == names[1..] + [name];
      CountRecognisedSnoc(names[1..], name);
    } else {
      assert [] + [name] == [name];
    }
  }

  const NoLabelMessage := "Failed: no matching changelog labels found."
  const TooManyLabelsMessage := "Failed: more than one matching changelog label."

  /** The gate's verdict: pass, or fail with the message the source prints. */
  datatype Verdict = Pass | Fail(message: string)

  /** `ci_pr`: counts the recognised labels; exactly one passes, none and more
      than one fail with distinct messages. */
  method CiPr(names: seq<string>) returns (v: Verdict)
    ensures v.Pass? <==> CountRecognised(names) == 1
    ensures v == Fail(TooManyLabelsMessage) <==> CountRecognised(names) > 1
    ensures v == Fail(NoLabelMessage) <==> CountRecognised(names) == 0
  {
    var count := 0;
    for i := 0 to |names|
      invariant count == CountRecognised(names[..i])
    {
      CountRecognisedSnoc(names[..i], names[i]);
      assert names[..i + 1] == names[..i] + [names[i]];
      if IsRecognised(names[i]) {
        count := count + 1;
      }
    }
    assert names[..|names|] == names;
    if count == 1 {
      v := Pass;
    } else if count > 1 {
      v := Fail(TooManyLabelsMessage);
    } else {
      v := Fail(NoLabelMessage);
    }
  }

  /** When the gate passes, the picker returns the pull request's only
      recognised label. */
  lemma {:induction false} SingleRecognised(names: seq<string>)
    requires CountRecognised(names) == 1
    ensures FirstRecognised(names).Some?
    ensures forall i :: 0 <= i < |names| && IsRecognised(names[i]) ==> names[i] == FirstRecognised(names).value
  {
    if !IsRecognised(names[0]) {
      SingleRecognised(names[1..]);
      forall i | 0 < i < |names| && IsRecognised(names[i])
        ensures names[i] == FirstRecognised(names).value
      {
        assert names[1..][i - 1] == names[i];
      }
    } else {
      forall i | 0 < i < |names| ensures !IsRecognised(names[i]) {
        assert names[1..][i - 1] == names[i];
      }
    }
  }

  /** The picker is first-match, not strict-count: with two or more recognised
      labels, wherever they sit, it still returns the first of them. */
  lemma {:induction false} FirstMatchNotStrict(names: seq<string>, i: nat, j: nat)
    requires i < j < |names| && IsRecognised(names[i]) && IsRecognised(names[j])
    requires forall k :: 0 <= k < i ==> !IsRecognised(names[k])
    ensures CountRecognised(names) >= 2
    ensures FirstRecognised(names) == Some(names[i])
  {
    FirstRecognisedAt(names, i);
    if i > 0 {
      assert names[1..][i - 1] == names[i] && names[1..][j - 1] == names[j];
      FirstMatchNotStrict(names[1..], i - 1, j - 1);
    } else {
      assert names[1..][j - 1] == names[j];
    }
  }

  lemma GateExamples()
    ensures CountRecognised(["changelog/bugfix"]) == 1
    ensures CountRecognised([]) == 0
    ensures CountRecognised(["changelog/bugfix", "changelog/feature"]) == 2
  {
    assert IsRecognised("changelog/bugfix") && IsRecognised("changelog/feature");
    assert ["changelog/bugfix", "changelog/feature"][1..] == ["changelog/feature"];
  }
}
