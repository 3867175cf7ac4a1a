/**
 Recovery of a pull-request reference from a commit message. The three regular
 expressions of the source are written out as matchers for their fixed shapes:

   merge shape    ^Merge pull request #(\d+) from \S*\n\n(.*)$
   first line     ^(.*)
   squash shape   ^(.*) \(#(\d+)\).*$          (DOTALL, applied to the first line)

 `\d` is taken to be the ASCII digits and `\s` the ASCII whitespace characters
 that Python's `str.isspace` accepts (codes 9 to 13 and 28 to 32).
 */
module MessageParser {
  import opened Options

  /** A pull request recovered from a commit message. */
  datatype PullRequestRef = PullRequestRef(number: nat, title: string)

  // ---------------------------------------------------------------------------
  // Character classes and scanning

  predicate IsDigit(c: char) {
    '0' <= c <= '9'
  }

  /** Python's `\s`, restricted to ASCII. */
  predicate IsSpace(c: char) {
    9 <= c as int <= 13 || 28 <= c as int <= 32
  }

  predicate IsNonSpace(c: char) {
    !IsSpace(c)
  }

  /** What `.` matches without DOTALL: anything but a line feed. */
  predicate IsNotNewline(c: char) {
    c != '\n'
  }

  predicate AllDigits(s: string) {
    forall i :: 0 <= i < |s| ==> IsDigit(s[i])
  }

  predicate NoSpace(s: string) {
    forall i :: 0 <= i < |s| ==> IsNonSpace(s[i])
  }

  predicate NoNewline(s: string) {
    forall i :: 0 <= i < |s| ==> IsNotNewline(s[i])
  }

  predicate StartsWith(s: string, prefix: string) {
    |prefix| <= |s| && s[..|prefix|] == prefix
  }

  /** The length of the longest prefix of `s` whose characters all satisfy `p`:
      what a greedy `p*` consumes. */
  function Span(s: string, p: char -> bool): (n: nat)
    ensures n <= |s|
    ensures forall i :: 0 <= i < n ==> p(s[i])
    ensures n < |s| ==> !p(s[n])
  {
    if s == [] || !p(s[0]) then 0 else 1 + Span(s[1..], p)
  }

  /** A greedy scan over `a + b` stops exactly at the end of `a` when every
      character of `a` satisfies `p` and `b` does not start with one that does. */
  lemma {:induction false} SpanUpTo(a: string, b: string, p: char -> bool)
    requires forall i :: 0 <= i < |a| ==> p(a[i])
    requires b == [] || !p(b[0])
    ensures Span(a + b, p) == |a|
  {
    if a == [] {
      assert a + b == b;
    } else {
      assert (a + b)[0] == a[0];
      assert (a + b)[1..] == a[1..] + b;
      SpanUpTo(a[1..], b, p);
    }
  }

  /** Cutting `s` around an occurrence of `w` at position `i`. */
  lemma SplitAround(s: string, i: nat, w: string)
    requires i <= |s| && StartsWith(s[i..], w)
    ensures s == s[..i] + (w + s[i + |w|..])
  {
    assert s[i..] == w + s[i + |w|..];
    assert s == s[..i] + s[i..];
  }

  function DigitValue(c: char): nat {
    if IsDigit(c) then c as int - '0' as int else 0
  }

  /** Python's `int()` of a string of decimal digits. */
  function DecimalValue(digits: string): nat {
    if digits == [] then 0
    else DecimalValue(digits[..|digits| - 1]) * 10 + DigitValue(digits[|digits| - 1])
  }

  /** Leading zeros do not change the value: "#007" is pull request 7. */
  lemma {:induction false} LeadingZero(digits: string)
    ensures DecimalValue("0" + digits) == DecimalValue(digits)
  {
    if digits != [] {
      var n := |digits| - 1;
      assert ("0" + digits)[..n + 1] == "0" + digits[..n];
      LeadingZero(digits[..n]);
    }
  }

  // ---------------------------------------------------------------------------
  // Merge shape

  const MergePrefix := "Merge pull request #"
  const FromWord := " from "

  /** The messages of the merge shape, assembled from their parts. */
  function MergeMessage(digits: string, ref: string, title: string, end: string): string {
    MergePrefix + NumberTail(digits, ref, title, end)
  }

  /** What follows `#` in a merge message. */
  function NumberTail(digits: string, ref: string, title: string, end: string): string {
    digits + (FromWord + RefTail(ref, title, end))
  }

  /** What follows ` from ` in a merge message. */
  function RefTail(ref: string, title: string, end: string): string {
    ref + ("\n\n" + (title + end))
  }

  /** The parts the merge pattern admits: one or more digits, a branch reference
      without whitespace, a one-line title and an optional final line feed
      (which `$` accepts). */
  predicate MergeParts(digits: string, ref: string, title: string, end: string) {
    |digits| > 0 && AllDigits(digits) && NoSpace(ref) && NoNewline(title) &&
    (end == "" || end == "\n")
  }

  /** `(?P<pr_title>.*)$`: a line without line feed, then at most one final one. */
  function MergeTitle(s: string): Option<string> {
    var t := Span(s, IsNotNewline);
    if s[t..] == "" || s[t..] == "\n" then Some(s[..t]) else None
  }

  /** `(?:\S)*\n\n` and then the title. */
  function MergeRef(s: string): Option<string> {
    var b := Span(s, IsNonSpace);
    if StartsWith(s[b..], "\n\n") then MergeTitle(s[b + 2..]) else None
  }

  /** `(?P<pr_number>\d+) from ` and then the rest. */
  function MergeNumber(s: string): Option<PullRequestRef> {
    var d := Span(s, IsDigit);
    if d == 0 || !StartsWith(s[d..], FromWord) then None
    else
      match MergeRef(s[d + |FromWord|..])
      case None => None
      case Some(title) => Some(PullRequestRef(DecimalValue(s[..d]), title))
  }

  /** `MERGE_MSG_REGEX.match(msg)`, giving the groups `pr_number` (as an
      integer) and `pr_title`. */
  function MatchMerge(msg: string): Option<PullRequestRef> {
    if StartsWith(msg, MergePrefix) then MergeNumber(msg[|MergePrefix|..]) else None
  }

  lemma MergeTitleComplete(title: string, end: string)
    requires NoNewline(title)
    requires end == "" || end == "\n"
    ensures MergeTitle(title + end) == Some(title)
  {
    SpanUpTo(title, end, IsNotNewline);
    assert (title + end)[..|title|] == title && (title + end)[|title|..] == end;
  }

  lemma MergeRefComplete(ref: string, rest: string)
    requires NoSpace(ref)
    ensures MergeRef(ref + ("\n\n" + rest)) == MergeTitle(rest)
  {
    var s := ref + ("\n\n" + rest);
    SpanUpTo(ref, "\n\n" + rest, IsNonSpace);
    assert s[|ref|..] == "\n\n" + rest;
    assert s[|ref| + 2..] == rest;
  }

  lemma MergeNumberComplete(digits: string, rest: string)
    requires |digits| > 0 && AllDigits(digits)
    ensures MergeNumber(digits + (FromWord + rest)) ==
      match MergeRef(rest)
      case None => None
      case Some(title) => Some(PullRequestRef(DecimalValue(digits), title))
  {
    var s := digits + (FromWord + rest);
    SpanUpTo(digits, FromWord + rest, IsDigit);
    assert s[..|digits|] == digits;
    assert s[|digits|..] == FromWord + rest;
    assert s[|digits| + |FromWord|..] == rest;
  }

  /** Every message of the merge shape is matched, with its number and title. */
  lemma MergeComplete(digits: string, ref: string, title: string, end: string)
    requires MergeParts(digits, ref, title, end)
    ensures MatchMerge(MergeMessage(digits, ref, title, end))
            == Some(PullRequestRef(DecimalValue(digits), title))
  {
    var rest := NumberTail(digits, ref, title, end);
    assert MergeMessage(digits, ref, title, end)[|MergePrefix|..] == rest;
    MergeTitleComplete(title, end);
    MergeRefComplete(ref, title + end);
    MergeNumberComplete(digits, ref + ("\n\n" + (title + end)));
  }

  /** The title the merge pattern yields is one line, followed by the end it
      also accepts. */
  lemma MergeTitleSound(s: string) returns (end: string)
    requires MergeTitle(s).Some?
    ensures NoNewline(MergeTitle(s).value) && (end == "" || end == "\n")
    ensures s == MergeTitle(s).value + end
  {
    var t := Span(s, IsNotNewline);
    end := s[t..];
    assert s == s[..t] + s[t..];
    assert NoNewline(s[..t]) by {
      forall k | 0 <= k < t ensures IsNotNewline(s[..t][k]) {
        assert s[..t][k] == s[k];
      }
    }
  }

  /** What the reference part accepts: a reference without whitespace, two line
      feeds and the title. */
  lemma MergeRefSound(s: string) returns (ref: string, end: string)
    requires MergeRef(s).Some?
    ensures NoSpace(ref) && NoNewline(MergeRef(s).value) && (end == "" || end == "\n")
    ensures s == RefTail(ref, MergeRef(s).value, end)
  {
    var b := Span(s, IsNonSpace);
    ref := s[..b];
    var rest := s[b + 2..];
    assert MergeRef(s) == MergeTitle(rest);
    end := MergeTitleSound(rest);
    RefTailOf(s, b, MergeRef(s).value, end);
    SpanNonSpace(s);
  }

  lemma RefTailOf(s: string, b: nat, title: string, end: string)
    requires b <= |s| && StartsWith(s[b..], "\n\n")
    requires s[b + 2..] == title + end
    ensures s == RefTail(s[..b], title, end)
  {
    SplitAround(s, b, "\n\n");
  }

  /** What a greedy `\S*` consumes holds no whitespace. */
  lemma SpanNonSpace(s: string)
    ensures NoSpace(s[..Span(s, IsNonSpace)])
  {
    var b := Span(s, IsNonSpace);
    forall k | 0 <= k < b ensures IsNonSpace(s[..b][k]) {
      assert s[..b][k] == s[k];
    }
  }

  lemma NumberTailOf(s: string, d: nat, ref: string, title: string, end: string)
    requires d <= |s| && StartsWith(s[d..], FromWord)
    requires s[d + |FromWord|..] == RefTail(ref, title, end)
    ensures s == NumberTail(s[..d], ref, title, end)
  {
    SplitAround(s, d, FromWord);
  }

  /** What the number part accepts: digits, ` from `, and the reference part. */
  lemma MergeNumberSound(s: string) returns (digits: string, ref: string, end: string)
    requires MergeNumber(s).Some?
    ensures MergeParts(digits, ref, MergeNumber(s).value.title, end)
    ensures s == NumberTail(digits, ref, MergeNumber(s).value.title, end)
    ensures MergeNumber(s).value.number == DecimalValue(digits)
  {
    var d := Span(s, IsDigit);
    digits := s[..d];
    var rest := s[d + |FromWord|..];
    assert MergeNumber(s).value.title == MergeRef(rest).value;
    ref, end := MergeRefSound(rest);
    NumberTailOf(s, d, ref, MergeRef(rest).value, end);
    SpanDigits(s);
  }

  /** Every message the merge matcher accepts is of the merge shape, and the
      reference it yields carries that message's number and title. */
  lemma MergeSound(msg: string)
    requires MatchMerge(msg).Some?
    ensures exists digits, ref, end ::
      MergeParts(digits, ref, MatchMerge(msg).value.title, end) &&
      msg == MergeMessage(digits, ref, MatchMerge(msg).value.title, end) &&
      MatchMerge(msg).value.number == DecimalValue(digits)
  {
    var rest := msg[|MergePrefix|..];
    var r := MergeNumber(rest).value;
    var digits, ref, end := MergeNumberSound(rest);
    MergeMessageOf(msg, digits, ref, r.title, end);
  }

  lemma MergeMessageOf(msg: string, digits: string, ref: string, title: string, end: string)
    requires StartsWith(msg, MergePrefix)
    requires msg[|MergePrefix|..] == NumberTail(digits, ref, title, end)
    ensures msg == MergeMessage(digits, ref, title, end)
  {
    SplitAround(msg, 0, MergePrefix);
  }

  /** The merge matcher fails on exactly the messages that are not of the
      merge shape. */
  lemma MergeNoneIff(msg: string)
    ensures MatchMerge(msg).None? <==>
      forall digits, ref, title, end :: MergeParts(digits, ref, title, end) ==>
        msg != MergeMessage(digits, ref, title, end)
  {
    if MatchMerge(msg).Some? {
      MergeSound(msg);
    } else {
      forall digits, ref, title, end | MergeParts(digits, ref, title, end)
        ensures msg != MergeMessage(digits, ref, title, end)
      {
        MergeComplete(digits, ref, title, end);
      }
    }
  }

  /** A title followed by further lines does not match the merge shape: `.*`
      stops at the first line feed and `$` admits at most one more. */
  lemma MergeRejectsBody(digits: string, ref: string, title: string, more: string)
    requires MergeParts(digits, ref, title, "")
    requires more != ""
    ensures MatchMerge(MergeMessage(digits, ref, title, "\n" + more)).None?
  {
    var rest3 := title + ("\n" + more);
    assert MergeMessage(digits, ref, title, "\n" + more)[|MergePrefix|..]
      == NumberTail(digits, ref, title, "\n" + more);
    SpanUpTo(title, "\n" + more, IsNotNewline);
    assert rest3[|title|..] == "\n" + more;
    MergeRefComplete(ref, rest3);
    MergeNumberComplete(digits, ref + ("\n\n" + rest3));
  }

  // ---------------------------------------------------------------------------
  // Squash shape

  /** `BASE_SQUASH_MSG_REGEX.match(msg).group("base_msg")`: everything before
      the first line feed. The pattern `^(.*)` always matches. */
  function FirstLine(msg: string): (line: string)
    ensures NoNewline(line)
    ensures |line| <= |msg| && msg[..|line|] == line
    ensures |line| == |msg| || msg[|line|] == '\n'
  {
    msg[..Span(msg, IsNotNewline)]
  }

  const MarkerOpen := " (#"

  /** ` \(#(\d+)\)` at the start of `s`. */
  predicate StartsWithMarker(s: string) {
    StartsWith(s, MarkerOpen) &&
    var d := Span(s[|MarkerOpen|..], IsDigit);
    d > 0 && |MarkerOpen| + d < |s| && s[|MarkerOpen| + d] == ')'
  }

  /** The number written in the marker at the start of `s`. */
  function MarkerNumber(s: string): nat
    requires StartsWithMarker(s)
  {
    DecimalValue(s[|MarkerOpen|..|MarkerOpen| + Span(s[|MarkerOpen|..], IsDigit)])
  }

  predicate MarkerAt(line: string, i: nat) {
    i <= |line| && StartsWithMarker(line[i..])
  }

  /** The last marker position below `k`: the first one greedy backtracking
      from the end reaches. */
  function LastMarkerBelow(line: string, k: nat): (r: Option<nat>)
    ensures r.Some? ==> r.value < k && MarkerAt(line, r.value)
    ensures r.Some? ==> forall i :: r.value < i < k ==> !MarkerAt(line, i)
    ensures r.None? ==> forall i :: 0 <= i < k ==> !MarkerAt(line, i)
  {
    if k == 0 then None
    else if MarkerAt(line, k - 1) then Some(k - 1)
    else LastMarkerBelow(line, k - 1)
  }

  /** `SQUASH_MSG_REGEX.match(line)`, with the groups `pr_number` (as an
      integer) and `pr_title`. The greedy `(?P<pr_title>.*)` makes the title
      everything before the LAST ` (#<digits>)` of the line; the DOTALL `.*$`
      after it accepts any rest. */
  function MatchSquash(line: string): (r: Option<PullRequestRef>)
    ensures r.None? <==> forall i :: 0 <= i <= |line| ==> !MarkerAt(line, i)
    ensures r.Some? ==>
      var i := |r.value.title|;
      i <= |line| && line[..i] == r.value.title && MarkerAt(line, i) &&
      r.value.number == MarkerNumber(line[i..]) &&
      forall j :: i < j <= |line| ==> !MarkerAt(line, j)
  {
    match LastMarkerBelow(line, |line| + 1)
    case None => None
    case Some(i) => Some(PullRequestRef(MarkerNumber(line[i..]), line[..i]))
  }

  /** The lines of the squash shape, assembled from their parts. */
  function SquashMessage(title: string, digits: string, trailing: string): string {
    title + MarkerTail(digits, trailing)
  }

  /** A marker and what follows it. */
  function MarkerTail(digits: string, trailing: string): string {
    MarkerOpen + (digits + (")" + trailing))
  }

  /** No marker starts anywhere in `s`. */
  predicate NoMarker(s: string) {
    forall k :: 0 <= k <= |s| ==> !StartsWithMarker(s[k..])
  }

  lemma MarkerTailIsMarker(digits: string, trailing: string)
    requires |digits| > 0 && AllDigits(digits)
    ensures StartsWithMarker(MarkerTail(digits, trailing))
    ensures MarkerNumber(MarkerTail(digits, trailing)) == DecimalValue(digits)
  {
    var m := MarkerTail(digits, trailing);
    assert m[|MarkerOpen|..] == digits + (")" + trailing);
    SpanUpTo(digits, ")" + trailing, IsDigit);
    assert m[|MarkerOpen|..|MarkerOpen| + |digits|] == digits;
  }

  /** A marker begins with a space and an opening parenthesis. */
  lemma MarkerStart(s: string)
    ensures StartsWithMarker(s) ==> |s| >= 2 && s[0] == ' ' && s[1] == '('
  {
    if StartsWithMarker(s) {
      assert s[..|MarkerOpen|][0] == s[0] && s[..|MarkerOpen|][1] == s[1];
    }
  }

  /** No marker starts inside a marker tail after its leading space, except in
      the trailing text. */
  lemma MarkerTailNoInnerMarker(digits: string, trailing: string, j: nat)
    requires AllDigits(digits) && NoMarker(trailing)
    requires 0 < j <= |MarkerTail(digits, trailing)|
    ensures !StartsWithMarker(MarkerTail(digits, trailing)[j..])
  {
    var m := MarkerTail(digits, trailing);
    var q := |MarkerOpen| + |digits| + 1;
    if j < q {
      if j < |MarkerOpen| {
        assert m[j] == MarkerOpen[j];
      } else if j < |MarkerOpen| + |digits| {
        assert m[j] == digits[j - |MarkerOpen|];
      } else {
        assert m[j] == ')';
      }
      MarkerStart(m[j..]);
      assert m[j..][0] == m[j];
    } else {
      assert m[j..] == trailing[j - q..];
    }
  }

  /** Every line of the squash shape whose trailing text holds no further
      marker is matched, with its number and title. */
  lemma SquashComplete(title: string, digits: string, trailing: string)
    requires |digits| > 0 && AllDigits(digits) && NoMarker(trailing)
    ensures MatchSquash(SquashMessage(title, digits, trailing))
            == Some(PullRequestRef(DecimalValue(digits), title))
  {
    MarkerAfterTitle(title, digits, trailing);
    NoMarkerPastTitle(title, digits, trailing);
    MatchSquashAt(SquashMessage(title, digits, trailing), |title|);
  }

  /** The marker of a squash line sits right after its title. */
  lemma MarkerAfterTitle(title: string, digits: string, trailing: string)
    requires |digits| > 0 && AllDigits(digits)
    ensures var line := SquashMessage(title, digits, trailing);
      MarkerAt(line, |title|) && line[..|title|] == title &&
      MarkerNumber(line[|title|..]) == DecimalValue(digits)
  {
    var line := SquashMessage(title, digits, trailing);
    assert line[..|title|] == title && line[|title|..] == MarkerTail(digits, trailing);
    MarkerTailIsMarker(digits, trailing);
  }

  /** No marker starts in a squash line after its title's end. */
  lemma NoMarkerPastTitle(title: string, digits: string, trailing: string)
    requires AllDigits(digits) && NoMarker(trailing)
    ensures var line := SquashMessage(title, digits, trailing);
      forall j :: |title| < j <= |line| ==> !MarkerAt(line, j)
  {
    var line := SquashMessage(title, digits, trailing);
    var m := MarkerTail(digits, trailing);
    var i := |title|;
    forall j | i < j <= |line| ensures !MarkerAt(line, j) {
      assert line[j..] == m[j - i..];
      MarkerTailNoInnerMarker(digits, trailing, j - i);
    }
  }

  /** The squash matcher picks the last marker of the line. */
  lemma MatchSquashAt(line: string, i: nat)
    requires MarkerAt(line, i)
    requires forall j :: i < j <= |line| ==> !MarkerAt(line, j)
    ensures MatchSquash(line) == Some(PullRequestRef(MarkerNumber(line[i..]), line[..i]))
  {
    var r := MatchSquash(line).value;
    assert |r.title| == i;
  }

  lemma MarkerTailOf(m: string)
    requires StartsWithMarker(m)
    ensures var d := Span(m[|MarkerOpen|..], IsDigit);
      m == MarkerTail(m[|MarkerOpen|..|MarkerOpen| + d], m[|MarkerOpen| + d + 1..])
  {
    var rest := m[|MarkerOpen|..];
    var d := Span(rest, IsDigit);
    assert m == MarkerOpen + rest by {
      assert m == m[..|MarkerOpen|] + m[|MarkerOpen|..];
    }
    assert rest[d..][..1] == ")";
    SplitAround(rest, d, ")");
    assert rest[..d] == m[|MarkerOpen|..|MarkerOpen| + d];
    assert rest[d + 1..] == m[|MarkerOpen| + d + 1..];
  }

  lemma SquashMessageOf(line: string, i: nat)
    requires MarkerAt(line, i)
    ensures var d := Span(line[i..][|MarkerOpen|..], IsDigit);
      line == SquashMessage(line[..i], line[i..][|MarkerOpen|..|MarkerOpen| + d],
                            line[i..][|MarkerOpen| + d + 1..])
  {
    MarkerTailOf(line[i..]);
    assert line == line[..i] + line[i..];
  }

  /** Every line the squash matcher accepts is of the squash shape, with no
      marker after the one it picked. */
  lemma SquashSound(line: string)
    requires MatchSquash(line).Some?
    ensures var r := MatchSquash(line).value;
      exists digits, trailing ::
        |digits| > 0 && AllDigits(digits) && NoMarker(trailing) &&
        line == SquashMessage(r.title, digits, trailing) && r.number == DecimalValue(digits)
  {
    var r := MatchSquash(line).value;
    SquashAt(line, |r.title|);
  }

  /** A line with a marker at `i` and none after it is of the squash shape,
      with the title before `i`. */
  lemma SquashAt(line: string, i: nat)
    requires MarkerAt(line, i)
    requires forall j :: i < j <= |line| ==> !MarkerAt(line, j)
    ensures exists digits, trailing ::
      |digits| > 0 && AllDigits(digits) && NoMarker(trailing) &&
      line == SquashMessage(line[..i], digits, trailing) &&
      MarkerNumber(line[i..]) == DecimalValue(digits)
  {
    var m := line[i..];
    var d := Span(m[|MarkerOpen|..], IsDigit);
    var digits, trailing := m[|MarkerOpen|..|MarkerOpen| + d], m[|MarkerOpen| + d + 1..];
    SquashMessageOf(line, i);
    SpanDigits(m[|MarkerOpen|..]);
    assert digits == m[|MarkerOpen|..][..d];
    NoMarkerAfter(line, i, |MarkerOpen| + d + 1);
  }

  /** What a greedy `\d*` consumes is all digits. */
  lemma SpanDigits(s: string)
    ensures AllDigits(s[..Span(s, IsDigit)])
  {
    var d := Span(s, IsDigit);
    forall k | 0 <= k < d ensures IsDigit(s[..d][k]) {
      assert s[..d][k] == s[k];
    }
  }

  /** A suffix of a line holds no marker when the line has none from there on. */
  lemma NoMarkerAfter(line: string, i: nat, k: nat)
    requires i + k <= |line|
    requires forall j :: i + k <= j <= |line| ==> !MarkerAt(line, j)
    ensures NoMarker(line[i..][k..])
  {
    var t := line[i..][k..];
    forall q | 0 <= q <= |t| ensures !StartsWithMarker(t[q..]) {
      assert t[q..] == line[i + k + q..];
      assert !MarkerAt(line, i + k + q);
    }
  }

  /** The squash matcher needs a space right before `(#`: a line in which no
      space is followed by `(` has no squash reference. */
  lemma SquashNeedsSpaceParen(line: string)
    requires forall i :: 0 <= i < |line| - 1 ==> !(line[i] == ' ' && line[i + 1] == '(')
    ensures MatchSquash(line).None?
  {
    forall i | 0 <= i <= |line| ensures !MarkerAt(line, i) {
      MarkerStart(line[i..]);
      if i + 1 < |line| {
        assert line[i..][0] == line[i] && line[i..][1] == line[i + 1];
      }
    }
  }

  // ---------------------------------------------------------------------------
  // The commit-message parser of the history walker

  /** The merge pattern on the whole message, and when it fails the squash
      pattern on the message's first line. */
  function ParseMessage(msg: string): Option<PullRequestRef> {
    if MatchMerge(msg).Some? then MatchMerge(msg) else MatchSquash(FirstLine(msg))
  }

  /** The squash fallback looks at nothing after the first line feed. */
  lemma SquashOnlyFirstLine(line: string, body: string)
    requires NoNewline(line)
    requires MatchMerge(line + ("\n" + body)).None?
    ensures ParseMessage(line + ("\n" + body)) == MatchSquash(line)
  {
    SpanUpTo(line, "\n" + body, IsNotNewline);
    assert (line + ("\n" + body))[..|line|] == line;
  }

  /** `get_pr_number`: the number of the merge pattern's match. */
  function GetPrNumber(msg: string): (n: Option<nat>)
    ensures n.None? <==> MatchMerge(msg).None?
    ensures n.Some? ==> ParseMessage(msg).Some? && ParseMessage(msg).value.number == n.value
  {
    match MatchMerge(msg)
    case None => None
    case Some(r) => Some(r.number)
  }

  /** On a merge message, `get_pr_number` yields the number it embeds. */
  lemma GetPrNumberOfMerge(digits: string, ref: string, title: string, end: string)
    requires MergeParts(digits, ref, title, end)
    ensures GetPrNumber(MergeMessage(digits, ref, title, end)) == Some(DecimalValue(digits))
  {
    MergeComplete(digits, ref, title, end);
  }

  // ---------------------------------------------------------------------------
  // Worked examples

  lemma DecimalValue482()
    ensures DecimalValue("482") == 482
  {
    assert "482"[..2] == "48" && "48"[..1] == "4" && "4"[..0] == "";
  }

  lemma MergeExample(msg: string)
    requires msg == "Merge pull request #482 from org/b\n\nAdd widget"
    ensures ParseMessage(msg) == Some(PullRequestRef(482, "Add widget"))
  {
    var digits, ref, title, end := "482", "org/b", "Add widget", "";
    MergeExampleText(msg);
    MergeExampleParts();
    MergeComplete(digits, ref, title, end);
    DecimalValue482();
  }

  lemma MergeExampleText(msg: string)
    requires msg == "Merge pull request #482 from org/b\n\nAdd widget"
    ensures msg == MergeMessage("482", "org/b", "Add widget", "")
  {
  }

  lemma MergeExampleParts()
    ensures MergeParts("482", "org/b", "Add widget", "")
  {
  }

  lemma SquashExample(msg: string)
    requires msg == "Add widget (#482)"
    ensures ParseMessage(msg) == Some(PullRequestRef(482, "Add widget"))
  {
    var title, digits, trailing := "Add widget", "482", "";
    SquashComplete(title, digits, trailing);
    DecimalValue482();
    SquashExampleText(msg);
    OneLineNotMerge(msg);
  }

  lemma SquashExampleText(msg: string)
    requires msg == "Add widget (#482)"
    ensures msg == SquashMessage("Add widget", "482", "")
    ensures NoNewline(msg)
  {
  }

  /** Every message the merge pattern accepts holds a line feed: the one
      after the branch reference. */
  lemma MergeHasNewline(msg: string) returns (k: nat)
    requires MatchMerge(msg).Some?
    ensures k < |msg| && msg[k] == '\n'
  {
    var rest := msg[|MergePrefix|..];
    var d := Span(rest, IsDigit);
    assert MergeNumber(rest).Some?;
    var s := rest[d + |FromWord|..];
    assert MergeRef(s).Some?;
    var b := Span(s, IsNonSpace);
    assert s[b..][..2] == "\n\n";
    k := |MergePrefix| + d + |FromWord| + b;
    assert s[b] == s[b..][..2][0];
    assert msg[k] == s[b];
  }

  /** The merge pattern needs `\n\n`, so no one-line message matches it. */
  lemma OneLineNeverMerge(msg: string)
    requires NoNewline(msg)
    ensures MatchMerge(msg).None?
  {
    if MatchMerge(msg).Some? {
      var k := MergeHasNewline(msg);
      assert false;
    }
  }

  /** A one-line message, whatever it starts with, is decided by the squash
      pattern alone. */
  lemma OneLineNotMerge(msg: string)
    requires NoNewline(msg)
    ensures ParseMessage(msg) == MatchSquash(msg)
  {
    OneLineNeverMerge(msg);
    SpanUpTo(msg, "", IsNotNewline);
    assert msg + "" == msg;
  }

  lemma NoMarkerInSpaceX(trailing: string)
    requires trailing == " x"
    ensures NoMarker(trailing)
  {
    forall k | 0 <= k <= |trailing| ensures !StartsWithMarker(trailing[k..]) {
      MarkerStart(trailing[k..]);
      if k == 0 { assert trailing[k..][1] == 'x'; }
      if k == 1 { assert trailing[k..][0] == 'x'; }
    }
  }

  lemma DecimalValueOneDigit(digits: string)
    requires |digits| == 1
    ensures DecimalValue(digits) == DigitValue(digits[0])
  {
    assert digits[..0] == [];
  }

  lemma DecimalValueTwoDigits(digits: string)
    requires |digits| == 2 && AllDigits(digits)
    ensures DecimalValue(digits) == DigitValue(digits[0]) * 10 + DigitValue(digits[1])
  {
    var first := digits[..1];
    assert digits[..|digits| - 1] == first;
    assert DecimalValue(digits) == DecimalValue(first) * 10 + DigitValue(digits[1]);
    assert first[..|first| - 1] == [];
    assert DecimalValue(first) == DigitValue(first[0]);
  }

  /** With two markers on the line, the greedy title runs up to the last one. */
  lemma SquashLastMarkerExample(line: string)
    requires line == "Fix (#1) thing (#22) x"
    ensures MatchSquash(line) == Some(PullRequestRef(22, "Fix (#1) thing"))
  {
    NoMarkerInSpaceX(" x");
    assert line == SquashMessage("Fix (#1) thing", "22", " x");
    var title, digits, trailing := "Fix (#1) thing", "22", " x";
    SquashComplete(title, digits, trailing);
    DecimalValueTwoDigits("22");
  }

  /** The title of a squash line may be empty. */
  lemma SquashEmptyTitleExample(line: string)
    requires line == " (#5)"
    ensures MatchSquash(line) == Some(PullRequestRef(5, ""))
  {
    assert line == SquashMessage("", "5", "");
    var title, digits, trailing := "", "5", "";
    SquashComplete(title, digits, trailing);
    DecimalValueOneDigit("5");
  }

  /** Without the space before `(#` there is no squash reference. */
  lemma SquashNoSpaceExample(line: string)
    requires line == "Fix(#5)"
    ensures MatchSquash(line).None?
  {
    SquashNeedsSpaceParen(line);
  }

  /** A message of neither shape yields no reference. */
  lemma UnrelatedExample(msg: string)
    requires msg == "chore: bump version"
    ensures ParseMessage(msg).None?
  {
    UnrelatedText(msg);
    SquashNeedsSpaceParen(msg);
    OneLineNotMerge(msg);
  }

  lemma UnrelatedText(msg: string)
    requires msg == "chore: bump version"
    ensures NoNewline(msg)
    ensures forall i :: 0 <= i < |msg| - 1 ==> !(msg[i] == ' ' && msg[i + 1] == '(')
  {
  }

  /** The merge shape wins even where the first line also holds a squash marker. */
  lemma MergeBeforeSquashExample(msg: string)
    requires msg == "Merge pull request #1 from (#5)\n\nTitle"
    ensures ParseMessage(msg) == Some(PullRequestRef(1, "Title"))
    ensures MatchSquash(FirstLine(msg)) == Some(PullRequestRef(5, "Merge pull request #1 from"))
  {
    MergeOneExample(msg);
    FirstLineExample(msg);
    SquashFiveExample(FirstLine(msg));
  }

  lemma MergeOneExample(msg: string)
    requires msg == "Merge pull request #1 from (#5)\n\nTitle"
    ensures ParseMessage(msg) == Some(PullRequestRef(1, "Title"))
  {
    assert msg == MergeMessage("1", "(#5)", "Title", "");
    var digits, ref, title, end := "1", "(#5)", "Title", "";
    MergeComplete(digits, ref, title, end);
    DecimalValueOneDigit("1");
  }

  lemma FirstLineExample(msg: string)
    requires msg == "Merge pull request #1 from (#5)\n\nTitle"
    ensures FirstLine(msg) == "Merge pull request #1 from (#5)"
  {
    var line := "Merge pull request #1 from (#5)";
    assert msg == line + ("\n" + "\nTitle");
    FirstLineOf(msg, line, "\nTitle");
  }

  lemma FirstLineOf(msg: string, line: string, body: string)
    requires NoNewline(line) && msg == line + ("\n" + body)
    ensures FirstLine(msg) == line
  {
    SpanUpTo(line, "\n" + body, IsNotNewline);
  }

  lemma SquashFiveExample(line: string)
    requires line == "Merge pull request #1 from (#5)"
    ensures MatchSquash(line) == Some(PullRequestRef(5, "Merge pull request #1 from"))
  {
    assert line == SquashMessage("Merge pull request #1 from", "5", "");
    var title, digits, trailing := "Merge pull request #1 from", "5", "";
    SquashComplete(title, digits, trailing);
    DecimalValueOneDigit("5");
  }
}
