/** The two string scanners of src/utils/helpers.ts.

    `isValidEmail` tests `^[^\s@]+@[^\s@]+\.[^\s@]+$` and `extractMentions`
    runs the global regex `/@([^\s@]+@[^\s@]+\.[^\s@]+)/g` with `exec` until it
    returns null, collecting capture group 1. Because the character class
    `[^\s@]` excludes `@` and whitespace, a regex match starting at index i is
    decided by maximal runs of such characters; MatchAt computes it that way and
    MatchAtLongest shows that it is the longest email-shaped string after the
    marker, as the greedy, backtracking regex finds it. */
module Helpers {

  datatype Option<T> = None | Some(value: T)

  /** A successful `exec`: the match is text[start..end], group 1 is text[start + 1..end]. */
  datatype Match = Match(start: nat, end: nat)

  /** JavaScript's `\s`: the ECMAScript white space and line terminator characters. */
  predicate IsSpace(c: char) {
    || c == ' ' || c == '\t' || c == '\n' || c == '\r'
    || c == '\U{000B}' || c == '\U{000C}' || c == '\U{00A0}' || c == '\U{1680}'
    || ('\U{2000}' <= c <= '\U{200A}')
    || c == '\U{2028}' || c == '\U{2029}' || c == '\U{202F}' || c == '\U{205F}'
    || c == '\U{3000}' || c == '\U{FEFF}'
  }

  /** The character class `[^\s@]`. */
  predicate NameChar(c: char) {
    c != '@' && !IsSpace(c)
  }

  /** `[^\s@]+` matching the whole of `s`. */
  predicate NameRun(s: string) {
    |s| > 0 && forall k :: 0 <= k < |s| ==> NameChar(s[k])
  }

  /** `[^\s@]+\.[^\s@]+` matching the whole of `s`: a run with a dot that has
      at least one character on each side. */
  predicate DottedRun(s: string) {
    NameRun(s) && exists k :: 0 < k < |s| - 1 && s[k] == '.'
  }

  /** `^[^\s@]+@[^\s@]+\.[^\s@]+$`, read declaratively: a local part, one `@`,
      a dotted domain. */
  ghost predicate EmailShape(s: string) {
    exists at :: 0 <= at < |s| && s[at] == '@' && NameRun(s[..at]) && DottedRun(s[at + 1..])
  }

  /** The end of the maximal run of `[^\s@]` characters that starts at `j`. */
  function RunEnd(s: string, j: nat): (r: nat)
    requires j <= |s|
    ensures j <= r <= |s|
    ensures forall k :: j <= k < r ==> NameChar(s[k])
    ensures r < |s| ==> !NameChar(s[r])
    decreases |s| - j
  {
    if j == |s| || !NameChar(s[j]) then j else RunEnd(s, j + 1)
  }

  /** `isValidEmail`: the local part is the run before the first non-name
      character, which must be the `@`; the rest must be a dotted run. */
  function IsValidEmail(s: string): (b: bool)
    ensures b <==> EmailShape(s)
  {
    var at := RunEnd(s, 0);
    var ok := 0 < at < |s| && s[at] == '@' && DottedRun(s[at + 1..]);
    assert ok ==> EmailShape(s) by {
      if ok { assert s[..at][..] == s[..at]; }
    }
    assert EmailShape(s) ==> ok by {
      if EmailShape(s) {
        var a :| 0 <= a < |s| && s[a] == '@' && NameRun(s[..a]) && DottedRun(s[a + 1..]);
        assert forall k :: 0 <= k < a ==> NameChar(s[..a][k]);
        assert at == a;
      }
    }
    ok
  }

  /** The regex anchored at index `i`: `Some(end)` when
      `@([^\s@]+@[^\s@]+\.[^\s@]+)` matches text[i..end]. */
  function MatchAt(text: string, i: nat): (r: Option<nat>)
    requires i < |text|
    ensures r.Some? ==> text[i] == '@' && i + 1 < r.value <= |text|
    ensures r.Some? ==> EmailShape(text[i + 1..r.value])
    ensures r.Some? ==> r.value == |text| || !NameChar(text[r.value])
  {
    if text[i] != '@' then None
    else
      var at := RunEnd(text, i + 1);
      if at == i + 1 || at == |text| || text[at] != '@' then None
      else
        var e := RunEnd(text, at + 1);
        if DottedRun(text[at + 1..e]) then
          var m := text[i + 1..e];
          assert m[at - (i + 1)] == '@';
          assert m[..at - (i + 1)] == text[i + 1..at];
          assert m[at - (i + 1) + 1..] == text[at + 1..e];
          Some(e)
        else None
  }

  /** The match MatchAt finds is the longest email-shaped string after the
      marker, and there is one whenever any email-shaped string follows it:
      the greedy regex reaches to the end of the domain's run. */
  lemma MatchAtLongest(text: string, i: nat, e: nat)
    requires i < e <= |text| && text[i] == '@'
    requires EmailShape(text[i + 1..e])
    ensures MatchAt(text, i).Some? && e <= MatchAt(text, i).value
  {
    var m := text[i + 1..e];
    var a :| 0 <= a < |m| && m[a] == '@' && NameRun(m[..a]) && DottedRun(m[a + 1..]);
    LocalPartIsRun(text, i, e, a);
    var at := i + 1 + a;
    assert m[a + 1..] == text[at + 1..e];
    DomainIsRun(text, at, e, m[a + 1..]);
    MatchAtRuns(text, i, at);
  }

  /** A marker, a local-part run ending at a second `@`, and a dotted run
      after it: MatchAt matches up to the end of that run. */
  lemma MatchAtRuns(text: string, i: nat, at: nat)
    requires i + 1 < at < |text| && text[i] == '@' && text[at] == '@'
    requires RunEnd(text, i + 1) == at
    requires DottedRun(text[at + 1..RunEnd(text, at + 1)])
    ensures MatchAt(text, i) == Some(RunEnd(text, at + 1))
  {
  }

  /** The local part of an email-shaped string after the marker at `i` is
      exactly the run that starts at i + 1. */
  lemma LocalPartIsRun(text: string, i: nat, e: nat, a: nat)
    requires i < e <= |text| && a < e - (i + 1)
    requires text[i + 1..e][a] == '@' && NameRun(text[i + 1..e][..a])
    ensures 0 < a && RunEnd(text, i + 1) == i + 1 + a && text[i + 1 + a] == '@'
  {
    var m := text[i + 1..e];
    forall k | i + 1 <= k < i + 1 + a ensures NameChar(text[k]) {
      assert text[k] == m[..a][k - (i + 1)];
    }
    assert text[i + 1 + a] == m[a];
  }

  /** A dotted domain that ends at `e` extends to a dotted run ending at or
      after `e`. */
  lemma DomainIsRun(text: string, at: nat, e: nat, d: string)
    requires at < e <= |text| && d == text[at + 1..e] && DottedRun(d)
    ensures var end := RunEnd(text, at + 1); e <= end && DottedRun(text[at + 1..end])
  {
    forall k | at + 1 <= k < e ensures NameChar(text[k]) {
      assert text[k] == d[k - (at + 1)];
    }
    var end := RunEnd(text, at + 1);
    var dot :| 0 < dot < |d| - 1 && d[dot] == '.';
    assert text[at + 1..end][dot] == '.';
  }

  /** A `@` directly followed by another `@` starts no match, so "@@x@y.z"
      yields only the match at the second marker. */
  lemma DoubledMarker(text: string, i: nat)
    requires i + 1 < |text| && text[i] == '@' && text[i + 1] == '@'
    ensures MatchAt(text, i) == None
  {
  }

  /** The mentions found scanning from index `from`: where no match starts,
      the scan moves one character on; after a match it resumes at the match's
      end. */
  function Mentions(text: string, from: nat): seq<string>
    requires from <= |text|
    decreases |text| - from
  {
    if from == |text| then []
    else
      match MatchAt(text, from)
      case Some(e) => [text[from + 1..e]] + Mentions(text, e)
      case None => Mentions(text, from + 1)
  }

  /** Where no match starts, the scan moves one character on. */
  lemma NoMatchStep(text: string, from: nat)
    requires from < |text| && MatchAt(text, from) == None
    ensures Mentions(text, from) == Mentions(text, from + 1)
  {
  }

  /** After a match, the scan resumes at the match's end. */
  lemma MatchStep(text: string, from: nat, e: nat)
    requires from < |text| && MatchAt(text, from) == Some(e)
    ensures Mentions(text, from) == [text[from + 1..e]] + Mentions(text, e)
  {
  }

  /** Every mention has the `isValidEmail` shape: no whitespace, one `@`, a
      dotted domain. */
  lemma {:induction false} MentionsAreEmails(text: string, from: nat)
    requires from <= |text|
    ensures forall m :: m in Mentions(text, from) ==> IsValidEmail(m)
    decreases |text| - from
  {
    if from < |text| {
      match MatchAt(text, from)
      case Some(e) =>
        MatchStep(text, from, e);
        MentionsAreEmails(text, e);
      case None =>
        NoMatchStep(text, from);
        MentionsAreEmails(text, from + 1);
    }
  }

  /** Positions where no match starts contribute nothing. */
  lemma {:induction false} SkipUnmatched(text: string, from: nat, to: nat)
    requires from <= to <= |text|
    requires forall k :: from <= k < to ==> MatchAt(text, k) == None
    ensures Mentions(text, from) == Mentions(text, to)
    decreases |text| - from
  {
    if from < to {
      NoMatchStep(text, from);
      SkipUnmatched(text, from + 1, to);
    }
  }

  /** A stretch of text without a `@` contributes nothing. */
  lemma {:induction false} SkipNonMarkers(text: string, from: nat, to: nat)
    requires from <= to <= |text|
    requires forall k :: from <= k < to ==> text[k] != '@'
    ensures Mentions(text, from) == Mentions(text, to)
    decreases |text| - from
  {
    if from < to {
      NoMatchStep(text, from);
      SkipNonMarkers(text, from + 1, to);
    }
  }

  /** Text without a `@` mentions nobody. */
  lemma NoMarkerNoMentions(text: string)
    requires forall k :: 0 <= k < |text| ==> text[k] != '@'
    ensures Mentions(text, 0) == []
  {
    SkipNonMarkers(text, 0, |text|);
  }

  /** A run of `[^\s@]` characters from `j` that stops at `k` ends there. */
  lemma RunEndIs(s: string, j: nat, k: nat)
    requires j <= k <= |s|
    requires forall m :: j <= m < k ==> NameChar(s[m])
    requires k < |s| ==> !NameChar(s[k])
    ensures RunEnd(s, j) == k
  {
  }

  /** A marker at `i`, a local part up to the `@` at `at`, and a domain run up
      to `e` that has a dot at `dot` make a mention, and the scan goes on at `e`. */
  lemma MentionAt(text: string, i: nat, at: nat, dot: nat, e: nat)
    requires i + 1 < at && at + 1 < dot && dot + 1 < e <= |text|
    requires text[i] == '@' && text[at] == '@' && text[dot] == '.'
    requires forall k :: i + 1 <= k < at ==> NameChar(text[k])
    requires forall k :: at + 1 <= k < e ==> NameChar(text[k])
    requires e < |text| ==> !NameChar(text[e])
    ensures MatchAt(text, i) == Some(e)
    ensures Mentions(text, i) == [text[i + 1..e]] + Mentions(text, e)
  {
    RunEndIs(text, i + 1, at);
    RunEndIs(text, at + 1, e);
    assert text[at + 1..e][dot - (at + 1)] == '.';
    MatchStep(text, i, e);
  }

  /** `mentionRegex.exec(text)` with the regex's `lastIndex`: the first match
      that starts at or after `lastIndex`, or `None`. */
  method Exec(text: string, lastIndex: nat) returns (m: Option<Match>)
    requires lastIndex <= |text|
    ensures m.None? ==> forall k :: lastIndex <= k < |text| ==> MatchAt(text, k) == None
    ensures m.Some? ==> lastIndex <= m.value.start < |text|
    ensures m.Some? ==> MatchAt(text, m.value.start) == Some(m.value.end)
    ensures m.Some? ==> forall k :: lastIndex <= k < m.value.start ==> MatchAt(text, k) == None
  {
    var i := lastIndex;
    while i < |text|
      invariant lastIndex <= i <= |text|
      invariant forall k :: lastIndex <= k < i ==> MatchAt(text, k) == None
    {
      var r := MatchAt(text, i);
      if r.Some? {
        return Some(Match(i, r.value));
      }
      i := i + 1;
    }
    return None;
  }

  /** `extractMentions`: the `while ((match = mentionRegex.exec(text)) !== null)`
      loop pushing `match[1]`. */
  method ExtractMentions(text: string) returns (mentions: seq<string>)
    ensures mentions == Mentions(text, 0)
  {
    mentions := [];
    var lastIndex := 0;
    while true
      invariant lastIndex <= |text|
      invariant mentions + Mentions(text, lastIndex) == Mentions(text, 0)
      decreases |text| - lastIndex
    {
      var m := Exec(text, lastIndex);
      if m.None? {
        SkipUnmatched(text, lastIndex, |text|);
        return;
      }
      var start, end := m.value.start, m.value.end;
      var mention := text[start + 1..end];
      SkipUnmatched(text, lastIndex, start);
      MatchStep(text, start, end);
      assert mentions + [mention] + Mentions(text, end) == mentions + ([mention] + Mentions(text, end));
      mentions := mentions + [mention];
      lastIndex := end;
    }
  }
}
