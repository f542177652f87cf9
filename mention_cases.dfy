/** The cases of tests/unit/utils/helpers.test.ts, stated about the model of
    `isValidEmail` and `extractMentions`. Each text is written as a
    concatenation of its tokens, which is the same string. */
module MentionCases {
  import opened Helpers

  /** "Hello @student1@example.com and @student2@test.com" yields both
      mentions, in the order they appear. */
  lemma TwoMentionsInOrder(t: string)
    requires t == "Hello " + "@student1@example.com" + " and " + "@student2@test.com"
    ensures Mentions(t, 0) == ["student1@example.com", "student2@test.com"]
  {
    var first := "@student1@example.com";
    var second := "@student2@test.com";
    assert |t| == 50;
    assert t[6..27] == first && t[32..] == second;
    assert forall k :: 0 <= k < 6 ==> t[k] != '@';
    assert forall k :: 27 <= k < 32 ==> t[k] != '@';
    FirstMention(t, first);
    SecondMention(t, second);
    SkipNonMarkers(t, 0, 6);
    SkipNonMarkers(t, 27, 32);
  }

  lemma FirstMention(t: string, m: string)
    requires |t| == 50 && t[27] == ' ' && m == "@student1@example.com" && t[6..27] == m
    ensures Mentions(t, 6) == ["student1@example.com"] + Mentions(t, 27)
  {
    assert forall k :: 6 <= k < 27 ==> t[k] == m[k - 6];
    assert t[6] == '@' && t[15] == '@' && t[23] == '.';
    assert forall k :: 7 <= k < 15 ==> NameChar(t[k]);
    assert forall k :: 16 <= k < 27 ==> NameChar(t[k]);
    MentionAt(t, 6, 15, 23, 27);
    assert t[7..27] == m[1..];
  }

  lemma SecondMention(t: string, m: string)
    requires |t| == 50 && m == "@student2@test.com" && t[32..] == m
    ensures Mentions(t, 32) == ["student2@test.com"]
  {
    assert forall k :: 32 <= k < 50 ==> t[k] == m[k - 32];
    assert t[32] == '@' && t[41] == '@' && t[46] == '.';
    assert forall k :: 33 <= k < 41 ==> NameChar(t[k]);
    assert forall k :: 42 <= k < 50 ==> NameChar(t[k]);
    MentionAt(t, 32, 41, 46, 50);
    assert t[33..50] == m[1..];
  }

  /** "@@student@example.com": the first marker starts no match, the second
      one does. */
  lemma DoubledMarkerCase(t: string)
    requires t == "@" + "@student@example.com"
    ensures Mentions(t, 0) == ["student@example.com"]
  {
    var m := "@student@example.com";
    assert |t| == 21 && t[0] == '@' && t[1..] == m;
    DoubledMarker(t, 0);
    NoMatchStep(t, 0);
    MentionAfterMarker(t, m);
  }

  lemma MentionAfterMarker(t: string, m: string)
    requires |t| == 21 && m == "@student@example.com" && t[1..] == m
    ensures Mentions(t, 1) == ["student@example.com"]
  {
    assert forall k :: 1 <= k < 21 ==> t[k] == m[k - 1];
    assert t[1] == '@' && t[9] == '@' && t[17] == '.';
    assert forall k :: 2 <= k < 9 ==> NameChar(t[k]);
    assert forall k :: 10 <= k < 21 ==> NameChar(t[k]);
    MentionAt(t, 1, 9, 17, 21);
    assert t[2..21] == m[1..];
  }

  /** A bare email without a leading marker is not a mention. */
  lemma BareEmailIsNoMention(t: string)
    requires t == "Contact " + "student@example.com" + " for more info"
    ensures Mentions(t, 0) == []
  {
    assert |t| == 41;
    assert forall k :: 0 <= k < 15 ==> t[k] != '@';
    assert forall k :: 16 <= k < 41 ==> t[k] != '@';
    assert forall k :: 16 <= k < 27 ==> NameChar(t[k]);
    assert t[15] == '@' && t[27] == ' ';
    RunEndIs(t, 16, 27);
    assert MatchAt(t, 15) == None;
    SkipNonMarkers(t, 0, 15);
    SkipNonMarkers(t, 16, |t|);
  }

  /** "Email me at support@ or @invalid": neither `@` starts an email. */
  lemma MarkersWithoutEmail(t: string)
    requires t == "Email me at support" + "@" + " or " + "@invalid"
    ensures Mentions(t, 0) == []
  {
    assert |t| == 32;
    assert forall k :: 0 <= k < 19 ==> t[k] != '@';
    assert forall k :: 20 <= k < 24 ==> t[k] != '@';
    assert t[19] == '@' && t[20] == ' ' && t[24] == '@';
    assert forall k :: 25 <= k < 32 ==> NameChar(t[k]);
    RunEndIs(t, 20, 20);
    RunEndIs(t, 25, 32);
    assert MatchAt(t, 19) == None;
    assert MatchAt(t, 24) == None;
    SkipNonMarkers(t, 0, 19);
    assert Mentions(t, 19) == Mentions(t, 20);
    SkipNonMarkers(t, 20, 24);
    assert Mentions(t, 24) == Mentions(t, 25);
    SkipNonMarkers(t, 25, 32);
  }

  /** A string made of run characters except for one `@` after the first
      character, with a dot inside the domain, is a valid address. */
  lemma AcceptedShape(s: string, at: nat, dot: nat)
    requires 0 < at && at + 1 < dot < |s| - 1
    requires s[at] == '@' && s[dot] == '.'
    requires forall k :: 0 <= k < |s| && k != at ==> NameChar(s[k])
    ensures IsValidEmail(s)
  {
    RunEndIs(s, 0, at);
    assert s[at + 1..][dot - at - 1] == '.';
  }

  lemma PlainAccepted(s: string)
    requires s == "test@example.com"
    ensures IsValidEmail(s)
  {
    AcceptedShape(s, 4, 12);
  }

  lemma DottedLocalPartAccepted(s: string)
    requires s == "user.name@domain.co.uk"
    ensures IsValidEmail(s)
  {
    AcceptedShape(s, 9, 16);
  }

  lemma PlusAccepted(s: string)
    requires s == "first+last@example.org"
    ensures IsValidEmail(s)
  {
    AcceptedShape(s, 10, 18);
  }

  lemma DigitsAccepted(s: string)
    requires s == "email123@test123.com"
    ensures IsValidEmail(s)
  {
    AcceptedShape(s, 8, 16);
  }

  /** The ordinary addresses `isValidEmail` accepts: plain, a dotted local
      part with a two-dot domain, a `+` in the local part, digits. */
  lemma AcceptedEmails(a: string, b: string, c: string, d: string)
    requires a == "test@example.com" && b == "user.name@domain.co.uk"
    requires c == "first+last@example.org" && d == "email123@test123.com"
    ensures IsValidEmail(a) && IsValidEmail(b) && IsValidEmail(c) && IsValidEmail(d)
  {
    PlainAccepted(a);
    DottedLocalPartAccepted(b);
    PlusAccepted(c);
    DigitsAccepted(d);
  }

  /** The rejected addresses: no `@` at all, an empty local part, an empty
      domain, whitespace before the `@`, an empty domain label before the
      dot, the empty string. */
  lemma InvalidEmails(a: string, b: string, c: string, d: string, e: string)
    requires a == "invalid" && b == "@example.com" && c == "test@"
    requires d == "test @example.com" && e == "test@.com"
    ensures !IsValidEmail(a) && !IsValidEmail(b) && !IsValidEmail(c)
    ensures !IsValidEmail(d) && !IsValidEmail(e) && !IsValidEmail("")
  {
    assert forall k :: 0 <= k < |a| ==> NameChar(a[k]);
    RunEndIs(a, 0, |a|);
    RunEndIs(b, 0, 0);
    assert c[4] == '@' && forall k :: 0 <= k < 4 ==> NameChar(c[k]);
    RunEndIs(c, 0, 4);
    assert d[4] == ' ' && forall k :: 0 <= k < 4 ==> NameChar(d[k]);
    RunEndIs(d, 0, 4);
    assert e[4] == '@' && forall k :: 0 <= k < 4 ==> NameChar(e[k]);
    RunEndIs(e, 0, 4);
    assert e[5..][0] == '.' && e[5..][1] == 'c' && e[5..][2] == 'o' && e[5..][3] == 'm';
  }

  /** Addresses with a part missing: no domain, a domain without a dot, no
      local part. */
  lemma MissingPartEmails(a: string, b: string, c: string)
    requires a == "test" && b == "test@domain" && c == "@domain.com"
    ensures !IsValidEmail(a) && !IsValidEmail(b) && !IsValidEmail(c)
  {
    assert forall k :: 0 <= k < |a| ==> NameChar(a[k]);
    RunEndIs(a, 0, |a|);
    assert b[4] == '@' && forall k :: 0 <= k < 4 ==> NameChar(b[k]);
    RunEndIs(b, 0, 4);
    assert forall k :: 0 <= k < |b[5..]| ==> b[5..][k] != '.';
    RunEndIs(c, 0, 0);
  }

  /** Whitespace in the local part or in the domain makes an address invalid. */
  lemma SpacedEmails(a: string, b: string)
    requires a == "test user@example.com" && b == "testuser@exam ple.com"
    ensures !IsValidEmail(a) && !IsValidEmail(b)
  {
    assert a[4] == ' ' && forall k :: 0 <= k < 4 ==> NameChar(a[k]);
    RunEndIs(a, 0, 4);
    assert b[8] == '@' && forall k :: 0 <= k < 8 ==> NameChar(b[k]);
    RunEndIs(b, 0, 8);
    assert !NameChar(b[9..][4]);
  }

  /** The accepted edge cases of `isValidEmail`. */
  lemma ValidEmails(a: string, b: string)
    requires a == "a@b.c" && b == "test..email" + "@example.com"
    ensures IsValidEmail(a) && IsValidEmail(b)
  {
    assert a[1] == '@' && a[2..][1] == '.';
    RunEndIs(a, 0, 1);
    assert forall k :: 0 <= k < 11 ==> NameChar(b[k]);
    assert b[11] == '@' && forall k :: 12 <= k < |b| ==> NameChar(b[k]);
    assert b[12..][7] == '.';
    RunEndIs(b, 0, 11);
  }
}
