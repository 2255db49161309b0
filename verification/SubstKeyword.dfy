/** What keyword translation writes, byte by byte (props/subst.go): the two expanded forms, the
    collapsed form, and the text around a keyword. */
module SubstKeyword {
  import opened Common
  import opened Decimal
  import opened Strings
  import opened Subst
  import opened SubstStages
  import opened SubstLaws
  import opened SubstCommute
  import opened SubstRoundTrip

  /** From a place on a text holds these bytes. */
  ghost predicate HasAt(s: Text, at: nat, part: Text) {
    at + |part| <= |s| && forall i :: 0 <= i < |part| ==> s[at + i] == part[i]
  }

  /** The name in a candidate stands behind its first dollar and in front of its first colon, or of
      the last dollar if there is no colon, with nothing but spaces on either side of it. */
  lemma {:induction false} NameStands(s: Text) returns (lo: nat, hi: nat, end: nat)
    requires Candidate(s)
    ensures 1 <= lo <= hi <= end < |s| && NameOf(s) == s[lo..hi]
    ensures (forall i :: 1 <= i < lo || hi <= i < end ==> IsSpace(s[i])) && (lo < hi ==> !IsSpace(s[lo]) && !IsSpace(s[hi - 1]))
    ensures (forall i :: 1 <= i < end ==> s[i] != COLON) && (s[end] == COLON || end == |s| - 1)
  {
    end := NameEnd(s);
    lo := SkipSpacesTo(s, 1, end);
    hi := DropSpaces(s, lo, end);
    ScanStops(s, COLON, 1);
    SkipStops(s, 1, end);
    SkippedAreSpaces(s, 1, end);
    DropStops(s, lo, end);
    DroppedAreSpaces(s, lo, end);
  }

  lemma {:induction false} SkippedAreSpaces(s: Text, i: nat, n: nat)
    requires i <= n <= |s|
    ensures forall k :: i <= k < SkipSpacesTo(s, i, n) ==> IsSpace(s[k])
    decreases n - i
  {
    if i < n && IsSpace(s[i]) { SkippedAreSpaces(s, i + 1, n); }
  }

  lemma {:induction false} DroppedAreSpaces(s: Text, lo: nat, n: nat)
    requires lo <= n <= |s|
    ensures forall k :: DropSpaces(s, lo, n) <= k < n ==> IsSpace(s[k])
  {
    if lo < n && IsSpace(s[n - 1]) { DroppedAreSpaces(s, lo, n - 1); }
  }

  /** The plain form: the name, a colon, and the whole value between two spaces. */
  ghost predicate IsPlainForm(t: Text, name: Text, value: Text) {
    && |t| == |name| + |value| + 5
    && t[0] == DOLLAR && HasAt(t, 1, name) && t[|name| + 1] == COLON && t[|name| + 2] == SPACE
    && HasAt(t, |name| + 3, value) && t[|t| - 2] == SPACE && t[|t| - 1] == DOLLAR
  }

  /** The form of fixed width: the name, two colons, a space, as much of the value as there is room
      for, and spaces up to the last dollar. */
  ghost predicate IsFixedForm(t: Text, name: Text, value: Text, width: nat) {
    && |t| == width && |name| + 4 <= width
    && t[0] == DOLLAR && HasAt(t, 1, name) && t[|name| + 1] == COLON && t[|name| + 2] == COLON && t[width - 1] == DOLLAR
    && (|name| + 4 < width ==> t[|name| + 3] == SPACE)
    && forall i :: |name| + 4 <= i < width - 1 ==>
         t[i] == if i - |name| - 4 < |value| then value[i - |name| - 4] else SPACE
  }

  /** Expanding a candidate with an enabled name: in plain form, or, where it holds two colons in a
      row, in the width it has; one too narrow for the name and the colons stays as it is. */
  lemma {:induction false} ExpandedForms(c: Config, s: Text)
    requires c.expand && Candidate(s) && NameOf(s) in c.keywords
    ensures Translated(c, s).Some?
    ensures var t, name := Translated(c, s).value, NameOf(s);
            if !(exists i :: 1 <= i < |s| - 2 && s[i] == COLON && s[i + 1] == COLON) then IsPlainForm(t, name, c.keywords[name])
            else if |s| < |name| + 4 then t == s
            else IsFixedForm(t, name, c.keywords[name], |s|)
  {
    CandidateAlone(c, s);
    var t, name := Translated(c, s).value, NameOf(s);
    var value := c.keywords[name];
    if HasDoubleColon(s) {
      if |s| >= |name| + 4 {
        FixedForm(name, value, |s|);
      }
    } else {
      PlainForm(name, value);
    }
  }

  lemma {:induction false} PlainForm(name: Text, value: Text)
    ensures IsPlainForm(Expanded(name, value), name, value)
  {
    var t := Expanded(name, value);
    assert forall i :: 0 <= i < |name| ==> t[1 + i] == name[i];
    assert forall i :: 0 <= i < |value| ==> t[|name| + 3 + i] == value[i];
  }

  lemma {:induction false} FixedForm(name: Text, value: Text, width: nat)
    requires |name| + 4 <= width
    ensures FixedWidth(name, value, width).Some? && IsFixedForm(FixedWidth(name, value, width).value, name, value, width)
  {
    var t := FixedWidth(name, value, width).value;
    var fitted := Fitted(value, width - |name| - 4);
    assert forall i :: 0 <= i < |name| ==> t[1 + i] == name[i];
    assert forall i :: 0 <= i < |fitted| ==> t[|name| + 3 + i] == fitted[i];
    forall i | |name| + 4 <= i < width - 1
      ensures t[i] == if i - |name| - 4 < |value| then value[i - |name| - 4] else SPACE
    {
      var k := i - |name| - 3;
      assert t[|name| + 3 + k] == fitted[k];
    }
  }

  /** Collapsing a candidate with an enabled name leaves the name between two dollars; any other
      candidate stays as it is. */
  lemma {:induction false} CollapsedForm(c: Config, s: Text)
    requires Candidate(s)
    ensures Translated(c, s).Some?
    ensures var t, name := Translated(c, s).value, NameOf(s);
            && (name !in c.keywords ==> t == s)
            && (name in c.keywords && !c.expand ==>
                  |t| == |name| + 2 && t[0] == DOLLAR && HasAt(t, 1, name) && t[|t| - 1] == DOLLAR)
  {
    CandidateAlone(c, s);
    var t, name := [DOLLAR] + NameOf(s) + [DOLLAR], NameOf(s);
    assert forall i :: 0 <= i < |name| ==> t[1 + i] == name[i];
  }

  // ----- the text around keywords -----

  /** What has been written before makes no difference to what is written next. */
  lemma {:induction false} FeedBehind(c: Config, out: Text, k: Collecting, t: Text, n: nat)
    requires Sound(k) && n <= |t|
    ensures var r := Feed(c, k, t, n);
            Feed(c, k.(out := out + k.out), t, n) == r.(out := out + r.out)
  {
    if n > 0 {
      FeedBehind(c, out, k, t, n - 1);
      var r := Feed(c, k, t, n - 1);
      assert out + (r.out + [t[n - 1]]) == out + r.out + [t[n - 1]];
      assert forall more: Text :: out + (r.out + more) == out + r.out + more;
    }
  }

  lemma {:induction false} KeywordedBehind(c: Config, out: Text, front: Text, rest: Text)
    requires Feed(c, IDLE, front, |front|) == Collecting(out, [], false)
    ensures Keyworded(c, front + rest) == out + Keyworded(c, rest)
  {
    FeedBoth(c, IDLE, front, rest);
    FeedBehind(c, out, IDLE, rest, |rest|);
    assert IDLE.(out := out + IDLE.out) == Collecting(out, [], false);
    var r := Feed(c, IDLE, rest, |rest|);
    assert out + (r.out + r.keyword) == out + r.out + r.keyword;
  }

  lemma {:induction false} IdleText(c: Config, front: Text, n: nat)
    requires n <= |front| && forall i :: 0 <= i < n ==> front[i] != DOLLAR
    ensures Feed(c, IDLE, front, n) == Collecting(front[..n], [], false)
  {
    if n > 0 {
      IdleText(c, front, n - 1);
      assert front[..n] == front[..n - 1] + [front[n - 1]];
    }
  }

  /** From left to right: text up to a dollar is copied. A dollar that is closed by another within
      256 bytes and on one line begins a keyword, and what follows is translated by itself. One that
      runs into a line end or past 256 bytes is copied up to there; one that runs into the end of
      the text is copied too. */
  lemma {:induction false} KeywordsInText(c: Config, front: Text, s: Text, b: byte, rest: Text)
    requires forall i :: 0 <= i < |front| ==> front[i] != DOLLAR
    ensures Keyworded(c, front) == front
    ensures Candidate(s) ==> Keyworded(c, front + s + rest) == front + TranslateKeyword(c, s) + Keyworded(c, rest)
    ensures Opening(s) && b != DOLLAR && (Special(b) || |s| == 255) ==>
              Keyworded(c, front + (s + [b]) + rest) == front + (s + [b]) + Keyworded(c, rest)
    ensures Opening(s) ==> Keyworded(c, front + s) == front + s
  {
    IdleText(c, front, |front|);
    assert front[..|front|] == front;
    if Candidate(s) {
      FeedBoth(c, IDLE, front, s);
      CandidateFed(c, Collecting(front, [], false), s);
      KeywordedBehind(c, front + TranslateKeyword(c, s), front + s, rest);
    }
    if Opening(s) {
      assert s[..|s|] == s;
      HeldBack(c, Collecting(front, [], false), s, |s|);
      FeedBoth(c, IDLE, front, s);
      if b != DOLLAR && (Special(b) || |s| == MAX_KEYWORD) {
        DumpFed(c, Collecting(front, [], false), s, b);
        FeedBoth(c, IDLE, front, s + [b]);
        KeywordedBehind(c, front + (s + [b]), front + (s + [b]), rest);
      }
    }
  }
}
