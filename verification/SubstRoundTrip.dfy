/** What translating twice does (props/subst.go): when a working file translates back to what is
    stored, and when a second pass changes nothing. */
module SubstRoundTrip {
  import opened Common
  import opened Decimal
  import opened Subst
  import opened SubstStages
  import opened SubstLaws
  import opened SubstCommute

  /** Translate on what Translate wrote; nothing if either fails. */
  function Again(c: Config, r: Option<Text>): Option<Text> {
    match r
    case None => None
    case Some(z) => Translated(c, z)
  }

  // ----- normalizing behind another normalization -----

  /** The first end of line, once normalized, is the second; only a lone CR can still be pending. */
  ghost predicate Follows(c1: Config, c2: Config, l1: Lines, l2: Lines) {
    var s := All(c2, l1.text);
    && !l2.failed && l1.pendingCR == l2.pendingCR
    && LastLine(c2, s).text == l2.text
    && (s.pendingCR ==> c1.eol == Some([CARRIAGE_RETURN]))
  }

  lemma {:induction false} NeverFails(c: Config, s: Text, n: nat)
    requires c.repair && n <= |s|
    ensures !LinesOf(c, s, n).failed
  {
    if n > 0 { NeverFails(c, s, n - 1); }
  }

  lemma {:induction false} FollowsEnd(c1: Config, c2: Config, l1: Lines, l2: Lines, style1: nat, style2: nat)
    requires WellSet(c1) && c1.eol.Some? && WellSet(c2) && c2.eol.Some? && c2.repair
    requires Follows(c1, c2, l1, l2) && !EndLine(c1, l1, style1).failed
    ensures Follows(c1, c2, EndLine(c1, l1, style1), EndLine(c2, l2, style2))
  {
    var eol, u := c1.eol.value, l1.text;
    NeverFails(c2, u, |u|);
    LinesOne(c2, u, eol[0]);
    if |eol| == 2 {
      NeverFails(c2, u + [eol[0]], |u| + 1);
      LinesOne(c2, u + [eol[0]], eol[1]);
      assert u + eol == u + [eol[0]] + [eol[1]];
    } else {
      assert eol == [eol[0]];
    }
  }

  lemma {:induction false} FollowsPlain(c1: Config, c2: Config, l1: Lines, l2: Lines, b: byte)
    requires WellSet(c1) && c1.eol.Some? && WellSet(c2) && c2.eol.Some? && c2.repair
    requires Follows(c1, c2, l1, l2) && !TakePlain(c1, l1, b).failed
    ensures Follows(c1, c2, TakePlain(c1, l1, b), TakePlain(c2, l2, b))
  {
    if b == NEWLINE {
      FollowsEnd(c1, c2, l1, l2, LF_STYLE, LF_STYLE);
    } else if b != CARRIAGE_RETURN {
      NeverFails(c2, l1.text, |l1.text|);
      LinesPlain(c2, l1.text, [b]);
    }
  }

  lemma {:induction false} FollowsAlong(c1: Config, c2: Config, x: Text, n: nat)
    requires WellSet(c1) && c1.eol.Some? && WellSet(c2) && c2.eol.Some? && c2.repair
    requires n <= |x| && !LinesOf(c1, x, n).failed
    ensures Follows(c1, c2, LinesOf(c1, x, n), LinesOf(c2, x, n))
  {
    if n > 0 {
      FollowsAlong(c1, c2, x, n - 1);
      var l1, l2, b := LinesOf(c1, x, n - 1), LinesOf(c2, x, n - 1), x[n - 1];
      if !l1.pendingCR {
        FollowsPlain(c1, c2, l1, l2, b);
      } else {
        var r1, r2 := l1.(pendingCR := false), l2.(pendingCR := false);
        if b == NEWLINE {
          FollowsEnd(c1, c2, r1, r2, CRLF_STYLE, CRLF_STYLE);
        } else {
          FollowsEnd(c1, c2, r1, r2, CR_STYLE, CR_STYLE);
          FollowsPlain(c1, c2, EndLine(c1, r1, CR_STYLE), EndLine(c2, r2, CR_STYLE), b);
        }
      }
    }
  }

  /** Repairing towards one end of line forgets any earlier normalization. */
  lemma {:induction false} RepairForgets(c1: Config, c2: Config, x: Text)
    requires WellSet(c1) && WellSet(c2) && c2.eol.Some? && c2.repair && Normalized(c1, x).Some?
    ensures Normalized(c2, Normalized(c1, x).value) == Normalized(c2, x)
  {
    if c1.eol == None {
      KeptIsNormal(c1, x);
    } else {
      var l1, l2 := LinesOf(c1, x, |x|), LinesOf(c2, x, |x|);
      FollowsAlong(c1, c2, x, |x|);
      if l1.pendingCR { FollowsEnd(c1, c2, l1, l2, CR_STYLE, CR_STYLE); }
      NeverFails(c2, Normalized(c1, x).value, |Normalized(c1, x).value|);
    }
  }

  /** What has been normalized stays as it is under the same settings. */
  lemma {:induction false} NormalizedStays(c: Config, x: Text)
    requires WellSet(c) && Normalized(c, x).Some?
    ensures Normalized(c, Normalized(c, x).value) == Normalized(c, x)
  {
    if c.eol == None {
      KeptIsNormal(c, x);
    } else {
      NormalizedIsPure(c, x);
      PureIsNormal(c, Normalized(c, x).value);
    }
  }

  // ----- two passes -----

  lemma {:induction false} CollapsingKeepsLines(c: Config)
    requires !c.expand
    ensures KeepsLines(c)
  {
    forall s | Candidate(s)
      ensures TranslateKeyword(c, s) != [] && NoLineEnd(TranslateKeyword(c, s))
    {
      CollapsingKeepsName(c, s);
      CandidateHasNoLineEnd(TranslateKeyword(c, s));
    }
  }

  lemma {:induction false} ExpandingKeepsLines(c: Config)
    requires c.expand && ValuesFit(c)
    ensures KeepsLines(c)
  {
    forall s | Candidate(s)
      ensures TranslateKeyword(c, s) != [] && NoLineEnd(TranslateKeyword(c, s))
    {
      ExpandingKeepsName(c, s);
      CandidateHasNoLineEnd(TranslateKeyword(c, s));
    }
  }

  lemma {:induction false} CandidateHasNoLineEnd(s: Text)
    requires Candidate(s)
    ensures NoLineEnd(s)
  {
  }

  /** The second pass over what the first wrote, when it has nothing to do about line endings. */
  lemma {:induction false} TwoPasses(c1: Config, c2: Config, c3: Config, x: Text)
    requires WellSet(c2) && KeepsLines(c1) && Composes(c1, c2, c3)
    requires Normalized(c1, x).Some?
    requires Normalized(c2, Normalized(c1, x).value) == Normalized(c3, x)
    ensures Again(c2, Translated(c1, x)) == Translated(c3, x)
  {
    var y := Normalized(c1, x).value;
    TwoStages(c1, x);
    TwoStages(c2, Keyworded(c1, y));
    TwoStages(c3, x);
    StagesCommute(c1, c2, y);
    if Normalized(c3, x).Some? {
      KeywordsCompose(c1, c2, c3, Normalized(c3, x).value);
    }
  }

  lemma {:induction false} SameLines(c: Config, d: Config, x: Text, n: nat)
    requires n <= |x| && c.eol == d.eol && c.repair == d.repair
    ensures LinesOf(c, x, n) == LinesOf(d, x, n)
  {
    if n > 0 { SameLines(c, d, x, n - 1); }
  }

  lemma {:induction false} SameNormal(c: Config, d: Config, x: Text)
    requires c.eol == d.eol && c.repair == d.repair
    ensures Normalized(c, x) == Normalized(d, x)
  {
    SameLines(c, d, x, |x|);
  }

  /** The settings that write a working file and those that read it back: the same keywords, and
      either the same treatment of line endings or a repair on the way back. */
  ghost predicate Opposite(c1: Config, c2: Config) {
    && WellSet(c1) && WellSet(c2) && c1.expand && !c2.expand && c1.keywords == c2.keywords
    && ((c1.eol == c2.eol && c1.repair == c2.repair) || (c2.eol.Some? && c2.repair))
  }

  lemma {:induction false} ReadBack(c1: Config, c2: Config, x: Text)
    requires Opposite(c1, c2) && ValuesFit(c1) && Translated(c1, x).Some?
    ensures Again(c2, Translated(c1, x)) == Translated(c2, x)
  {
    TwoStages(c1, x);
    ExpandingKeepsLines(c1);
    CollapseExpanded(c1, c2);
    if c2.eol.Some? && c2.repair {
      RepairForgets(c1, c2, x);
    } else {
      SameNormal(c1, c2, x);
      NormalizedStays(c2, x);
    }
    TwoPasses(c1, c2, c2, x);
  }

  /** Collapsing twice is collapsing once. */
  lemma {:induction false} CollapsedStays(c: Config, x: Text)
    requires WellSet(c) && !c.expand
    ensures Again(c, Translated(c, x)) == Translated(c, x)
  {
    TwoStages(c, x);
    if Normalized(c, x).Some? {
      CollapsingKeepsLines(c);
      CollapseCollapsed(c);
      NormalizedStays(c, x);
      TwoPasses(c, c, c, x);
    }
  }

  /** With an end of line to enforce, what is written holds no other. */
  lemma {:induction false} OutputIsPure(c: Config, x: Text)
    requires WellSet(c) && c.eol.Some? && (c.expand ==> ValuesFit(c))
    ensures c.repair ==> Translated(c, x).Some?
    ensures Translated(c, x).Some? ==> Pure(Translated(c, x).value, c.eol.value)
  {
    TwoStages(c, x);
    NormalizedIsPure(c, x);
    if Normalized(c, x).Some? {
      if c.expand { ExpandingKeepsLines(c); } else { CollapsingKeepsLines(c); }
      var y := Normalized(c, x).value;
      NormalizedStays(c, x);
      StagesCommute(c, c, y);
      NormalizedIsPure(c, Keyworded(c, y));
    }
  }

  // ----- when a name cannot be read back -----

  lemma {:induction false} OutGrows(c: Config, y: Text, m: nat, n: nat)
    requires m <= n <= |y|
    ensures Feed(c, IDLE, y, m).out <= Feed(c, IDLE, y, n).out
  {
    if m < n { OutGrows(c, y, m, n - 1); }
  }

  lemma {:induction false} WritesMore(c: Config, y: Text, m: nat, n: nat)
    requires m < n <= |y| && !c.expand && !Feed(c, IDLE, y, m).inKeyword
    ensures var k, written := Feed(c, IDLE, y, n), |Feed(c, IDLE, y, m).out|;
            |k.out| >= written && (!k.inKeyword ==> |k.out| > written)
  {
    if m + 1 < n { WritesMore(c, y, m, n - 1); }
  }

  /** The name is followed by a colon, and what follows is cut at j. */
  ghost predicate CutAt(s: Text, name: Text, j: nat) {
    && |name| + 1 <= j < |s| && j <= MAX_KEYWORD
    && Carries(s, name) && s[|name| + 1] == COLON && s[0] == DOLLAR && NoSpecial(s, 1, j)
    && (Special(s[j]) || j == MAX_KEYWORD) && (s[j] == DOLLAR ==> j + 1 < |s|)
  }

  function Keyword(name: Text): Text { [DOLLAR] + name + [DOLLAR] }

  lemma {:induction false} CutByDollar(c: Config, s: Text, name: Text, j: nat)
    requires !c.expand && name in c.keywords && Name(name) && CutAt(s, name, j) && s[j] == DOLLAR
    requires Feed(c, IDLE, s, j) == Collecting([], s[..j], true)
    ensures |Keyworded(c, s)| > |Keyword(name)|
  {
    var t := s[..j] + [s[j]];
    assert t[|name| + 1] == COLON;
    CarriedName(t, name);
    assert Feed(c, IDLE, s, j + 1) == Collecting([] + Keyword(name), [], false);
    WritesMore(c, s, j + 1, |s|);
  }

  lemma {:induction false} CutByOther(c: Config, s: Text, name: Text, j: nat)
    requires CutAt(s, name, j) && s[j] != DOLLAR
    requires Feed(c, IDLE, s, j) == Collecting([], s[..j], true)
    ensures |Keyworded(c, s)| > |name| + 1 && Keyworded(c, s)[|name| + 1] == COLON
  {
    var t := s[..j] + [s[j]];
    assert t[|name| + 1] == COLON;
    assert Feed(c, IDLE, s, j + 1) == Collecting([] + t, [], false);
    OutGrows(c, s, j + 1, |s|);
  }

  lemma {:induction false} CutIsSeen(c: Config, s: Text, name: Text, j: nat)
    requires !c.expand && name in c.keywords && Name(name) && CutAt(s, name, j)
    ensures Keyworded(c, s) != Keyword(name)
  {
    assert forall i :: 0 <= i < j ==> s[..j][i] == s[i];
    HeldBack(c, IDLE, s, j);
    if s[j] == DOLLAR {
      CutByDollar(c, s, name, j);
    } else {
      CutByOther(c, s, name, j);
      assert Keyword(name)[|name| + 1] == DOLLAR;
    }
  }

  lemma {:induction false} TextGrows(c: Config, x: Text, m: nat, n: nat)
    requires m <= n <= |x| && !LinesOf(c, x, n).failed
    ensures LinesOf(c, x, m).text <= LinesOf(c, x, n).text
  {
    if m < n { TextGrows(c, x, m, n - 1); }
  }

  lemma {:induction false} PlainLines(c: Config, x: Text, n: nat)
    requires n <= |x| && NoLineEnd(x[..n])
    ensures LinesOf(c, x, n) == Lines(x[..n], false, 0, false)
  {
    if n > 0 {
      assert forall i :: 0 <= i < n ==> x[..n][i] == x[i];
      PlainLines(c, x, n - 1);
      assert x[..n] == x[..n - 1] + [x[n - 1]];
    }
  }

  /** The dollar at the end adds to whatever has been written before it. */
  lemma {:induction false} LastDollar(c: Config, z: Text, m: nat)
    requires m < |z| && z[|z| - 1] == DOLLAR && Normalized(c, z).Some?
    ensures var w, t := Normalized(c, z).value, LinesOf(c, z, m).text;
            t <= w && |t| < |w|
  {
    var n := |z| - 1;
    assert LinesOf(c, z, n + 1) == Take(c, LinesOf(c, z, n), DOLLAR);
    TextGrows(c, z, m, n);
  }

  lemma {:induction false} StaysUnfailed(c: Config, z: Text, m: nat)
    requires m <= |z| && !LinesOf(c, z, |z|).failed
    ensures !LinesOf(c, z, m).failed
    decreases |z| - m
  {
    if m < |z| { StaysUnfailed(c, z, m + 1); }
  }

  /** The first byte that a line ending before it leaves. */
  lemma {:induction false} EndsInEol(c: Config, z: Text, j: nat)
    requires WellSet(c) && j + 1 < |z| && z[j] == CARRIAGE_RETURN && !LinesOf(c, z, j + 2).failed
    requires LinesOf(c, z, j) == Lines(z[..j], false, 0, false)
    ensures var t := LinesOf(c, z, j + 2).text;
            |t| > j && z[..j] <= t && t[j] in {CARRIAGE_RETURN, NEWLINE}
  {
    assert LinesOf(c, z, j + 1) == Lines(z[..j], true, 0, false);
    var style := if z[j + 1] == NEWLINE then CRLF_STYLE else CR_STYLE;
    assert z[..j] + EolBytes(c, style) <= LinesOf(c, z, j + 2).text;
  }

  /** Normalizing keeps what stands before the cut, and the cut is still one. */
  lemma {:induction false} NormalizedFrom(c: Config, z: Text, j: nat)
    requires WellSet(c) && j + 1 < |z| && NoLineEnd(z[..j]) && Normalized(c, z).Some?
    requires z[|z| - 1] == DOLLAR
    ensures var w := Normalized(c, z).value;
            && j < |w| && z[..j] <= w
            && (Special(z[j]) && z[j] != DOLLAR ==> Special(w[j]) && w[j] != DOLLAR)
            && (z[j] == DOLLAR || !Special(z[j]) ==> w[j] == z[j] && j + 1 < |w|)
  {
    PlainLines(c, z, j);
    LastDollar(c, z, j + 1);
    if z[j] == CARRIAGE_RETURN {
      StaysUnfailed(c, z, j + 2);
      TextGrows(c, z, j + 2, |z|);
      EndsInEol(c, z, j);
    } else if z[j] == NEWLINE {
      assert LinesOf(c, z, j + 1).text == z[..j] + EolBytes(c, LF_STYLE);
    } else {
      assert LinesOf(c, z, j + 1).text == z[..j] + [z[j]];
    }
  }

  /** Normalizing line endings does not undo a cut. */
  lemma {:induction false} CutStays(c: Config, z: Text, name: Text, j: nat)
    requires WellSet(c) && CutAt(z, name, j) && j + 1 < |z| && z[|z| - 1] == DOLLAR
    requires Normalized(c, z).Some?
    ensures CutAt(Normalized(c, z).value, name, j)
  {
    assert forall i :: 0 <= i < j ==> z[..j][i] == z[i];
    NormalizedFrom(c, z, j);
    var w := Normalized(c, z).value;
    assert forall i :: 0 <= i < j ==> w[i] == z[i];
  }

  lemma {:induction false} FirstCut(z: Text, i: nat) returns (j: nat)
    requires 1 <= i < |z| - 1 && i <= MAX_KEYWORD && NoSpecial(z, 1, i)
    requires !NoSpecial(z, i, |z| - 1) || |z| > MAX_KEYWORD + 1
    ensures i <= j < |z| - 1 && j <= MAX_KEYWORD && NoSpecial(z, 1, j) && (Special(z[j]) || j == MAX_KEYWORD)
    decreases |z| - i
  {
    j := i;
    if !Special(z[i]) && i < MAX_KEYWORD {
      j := FirstCut(z, i + 1);
    }
  }

  /** The expansion of a value that does not fit is cut before its end. */
  lemma {:induction false} ExpandedIsCut(name: Text, value: Text) returns (j: nat)
    requires Name(name) && !ValueFits(name, value)
    ensures CutAt(Expanded(name, value), name, j) && j + 1 < |Expanded(name, value)|
  {
    var z, m := Expanded(name, value), |name| + 3;
    assert forall i :: 1 <= i <= |name| ==> z[i] == name[i - 1];
    assert forall i :: 0 <= i < |value| ==> z[m + i] == value[i];
    if NoSpecial(z, |name| + 1, |z| - 1) {
      forall i | 0 <= i < |value|
        ensures !Special(value[i])
      {
        assert z[m + i] == value[i];
      }
    }
    j := FirstCut(z, |name| + 1);
  }

  /** A candidate on its own is translated as a keyword, whatever the end of line. */
  lemma {:induction false} CandidateAlone(c: Config, s: Text)
    requires Candidate(s)
    ensures Translated(c, s) == Some(TranslateKeyword(c, s))
  {
    CandidateHasNoLineEnd(s);
    assert s[..|s|] == s;
    PlainLines(c, s, |s|);
    TwoStages(c, s);
    CandidateFed(c, IDLE, s);
    assert [] + TranslateKeyword(c, s) == TranslateKeyword(c, s);
  }

  lemma {:induction false} KeywordWritten(c: Config, name: Text)
    requires c.expand && Name(name) && name in c.keywords
    ensures Translated(c, Keyword(name)) == Some(Expanded(name, c.keywords[name]))
  {
    var x := Keyword(name);
    CollapsedIsCandidate(name);
    CarriedName(x, name);
    CandidateAlone(c, x);
    assert forall i :: 1 <= i < |x| - 2 ==> x[i] == name[i - 1] && x[i] != COLON;
  }

  lemma {:induction false} KeywordRead(c: Config, name: Text)
    requires !c.expand && Name(name) && name in c.keywords
    ensures Translated(c, Keyword(name)) == Some(Keyword(name))
  {
    var x := Keyword(name);
    CollapsedIsCandidate(name);
    CarriedName(x, name);
    CandidateAlone(c, x);
  }

  lemma {:induction false} NotReadBack(c1: Config, c2: Config, name: Text)
    requires Opposite(c1, c2) && name in c1.keywords && Name(name) && !ValueFits(name, c1.keywords[name])
    ensures Translated(c1, Keyword(name)).Some?
    ensures Again(c2, Translated(c1, Keyword(name))) != Translated(c2, Keyword(name))
  {
    var z := Expanded(name, c1.keywords[name]);
    KeywordWritten(c1, name);
    KeywordRead(c2, name);
    var j := ExpandedIsCut(name, c1.keywords[name]);
    TwoStages(c2, z);
    if Normalized(c2, z).Some? {
      CutStays(c2, z, name, j);
      CutIsSeen(c2, Normalized(c2, z).value, name, j);
    }
  }

  /** Expanding keywords leaves no trace in what is read back, for every text, exactly when every
      value fits. */
  lemma {:induction false} ReadBackExactly(c1: Config, c2: Config)
    requires Opposite(c1, c2)
    ensures (forall x :: Translated(c1, x).Some? ==> Again(c2, Translated(c1, x)) == Translated(c2, x)) <==> ValuesFit(c1)
  {
    if ValuesFit(c1) {
      forall x | Translated(c1, x).Some?
        ensures Again(c2, Translated(c1, x)) == Translated(c2, x)
      {
        ReadBack(c1, c2, x);
      }
    } else {
      var name :| name in c1.keywords && Name(name) && !ValueFits(name, c1.keywords[name]);
      NotReadBack(c1, c2, name);
    }
  }

  lemma {:induction false} ExpandedChanges(c: Config, name: Text)
    requires WellSet(c) && c.expand && ValuesFit(c)
    requires name in c.keywords && Name(name) && DoubledValue(c.keywords[name])
    ensures Again(c, Translated(c, Keyword(name))) != Translated(c, Keyword(name))
  {
    var value := c.keywords[name];
    var z := Expanded(name, value);
    KeywordWritten(c, name);
    ExpandedIsCandidate(name, value);
    ExpandedDoubled(name, value);
    CandidateAlone(c, z);
    DoubledIsFixed(c, name, value, z);
  }

  /** In fixed width a colon stands where the plain form has a space. */
  lemma {:induction false} DoubledIsFixed(c: Config, name: Text, value: Text, z: Text)
    requires c.expand && name in c.keywords && c.keywords[name] == value && z == Expanded(name, value)
    requires Name(name) && Carries(z, name) && HasDoubleColon(z)
    ensures TranslateKeyword(c, z) != z
  {
    CarriedName(z, name);
    var t := TranslateKeyword(c, z);
    assert t[|name| + 2] == COLON && z[|name| + 2] == SPACE;
  }

  /** Expanding again changes nothing, for every text, exactly when no value holds two colons in a
      row. */
  lemma {:induction false} ExpandedStaysExactly(c: Config)
    requires WellSet(c) && c.expand && ValuesFit(c)
    ensures (forall x :: Again(c, Translated(c, x)) == Translated(c, x)) <==> NoDoubledValue(c)
  {
    if NoDoubledValue(c) {
      ExpandingKeepsLines(c);
      ExpandExpanded(c);
      forall x
        ensures Again(c, Translated(c, x)) == Translated(c, x)
      {
        TwoStages(c, x);
        if Normalized(c, x).Some? {
          NormalizedStays(c, x);
          TwoPasses(c, c, c, x);
        }
      }
    } else {
      var name :| name in c.keywords && Name(name) && DoubledValue(c.keywords[name]);
      ExpandedChanges(c, name);
    }
  }

  // ----- when nothing is translated, and when nothing can be -----

  lemma {:induction false} NothingReplaced(c: Config, k: Collecting, b: byte)
    requires c.keywords == map[] && Sound(k)
    ensures CloseText(EmitTextByte(c, k, b)) == CloseText(k) + [b]
  {
    if k.inKeyword {
      assert k.out + (k.keyword + [b]) == k.out + k.keyword + [b];
    }
  }

  lemma {:induction false} NothingKeyworded(c: Config, y: Text, n: nat)
    requires c.keywords == map[] && n <= |y|
    ensures CloseText(Feed(c, IDLE, y, n)) == y[..n]
  {
    if n > 0 {
      NothingKeyworded(c, y, n - 1);
      NothingReplaced(c, Feed(c, IDLE, y, n - 1), y[n - 1]);
      assert y[..n] == y[..n - 1] + [y[n - 1]];
    }
  }

  /** Without keywords and without an end of line every text is copied. */
  lemma {:induction false} NothingToDo(c: Config, x: Text)
    requires c.keywords == map[] && c.eol == None
    ensures Translated(c, x) == Some(x)
  {
    TwoStages(c, x);
    KeptIsNormal(c, x);
    NothingKeyworded(c, x, |x|);
    assert x[..|x|] == x;
  }

  /** The style of the line ending whose last byte stands at i; 0 if none ends there. */
  function StyleAt(x: Text, i: int): nat
    requires 0 <= i < |x|
  {
    if x[i] == NEWLINE then (if i > 0 && x[i - 1] == CARRIAGE_RETURN then CRLF_STYLE else LF_STYLE)
    else if x[i] == CARRIAGE_RETURN then (if i + 1 < |x| && x[i + 1] == NEWLINE then 0 else CR_STYLE)
    else 0
  }

  /** Two line endings of different styles. */
  ghost predicate Mixed(x: Text) {
    exists i, j :: 0 <= i < |x| && 0 <= j < |x| && StyleAt(x, i) != 0 && StyleAt(x, j) != 0 && StyleAt(x, i) != StyleAt(x, j)
  }

  /** All line endings before n are of this style, 0 meaning that there are none. */
  ghost predicate SeenBefore(x: Text, n: int, style: nat) {
    && (forall i :: 0 <= i < n && i < |x| ==> StyleAt(x, i) == 0 || StyleAt(x, i) == style)
    && (style != 0 ==> exists i :: 0 <= i < n && i < |x| && StyleAt(x, i) == style)
  }

  /** One more line ending: seen, or mixed. */
  lemma {:induction false} EndSeen(c: Config, x: Text, s: Lines, n: nat)
    requires c.eol.Some? && !c.repair && n < |x| && StyleAt(x, n) != 0 && SeenBefore(x, n, s.seenEOL) && !s.failed
    ensures var t := EndLine(c, s, StyleAt(x, n));
            if t.failed then Mixed(x) else SeenBefore(x, n + 1, t.seenEOL)
  {
  }

  lemma {:induction false} SeenAlong(c: Config, x: Text, n: nat)
    requires c.eol.Some? && !c.repair && n <= |x|
    ensures var s := LinesOf(c, x, n);
            if s.failed then Mixed(x)
            else
              && (s.pendingCR <==> n > 0 && x[n - 1] == CARRIAGE_RETURN)
              && SeenBefore(x, if s.pendingCR then n - 1 else n, s.seenEOL)
  {
    if n > 0 {
      SeenAlong(c, x, n - 1);
      var s, b := LinesOf(c, x, n - 1), x[n - 1];
      if !s.failed {
        var s0 := s.(pendingCR := false);
        if s.pendingCR && b != NEWLINE {
          EndSeen(c, x, s0, n - 2);
          if !EndLine(c, s0, CR_STYLE).failed && b != CARRIAGE_RETURN {
            assert StyleAt(x, n - 1) == 0;
          }
        } else if b == NEWLINE {
          assert s.pendingCR ==> StyleAt(x, n - 2) == 0;
          EndSeen(c, x, s0, n - 1);
        } else if b != CARRIAGE_RETURN {
          assert StyleAt(x, n - 1) == 0;
        }
      }
    }
  }

  /** Translating fails exactly on mixed line endings that must be enforced but not repaired. */
  lemma {:induction false} FailsExactly(c: Config, x: Text)
    ensures Translated(c, x) == None <==> c.eol.Some? && !c.repair && Mixed(x)
  {
    TwoStages(c, x);
    var s := LinesOf(c, x, |x|);
    if c.eol == None {
      KeptIsNormal(c, x);
    } else if c.repair {
      NeverFails(c, x, |x|);
    } else {
      SeenAlong(c, x, |x|);
      if !s.failed && s.pendingCR {
        EndSeen(c, x, s, |x| - 1);
      }
    }
  }

  /** The first n bytes of a text with every line ending in them replaced. */
  ghost function Replaced(x: Text, n: nat, eol: Text): Text
    requires n <= |x|
  {
    if n == 0 then []
    else if StyleAt(x, n - 1) != 0 then Replaced(x, n - 1, eol) + eol
    else if x[n - 1] == CARRIAGE_RETURN then Replaced(x, n - 1, eol)
    else Replaced(x, n - 1, eol) + [x[n - 1]]
  }

  lemma {:induction false} ReplacedAlong(c: Config, x: Text, n: nat)
    requires c.eol.Some? && n <= |x| && !LinesOf(c, x, n).failed
    ensures var s := LinesOf(c, x, n);
            && (s.pendingCR <==> n > 0 && x[n - 1] == CARRIAGE_RETURN)
            && s.text == Replaced(x, if s.pendingCR then n - 1 else n, c.eol.value)
  {
    if n > 0 {
      ReplacedAlong(c, x, n - 1);
      var s, b := LinesOf(c, x, n - 1), x[n - 1];
      if s.pendingCR {
        assert StyleAt(x, n - 2) == if b == NEWLINE then 0 else CR_STYLE;
      }
    }
  }

  /** With an end of line to enforce, every line ending is replaced by it and all other bytes stay. */
  lemma {:induction false} LinesReplaced(c: Config, x: Text)
    requires c.eol.Some? && Normalized(c, x).Some?
    ensures Normalized(c, x).value == Replaced(x, |x|, c.eol.value)
  {
    ReplacedAlong(c, x, |x|);
    var s := LinesOf(c, x, |x|);
    if s.pendingCR {
      assert StyleAt(x, |x| - 1) == CR_STYLE;
    }
  }
}
