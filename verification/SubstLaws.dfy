/** The laws of keyword translation (props/subst.go): one keyword stage behind another is a keyword
    stage; when expanding is undone, and when it may be repeated. */
module SubstLaws {
  import opened Common
  import opened Decimal
  import opened Strings
  import opened Subst
  import opened SubstStages

  // ----- what the keyword stage collects -----

  predicate Special(b: byte) {
    b == DOLLAR || b == CARRIAGE_RETURN || b == NEWLINE
  }

  ghost predicate NoSpecial(s: Text, lo: nat, hi: nat) {
    forall i :: lo <= i < hi && i < |s| ==> !Special(s[i])
  }

  /** What may be held back: a dollar and what follows it. */
  ghost predicate Opening(s: Text) {
    1 <= |s| <= 255 && s[0] == DOLLAR && NoSpecial(s, 1, |s|)
  }

  /** What translateKeyword is asked about. */
  ghost predicate Candidate(s: Text) {
    2 <= |s| <= 256 && s[0] == DOLLAR && s[|s| - 1] == DOLLAR && NoSpecial(s, 1, |s| - 1)
  }

  lemma {:induction false} HeldBack(c: Config, k: Collecting, s: Text, n: nat)
    requires !k.inKeyword && 1 <= n <= |s| && Opening(s[..n])
    ensures Feed(c, k, s, n) == Collecting(k.out, s[..n], true)
  {
    assert s[..n][0] == s[0];
    if n == 1 {
      assert Feed(c, k, s, 0) == k;
    } else {
      assert forall i :: 0 <= i < n ==> s[..n][i] == s[i];
      HeldBack(c, k, s, n - 1);
      assert !Special(s[..n][n - 1]);
      assert s[..n] == s[..n - 1] + [s[n - 1]];
    }
  }

  /** A candidate met while idle is translated. */
  lemma {:induction false} CandidateFed(c: Config, k: Collecting, s: Text)
    requires !k.inKeyword && Candidate(s)
    ensures Feed(c, k, s, |s|) == Collecting(k.out + TranslateKeyword(c, s), [], false)
  {
    var n := |s| - 1;
    assert forall i :: 0 <= i < n ==> s[..n][i] == s[i];
    HeldBack(c, k, s, n);
    assert s == s[..n] + [s[n]];
  }

  /** Something held back that turns out to be no keyword is passed on as it is. */
  lemma {:induction false} DumpFed(c: Config, k: Collecting, s: Text, b: byte)
    requires !k.inKeyword && Opening(s) && b != DOLLAR && (Special(b) || |s| == MAX_KEYWORD)
    ensures Feed(c, k, s + [b], |s| + 1) == Collecting(k.out + (s + [b]), [], false)
  {
    assert s[..|s|] == s;
    HeldBack(c, k, s, |s|);
    FeedOne(c, k, s, b);
  }

  // ----- one keyword stage behind another -----

  /** The second translation of every candidate, behind the first, is the third. */
  ghost predicate Composes(c1: Config, c2: Config, c3: Config) {
    forall s :: Candidate(s) ==>
      Candidate(TranslateKeyword(c1, s)) && TranslateKeyword(c2, TranslateKeyword(c1, s)) == TranslateKeyword(c3, s)
  }

  /** The first and third stage hold back the same; the second holds back nothing. */
  ghost predicate Behind(c2: Config, k1: Collecting, k3: Collecting) {
    && k1.inKeyword == k3.inKeyword && k1.keyword == k3.keyword
    && (k1.inKeyword ==> Opening(k1.keyword))
    && (!k1.inKeyword ==> k1.keyword == [])
    && Feed(c2, IDLE, k1.out, |k1.out|) == Collecting(k3.out, [], false)
  }

  lemma {:induction false} BehindStep(c1: Config, c2: Config, c3: Config, k1: Collecting, k3: Collecting, b: byte)
    requires Composes(c1, c2, c3) && Behind(c2, k1, k3)
    ensures Behind(c2, EmitTextByte(c1, k1, b), EmitTextByte(c3, k3, b))
  {
    var k2 := Collecting(k3.out, [], false);
    if !k1.inKeyword {
      FeedOne(c2, IDLE, k1.out, b);
    } else {
      var s := k1.keyword + [b];
      if b == DOLLAR {
        assert Candidate(s);
        CandidateFed(c2, k2, TranslateKeyword(c1, s));
        FeedBoth(c2, IDLE, k1.out, TranslateKeyword(c1, s));
      } else if |s| > MAX_KEYWORD || Special(b) {
        DumpFed(c2, k2, k1.keyword, b);
        FeedBoth(c2, IDLE, k1.out, s);
      }
    }
  }

  lemma {:induction false} StagesBehind(c1: Config, c2: Config, c3: Config, y: Text, n: nat)
    requires Composes(c1, c2, c3) && n <= |y|
    ensures Behind(c2, Feed(c1, IDLE, y, n), Feed(c3, IDLE, y, n))
  {
    if n > 0 {
      StagesBehind(c1, c2, c3, y, n - 1);
      BehindStep(c1, c2, c3, Feed(c1, IDLE, y, n - 1), Feed(c3, IDLE, y, n - 1), y[n - 1]);
    }
  }

  /** What holds of every candidate holds of every text. */
  lemma {:induction false} KeywordsCompose(c1: Config, c2: Config, c3: Config, y: Text)
    requires Composes(c1, c2, c3)
    ensures Keyworded(c2, Keyworded(c1, y)) == Keyworded(c3, y)
  {
    StagesBehind(c1, c2, c3, y, |y|);
    var k1, k3 := Feed(c1, IDLE, y, |y|), Feed(c3, IDLE, y, |y|);
    if k1.inKeyword {
      assert k1.keyword[..|k1.keyword|] == k1.keyword;
      HeldBack(c2, Collecting(k3.out, [], false), k1.keyword, |k1.keyword|);
      FeedBoth(c2, IDLE, k1.out, k1.keyword);
    }
  }

  // ----- the name in a candidate -----

  /** A name that some candidate can carry. */
  ghost predicate Name(name: Text) {
    && |name| <= 254 && NoSpecial(name, 0, |name|)
    && (forall i :: 0 <= i < |name| ==> name[i] != COLON)
    && (name != [] ==> !IsSpace(name[0]) && !IsSpace(name[|name| - 1]))
  }

  lemma {:induction false} SkipStops(s: Text, i: nat, n: nat)
    requires i <= n <= |s|
    ensures var k := SkipSpacesTo(s, i, n); k < n ==> !IsSpace(s[k])
    decreases n - i
  {
    if i < n && IsSpace(s[i]) { SkipStops(s, i + 1, n); }
  }

  lemma {:induction false} DropStops(s: Text, lo: nat, n: nat)
    requires lo <= n <= |s|
    ensures var k := DropSpaces(s, lo, n); lo <= k <= n && (lo < k ==> !IsSpace(s[k - 1]))
  {
    if lo < n && IsSpace(s[n - 1]) { DropStops(s, lo, n - 1); }
  }

  lemma {:induction false} ScanStops(s: Text, c: byte, i: nat)
    requires i <= |s|
    ensures var k := IndexFrom(s, c, i);
            (forall j :: i <= j < k ==> s[j] != c) && (k < |s| ==> s[k] == c)
    decreases |s| - i
  {
    if i < |s| && s[i] != c { ScanStops(s, c, i + 1); }
  }

  lemma {:induction false} NameOfIsName(s: Text)
    requires Candidate(s)
    ensures Name(NameOf(s)) && |NameOf(s)| <= |s| - 2
  {
    var n := NameEnd(s);
    ScanStops(s, COLON, 1);
    var lo := SkipSpacesTo(s, 1, n);
    SkipStops(s, 1, n);
    DropStops(s, lo, n);
    var hi := DropSpaces(s, lo, n);
    assert forall i :: 0 <= i < hi - lo ==> NameOf(s)[i] == s[lo + i];
    assert forall i :: lo <= i < hi ==> s[i] != COLON && !Special(s[i]);
  }

  /** The text is a dollar, this name, and a colon or the last dollar. */
  ghost predicate Carries(s: Text, name: Text) {
    && |name| + 2 <= |s|
    && (forall i :: 0 <= i < |name| ==> s[i + 1] == name[i])
    && (s[|name| + 1] == COLON || |s| == |name| + 2)
  }

  lemma {:induction false} CarriedName(s: Text, name: Text)
    requires Carries(s, name) && Name(name)
    ensures NameOf(s) == name
  {
    var n := |name| + 1;
    forall j | 1 <= j < n
      ensures s[j] == name[j - 1] && s[j] != COLON
    {
      var i := j - 1;
      assert s[i + 1] == name[i];
    }
    if s[n] == COLON {
      IndexFound(s, COLON, 1, n);
    } else {
      ScanStops(s, COLON, 1);
    }
    assert s[1..n] == name;
    if name != [] {
      assert s[1] == name[0] && s[n - 1] == name[|name| - 1];
    }
  }

  /** The value ends no keyword early, and its expansion can be read back as one candidate. */
  ghost predicate ValueFits(name: Text, value: Text) {
    NoSpecial(value, 0, |value|) && |name| + |value| + 5 <= 256
  }

  /** The values of all names that a candidate can carry fit. */
  ghost predicate ValuesFit(c: Config) {
    forall name :: name in c.keywords && Name(name) ==> ValueFits(name, c.keywords[name])
  }

  lemma {:induction false} ExpandedIsCandidate(name: Text, value: Text)
    requires Name(name) && ValueFits(name, value)
    ensures Candidate(Expanded(name, value)) && Carries(Expanded(name, value), name)
  {
    var s := Expanded(name, value);
    forall i | 1 <= i < |s| - 1
      ensures !Special(s[i])
    {
      assert i <= |name| ==> s[i] == name[i - 1];
      assert |name| + 3 <= i < |s| - 2 ==> s[i] == value[i - |name| - 3];
    }
  }

  lemma {:induction false} FixedIsCandidate(name: Text, value: Text, width: nat)
    requires Name(name) && NoSpecial(value, 0, |value|) && width <= 256
    requires FixedWidth(name, value, width).Some?
    ensures var s := FixedWidth(name, value, width).value;
            |s| == width && Candidate(s) && Carries(s, name) && s[|name| + 2] == COLON
  {
    var s := FixedWidth(name, value, width).value;
    var fitted := Fitted(value, width - |name| - 4);
    assert |s| == width;
    forall i | 0 <= i < |fitted|
      ensures !Special(fitted[i])
    {
      assert 0 < i <= |value| ==> fitted[i] == value[i - 1];
    }
    forall i | 1 <= i < |s| - 1
      ensures !Special(s[i])
    {
      assert i <= |name| ==> s[i] == name[i - 1];
      assert |name| + 3 <= i ==> s[i] == fitted[i - |name| - 3];
    }
  }

  lemma {:induction false} CollapsedIsCandidate(name: Text)
    requires Name(name)
    ensures Candidate([DOLLAR] + name + [DOLLAR]) && Carries([DOLLAR] + name + [DOLLAR], name)
  {
  }

  /** Expanding a candidate gives a candidate with the same name. */
  lemma {:induction false} ExpandingKeepsName(c: Config, s: Text)
    requires c.expand && ValuesFit(c) && Candidate(s)
    ensures var t := TranslateKeyword(c, s);
            Candidate(t) && NameOf(t) == NameOf(s)
  {
    var name := NameOf(s);
    NameOfIsName(s);
    if name in c.keywords {
      var value := c.keywords[name];
      if !HasDoubleColon(s) {
        ExpandedIsCandidate(name, value);
        CarriedName(Expanded(name, value), name);
      } else if FixedWidth(name, value, |s|).Some? {
        FixedIsCandidate(name, value, |s|);
        CarriedName(FixedWidth(name, value, |s|).value, name);
      }
    }
  }

  lemma {:induction false} CollapsingKeepsName(c: Config, s: Text)
    requires !c.expand && Candidate(s)
    ensures var t := TranslateKeyword(c, s);
            Candidate(t) && NameOf(t) == NameOf(s)
  {
    var name := NameOf(s);
    NameOfIsName(s);
    CollapsedIsCandidate(name);
    CarriedName([DOLLAR] + name + [DOLLAR], name);
  }

  /** Expanding leaves no trace once the keywords are collapsed. */
  lemma {:induction false} CollapseExpanded(c1: Config, c2: Config)
    requires c1.expand && !c2.expand && c1.keywords == c2.keywords && ValuesFit(c1)
    ensures Composes(c1, c2, c2)
  {
    forall s | Candidate(s)
      ensures Candidate(TranslateKeyword(c1, s))
      ensures TranslateKeyword(c2, TranslateKeyword(c1, s)) == TranslateKeyword(c2, s)
    {
      ExpandingKeepsName(c1, s);
    }
  }

  lemma {:induction false} CollapseCollapsed(c: Config)
    requires !c.expand
    ensures Composes(c, c, c)
  {
    forall s | Candidate(s)
      ensures Candidate(TranslateKeyword(c, s))
      ensures TranslateKeyword(c, TranslateKeyword(c, s)) == TranslateKeyword(c, s)
    {
      CollapsingKeepsName(c, s);
    }
  }

  /** Two colons in a row in a value that will be expanded. */
  ghost predicate DoubledValue(value: Text) {
    exists i :: 0 <= i < |value| - 1 && value[i] == COLON && value[i + 1] == COLON
  }

  ghost predicate NoDoubledValue(c: Config) {
    forall name :: name in c.keywords && Name(name) ==> !DoubledValue(c.keywords[name])
  }

  lemma {:induction false} ExpandedDoubled(name: Text, value: Text)
    requires Name(name)
    ensures HasDoubleColon(Expanded(name, value)) <==> DoubledValue(value)
  {
    var s, m := Expanded(name, value), |name| + 3;
    assert forall i :: 1 <= i <= |name| ==> s[i] == name[i - 1] && s[i] != COLON;
    assert forall i :: 0 <= i < |value| ==> s[m + i] == value[i];
    if HasDoubleColon(s) {
      var i :| 1 <= i < |s| - 2 && s[i] == COLON && s[i + 1] == COLON;
      assert value[i - m] == COLON && value[i - m + 1] == COLON;
    }
    if DoubledValue(value) {
      var i :| 0 <= i < |value| - 1 && value[i] == COLON && value[i + 1] == COLON;
      assert s[m + i] == COLON && s[m + i + 1] == COLON;
    }
  }

  lemma {:induction false} ExpandedAgain(c: Config, s: Text)
    requires c.expand && ValuesFit(c) && NoDoubledValue(c) && Candidate(s)
    ensures TranslateKeyword(c, TranslateKeyword(c, s)) == TranslateKeyword(c, s)
  {
    var name, t := NameOf(s), TranslateKeyword(c, s);
    NameOfIsName(s);
    ExpandingKeepsName(c, s);
    if name in c.keywords {
      var value := c.keywords[name];
      if !HasDoubleColon(s) {
        ExpandedDoubled(name, value);
      } else if FixedWidth(name, value, |s|).Some? {
        FixedIsCandidate(name, value, |s|);
        assert t[|name| + 1] == COLON && t[|name| + 2] == COLON;
        assert HasDoubleColon(t);
      }
    }
  }

  lemma {:induction false} ExpandExpanded(c: Config)
    requires c.expand && ValuesFit(c) && NoDoubledValue(c)
    ensures Composes(c, c, c)
  {
    forall s | Candidate(s)
      ensures Candidate(TranslateKeyword(c, s))
      ensures TranslateKeyword(c, TranslateKeyword(c, s)) == TranslateKeyword(c, s)
    {
      ExpandingKeepsName(c, s);
      ExpandedAgain(c, s);
    }
  }
}
