/** Keywords and line endings do not disturb each other (props/subst.go): normalizing the line endings
    behind the keyword stage gives what normalizing them in front of it gives. */
module SubstCommute {
  import opened Common
  import opened Decimal
  import opened Subst
  import opened SubstStages
  import opened SubstLaws

  ghost predicate NoLineEnd(s: Text) {
    forall i :: 0 <= i < |s| ==> s[i] != CARRIAGE_RETURN && s[i] != NEWLINE
  }

  ghost predicate WellSet(c: Config) {
    c.eol.Some? ==> IsEol(c.eol.value)
  }

  lemma {:induction false} LinesAgree(c: Config, s: Text, t: Text, n: nat)
    requires n <= |s| && n <= |t| && forall i :: 0 <= i < n ==> s[i] == t[i]
    ensures LinesOf(c, s, n) == LinesOf(c, t, n)
  {
    if n > 0 { LinesAgree(c, s, t, n - 1); }
  }

  function All(c: Config, s: Text): Lines { LinesOf(c, s, |s|) }

  lemma {:induction false} LinesOne(c: Config, s: Text, b: byte)
    ensures All(c, s + [b]) == if All(c, s).failed then All(c, s) else Take(c, All(c, s), b)
  {
    LinesAgree(c, s, s + [b], |s|);
    assert (s + [b])[|s|] == b;
  }

  lemma {:induction false} LinesStayFailed(c: Config, s: Text, t: Text)
    requires All(c, s).failed
    ensures All(c, s + t).failed
  {
    if t == [] {
      assert s + t == s;
    } else {
      var n := |t| - 1;
      LinesStayFailed(c, s, t[..n]);
      LinesOne(c, s + t[..n], t[n]);
      assert s + t == s + t[..n] + [t[n]];
    }
  }

  /** What follows without a line ending settles a carriage return that was pending. */
  lemma {:induction false} LinesPlain(c: Config, s: Text, t: Text)
    requires NoLineEnd(t) && t != []
    ensures var e := LastLine(c, All(c, s));
            var r := All(c, s + t);
            r.failed == e.failed && (!e.failed ==> r == e.(pendingCR := false, text := e.text + t))
    decreases |t|
  {
    var n, e := |t| - 1, LastLine(c, All(c, s));
    var u, b := t[..n], t[n];
    assert t == u + [b] && s + t == s + u + [b];
    LinesOne(c, s + u, b);
    if u == [] {
      assert s + u == s;
      assert e.text + t == e.text + [b];
    } else {
      LinesPlain(c, s, u);
      assert e.text + u + [b] == e.text + t;
    }
  }

  /** A line ending ends whatever is being held back. */
  lemma {:induction false} FeedEol(c: Config, k: Collecting, eol: Text)
    requires IsEol(eol) && (if k.inKeyword then Opening(k.keyword) else k.keyword == [])
    ensures Feed(c, k, eol, |eol|) == Collecting(CloseText(k) + eol, [], false)
  {
    assert Feed(c, k, eol, 0) == k;
    var r := Feed(c, k, eol, 1);
    assert r == Collecting(CloseText(k) + [eol[0]], [], false);
    if |eol| == 1 {
      assert eol == [eol[0]];
    } else {
      assert CloseText(k) + [eol[0]] + [eol[1]] == CloseText(k) + eol;
    }
  }

  // ----- the two orders, byte by byte -----

  /** What the keyword stage writes for a candidate holds no line ending. */
  ghost predicate KeepsLines(c: Config) {
    forall s :: Candidate(s) ==> TranslateKeyword(c, s) != [] && NoLineEnd(TranslateKeyword(c, s))
  }

  /** The keyword stage after the same bytes: k without normalizing, whose output normalizes to s;
      and m behind the normalized text l. */
  ghost predicate Together(c: Config, k: Collecting, s: Lines, l: Lines, m: Collecting) {
    && (if k.inKeyword then Opening(k.keyword) else k.keyword == [])
    && (if l.failed then LastLine(c, s).failed && (s.failed || k.inKeyword)
        else if k.inKeyword then
          && !LastLine(c, s).failed && !l.pendingCR
          && l.seenEOL == LastLine(c, s).seenEOL
          && m == Collecting(LastLine(c, s).text, k.keyword, true)
        else
          && s == Lines(CloseText(m), l.pendingCR, l.seenEOL, false)
          && (if m.inKeyword then l.pendingCR && Opening(m.keyword) else m.keyword == []))
  }

  ghost predicate TogetherAt(c1: Config, c2: Config, k: Collecting, l: Lines) {
    Together(c2, k, All(c2, k.out), l, Feed(c1, IDLE, l.text, |l.text|))
  }

  /** A line ending on both sides. */
  lemma {:induction false} EndTogether(c1: Config, c2: Config, s: Lines, l: Lines, style: nat)
    requires WellSet(c2) && 1 <= style <= 3 && !l.failed && !s.failed && s.seenEOL == l.seenEOL
    requires var m := Feed(c1, IDLE, l.text, |l.text|);
             s.text == CloseText(m) && (if m.inKeyword then Opening(m.keyword) else m.keyword == [])
    ensures var s', l' := EndLine(c2, s, style), EndLine(c2, l, style);
            s'.failed == l'.failed && s'.pendingCR == s.pendingCR && l'.pendingCR == l.pendingCR
            && (!l'.failed ==> s'.seenEOL == l'.seenEOL == style)
            && (!l'.failed ==> Feed(c1, IDLE, l'.text, |l'.text|) == Collecting(s'.text, [], false))
  {
    var eol := EolBytes(c2, style);
    FeedEol(c1, Feed(c1, IDLE, l.text, |l.text|), eol);
    FeedBoth(c1, IDLE, l.text, eol);
  }

  lemma {:induction false} PlainTogether(c1: Config, c2: Config, k: Collecting, l: Lines, b: byte)
    requires WellSet(c2) && TogetherAt(c1, c2, k, l) && !l.failed && !l.pendingCR && !k.inKeyword
    ensures TogetherAt(c1, c2, EmitTextByte(c1, k, b), TakePlain(c2, l, b))
  {
    var s, k', l' := All(c2, k.out), EmitTextByte(c1, k, b), TakePlain(c2, l, b);
    LinesOne(c2, k.out, b);
    FeedOne(c1, IDLE, l.text, b);
    if b == NEWLINE { EndTogether(c1, c2, s, l, LF_STYLE); }
  }

  lemma {:induction false} PendingTogether(c1: Config, c2: Config, k: Collecting, l: Lines, b: byte)
    requires WellSet(c2) && TogetherAt(c1, c2, k, l) && !l.failed && l.pendingCR && !k.inKeyword
    ensures TogetherAt(c1, c2, EmitTextByte(c1, k, b), Take(c2, l, b))
  {
    var s := All(c2, k.out);
    var s0, l0 := s.(pendingCR := false), l.(pendingCR := false);
    LinesOne(c2, k.out, b);
    if b == NEWLINE {
      EndTogether(c1, c2, s0, l0, CRLF_STYLE);
    } else {
      EndTogether(c1, c2, s0, l0, CR_STYLE);
      var l1 := EndLine(c2, l0, CR_STYLE);
      if !l1.failed {
        FeedOne(c1, IDLE, l1.text, b);
      }
    }
  }

  lemma {:induction false} CutTogether(c1: Config, c2: Config, k: Collecting, l: Lines, b: byte)
    requires WellSet(c2) && TogetherAt(c1, c2, k, l) && !l.failed && k.inKeyword
    requires b == CARRIAGE_RETURN || b == NEWLINE
    ensures TogetherAt(c1, c2, EmitTextByte(c1, k, b), Take(c2, l, b))
  {
    var u := k.out + k.keyword;
    LinesPlain(c2, k.out, k.keyword);
    LinesOne(c2, u, b);
    assert u + [b] == k.out + (k.keyword + [b]);
    if b == NEWLINE { EndTogether(c1, c2, All(c2, u), l, LF_STYLE); }
  }

  lemma {:induction false} HeldTogether(c1: Config, c2: Config, k: Collecting, l: Lines, b: byte)
    requires WellSet(c2) && KeepsLines(c1) && TogetherAt(c1, c2, k, l) && !l.failed && k.inKeyword
    requires b != CARRIAGE_RETURN && b != NEWLINE
    ensures TogetherAt(c1, c2, EmitTextByte(c1, k, b), Take(c2, l, b))
  {
    if b == DOLLAR {
      EndedTogether(c1, c2, k, l, k.keyword + [b]);
    } else if |k.keyword| + 1 > MAX_KEYWORD {
      FilledTogether(c1, c2, k, l, b, k.keyword + [b]);
    } else {
      FeedOne(c1, IDLE, l.text, b);
    }
  }

  lemma {:induction false} EndedTogether(c1: Config, c2: Config, k: Collecting, l: Lines, t: Text)
    requires WellSet(c2) && KeepsLines(c1) && TogetherAt(c1, c2, k, l) && !l.failed && k.inKeyword
    requires t == k.keyword + [DOLLAR]
    ensures TogetherAt(c1, c2, EmitTextByte(c1, k, DOLLAR), Take(c2, l, DOLLAR))
  {
    FeedOne(c1, IDLE, l.text, DOLLAR);
    assert Candidate(t);
    LinesPlain(c2, k.out, TranslateKeyword(c1, t));
  }

  lemma {:induction false} FilledTogether(c1: Config, c2: Config, k: Collecting, l: Lines, b: byte, t: Text)
    requires WellSet(c2) && TogetherAt(c1, c2, k, l) && !l.failed && k.inKeyword
    requires b != CARRIAGE_RETURN && b != NEWLINE && b != DOLLAR && t == k.keyword + [b] && |t| > MAX_KEYWORD
    ensures TogetherAt(c1, c2, EmitTextByte(c1, k, b), Take(c2, l, b))
  {
    FeedOne(c1, IDLE, l.text, b);
    LinesPlain(c2, k.out, t);
  }

  lemma {:induction false} FailedTogether(c1: Config, c2: Config, k: Collecting, l: Lines, b: byte)
    requires KeepsLines(c1) && TogetherAt(c1, c2, k, l) && l.failed
    ensures TogetherAt(c1, c2, EmitTextByte(c1, k, b), l)
  {
    var k', t := EmitTextByte(c1, k, b), k.keyword + [b];
    if All(c2, k.out).failed {
      assert k'.out == k.out + k'.out[|k.out|..];
      LinesStayFailed(c2, k.out, k'.out[|k.out|..]);
    } else if b == DOLLAR {
      assert Candidate(t);
      LinesPlain(c2, k.out, TranslateKeyword(c1, t));
    } else {
      LinesPlain(c2, k.out, k.keyword);
      LinesStayFailed(c2, k.out + k.keyword, [b]);
      assert k.out + k.keyword + [b] == k.out + t;
    }
  }

  lemma {:induction false} StagesTogether(c1: Config, c2: Config, y: Text, n: nat)
    requires WellSet(c2) && KeepsLines(c1) && n <= |y|
    ensures TogetherAt(c1, c2, Feed(c1, IDLE, y, n), LinesOf(c2, y, n))
  {
    if n > 0 {
      StagesTogether(c1, c2, y, n - 1);
      var k, l, b := Feed(c1, IDLE, y, n - 1), LinesOf(c2, y, n - 1), y[n - 1];
      if l.failed {
        FailedTogether(c1, c2, k, l, b);
      } else if k.inKeyword && (b == CARRIAGE_RETURN || b == NEWLINE) {
        CutTogether(c1, c2, k, l, b);
      } else if k.inKeyword {
        HeldTogether(c1, c2, k, l, b);
      } else if l.pendingCR {
        PendingTogether(c1, c2, k, l, b);
      } else {
        PlainTogether(c1, c2, k, l, b);
      }
    }
  }

  /** Line endings may be normalized before or after the keywords are translated. */
  lemma {:induction false} StagesCommute(c1: Config, c2: Config, y: Text)
    requires WellSet(c2) && KeepsLines(c1)
    ensures Normalized(c2, Keyworded(c1, y)) == match Normalized(c2, y)
                                                case None => None
                                                case Some(w) => Some(Keyworded(c1, w))
  {
    StagesTogether(c1, c2, y, |y|);
    var k, l := Feed(c1, IDLE, y, |y|), LinesOf(c2, y, |y|);
    if k.inKeyword {
      LinesPlain(c2, k.out, k.keyword);
    } else if l.pendingCR && !l.failed {
      EndTogether(c1, c2, All(c2, k.out), l, CR_STYLE);
    }
  }
}
