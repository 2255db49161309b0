/** The translation automaton is two stages, one behind the other (props/subst.go): line endings
    first, keywords second. What the line-ending stage does. */
module SubstStages {
  import opened Common
  import opened Decimal
  import opened Subst

  // ----- the line-ending stage on its own -----

  /** The text with its line endings translated so far. */
  datatype Lines = Lines(text: Text, pendingCR: bool, seenEOL: nat, failed: bool)

  const NO_LINES := Lines([], false, 0, false)

  function EndLine(c: Config, s: Lines, style: nat): Lines {
    if Mixes(c, s.seenEOL, style) then s.(failed := true)
    else s.(seenEOL := style, text := s.text + EolBytes(c, style))
  }

  function TakePlain(c: Config, s: Lines, b: byte): Lines {
    if b == CARRIAGE_RETURN then s.(pendingCR := true)
    else if b == NEWLINE then EndLine(c, s, LF_STYLE)
    else s.(text := s.text + [b])
  }

  function Take(c: Config, s: Lines, b: byte): Lines {
    if !s.pendingCR then TakePlain(c, s, b)
    else if b == NEWLINE then EndLine(c, s.(pendingCR := false), CRLF_STYLE)
    else
      var t := EndLine(c, s.(pendingCR := false), CR_STYLE);
      if t.failed then t else TakePlain(c, t, b)
  }

  function LinesOf(c: Config, x: Text, n: nat): Lines
    requires n <= |x|
  {
    if n == 0 then NO_LINES
    else
      var s := LinesOf(c, x, n - 1);
      if s.failed then s else Take(c, s, x[n - 1])
  }

  function LastLine(c: Config, s: Lines): Lines {
    if s.failed || !s.pendingCR then s else EndLine(c, s, CR_STYLE)
  }

  /** The input with all its line endings translated, or nothing if they are mixed. */
  function Normalized(c: Config, x: Text): Option<Text> {
    var s := LastLine(c, LinesOf(c, x, |x|));
    if s.failed then None else Some(s.text)
  }

  /** The keyword stage on its own. */
  function Keyworded(c: Config, y: Text): Text {
    CloseText(Feed(c, IDLE, y, |y|))
  }

  // ----- the automaton is one stage behind the other -----

  lemma {:induction false} FeedAgrees(c: Config, k: Collecting, s: Text, t: Text, n: nat)
    requires Sound(k) && n <= |s| && n <= |t| && forall i :: 0 <= i < n ==> s[i] == t[i]
    ensures Feed(c, k, s, n) == Feed(c, k, t, n)
  {
    if n > 0 { FeedAgrees(c, k, s, t, n - 1); }
  }

  lemma {:induction false} FeedFrom(c: Config, k: Collecting, s: Text, t: Text, n: nat)
    requires Sound(k) && n <= |t|
    ensures Feed(c, Feed(c, k, s, |s|), t, n) == Feed(c, k, s + t, |s| + n)
  {
    if n == 0 {
      FeedAgrees(c, k, s, s + t, |s|);
    } else {
      FeedFrom(c, k, s, t, n - 1);
      assert (s + t)[|s| + n - 1] == t[n - 1];
    }
  }

  /** Feeding one text behind another. */
  lemma {:induction false} FeedBoth(c: Config, k: Collecting, s: Text, t: Text)
    requires Sound(k)
    ensures Feed(c, Feed(c, k, s, |s|), t, |t|) == Feed(c, k, s + t, |s + t|)
  {
    FeedFrom(c, k, s, t, |t|);
  }

  lemma {:induction false} FeedOne(c: Config, k: Collecting, s: Text, b: byte)
    requires Sound(k)
    ensures Feed(c, k, s + [b], |s| + 1) == EmitTextByte(c, Feed(c, k, s, |s|), b)
  {
    FeedAgrees(c, k, s, s + [b], |s|);
  }

  /** A state of the automaton is a state of the line-ending stage whose text has been fed to the
      keyword stage. */
  ghost predicate Matches(c: Config, s: State, e: Lines) {
    && s.failed == e.failed
    && (!s.failed ==> s == State(Feed(c, IDLE, e.text, |e.text|), e.pendingCR, e.seenEOL, false))
  }

  lemma {:induction false} EndLineMatches(c: Config, s: State, e: Lines, style: nat)
    requires Sound(s.k) && !s.failed && Matches(c, s, e)
    ensures Matches(c, EmitEOL(c, s, style), EndLine(c, e, style))
  {
    FeedBoth(c, IDLE, e.text, EolBytes(c, style));
  }

  lemma {:induction false} PlainMatches(c: Config, s: State, e: Lines, b: byte)
    requires Sound(s.k) && !s.failed && Matches(c, s, e)
    ensures Matches(c, ConsumePlain(c, s, b), TakePlain(c, e, b))
  {
    if b == NEWLINE {
      EndLineMatches(c, s, e, LF_STYLE);
    } else if b != CARRIAGE_RETURN {
      FeedOne(c, IDLE, e.text, b);
    }
  }

  lemma {:induction false} ByteMatches(c: Config, s: State, e: Lines, b: byte)
    requires Sound(s.k) && !s.failed && Matches(c, s, e)
    ensures Matches(c, Consume(c, s, b), Take(c, e, b))
  {
    if !s.pendingCR {
      PlainMatches(c, s, e, b);
    } else {
      var s', e' := s.(pendingCR := false), e.(pendingCR := false);
      if b == NEWLINE {
        EndLineMatches(c, s', e', CRLF_STYLE);
      } else {
        EndLineMatches(c, s', e', CR_STYLE);
        if !EndLine(c, e', CR_STYLE).failed {
          PlainMatches(c, EmitEOL(c, s', CR_STYLE), EndLine(c, e', CR_STYLE), b);
        }
      }
    }
  }

  lemma {:induction false} RunMatches(c: Config, x: Text, n: nat)
    requires n <= |x|
    ensures Matches(c, Run(c, x, n), LinesOf(c, x, n))
  {
    if n > 0 {
      RunMatches(c, x, n - 1);
      var s := Run(c, x, n - 1);
      if !s.failed {
        ByteMatches(c, s, LinesOf(c, x, n - 1), x[n - 1]);
      }
    }
  }

  /** Translating is normalizing the line endings and then translating the keywords; it fails
      exactly when the first fails. */
  lemma {:induction false} TwoStages(c: Config, x: Text)
    ensures Translated(c, x) == match Normalized(c, x)
                                case None => None
                                case Some(y) => Some(Keyworded(c, y))
  {
    RunMatches(c, x, |x|);
    var s, e := Run(c, x, |x|), LinesOf(c, x, |x|);
    if !s.failed && s.pendingCR {
      EndLineMatches(c, s, e, CR_STYLE);
    }
  }

  // ----- line endings -----

  predicate IsEol(eol: Text) {
    eol == [NEWLINE] || eol == [CARRIAGE_RETURN] || eol == [CARRIAGE_RETURN, NEWLINE]
  }

  /** A carriage return or line feed at this place belongs to this end of line. */
  predicate PureAt(s: Text, eol: Text, i: int)
    requires 0 <= i < |s|
  {
    if s[i] == CARRIAGE_RETURN then
      || eol == [CARRIAGE_RETURN]
      || (eol == [CARRIAGE_RETURN, NEWLINE] && i + 1 < |s| && s[i + 1] == NEWLINE)
    else if s[i] == NEWLINE then
      || eol == [NEWLINE]
      || (eol == [CARRIAGE_RETURN, NEWLINE] && 0 < i && s[i - 1] == CARRIAGE_RETURN)
    else true
  }

  /** Every carriage return and every line feed belongs to this end of line. */
  ghost predicate Pure(s: Text, eol: Text) {
    forall i :: 0 <= i < |s| ==> PureAt(s, eol, i)
  }

  /** Appending a whole line ending, or any other byte, keeps a text pure. */
  lemma {:induction false} PureAppend(s: Text, eol: Text, more: Text)
    requires Pure(s, eol) && IsEol(eol)
    requires more == eol || (|more| == 1 && more[0] != CARRIAGE_RETURN && more[0] != NEWLINE)
    ensures Pure(s + more, eol)
  {
    var t := s + more;
    forall i | 0 <= i < |t|
      ensures PureAt(t, eol, i)
    {
      if i < |s| {
        assert PureAt(s, eol, i) && t[i] == s[i];
        assert i + 1 < |s| ==> t[i + 1] == s[i + 1];
        assert 0 < i ==> t[i - 1] == s[i - 1];
      } else {
        assert t[i] == more[i - |s|];
        assert |eol| == 2 && more == eol ==> t[|s|] == eol[0] && t[|s| + 1] == eol[1];
        assert i == |s| || i == |s| + 1;
      }
    }
  }

  /** With an end of line to enforce, only that end of line is left. */
  lemma {:induction false} EnforcedIsPure(c: Config, x: Text, n: nat)
    requires n <= |x| && c.eol.Some? && IsEol(c.eol.value)
    ensures Pure(LinesOf(c, x, n).text, c.eol.value)
    ensures c.repair ==> !LinesOf(c, x, n).failed
  {
    if n > 0 {
      EnforcedIsPure(c, x, n - 1);
      var s, b := LinesOf(c, x, n - 1), x[n - 1];
      PureAppend(s.text, c.eol.value, c.eol.value);
      if b != CARRIAGE_RETURN && b != NEWLINE {
        PureAppend(s.text, c.eol.value, [b]);
        PureAppend(s.text + c.eol.value, c.eol.value, [b]);
      } else if b == NEWLINE {
        PureAppend(s.text + c.eol.value, c.eol.value, c.eol.value);
      }
    }
  }

  lemma {:induction false} NormalizedIsPure(c: Config, x: Text)
    requires c.eol.Some? && IsEol(c.eol.value)
    ensures c.repair ==> Normalized(c, x).Some?
    ensures Normalized(c, x).Some? ==> Pure(Normalized(c, x).value, c.eol.value)
  {
    EnforcedIsPure(c, x, |x|);
    PureAppend(LinesOf(c, x, |x|).text, c.eol.value, c.eol.value);
  }

  /** The style in which a text with one kind of line ending is read. */
  function StyleOf(eol: Text): nat {
    if eol == [CARRIAGE_RETURN] then CR_STYLE else if eol == [NEWLINE] then LF_STYLE else CRLF_STYLE
  }

  function Held(pendingCR: bool): Text {
    if pendingCR then [CARRIAGE_RETURN] else []
  }

  /** A text that has only the wanted line ending passes unchanged, with or without repair. */
  lemma {:induction false} PurePasses(c: Config, x: Text, n: nat)
    requires n <= |x| && c.eol.Some? && IsEol(c.eol.value) && Pure(x, c.eol.value)
    ensures var s := LinesOf(c, x, n);
            && !s.failed && s.text + Held(s.pendingCR) == x[..n]
            && (s.seenEOL == 0 || s.seenEOL == StyleOf(c.eol.value))
            && (s.pendingCR <==> n > 0 && x[n - 1] == CARRIAGE_RETURN)
  {
    if n > 0 {
      PurePasses(c, x, n - 1);
      assert x[..n] == x[..n - 1] + [x[n - 1]];
      var s, b := LinesOf(c, x, n - 1), x[n - 1];
      assert PureAt(x, c.eol.value, n - 1);
      if s.pendingCR {
        assert PureAt(x, c.eol.value, n - 2);
        assert s.text + [CARRIAGE_RETURN] + [b] == s.text + [CARRIAGE_RETURN, b];
      } else {
        assert s.text + [] == s.text;
      }
    }
  }

  lemma {:induction false} PureIsNormal(c: Config, x: Text)
    requires c.eol.Some? && IsEol(c.eol.value) && Pure(x, c.eol.value)
    ensures Normalized(c, x) == Some(x)
  {
    PurePasses(c, x, |x|);
    assert x[..|x|] == x;
    var s := LinesOf(c, x, |x|);
    if s.pendingCR {
      assert PureAt(x, c.eol.value, |x| - 1);
    } else {
      assert s.text + [] == s.text;
    }
  }

  /** Without an end of line to enforce every line keeps its own. */
  lemma {:induction false} KeptPasses(c: Config, x: Text, n: nat)
    requires n <= |x| && c.eol == None
    ensures var s := LinesOf(c, x, n);
            !s.failed && s.text + Held(s.pendingCR) == x[..n]
  {
    if n > 0 {
      KeptPasses(c, x, n - 1);
      assert x[..n] == x[..n - 1] + [x[n - 1]];
      var s, b := LinesOf(c, x, n - 1), x[n - 1];
      if s.pendingCR {
        assert s.text + [CARRIAGE_RETURN] + [b] == s.text + [CARRIAGE_RETURN, b];
      } else {
        assert s.text + [] == s.text;
      }
    }
  }

  lemma {:induction false} KeptIsNormal(c: Config, x: Text)
    requires c.eol == None
    ensures Normalized(c, x) == Some(x)
  {
    KeptPasses(c, x, |x|);
    assert x[..|x|] == x;
    var s := LinesOf(c, x, |x|);
    if !s.pendingCR {
      assert s.text + [] == s.text;
    }
  }
}
