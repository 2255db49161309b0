/** Keyword and line-ending translation (props/subst.go): an automaton fed one byte at a time. */
module Subst {
  import opened Common
  import opened Decimal
  import opened Strings

  const DOLLAR: byte := 36
  const MAX_KEYWORD := 255

  /** The settings of one translation; an absent end of line keeps every line as it ends. */
  datatype Config = Config(eol: Option<Text>, keywords: map<Text, Text>, expand: bool, repair: bool)

  // ----- one keyword -----

  /** Where the name in a candidate ends: at the first colon, or at the closing dollar. */
  function NameEnd(candidate: Text): (n: nat)
    requires |candidate| >= 2
    ensures 1 <= n < |candidate|
  {
    var colon := IndexFrom(candidate, COLON, 1);
    if colon < |candidate| then colon else |candidate| - 1
  }

  function SkipSpacesTo(s: Text, i: nat, n: nat): (k: nat)
    requires i <= n <= |s|
    ensures i <= k <= n
    decreases n - i
  {
    if i < n && IsSpace(s[i]) then SkipSpacesTo(s, i + 1, n) else i
  }

  /** The name between the dollars: up to the first colon, without the spaces around it. */
  function NameOf(candidate: Text): Text
    requires |candidate| >= 2
  {
    var n := NameEnd(candidate);
    var lo := SkipSpacesTo(candidate, 1, n);
    candidate[lo..DropSpaces(candidate, lo, n)]
  }

  /** Two colons in a row between the dollars. */
  predicate HasDoubleColon(candidate: Text) {
    exists i :: 1 <= i < |candidate| - 2 && candidate[i] == COLON && candidate[i + 1] == COLON
  }

  function Spaces(n: nat): (s: Text)
    ensures |s| == n && forall i :: 0 <= i < n ==> s[i] == SPACE
  {
    seq(n, _ => SPACE)
  }

  /** The value in exactly so many bytes: cut off, or filled up with spaces. */
  function Fitted(value: Text, available: nat): (r: Text)
    ensures |r| == available
  {
    var content := [SPACE] + value;
    if |content| > available then content[..available] else content + Spaces(available - |content|)
  }

  function FixedWidth(name: Text, value: Text, width: nat): Option<Text> {
    var prefix := [DOLLAR] + name + [COLON, COLON];
    if width - |prefix| - 1 < 0 then None else Some(prefix + Fitted(value, width - |prefix| - 1) + [DOLLAR])
  }

  function Expanded(name: Text, value: Text): Text {
    [DOLLAR] + name + [COLON, SPACE] + value + [SPACE, DOLLAR]
  }

  /** translateKeyword on a candidate with a dollar at each end. */
  function TranslateKeyword(c: Config, candidate: Text): Text
    requires |candidate| >= 2
  {
    var name := NameOf(candidate);
    if name !in c.keywords then candidate
    else if !c.expand then [DOLLAR] + name + [DOLLAR]
    else if HasDoubleColon(candidate) then
      match FixedWidth(name, c.keywords[name], |candidate|)
      case None => candidate
      case Some(text) => text
    else Expanded(name, c.keywords[name])
  }

  // ----- the keyword stage -----

  /** What has been written, and the keyword being collected, if any. */
  datatype Collecting = Collecting(out: Text, keyword: Text, inKeyword: bool)

  predicate Sound(k: Collecting) {
    k.inKeyword ==> 1 <= |k.keyword| <= MAX_KEYWORD
  }

  /** emitTextByte. */
  function EmitTextByte(c: Config, k: Collecting, b: byte): (r: Collecting)
    requires Sound(k)
    ensures Sound(r)
  {
    if !k.inKeyword then
      if b != DOLLAR then k.(out := k.out + [b]) else Collecting(k.out, [b], true)
    else
      var keyword := k.keyword + [b];
      if b == DOLLAR then Collecting(k.out + TranslateKeyword(c, keyword), [], false)
      else if |keyword| > MAX_KEYWORD || b == NEWLINE || b == CARRIAGE_RETURN then Collecting(k.out + keyword, [], false)
      else k.(keyword := keyword)
  }

  /** The first n bytes of a text, one after the other. */
  function Feed(c: Config, k: Collecting, t: Text, n: nat): (r: Collecting)
    requires Sound(k) && n <= |t|
    ensures Sound(r)
  {
    if n == 0 then k else EmitTextByte(c, Feed(c, k, t, n - 1), t[n - 1])
  }

  const IDLE := Collecting([], [], false)

  // ----- the whole automaton -----

  const CR_STYLE := 1
  const CRLF_STYLE := 2
  const LF_STYLE := 3

  /** The fields of a translationState; once failed it is used no more. */
  datatype State = State(k: Collecting, pendingCR: bool, seenEOL: nat, failed: bool)

  const START := State(IDLE, false, 0, false)

  function StyleBytes(style: nat): Text {
    if style == CR_STYLE then [CARRIAGE_RETURN]
    else if style == CRLF_STYLE then [CARRIAGE_RETURN, NEWLINE]
    else [NEWLINE]
  }

  function EolBytes(c: Config, style: nat): Text {
    if c.eol.Some? then c.eol.value else StyleBytes(style)
  }

  predicate Mixes(c: Config, seenEOL: nat, style: nat) {
    c.eol.Some? && seenEOL != 0 && seenEOL != style && !c.repair
  }

  function EmitEOL(c: Config, s: State, style: nat): (r: State)
    requires Sound(s.k)
    ensures Sound(r.k)
  {
    if Mixes(c, s.seenEOL, style) then s.(failed := true)
    else s.(seenEOL := style, k := Feed(c, s.k, EolBytes(c, style), |EolBytes(c, style)|))
  }

  function ConsumePlain(c: Config, s: State, b: byte): (r: State)
    requires Sound(s.k)
    ensures Sound(r.k)
  {
    if b == CARRIAGE_RETURN then s.(pendingCR := true)
    else if b == NEWLINE then EmitEOL(c, s, LF_STYLE)
    else s.(k := EmitTextByte(c, s.k, b))
  }

  function Consume(c: Config, s: State, b: byte): (r: State)
    requires Sound(s.k)
    ensures Sound(r.k)
  {
    if !s.pendingCR then ConsumePlain(c, s, b)
    else if b == NEWLINE then EmitEOL(c, s.(pendingCR := false), CRLF_STYLE)
    else
      var t := EmitEOL(c, s.(pendingCR := false), CR_STYLE);
      if t.failed then t else ConsumePlain(c, t, b)
  }

  /** The first n bytes of the input, up to the first error. */
  function Run(c: Config, x: Text, n: nat): (r: State)
    requires n <= |x|
    ensures Sound(r.k)
  {
    if n == 0 then START
    else
      var s := Run(c, x, n - 1);
      if s.failed then s else Consume(c, s, x[n - 1])
  }

  function CloseText(k: Collecting): Text {
    if k.inKeyword then k.out + k.keyword else k.out
  }

  function Closed(c: Config, s: State): (r: State)
    requires Sound(s.k)
    ensures Sound(r.k)
  {
    if s.failed || !s.pendingCR then s else EmitEOL(c, s, CR_STYLE)
  }

  /** Translate: the translated text, or nothing if the line endings are mixed. */
  function Translated(c: Config, x: Text): Option<Text> {
    var s := Closed(c, Run(c, x, |x|));
    if s.failed then None else Some(CloseText(s.k))
  }

  class TranslationState {
    const config: Config
    var out: Text
    var keyword: Text
    var inKeyword: bool
    var pendingCR: bool
    var seenEOL: nat

    constructor (config: Config)
      ensures this.config == config && Now() == START
    {
      this.config := config;
      out, keyword, inKeyword, pendingCR, seenEOL := [], [], false, false, 0;
    }

    function Collected(): Collecting
      reads this
    {
      Collecting(out, keyword, inKeyword)
    }

    function Now(): State
      reads this
    {
      State(Collected(), pendingCR, seenEOL, false)
    }

    method EmitText(b: byte)
      requires Sound(Collected())
      modifies this`out, this`keyword, this`inKeyword
      ensures Collected() == EmitTextByte(config, old(Collected()), b)
    {
      if !inKeyword {
        if b != DOLLAR {
          out := out + [b];
          return;
        }
        inKeyword := true;
        keyword := [b];
        return;
      }
      keyword := keyword + [b];
      if b == DOLLAR && |keyword| > 1 {
        WriteKeyword(TranslateKeyword(config, keyword));
        return;
      }
      if |keyword| > MAX_KEYWORD || b == NEWLINE || b == CARRIAGE_RETURN {
        WriteKeyword(keyword);
      }
    }

    /** The keyword is over, and this is written for it. */
    method WriteKeyword(text: Text)
      modifies this`out, this`keyword, this`inKeyword
      ensures Collected() == Collecting(old(out) + text, [], false)
    {
      inKeyword := false;
      keyword := [];
      out := out + text;
    }

    method EmitEOLBytes(style: nat) returns (failed: bool)
      requires Sound(Collected())
      modifies this
      ensures Now().(failed := failed) == EmitEOL(config, old(Now()), style)
    {
      if config.eol.Some? && seenEOL != 0 && seenEOL != style && !config.repair {
        return true;
      }
      seenEOL := style;
      var eol := EolBytes(config, style);
      ghost var before := Collected();
      for n := 0 to |eol|
        invariant Sound(Collected()) && Collected() == Feed(config, before, eol, n)
        invariant pendingCR == old(pendingCR) && seenEOL == style
      {
        EmitText(eol[n]);
      }
      return false;
    }

    method ConsumeByte(b: byte) returns (failed: bool)
      requires Sound(Collected())
      modifies this
      ensures Sound(Collected())
      ensures Now().(failed := failed) == Consume(config, old(Now()), b)
    {
      if pendingCR {
        pendingCR := false;
        if b == NEWLINE {
          failed := EmitEOLBytes(CRLF_STYLE);
          return;
        }
        failed := EmitEOLBytes(CR_STYLE);
        if failed {
          return;
        }
      }
      if b == CARRIAGE_RETURN {
        pendingCR := true;
        return false;
      }
      if b == NEWLINE {
        failed := EmitEOLBytes(LF_STYLE);
        return;
      }
      EmitText(b);
      return false;
    }

    method Close() returns (failed: bool)
      requires Sound(Collected())
      modifies this
      ensures failed == Closed(config, old(Now())).failed
      ensures !failed ==> out == CloseText(Closed(config, old(Now())).k)
    {
      if pendingCR {
        failed := EmitEOLBytes(CR_STYLE);
        if failed {
          return;
        }
      }
      if inKeyword {
        out := out + keyword;
      }
      return false;
    }
  }

  method Translate(c: Config, x: Text) returns (r: Option<Text>)
    ensures r == Translated(c, x)
  {
    var state := new TranslationState(c);
    for n := 0 to |x|
      invariant Sound(state.Collected()) && state.config == c
      invariant state.Now() == Run(c, x, n)
    {
      var failed := state.ConsumeByte(x[n]);
      if failed {
        StaysFailed(c, x, n + 1, |x|);
        return None;
      }
    }
    var failed := state.Close();
    if failed {
      return None;
    }
    return Some(state.out);
  }

  lemma {:induction false} StaysFailed(c: Config, x: Text, m: nat, n: nat)
    requires m <= n <= |x| && Run(c, x, m).failed
    ensures Run(c, x, n) == Run(c, x, m)
  {
    if m < n { StaysFailed(c, x, m, n - 1); }
  }
}
