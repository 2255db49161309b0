/** The ra_svn editor commands as text, against the grammar of sections 1 and 3.1.2 of the
    libsvn_ra_svn protocol document, with every literal byte written out. */
module WireText {
  import opened Common
  import opened Decimal
  import opened Strings
  import opened Wire
  import opened Checksums
  import opened EditorWire
  import EditorRun
  import Commands = EditorCommands

  // ----- items -----

  /** Numbers are written in decimal digits, the most significant first. */
  lemma {:induction false} DigitsAreText(n: nat)
    ensures n < 10 ==> Format(n) == [Ascii("0123456789")[n]]
    ensures n >= 10 ==> Format(n) == Format(n / 10) + [Ascii("0123456789")[n % 10]]
  {
    assert forall d :: 0 <= d < 10 ==> Ascii("0123456789")[d] == 48 + d;
  }

  function NumberText(n: nat): Text { Format(n) + Ascii(" ") }

  function StringText(data: Text): Text { Format(|data|) + Ascii(":") + data + Ascii(" ") }

  lemma {:induction false} LeavesAreText(item: Item)
    ensures item.Number? ==> Encoded(item) == NumberText(item.number)
    ensures item.Word? ==> Encoded(item) == item.word + Ascii(" ")
    ensures item.Str? ==> Encoded(item) == StringText(item.data)
  {
    assert Ascii(" ") == [SPACE] && Ascii(":") == [COLON];
  }

  /** A list stands between parentheses, each with a space behind it. */
  lemma {:induction false} ListIsText(items: seq<Item>)
    ensures Encoded(List(items)) == Ascii("( ") + EncodedItems(List(items), |items|) + Ascii(") ")
  {
    assert Ascii("( ") == [OPEN, SPACE] && Ascii(") ") == [CLOSE, SPACE];
  }

  lemma {:induction false} ItemsAreText(items: seq<Item>)
    ensures items == [] ==> EncodedItems(List(items), |items|) == []
    ensures |items| == 1 ==> EncodedItems(List(items), |items|) == Encoded(items[0])
    ensures |items| == 2 ==> EncodedItems(List(items), |items|) == Encoded(items[0]) + Encoded(items[1])
    ensures |items| == 3 ==> EncodedItems(List(items), |items|) == Encoded(items[0]) + Encoded(items[1]) + Encoded(items[2])
    ensures |items| == 4 ==>
              EncodedItems(List(items), |items|) == Encoded(items[0]) + Encoded(items[1]) + Encoded(items[2]) + Encoded(items[3])
  {
    var list := List(items);
    if |items| >= 1 { assert EncodedItems(list, 1) == Encoded(items[0]); }
    if |items| >= 2 { assert EncodedItems(list, 2) == EncodedItems(list, 1) + Encoded(items[1]); }
    if |items| >= 3 { assert EncodedItems(list, 3) == EncodedItems(list, 2) + Encoded(items[2]); }
    if |items| >= 4 { assert EncodedItems(list, 4) == EncodedItems(list, 3) + Encoded(items[3]); }
  }

  lemma {:induction false} EmptyIsText()
    ensures Encoded(List([])) == Ascii("( ) ")
  {
    ListIsText([]);
    assert Ascii("( ") + [] + Ascii(") ") == Ascii("( ) ");
  }

  // ----- optional parameters -----

  /** `( )` or `( revision )`. */
  function RevisionText(revision: int64): Text {
    if revision == -1 then Ascii("( ) ") else Ascii("( ") + NumberText(ToUint64(revision)) + Ascii(") ")
  }

  /** `( )` or `( path revision )`. */
  function SourceText(source: Option<CopySource>): Text {
    match source
    case None => Ascii("( ) ")
    case Some(s) => Ascii("( ") + StringText(s.path) + NumberText(ToUint64(s.revision)) + Ascii(") ")
  }

  /** `( )` or `( value )`. */
  function ValueText(value: Option<Text>): Text {
    match value
    case None => Ascii("( ) ")
    case Some(v) => Ascii("( ") + StringText(v) + Ascii(") ")
  }

  function ChecksumText(checksum: Option<Checksum>): Text {
    ValueText(if checksum.Some? then Some(Hex(checksum.value)) else None)
  }

  lemma {:induction false} RevisionIsText(revision: int64)
    ensures Encoded(OptionalRevision(revision)) == RevisionText(revision)
  {
    if revision == -1 {
      EmptyIsText();
    } else {
      var number := Number(ToUint64(revision));
      ListIsText([number]);
      ItemsAreText([number]);
      LeavesAreText(number);
    }
  }

  lemma {:induction false} SourceIsText(source: Option<CopySource>)
    ensures Encoded(CopySourceItem(source)) == SourceText(source)
  {
    match source {
      case None => EmptyIsText();
      case Some(s) =>
        var (path, number) := (Str(s.path), Number(ToUint64(s.revision)));
        ListIsText([path, number]);
        ItemsAreText([path, number]);
        LeavesAreText(path);
        LeavesAreText(number);
        var (a, b) := (StringText(s.path), NumberText(ToUint64(s.revision)));
        assert Ascii("( ") + (a + b) + Ascii(") ") == Ascii("( ") + a + b + Ascii(") ");
    }
  }

  lemma {:induction false} ValueIsText(value: Option<Text>)
    ensures Encoded(OptionalBytes(value)) == ValueText(value)
  {
    match value {
      case None => EmptyIsText();
      case Some(v) =>
        ListIsText([Str(v)]);
        ItemsAreText([Str(v)]);
        LeavesAreText(Str(v));
    }
  }

  lemma {:induction false} ChecksumIsText(checksum: Option<Checksum>)
    ensures Encoded(OptionalChecksumItem(checksum)) == ChecksumText(checksum)
  {
    ValueIsText(if checksum.Some? then Some(Hex(checksum.value)) else None);
  }

  /** A digest is written in lower-case hexadecimal, the high digit of each byte first. */
  lemma {:induction false} HexIsText(checksum: Checksum, i: nat)
    requires i < |checksum.digest|
    ensures |Hex(checksum)| == 2 * |checksum.digest|
    ensures Hex(checksum)[2 * i] == Ascii("0123456789abcdef")[checksum.digest[i] / 16]
    ensures Hex(checksum)[2 * i + 1] == Ascii("0123456789abcdef")[checksum.digest[i] % 16]
  {
    HexAt(checksum.digest, |checksum.digest|, i);
    assert forall n :: 0 <= n < 16 ==> Ascii("0123456789abcdef")[n] == if n < 10 then 48 + n else 87 + n;
  }

  lemma {:induction false} HexAt(digest: Text, n: nat, i: nat)
    requires i < n <= |digest|
    ensures |HexString(digest, n)| == 2 * n
    ensures HexString(digest, n)[2 * i] == HexDigit(digest[i] / 16)
    ensures HexString(digest, n)[2 * i + 1] == HexDigit(digest[i] % 16)
  {
    if i < n - 1 {
      HexAt(digest, n - 1, i);
    } else if n > 1 {
      HexAt(digest, n - 1, 0);
    }
  }

  /** A serialized checksum names its kind in front of the digest; all three kinds are read back. */
  lemma {:induction false} PrefixedIsRead(checksum: Checksum)
    requires WellFormed(checksum)
    ensures checksum.kind == MD5 ==>
              && ParseChecksum(Ascii("$md5 $") + Hex(checksum)) == Some(checksum)
              && ParseChecksum(Ascii("$md5$") + Hex(checksum)) == Some(checksum)
    ensures checksum.kind == SHA1 ==> ParseChecksum(Ascii("$sha1$") + Hex(checksum)) == Some(checksum)
    ensures checksum.kind == FNV1a32 ==> ParseChecksum(Ascii("$fnv1$") + Hex(checksum)) == Some(checksum)
  {
    PrefixesAreText();
    var hex := Hex(checksum);
    ChecksumHexRead(checksum);
    PrefixRead(MD5_PREFIX, hex);
    PrefixRead(MD5_SHORT_PREFIX, hex);
    PrefixRead(SHA1_PREFIX, hex);
    PrefixRead(FNV1_PREFIX, hex);
    assert (MD5_SHORT_PREFIX + hex)[4] == DOLLAR && MD5_PREFIX[4] == SPACE;
    assert (SHA1_PREFIX + hex)[1] == 115 && (FNV1_PREFIX + hex)[1] == 102 && MD5_PREFIX[1] == MD5_SHORT_PREFIX[1] == 109;
  }

  lemma {:induction false} PrefixesAreText()
    ensures Ascii("$md5 $") == MD5_PREFIX && Ascii("$md5$") == MD5_SHORT_PREFIX
    ensures Ascii("$sha1$") == SHA1_PREFIX && Ascii("$fnv1$") == FNV1_PREFIX
  {
  }

  lemma {:induction false} PrefixRead(prefix: Text, hex: Text)
    ensures prefix <= prefix + hex && (prefix + hex)[|prefix|..] == hex
  {
  }

  lemma {:induction false} ChecksumHexRead(checksum: Checksum)
    requires WellFormed(checksum)
    ensures ParseChecksumHex(checksum.kind, Hex(checksum)) == Some(checksum)
  {
    HexLength(checksum.digest, |checksum.digest|);
    HexRoundTrip(checksum.digest, |checksum.digest|);
    assert checksum.digest[..|checksum.digest|] == checksum.digest;
  }

  /** Tokens of directories begin with d, those of files with c; a decimal counter follows. */
  lemma {:induction false} TokensAreText(counter: uint64)
    ensures EditorRun.TokenText(EditorRun.DIRECTORY_PREFIX, counter) == Ascii("d") + Format(counter)
    ensures EditorRun.TokenText(EditorRun.FILE_PREFIX, counter) == Ascii("c") + Format(counter)
  {
    assert Ascii("d") == [EditorRun.DIRECTORY_PREFIX] && Ascii("c") == [EditorRun.FILE_PREFIX];
  }

  // ----- commands -----

  function WordText<N>(call: Call<N>): Text {
    match call
    case SetTargetRevision(_) => Ascii("target-rev")
    case OpenRoot(_) => Ascii("open-root")
    case DeleteEntry(_, _, _) => Ascii("delete-entry")
    case AddDirectory(_, _, _) => Ascii("add-dir")
    case OpenDirectory(_, _, _) => Ascii("open-dir")
    case ChangeDirProp(_, _, _) => Ascii("change-dir-prop")
    case AbsentDirectory(_, _) => Ascii("absent-dir")
    case AddFile(_, _, _) => Ascii("add-file")
    case OpenFile(_, _, _) => Ascii("open-file")
    case AbsentFile(_, _) => Ascii("absent-file")
    case CloseDirectory(_) => Ascii("close-dir")
    case ApplyTextDelta(_, _) => Ascii("apply-textdelta")
    case DeltaChunk(_, _) => Ascii("textdelta-chunk")
    case DeltaEnd(_) => Ascii("textdelta-end")
    case ChangeFileProp(_, _, _) => Ascii("change-file-prop")
    case CloseFile(_, _) => Ascii("close-file")
    case CloseEdit => Ascii("close-edit")
    case AbortEdit => Ascii("abort-edit")
  }

  /** The parameters of each command, in the order of the protocol; a call that opens a node gives it
      the token. */
  function ParamsText(call: Call<Text>, token: Text): Text {
    match call
    case SetTargetRevision(revision) => NumberText(ToUint64(revision))
    case OpenRoot(revision) => RevisionText(revision) + StringText(token)
    case DeleteEntry(dir, path, revision) => StringText(path) + RevisionText(revision) + StringText(dir)
    case AddDirectory(dir, path, source) => StringText(path) + StringText(dir) + StringText(token) + SourceText(source)
    case OpenDirectory(dir, path, revision) => StringText(path) + StringText(dir) + StringText(token) + RevisionText(revision)
    case ChangeDirProp(dir, name, value) => StringText(dir) + StringText(name) + ValueText(value)
    case AbsentDirectory(dir, path) => StringText(path) + StringText(dir)
    case AddFile(dir, path, source) => StringText(path) + StringText(dir) + StringText(token) + SourceText(source)
    case OpenFile(dir, path, revision) => StringText(path) + StringText(dir) + StringText(token) + RevisionText(revision)
    case AbsentFile(dir, path) => StringText(path) + StringText(dir)
    case CloseDirectory(dir) => StringText(dir)
    case ApplyTextDelta(file, checksum) => StringText(file) + ChecksumText(checksum)
    case DeltaChunk(file, data) => StringText(file) + StringText(data)
    case DeltaEnd(file) => StringText(file)
    case ChangeFileProp(file, name, value) => StringText(file) + StringText(name) + ValueText(value)
    case CloseFile(file, checksum) => StringText(file) + ChecksumText(checksum)
    case CloseEdit => []
    case AbortEdit => []
  }

  lemma {:induction false} OpeningWords<N>(call: Call<N>)
    requires call.OpenRoot? || call.AddDirectory? || call.OpenDirectory? || call.AddFile? || call.OpenFile?
    ensures Commands.Spelling(CommandName(call)) == WordText(call)
  {
  }

  lemma {:induction false} ChangingWords<N>(call: Call<N>)
    requires call.SetTargetRevision? || call.DeleteEntry? || call.ChangeDirProp? || call.ChangeFileProp?
    ensures Commands.Spelling(CommandName(call)) == WordText(call)
  {
  }

  lemma {:induction false} AbsentWords<N>(call: Call<N>)
    requires call.AbsentDirectory? || call.AbsentFile?
    ensures Commands.Spelling(CommandName(call)) == WordText(call)
  {
  }

  lemma {:induction false} DeltaWords<N>(call: Call<N>)
    requires call.ApplyTextDelta? || call.DeltaChunk? || call.DeltaEnd?
    ensures Commands.Spelling(CommandName(call)) == WordText(call)
  {
  }

  lemma {:induction false} ClosingWords<N>(call: Call<N>)
    requires call.CloseDirectory? || call.CloseFile? || call.CloseEdit? || call.AbortEdit?
    ensures Commands.Spelling(CommandName(call)) == WordText(call)
  {
  }

  lemma {:induction false} WordIsText<N>(call: Call<N>)
    ensures Commands.Spelling(CommandName(call)) == WordText(call)
  {
    if call.OpenRoot? || call.AddDirectory? || call.OpenDirectory? || call.AddFile? || call.OpenFile? {
      OpeningWords(call);
    } else if call.SetTargetRevision? || call.DeleteEntry? || call.ChangeDirProp? || call.ChangeFileProp? {
      ChangingWords(call);
    } else if call.CloseDirectory? || call.CloseFile? || call.CloseEdit? || call.AbortEdit? {
      ClosingWords(call);
    } else if call.AbsentDirectory? || call.AbsentFile? {
      AbsentWords(call);
    } else {
      DeltaWords(call);
    }
  }

  /** One parameter, and the text it should have. */
  ghost predicate Says(item: Item, text: Text) {
    Encoded(item) == text
  }

  lemma {:induction false} StringSays(data: Text)
    ensures Says(Str(data), StringText(data))
  {
    LeavesAreText(Str(data));
  }

  lemma {:induction false} OpeningParams(call: Call<Text>, token: Text)
    requires Opens(call)
    ensures EncodedItems(List(Params(call, token)), |Params(call, token)|) == ParamsText(call, token)
  {
    ItemsAreText(Params(call, token));
    StringSays(token);
    if !call.OpenRoot? {
      StringSays(call.path);
      StringSays(call.dir);
    }
    if call.AddDirectory? || call.AddFile? {
      SourceIsText(call.source);
    } else {
      RevisionIsText(call.revision);
    }
  }

  lemma {:induction false} OtherParams(call: Call<Text>, token: Text)
    requires !Opens(call)
    ensures EncodedItems(List(Params(call, token)), |Params(call, token)|) == ParamsText(call, token)
  {
    ItemsAreText(Params(call, token));
    match call {
      case SetTargetRevision(revision) => LeavesAreText(Number(ToUint64(revision)));
      case DeleteEntry(dir, path, revision) => StringSays(path); RevisionIsText(revision); StringSays(dir);
      case ChangeDirProp(dir, name, value) => StringSays(dir); StringSays(name); ValueIsText(value);
      case AbsentDirectory(dir, path) => StringSays(path); StringSays(dir);
      case AbsentFile(dir, path) => StringSays(path); StringSays(dir);
      case CloseDirectory(dir) => StringSays(dir);
      case ApplyTextDelta(file, checksum) => StringSays(file); ChecksumIsText(checksum);
      case DeltaChunk(file, data) => StringSays(file); StringSays(data);
      case DeltaEnd(file) => StringSays(file);
      case ChangeFileProp(file, name, value) => StringSays(file); StringSays(name); ValueIsText(value);
      case CloseFile(file, checksum) => StringSays(file); ChecksumIsText(checksum);
      case _ =>
    }
  }

  /** Every command as it stands on the wire. */
  lemma {:induction false} CommandIsText(call: Call<Text>, token: Text)
    ensures Encoded(CommandItem(call, token)) ==
            Ascii("( ") + WordText(call) + Ascii(" ( ") + ParamsText(call, token) + Ascii(") ) ")
  {
    var params := Params(call, token);
    WordIsText(call);
    if Opens(call) { OpeningParams(call, token); } else { OtherParams(call, token); }
    CommandParts(WordText(call), params, ParamsText(call, token));
  }

  lemma {:induction false} CommandParts(word: Text, params: seq<Item>, text: Text)
    requires EncodedItems(List(params), |params|) == text
    ensures Encoded(List([Word(word), List(params)])) == Ascii("( ") + word + Ascii(" ( ") + text + Ascii(") ) ")
  {
    ListIsText(params);
    PairIsText(word, List(params));
    Spacing();
    Regroup(Ascii("( "), word, Ascii(" "), text, Ascii(") "), Ascii(" ( "), Ascii(") ) "));
  }

  lemma {:induction false} PairIsText(word: Text, item: Item)
    ensures Encoded(List([Word(word), item])) == Ascii("( ") + (word + Ascii(" ") + Encoded(item)) + Ascii(") ")
  {
    LeavesAreText(Word(word));
    ListIsText([Word(word), item]);
    ItemsAreText([Word(word), item]);
  }

  lemma {:induction false} Spacing()
    ensures Ascii(" ( ") == Ascii(" ") + Ascii("( ") && Ascii(") ) ") == Ascii(") ") + Ascii(") ")
  {
  }

  lemma {:induction false} Regroup(a: Text, word: Text, space: Text, text: Text, c: Text, middle: Text, end: Text)
    requires middle == space + a && end == c + c
    ensures a + (word + space + (a + text + c)) + c == a + word + middle + text + end
  {
  }
}
