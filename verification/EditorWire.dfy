/** Editor calls as ra_svn items (rasvn/commit_editor.go, rasvn/editor_wire.go): how the sender
    writes each call, how the receiver reads it, and that reading undoes writing. */
module EditorWire {
  import opened Common
  import opened Decimal
  import opened Wire
  import opened Checksums
  import Commands = EditorCommands

  const INVALID_REVNUM: int64 := -1

  datatype CopySource = CopySource(path: Text, revision: int64)

  /** A call on an editor (delta/editor.go), on nodes named by N. */
  datatype Call<N> =
    | SetTargetRevision(revision: int64)
    | OpenRoot(revision: int64)
    | DeleteEntry(dir: N, path: Text, revision: int64)
    | AddDirectory(dir: N, path: Text, source: Option<CopySource>)
    | OpenDirectory(dir: N, path: Text, revision: int64)
    | ChangeDirProp(dir: N, name: Text, value: Option<Text>)
    | AbsentDirectory(dir: N, path: Text)
    | AddFile(dir: N, path: Text, source: Option<CopySource>)
    | OpenFile(dir: N, path: Text, revision: int64)
    | AbsentFile(dir: N, path: Text)
    | CloseDirectory(dir: N)
    | ApplyTextDelta(file: N, checksum: Option<Checksum>)
    | DeltaChunk(file: N, data: Text)
    | DeltaEnd(file: N)
    | ChangeFileProp(file: N, name: Text, value: Option<Text>)
    | CloseFile(file: N, checksum: Option<Checksum>)
    | CloseEdit
    | AbortEdit

  predicate OpensDirectory<N>(call: Call<N>) {
    call.OpenRoot? || call.AddDirectory? || call.OpenDirectory?
  }

  predicate OpensFile<N>(call: Call<N>) {
    call.AddFile? || call.OpenFile?
  }

  predicate Opens<N>(call: Call<N>) {
    OpensDirectory(call) || OpensFile(call)
  }

  // ----- values -----

  function OptionalRevision(revision: int64): Item {
    if revision == INVALID_REVNUM then List([]) else List([Number(ToUint64(revision))])
  }

  function OptionalRevisionValue(item: Item): Option<int64> {
    if !item.List? || |item.items| > 1 then None
    else if item.items == [] then Some(INVALID_REVNUM)
    else if !item.items[0].Number? then None
    else Some(WrapInt64(item.items[0].number))
  }

  function CopySourceItem(source: Option<CopySource>): Item {
    match source
    case None => List([])
    case Some(s) => List([Str(s.path), Number(ToUint64(s.revision))])
  }

  function ParseCopySource(item: Item): Option<Option<CopySource>> {
    if !item.List? || (|item.items| != 0 && |item.items| != 2) then None
    else if item.items == [] then Some(None)
    else if !item.items[0].Str? || !item.items[1].Number? then None
    else Some(Some(CopySource(item.items[0].data, WrapInt64(item.items[1].number))))
  }

  /** No value is an empty list; an empty value is a list of one empty string. */
  function OptionalBytes(value: Option<Text>): Item {
    match value
    case None => List([])
    case Some(v) => List([Str(v)])
  }

  function OptionalValue(item: Item): Option<Option<Text>> {
    if !item.List? || |item.items| > 1 then None
    else if item.items == [] then Some(None)
    else if !item.items[0].Str? then None
    else Some(Some(item.items[0].data))
  }

  function OptionalChecksumItem(checksum: Option<Checksum>): Item {
    match checksum
    case None => List([])
    case Some(c) => List([Str(Hex(c))])
  }

  function OptionalChecksum(item: Item): Option<Option<Checksum>> {
    if !item.List? || |item.items| > 1 then None
    else if item.items == [] then Some(None)
    else if !item.items[0].Str? then None
    else match ParseChecksum(item.items[0].data)
      case None => None
      case Some(c) => Some(Some(c))
  }

  // ----- writing -----

  function CommandName<N>(call: Call<N>): Commands.Command {
    match call
    case SetTargetRevision(_) => Commands.TargetRev
    case OpenRoot(_) => Commands.OpenRoot
    case DeleteEntry(_, _, _) => Commands.DeleteEntry
    case AddDirectory(_, _, _) => Commands.AddDir
    case OpenDirectory(_, _, _) => Commands.OpenDir
    case ChangeDirProp(_, _, _) => Commands.ChangeDirProp
    case AbsentDirectory(_, _) => Commands.AbsentDir
    case AddFile(_, _, _) => Commands.AddFile
    case OpenFile(_, _, _) => Commands.OpenFile
    case AbsentFile(_, _) => Commands.AbsentFile
    case CloseDirectory(_) => Commands.CloseDir
    case ApplyTextDelta(_, _) => Commands.ApplyTextdelta
    case DeltaChunk(_, _) => Commands.TextdeltaChunk
    case DeltaEnd(_) => Commands.TextdeltaEnd
    case ChangeFileProp(_, _, _) => Commands.ChangeFileProp
    case CloseFile(_, _) => Commands.CloseFile
    case CloseEdit => Commands.CloseEdit
    case AbortEdit => Commands.AbortEdit
  }

  /** The parameters of a call on nodes named by tokens; token names the node it opens. */
  function Params(call: Call<Text>, token: Text): seq<Item> {
    match call
    case SetTargetRevision(revision) => [Number(ToUint64(revision))]
    case OpenRoot(revision) => [OptionalRevision(revision), Str(token)]
    case DeleteEntry(dir, path, revision) => [Str(path), OptionalRevision(revision), Str(dir)]
    case AddDirectory(dir, path, source) => [Str(path), Str(dir), Str(token), CopySourceItem(source)]
    case OpenDirectory(dir, path, revision) => [Str(path), Str(dir), Str(token), OptionalRevision(revision)]
    case ChangeDirProp(dir, name, value) => [Str(dir), Str(name), OptionalBytes(value)]
    case AbsentDirectory(dir, path) => [Str(path), Str(dir)]
    case AddFile(dir, path, source) => [Str(path), Str(dir), Str(token), CopySourceItem(source)]
    case OpenFile(dir, path, revision) => [Str(path), Str(dir), Str(token), OptionalRevision(revision)]
    case AbsentFile(dir, path) => [Str(path), Str(dir)]
    case CloseDirectory(dir) => [Str(dir)]
    case ApplyTextDelta(file, checksum) => [Str(file), OptionalChecksumItem(checksum)]
    case DeltaChunk(file, data) => [Str(file), Str(data)]
    case DeltaEnd(file) => [Str(file)]
    case ChangeFileProp(file, name, value) => [Str(file), Str(name), OptionalBytes(value)]
    case CloseFile(file, checksum) => [Str(file), OptionalChecksumItem(checksum)]
    case CloseEdit => []
    case AbortEdit => []
  }

  function CommandItem(call: Call<Text>, token: Text): Item {
    List([Word(Commands.Spelling(CommandName(call))), List(Params(call, token))])
  }

  // ----- reading -----

  /** A call on nodes named by tokens, and the token of the node it opens. */
  datatype Request = Request(call: Call<Text>, token: Text)

  function Plain(call: Call<Text>): Option<Request> {
    Some(Request(call, []))
  }

  predicate Strings(params: seq<Item>, n: nat)
    requires n <= |params|
  {
    forall i :: 0 <= i < n ==> params[i].Str?
  }

  function ParseTargetRev(params: seq<Item>): Option<Request> {
    if |params| != 1 || !params[0].Number? then None
    else Plain(SetTargetRevision(WrapInt64(params[0].number)))
  }

  function ParseOpenRoot(params: seq<Item>): Option<Request> {
    if |params| != 2 || !params[1].Str? then None
    else match OptionalRevisionValue(params[0])
      case None => None
      case Some(revision) => Some(Request(OpenRoot(revision), params[1].data))
  }

  function ParseDeleteEntry(params: seq<Item>): Option<Request> {
    if |params| != 3 || !params[0].Str? || !params[2].Str? then None
    else match OptionalRevisionValue(params[1])
      case None => None
      case Some(revision) => Plain(DeleteEntry(params[2].data, params[0].data, revision))
  }

  function ParseAddNode(directory: bool, params: seq<Item>): Option<Request> {
    if |params| != 4 || !Strings(params, 3) then None
    else match ParseCopySource(params[3])
      case None => None
      case Some(source) =>
        var (path, dir) := (params[0].data, params[1].data);
        Some(Request(if directory then AddDirectory(dir, path, source) else AddFile(dir, path, source),
                     params[2].data))
  }

  function ParseOpenNode(directory: bool, params: seq<Item>): Option<Request> {
    if |params| != 4 || !Strings(params, 3) then None
    else match OptionalRevisionValue(params[3])
      case None => None
      case Some(revision) =>
        var (path, dir) := (params[0].data, params[1].data);
        Some(Request(if directory then OpenDirectory(dir, path, revision) else OpenFile(dir, path, revision),
                     params[2].data))
  }

  function ParseChangeProp(directory: bool, params: seq<Item>): Option<Request> {
    if |params| != 3 || !Strings(params, 2) then None
    else match OptionalValue(params[2])
      case None => None
      case Some(value) =>
        var (node, name) := (params[0].data, params[1].data);
        Plain(if directory then ChangeDirProp(node, name, value) else ChangeFileProp(node, name, value))
  }

  function ParseAbsent(directory: bool, params: seq<Item>): Option<Request> {
    if |params| != 2 || !Strings(params, 2) then None
    else
      var (path, dir) := (params[0].data, params[1].data);
      Plain(if directory then AbsentDirectory(dir, path) else AbsentFile(dir, path))
  }

  function ParseChecked(close: bool, params: seq<Item>): Option<Request> {
    if |params| != 2 || !params[0].Str? then None
    else match OptionalChecksum(params[1])
      case None => None
      case Some(checksum) =>
        Plain(if close then CloseFile(params[0].data, checksum) else ApplyTextDelta(params[0].data, checksum))
  }

  function ParseChunk(params: seq<Item>): Option<Request> {
    if |params| != 2 || !Strings(params, 2) then None
    else Plain(DeltaChunk(params[0].data, params[1].data))
  }

  function ParseNode(directory: bool, params: seq<Item>): Option<Request> {
    if |params| != 1 || !params[0].Str? then None
    else Plain(if directory then CloseDirectory(params[0].data) else DeltaEnd(params[0].data))
  }

  /** What the receiver's switch makes of a command's parameters. */
  function ParseParams(command: Commands.Command, params: seq<Item>): Option<Request> {
    match command
    case TargetRev => ParseTargetRev(params)
    case OpenRoot => ParseOpenRoot(params)
    case DeleteEntry => ParseDeleteEntry(params)
    case AddDir => ParseAddNode(true, params)
    case AddFile => ParseAddNode(false, params)
    case OpenDir => ParseOpenNode(true, params)
    case OpenFile => ParseOpenNode(false, params)
    case ChangeDirProp => ParseChangeProp(true, params)
    case ChangeFileProp => ParseChangeProp(false, params)
    case CloseDir => ParseNode(true, params)
    case AbsentDir => ParseAbsent(true, params)
    case AbsentFile => ParseAbsent(false, params)
    case ApplyTextdelta => ParseChecked(false, params)
    case TextdeltaChunk => ParseChunk(params)
    case TextdeltaEnd => ParseNode(false, params)
    case CloseFile => ParseChecked(true, params)
    case CloseEdit => Plain(CloseEdit)
    case AbortEdit => Plain(AbortEdit)
  }

  /** A command item, or nothing where its shape, its word or its parameters are wrong. */
  function ParseRequest(item: Item): Option<Request> {
    if !item.List? || |item.items| != 2 || !item.items[0].Word? || !item.items[1].List? then None
    else match Commands.CommandOf(item.items[0].word)
      case None => None
      case Some(command) => ParseParams(command, item.items[1].items)
  }

  // ----- reading undoes writing -----

  lemma {:induction false} RevisionRoundTrip(revision: int64)
    ensures OptionalRevisionValue(OptionalRevision(revision)) == Some(revision)
  {
  }

  lemma {:induction false} CopySourceRoundTrip(source: Option<CopySource>)
    ensures ParseCopySource(CopySourceItem(source)) == Some(source)
  {
  }

  lemma {:induction false} ValueRoundTrip(value: Option<Text>)
    ensures OptionalValue(OptionalBytes(value)) == Some(value)
  {
  }

  predicate SoundChecksum(checksum: Option<Checksum>) {
    checksum.Some? ==> WellFormed(checksum.value)
  }

  lemma {:induction false} OptionalChecksumRoundTrip(checksum: Option<Checksum>)
    ensures OptionalChecksum(OptionalChecksumItem(checksum)) == Some(checksum) <==> SoundChecksum(checksum)
  {
    if checksum.Some? {
      ChecksumRoundTrip(checksum.value);
    }
  }

  /** Every checksum in the call has the size of its kind. */
  predicate Sound<N>(call: Call<N>) {
    call.ApplyTextDelta? || call.CloseFile? ==> SoundChecksum(call.checksum)
  }

  predicate ReadsBack(call: Call<Text>, token: Text) {
    ParseParams(CommandName(call), Params(call, token)) == Some(Request(call, if Opens(call) then token else []))
  }

  lemma {:induction false} OpeningReadsBack(call: Call<Text>, token: Text)
    requires Opens(call)
    ensures ReadsBack(call, token)
  {
    match call {
      case OpenRoot(revision) => RevisionRoundTrip(revision);
      case OpenDirectory(_, _, revision) => RevisionRoundTrip(revision);
      case OpenFile(_, _, revision) => RevisionRoundTrip(revision);
      case AddDirectory(_, _, source) => CopySourceRoundTrip(source);
      case AddFile(_, _, source) => CopySourceRoundTrip(source);
    }
  }

  lemma {:induction false} ChecksumReadsBack(call: Call<Text>, token: Text)
    requires call.ApplyTextDelta? || call.CloseFile?
    ensures ReadsBack(call, token) <==> Sound(call)
  {
    OptionalChecksumRoundTrip(call.checksum);
  }

  lemma {:induction false} PropertyReadsBack(call: Call<Text>, token: Text)
    requires call.ChangeDirProp? || call.ChangeFileProp?
    ensures ReadsBack(call, token)
  {
    ValueRoundTrip(call.value);
  }

  lemma {:induction false} OtherReadsBack(call: Call<Text>, token: Text)
    requires !Opens(call) && !call.ApplyTextDelta? && !call.CloseFile? && !call.ChangeDirProp? && !call.ChangeFileProp?
    ensures ReadsBack(call, token)
  {
    if call.DeleteEntry? {
      RevisionRoundTrip(call.revision);
    }
  }

  lemma {:induction false} ParamsRoundTrip(call: Call<Text>, token: Text)
    ensures ReadsBack(call, token) <==> Sound(call)
  {
    if Opens(call) {
      OpeningReadsBack(call, token);
    } else if call.ApplyTextDelta? || call.CloseFile? {
      ChecksumReadsBack(call, token);
    } else if call.ChangeDirProp? || call.ChangeFileProp? {
      PropertyReadsBack(call, token);
    } else {
      OtherReadsBack(call, token);
    }
  }

  /** The receiver reads the very call that was written, and the token of the node it opens,
      exactly when the call's checksum has the size of its kind. */
  lemma {:induction false} RequestRoundTrip(call: Call<Text>, token: Text)
    ensures Sound(call) <==>
            ParseRequest(CommandItem(call, token)) == Some(Request(call, if Opens(call) then token else []))
  {
    Commands.CommandRoundTrip(CommandName(call));
    ParamsRoundTrip(call, token);
  }
}
