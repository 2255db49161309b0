/** What a run of editor calls means, before any wire: which nodes are open, which calls are
    legal, and what an editor gets to see. Nodes are numbered in the order they are opened. */
module EditorRun {
  import opened Common
  import opened Decimal
  import opened EditorWire

  /** The nodes open so far, and the bytes of the text deltas that are being sent. */
  datatype Nodes = Nodes(count: nat, dirs: set<nat>, files: set<nat>, deltas: map<nat, Text>)

  const NO_NODES := Nodes(0, {}, {}, map[])

  /** A call is legal on nodes that are open. */
  predicate Legal(s: Nodes, call: Call<nat>) {
    match call
    case DeleteEntry(dir, _, _) => dir in s.dirs
    case AddDirectory(dir, _, _) => dir in s.dirs
    case OpenDirectory(dir, _, _) => dir in s.dirs
    case ChangeDirProp(dir, _, _) => dir in s.dirs
    case AbsentDirectory(dir, _) => dir in s.dirs
    case AddFile(dir, _, _) => dir in s.dirs
    case OpenFile(dir, _, _) => dir in s.dirs
    case AbsentFile(dir, _) => dir in s.dirs
    case CloseDirectory(dir) => dir in s.dirs
    case ApplyTextDelta(file, _) => file in s.files
    case DeltaChunk(file, _) => file in s.deltas
    case DeltaEnd(file) => file in s.deltas
    case ChangeFileProp(file, _, _) => file in s.files
    case CloseFile(file, _) => file in s.files
    case SetTargetRevision(_) => true
    case OpenRoot(_) => true
    case CloseEdit => true
    case AbortEdit => true
  }

  function After(s: Nodes, call: Call<nat>): Nodes {
    if OpensDirectory(call) then s.(count := s.count + 1, dirs := s.dirs + {s.count})
    else if OpensFile(call) then s.(count := s.count + 1, files := s.files + {s.count})
    else match call
      case CloseDirectory(dir) => s.(dirs := s.dirs - {dir})
      case CloseFile(file, _) => s.(files := s.files - {file})
      case ApplyTextDelta(file, _) => s.(deltas := s.deltas[file := []])
      case DeltaChunk(file, data) =>
        if file in s.deltas then s.(deltas := s.deltas[file := s.deltas[file] + data]) else s
      case DeltaEnd(file) => s.(deltas := s.deltas - {file})
      case AbortEdit => s.(deltas := map[])
      case _ => s
  }

  /** What the receiving editor sees: a call, or the whole text delta of a file. */
  datatype Seen = Called(call: Call<nat>) | Delta(file: nat, data: Text)

  /** The chunks of a delta are seen as one delta, when it ends. */
  function Visible(s: Nodes, call: Call<nat>): seq<Seen> {
    match call
    case DeltaChunk(_, _) => []
    case DeltaEnd(file) => if file in s.deltas then [Delta(file, s.deltas[file])] else []
    case _ => [Called(call)]
  }

  predicate Ends<N>(call: Call<N>) {
    call.CloseEdit? || call.AbortEdit?
  }

  function NodesAfter(calls: seq<Call<nat>>, n: nat): Nodes
    requires n <= |calls|
  {
    if n == 0 then NO_NODES else After(NodesAfter(calls, n - 1), calls[n - 1])
  }

  function VisibleRun(calls: seq<Call<nat>>, n: nat): seq<Seen>
    requires n <= |calls|
  {
    if n == 0 then [] else VisibleRun(calls, n - 1) + Visible(NodesAfter(calls, n - 1), calls[n - 1])
  }

  predicate LegalAt(calls: seq<Call<nat>>, i: nat)
    requires i < |calls|
  {
    Legal(NodesAfter(calls, i), calls[i]) && Sound(calls[i])
  }

  /** Every call is legal where it is made, and nothing is called after the edit has ended. */
  predicate LegalRun(calls: seq<Call<nat>>) {
    && (forall i :: 0 <= i < |calls| ==> LegalAt(calls, i))
    && forall i :: 0 <= i < |calls| - 1 ==> !Ends(calls[i])
  }

  /** Open nodes have been opened. */
  ghost predicate Numbered(s: Nodes) {
    && (forall h :: h in s.dirs ==> h < s.count)
    && (forall h :: h in s.files ==> h < s.count)
    && (forall h :: h in s.deltas ==> h < s.count)
  }

  lemma {:induction false} NumberedAfter(s: Nodes, call: Call<nat>)
    requires Numbered(s) && Legal(s, call)
    ensures Numbered(After(s, call))
  {
  }

  // ----- tokens -----

  const DIRECTORY_PREFIX: byte := 100
  const FILE_PREFIX: byte := 99

  /** fmt.Sprintf("%s%d", prefix, counter). */
  function TokenText(prefix: byte, counter: uint64): Text {
    [prefix] + Format(counter)
  }

  /** The counter is a uint64 and wraps around. */
  function Counter(count: nat): uint64 {
    count % TWO_TO_THE_64
  }

  function DirToken(node: nat): Text {
    TokenText(DIRECTORY_PREFIX, Counter(node))
  }

  function FileToken(node: nat): Text {
    TokenText(FILE_PREFIX, Counter(node))
  }

  lemma {:induction false} TokenInjective(p: byte, m: uint64, q: byte, n: uint64)
    requires TokenText(p, m) == TokenText(q, n)
    ensures p == q && m == n
  {
    var (s, t) := (TokenText(p, m), TokenText(q, n));
    assert s[0] == p && t[0] == q;
    assert s[1..] == Format(m) && t[1..] == Format(n);
    FormatRoundTrip(m);
    FormatRoundTrip(n);
  }

  lemma {:induction false} CounterSmall(node: nat)
    requires node < TWO_TO_THE_64
    ensures Counter(node) == node
  {
    ModUnique(node, TWO_TO_THE_64, 0, node);
  }

  /** No two of the first 2^64 nodes share a token. */
  lemma {:induction false} TokensDistinct(m: nat, n: nat)
    requires m < TWO_TO_THE_64 && n < TWO_TO_THE_64
    ensures DirToken(m) == DirToken(n) ==> m == n
    ensures FileToken(m) == FileToken(n) ==> m == n
    ensures DirToken(m) != FileToken(n)
  {
    CounterSmall(m);
    CounterSmall(n);
    if DirToken(m) == DirToken(n) {
      TokenInjective(DIRECTORY_PREFIX, m, DIRECTORY_PREFIX, n);
    }
    if FileToken(m) == FileToken(n) {
      TokenInjective(FILE_PREFIX, m, FILE_PREFIX, n);
    }
    assert DirToken(m)[0] == DIRECTORY_PREFIX && FileToken(n)[0] == FILE_PREFIX;
  }

  /** The call on the tokens of its nodes. */
  function Named(call: Call<nat>): Call<Text> {
    match call
    case SetTargetRevision(revision) => SetTargetRevision(revision)
    case OpenRoot(revision) => OpenRoot(revision)
    case DeleteEntry(dir, path, revision) => DeleteEntry(DirToken(dir), path, revision)
    case AddDirectory(dir, path, source) => AddDirectory(DirToken(dir), path, source)
    case OpenDirectory(dir, path, revision) => OpenDirectory(DirToken(dir), path, revision)
    case ChangeDirProp(dir, name, value) => ChangeDirProp(DirToken(dir), name, value)
    case AbsentDirectory(dir, path) => AbsentDirectory(DirToken(dir), path)
    case AddFile(dir, path, source) => AddFile(DirToken(dir), path, source)
    case OpenFile(dir, path, revision) => OpenFile(DirToken(dir), path, revision)
    case AbsentFile(dir, path) => AbsentFile(DirToken(dir), path)
    case CloseDirectory(dir) => CloseDirectory(DirToken(dir))
    case ApplyTextDelta(file, checksum) => ApplyTextDelta(FileToken(file), checksum)
    case DeltaChunk(file, data) => DeltaChunk(FileToken(file), data)
    case DeltaEnd(file) => DeltaEnd(FileToken(file))
    case ChangeFileProp(file, name, value) => ChangeFileProp(FileToken(file), name, value)
    case CloseFile(file, checksum) => CloseFile(FileToken(file), checksum)
    case CloseEdit => CloseEdit
    case AbortEdit => AbortEdit
  }

  /** The token of the node the call opens, when so many have been opened before it. */
  function NewToken<N>(call: Call<N>, count: nat): Text {
    if OpensDirectory(call) then DirToken(count) else if OpensFile(call) then FileToken(count) else []
  }
}
