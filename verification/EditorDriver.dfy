/** The receiving side (rasvn/editor_wire.go): commands are dispatched to an editor through the
    maps from tokens to nodes. */
module EditorDriver {
  import opened Common
  import opened Decimal
  import opened Wire
  import opened EditorWire
  import opened EditorRun

  /** A text delta being received: its file and the bytes so far. */
  datatype Stream = Stream(file: nat, data: Text)

  /** The driver's maps, and what its editor has seen and how many nodes it has opened. */
  datatype State = State(dirs: map<Text, nat>, files: map<Text, nat>, deltas: map<Text, Stream>,
                         seen: seq<Seen>, count: nat)

  const START := State(map[], map[], map[], [], 0)

  /** The receiving editor: the histories whose last call it accepts. */
  type Editor = iset<seq<Seen>>

  datatype Outcome = Continue | Finished | Failed

  datatype Step = Step(state: State, outcome: Outcome)

  function Find<T>(table: map<Text, T>, token: Text): Option<T> {
    if token in table then Some(table[token]) else None
  }

  /** The call on the nodes that its tokens stand for, if they stand for any. */
  function Resolve(d: State, call: Call<Text>): Option<Call<nat>> {
    match call
    case SetTargetRevision(revision) => Some(SetTargetRevision(revision))
    case OpenRoot(revision) => Some(OpenRoot(revision))
    case DeleteEntry(dir, path, revision) =>
      if dir in d.dirs then Some(DeleteEntry(d.dirs[dir], path, revision)) else None
    case AddDirectory(dir, path, source) =>
      if dir in d.dirs then Some(AddDirectory(d.dirs[dir], path, source)) else None
    case OpenDirectory(dir, path, revision) =>
      if dir in d.dirs then Some(OpenDirectory(d.dirs[dir], path, revision)) else None
    case ChangeDirProp(dir, name, value) =>
      if dir in d.dirs then Some(ChangeDirProp(d.dirs[dir], name, value)) else None
    case AbsentDirectory(dir, path) =>
      if dir in d.dirs then Some(AbsentDirectory(d.dirs[dir], path)) else None
    case AddFile(dir, path, source) =>
      if dir in d.dirs then Some(AddFile(d.dirs[dir], path, source)) else None
    case OpenFile(dir, path, revision) =>
      if dir in d.dirs then Some(OpenFile(d.dirs[dir], path, revision)) else None
    case AbsentFile(dir, path) =>
      if dir in d.dirs then Some(AbsentFile(d.dirs[dir], path)) else None
    case CloseDirectory(dir) =>
      if dir in d.dirs then Some(CloseDirectory(d.dirs[dir])) else None
    case ApplyTextDelta(file, checksum) =>
      if file in d.files then Some(ApplyTextDelta(d.files[file], checksum)) else None
    case DeltaChunk(file, data) =>
      if file in d.deltas then Some(DeltaChunk(d.deltas[file].file, data)) else None
    case DeltaEnd(file) =>
      if file in d.deltas then Some(DeltaEnd(d.deltas[file].file)) else None
    case ChangeFileProp(file, name, value) =>
      if file in d.files then Some(ChangeFileProp(d.files[file], name, value)) else None
    case CloseFile(file, checksum) =>
      if file in d.files then Some(CloseFile(d.files[file], checksum)) else None
    case CloseEdit => Some(CloseEdit)
    case AbortEdit => Some(AbortEdit)
  }

  /** The maps after a call that the editor has accepted or refused. */
  function Remember(d: State, request: Request, node: Call<nat>, accepted: bool): State {
    if OpensDirectory(node) then
      if accepted then d.(dirs := d.dirs[request.token := d.count], count := d.count + 1) else d
    else if OpensFile(node) then
      if accepted then d.(files := d.files[request.token := d.count], count := d.count + 1) else d
    else match request.call
      case CloseDirectory(dir) => d.(dirs := d.dirs - {dir})
      case CloseFile(file, _) => d.(files := d.files - {file})
      case ApplyTextDelta(file, _) =>
        if accepted && node.ApplyTextDelta? then d.(deltas := d.deltas[file := Stream(node.file, [])]) else d
      case DeltaEnd(file) => d.(deltas := d.deltas - {file})
      case AbortEdit => d.(deltas := map[])
      case _ => d
  }

  /** What the editor sees of a call: all of it, but for the chunks of a delta, which it sees
      together at the end. */
  function Event(d: State, request: Request, node: Call<nat>): Option<Seen> {
    match request.call
    case DeltaChunk(_, _) => None
    case DeltaEnd(file) =>
      if file in d.deltas then Some(Delta(d.deltas[file].file, d.deltas[file].data)) else None
    case _ => Some(Called(node))
  }

  function OutcomeOf(node: Call<nat>, accepted: bool): Outcome {
    if !accepted then Failed else if Ends(node) then Finished else Continue
  }

  function Append(d: State, request: Request): State {
    match request.call
    case DeltaChunk(file, data) =>
      if file in d.deltas
      then d.(deltas := d.deltas[file := d.deltas[file].(data := d.deltas[file].data + data)]) else d
    case _ => d
  }

  /** The effect of a well-shaped command. */
  ghost function Perform(editor: Editor, d: State, request: Request): Step {
    match Resolve(d, request.call)
    case None => Step(d, Failed)
    case Some(node) => match Event(d, request, node)
      case None => Step(Append(d, request), Continue)
      case Some(e) =>
        var accepted := d.seen + [e] in editor;
        Step(Remember(d.(seen := d.seen + [e]), request, node, accepted), OutcomeOf(node, accepted))
  }

  /** The effect of a command with a word and a list of parameters. */
  ghost function Dispatch(editor: Editor, d: State, item: Item): Step {
    match ParseRequest(item)
    case None => Step(d, Failed)
    case Some(request) => Perform(editor, d, request)
  }

  predicate IsCommand(item: Item) {
    item.List? && |item.items| == 2 && item.items[0].Word? && item.items[1].List?
  }

  /** The editor is told to abort. */
  function ToldToAbort(d: State): State {
    d.(seen := d.seen + [Called(AbortEdit)])
  }

  /** driveEditor over the items from i on: up to the end of the edit or the first failure. After
      a failed command open deltas are dropped; what is no command at all is answered by aborting. */
  ghost function Drive(editor: Editor, d: State, items: seq<Item>, i: nat): Step
    requires i <= |items|
    decreases |items| - i
  {
    if i == |items| then Step(d, Continue)
    else if !IsCommand(items[i]) then Step(ToldToAbort(d), Failed)
    else
      var step := Dispatch(editor, d, items[i]);
      match step.outcome
      case Continue => Drive(editor, step.state, items, i + 1)
      case Finished => step
      case Failed => Step(ToldToAbort(step.state.(deltas := map[])), Failed)
  }

  // ----- the driver itself -----

  class Driver {
    const editor: Editor
    var dirs: map<Text, nat>
    var files: map<Text, nat>
    var deltas: map<Text, Stream>
    var seen: seq<Seen>
    var count: nat

    constructor (editor: Editor)
      ensures this.editor == editor && Now() == START
    {
      this.editor := editor;
      dirs, files, deltas, seen, count := map[], map[], map[], [], 0;
    }

    function Now(): State
      reads this
    {
      State(dirs, files, deltas, seen, count)
    }

    /** One call on the receiving editor. */
    method Notify(e: Seen) returns (accepted: bool)
      modifies this`seen
      ensures seen == old(seen) + [e] && accepted == (seen in editor)
    {
      seen := seen + [e];
      accepted := seen in editor;
    }

    /** addNode and openNode for directories, and open-root. */
    method OpenDirectoryNode(request: Request, call: Call<nat>) returns (outcome: Outcome)
      requires OpensDirectory(call) && Resolve(Now(), request.call) == Some(call)
      modifies this
      ensures Step(Now(), outcome) == Perform(editor, old(Now()), request)
    {
      var accepted := Notify(Called(call));
      if accepted {
        dirs := dirs[request.token := count];
        count := count + 1;
      }
      outcome := OutcomeOf(call, accepted);
    }

    method OpenFileNode(request: Request, call: Call<nat>) returns (outcome: Outcome)
      requires OpensFile(call) && Resolve(Now(), request.call) == Some(call)
      modifies this
      ensures Step(Now(), outcome) == Perform(editor, old(Now()), request)
    {
      var accepted := Notify(Called(call));
      if accepted {
        files := files[request.token := count];
        count := count + 1;
      }
      outcome := OutcomeOf(call, accepted);
    }

    /** applyTextDelta, textDeltaChunk, textDeltaEnd. */
    method PerformDelta(request: Request) returns (outcome: Outcome)
      requires request.call.ApplyTextDelta? || request.call.DeltaChunk? || request.call.DeltaEnd?
      modifies this
      ensures Step(Now(), outcome) == Perform(editor, old(Now()), request)
    {
      var token := request.call.file;
      if request.call.ApplyTextDelta? {
        if token !in files {
          return Failed;
        }
        var accepted := Notify(Called(ApplyTextDelta(files[token], request.call.checksum)));
        if accepted {
          deltas := deltas[token := Stream(files[token], [])];
        }
        return if accepted then Continue else Failed;
      }
      if token !in deltas {
        return Failed;
      }
      var stream := deltas[token];
      if request.call.DeltaChunk? {
        deltas := deltas[token := stream.(data := stream.data + request.call.data)];
        return Continue;
      }
      var accepted := Notify(Delta(stream.file, stream.data));
      deltas := deltas - {token};
      return if accepted then Continue else Failed;
    }

    /** close-dir, closeFile: the token is forgotten whatever the editor answers. */
    method PerformClose(request: Request) returns (outcome: Outcome)
      requires request.call.CloseDirectory? || request.call.CloseFile?
      modifies this
      ensures Step(Now(), outcome) == Perform(editor, old(Now()), request)
    {
      var accepted;
      if request.call.CloseDirectory? {
        var token := request.call.dir;
        if token !in dirs {
          return Failed;
        }
        accepted := Notify(Called(CloseDirectory(dirs[token])));
        dirs := dirs - {token};
      } else {
        var token := request.call.file;
        if token !in files {
          return Failed;
        }
        accepted := Notify(Called(CloseFile(files[token], request.call.checksum)));
        files := files - {token};
      }
      return if accepted then Continue else Failed;
    }

    /** close-edit, abort-edit. */
    method PerformEnd(request: Request) returns (outcome: Outcome)
      requires Ends(request.call)
      modifies this
      ensures Step(Now(), outcome) == Perform(editor, old(Now()), request)
    {
      if request.call.AbortEdit? {
        deltas := map[];
        var accepted := Notify(Called(AbortEdit));
        return if accepted then Finished else Failed;
      }
      var accepted := Notify(Called(CloseEdit));
      return if accepted then Finished else Failed;
    }

    /** The calls that change no map. */
    method PerformPlain(request: Request, call: Call<nat>) returns (outcome: Outcome)
      requires Resolve(Now(), request.call) == Some(call) && !Opens(call) && !Ends(call)
      requires !call.CloseDirectory? && !call.CloseFile?
      requires !call.ApplyTextDelta? && !call.DeltaChunk? && !call.DeltaEnd?
      modifies this
      ensures Step(Now(), outcome) == Perform(editor, old(Now()), request)
    {
      var accepted := Notify(Called(call));
      return if accepted then Continue else Failed;
    }

    /** The calls on nodes that must be looked up first, and those on the editor itself. */
    method PerformOther(request: Request) returns (outcome: Outcome)
      requires !Ends(request.call) && !request.call.CloseDirectory? && !request.call.CloseFile?
      requires !request.call.ApplyTextDelta? && !request.call.DeltaChunk? && !request.call.DeltaEnd?
      modifies this
      ensures Step(Now(), outcome) == Perform(editor, old(Now()), request)
    {
      var node := Resolve(Now(), request.call);
      if node == None {
        return Failed;
      }
      if OpensDirectory(node.value) {
        outcome := OpenDirectoryNode(request, node.value);
      } else if OpensFile(node.value) {
        outcome := OpenFileNode(request, node.value);
      } else {
        outcome := PerformPlain(request, node.value);
      }
    }

    method DispatchItem(item: Item) returns (outcome: Outcome)
      modifies this
      ensures Step(Now(), outcome) == Dispatch(editor, old(Now()), item)
    {
      var parsed := ParseRequest(item);
      if parsed == None {
        return Failed;
      }
      var request := parsed.value;
      var call := request.call;
      if call.ApplyTextDelta? || call.DeltaChunk? || call.DeltaEnd? {
        outcome := PerformDelta(request);
      } else if call.CloseDirectory? || call.CloseFile? {
        outcome := PerformClose(request);
      } else if Ends(call) {
        outcome := PerformEnd(request);
      } else {
        outcome := PerformOther(request);
      }
    }

    method DriveEditor(items: seq<Item>) returns (outcome: Outcome)
      modifies this
      ensures Step(Now(), outcome) == Drive(editor, old(Now()), items, 0)
    {
      for i := 0 to |items|
        invariant Drive(editor, old(Now()), items, 0) == Drive(editor, Now(), items, i)
      {
        if !IsCommand(items[i]) {
          var _ := Notify(Called(AbortEdit));
          return Failed;
        }
        outcome := DispatchItem(items[i]);
        if outcome == Finished {
          return;
        }
        if outcome == Failed {
          deltas := map[];
          var _ := Notify(Called(AbortEdit));
          return;
        }
      }
      return Continue;
    }
  }
}
