/** The receiving editor sees what the sending editor was called with (rasvn/commit_editor.go,
    rasvn/editor_wire.go): the driver's maps simulate the run of calls. */
module EditorSimulation {
  import opened Common
  import opened Decimal
  import opened Wire
  import opened EditorWire
  import opened EditorRun
  import opened EditorDriver

  // ----- the maps stand for the open nodes -----

  ghost predicate DirsAgree(nodes: set<nat>, table: map<Text, nat>) {
    && (forall h :: h in nodes ==> DirToken(h) in table && table[DirToken(h)] == h)
    && (forall t :: t in table ==> table[t] in nodes && t == DirToken(table[t]))
  }

  ghost predicate FilesAgree(nodes: set<nat>, table: map<Text, nat>) {
    && (forall h :: h in nodes ==> FileToken(h) in table && table[FileToken(h)] == h)
    && (forall t :: t in table ==> table[t] in nodes && t == FileToken(table[t]))
  }

  ghost predicate DeltasAgree(deltas: map<nat, Text>, table: map<Text, Stream>) {
    && (forall h :: h in deltas ==> FileToken(h) in table && table[FileToken(h)] == Stream(h, deltas[h]))
    && (forall t :: t in table ==> table[t].file in deltas && t == FileToken(table[t].file))
  }

  ghost predicate Agrees(s: Nodes, d: State) {
    && s.count == d.count
    && DirsAgree(s.dirs, d.dirs)
    && FilesAgree(s.files, d.files)
    && DeltasAgree(s.deltas, d.deltas)
  }

  /** All nodes ever opened, and one more, have tokens of their own. */
  ghost predicate Countable(s: Nodes) {
    Numbered(s) && s.count < TWO_TO_THE_64
  }

  lemma {:induction false} DirFound(nodes: set<nat>, table: map<Text, nat>, h: nat)
    requires DirsAgree(nodes, table) && h < TWO_TO_THE_64 && forall n :: n in nodes ==> n < TWO_TO_THE_64
    ensures DirToken(h) in table <==> h in nodes
    ensures h in nodes ==> table[DirToken(h)] == h
  {
    if DirToken(h) in table {
      TokensDistinct(h, table[DirToken(h)]);
    }
  }

  lemma {:induction false} FileFound(nodes: set<nat>, table: map<Text, nat>, h: nat)
    requires FilesAgree(nodes, table) && h < TWO_TO_THE_64 && forall n :: n in nodes ==> n < TWO_TO_THE_64
    ensures FileToken(h) in table <==> h in nodes
    ensures h in nodes ==> table[FileToken(h)] == h
  {
    if FileToken(h) in table {
      TokensDistinct(h, table[FileToken(h)]);
    }
  }

  lemma {:induction false} DeltaFound(deltas: map<nat, Text>, table: map<Text, Stream>, h: nat)
    requires DeltasAgree(deltas, table) && h < TWO_TO_THE_64 && forall n :: n in deltas ==> n < TWO_TO_THE_64
    ensures FileToken(h) in table <==> h in deltas
    ensures h in deltas ==> table[FileToken(h)] == Stream(h, deltas[h])
  {
    if FileToken(h) in table {
      TokensDistinct(h, table[FileToken(h)].file);
    }
  }

  lemma {:induction false} DirAdded(nodes: set<nat>, table: map<Text, nat>, h: nat)
    requires DirsAgree(nodes, table) && forall n :: n in nodes ==> n < h
    requires h < TWO_TO_THE_64
    ensures DirsAgree(nodes + {h}, table[DirToken(h) := h])
  {
    forall n | n in nodes
      ensures DirToken(n) != DirToken(h)
    {
      TokensDistinct(n, h);
    }
  }

  lemma {:induction false} FileAdded(nodes: set<nat>, table: map<Text, nat>, h: nat)
    requires FilesAgree(nodes, table) && forall n :: n in nodes ==> n < h
    requires h < TWO_TO_THE_64
    ensures FilesAgree(nodes + {h}, table[FileToken(h) := h])
  {
    forall n | n in nodes
      ensures FileToken(n) != FileToken(h)
    {
      TokensDistinct(n, h);
    }
  }

  lemma {:induction false} DirRemoved(nodes: set<nat>, table: map<Text, nat>, h: nat)
    requires DirsAgree(nodes, table) && h in nodes && forall n :: n in nodes ==> n < TWO_TO_THE_64
    ensures DirsAgree(nodes - {h}, table - {DirToken(h)})
  {
    forall n | n in nodes && n != h
      ensures DirToken(n) != DirToken(h)
    {
      TokensDistinct(n, h);
    }
  }

  lemma {:induction false} FileRemoved(nodes: set<nat>, table: map<Text, nat>, h: nat)
    requires FilesAgree(nodes, table) && h in nodes && forall n :: n in nodes ==> n < TWO_TO_THE_64
    ensures FilesAgree(nodes - {h}, table - {FileToken(h)})
  {
    forall n | n in nodes && n != h
      ensures FileToken(n) != FileToken(h)
    {
      TokensDistinct(n, h);
    }
  }

  lemma {:induction false} DeltaSet(deltas: map<nat, Text>, table: map<Text, Stream>, h: nat, data: Text)
    requires DeltasAgree(deltas, table) && h < TWO_TO_THE_64 && forall n :: n in deltas ==> n < TWO_TO_THE_64
    ensures DeltasAgree(deltas[h := data], table[FileToken(h) := Stream(h, data)])
  {
    forall n | n in deltas && n != h
      ensures FileToken(n) != FileToken(h)
    {
      TokensDistinct(n, h);
    }
  }

  lemma {:induction false} DeltaRemoved(deltas: map<nat, Text>, table: map<Text, Stream>, h: nat)
    requires DeltasAgree(deltas, table) && h in deltas && forall n :: n in deltas ==> n < TWO_TO_THE_64
    ensures DeltasAgree(deltas - {h}, table - {FileToken(h)})
  {
    forall n | n in deltas && n != h
      ensures FileToken(n) != FileToken(h)
    {
      TokensDistinct(n, h);
    }
  }

  // ----- one command -----

  /** The nodes a call may name. */
  predicate Within(call: Call<nat>, bound: nat) {
    match call
    case SetTargetRevision(_) => true
    case OpenRoot(_) => true
    case CloseEdit => true
    case AbortEdit => true
    case DeleteEntry(dir, _, _) => dir < bound
    case AddDirectory(dir, _, _) => dir < bound
    case OpenDirectory(dir, _, _) => dir < bound
    case ChangeDirProp(dir, _, _) => dir < bound
    case AbsentDirectory(dir, _) => dir < bound
    case AddFile(dir, _, _) => dir < bound
    case OpenFile(dir, _, _) => dir < bound
    case AbsentFile(dir, _) => dir < bound
    case CloseDirectory(dir) => dir < bound
    case ApplyTextDelta(file, _) => file < bound
    case DeltaChunk(file, _) => file < bound
    case DeltaEnd(file) => file < bound
    case ChangeFileProp(file, _, _) => file < bound
    case CloseFile(file, _) => file < bound
  }

  /** The driver resolves the tokens of a call exactly when the call is legal, and then to the
      nodes that were meant. */
  lemma {:induction false} ResolveNamed(s: Nodes, d: State, call: Call<nat>)
    requires Countable(s) && Agrees(s, d) && Within(call, TWO_TO_THE_64)
    ensures Resolve(d, Named(call)) == if Legal(s, call) then Some(call) else None
  {
    match call {
      case DeleteEntry(dir, _, _) => DirFound(s.dirs, d.dirs, dir);
      case AddDirectory(dir, _, _) => DirFound(s.dirs, d.dirs, dir);
      case OpenDirectory(dir, _, _) => DirFound(s.dirs, d.dirs, dir);
      case ChangeDirProp(dir, _, _) => DirFound(s.dirs, d.dirs, dir);
      case AbsentDirectory(dir, _) => DirFound(s.dirs, d.dirs, dir);
      case AddFile(dir, _, _) => DirFound(s.dirs, d.dirs, dir);
      case OpenFile(dir, _, _) => DirFound(s.dirs, d.dirs, dir);
      case AbsentFile(dir, _) => DirFound(s.dirs, d.dirs, dir);
      case CloseDirectory(dir) => DirFound(s.dirs, d.dirs, dir);
      case ApplyTextDelta(file, _) => FileFound(s.files, d.files, file);
      case DeltaChunk(file, _) => DeltaFound(s.deltas, d.deltas, file);
      case DeltaEnd(file) => DeltaFound(s.deltas, d.deltas, file);
      case ChangeFileProp(file, _, _) => FileFound(s.files, d.files, file);
      case CloseFile(file, _) => FileFound(s.files, d.files, file);
      case SetTargetRevision(_) =>
      case OpenRoot(_) =>
      case CloseEdit =>
      case AbortEdit =>
    }
  }

  /** The command that stands for a call when so many nodes have been opened before it. */
  function CommandFor(call: Call<nat>, count: nat): Item {
    CommandItem(Named(call), NewToken(call, count))
  }

  lemma {:induction false} CommandIsRead(call: Call<nat>, count: nat)
    requires Sound(call)
    ensures ParseRequest(CommandFor(call, count)) == Some(Request(Named(call), NewToken(call, count)))
    ensures IsCommand(CommandFor(call, count))
  {
    RequestRoundTrip(Named(call), NewToken(call, count));
  }

  lemma {:induction false} LegalIsWithin(s: Nodes, call: Call<nat>)
    requires Countable(s) && Legal(s, call)
    ensures Within(call, TWO_TO_THE_64)
  {
  }

  lemma {:induction false} MapsFollow(s: Nodes, d: State, call: Call<nat>)
    requires Countable(s) && Agrees(s, d) && Legal(s, call)
    requires !call.DeltaChunk?
    ensures Agrees(After(s, call), Remember(d, Request(Named(call), NewToken(call, s.count)), call, true))
  {
    if OpensDirectory(call) {
      DirAdded(s.dirs, d.dirs, s.count);
    } else if OpensFile(call) {
      FileAdded(s.files, d.files, s.count);
    } else if call.CloseDirectory? {
      DirRemoved(s.dirs, d.dirs, call.dir);
    } else if call.CloseFile? {
      FileRemoved(s.files, d.files, call.file);
    } else if call.ApplyTextDelta? {
      DeltaSet(s.deltas, d.deltas, call.file, []);
    } else if call.DeltaEnd? {
      DeltaRemoved(s.deltas, d.deltas, call.file);
    }
  }

  lemma {:induction false} ChunkFollows(s: Nodes, d: State, call: Call<nat>)
    requires Countable(s) && Agrees(s, d) && Legal(s, call)
    requires call.DeltaChunk?
    ensures Agrees(After(s, call), Append(d, Request(Named(call), [])))
    ensures Append(d, Request(Named(call), [])).seen == d.seen
  {
    DeltaFound(s.deltas, d.deltas, call.file);
    DeltaSet(s.deltas, d.deltas, call.file, s.deltas[call.file] + call.data);
  }

  predicate Accepted(editor: Editor, s: Nodes, call: Call<nat>, seen: seq<Seen>) {
    Visible(s, call) == [] || seen + Visible(s, call) in editor
  }

  /** Dispatching the command that a legal call sends shows the editor that call and nothing
      else; unless the editor refuses it, the maps keep standing for the open nodes. */
  lemma {:induction false} StepSimulates(editor: Editor, s: Nodes, d: State, call: Call<nat>)
    requires Countable(s) && Agrees(s, d) && Legal(s, call) && Sound(call)
    ensures var step := Dispatch(editor, d, CommandFor(call, s.count));
            && step.state.seen == d.seen + Visible(s, call)
            && step.outcome == (if !Accepted(editor, s, call, d.seen) then Failed
                                else if Ends(call) then Finished else Continue)
            && (step.outcome != Failed ==> Agrees(After(s, call), step.state))
  {
    CommandIsRead(call, s.count);
    LegalIsWithin(s, call);
    ResolveNamed(s, d, call);
    var request := Request(Named(call), NewToken(call, s.count));
    if call.DeltaChunk? {
      ChunkFollows(s, d, call);
      assert d.seen + [] == d.seen;
    } else {
      EventIsVisible(s, d, call);
      var e := Visible(s, call)[0];
      assert Visible(s, call) == [e];
      MapsFollow(s, d.(seen := d.seen + [e]), call);
      SeenStays(d.(seen := d.seen + [e]), request, call, d.seen + [e] in editor);
    }
  }

  lemma {:induction false} SeenStays(d: State, request: Request, node: Call<nat>, accepted: bool)
    ensures Remember(d, request, node, accepted).seen == d.seen
  {
  }

  lemma {:induction false} EventIsVisible(s: Nodes, d: State, call: Call<nat>)
    requires Countable(s) && Agrees(s, d) && Legal(s, call) && !call.DeltaChunk?
    ensures |Visible(s, call)| == 1
    ensures Event(d, Request(Named(call), NewToken(call, s.count)), call) == Some(Visible(s, call)[0])
  {
    if call.DeltaEnd? {
      DeltaFound(s.deltas, d.deltas, call.file);
    }
  }

  /** Dispatching the command of an illegal call fails on an unknown token before the editor sees
      anything. */
  lemma {:induction false} IllegalFails(editor: Editor, s: Nodes, d: State, call: Call<nat>)
    requires Countable(s) && Agrees(s, d) && Within(call, TWO_TO_THE_64) && !Legal(s, call) && Sound(call)
    ensures Dispatch(editor, d, CommandFor(call, s.count)) == Step(d, Failed)
  {
    CommandIsRead(call, s.count);
    ResolveNamed(s, d, call);
  }

  // ----- whole runs -----

  /** The items are the commands of the calls. */
  ghost predicate AllSent(calls: seq<Call<nat>>, items: seq<Item>) {
    && |items| == |calls|
    && forall i {:trigger CommandFor(calls[i], NodesAfter(calls, i).count)} :: 0 <= i < |calls| ==>
         items[i] == CommandFor(calls[i], NodesAfter(calls, i).count)
  }

  /** The editor accepts what it sees of the first n calls. */
  predicate AcceptedAt(editor: Editor, calls: seq<Call<nat>>, i: nat)
    requires i < |calls|
  {
    Accepted(editor, NodesAfter(calls, i), calls[i], VisibleRun(calls, i))
  }

  /** The first call at or after i that the editor refuses, or the number of calls. */
  ghost function Refused(editor: Editor, calls: seq<Call<nat>>, i: nat): (k: nat)
    requires i <= |calls|
    ensures i <= k <= |calls|
    ensures forall j :: i <= j < k ==> AcceptedAt(editor, calls, j)
    ensures k < |calls| ==> !AcceptedAt(editor, calls, k)
    decreases |calls| - i
  {
    if i == |calls| || !AcceptedAt(editor, calls, i) then i else Refused(editor, calls, i + 1)
  }

  /** What becomes of a run: the editor sees all of it, or everything up to and including the
      first call it refuses and then an abort. */
  ghost function Expected(editor: Editor, calls: seq<Call<nat>>): seq<Seen> {
    var k := Refused(editor, calls, 0);
    if k == |calls| then VisibleRun(calls, k) else VisibleRun(calls, k + 1) + [Called(AbortEdit)]
  }

  ghost function ExpectedOutcome(editor: Editor, calls: seq<Call<nat>>): Outcome {
    if Refused(editor, calls, 0) < |calls| then Failed
    else if calls != [] && Ends(calls[|calls| - 1]) then Finished else Continue
  }

  lemma {:induction false} CountGrows(calls: seq<Call<nat>>, n: nat)
    requires n <= |calls| && LegalRun(calls)
    ensures NodesAfter(calls, n).count <= n && Numbered(NodesAfter(calls, n))
  {
    if n > 0 {
      CountGrows(calls, n - 1);
      assert LegalAt(calls, n - 1);
      NumberedAfter(NodesAfter(calls, n - 1), calls[n - 1]);
    }
  }

  /** The driver's state after dispatching the first n items, one after the other. */
  ghost function StateAt(editor: Editor, items: seq<Item>, n: nat): State
    requires n <= |items|
  {
    if n == 0 then START else Dispatch(editor, StateAt(editor, items, n - 1), items[n - 1]).state
  }

  ghost predicate Continues(editor: Editor, items: seq<Item>, i: nat)
    requires i < |items|
  {
    IsCommand(items[i]) && Dispatch(editor, StateAt(editor, items, i), items[i]).outcome == Continue
  }

  lemma {:induction false} DrivePrefix(editor: Editor, items: seq<Item>, n: nat)
    requires n <= |items| && forall i :: 0 <= i < n ==> Continues(editor, items, i)
    ensures Drive(editor, START, items, 0) == Drive(editor, StateAt(editor, items, n), items, n)
  {
    if n > 0 {
      DrivePrefix(editor, items, n - 1);
      assert Continues(editor, items, n - 1);
    }
  }

  ghost function OutcomeAt(editor: Editor, calls: seq<Call<nat>>, i: nat): Outcome
    requires i < |calls|
  {
    if !AcceptedAt(editor, calls, i) then Failed else if Ends(calls[i]) then Finished else Continue
  }

  /** After n calls the maps stand for the open nodes, and the editor has seen those calls. */
  ghost predicate Simulates(editor: Editor, calls: seq<Call<nat>>, d: State, n: nat)
    requires n <= |calls|
  {
    Agrees(NodesAfter(calls, n), d) && d.seen == VisibleRun(calls, n)
  }

  lemma {:induction false} RunStep(editor: Editor, calls: seq<Call<nat>>, items: seq<Item>, i: nat, d: State)
    requires LegalRun(calls) && i < |calls| <= TWO_TO_THE_64 && AllSent(calls, items)
    requires Simulates(editor, calls, d, i)
    ensures IsCommand(items[i])
    ensures var step := Dispatch(editor, d, items[i]);
            && step.state.seen == VisibleRun(calls, i + 1) && step.outcome == OutcomeAt(editor, calls, i)
            && (step.outcome != Failed ==> Simulates(editor, calls, step.state, i + 1))
  {
    var s, call := NodesAfter(calls, i), calls[i];
    CountGrows(calls, i);
    assert LegalAt(calls, i);
    assert items[i] == CommandFor(call, s.count);
    StepSimulates(editor, s, d, call);
    CommandIsRead(call, s.count);
  }

  lemma {:induction false} NextState(editor: Editor, items: seq<Item>, n: nat, d: State)
    requires 0 < n <= |items| && d == StateAt(editor, items, n - 1)
    ensures StateAt(editor, items, n) == Dispatch(editor, d, items[n - 1]).state
  {
  }

  lemma {:induction false} PrefixSimulates(editor: Editor, calls: seq<Call<nat>>, items: seq<Item>, n: nat)
    requires LegalRun(calls) && n <= |calls| <= TWO_TO_THE_64 && AllSent(calls, items)
    requires forall i :: 0 <= i < n ==> OutcomeAt(editor, calls, i) == Continue
    ensures Simulates(editor, calls, StateAt(editor, items, n), n)
  {
    if n > 0 {
      PrefixSimulates(editor, calls, items, n - 1);
      var d := StateAt(editor, items, n - 1);
      assert OutcomeAt(editor, calls, n - 1) == Continue;
      RunStep(editor, calls, items, n - 1, d);
      NextState(editor, items, n, d);
    }
  }

  lemma {:induction false} PrefixContinues(editor: Editor, calls: seq<Call<nat>>, items: seq<Item>, n: nat)
    requires LegalRun(calls) && n <= |calls| <= TWO_TO_THE_64 && AllSent(calls, items)
    requires forall i :: 0 <= i < n ==> OutcomeAt(editor, calls, i) == Continue
    ensures Drive(editor, START, items, 0) == Drive(editor, StateAt(editor, items, n), items, n)
  {
    forall i | 0 <= i < n
      ensures Continues(editor, items, i)
    {
      PrefixSimulates(editor, calls, items, i);
      RunStep(editor, calls, items, i, StateAt(editor, items, i));
    }
    DrivePrefix(editor, items, n);
  }

  lemma {:induction false} LastStep(editor: Editor, d: State, items: seq<Item>, i: nat)
    requires i < |items| && IsCommand(items[i])
    requires Dispatch(editor, d, items[i]).outcome != Continue
    ensures var step := Dispatch(editor, d, items[i]);
            Drive(editor, d, items, i) ==
            if step.outcome == Finished then step else Step(ToldToAbort(step.state.(deltas := map[])), Failed)
  {
  }

  /** The run stops at call i. */
  lemma {:induction false} StopsAt(editor: Editor, calls: seq<Call<nat>>, items: seq<Item>, i: nat)
    requires LegalRun(calls) && i < |calls| <= TWO_TO_THE_64 && AllSent(calls, items)
    requires forall j :: 0 <= j < i ==> OutcomeAt(editor, calls, j) == Continue
    requires OutcomeAt(editor, calls, i) != Continue
    ensures Drive(editor, START, items, 0).outcome == OutcomeAt(editor, calls, i)
    ensures Drive(editor, START, items, 0).state.seen ==
            if OutcomeAt(editor, calls, i) == Failed then VisibleRun(calls, i + 1) + [Called(AbortEdit)]
            else VisibleRun(calls, i + 1)
  {
    PrefixSimulates(editor, calls, items, i);
    PrefixContinues(editor, calls, items, i);
    RunStep(editor, calls, items, i, StateAt(editor, items, i));
    LastStep(editor, StateAt(editor, items, i), items, i);
  }

  lemma {:induction false} FailsAt(editor: Editor, calls: seq<Call<nat>>, items: seq<Item>, i: nat)
    requires LegalRun(calls) && i < |calls| <= TWO_TO_THE_64 && AllSent(calls, items)
    requires forall j :: 0 <= j < i ==> OutcomeAt(editor, calls, j) == Continue
    requires !AcceptedAt(editor, calls, i)
    ensures Drive(editor, START, items, 0).outcome == Failed
    ensures Drive(editor, START, items, 0).state.seen == VisibleRun(calls, i + 1) + [Called(AbortEdit)]
  {
    StopsAt(editor, calls, items, i);
  }

  lemma {:induction false} FinishesAt(editor: Editor, calls: seq<Call<nat>>, items: seq<Item>, i: nat)
    requires LegalRun(calls) && i < |calls| <= TWO_TO_THE_64 && AllSent(calls, items)
    requires forall j :: 0 <= j < i ==> OutcomeAt(editor, calls, j) == Continue
    requires AcceptedAt(editor, calls, i) && Ends(calls[i])
    ensures Drive(editor, START, items, 0).outcome == Finished
    ensures Drive(editor, START, items, 0).state.seen == VisibleRun(calls, i + 1)
  {
    StopsAt(editor, calls, items, i);
  }

  /** The run goes on to its last call. */
  lemma {:induction false} RunsOut(editor: Editor, calls: seq<Call<nat>>, items: seq<Item>)
    requires LegalRun(calls) && |calls| <= TWO_TO_THE_64 && AllSent(calls, items)
    requires forall i :: 0 <= i < |calls| ==> OutcomeAt(editor, calls, i) == Continue
    ensures Drive(editor, START, items, 0).outcome == Continue
    ensures Drive(editor, START, items, 0).state.seen == VisibleRun(calls, |calls|)
  {
    PrefixSimulates(editor, calls, items, |calls|);
    PrefixContinues(editor, calls, items, |calls|);
  }

  lemma {:induction false} AllContinue(editor: Editor, calls: seq<Call<nat>>, m: nat)
    requires LegalRun(calls) && m <= Refused(editor, calls, 0)
    requires m == |calls| ==> m == 0 || !Ends(calls[m - 1])
    ensures forall i :: 0 <= i < m ==> OutcomeAt(editor, calls, i) == Continue
  {
  }

  lemma {:induction false} RefusedRun(editor: Editor, calls: seq<Call<nat>>, items: seq<Item>, k: nat)
    requires LegalRun(calls) && |calls| <= TWO_TO_THE_64 && AllSent(calls, items)
    requires k == Refused(editor, calls, 0) < |calls|
    ensures Drive(editor, START, items, 0).state.seen == VisibleRun(calls, k + 1) + [Called(AbortEdit)]
    ensures Drive(editor, START, items, 0).outcome == Failed
  {
    AllContinue(editor, calls, k);
    FailsAt(editor, calls, items, k);
  }

  lemma {:induction false} AcceptedRun(editor: Editor, calls: seq<Call<nat>>, items: seq<Item>)
    requires LegalRun(calls) && |calls| <= TWO_TO_THE_64 && AllSent(calls, items)
    requires Refused(editor, calls, 0) == |calls|
    ensures Drive(editor, START, items, 0).state.seen == VisibleRun(calls, |calls|)
    ensures Drive(editor, START, items, 0).outcome
            == if calls != [] && Ends(calls[|calls| - 1]) then Finished else Continue
  {
    var n := |calls|;
    if n > 0 && Ends(calls[n - 1]) {
      AllContinue(editor, calls, n - 1);
      FinishesAt(editor, calls, items, n - 1);
    } else {
      AllContinue(editor, calls, n);
      RunsOut(editor, calls, items);
    }
  }

  /** For every legal run of calls and every receiving editor: dispatching the commands that were
      sent shows that editor the same calls on the same nodes, with every text delta in one
      piece, up to the first call it refuses, which is followed by an abort. */
  lemma {:induction false} Simulation(editor: Editor, calls: seq<Call<nat>>, items: seq<Item>)
    requires LegalRun(calls) && |calls| <= TWO_TO_THE_64 && AllSent(calls, items)
    ensures Drive(editor, START, items, 0).state.seen == Expected(editor, calls)
    ensures Drive(editor, START, items, 0).outcome == ExpectedOutcome(editor, calls)
  {
    if Refused(editor, calls, 0) < |calls| {
      RefusedRun(editor, calls, items, Refused(editor, calls, 0));
    } else {
      AcceptedRun(editor, calls, items);
    }
  }
}
