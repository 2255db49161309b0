/** The sending side (rasvn/commit_editor.go): editor calls become commands, nodes become tokens. */
module CommitEditor {
  import opened Common
  import opened Decimal
  import opened Wire
  import opened Checksums
  import opened EditorWire
  import opened EditorRun
  import opened EditorSimulation

  /** The fields of a commitEditor, and the items its connection has been given. */
  datatype Sender = Sender(nextToken: uint64, done: bool, sent: seq<Item>)

  const FRESH := Sender(0, false, [])

  const ABORT: Item := CommandItem(AbortEdit, [])

  /** send: nothing after the edit is done; an abort if the response is already there; else the
      command, unless the encoder refuses it. */
  function Send(s: Sender, item: Item, arrived: bool): Sender {
    if s.done then s
    else if arrived then s.(done := true, sent := s.sent + [ABORT])
    else if Encodable(item, 0) then s.(sent := s.sent + [item])
    else s
  }

  predicate Sent(s: Sender, item: Item, arrived: bool) {
    !s.done && !arrived && Encodable(item, 0)
  }

  /** The token a call takes, whether or not its command is sent. */
  function TokenFor(s: Sender, call: Call<Text>): Text {
    if OpensDirectory(call) then TokenText(DIRECTORY_PREFIX, s.nextToken)
    else if OpensFile(call) then TokenText(FILE_PREFIX, s.nextToken)
    else []
  }

  function Take(s: Sender, call: Call<Text>): Sender {
    if Opens(call) then s.(nextToken := Counter(s.nextToken + 1)) else s
  }

  function Make(s: Sender, call: Call<Text>, arrived: bool): Sender {
    Send(Take(s, call), CommandItem(call, TokenFor(s, call)), arrived)
  }

  /** CloseEdit and AbortEdit: the command ends the edit; a failed close is followed by an abort. */
  function Finish(s: Sender, call: Call<Text>, failed: bool): Sender {
    if s.done then s
    else s.(done := true, sent := s.sent + [CommandItem(call, [])] + if call.CloseEdit? && failed then [ABORT] else [])
  }

  datatype CommitDir = CommitDir(token: Text)

  datatype CommitFile = CommitFile(token: Text)

  class Editor {
    var nextToken: uint64
    var done: bool
    var sent: seq<Item>

    constructor ()
      ensures Now() == FRESH
    {
      nextToken, done, sent := 0, false, [];
    }

    function Now(): Sender
      reads this
    {
      Sender(nextToken, done, sent)
    }

    /** `arrived` stands for whether the select finds the edit's response waiting. */
    method SendItem(item: Item, arrived: bool) returns (ok: bool)
      modifies this
      ensures Now() == Send(old(Now()), item, arrived)
      ensures done == (old(done) || arrived) && nextToken == old(nextToken)
      ensures sent == old(sent) + if old(done) then [] else if arrived then [CommandItem(EditorWire.AbortEdit, [])]
                                  else if Encodable(item, 0) then [item] else []
      ensures ok == Sent(old(Now()), item, arrived)
    {
      if done {
        return false;
      }
      if arrived {
        done := true;
        sent := sent + [ABORT];
        return false;
      }
      ok := Encodable(item, 0);
      if ok {
        sent := sent + [item];
      }
    }

    method Token(prefix: byte) returns (token: Text)
      modifies this`nextToken
      ensures token == TokenText(prefix, old(nextToken)) && nextToken == Counter(old(nextToken) + 1)
    {
      token := [prefix] + Format(nextToken);
      nextToken := (nextToken + 1) % TWO_TO_THE_64;
    }

    /** Any call that opens no node. */
    method Command(call: Call<Text>, arrived: bool) returns (ok: bool)
      requires !Opens(call)
      modifies this
      ensures Now() == Make(old(Now()), call, arrived)
      ensures ok == Sent(old(Now()), CommandItem(call, []), arrived)
    {
      ok := SendItem(CommandItem(call, []), arrived);
    }

    method OpenDirectoryNode(call: Call<Text>, arrived: bool) returns (r: Option<CommitDir>)
      requires OpensDirectory(call)
      modifies this
      ensures Now() == Make(old(Now()), call, arrived)
      ensures var token := TokenFor(old(Now()), call);
              r == if Sent(old(Now()), CommandItem(call, token), arrived) then Some(CommitDir(token)) else None
    {
      var token := Token(DIRECTORY_PREFIX);
      var ok := SendItem(CommandItem(call, token), arrived);
      r := if ok then Some(CommitDir(token)) else None;
    }

    method OpenFileNode(call: Call<Text>, arrived: bool) returns (r: Option<CommitFile>)
      requires OpensFile(call)
      modifies this
      ensures Now() == Make(old(Now()), call, arrived)
      ensures var token := TokenFor(old(Now()), call);
              r == if Sent(old(Now()), CommandItem(call, token), arrived) then Some(CommitFile(token)) else None
    {
      var token := Token(FILE_PREFIX);
      var ok := SendItem(CommandItem(call, token), arrived);
      r := if ok then Some(CommitFile(token)) else None;
    }

    method CloseEdit(failed: bool) returns (ok: bool)
      modifies this
      ensures Now() == Finish(old(Now()), EditorWire.CloseEdit, failed)
      ensures done && (old(done) ==> sent == old(sent))
      ensures !old(done) ==> sent == old(sent) + [CommandItem(EditorWire.CloseEdit, [])]
                                               + if failed then [CommandItem(EditorWire.AbortEdit, [])] else []
      ensures ok <==> !old(done) && !failed
    {
      if done {
        return false;
      }
      done := true;
      sent := sent + [CommandItem(EditorWire.CloseEdit, [])];
      if failed {
        sent := sent + [ABORT];
      }
      return !failed;
    }

    method AbortEdit()
      modifies this
      ensures Now() == Finish(old(Now()), EditorWire.AbortEdit, false)
      ensures done && sent == if old(done) then old(sent) else old(sent) + [CommandItem(EditorWire.AbortEdit, [])]
    {
      if !done {
        done := true;
        sent := sent + [ABORT];
      }
    }
  }

  // ----- runs -----

  /** One call of a program that drives the editor. */
  function Operate(s: Sender, call: Call<Text>, arrived: bool, failed: bool): Sender {
    if Ends(call) then Finish(s, call, failed) else Make(s, call, arrived)
  }

  /** The i-th call of a run. */
  function OperateAt(s: Sender, call: Call<nat>, i: nat, arrival: nat): Sender {
    Operate(s, Named(call), arrival <= i, false)
  }

  /** The states of a sender, call by call, when the edit's response is there from call `arrival`
      on; with an arrival beyond the last call it is never there. */
  ghost predicate IsRun(calls: seq<Call<nat>>, states: seq<Sender>, arrival: nat) {
    && |states| == |calls| + 1 && states[0] == FRESH
    && forall i {:trigger OperateAt(states[i], calls[i], i, arrival)} :: 0 <= i < |calls| ==>
         states[i + 1] == OperateAt(states[i], calls[i], i, arrival)
  }

  lemma {:induction false} CounterSuccessor(count: nat)
    ensures Counter(Counter(count) + 1) == Counter(count + 1)
  {
  }

  lemma {:induction false} NamedAgrees(call: Call<nat>)
    ensures Ends(Named(call)) == Ends(call) && Opens(Named(call)) == Opens(call)
    ensures OpensDirectory(Named(call)) == OpensDirectory(call) && OpensFile(Named(call)) == OpensFile(call)
  {
  }

  lemma {:induction false} CountAfter(s: Nodes, call: Call<nat>)
    ensures After(s, call).count == if Opens(call) then s.count + 1 else s.count
  {
  }

  /** One call, made while the edit goes on: its command is sent, and for the node it opens the
      sender hands out the very token that later calls on that node use. */
  lemma {:induction false} OperateSends(s: Sender, nodes: Nodes, call: Call<nat>)
    requires !s.done && s.nextToken == Counter(nodes.count) && Encodable(CommandFor(call, nodes.count), 0)
    ensures TokenFor(s, Named(call)) == NewToken(call, nodes.count)
    ensures Operate(s, Named(call), false, false) ==
            Sender(Counter(After(nodes, call).count), Ends(call), s.sent + [CommandFor(call, nodes.count)])
  {
    NamedAgrees(call);
    CountAfter(nodes, call);
    CounterSuccessor(nodes.count);
  }

  lemma {:induction false} SenderStep(calls: seq<Call<nat>>, states: seq<Sender>, items: seq<Item>, n: nat, arrival: nat)
    requires IsRun(calls, states, arrival) && AllSent(calls, items)
    requires n < |calls| && n < arrival && Encodable(items[n], 0)
    requires !states[n].done && states[n].nextToken == Counter(NodesAfter(calls, n).count)
    ensures states[n + 1] ==
            Sender(Counter(NodesAfter(calls, n + 1).count), Ends(calls[n]), states[n].sent + [items[n]])
  {
    assert items[n] == CommandFor(calls[n], NodesAfter(calls, n).count);
    OperateSends(states[n], NodesAfter(calls, n), calls[n]);
    assert states[n + 1] == OperateAt(states[n], calls[n], n, arrival);
  }

  /** Until the edit is done the sender sends the command of every call. */
  lemma {:induction false} SenderSends(calls: seq<Call<nat>>, states: seq<Sender>, items: seq<Item>, n: nat, arrival: nat)
    requires IsRun(calls, states, arrival) && AllSent(calls, items)
    requires n <= |calls| && n <= arrival
    requires forall i :: 0 <= i < n ==> Encodable(items[i], 0)
    requires forall i :: 0 <= i < n - 1 ==> !Ends(calls[i])
    ensures states[n] == Sender(Counter(NodesAfter(calls, n).count), n > 0 && Ends(calls[n - 1]), items[..n])
  {
    if n > 0 {
      SenderSends(calls, states, items, n - 1, arrival);
      SenderStep(calls, states, items, n - 1, arrival);
      assert items[..n] == items[..n - 1] + [items[n - 1]];
    } else {
      CounterSmall(0);
    }
  }

  lemma {:induction false} OperateDone(s: Sender, call: Call<Text>, arrived: bool)
    requires s.done
    ensures Operate(s, call, arrived, false).done && Operate(s, call, arrived, false).sent == s.sent
  {
  }

  /** Once the edit is done nothing is sent any more. */
  lemma {:induction false} DoneStaysDone(calls: seq<Call<nat>>, states: seq<Sender>, m: nat, n: nat, arrival: nat)
    requires IsRun(calls, states, arrival) && m <= n <= |calls| && states[m].done
    ensures states[n].done && states[n].sent == states[m].sent
    decreases n - m
  {
    if m < n {
      DoneStaysDone(calls, states, m, n - 1, arrival);
      OperateDone(states[n - 1], Named(calls[n - 1]), arrival <= n - 1);
      assert states[n] == OperateAt(states[n - 1], calls[n - 1], n - 1, arrival);
    }
  }

  lemma {:induction false} OperateAborts(s: Sender, call: Call<nat>)
    requires !s.done && !Ends(call)
    ensures Operate(s, Named(call), true, false).done && Operate(s, Named(call), true, false).sent == s.sent + [ABORT]
  {
    NamedAgrees(call);
  }

  /** The run that is cut off before call k. */
  function Cut(calls: seq<Call<nat>>, k: nat): seq<Call<nat>>
    requires k <= |calls|
  {
    calls[..k] + [AbortEdit]
  }

  lemma {:induction false} SamePrefix(a: seq<Call<nat>>, b: seq<Call<nat>>, n: nat)
    requires n <= |a| && n <= |b| && forall i :: 0 <= i < n ==> a[i] == b[i]
    ensures NodesAfter(a, n) == NodesAfter(b, n)
  {
    if n > 0 { SamePrefix(a, b, n - 1); }
  }

  lemma {:induction false} CutCommands(calls: seq<Call<nat>>, items: seq<Item>, k: nat)
    requires k <= |calls| && AllSent(calls, items)
    ensures AllSent(Cut(calls, k), items[..k] + [ABORT])
  {
    var cut, sent := Cut(calls, k), items[..k] + [ABORT];
    forall i | 0 <= i < |cut|
      ensures sent[i] == CommandFor(cut[i], NodesAfter(cut, i).count)
    {
      if i < k {
        SamePrefix(calls, cut, i);
        assert items[i] == CommandFor(calls[i], NodesAfter(calls, i).count);
      }
    }
  }

  /** A response that arrives before call k turns that call into an abort: what is sent is what
      the run sends that is cut off there, and nothing more. */
  lemma {:induction false} EarlyResponse(calls: seq<Call<nat>>, states: seq<Sender>, items: seq<Item>, k: nat)
    requires IsRun(calls, states, k) && AllSent(calls, items)
    requires k < |calls| && forall i :: 0 <= i <= k ==> !Ends(calls[i])
    requires forall i :: 0 <= i < k ==> Encodable(items[i], 0)
    ensures states[|calls|].done && AllSent(Cut(calls, k), states[|calls|].sent)
  {
    SenderSends(calls, states, items, k, k);
    assert states[k + 1] == OperateAt(states[k], calls[k], k, k);
    OperateAborts(states[k], calls[k]);
    DoneStaysDone(calls, states, k + 1, |calls|, k);
    CutCommands(calls, items, k);
  }
}
