/** The server and clients of linux-sharedMsg as an interleaved transition system: a shared buffer, a binary
    semaphore around it, and a FIFO queue of notifications. System calls are assumed to succeed, and one
    `scanf` into the buffer is a start and an end with the buffer torn in between. */
module SharedMessage {
  datatype Notice = Read | Quit

  datatype ClientPc =
    | Prompt     // at the command prompt
    | Wanting    // before sem_p
    | Entered    // holds the semaphore, has not touched the buffer
    | Writing    // inside scanf
    | Written    // before sem_v
    | Released   // before msgsnd of 'r'
    | Quitting   // before msgsnd of 'q'
    | Stopped

  datatype ServerPc =
    | Receiving
    | Serving    // got 'r', before sem_p
    | Holding    // before printf
    | Printed    // before sem_v
    | Closed

  datatype Buffer = Untouched | Torn | Whole(text: string)

  /** A printed buffer, and how many writes had been completed by then. */
  datatype Shown = Shown(buffer: Buffer, writesDone: nat)

  datatype State = State(
    sem: nat, buffer: Buffer, server: ServerPc, clients: map<nat, ClientPc>,
    sent: seq<Notice>,   // every notification ever sent
    received: nat,       // how many of them the server has taken from the queue
    writes: seq<string>, // every completed write
    prints: seq<Shown>)

  datatype Op =
    | Command(c: nat)
    | CommandQuit(c: nat)
    | ClientP(c: nat)
    | BeginWrite(c: nat)
    | EndWrite(c: nat, text: string)
    | ClientV(c: nat)
    | SendRead(c: nat)
    | SendQuit(c: nat)
    | Receive
    | ServerP
    | Print
    | ServerV

  function Initial(clients: set<nat>): State {
    State(1, Untouched, Receiving, map c | c in clients :: Prompt, [], 0, [], [])
  }

  predicate At(s: State, c: nat, pc: ClientPc) {
    c in s.clients && s.clients[c] == pc
  }

  predicate Enabled(s: State, op: Op) {
    match op
    case Command(c) => At(s, c, Prompt)
    case CommandQuit(c) => At(s, c, Prompt)
    case ClientP(c) => At(s, c, Wanting) && s.sem > 0
    case BeginWrite(c) => At(s, c, Entered)
    case EndWrite(c, _) => At(s, c, Writing)
    case ClientV(c) => At(s, c, Written)
    case SendRead(c) => At(s, c, Released)
    case SendQuit(c) => At(s, c, Quitting)
    case Receive => s.server.Receiving? && s.received < |s.sent|
    case ServerP => s.server.Serving? && s.sem > 0
    case Print => s.server.Holding?
    case ServerV => s.server.Printed?
  }

  function Apply(s: State, op: Op): State
    requires Enabled(s, op)
  {
    match op
    case Command(c) => s.(clients := s.clients[c := Wanting])
    case CommandQuit(c) => s.(clients := s.clients[c := Quitting])
    case ClientP(c) => s.(clients := s.clients[c := Entered], sem := s.sem - 1)
    case BeginWrite(c) => s.(clients := s.clients[c := Writing], buffer := Torn)
    case EndWrite(c, text) =>
      s.(clients := s.clients[c := Written], buffer := Whole(text), writes := s.writes + [text])
    case ClientV(c) => s.(clients := s.clients[c := Released], sem := s.sem + 1)
    case SendRead(c) => s.(clients := s.clients[c := Prompt], sent := s.sent + [Read])
    case SendQuit(c) => s.(clients := s.clients[c := Stopped], sent := s.sent + [Quit])
    case Receive =>
      s.(server := if s.sent[s.received].Quit? then Closed else Serving, received := s.received + 1)
    case ServerP => s.(server := Holding, sem := s.sem - 1)
    case Print => s.(server := Printed, prints := s.prints + [Shown(s.buffer, |s.writes|)])
    case ServerV => s.(server := Receiving, sem := s.sem + 1)
  }

  predicate Runs(s: State, ops: seq<Op>)
    decreases |ops|
  {
    ops == [] || (Enabled(s, ops[0]) && Runs(Apply(s, ops[0]), ops[1..]))
  }

  function After(s: State, ops: seq<Op>): State
    requires Runs(s, ops)
    decreases |ops|
  {
    if ops == [] then s else After(Apply(s, ops[0]), ops[1..])
  }

  // ---- Mutual exclusion ----

  predicate Inside(pc: ClientPc) {
    pc.Entered? || pc.Writing? || pc.Written?
  }

  /** The semaphore is binary and guards the buffer: at most one process is inside. */
  predicate Exclusion(s: State) {
    && s.sem <= 1
    && (s.server.Holding? || s.server.Printed? ==> s.sem == 0)
    && (forall c :: c in s.clients && Inside(s.clients[c]) ==>
          s.sem == 0 && !s.server.Holding? && !s.server.Printed?)
    && (forall c, d :: c in s.clients && d in s.clients && Inside(s.clients[c]) && Inside(s.clients[d]) ==> c == d)
  }

  /** Whether the semaphore is taken by someone who will give it back. */
  predicate Held(s: State) {
    s.server.Holding? || s.server.Printed? || exists c :: c in s.clients && Inside(s.clients[c])
  }

  predicate SemaphoreInv(s: State) {
    s.sem == 0 ==> Held(s)
  }

  lemma SemaphoreStep(s: State, op: Op)
    requires Exclusion(s) && SemaphoreInv(s) && Enabled(s, op)
    ensures SemaphoreInv(Apply(s, op))
  {
    var t := Apply(s, op);
    if t.sem == 0 && !t.server.Holding? && !t.server.Printed? {
      if op.ClientP? {
        assert Inside(t.clients[op.c]);
      } else {
        var c :| c in s.clients && Inside(s.clients[c]);
        assert Inside(t.clients[c]);
      }
    }
  }

  predicate NobodyWriting(s: State) {
    forall c :: c in s.clients ==> s.clients[c] != Writing
  }

  function Latest(writes: seq<string>): Buffer {
    if writes == [] then Untouched else Whole(writes[|writes| - 1])
  }

  /** Unless a client is in the middle of it, the buffer holds the last completed write. */
  predicate BufferInv(s: State) {
    NobodyWriting(s) ==> s.buffer == Latest(s.writes)
  }

  lemma ExclusionStep(s: State, op: Op)
    requires Exclusion(s) && Enabled(s, op)
    ensures Exclusion(Apply(s, op))
  {
  }

  lemma BufferStep(s: State, op: Op)
    requires Exclusion(s) && BufferInv(s) && Enabled(s, op)
    ensures BufferInv(Apply(s, op))
  {
    var t := Apply(s, op);
    if NobodyWriting(t) && !op.EndWrite? && !op.BeginWrite? {
      forall c | c in s.clients ensures s.clients[c] != Writing {
        assert c in t.clients && t.clients[c] != Writing;
      }
    }
    if op.BeginWrite? {
      assert t.clients[op.c] == Writing;
    }
  }

  // ---- Counting notifications ----

  function Reads(sent: seq<Notice>): nat {
    if sent == [] then 0 else Reads(sent[..|sent| - 1]) + (if sent[|sent| - 1].Read? then 1 else 0)
  }

  /** The clients at a place of one kind. */
  function Those(clients: map<nat, ClientPc>, kind: ClientPc -> bool): set<nat> {
    set c | c in clients && kind(clients[c])
  }

  /** Past an 'r' command, with the write not complete. */
  predicate Pends(pc: ClientPc) {
    pc.Wanting? || pc.Entered? || pc.Writing?
  }

  /** With a write complete and not yet announced. */
  predicate Owes(pc: ClientPc) {
    pc.Written? || pc.Released?
  }

  function Pending(s: State): set<nat> {
    Those(s.clients, Pends)
  }

  function Owing(s: State): set<nat> {
    Those(s.clients, Owes)
  }

  predicate CountInv(s: State) {
    && s.received <= |s.sent|
    && Reads(s.sent) + |Owing(s)| == |s.writes|
    && |s.prints| + (if s.server.Serving? || s.server.Holding? then 1 else 0) == Reads(s.sent[..s.received])
  }

  lemma ReadsSnoc(sent: seq<Notice>, last: Notice)
    ensures Reads(sent + [last]) == Reads(sent) + (if last.Read? then 1 else 0)
  {
    assert (sent + [last])[..|sent|] == sent;
  }

  lemma {:induction false} ReadsPrefix(sent: seq<Notice>, n: nat)
    requires n <= |sent|
    ensures Reads(sent[..n]) <= Reads(sent)
    decreases |sent|
  {
    if n < |sent| {
      var init := sent[..|sent| - 1];
      assert sent[..n] == init[..n];
      ReadsPrefix(init, n);
    } else {
      assert sent[..n] == sent;
    }
  }

  /** Giving client `c` another place changes whether it counts and nothing else. */
  lemma Move(clients: map<nat, ClientPc>, c: nat, pc: ClientPc, kind: ClientPc -> bool)
    requires c in clients
    ensures |Those(clients[c := pc], kind)| + (if kind(clients[c]) then 1 else 0)
         == |Those(clients, kind)| + (if kind(pc) then 1 else 0)
  {
    var before, after := Those(clients, kind), Those(clients[c := pc], kind);
    var rest := before - {c};
    assert after == if kind(pc) then rest + {c} else rest;
    assert c in before ==> before == rest + {c};
    assert c !in before ==> before == rest;
  }

  predicate ByServer(op: Op) {
    op.Receive? || op.ServerP? || op.Print? || op.ServerV?
  }

  lemma OwingStep(s: State, op: Op)
    requires Enabled(s, op)
    ensures var t := Apply(s, op);
      |Owing(t)| == |Owing(s)| + (if op.EndWrite? then 1 else 0) - (if op.SendRead? then 1 else 0)
  {
    if !ByServer(op) {
      Move(s.clients, op.c, Apply(s, op).clients[op.c], Owes);
    }
  }

  lemma CountStep(s: State, op: Op)
    requires CountInv(s) && Enabled(s, op)
    ensures CountInv(Apply(s, op))
  {
    hide Reads, Owing;
    OwingStep(s, op);
    var t := Apply(s, op);
    if op.SendRead? || op.SendQuit? {
      ReadsSnoc(s.sent, if op.SendRead? then Read else Quit);
      assert t.sent[..s.received] == s.sent[..s.received];
    }
    if op.Receive? {
      assert t.sent[..t.received] == s.sent[..s.received] + [s.sent[s.received]];
      ReadsSnoc(s.sent[..s.received], s.sent[s.received]);
    }
  }

  // ---- What is printed ----

  predicate PrintsInv(s: State) {
    && (forall k :: 0 <= k < |s.prints| ==>
          k + 1 <= s.prints[k].writesDone <= |s.writes|
          && s.prints[k].buffer == Whole(s.writes[s.prints[k].writesDone - 1]))
    && (forall j, k :: 0 <= j < k < |s.prints| ==> s.prints[j].writesDone <= s.prints[k].writesDone)
  }

  lemma PrintsStep(s: State, op: Op)
    requires Exclusion(s) && BufferInv(s) && CountInv(s) && PrintsInv(s) && Enabled(s, op)
    ensures PrintsInv(Apply(s, op))
  {
    hide Reads, Owing;
    if op.Print? {
      ReadsPrefix(s.sent, s.received);
      assert NobodyWriting(s);
    }
  }

  /** Only the last notification taken can be a quit, and then the server is closed. */
  predicate QuitInv(s: State) {
    && s.received <= |s.sent|
    && (forall k :: 0 <= k < s.received && s.sent[k].Quit? ==> s.server.Closed? && k == s.received - 1)
    && (s.server.Closed? ==> s.received > 0 && s.sent[s.received - 1].Quit?)
  }

  predicate Inv(s: State) {
    Exclusion(s) && SemaphoreInv(s) && BufferInv(s) && CountInv(s) && PrintsInv(s) && QuitInv(s)
  }

  lemma StepInv(s: State, op: Op)
    requires Inv(s) && Enabled(s, op)
    ensures Inv(Apply(s, op))
  {
    assert QuitInv(Apply(s, op));
    hide Exclusion, SemaphoreInv, BufferInv, CountInv, PrintsInv, QuitInv;
    ExclusionStep(s, op);
    SemaphoreStep(s, op);
    BufferStep(s, op);
    CountStep(s, op);
    PrintsStep(s, op);
  }

  lemma InitialInv(clients: set<nat>)
    ensures Inv(Initial(clients))
  {
    assert Those(Initial(clients).clients, Owes) == {};
  }

  lemma {:induction false} RunInv(s: State, ops: seq<Op>)
    requires Inv(s) && Runs(s, ops)
    ensures Inv(After(s, ops)) && After(s, ops).clients.Keys == s.clients.Keys
    decreases |ops|
  {
    hide Inv;
    if ops != [] {
      StepInv(s, ops[0]);
      RunInv(Apply(s, ops[0]), ops[1..]);
    }
  }

  /** Whoever has taken the semaphore can take a step. */
  lemma HolderStep(s: State) returns (op: Op)
    requires SemaphoreInv(s) && s.sem == 0
    ensures Enabled(s, op)
    ensures op.BeginWrite? || op.EndWrite? || op.ClientV? || op.Print? || op.ServerV?
  {
    if s.server.Holding? {
      op := Print;
    } else if s.server.Printed? {
      op := ServerV;
    } else {
      var c :| c in s.clients && Inside(s.clients[c]);
      op := if s.clients[c].Entered? then BeginWrite(c)
            else if s.clients[c].Writing? then EndWrite(c, "") else ClientV(c);
    }
  }

  /** A process that waits for the semaphore never waits for nothing: whenever it is taken, its holder has a
      step to take that does not depend on anyone else. */
  lemma HolderCanGoOn(clients: set<nat>, ops: seq<Op>) returns (op: Op)
    requires Runs(Initial(clients), ops) && After(Initial(clients), ops).sem == 0
    ensures Enabled(After(Initial(clients), ops), op)
    ensures op.BeginWrite? || op.EndWrite? || op.ClientV? || op.Print? || op.ServerV?
  {
    InitialInv(clients);
    RunInv(Initial(clients), ops);
    hide Enabled;
    op := HolderStep(After(Initial(clients), ops));
  }

  // ---- A run told by its steps alone ----

  /** The texts typed, in the order in which they were complete. */
  function Texts(ops: seq<Op>): seq<string> {
    if ops == [] then [] else (if ops[0].EndWrite? then [ops[0].text] else []) + Texts(ops[1..])
  }

  /** The notifications sent. */
  function Notices(ops: seq<Op>): seq<Notice> {
    if ops == [] then []
    else (if ops[0].SendRead? then [Read] else if ops[0].SendQuit? then [Quit] else []) + Notices(ops[1..])
  }

  /** How many notifications the server took. */
  function Taken(ops: seq<Op>): nat {
    if ops == [] then 0 else (if ops[0].Receive? then 1 else 0) + Taken(ops[1..])
  }

  /** How many 'r' commands were given. */
  function Commands(ops: seq<Op>): nat {
    if ops == [] then 0 else (if ops[0].Command? then 1 else 0) + Commands(ops[1..])
  }

  /** What the server prints, when the texts `typed` were typed before: each time the last text by then. */
  function Output(typed: seq<string>, ops: seq<Op>): seq<Buffer>
    decreases |ops|
  {
    if ops == [] then []
    else match ops[0]
      case EndWrite(_, text) => Output(typed + [text], ops[1..])
      case Print => [Latest(typed)] + Output(typed, ops[1..])
      case _ => Output(typed, ops[1..])
  }

  function Buffers(prints: seq<Shown>): (b: seq<Buffer>)
    ensures |b| == |prints| && forall k :: 0 <= k < |b| ==> b[k] == prints[k].buffer
  {
    seq(|prints|, k requires 0 <= k < |prints| => prints[k].buffer)
  }

  lemma {:induction false} TextsRun(s: State, ops: seq<Op>)
    requires Runs(s, ops)
    ensures After(s, ops).writes == s.writes + Texts(ops)
    decreases |ops|
  {
    if ops != [] {
      var t, texts := Apply(s, ops[0]), if ops[0].EndWrite? then [ops[0].text] else [];
      assert t.writes == s.writes + texts;
      hide Apply, Enabled;
      TextsRun(t, ops[1..]);
      assert (s.writes + texts) + Texts(ops[1..]) == s.writes + (texts + Texts(ops[1..]));
    }
  }

  lemma {:induction false} NoticesRun(s: State, ops: seq<Op>)
    requires Runs(s, ops)
    ensures After(s, ops).sent == s.sent + Notices(ops)
    decreases |ops|
  {
    if ops != [] {
      var t := Apply(s, ops[0]);
      var notices := if ops[0].SendRead? then [Read] else if ops[0].SendQuit? then [Quit] else [];
      assert t.sent == s.sent + notices;
      hide Apply, Enabled;
      NoticesRun(t, ops[1..]);
      assert (s.sent + notices) + Notices(ops[1..]) == s.sent + (notices + Notices(ops[1..]));
    }
  }

  lemma {:induction false} TakenRun(s: State, ops: seq<Op>)
    requires Runs(s, ops)
    ensures After(s, ops).received == s.received + Taken(ops)
    decreases |ops|
  {
    if ops != [] {
      assert Apply(s, ops[0]).received == s.received + (if ops[0].Receive? then 1 else 0);
      hide Apply, Enabled;
      TakenRun(Apply(s, ops[0]), ops[1..]);
    }
  }

  /** The record a run keeps is what its steps say. */
  lemma Recorded(clients: set<nat>, ops: seq<Op>)
    requires Runs(Initial(clients), ops)
    ensures var s := After(Initial(clients), ops);
      && Inv(s) && s.clients.Keys == clients
      && s.writes == Texts(ops) && s.sent == Notices(ops) && s.received == Taken(ops)
      && Buffers(s.prints) == Output([], ops)
  {
    var start := Initial(clients);
    InitialInv(clients);
    RunInv(start, ops);
    TextsRun(start, ops);
    NoticesRun(start, ops);
    TakenRun(start, ops);
    OutputRun(start, ops);
    hide Inv, Runs, After, Texts, Notices, Taken, Output;
  }

  /** Every 'r' command leads to one typed text, unless its client is still on the way. */
  lemma {:induction false} CommandsRun(s: State, ops: seq<Op>)
    requires Runs(s, ops)
    ensures |Pending(s)| + Commands(ops) == |Texts(ops)| + |Pending(After(s, ops))|
    decreases |ops|
  {
    hide Pending;
    if ops != [] {
      PendingStep(s, ops[0]);
      hide Apply, Enabled;
      CommandsRun(Apply(s, ops[0]), ops[1..]);
    }
  }

  lemma PendingStep(s: State, op: Op)
    requires Enabled(s, op)
    ensures var t := Apply(s, op);
      |Pending(t)| == |Pending(s)| + (if op.Command? then 1 else 0) - (if op.EndWrite? then 1 else 0)
  {
    if !ByServer(op) {
      Move(s.clients, op.c, Apply(s, op).clients[op.c], Pends);
    }
  }

  lemma CommandsBecomeTexts(clients: set<nat>, ops: seq<Op>)
    requires Runs(Initial(clients), ops)
    ensures Commands(ops) == |Texts(ops)| + |Pending(After(Initial(clients), ops))|
  {
    assert Those(Initial(clients).clients, Pends) == {};
    CommandsRun(Initial(clients), ops);
  }

  lemma {:induction false} OutputRun(s: State, ops: seq<Op>)
    requires Inv(s) && Runs(s, ops)
    ensures Buffers(After(s, ops).prints) == Buffers(s.prints) + Output(s.writes, ops)
    decreases |ops|
  {
    hide Inv, Latest, Enabled;
    if ops != [] {
      var t, rest := Apply(s, ops[0]), Output(Apply(s, ops[0]).writes, ops[1..]);
      StepInv(s, ops[0]);
      if ops[0].Print? {
        PrintShowsLatest(s);
        assert Buffers(t.prints) == Buffers(s.prints) + [s.buffer];
        assert (Buffers(s.prints) + [s.buffer]) + rest == Buffers(s.prints) + ([s.buffer] + rest);
      }
      hide Apply;
      OutputRun(t, ops[1..]);
    }
  }

  lemma PrintShowsLatest(s: State)
    requires Inv(s) && Enabled(s, Print)
    ensures s.buffer == Latest(s.writes)
  {
    assert NobodyWriting(s);
  }

  // ---- What is printed, and how often ----

  lemma ShownAt(s: State, k: nat)
    requires PrintsInv(s) && k < |s.prints|
    ensures var w := s.prints[k].writesDone;
      && k + 1 <= w <= |s.writes|
      && s.prints[k].buffer == Whole(s.writes[w - 1])
      && (forall j :: 0 <= j < k ==> s.prints[j].writesDone <= w)
  {
  }

  /** In every interleaving, with any number of clients, the server prints exactly the last text typed by then,
      each time it prints. The k-th print (from zero) shows a complete text, not an earlier one than text number
      k + 1, and never an earlier one than the print before showed. */
  lemma PrintsShowTexts(clients: set<nat>, ops: seq<Op>, k: nat)
    requires Runs(Initial(clients), ops) && k < |Output([], ops)|
    ensures var s := After(Initial(clients), ops); var texts := Texts(ops);
      && Buffers(s.prints) == Output([], ops)
      && var w := s.prints[k].writesDone;
      && k + 1 <= w <= |texts|
      && s.prints[k].buffer == Whole(texts[w - 1])
      && (forall j :: 0 <= j < k ==> s.prints[j].writesDone <= w)
  {
    Recorded(clients, ops);
    hide Exclusion, SemaphoreInv, BufferInv, CountInv, PrintsInv, QuitInv, After, Runs, Texts, Output;
    ShownAt(After(Initial(clients), ops), k);
  }

  lemma ClosedCount(s: State)
    requires CountInv(s) && QuitInv(s) && s.server.Closed?
    ensures var n := s.received;
      && 0 < n <= |s.sent| && s.sent[n - 1].Quit?
      && (forall k :: 0 <= k < n - 1 ==> s.sent[k].Read?)
      && |s.prints| == n - 1
  {
    var n := s.received - 1;
    assert s.sent[..s.received] == s.sent[..n] + [s.sent[n]];
    ReadsSnoc(s.sent[..n], s.sent[n]);
    AllReads(s.sent[..n]);
  }

  /** When the server has closed, it has printed once for every read notice sent before the first quit. */
  lemma PrintsWhenClosed(clients: set<nat>, ops: seq<Op>)
    requires Runs(Initial(clients), ops) && After(Initial(clients), ops).server.Closed?
    ensures var n, notices := Taken(ops), Notices(ops);
      && 0 < n <= |notices| && notices[n - 1].Quit?
      && (forall k :: 0 <= k < n - 1 ==> notices[k].Read?)
      && |After(Initial(clients), ops).prints| == n - 1
  {
    Recorded(clients, ops);
    hide Exclusion, SemaphoreInv, BufferInv, CountInv, PrintsInv, QuitInv, After, Runs, Notices, Taken;
    ClosedCount(After(Initial(clients), ops));
  }

  lemma {:induction false} AllReads(sent: seq<Notice>)
    requires forall k :: 0 <= k < |sent| ==> sent[k].Read?
    ensures Reads(sent) == |sent|
  {
    if sent != [] {
      AllReads(sent[..|sent| - 1]);
    }
  }

  // ---- A single client ----

  /** A lone client has stopped exactly when a quit is the last thing it sent. */
  predicate LoneInv(s: State, c: nat) {
    && s.clients.Keys == {c}
    && (forall k :: 0 <= k < |s.sent| && s.sent[k].Quit? ==> k == |s.sent| - 1 && s.clients[c].Stopped?)
    && (s.clients[c].Stopped? ==> s.sent != [] && s.sent[|s.sent| - 1].Quit?)
  }

  lemma {:induction false} LoneRun(s: State, ops: seq<Op>, c: nat)
    requires LoneInv(s, c) && Runs(s, ops)
    ensures LoneInv(After(s, ops), c)
    decreases |ops|
  {
    if ops != [] {
      LoneRun(Apply(s, ops[0]), ops[1..], c);
    }
  }

  /** A run that has come to its end: no process has a step left to take. */
  ghost predicate Finished(s: State) {
    forall op: Op :: !Enabled(s, op)
  }

  /** Until the lone client has stopped and the server has closed or read everything, some step is enabled. */
  lemma LoneStep(s: State, c: nat) returns (op: Op)
    requires SemaphoreInv(s) && c in s.clients
    requires !(s.clients[c].Stopped? && (s.server.Closed? || (s.server.Receiving? && s.received >= |s.sent|)))
    ensures Enabled(s, op)
  {
    hide SemaphoreInv;
    if s.sem == 0 {
      op := HolderStep(s);
    } else {
      op := match s.clients[c]
        case Prompt => Command(c)
        case Wanting => ClientP(c)
        case Entered => BeginWrite(c)
        case Writing => EndWrite(c, "")
        case Written => ClientV(c)
        case Released => SendRead(c)
        case Quitting => SendQuit(c)
        case Stopped =>
          match s.server
          case Receiving => Receive
          case Serving => ServerP
          case Holding => Print
          case _ => ServerV;
    }
  }

  lemma QuitTaken(s: State, c: nat)
    requires QuitInv(s) && LoneInv(s, c) && At(s, c, Stopped) && s.received >= |s.sent|
    ensures s.server.Closed?
  {
  }

  /** A run with one client comes to its end only with the client stopped and the server closed. */
  lemma LoneRunCloses(c: nat, ops: seq<Op>)
    requires Runs(Initial({c}), ops) && Finished(After(Initial({c}), ops))
    ensures var s := After(Initial({c}), ops); At(s, c, Stopped) && s.server.Closed?
  {
    var s := After(Initial({c}), ops);
    InitialInv({c});
    RunInv(Initial({c}), ops);
    LoneRun(Initial({c}), ops, c);
    hide Enabled, Runs, After, Exclusion, BufferInv, CountInv, PrintsInv, SemaphoreInv, QuitInv, LoneInv;
    assert c in s.clients;
    if !(s.clients[c].Stopped? && (s.server.Closed? || (s.server.Receiving? && s.received >= |s.sent|))) {
      var op := LoneStep(s, c);
      assert false;
    }
    if !s.server.Closed? {
      QuitTaken(s, c);
    }
  }

  /** When the server has closed on a lone client's quit, everything is read, announced and printed. */
  lemma LoneCount(s: State, c: nat)
    requires CountInv(s) && QuitInv(s) && LoneInv(s, c) && s.server.Closed?
    ensures |s.prints| == |s.writes|
  {
    hide Reads;
    assert s.sent[s.received - 1].Quit?;
    assert s.sent[..s.received] == s.sent;
    assert Those(s.clients, Owes) == {};
  }

  lemma LastPrint(s: State)
    requires PrintsInv(s) && |s.prints| == |s.writes| > 0
    ensures s.prints[|s.writes| - 1].buffer == Whole(s.writes[|s.writes| - 1])
  {
  }

  /** With one client that typed `n` texts: when the server has closed, it has printed exactly `n` times, and
      the last print is the last text. */
  lemma LoneClient(c: nat, ops: seq<Op>)
    requires Runs(Initial({c}), ops) && After(Initial({c}), ops).server.Closed?
    ensures var s := After(Initial({c}), ops); var n := |Texts(ops)|;
      |s.prints| == n && (n > 0 ==> s.prints[n - 1].buffer == Whole(Texts(ops)[n - 1]))
  {
    var s := After(Initial({c}), ops);
    Recorded({c}, ops);
    LoneRun(Initial({c}), ops, c);
    hide Runs, After, Exclusion, BufferInv, CountInv, PrintsInv, SemaphoreInv, QuitInv, LoneInv, Texts;
    LoneCount(s, c);
    if |s.writes| > 0 {
      LastPrint(s);
    }
  }

  /** A run of one client that has come to its end has printed once for every 'r' command, and last the text
      typed last. */
  lemma LoneClientFinished(c: nat, ops: seq<Op>)
    requires Runs(Initial({c}), ops) && Finished(After(Initial({c}), ops))
    ensures var s := After(Initial({c}), ops); var n := Commands(ops);
      && |Texts(ops)| == n
      && |s.prints| == n && (n > 0 ==> s.prints[n - 1].buffer == Whole(Texts(ops)[n - 1]))
  {
    LoneRunCloses(c, ops);
    LoneClient(c, ops);
    Recorded({c}, ops);
    CommandsBecomeTexts({c}, ops);
    hide Inv, Runs, After, Texts, Commands;
    NonePending(After(Initial({c}), ops), c);
  }

  lemma NonePending(s: State, c: nat)
    requires s.clients.Keys == {c} && At(s, c, Stopped)
    ensures Pending(s) == {}
  {
  }
}
