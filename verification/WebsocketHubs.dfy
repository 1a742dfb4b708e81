/** Broadcasting terminal output, status and pane output to browser clients that come and go. Every step below is
    taken while the hub's lock is held, so steps never overlap. */
module WebsocketHubs {
  import opened ByteStreams

  const MAX_TERMINAL_BACKLOG: nat := 64 * 1024
  const MAX_PANE_OUTPUT_BACKLOG: nat := 256 * 1024

  datatype Payload = TerminalOutput(bytes: Bytes) | ParentStatus(status: Bytes) | PaneOutput(message: Bytes)

  /** A message on the wire is its payload behind one byte that says what it is. */
  function Size(p: Payload): nat {
    1 + match p
        case TerminalOutput(bytes) => |bytes|
        case ParentStatus(status) => |status|
        case PaneOutput(message) => |message|
  }

  // ----- what a client makes of the messages it got

  function TerminalBytes(ps: seq<Payload>): Bytes {
    if ps == [] then []
    else
      var last := ps[|ps| - 1];
      TerminalBytes(ps[..|ps| - 1]) + if last.TerminalOutput? then last.bytes else []
  }

  function LastStatus(ps: seq<Payload>): Bytes {
    if ps == [] then []
    else
      var last := ps[|ps| - 1];
      if last.ParentStatus? then last.status else LastStatus(ps[..|ps| - 1])
  }

  function PaneMessages(ps: seq<Payload>): seq<Payload> {
    if ps == [] then []
    else
      var last := ps[|ps| - 1];
      PaneMessages(ps[..|ps| - 1]) + if last.PaneOutput? then [last] else []
  }

  lemma {:induction false} OneMore(ps: seq<Payload>, p: Payload)
    ensures TerminalBytes(ps + [p]) == TerminalBytes(ps) + if p.TerminalOutput? then p.bytes else []
    ensures LastStatus(ps + [p]) == if p.ParentStatus? then p.status else LastStatus(ps)
    ensures PaneMessages(ps + [p]) == PaneMessages(ps) + if p.PaneOutput? then [p] else []
  {
    assert (ps + [p])[..|ps|] == ps;
  }

  lemma {:induction false} NothingReceived()
    ensures TerminalBytes([]) == [] && LastStatus([]) == [] && PaneMessages([]) == []
  {
  }

  function TotalSize(ps: seq<Payload>): nat {
    if ps == [] then 0 else Size(ps[0]) + TotalSize(ps[1..])
  }

  lemma {:induction false} TotalSnoc(ps: seq<Payload>, p: Payload)
    ensures TotalSize(ps + [p]) == TotalSize(ps) + Size(p)
  {
    if ps == [] {
      assert [] + [p] == [p] && [p][1..] == [];
    } else {
      assert (ps + [p])[1..] == ps[1..] + [p];
      TotalSnoc(ps[1..], p);
    }
  }

  /** The longest end of a list of messages that fits into 256 KiB, or else the last message alone. */
  ghost predicate LongestEnd(ms: seq<Payload>, from: nat) {
    && from <= |ms| && (ms != [] ==> from < |ms|)
    && (TotalSize(ms[from..]) <= MAX_PANE_OUTPUT_BACKLOG || from == |ms| - 1)
    && (from > 0 ==> TotalSize(ms[from - 1..]) > MAX_PANE_OUTPUT_BACKLOG)
  }

  ghost predicate OlderLeftOut(ms: seq<Payload>, from: nat) {
    from <= |ms| && (from > 0 ==> TotalSize(ms[from - 1..]) > MAX_PANE_OUTPUT_BACKLOG)
  }

  /** What did not fit before fits even less with a new message behind it. */
  lemma {:induction false} OlderOverflows(ms: seq<Payload>, from: nat, p: Payload)
    requires LongestEnd(ms, from)
    ensures OlderLeftOut(ms + [p], from)
  {
    if from > 0 {
      assert (ms + [p])[from - 1..] == ms[from - 1..] + [p];
      TotalSnoc(ms[from - 1..], p);
    }
  }

  lemma {:induction false} DropOldest(ms: seq<Payload>, from: nat)
    requires from < |ms| && TotalSize(ms[from..]) > MAX_PANE_OUTPUT_BACKLOG
    ensures OlderLeftOut(ms, from + 1) && TotalSize(ms[from..]) == Size(ms[from]) + TotalSize(ms[from + 1..])
    ensures ms[from..][1..] == ms[from + 1..]
  {
    assert ms[from..][1..] == ms[from + 1..];
  }

  lemma {:induction false} KeptEnd(ms: seq<Payload>, from: nat)
    requires from < |ms| && OlderLeftOut(ms, from)
             && (TotalSize(ms[from..]) <= MAX_PANE_OUTPUT_BACKLOG || from == |ms| - 1)
    ensures LongestEnd(ms, from)
  {
  }

  /** The last n elements, or all of them. */
  function LastBytes(s: Bytes, n: nat): Bytes {
    if |s| <= n then s else s[|s| - n..]
  }

  lemma {:induction false} LastBytesAppend(s: Bytes, t: Bytes, n: nat)
    ensures LastBytes(LastBytes(s, n) + t, n) == LastBytes(s + t, n)
  {
  }

  /** What is known of a client at one time. */
  datatype ClientView = ClientView(received: seq<Payload>, broken: bool, joinedAt: nat, paneFrom: nat) {
    /** Where in the terminal output the client's share begins: at most 64 KiB before it joined. */
    function TerminalFrom(): nat {
      if joinedAt <= MAX_TERMINAL_BACKLOG then 0 else joinedAt - MAX_TERMINAL_BACKLOG
    }

    /** The client has got everything since its share begins, once and in order, and the latest status. */
    predicate Synced(stream: Bytes, status: Bytes, messages: seq<Payload>) {
      && joinedAt <= |stream| && TerminalBytes(received) == stream[TerminalFrom()..]
      && LastStatus(received) == status
      && paneFrom <= |messages| && PaneMessages(received) == messages[paneFrom..]
    }
  }

  class Client {
    var received: seq<Payload>
    var broken: bool            // a send has failed; from then on every send fails
    ghost var joinedAt: nat     // how much terminal output there had been when the client joined
    ghost var paneFrom: nat     // the first pane message it was given

    constructor ()
      ensures received == [] && !broken
    {
      received, broken := [], false;
      joinedAt, paneFrom := 0, 0;
    }

    /** Whether a send succeeds is up to the network. */
    method SendBinary(payload: Payload) returns (ok: bool)
      modifies this`received, this`broken
      ensures ok <==> !broken
      ensures old(broken) ==> broken
      ensures received == if ok then old(received) + [payload] else old(received)
    {
      ok := *;
      if broken {
        ok := false;
      }
      if ok {
        received := received + [payload];
      } else {
        broken := true;
      }
    }

    ghost function View(): ClientView
      reads this
    {
      ClientView(received, broken, joinedAt, paneFrom)
    }

    ghost predicate Synced(stream: Bytes, status: Bytes, messages: seq<Payload>)
      reads this
    {
      View().Synced(stream, status, messages)
    }
  }

  class PtyWebsocketHub {
    var clients: seq<Client>
    var terminalBacklog: Bytes
    var latestParentStatus: Bytes
    var paneOutputBacklog: seq<Payload>
    var paneOutputBacklogSize: nat
    ghost var stream: Bytes             // all terminal output so far
    ghost var messages: seq<Payload>    // all pane output so far

    ghost predicate Valid()
      reads this, clients
    {
      && (forall i, j :: 0 <= i < j < |clients| ==> clients[i] != clients[j])
      && terminalBacklog == LastBytes(stream, MAX_TERMINAL_BACKLOG)
      && (forall i :: 0 <= i < |messages| ==> messages[i].PaneOutput?)
      && |paneOutputBacklog| <= |messages| && paneOutputBacklog == messages[|messages| - |paneOutputBacklog|..]
      && paneOutputBacklogSize == TotalSize(paneOutputBacklog)
      && LongestEnd(messages, |messages| - |paneOutputBacklog|)
      && forall c :: c in clients && !c.broken ==> c.Synced(stream, latestParentStatus, messages)
    }

    constructor ()
      ensures Valid() && clients == [] && stream == [] && messages == [] && latestParentStatus == []
    {
      clients, terminalBacklog, latestParentStatus, paneOutputBacklog, paneOutputBacklogSize := [], [], [], [], 0;
      stream, messages := [], [];
    }

    /** A new client first gets what is still kept of the past. */
    method AddClient(client: Client)
      requires Valid() && client !in clients && client.received == [] && !client.broken
      modifies this`clients, client
      ensures Valid() && clients == old(clients) + [client] && stream == old(stream) && messages == old(messages)
      ensures client.joinedAt == |stream| && LongestEnd(messages, client.paneFrom)
    {
      hide LongestEnd, TotalSize, TerminalBytes, LastStatus, PaneMessages;
      clients := clients + [client];
      client.joinedAt := |stream|;
      client.paneFrom := |messages| - |paneOutputBacklog|;
      SendState(client);
      SendPaneBacklog(client);
    }

    /** The terminal backlog and the latest status, to a client that has nothing yet. */
    method SendState(client: Client)
      requires client.received == [] && !client.broken
      modifies client`received, client`broken
      ensures !client.broken ==>
                && TerminalBytes(client.received) == terminalBacklog
                && LastStatus(client.received) == latestParentStatus
                && PaneMessages(client.received) == []
    {
      hide TerminalBytes, LastStatus, PaneMessages;
      NothingReceived();
      OneMore([], TerminalOutput(terminalBacklog));
      assert [] + terminalBacklog == terminalBacklog;
      if terminalBacklog != [] {
        var ok := client.SendBinary(TerminalOutput(terminalBacklog));
        assert !client.broken ==> client.received == [] + [TerminalOutput(terminalBacklog)];
      }
      if latestParentStatus != [] {
        OneMore(client.received, ParentStatus(latestParentStatus));
        var ok := client.SendBinary(ParentStatus(latestParentStatus));
      }
    }

    method SendPaneBacklog(client: Client)
      requires (forall m :: m in paneOutputBacklog ==> m.PaneOutput?)
               && (!client.broken ==> PaneMessages(client.received) == [])
      modifies client`received, client`broken
      ensures old(client.broken) ==> client.broken
      ensures !client.broken ==>
                && TerminalBytes(client.received) == old(TerminalBytes(client.received))
                && LastStatus(client.received) == old(LastStatus(client.received))
                && PaneMessages(client.received) == paneOutputBacklog
    {
      hide TerminalBytes, LastStatus, PaneMessages;
      var i := 0;
      while i < |paneOutputBacklog|
        invariant 0 <= i <= |paneOutputBacklog| && (old(client.broken) ==> client.broken)
        invariant !client.broken ==>
                    && TerminalBytes(client.received) == old(TerminalBytes(client.received))
                    && LastStatus(client.received) == old(LastStatus(client.received))
                    && PaneMessages(client.received) == paneOutputBacklog[..i]
      {
        var message := paneOutputBacklog[i];
        assert message in paneOutputBacklog;
        OneMore(client.received, message);
        assert paneOutputBacklog[..i + 1] == paneOutputBacklog[..i] + [message];
        var ok := client.SendBinary(message);
        i := i + 1;
      }
      assert paneOutputBacklog[..i] == paneOutputBacklog;
    }

    method RemoveClient(client: Client)
      requires Valid()
      modifies this`clients
      ensures Valid() && stream == old(stream) && messages == old(messages)
      ensures forall c :: c in clients <==> c in old(clients) && c != client
    {
      var kept: seq<Client> := [];
      for i := 0 to |clients|
        invariant forall c :: c in kept <==> c in clients[..i] && c != client
        invariant forall j, k :: 0 <= j < k < |kept| ==> kept[j] != kept[k]
      {
        assert clients[..i + 1] == clients[..i] + [clients[i]];
        if clients[i] != client {
          assert clients[i] !in clients[..i];
          kept := kept + [clients[i]];
        }
      }
      assert clients[..|clients|] == clients;
      clients := kept;
    }

    /** Send to everyone; whoever cannot be reached is dropped. */
    method SendToClients(payload: Payload)
      requires forall i, j :: 0 <= i < j < |clients| ==> clients[i] != clients[j]
      modifies this`clients, (set c | c in clients)`received, (set c | c in clients)`broken
      ensures forall i, j :: 0 <= i < j < |clients| ==> clients[i] != clients[j]
      ensures forall c :: c in clients <==> c in old(clients) && !c.broken
      ensures forall c :: c in clients ==> !old(c.broken) && c.received == old(c.received) + [payload]
    {
      var kept: seq<Client> := [];
      for i := 0 to |clients|
        invariant clients == old(clients)
        invariant forall c :: c in kept <==> c in clients[..i] && !c.broken
        invariant forall j, k :: 0 <= j < k < |kept| ==> kept[j] != kept[k]
        invariant forall c :: c in kept ==> !old(c.broken) && c.received == old(c.received) + [payload]
        invariant forall j ::
                    i <= j < |clients| ==>
                      clients[j].broken == old(clients[j].broken) && clients[j].received == old(clients[j].received)
      {
        var client := clients[i];
        assert clients[..i + 1] == clients[..i] + [client];
        assert client !in clients[..i];
        var ok := client.SendBinary(payload);
        if ok {
          kept := kept + [client];
        }
      }
      assert clients[..|clients|] == clients;
      clients := kept;
    }

    method BroadcastTerminalOutput(output: Bytes)
      requires Valid()
      modifies this, (set c | c in clients)`received, (set c | c in clients)`broken
      ensures Valid() && stream == old(stream) + output && messages == old(messages)
              && latestParentStatus == old(latestParentStatus)
      ensures forall c :: c in clients <==> c in old(clients) && !c.broken
    {
      hide LongestEnd, TotalSize, TerminalBytes, LastStatus, PaneMessages;
      KeepTerminalOutput(output);
      SendToClients(TerminalOutput(output));
      forall c | c in clients ensures c.Synced(stream, latestParentStatus, messages) {
        OneMore(old(c.received), TerminalOutput(output));
        StreamGrows(old(stream), output, c.View().TerminalFrom());
      }
    }

    method KeepTerminalOutput(output: Bytes)
      requires terminalBacklog == LastBytes(stream, MAX_TERMINAL_BACKLOG)
      modifies this`terminalBacklog, this`stream
      ensures terminalBacklog == LastBytes(stream, MAX_TERMINAL_BACKLOG) && stream == old(stream) + output
    {
      LastBytesAppend(stream, output, MAX_TERMINAL_BACKLOG);
      terminalBacklog := terminalBacklog + output;
      if |terminalBacklog| > MAX_TERMINAL_BACKLOG {
        terminalBacklog := terminalBacklog[|terminalBacklog| - MAX_TERMINAL_BACKLOG..];
      }
      stream := stream + output;
    }

    /** Status lines are never empty. */
    method BroadcastParentStatus(status: Bytes)
      requires Valid()
      modifies this, (set c | c in clients)`received, (set c | c in clients)`broken
      ensures Valid() && latestParentStatus == status && stream == old(stream) && messages == old(messages)
      ensures forall c :: c in clients <==> c in old(clients) && !c.broken
    {
      hide LongestEnd, TotalSize, LastBytes, TerminalBytes, LastStatus, PaneMessages;
      latestParentStatus := status;
      SendToClients(ParentStatus(status));
      forall c | c in clients ensures c.Synced(stream, latestParentStatus, messages) {
        OneMore(old(c.received), ParentStatus(status));
      }
    }

    method BroadcastPaneOutput(output: Bytes)
      requires Valid()
      modifies this, (set c | c in clients)`received, (set c | c in clients)`broken
      ensures Valid() && messages == old(messages) + [PaneOutput(output)] && stream == old(stream)
              && latestParentStatus == old(latestParentStatus)
      ensures forall c :: c in clients <==> c in old(clients) && !c.broken
    {
      hide LongestEnd, TotalSize, LastBytes, TerminalBytes, LastStatus, PaneMessages;
      KeepPaneOutput(PaneOutput(output));
      SendToClients(PaneOutput(output));
      forall c | c in clients ensures c.Synced(stream, latestParentStatus, messages) {
        OneMore(old(c.received), PaneOutput(output));
      }
    }

    /** Keep the message and forget the oldest ones beyond 256 KiB, but never the newest. */
    method KeepPaneOutput(payload: Payload)
      requires |paneOutputBacklog| <= |messages| && paneOutputBacklog == messages[|messages| - |paneOutputBacklog|..]
      requires paneOutputBacklogSize == TotalSize(paneOutputBacklog)
               && LongestEnd(messages, |messages| - |paneOutputBacklog|)
      modifies this`paneOutputBacklog, this`paneOutputBacklogSize, this`messages
      ensures messages == old(messages) + [payload]
      ensures 1 <= |paneOutputBacklog| <= |messages|
              && paneOutputBacklog == messages[|messages| - |paneOutputBacklog|..]
      ensures paneOutputBacklogSize == TotalSize(paneOutputBacklog)
              && LongestEnd(messages, |messages| - |paneOutputBacklog|)
    {
      hide TotalSize, LongestEnd, Size, OlderLeftOut;
      TotalSnoc(paneOutputBacklog, payload);
      OlderOverflows(messages, |messages| - |paneOutputBacklog|, payload);
      paneOutputBacklogSize := paneOutputBacklogSize + Size(payload);
      paneOutputBacklog := paneOutputBacklog + [payload];
      messages := messages + [payload];
      ForgetOldest();
    }

    method ForgetOldest()
      requires 1 <= |paneOutputBacklog| <= |messages|
               && paneOutputBacklog == messages[|messages| - |paneOutputBacklog|..]
      requires paneOutputBacklogSize == TotalSize(paneOutputBacklog)
               && OlderLeftOut(messages, |messages| - |paneOutputBacklog|)
      modifies this`paneOutputBacklog, this`paneOutputBacklogSize
      ensures 1 <= |paneOutputBacklog| <= |messages|
              && paneOutputBacklog == messages[|messages| - |paneOutputBacklog|..]
      ensures paneOutputBacklogSize == TotalSize(paneOutputBacklog)
              && LongestEnd(messages, |messages| - |paneOutputBacklog|)
    {
      hide TotalSize, LongestEnd, Size, OlderLeftOut;
      ghost var from := |messages| - |paneOutputBacklog|;
      while paneOutputBacklogSize > MAX_PANE_OUTPUT_BACKLOG && |paneOutputBacklog| > 1
        invariant 0 <= from < |messages| && paneOutputBacklog == messages[from..]
        invariant paneOutputBacklogSize == TotalSize(paneOutputBacklog) && OlderLeftOut(messages, from)
        decreases |paneOutputBacklog|
      {
        DropOldest(messages, from);
        paneOutputBacklogSize := paneOutputBacklogSize - Size(paneOutputBacklog[0]);
        paneOutputBacklog := paneOutputBacklog[1..];
        from := from + 1;
      }
      KeptEnd(messages, from);
    }
  }

  /** Joining clients are known by the step at which they joined. */
  datatype Step =
    | Join
    | Leave(who: nat)
    | TerminalStep(output: Bytes)
    | StatusStep(status: Bytes)
    | PaneStep(output: Bytes)

  function AllOutput(steps: seq<Step>): Bytes {
    if steps == [] then []
    else
      var last := steps[|steps| - 1];
      AllOutput(steps[..|steps| - 1]) + if last.TerminalStep? then last.output else []
  }

  function AllMessages(steps: seq<Step>): seq<Payload> {
    if steps == [] then []
    else
      var last := steps[|steps| - 1];
      AllMessages(steps[..|steps| - 1]) + if last.PaneStep? then [PaneOutput(last.output)] else []
  }

  function LatestStatus(steps: seq<Step>): Bytes {
    if steps == [] then []
    else
      var last := steps[|steps| - 1];
      if last.StatusStep? then last.status else LatestStatus(steps[..|steps| - 1])
  }

  /** The first step behind i at which the client that joined at step i leaves, or the end of the steps. */
  function LeaveOf(steps: seq<Step>, i: nat): (n: nat)
    ensures n <= |steps|
    ensures n < |steps| ==> i < n && steps[n] == Leave(i)
    ensures forall j :: i < j < n ==> steps[j] != Leave(i)
  {
    if steps == [] then 0
    else
      var last := |steps| - 1;
      var n := LeaveOf(steps[..last], i);
      if n < last || (i < last && steps[last] == Leave(i)) then n else |steps|
  }

  /** The client joined at step i and was given the terminal output and the pane messages kept at that time. */
  ghost predicate JoinedAtStep(c: ClientView, steps: seq<Step>, i: nat) {
    && i < |steps| && steps[i].Join?
    && c.joinedAt == |AllOutput(steps[..i])| && LongestEnd(AllMessages(steps[..i]), c.paneFrom)
  }

  /** What has become of the client that joined at step i: it is connected exactly until it leaves, unless a send to it
      has failed; and unless one has, it holds everything up to then. */
  ghost predicate Served(c: ClientView, connected: bool, steps: seq<Step>, i: nat) {
    && JoinedAtStep(c, steps, i)
    && var end := LeaveOf(steps, i);
    && (connected ==> end == |steps|)
    && (end == |steps| && !c.broken ==> connected)
    && (!c.broken ==> c.Synced(AllOutput(steps[..end]), LatestStatus(steps[..end]), AllMessages(steps[..end])))
  }

  ghost predicate HasJoined(joined: map<nat, Client>, c: Client) {
    exists i :: i in joined && joined[i] == c
  }

  ghost predicate UpTo(hub: PtyWebsocketHub, steps: seq<Step>)
    reads hub
  {
    hub.stream == AllOutput(steps) && hub.messages == AllMessages(steps)
    && hub.latestParentStatus == LatestStatus(steps)
  }

  /** In every interleaving of joins, leaves and broadcasts, each Join step has a client of its own, and nobody else is
      connected. Until it leaves, and longer not, a client to which no send has failed is connected. It then holds, as
      terminal bytes, the whole output from 64 KiB before it joined on (or from the start), all pane messages from the
      longest end that fitted into 256 KiB when it joined on, and the latest status, as of now or of when it left. */
  method Run(steps: seq<Step>) returns (hub: PtyWebsocketHub, joined: map<nat, Client>)
    ensures fresh(hub) && hub.Valid() && hub.stream == AllOutput(steps) && hub.messages == AllMessages(steps)
    ensures forall i :: i in joined <==> 0 <= i < |steps| && steps[i].Join?
    ensures forall i, j :: i in joined && j in joined && i != j ==> joined[i] != joined[j]
    ensures forall c :: c in hub.clients ==> HasJoined(joined, c)
    ensures forall i :: i in joined ==> Served(joined[i].View(), joined[i] in hub.clients, steps, i)
  {
    hide Served;
    hub := new PtyWebsocketHub();
    joined := map[];
    for k := 0 to |steps|
      invariant fresh(hub) && (forall i :: i in joined ==> fresh(joined[i])) && hub.Valid()
      invariant forall c :: c in hub.clients ==> HasJoined(joined, c)
      invariant UpTo(hub, steps[..k])
      invariant forall i :: i in joined <==> 0 <= i < k && steps[i].Join?
      invariant forall i, j :: i in joined && j in joined && i != j ==> joined[i] != joined[j]
      invariant forall i :: i in joined ==> Served(joined[i].View(), joined[i] in hub.clients, steps[..k], i)
    {
      joined := Next(hub, steps, k, joined);
    }
    assert steps[..|steps|] == steps;
  }

  /** One step, and who has joined by then. */
  method Next(hub: PtyWebsocketHub, steps: seq<Step>, k: nat, joined: map<nat, Client>) returns (r: map<nat, Client>)
    requires k < |steps| && hub.Valid() && UpTo(hub, steps[..k])
    requires forall c :: c in hub.clients ==> HasJoined(joined, c)
    requires forall i :: i in joined <==> 0 <= i < k && steps[i].Join?
    requires forall i, j :: i in joined && j in joined && i != j ==> joined[i] != joined[j]
    requires forall i :: i in joined ==> Served(joined[i].View(), joined[i] in hub.clients, steps[..k], i)
    modifies hub, (set c | c in hub.clients)`received, (set c | c in hub.clients)`broken
    ensures hub.Valid() && UpTo(hub, steps[..k + 1])
    ensures forall c :: c in hub.clients ==> HasJoined(r, c)
    ensures forall i :: i in r <==> 0 <= i < k + 1 && steps[i].Join?
    ensures forall i :: i in r ==> if i == k then fresh(r[i]) else r[i] == joined[i]
    ensures forall i, j :: i in r && j in r && i != j ==> r[i] != r[j]
    ensures forall i :: i in r ==> Served(r[i].View(), r[i] in hub.clients, steps[..k + 1], i)
  {
    hide Served, LongestEnd, LastBytes, TotalSize, HasJoined, Broadcasts, Leaves;
    hide AllOutput, AllMessages, LatestStatus, TerminalBytes, LastStatus, PaneMessages;
    var client := Take(hub, steps[k], joined);
    UpToNext(steps, k);
    forall i | i in joined ensures Served(joined[i].View(), joined[i] in hub.clients, steps[..k + 1], i) {
      LeavesOnly(steps, k, joined, i);
      ServedNext(old(joined[i].View()), old(joined[i] in hub.clients), joined[i].View(), joined[i] in hub.clients,
                 steps, k, i);
    }
    r := joined;
    if client != null {
      ServedFirst(client.View(), steps, k);
      r := joined[k := client];
    }
    forall c | c in hub.clients ensures HasJoined(r, c) {
      if c != client {
        JoinedStays(joined, r, k, c);
      } else {
        JoinedNow(r, k);
      }
    }
  }

  lemma {:induction false} JoinedStays(joined: map<nat, Client>, r: map<nat, Client>, k: nat, c: Client)
    requires HasJoined(joined, c) && k !in joined && forall i :: i in joined ==> i in r && r[i] == joined[i]
    ensures HasJoined(r, c)
  {
    var i :| i in joined && joined[i] == c;
    assert i in r && r[i] == c;
  }

  lemma {:induction false} JoinedNow(r: map<nat, Client>, k: nat)
    requires k in r
    ensures HasJoined(r, r[k])
  {
  }

  /** Whether a step sends something to everyone. */
  predicate Broadcasts(step: Step) {
    step.TerminalStep? || step.StatusStep? || step.PaneStep?
  }

  /** The client that leaves at step k is the one that joined at step i only if the step says so. */
  lemma {:induction false} LeavesOnly(steps: seq<Step>, k: nat, joined: map<nat, Client>, i: nat)
    requires k < |steps| && i in joined
             && forall i, j :: i in joined && j in joined && i != j ==> joined[i] != joined[j]
    ensures Leaves(steps[k], joined, joined[i]) <==> steps[k] == Leave(i)
  {
  }

  predicate Leaves(step: Step, joined: map<nat, Client>, c: Client) {
    step.Leave? && step.who in joined && joined[step.who] == c
  }

  lemma {:induction false} UpToNext(steps: seq<Step>, k: nat)
    requires k < |steps|
    ensures var a, b := steps[..k], steps[..k + 1];
            && AllOutput(b) == (if steps[k].TerminalStep? then AllOutput(a) + steps[k].output else AllOutput(a))
            && AllMessages(b)
                 == (if steps[k].PaneStep? then AllMessages(a) + [PaneOutput(steps[k].output)] else AllMessages(a))
            && LatestStatus(b) == (if steps[k].StatusStep? then steps[k].status else LatestStatus(a))
  {
    var a, b := steps[..k], steps[..k + 1];
    assert b[..k] == a && b[k] == steps[k];
    assert AllOutput(a) + [] == AllOutput(a);
    assert AllMessages(a) + [] == AllMessages(a);
  }

  lemma {:induction false} LeaveNext(steps: seq<Step>, k: nat, i: nat)
    requires k < |steps|
    ensures var n := LeaveOf(steps[..k], i);
            LeaveOf(steps[..k + 1], i) == if n < k || (i < k && steps[k] == Leave(i)) then n else k + 1
  {
    assert steps[..k + 1][..k] == steps[..k] && steps[..k + 1][k] == steps[k];
  }

  /** What one step makes of a client that joined before. */
  lemma {:induction false} ServedNext(was: ClientView, wasIn: bool, now: ClientView, isIn: bool, steps: seq<Step>,
                                      k: nat, i: nat)
    requires i < k < |steps| && Served(was, wasIn, steps[..k], i)
    requires now.joinedAt == was.joinedAt && now.paneFrom == was.paneFrom
    requires isIn <==> wasIn && steps[k] != Leave(i) && (Broadcasts(steps[k]) ==> !now.broken)
    requires !wasIn || !Broadcasts(steps[k]) ==> now == was
    requires isIn && !now.broken ==>
               now.Synced(AllOutput(steps[..k + 1]), LatestStatus(steps[..k + 1]), AllMessages(steps[..k + 1]))
    ensures Served(now, isIn, steps[..k + 1], i)
  {
    hide AllOutput, AllMessages, LatestStatus, LongestEnd, TerminalBytes, PaneMessages, LastStatus, LeaveOf, LastBytes;
    hide TotalSize;
    LeaveNext(steps, k, i);
    var n := LeaveOf(steps[..k], i);
    assert steps[..k + 1][..n] == steps[..k][..n];
    assert steps[..k + 1][..k + 1] == steps[..k + 1];
    assert steps[..k + 1][..i] == steps[..k][..i] && steps[..k + 1][i] == steps[..k][i];
  }

  /** A client that has just joined. */
  lemma {:induction false} ServedFirst(c: ClientView, steps: seq<Step>, k: nat)
    requires k < |steps| && steps[k].Join? && c.joinedAt == |AllOutput(steps[..k])|
             && LongestEnd(AllMessages(steps[..k]), c.paneFrom)
    requires !c.broken ==>
               c.Synced(AllOutput(steps[..k + 1]), LatestStatus(steps[..k + 1]), AllMessages(steps[..k + 1]))
    ensures Served(c, true, steps[..k + 1], k)
  {
    hide AllOutput, AllMessages, LatestStatus, LongestEnd, TerminalBytes, PaneMessages, LastStatus, LeaveOf, LastBytes;
    hide TotalSize;
    var b := steps[..k + 1];
    assert b[..k] == steps[..k] && b[k] == steps[k] && b[..k + 1] == b;
    assert LeaveOf(b, k) == k + 1 by {
      if LeaveOf(b, k) < k + 1 {
        assert false;
      }
    }
  }

  /** One step. Whoever joins is connected from then on, whoever leaves is not any more, and a broadcast drops exactly
      those it could not be sent to. */
  method Take(hub: PtyWebsocketHub, step: Step, joined: map<nat, Client>) returns (client: Client?)
    requires hub.Valid()
    modifies hub, (set c | c in hub.clients)`received, (set c | c in hub.clients)`broken
    ensures hub.Valid()
    ensures hub.stream == if step.TerminalStep? then old(hub.stream) + step.output else old(hub.stream)
    ensures hub.messages == if step.PaneStep? then old(hub.messages) + [PaneOutput(step.output)] else old(hub.messages)
    ensures hub.latestParentStatus == if step.StatusStep? then step.status else old(hub.latestParentStatus)
    ensures forall c :: c in hub.clients <==>
              c == client || (c in old(hub.clients) && !Leaves(step, joined, c) && (Broadcasts(step) ==> !c.broken))
    ensures !Broadcasts(step) ==>
              forall c :: c in old(hub.clients) ==> c.received == old(c.received) && c.broken == old(c.broken)
    ensures client != null <==> step.Join?
    ensures client != null ==>
              fresh(client) && client.joinedAt == |hub.stream| && LongestEnd(hub.messages, client.paneFrom)
  {
    hide TerminalBytes, LastStatus, PaneMessages, LongestEnd, TotalSize, LastBytes;
    client := null;
    match step {
      case Join =>
        var c := new Client();
        hub.AddClient(c);
        client := c;
      case Leave(who) =>
        if who in joined {
          hub.RemoveClient(joined[who]);
        }
      case TerminalStep(output) => hub.BroadcastTerminalOutput(output);
      case StatusStep(status) => hub.BroadcastParentStatus(status);
      case PaneStep(output) => hub.BroadcastPaneOutput(output);
    }
  }

  lemma {:induction false} StreamGrows(s: Bytes, t: Bytes, i: nat)
    requires i <= |s|
    ensures (s + t)[i..] == s[i..] + t
  {
  }
}
