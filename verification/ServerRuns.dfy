/**
  The server as a state machine over received chunks: per-client buffers in front of one shared
  database, and its laws over every interleaving of clients.
*/
module ServerRuns {
  import opened ByteStrings
  import opened RespValues
  import opened Parser
  import opened Serializer
  import opened Streams
  import opened Store
  import opened Commands
  import opened Runs

  /** A client was accepted on a descriptor, or `recv` returned a chunk on it. */
  datatype Event = Connected(fd: int) | Received(fd: int, chunk: Bytes)

  /** A dispatched value and the bytes sent back for it. */
  datatype Entry = Entry(fd: int, command: RespValue, sent: Bytes)

  /**
    `log` is a history, not state of the program. A malformed stream closes its connection and ends
    the run: the next look-up of that connection fails.
  */
  datatype Server = Server(buffs: map<int, Bytes>, db: DB, log: seq<Entry>, alive: bool)

  /** A new descriptor gets an empty buffer; one already registered is refused. */
  function Join(s: Server, fd: int): Server {
    if fd in s.buffs then s else s.(buffs := s.buffs[fd := []])
  }

  ghost function Take(env: Env, s: Server, fd: int, chunk: Bytes): Server
    requires s.alive && fd in s.buffs
  {
    var buff := s.buffs[fd] + chunk;
    match Parse(buff)
    case Complete(v, u) =>
      var (db, reply) := Dispatch(env, s.db, v);
      Server(s.buffs[fd := buff[u..]], db, s.log + [Entry(fd, v, Serialize(reply))], true)
    case Incomplete => s.(buffs := s.buffs[fd := buff])
    case Error => s.(buffs := s.buffs - {fd}, alive := false)
  }

  ghost function Step(env: Env, s: Server, e: Event): Server {
    if !s.alive then s
    else if e.Connected? then Join(s, e.fd)
    else if e.fd in s.buffs then Take(env, s, e.fd, e.chunk)
    else s
  }

  ghost function RunServer(env: Env, s: Server, events: seq<Event>): Server {
    if |events| == 0 then s
    else Step(env, RunServer(env, s, events[..|events| - 1]), events[|events| - 1])
  }

  /** Nothing has been received yet, on whatever connections there are. */
  predicate Idle(s: Server) {
    s.alive && s.log == [] && forall fd :: fd in s.buffs ==> s.buffs[fd] == []
  }

  /** The descriptors connected at the start or since. */
  function Opened(s: Server, events: seq<Event>): set<int> {
    if |events| == 0 then s.buffs.Keys
    else
      var e := events[|events| - 1];
      Opened(s, events[..|events| - 1]) + if e.Connected? then {e.fd} else {}
  }

  /** Chunks come from connected clients only. */
  predicate Proper(s: Server, events: seq<Event>) {
    forall i :: 0 <= i < |events| && events[i].Received? ==> events[i].fd in Opened(s, events[..i])
  }

  /** And nothing comes after the event that ended the run. */
  ghost predicate UpToError(env: Env, s: Server, events: seq<Event>) {
    Proper(s, events) && (|events| > 0 ==> RunServer(env, s, events[..|events| - 1]).alive)
  }

  /** The chunks one client sent. */
  function ChunksOf(events: seq<Event>, fd: int): seq<Bytes> {
    if |events| == 0 then []
    else
      var e := events[|events| - 1];
      ChunksOf(events[..|events| - 1], fd) + if e.Received? && e.fd == fd then [e.chunk] else []
  }

  /** The commands dispatched for one client. */
  function CommandsOf(log: seq<Entry>, fd: int): seq<RespValue> {
    if |log| == 0 then []
    else
      var e := log[|log| - 1];
      CommandsOf(log[..|log| - 1], fd) + if e.fd == fd then [e.command] else []
  }

  function CommandSeq(log: seq<Entry>): seq<RespValue> {
    seq(|log|, i requires 0 <= i < |log| => log[i].command)
  }

  /** Every reply sent is the one a serial execution of the log gives at that point. */
  ghost predicate Replays(env: Env, db: DB, log: seq<Entry>) {
    forall i :: 0 <= i < |log| ==>
      log[i].sent == Serialize(Dispatch(env, DispatchAll(env, db, CommandSeq(log[..i])), log[i].command).1)
  }

  // ---- The shared database ----

  lemma LogSnoc(env: Env, db: DB, log: seq<Entry>, e: Entry)
    ensures DispatchAll(env, db, CommandSeq(log + [e]))
         == Dispatch(env, DispatchAll(env, db, CommandSeq(log)), e.command).0
    ensures CommandsOf(log + [e], e.fd) == CommandsOf(log, e.fd) + [e.command]
    ensures forall fd :: fd != e.fd ==> CommandsOf(log + [e], fd) == CommandsOf(log, fd)
  {
    hide Dispatch;
    var all := CommandSeq(log + [e]);
    assert all[..|all| - 1] == CommandSeq(log);
    assert (log + [e])[..|log|] == log;
  }

  lemma ReplaysSnoc(env: Env, db: DB, log: seq<Entry>, e: Entry)
    requires Replays(env, db, log)
    requires e.sent == Serialize(Dispatch(env, DispatchAll(env, db, CommandSeq(log)), e.command).1)
    ensures Replays(env, db, log + [e])
  {
    hide Dispatch, Serialize, CommandSeq, DispatchAll;
    var log' := log + [e];
    forall i | 0 <= i < |log'|
      ensures log'[i].sent == Serialize(Dispatch(env, DispatchAll(env, db, CommandSeq(log'[..i])), log'[i].command).1)
    {
      assert log'[..i] == log[..i];
      assert log[..|log|] == log;
    }
  }

  /** An event leaves log and database alone, or logs one command, executes it and sends the reply. */
  lemma StepLogs(env: Env, t: Server, e: Event)
    ensures var t' := Step(env, t, e);
      || (t'.log == t.log && t'.db == t.db)
      || (|t'.log| == |t.log| + 1
          && var entry := t'.log[|t.log|];
             && t'.log == t.log + [entry]
             && t'.db == Dispatch(env, t.db, entry.command).0
             && entry.sent == Serialize(Dispatch(env, t.db, entry.command).1))
  {
    hide Dispatch, Parse, Serialize;
  }

  /**
    For every interleaving of clients the database and every reply are those of executing the
    dispatched commands one after the other, in dispatch order.
  */
  lemma {:induction false} SerialExecution(env: Env, s: Server, events: seq<Event>)
    requires Idle(s)
    ensures var t := RunServer(env, s, events);
      t.db == DispatchAll(env, s.db, CommandSeq(t.log)) && Replays(env, s.db, t.log)
  {
    hide Dispatch, Parse, Serialize, Step;
    if |events| == 0 {
      assert CommandSeq([]) == [];
    } else {
      hide Replays, CommandSeq, DispatchAll;
      var front, e := events[..|events| - 1], events[|events| - 1];
      SerialExecution(env, s, front);
      var t, t' := RunServer(env, s, front), RunServer(env, s, events);
      StepLogs(env, t, e);
      if t'.log != t.log {
        LogSnoc(env, s.db, t.log, t'.log[|t.log|]);
        ReplaysSnoc(env, s.db, t.log, t'.log[|t.log|]);
      }
    }
  }

  /** Started on an empty database, the server never stores an empty collection or a stale index. */
  lemma ServerSound(env: Env, s: Server, events: seq<Event>)
    requires Idle(s) && s.db == map[]
    ensures SoundDB(RunServer(env, s, events).db)
  {
    hide RunServer, DispatchAll;
    SerialExecution(env, s, events);
    ReachableSound(env, CommandSeq(RunServer(env, s, events).log));
  }

  // ---- Isolation ----

  /** Seen from one client, connected or not, the server is that client's stream alone. */
  ghost predicate SeenFrom(t: Server, fd: int, open: bool, c: Client) {
    && CommandsOf(t.log, fd) == c.dispatched
    && (c.failed ==> !t.alive)
    && (if open then c.failed || (fd in t.buffs && t.buffs[fd] == c.buff) else c == FRESH)
  }

  /** One event, seen from the client it came from and from any other. */
  lemma StepSeen(env: Env, t: Server, e: Event, fd: int, open: bool, c: Client)
    requires t.alive && (fd in t.buffs <==> open) && (e.Received? ==> e.fd in t.buffs)
    requires SeenFrom(t, fd, open, c)
    ensures SeenFrom(Step(env, t, e), fd, open || e == Connected(fd),
                     if e.Received? && e.fd == fd then Receive(c, e.chunk) else c)
  {
    hide Dispatch, Parse, Serialize, CommandsOf;
    if e.Received? && Parse(t.buffs[e.fd] + e.chunk).Complete? {
      var entry := Step(env, t, e).log[|t.log|];
      assert Step(env, t, e).log == t.log + [entry];
      LogSnoc(env, t.db, t.log, entry);
    }
  }

  lemma ReceiveAllSnoc(chunks: seq<Bytes>, chunk: Bytes)
    ensures ReceiveAll(chunks + [chunk]) == Receive(ReceiveAll(chunks), chunk)
    ensures !ReceiveAll(chunks).failed ==> Live(chunks + [chunk])
  {
    hide Receive;
    assert (chunks + [chunk])[..|chunks|] == chunks;
  }

  /** The last event of a run and what came before it. */
  lemma LastEvent(env: Env, s: Server, events: seq<Event>, fd: int)
    requires |events| > 0
    ensures var front, e := events[..|events| - 1], events[|events| - 1];
      && RunServer(env, s, events) == Step(env, RunServer(env, s, front), e)
      && Opened(s, events) == Opened(s, front) + (if e.Connected? then {e.fd} else {})
      && ChunksOf(events, fd)
         == (if e.Received? && e.fd == fd then ChunksOf(front, fd) + [e.chunk] else ChunksOf(front, fd))
  {
    hide Step;
    var front := events[..|events| - 1];
    assert ChunksOf(front, fd) + [] == ChunksOf(front, fd);
  }

  lemma ProperFront(s: Server, events: seq<Event>)
    requires Proper(s, events) && |events| > 0
    ensures var front, e := events[..|events| - 1], events[|events| - 1];
      Proper(s, front) && (e.Received? ==> e.fd in Opened(s, front))
  {
    hide Opened;
    var front := events[..|events| - 1];
    assert forall i :: 0 <= i < |front| ==> front[..i] == events[..i] && front[i] == events[i];
  }

  /** While the run lives, the connections are those opened, and it lived all along. */
  lemma {:induction false} StillOpen(env: Env, s: Server, events: seq<Event>)
    requires Idle(s) && RunServer(env, s, events).alive
    ensures RunServer(env, s, events).buffs.Keys == Opened(s, events)
    ensures |events| > 0 ==> RunServer(env, s, events[..|events| - 1]).alive
  {
    hide Dispatch, Parse, Serialize;
    if |events| > 0 {
      StillOpen(env, s, events[..|events| - 1]);
    }
  }

  lemma FrontUpToError(env: Env, s: Server, events: seq<Event>)
    requires Idle(s) && UpToError(env, s, events) && |events| > 0
    ensures UpToError(env, s, events[..|events| - 1])
  {
    hide RunServer, Proper;
    ProperFront(s, events);
    StillOpen(env, s, events[..|events| - 1]);
  }

  /**
    What a client has had dispatched, and what waits in its buffer, is a function of its own chunks:
    no interleaving with other clients, whenever they or it connected, changes it, up to and including
    the error that ends the run.
  */
  lemma {:induction false} Isolation(env: Env, s: Server, events: seq<Event>, fd: int)
    requires Idle(s) && UpToError(env, s, events)
    ensures Live(ChunksOf(events, fd))
    ensures SeenFrom(RunServer(env, s, events), fd, fd in Opened(s, events), ReceiveAll(ChunksOf(events, fd)))
  {
    hide Step, Receive, Idle, SeenFrom, RunServer, Opened, ChunksOf, ReceiveAll, Live, Proper;
    if |events| == 0 {
      NothingSeen(env, s, fd);
    } else {
      var front, e := events[..|events| - 1], events[|events| - 1];
      LastEvent(env, s, events, fd);
      FrontUpToError(env, s, events);
      ProperFront(s, events);
      StillOpen(env, s, front);
      Isolation(env, s, front, fd);
      var c := ReceiveAll(ChunksOf(front, fd));
      StepSeen(env, RunServer(env, s, front), e, fd, fd in Opened(s, front), c);
      ReceiveAllSnoc(ChunksOf(front, fd), if e.Received? then e.chunk else []);
      SeenAlive(RunServer(env, s, front), fd, fd in Opened(s, front), c);
    }
  }

  lemma SeenAlive(t: Server, fd: int, open: bool, c: Client)
    requires SeenFrom(t, fd, open, c) && t.alive
    ensures !c.failed && (open ==> fd in t.buffs && t.buffs[fd] == c.buff)
  {
  }

  lemma SeenCommands(t: Server, fd: int, open: bool, c: Client)
    requires SeenFrom(t, fd, open, c)
    ensures CommandsOf(t.log, fd) == c.dispatched
  {
  }

  lemma NothingSeen(env: Env, s: Server, fd: int)
    requires Idle(s)
    ensures Opened(s, []) == s.buffs.Keys && ChunksOf([], fd) == [] && Live([]) && ReceiveAll([]) == FRESH
    ensures RunServer(env, s, []) == s && s.alive
    ensures SeenFrom(s, fd, fd in s.buffs, FRESH)
  {
  }

  // ---- When the run ends ----

  /** A chunk ends the run exactly when it makes its client fail. */
  lemma FailsTogether(env: Env, t: Server, fd: int, chunk: Bytes, c: Client)
    requires t.alive && fd in t.buffs && SeenFrom(t, fd, true, c)
    ensures Step(env, t, Received(fd, chunk)).alive <==> !Receive(c, chunk).failed
  {
    hide Dispatch, Parse, Serialize, CommandsOf;
  }

  /** No connected client's stream has failed. */
  ghost predicate NoneFailed(s: Server, events: seq<Event>) {
    forall fd :: fd in Opened(s, events) ==> !ReceiveAll(ChunksOf(events, fd)).failed
  }

  /** An event on a live server: it goes on living exactly when the client concerned has not failed. */
  lemma LivesOn(env: Env, s: Server, events: seq<Event>)
    requires Idle(s) && |events| > 0 && UpToError(env, s, events)
    ensures RunServer(env, s, events).alive <==> !ReceiveAll(ChunksOf(events, events[|events| - 1].fd)).failed
  {
    hide RunServer, Opened, ChunksOf, ReceiveAll, Receive, Proper, SeenFrom, Idle;
    var front, e := events[..|events| - 1], events[|events| - 1];
    LastEvent(env, s, events, e.fd);
    FrontUpToError(env, s, events);
    ProperFront(s, events);
    StillOpen(env, s, front);
    Isolation(env, s, front, e.fd);
    var t, c := RunServer(env, s, front), ReceiveAll(ChunksOf(front, e.fd));
    SeenAlive(t, e.fd, e.fd in Opened(s, front), c);
    if e.Received? {
      ReceiveAllSnoc(ChunksOf(front, e.fd), e.chunk);
      FailsTogether(env, t, e.fd, e.chunk, c);
    }
  }

  /**
    A protocol error of any client ends the run for all of them, and nothing else does: the server is
    alive exactly when no client's own stream has failed.
  */
  lemma {:induction false} AliveIff(env: Env, s: Server, events: seq<Event>)
    requires Idle(s) && Proper(s, events)
    ensures RunServer(env, s, events).alive <==> NoneFailed(s, events)
  {
    hide RunServer, Opened, ChunksOf, ReceiveAll, Proper, Idle, Receive, Step;
    if |events| == 0 {
      forall fd
        ensures !ReceiveAll(ChunksOf([], fd)).failed && RunServer(env, s, []).alive
      {
        NothingSeen(env, s, fd);
      }
      assert events == [];
      NothingSeen(env, s, 0);
    } else {
      var front := events[..|events| - 1];
      ProperFront(s, events);
      AliveIff(env, s, front);
      if RunServer(env, s, front).alive {
        OthersGoOn(env, s, events);
        LivesOn(env, s, events);
      } else {
        DeadForGood(env, s, events);
      }
    }
  }

  /** The last event concerns no client but its own. */
  lemma OthersGoOn(env: Env, s: Server, events: seq<Event>)
    requires Idle(s) && Proper(s, events) && |events| > 0
    requires RunServer(env, s, events[..|events| - 1]).alive && NoneFailed(s, events[..|events| - 1])
    ensures events[|events| - 1].fd in Opened(s, events)
    ensures forall fd :: fd in Opened(s, events) && fd != events[|events| - 1].fd ==>
      !ReceiveAll(ChunksOf(events, fd)).failed
  {
    hide RunServer, Opened, ChunksOf, ReceiveAll, Proper, Idle;
    ProperFront(s, events);
    forall fd
      ensures fd in Opened(s, events) && fd != events[|events| - 1].fd ==> !ReceiveAll(ChunksOf(events, fd)).failed
      ensures events[|events| - 1].fd in Opened(s, events)
    {
      LastEvent(env, s, events, fd);
    }
  }

  lemma DeadForGood(env: Env, s: Server, events: seq<Event>)
    requires |events| > 0
    requires !RunServer(env, s, events[..|events| - 1]).alive && !NoneFailed(s, events[..|events| - 1])
    ensures !RunServer(env, s, events).alive && !NoneFailed(s, events)
  {
    hide RunServer, Opened, ChunksOf, ReceiveAll;
    var front, e := events[..|events| - 1], events[|events| - 1];
    var fd :| fd in Opened(s, front) && ReceiveAll(ChunksOf(front, fd)).failed;
    LastEvent(env, s, events, fd);
    ReceiveAllSnoc(ChunksOf(front, fd), if e.Received? then e.chunk else []);
  }

  ghost predicate NoneBroken(s: Server, events: seq<Event>) {
    forall fd :: fd in Opened(s, events) ==> Unbroken(ChunksOf(events, fd))
  }

  /** In terms of the bytes received: no client's stream has come to a chunk that breaks it. */
  lemma AliveIffUnbroken(env: Env, s: Server, events: seq<Event>)
    requires Idle(s) && Proper(s, events)
    ensures RunServer(env, s, events).alive <==> NoneBroken(s, events)
    ensures UpToError(env, s, events) <==> (|events| > 0 ==> NoneBroken(s, events[..|events| - 1]))
  {
    NoneBrokenIff(s, events);
    hide RunServer, NoneFailed, NoneBroken, Idle, Proper;
    AliveIff(env, s, events);
    if |events| > 0 {
      ProperFront(s, events);
      NoneBrokenIff(s, events[..|events| - 1]);
      AliveIff(env, s, events[..|events| - 1]);
    }
  }

  lemma NoneBrokenIff(s: Server, events: seq<Event>)
    ensures NoneBroken(s, events) <==> NoneFailed(s, events)
  {
    hide Opened, ChunksOf, ReceiveAll, Unbroken;
    forall fd
      ensures ReceiveAll(ChunksOf(events, fd)).failed <==> !Unbroken(ChunksOf(events, fd))
    {
      FailsIff(ChunksOf(events, fd));
    }
  }

  /** "!" is no type tag: this one byte from one client, and no other client is served any more. */
  lemma OneBadByteEndsAll(env: Env, s: Server, fd: int, more: seq<Event>)
    requires Idle(s) && fd in s.buffs
    ensures var t := RunServer(env, s, [Received(fd, [33])] + more);
      !t.alive && t.log == [] && t.db == s.db
    decreases |more|
  {
    var bad := [Received(fd, [33])];
    if |more| == 0 {
      assert bad + more == bad && bad[..0] == [];
      assert s.buffs[fd] + [33] == [33];
    } else {
      hide Step;
      OneBadByteEndsAll(env, s, fd, more[..|more| - 1]);
      var all := bad + more;
      assert all[..|all| - 1] == bad + more[..|more| - 1];
      DeadStep(env, RunServer(env, s, all[..|all| - 1]), all[|all| - 1]);
    }
  }

  lemma DeadStep(env: Env, s: Server, e: Event)
    ensures !s.alive ==> Step(env, s, e) == s
  {
  }

  // ---- Every client's stream ----

  /**
    End to end, for every client in every interleaving: the bytes it sent are the bytes consumed by
    what was dispatched for it, followed by its buffer, and they decode to the dispatched commands
    followed by what is still to come.
  */
  lemma ClientStream(env: Env, s: Server, events: seq<Event>, fd: int) returns (consumed: Bytes)
    requires Idle(s) && fd in Opened(s, events) && Proper(s, events)
    requires RunServer(env, s, events).alive
    ensures var t, sent := RunServer(env, s, events), Flatten(ChunksOf(events, fd));
      && fd in t.buffs && sent == consumed + t.buffs[fd]
      && Decode(consumed) == Decoded(CommandsOf(t.log, fd), [], false)
      && Decode(sent) == After(CommandsOf(t.log, fd), Decode(t.buffs[fd]))
  {
    hide RunServer, ReceiveAll, Flatten, Decode, ChunksOf, Opened, Proper, SeenFrom;
    StillOpen(env, s, events);
    Isolation(env, s, events, fd);
    SeenAlive(RunServer(env, s, events), fd, true, ReceiveAll(ChunksOf(events, fd)));
    SeenCommands(RunServer(env, s, events), fd, true, ReceiveAll(ChunksOf(events, fd)));
    consumed := StreamInvariant(ChunksOf(events, fd));
  }

  /** Every client keeps to the protocol: what it sent so far is the start of well-formed commands. */
  ghost predicate WellBehaved(s: Server, events: seq<Event>,
                              sends: map<int, seq<RespValue>>, pending: map<int, Bytes>)
  {
    forall fd :: fd in Opened(s, events) ==>
      && fd in sends && fd in pending && AllWellFormed(sends[fd])
      && SerializeAll(sends[fd]) == Flatten(ChunksOf(events, fd)) + pending[fd]
  }

  /**
    Clients that keep to the protocol, whenever they connect and however their commands are cut into
    chunks and interleaved, never end the run, and each has its own commands dispatched in the order it
    sent them.
  */
  lemma WellBehavedClients(env: Env, s: Server, events: seq<Event>,
                           sends: map<int, seq<RespValue>>, pending: map<int, Bytes>)
    requires Idle(s) && Proper(s, events) && WellBehaved(s, events, sends, pending)
    ensures RunServer(env, s, events).alive
    ensures forall fd :: fd in Opened(s, events) ==> CommandsOf(RunServer(env, s, events).log, fd) <= sends[fd]
  {
    hide RunServer, Opened, ChunksOf, Flatten, ReceiveAll, SerializeAll, AllWellFormed, Idle, Proper, SeenFrom;
    forall fd | fd in Opened(s, events)
      ensures !ReceiveAll(ChunksOf(events, fd)).failed && ReceiveAll(ChunksOf(events, fd)).dispatched <= sends[fd]
    {
      CommandsArriveInOrder(sends[fd], ChunksOf(events, fd), pending[fd]);
    }
    AliveIff(env, s, events);
    StillOpen(env, s, events);
    forall fd | fd in Opened(s, events)
      ensures CommandsOf(RunServer(env, s, events).log, fd) <= sends[fd]
    {
      Isolation(env, s, events, fd);
      SeenCommands(RunServer(env, s, events), fd, true, ReceiveAll(ChunksOf(events, fd)));
    }
  }
}
