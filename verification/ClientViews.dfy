/** What clients read back: their replies in order, and the values that they or others stored before. */
module ClientViews {
  import opened Options
  import opened ByteStrings
  import opened RespValues
  import opened Parser
  import opened Serializer
  import opened RoundTrips
  import opened Streams
  import opened Store
  import opened Commands
  import opened Requests
  import opened Answers
  import opened DispatchLaws
  import opened Runs
  import opened ServerRuns

  // ---- Every reply, in order ----

  /** All bytes sent to one client. */
  function SentTo(log: seq<Entry>, fd: int): Bytes {
    if |log| == 0 then []
    else
      var e := log[|log| - 1];
      SentTo(log[..|log| - 1], fd) + if e.fd == fd then e.sent else []
  }

  /** What a serial execution of the log replies to one client. */
  ghost function RepliesTo(env: Env, db: DB, log: seq<Entry>, fd: int): seq<RespValue> {
    if |log| == 0 then []
    else
      var front, e := log[..|log| - 1], log[|log| - 1];
      RepliesTo(env, db, front, fd)
      + if e.fd == fd then [Dispatch(env, DispatchAll(env, db, CommandSeq(front)), e.command).1] else []
  }

  lemma ReplaysFront(env: Env, db: DB, log: seq<Entry>)
    requires Replays(env, db, log) && |log| > 0
    ensures var front, e := log[..|log| - 1], log[|log| - 1];
      && Replays(env, db, front)
      && e.sent == Serialize(Dispatch(env, DispatchAll(env, db, CommandSeq(front)), e.command).1)
  {
    hide Dispatch, DispatchAll, CommandSeq, Serialize;
    var front := log[..|log| - 1];
    assert forall i :: 0 <= i < |front| ==> front[..i] == log[..i];
  }

  lemma {:induction false} SentIsSerialized(env: Env, db: DB, log: seq<Entry>, fd: int)
    requires Replays(env, db, log)
    ensures SentTo(log, fd) == SerializeAll(RepliesTo(env, db, log, fd))
    ensures |RepliesTo(env, db, log, fd)| == |CommandsOf(log, fd)|
  {
    hide Dispatch, DispatchAll, CommandSeq, Serialize, Replays;
    if |log| > 0 {
      ReplaysFront(env, db, log);
      SentIsSerialized(env, db, log[..|log| - 1], fd);
      var before := RepliesTo(env, db, log[..|log| - 1], fd);
      var last := RepliesTo(env, db, log, fd)[|before|..];
      SerializeAllAppend(before, last);
      if |last| > 0 {
        SerializeCons(last[0], []);
        assert last == [last[0]] + [];
        assert SentTo(log, fd) == SerializeAll(before) + Serialize(last[0]);
      }
    }
  }

  /** Memory suffices for every state the run goes through. */
  ghost predicate FitsThroughout(env: Env, db: DB, log: seq<Entry>) {
    forall i :: 0 <= i < |log| ==> FitsDB(DispatchAll(env, db, CommandSeq(log[..i])))
  }

  predicate AllReceived(log: seq<Entry>) {
    forall i :: 0 <= i < |log| ==> WellFormed(log[i].command)
  }

  predicate AllLegible(vs: seq<RespValue>) {
    forall i :: 0 <= i < |vs| ==> Legible(vs[i])
  }

  lemma FitsFront(env: Env, db: DB, log: seq<Entry>)
    requires FitsThroughout(env, db, log) && |log| > 0
    ensures FitsThroughout(env, db, log[..|log| - 1])
    ensures FitsDB(DispatchAll(env, db, CommandSeq(log[..|log| - 1])))
  {
    hide FitsDB, DispatchAll, CommandSeq;
    var front := log[..|log| - 1];
    assert forall i :: 0 <= i < |front| ==> front[..i] == log[..i];
  }

  lemma {:induction false} RepliesWellFormedIff(env: Env, db: DB, log: seq<Entry>, fd: int)
    requires ValidEnv(env) && FitsThroughout(env, db, log) && AllReceived(log)
    ensures AllWellFormed(RepliesTo(env, db, log, fd)) <==> AllLegible(CommandsOf(log, fd))
  {
    hide ValidEnv, FitsThroughout, Dispatch, DispatchAll, CommandSeq, WellFormed, Legible, FitsDB;
    if |log| > 0 {
      var front, e := log[..|log| - 1], log[|log| - 1];
      FitsFront(env, db, log);
      RepliesWellFormedIff(env, db, front, fd);
      ReplyWellFormedIff(env, DispatchAll(env, db, CommandSeq(front)), e.command);
      var replies, commands := RepliesTo(env, db, log, fd), CommandsOf(log, fd);
      if e.fd == fd {
        LastCounts(RepliesTo(env, db, front, fd), replies[|replies| - 1], CommandsOf(front, fd), e.command);
      } else {
        assert replies == RepliesTo(env, db, front, fd) && commands == CommandsOf(front, fd);
      }
    }
  }

  lemma LastCounts(replies: seq<RespValue>, reply: RespValue, commands: seq<RespValue>, command: RespValue)
    ensures AllWellFormed(replies + [reply]) <==> AllWellFormed(replies) && WellFormed(reply)
    ensures AllLegible(commands + [command]) <==> AllLegible(commands) && Legible(command)
  {
    hide WellFormed, Legible;
    var rs, cs := replies + [reply], commands + [command];
    assert rs[|replies|] == reply && cs[|commands|] == command;
    assert forall i :: 0 <= i < |replies| ==> rs[i] == replies[i];
    assert forall i :: 0 <= i < |commands| ==> cs[i] == commands[i];
  }

  /** Only what was parsed is dispatched. */
  lemma {:induction false} LoggedWasReceived(env: Env, s: Server, events: seq<Event>)
    requires Idle(s)
    ensures AllReceived(RunServer(env, s, events).log)
  {
    hide Dispatch, Parse, Serialize, WellFormed;
    if |events| > 0 {
      var front, e := events[..|events| - 1], events[|events| - 1];
      LoggedWasReceived(env, s, front);
      var t := RunServer(env, s, front);
      if t.alive && e.Received? && e.fd in t.buffs && Parse(t.buffs[e.fd] + e.chunk).Complete? {
        ParseYields(t.buffs[e.fd] + e.chunk);
      }
    }
  }

  lemma {:induction false} DecodedWellFormed(s: Bytes)
    ensures AllWellFormed(Decode(s).vals)
    decreases |s|
  {
    hide Parse, WellFormed;
    if Parse(s).Complete? {
      ParseYields(s);
      DecodedWellFormed(s[Parse(s).used..]);
    }
  }

  /** Exactly well-formed values are decoded from their concatenated serializations. */
  lemma DecodesIffWellFormed(vs: seq<RespValue>)
    ensures Decode(SerializeAll(vs)) == Decoded(vs, [], false) <==> AllWellFormed(vs)
  {
    hide AllWellFormed, Decode, SerializeAll;
    DecodedWellFormed(SerializeAll(vs));
    if AllWellFormed(vs) {
      DecodeSerialized(vs, []);
      DecodeStops([]);
      assert SerializeAll(vs) + [] == SerializeAll(vs);
      assert vs + [] == vs;
    }
  }

  /**
    For every interleaving: a client that decodes all the bytes sent to it reads the replies of the
    serial execution to its own commands, one each and in order, exactly when none of them was unknown
    with a CR or LF in its name.
  */
  lemma ClientReadsReplies(env: Env, s: Server, events: seq<Event>, fd: int)
    requires Idle(s) && ValidEnv(env) && FitsThroughout(env, s.db, RunServer(env, s, events).log)
    ensures var log := RunServer(env, s, events).log;
      var replies, commands := RepliesTo(env, s.db, log, fd), CommandsOf(log, fd);
      && |replies| == |commands|
      && (Decode(SentTo(log, fd)) == Decoded(replies, [], false) <==> AllLegible(commands))
  {
    hide RunServer, Decode, SerializeAll, AllLegible, AllWellFormed, FitsThroughout, Replays, ValidEnv, AllReceived;
    var log := RunServer(env, s, events).log;
    SerialExecution(env, s, events);
    LoggedWasReceived(env, s, events);
    SentIsSerialized(env, s.db, log, fd);
    RepliesWellFormedIff(env, s.db, log, fd);
    DecodesIffWellFormed(RepliesTo(env, s.db, log, fd));
  }

  // ---- SET then GET ----

  function Request2(a: Bytes, b: Bytes): RespValue {
    Array([BulkString(a), BulkString(b)])
  }

  function Request3(a: Bytes, b: Bytes, c: Bytes): RespValue {
    Array([BulkString(a), BulkString(b), BulkString(c)])
  }

  lemma SetCommand(env: Env, verb: Bytes, key: Bytes, val: Bytes)
    requires SameLetters(verb, "SET")
    ensures Asks(Request3(verb, key, val), SET, [key, val])
  {
    hide SameLetters;
  }

  lemma GetCommand(env: Env, verb: Bytes, key: Bytes)
    requires SameLetters(verb, "GET")
    ensures Asks(Request2(verb, key), GET, [key])
  {
    hide SameLetters;
  }

  /** A request that arrives whole on an empty buffer is dispatched at once and leaves it empty. */
  lemma WholeRequest(env: Env, s: Server, fd: int, v: RespValue)
    requires s.alive && fd in s.buffs && s.buffs[fd] == [] && WellFormed(v)
    ensures var t := Step(env, s, Received(fd, Serialize(v)));
      var (db, reply) := Dispatch(env, s.db, v);
      && t.alive && fd in t.buffs && t.buffs[fd] == [] && t.db == db
      && t.log == s.log + [Entry(fd, v, Serialize(reply))]
  {
    hide Parse, Serialize, Dispatch, WellFormed;
    RoundTrip(v, []);
    assert [] + Serialize(v) == Serialize(v) == Serialize(v) + [];
  }

  /**
    A value set under a key, whatever bytes the two contain, comes back over the wire: a client that
    sends SET and then GET, in any letter case, and parses the second reply reads exactly the value.
  */
  lemma SetThenGet(env: Env, s: Server, fd: int,
                   setVerb: Bytes, getVerb: Bytes, key: Bytes, val: Bytes, rest: Bytes)
    requires s.alive && fd in s.buffs && s.buffs[fd] == []
    requires SameLetters(setVerb, "SET") && SameLetters(getVerb, "GET")
    requires WellFormed(Request3(setVerb, key, val)) && WellFormed(Request2(getVerb, key))
    ensures var v1, v2 := Request3(setVerb, key, val), Request2(getVerb, key);
      var t := Step(env, Step(env, s, Received(fd, Serialize(v1))), Received(fd, Serialize(v2)));
      && |t.log| == |s.log| + 2
      && Parse(t.log[|s.log| + 1].sent + rest) == Complete(BulkString(val), |t.log[|s.log| + 1].sent|)
  {
    hide Parse, Serialize, SameLetters, Dispatch, WellFormed, Step;
    var v1, v2 := Request3(setVerb, key, val), Request2(getVerb, key);
    WholeRequest(env, s, fd, v1);
    SetStores(env, s.db, setVerb, key, val);
    var s1 := Step(env, s, Received(fd, Serialize(v1)));
    WholeRequest(env, s1, fd, v2);
    GetReads(env, s1.db, getVerb, key, val);
    ValueOf(v1);
    RoundTrip(BulkString(val), rest);
  }

  lemma ValueOf(v: RespValue)
    requires WellFormed(v) && v.Array? && |v.vals| == 3
    ensures WellFormed(v.vals[2])
  {
  }

  // ---- Reading what was written, whoever wrote it ----

  /** The command neither writes the key nor deletes it. */
  predicate LeavesAlone(env: Env, v: RespValue, key: Bytes) {
    match ParseCommand(env, v)
    case Reject(_) => true
    case Accept(cmd) => Spares(cmd, key) && OpOn(cmd, key).None?
  }

  lemma DispatchLeavesAlone(env: Env, db: DB, v: RespValue, key: Bytes)
    requires LeavesAlone(env, v, key)
    ensures At(Dispatch(env, db, v).0, key) == At(db, key)
  {
    hide ParseCommand, Exec, At;
    var p := ParseCommand(env, v);
    if p.Accept? {
      ExecLocal(env, db, p.cmd, key);
    }
  }

  lemma LogPrefix(env: Env, db: DB, log: seq<Entry>, i: nat)
    requires i < |log|
    ensures DispatchAll(env, db, CommandSeq(log[..i + 1]))
         == Dispatch(env, DispatchAll(env, db, CommandSeq(log[..i])), log[i].command).0
  {
    hide Dispatch, DispatchAll, CommandSeq;
    assert log[..i + 1] == log[..i] + [log[i]];
    LogSnoc(env, db, log[..i], log[i]);
  }

  lemma {:induction false} StaysStored(env: Env, db: DB, log: seq<Entry>, i: nat, j: nat, key: Bytes)
    requires i <= j <= |log|
    requires forall k :: i <= k < j ==> LeavesAlone(env, log[k].command, key)
    ensures At(DispatchAll(env, db, CommandSeq(log[..j])), key) == At(DispatchAll(env, db, CommandSeq(log[..i])), key)
    decreases j
  {
    hide Dispatch, DispatchAll, CommandSeq, LeavesAlone, At;
    if i < j {
      StaysStored(env, db, log, i, j - 1, key);
      LogPrefix(env, db, log, j - 1);
      DispatchLeavesAlone(env, DispatchAll(env, db, CommandSeq(log[..j - 1])), log[j - 1].command, key);
    }
  }

  lemma SetStores(env: Env, db: DB, verb: Bytes, key: Bytes, val: Bytes)
    requires SameLetters(verb, "SET")
    ensures At(Dispatch(env, db, Request3(verb, key, val)).0, key) == Some(Str(val))
  {
    hide Dispatch, SameLetters, Asks;
    SetCommand(env, verb, key, val);
    SetAnswer(env, db, Request3(verb, key, val), key, val);
  }

  lemma GetReads(env: Env, db: DB, verb: Bytes, key: Bytes, val: Bytes)
    requires SameLetters(verb, "GET") && At(db, key) == Some(Str(val))
    ensures Dispatch(env, db, Request2(verb, key)).1 == BulkString(val)
  {
    hide Dispatch, SameLetters, Asks;
    GetCommand(env, verb, key);
    GetAnswer(env, db, Request2(verb, key), key, val);
  }

  /**
    Between a SET and a later GET of the key, whichever clients sent them, any clients may send any
    commands in any interleaving: as long as none of these writes or deletes the key, whoever sent the
    GET reads exactly the value, whatever bytes it and the key contain.
  */
  lemma ReadsLastSet(env: Env, s: Server, events: seq<Event>, i: nat, j: nat,
                     setVerb: Bytes, getVerb: Bytes, key: Bytes, val: Bytes, rest: Bytes)
    requires Idle(s) && i < j < |RunServer(env, s, events).log|
    requires SameLetters(setVerb, "SET") && SameLetters(getVerb, "GET")
    requires RunServer(env, s, events).log[i].command == Request3(setVerb, key, val)
    requires RunServer(env, s, events).log[j].command == Request2(getVerb, key)
    requires forall k :: i < k < j ==> LeavesAlone(env, RunServer(env, s, events).log[k].command, key)
    ensures var sent := RunServer(env, s, events).log[j].sent;
      Parse(sent + rest) == Complete(BulkString(val), |sent|)
  {
    hide RunServer, SameLetters, LeavesAlone, At, DispatchAll, CommandSeq, Dispatch, Parse, Serialize, WellFormed;
    var log := RunServer(env, s, events).log;
    SerialExecution(env, s, events);
    LoggedWasReceived(env, s, events);
    SetStores(env, DispatchAll(env, s.db, CommandSeq(log[..i])), setVerb, key, val);
    LogPrefix(env, s.db, log, i);
    StaysStored(env, s.db, log, i + 1, j, key);
    GetReads(env, DispatchAll(env, s.db, CommandSeq(log[..j])), getVerb, key, val);
    ValueOf(log[i].command);
    RoundTrip(BulkString(val), rest);
  }
}
