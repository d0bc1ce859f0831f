/** The server object: the connections, the shared database, and the receive loop that joins them. */
module RedisServers {
  import opened ByteStrings
  import opened RespValues
  import opened Parser
  import opened RespParser
  import opened Serializer
  import opened Store
  import opened Databases
  import opened Commands
  import opened DispatchLaws
  import opened Dispatcher
  import opened ServerRuns

  class RedisServer {
    const env: Env
    const db: Database
    var connections: map<int, ClientConnection>
    ghost var log: seq<Entry>
    ghost var alive: bool

    /** Each connection is filed under its own descriptor, so no two share a buffer. */
    ghost predicate Valid()
      reads this, db, connections.Values
    {
      && (forall fd :: fd in connections ==> connections[fd].fd == fd)
      && SoundDB(db.db)
    }

    ghost function State(): Server
      reads this, db, connections.Values
    {
      Server(map fd | fd in connections :: connections[fd].buff, db.db, log, alive)
    }

    constructor (env: Env)
      ensures Valid() && this.env == env && Idle(State()) && State().db == map[]
      ensures fresh(db) && connections == map[]
    {
      this.env := env;
      db := new Database();
      connections := map[];
      log := [];
      alive := true;
    }

    /** The registration step of accepting a client; a descriptor already registered is refused. */
    method Register(fd: int) returns (ok: bool)
      requires Valid()
      modifies this
      ensures Valid() && ok == (fd !in old(connections))
      ensures State() == if ok then old(State()).(buffs := old(State()).buffs[fd := []]) else old(State())
      ensures alive ==> State() == Step(env, old(State()), Connected(fd))
      ensures ok ==> fd in connections && fresh(connections[fd])
      ensures ok ==> connections == old(connections)[fd := connections[fd]]
      ensures !ok ==> connections == old(connections)
    {
      if fd in connections {
        return false;
      }
      hide SoundDB;
      ghost var before := State();
      var client := new ClientConnection(fd);
      connections := connections[fd := client];
      assert State().buffs == before.buffs[fd := []];
      ok := true;
    }

    /** One `recv` that returned `chunk`: the body of the receive loop. False ends the run. */
    method ReceiveOnce(fd: int, chunk: Bytes) returns (ok: bool)
      requires Valid() && alive && fd in connections && AllFit(db.db)
      modifies this, db, connections[fd]
      ensures Valid()
      ensures State() == Step(env, old(State()), Received(fd, chunk))
      ensures ok == alive && (ok ==> connections == old(connections))
    {
      hide Parse, Dispatch, Serialize, AllFit, SoundDB;
      ghost var before := State();
      var client := connections[fd];
      assert forall k :: k in connections && k != fd ==> connections[k] != client;
      client.buff := client.buff + chunk;
      var code, ret := ParseOne(client, NullBulkString);
      match code
      case COMPLETE =>
        DispatchSound(env, db.db, ret);
        var reply := DispatchCommand(env, ret, db);
        var resp := SerializeResp(reply);
        log := log + [Entry(fd, ret, resp)];
        ok := true;
        assert State().buffs == before.buffs[fd := client.buff];
      case INCOMPLETE =>
        ok := true;
        assert State().buffs == before.buffs[fd := client.buff];
      case ERROR =>
        connections := connections - {fd};
        alive := false;
        ok := false;
        assert State().buffs == before.buffs - {fd};
    }

    /**
      `receive_command`: what successive `recv` calls return until there is no more data. The memory
      bound is asked of every database the run goes through.
    */
    method ReceiveCommand(fd: int, chunks: seq<Bytes>) returns (ok: bool)
      requires Valid() && alive && fd in connections
      requires forall i :: 0 <= i <= |chunks| ==> AllFit(RunServer(env, State(), Events(fd, chunks[..i])).db)
      modifies this, db, connections[fd]
      ensures Valid()
      ensures State() == RunServer(env, old(State()), Events(fd, chunks))
      ensures ok == alive
    {
      hide Step, AllFit, SoundDB;
      ghost var start := State();
      ok := true;
      for i := 0 to |chunks|
        invariant Valid() && ok && alive && connections == old(connections)
        invariant State() == RunServer(env, start, Events(fd, chunks[..i]))
      {
        EventsSnoc(env, start, fd, chunks, i);
        ok := ReceiveOnce(fd, chunks[i]);
        if !ok {
          DeadStays(env, start, fd, chunks, i + 1);
          return;
        }
      }
      assert chunks[..|chunks|] == chunks;
    }
  }

  function Events(fd: int, chunks: seq<Bytes>): seq<Event> {
    seq(|chunks|, i requires 0 <= i < |chunks| => Received(fd, chunks[i]))
  }

  lemma EventsSnoc(env: Env, s: Server, fd: int, chunks: seq<Bytes>, i: nat)
    requires i < |chunks|
    ensures RunServer(env, s, Events(fd, chunks[..i + 1]))
         == Step(env, RunServer(env, s, Events(fd, chunks[..i])), Received(fd, chunks[i]))
  {
    hide Step;
    var all := Events(fd, chunks[..i + 1]);
    assert all[..|all| - 1] == Events(fd, chunks[..i]);
  }

  lemma DeadStays(env: Env, s: Server, fd: int, chunks: seq<Bytes>, i: nat)
    requires i <= |chunks| && !RunServer(env, s, Events(fd, chunks[..i])).alive
    ensures RunServer(env, s, Events(fd, chunks)) == RunServer(env, s, Events(fd, chunks[..i]))
    decreases |chunks| - i
  {
    if i == |chunks| {
      assert chunks[..i] == chunks;
    } else {
      hide RunServer;
      EventsSnoc(env, s, fd, chunks, i);
      DeadStays(env, s, fd, chunks, i + 1);
    }
  }
}
