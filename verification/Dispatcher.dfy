/** The dispatcher as it runs: argument and verb loops, then a handler that works on the database in place. */
module Dispatcher {
  import opened Options
  import opened ByteStrings
  import opened RespValues
  import opened Ranks
  import opened Store
  import opened Databases
  import opened Commands

  /** EXISTS: one lookup per name. */
  method CountExisting(database: Database, keys: seq<Bytes>) returns (count: nat)
    ensures count == CountPresent(database.db, keys)
  {
    count := 0;
    for i := 0 to |keys|
      invariant count == CountPresent(database.db, keys[..i])
    {
      assert keys[..i + 1][..i] == keys[..i];
      if keys[i] in database.db {
        count := count + 1;
      }
    }
    assert keys[..|keys|] == keys;
  }

  /** DEL: one erase per name. */
  method DeleteAll(database: Database, keys: seq<Bytes>) returns (removed: int)
    modifies database
    ensures database.db == old(database.db) - ToSet(keys)
    ensures removed == |old(database.db)| - |database.db|
  {
    hide ToSet;
    removed := 0;
    ToSetNil<Bytes>();
    MapMinus(database.db, {}, []);
    for i := 0 to |keys|
      invariant database.db == old(database.db) - ToSet(keys[..i])
      invariant removed == |old(database.db)| - |database.db|
    {
      MapRemove(database.db, keys[i]);
      ToSetSnoc(keys, i);
      MapMinus(old(database.db), ToSet(keys[..i]), keys[i]);
      var gone := database.Del(keys[i]);
      if gone {
        removed := removed + 1;
      }
    }
    assert keys[..|keys|] == keys;
  }

  // The loops that turn what was read into a reply, item by item.

  method PushBulks(items: seq<Bytes>) returns (arr: seq<RespValue>)
    ensures arr == Bulks(items)
  {
    arr := [];
    for i := 0 to |items|
      invariant arr == Bulks(items[..i])
    {
      arr := arr + [BulkString(items[i])];
    }
    assert items[..|items|] == items;
  }

  method PushPairs(items: seq<(Bytes, Bytes)>) returns (arr: seq<RespValue>)
    ensures arr == Pairs(items)
  {
    arr := [];
    for i := 0 to |items|
      invariant |arr| == 2 * i
      invariant forall k :: 0 <= k < i ==>
        arr[2 * k] == BulkString(items[k].0) && arr[2 * k + 1] == BulkString(items[k].1)
    {
      arr := arr + [BulkString(items[i].0)];
      arr := arr + [BulkString(items[i].1)];
    }
    PairsAre(items, arr);
  }

  lemma PairsAre(items: seq<(Bytes, Bytes)>, arr: seq<RespValue>)
    requires |arr| == 2 * |items|
    requires forall k :: 0 <= k < |items| ==>
      arr[2 * k] == BulkString(items[k].0) && arr[2 * k + 1] == BulkString(items[k].1)
    ensures arr == Pairs(items)
  {
    forall i | 0 <= i < |arr|
      ensures arr[i] == Pairs(items)[i]
    {
      var k := i / 2;
      assert i == 2 * k || i == 2 * k + 1;
    }
  }

  /** The walk over a hash's table. */
  method WalkFields(env: Env, fields: map<Bytes, Bytes>) returns (pairs: seq<(Bytes, Bytes)>)
    ensures pairs == FieldPairs(env, fields)
  {
    var walk := env.order(fields.Keys);
    pairs := [];
    for i := 0 to |walk|
      invariant pairs == FieldPairs(env, fields)[..i]
    {
      pairs := pairs + [(walk[i], if walk[i] in fields then fields[walk[i]] else [])];
    }
  }

  method PushRanks(env: Env, ranks: seq<Rank>, withScores: bool) returns (reply: RespValue)
    ensures reply == if withScores then Array(Pairs(RankPairs(env, ranks))) else BulkArray(RankMembers(ranks))
  {
    var arr: seq<RespValue> := [];
    for i := 0 to |ranks|
      invariant |arr| == if withScores then 2 * i else i
      invariant withScores ==> forall k :: 0 <= k < i ==>
        arr[2 * k] == BulkString(ranks[k].member) && arr[2 * k + 1] == BulkString(env.formatScore(ranks[k].score))
      invariant !withScores ==> arr == Bulks(RankMembers(ranks[..i]))
    {
      arr := arr + [BulkString(ranks[i].member)];
      if withScores {
        arr := arr + [BulkString(env.formatScore(ranks[i].score))];
      }
    }
    if withScores {
      PairsAre(RankPairs(env, ranks), arr);
    }
    assert ranks[..|ranks|] == ranks;
    reply := Array(arr);
  }

  /** HGETALL, HKEYS and HVALS. */
  method HandleWalk(env: Env, op: ReadOp, fields: map<Bytes, Bytes>) returns (reply: RespValue)
    requires op.HGetAll? || op.HKeys? || op.HVals?
    ensures reply == ReadHash(env, op, Some(Hash(fields)))
  {
    hide Pairs, Bulks, FieldPairs, Seconds;
    var arr: seq<RespValue>;
    if op.HKeys? {
      arr := PushBulks(env.order(fields.Keys));
    } else {
      var pairs := WalkFields(env, fields);
      if op.HGetAll? {
        arr := PushPairs(pairs);
      } else {
        arr := PushBulks(Seconds(pairs));
      }
    }
    reply := Array(arr);
  }

  predicate LooksUp(op: ReadOp) {
    || op.Type? || op.Get? || op.StrLen? || op.LLen? || op.HExists? || op.HGet? || op.HLen?
    || op.SCard? || op.SIsMember? || op.ZCard? || op.ZScore?
  }

  method LookUpMissing(env: Env, op: ReadOp) returns (reply: RespValue)
    requires LooksUp(op)
    ensures reply == ReadReply(env, op, None)
  {
    hide WRONGTYPE_MSG, Ascii, TypeName, CastI64;
    if op.Type? {
      reply := SimpleString(Ascii("none"));
    } else if op.Get? || op.HGet? || op.ZScore? {
      reply := NullBulkString;
    } else if op.HExists? || op.SIsMember? {
      reply := Integer(0);
    } else {
      reply := Count(0);
    }
  }

  /** STRLEN, LLEN, HLEN, SCARD and ZCARD on a key that is there. */
  method LookUpSize(env: Env, op: ReadOp, value: Value) returns (reply: RespValue)
    requires op.StrLen? || op.LLen? || op.HLen? || op.SCard? || op.ZCard?
    ensures reply == ReadReply(env, op, Some(value))
  {
    hide WRONGTYPE_MSG, CastI64;
    reply := WRONGTYPE_REPLY;
    match value
    case Str(text) => if op.StrLen? { reply := Count(|text|); }
    case List(elements) => if op.LLen? { reply := Count(|elements|); }
    case Hash(fields) => if op.HLen? { reply := Count(|fields|); }
    case Set(members) => if op.SCard? { reply := Count(|members|); }
    case SortedSet(scores, _) => if op.ZCard? { reply := Count(|scores|); }
  }

  /** HGET, HEXISTS, SISMEMBER and ZSCORE on a key that is there. */
  method LookUpMember(env: Env, op: ReadOp, value: Value) returns (reply: RespValue)
    requires op.HGet? || op.HExists? || op.SIsMember? || op.ZScore?
    ensures reply == ReadReply(env, op, Some(value))
  {
    hide WRONGTYPE_MSG, CastI64;
    reply := WRONGTYPE_REPLY;
    match op
    case HExists(field) =>
      if value.Hash? {
        reply := Integer(if field in value.fields then 1 else 0);
      }
    case HGet(field) =>
      if value.Hash? {
        reply := if field in value.fields then BulkString(value.fields[field]) else NullBulkString;
      }
    case SIsMember(member) =>
      if value.Set? {
        reply := Integer(if member in value.members then 1 else 0);
      }
    case ZScore(member) =>
      if value.SortedSet? {
        reply := if member in value.scores then BulkString(env.formatScore(value.scores[member])) else NullBulkString;
      }
  }

  /** The handlers that look up one value: the key may be missing, hold another type, or hold the value. */
  method HandleLookUp(env: Env, key: Bytes, op: ReadOp, database: Database) returns (reply: RespValue)
    requires LooksUp(op)
    ensures reply == ReadReply(env, op, At(database.db, key))
  {
    hide WRONGTYPE_MSG, Ascii, TypeName, ReadList, ReadHash, ReadSet, ReadSortedSet;
    if key !in database.db {
      reply := LookUpMissing(env, op);
      return;
    }
    var value := database.db[key];
    if op.Type? {
      reply := SimpleString(TypeName(value));
    } else if op.Get? {
      reply := if value.Str? then BulkString(value.text) else WRONGTYPE_REPLY;
    } else if op.HGet? || op.HExists? || op.SIsMember? || op.ZScore? {
      reply := LookUpMember(env, op, value);
    } else {
      reply := LookUpSize(env, op, value);
    }
  }

  method HandleRead(env: Env, key: Bytes, op: ReadOp, database: Database) returns (reply: RespValue)
    requires key in database.db ==> IndexesAgree(database.db[key]) && SizesFit(database.db[key])
    ensures reply == ReadReply(env, op, At(database.db, key))
  {
    hide IndexesAgree, SizesFit, Store.LRange, Store.LIndex, Store.ZRange;
    hide Pairs, Bulks, FieldPairs, Seconds, RankPairs, RankMembers;
    match op
    case LRange(start, stop) =>
      var r := database.LRange(key, start, stop);
      if r.Err? {
        reply := ErrorReply(r.error);
      } else {
        var arr := PushBulks(r.value);
        reply := Array(arr);
      }
    case LIndex(idx) =>
      var r := database.LIndex(key, idx);
      reply := OptReply(r);
    case ZRange(start, stop, withScores) =>
      var r := database.ZRange(key, start, stop);
      if r.Err? {
        reply := ErrorReply(r.error);
      } else {
        reply := PushRanks(env, r.value, withScores);
      }
    case HGetAll | HKeys | HVals =>
      if key !in database.db {
        reply := Array([]);
      } else if !database.db[key].Hash? {
        reply := WRONGTYPE_REPLY;
      } else {
        reply := HandleWalk(env, op, database.db[key].fields);
      }
    case SMembers =>
      if key !in database.db {
        reply := Array([]);
      } else if !database.db[key].Set? {
        reply := WRONGTYPE_REPLY;
      } else {
        var arr := PushBulks(env.order(database.db[key].members));
        reply := Array(arr);
      }
    case _ =>
      reply := HandleLookUp(env, key, op, database);
  }

  method HandleWrite(key: Bytes, op: WriteOp, database: Database) returns (reply: RespValue)
    requires Sound(At(database.db, key))
    modifies database
    ensures var (slot, r) := Apply(op, At(old(database.db), key));
      database.db == Put(old(database.db), key, slot) && reply == r
  {
    hide IndexesAgree, Store.Append, Store.IncrBy, Store.LPush, Store.RPush, Store.LPop, Store.RPop;
    hide Store.HDel, Store.HSet, Store.SAdd, Store.SRem, Store.ZAdd, Store.ZRem, WRONGTYPE_MSG, Ascii;
    match op
    case Append(suffix) =>
      var r := database.Append(key, suffix);
      reply := CountReply(r);
    case IncrBy(delta) =>
      var r := database.IncrBy(key, delta);
      reply := if r.Ok? then Integer(r.value) else ErrorReply(r.error);
    case GetDel =>
      PutSame(database.db, key);
      if key !in database.db {
        reply := NullBulkString;
      } else if !database.db[key].Str? {
        reply := WRONGTYPE_REPLY;
      } else {
        reply := BulkString(database.db[key].text);
        var _ := database.Del(key);
      }
    case Set(val) =>
      database.Set(key, val);
      reply := SimpleString(Ascii("OK"));
    case SetNX(val) =>
      PutSame(database.db, key);
      var added := database.SetNX(key, val);
      reply := Integer(if added then 1 else 0);
    case LPop =>
      var r := database.LPop(key);
      reply := OptReply(r);
    case RPop =>
      var r := database.RPop(key);
      reply := OptReply(r);
    case LPush(vals) =>
      var r := database.LPush(key, vals);
      reply := CountReply(r);
    case RPush(vals) =>
      var r := database.RPush(key, vals);
      reply := CountReply(r);
    case HDel(fields) =>
      var r := database.HDel(key, fields);
      reply := CountReply(r);
    case HSet(pairs) =>
      var r := database.HSet(key, pairs);
      reply := CountReply(r);
    case SAdd(members) =>
      var r := database.SAdd(key, members);
      reply := CountReply(r);
    case SRem(members) =>
      var r := database.SRem(key, members);
      reply := CountReply(r);
    case ZAdd(score, member) =>
      var r := database.ZAdd(key, score, member);
      reply := CountReply(r);
    case ZRem(members) =>
      var r := database.ZRem(key, members);
      reply := CountReply(r);
  }

  ghost predicate AllFit(db: DB) {
    forall k :: k in db ==> SizesFit(db[k])
  }

  lemma OneOf(db: DB, key: Bytes)
    requires SoundDB(db) && AllFit(db)
    ensures Sound(At(db, key)) && (key in db ==> IndexesAgree(db[key]) && SizesFit(db[key]))
  {
    hide SizesFit, IndexesAgree, NonEmpty;
    assert key in db ==> Sound(Some(db[key]));
  }

  method Handle(env: Env, cmd: Cmd, database: Database) returns (reply: RespValue)
    requires SoundDB(database.db) && AllFit(database.db)
    modifies database
    ensures (database.db, reply) == Exec(env, old(database.db), cmd)
  {
    hide ReadReply, Apply, ToSet, Sound, SoundDB, AllFit, SizesFit, IndexesAgree, CountPresent, Bulks, CastI64;
    match cmd
    case Echo(msg) =>
      reply := BulkString(msg);
    case Ping =>
      reply := SimpleString(Ascii("PONG"));
    case Exists(keys) =>
      var count := CountExisting(database, keys);
      reply := Count(count);
    case DbSize =>
      reply := Count(|database.db|);
    case Del(keys) =>
      var removed := DeleteAll(database, keys);
      reply := Count(removed);
    case Keys =>
      var arr := PushBulks(env.order(database.db.Keys));
      reply := Array(arr);
    case Read(key, op) =>
      OneOf(database.db, key);
      reply := HandleRead(env, key, op, database);
    case Write(key, op) =>
      OneOf(database.db, key);
      reply := HandleWrite(key, op, database);
  }

  /**
    `dispatch`. The database must be sound, as every reachable one is, and no container may exceed
    what a signed 64-bit count can hold.
  */
  method DispatchCommand(env: Env, command: RespValue, database: Database) returns (reply: RespValue)
    requires SoundDB(database.db) && AllFit(database.db)
    modifies database
    ensures (database.db, reply) == Dispatch(env, old(database.db), command)
  {
    hide Exec, SoundDB, AllFit, ParseArgs, Lookup;
    if !command.Array? {
      return SimpleError(INVALID_MSG);
    }
    var elems := command.vals;
    if |elems| == 0 {
      return SimpleError(INVALID_MSG);
    }
    var args: seq<Bytes> := [];
    for i := 0 to |elems|
      invariant |args| == i
      invariant forall j :: 0 <= j < i ==> elems[j].BulkString? && args[j] == elems[j].msg
      invariant database.db == old(database.db)
    {
      if !elems[i].BulkString? {
        return SimpleError(INVALID_MSG);
      }
      args := args + [elems[i].msg];
    }
    assert IsCommand(command) && args == Args(command);
    var name: Bytes := [];
    for i := 0 to |args[0]|
      invariant |name| == i
      invariant forall j :: 0 <= j < i ==> name[j] == UpperByte(args[0][j])
      invariant database.db == old(database.db)
    {
      name := name + [UpperByte(args[0][i])];
    }
    assert name == Upper(args[0]);
    var verb := Lookup(name);
    if verb.None? {
      return SimpleError(UnknownCommand(name));
    }
    match ParseArgs(env, verb.value, args)
    case Reject(refusal) =>
      reply := refusal;
    case Accept(cmd) =>
      reply := Handle(env, cmd, database);
  }
}
