/**
  The command dispatcher as a function: from a RESP value to a command or a refusal, and from a
  command and a database to the new database and the reply.
*/
module Commands {
  import opened Options
  import opened ByteStrings
  import opened Decimal
  import opened RespValues
  import opened Ranks
  import opened Store

  /**
    What the dispatcher takes from its platform: reading and printing a score (`stod`, never NaN, and
    `format_double`) and the order in which an unordered container is walked.
  */
  datatype Env = Env(
    parseScore: Bytes -> Option<Score>,
    formatScore: Score -> Bytes,
    order: set<Bytes> -> seq<Bytes>)

  /** A walk visits every element once, and a printed score is an ordinary string. */
  ghost predicate ValidEnv(env: Env) {
    && (forall s: set<Bytes> :: ToSet(env.order(s)) == s && |env.order(s)| == |s|)
    && (forall x: Score :: |env.formatScore(x)| <= I64_MAX)
  }

  // ---- Commands with their arguments ----

  datatype ReadOp =
    | Type | Get | StrLen
    | LIndex(idx: i64) | LLen | LRange(start: i64, stop: i64)
    | HExists(field: Bytes) | HGet(field: Bytes) | HGetAll | HKeys | HLen | HVals
    | SCard | SIsMember(member: Bytes) | SMembers
    | ZCard | ZRange(start: i64, stop: i64, withScores: bool) | ZScore(member: Bytes)

  datatype WriteOp =
    | Append(suffix: Bytes) | IncrBy(delta: i64) | GetDel | Set(val: Bytes) | SetNX(val: Bytes)
    | LPop | LPush(vals: seq<Bytes>) | RPop | RPush(vals: seq<Bytes>)
    | HDel(fields: seq<Bytes>) | HSet(pairs: seq<(Bytes, Bytes)>)
    | SAdd(members: seq<Bytes>) | SRem(members: seq<Bytes>)
    | ZAdd(score: Score, member: Bytes) | ZRem(members: seq<Bytes>)

  datatype Cmd =
    | Echo(msg: Bytes)
    | Ping
    | Exists(keys: seq<Bytes>)
    | DbSize
    | Del(keys: seq<Bytes>)
    | Keys
    | Read(key: Bytes, rop: ReadOp)
    | Write(key: Bytes, wop: WriteOp)

  // ---- Replies ----

  const INVALID_MSG: Bytes := Ascii("INVALID Command format is ") + Ascii("invalid for this command")
  const WRONGTYPE_MSG: Bytes := Ascii("WRONGTYPE Operation against a key ") + Ascii("holding the wrong kind of value")
  const OOR_MSG: Bytes := Ascii("OUT OF RANGE Operation pushes ") + Ascii("value past 64-bit integer bounds")
  const NOTINTEGER_MSG: Bytes := Ascii("NOT INTEGER Target element ") + Ascii("cannot be converted to an integer")

  /** `static_cast<long long>` of a 64-bit count. */
  function CastI64(n: int): i64 {
    var m := n % 0x1_0000_0000_0000_0000;
    (if m <= I64_MAX then m else m - 0x1_0000_0000_0000_0000) as i64
  }

  function ErrorReply(e: DBError): RespValue {
    match e
    case WRONGTYPE => SimpleError(WRONGTYPE_MSG)
    case OUTOFRANGE => SimpleError(OOR_MSG)
    case NOTINTEGER => SimpleError(NOTINTEGER_MSG)
  }

  function Count(n: int): RespValue {
    Integer(CastI64(n))
  }

  function CountReply(r: DBResult<int>): RespValue {
    if r.Ok? then Count(r.value) else ErrorReply(r.error)
  }

  function OptBulk(x: Option<Bytes>): RespValue {
    if x.Some? then BulkString(x.value) else NullBulkString
  }

  function OptReply(r: DBResult<Option<Bytes>>): RespValue {
    if r.Ok? then OptBulk(r.value) else ErrorReply(r.error)
  }

  function Bulks(items: seq<Bytes>): seq<RespValue> {
    seq(|items|, i requires 0 <= i < |items| => BulkString(items[i]))
  }

  function BulkArray(items: seq<Bytes>): RespValue {
    Array(Bulks(items))
  }

  /** Two bulk strings per item: HGETALL, and ZRANGE WITHSCORES. */
  function Pairs(items: seq<(Bytes, Bytes)>): (r: seq<RespValue>)
    ensures |r| == 2 * |items|
  {
    seq(2 * |items|, i requires 0 <= i < 2 * |items| =>
      BulkString(if i % 2 == 0 then items[i / 2].0 else items[i / 2].1))
  }

  function FieldPairs(env: Env, fields: map<Bytes, Bytes>): seq<(Bytes, Bytes)> {
    var names := env.order(fields.Keys);
    seq(|names|, i requires 0 <= i < |names| => (names[i], if names[i] in fields then fields[names[i]] else []))
  }

  function RankMembers(ranks: seq<Rank>): seq<Bytes> {
    seq(|ranks|, i requires 0 <= i < |ranks| => ranks[i].member)
  }

  function RankPairs(env: Env, ranks: seq<Rank>): seq<(Bytes, Bytes)> {
    seq(|ranks|, i requires 0 <= i < |ranks| => (ranks[i].member, env.formatScore(ranks[i].score)))
  }

  function Seconds(pairs: seq<(Bytes, Bytes)>): seq<Bytes> {
    seq(|pairs|, i requires 0 <= i < |pairs| => pairs[i].1)
  }

  const WRONGTYPE_REPLY: RespValue := SimpleError(WRONGTYPE_MSG)

  function TypeName(v: Value): Bytes {
    match v
    case Str(_) => Ascii("String")
    case List(_) => Ascii("List")
    case Hash(_) => Ascii("Hash")
    case Set(_) => Ascii("Set")
    case SortedSet(_, _) => Ascii("Sorted Set")
  }

  // ---- Commands that only look at one key ----

  function ReadString(op: ReadOp, slot: Slot): RespValue
    requires op.Get? || op.StrLen?
  {
    match slot
    case None => if op.Get? then NullBulkString else Count(0)
    case Some(Str(text)) => if op.Get? then BulkString(text) else Count(|text|)
    case _ => WRONGTYPE_REPLY
  }

  function ReadList(op: ReadOp, slot: Slot): RespValue
    requires op.LIndex? || op.LLen? || op.LRange?
  {
    match op
    case LIndex(idx) => OptReply(Store.LIndex(slot, idx as int))
    case LRange(start, stop) =>
      var r := Store.LRange(slot, start as int, stop as int);
      if r.Ok? then BulkArray(r.value) else ErrorReply(r.error)
    case LLen => (
      match slot
      case None => Count(0)
      case Some(List(es)) => Count(|es|)
      case _ => WRONGTYPE_REPLY)
  }

  function ReadHash(env: Env, op: ReadOp, slot: Slot): RespValue
    requires op.HExists? || op.HGet? || op.HGetAll? || op.HKeys? || op.HLen? || op.HVals?
  {
    if slot.Some? && !slot.value.Hash? then WRONGTYPE_REPLY
    else
      var fields := if slot.None? then map[] else slot.value.fields;
      match op
      case HExists(f) => Integer(if f in fields then 1 else 0)
      case HGet(f) => if f in fields then BulkString(fields[f]) else NullBulkString
      case HGetAll => if slot.None? then Array([]) else Array(Pairs(FieldPairs(env, fields)))
      case HKeys => if slot.None? then Array([]) else BulkArray(env.order(fields.Keys))
      case HVals => if slot.None? then Array([]) else BulkArray(Seconds(FieldPairs(env, fields)))
      case HLen => Count(|fields|)
  }

  function ReadSet(env: Env, op: ReadOp, slot: Slot): RespValue
    requires op.SCard? || op.SIsMember? || op.SMembers?
  {
    if slot.Some? && !slot.value.Set? then WRONGTYPE_REPLY
    else
      var members := if slot.None? then {} else slot.value.members;
      match op
      case SCard => Count(|members|)
      case SIsMember(m) => Integer(if m in members then 1 else 0)
      case SMembers => if slot.None? then Array([]) else BulkArray(env.order(members))
  }

  function ReadSortedSet(env: Env, op: ReadOp, slot: Slot): RespValue
    requires op.ZCard? || op.ZRange? || op.ZScore?
  {
    match op
    case ZCard => (
      match slot
      case None => Count(0)
      case Some(SortedSet(scores, _)) => Count(|scores|)
      case _ => WRONGTYPE_REPLY)
    case ZRange(start, stop, withScores) =>
      var r := Store.ZRange(slot, start as int, stop as int);
      if r.Err? then ErrorReply(r.error)
      else if withScores then Array(Pairs(RankPairs(env, r.value)))
      else BulkArray(RankMembers(r.value))
    case ZScore(m) =>
      var r := Store.ZScore(slot, m);
      if r.Err? then ErrorReply(r.error)
      else if r.value.None? then NullBulkString
      else BulkString(env.formatScore(r.value.value))
  }

  function ReadReply(env: Env, op: ReadOp, slot: Slot): RespValue {
    if op.Type? then SimpleString(if slot.None? then Ascii("none") else TypeName(slot.value))
    else if op.Get? || op.StrLen? then ReadString(op, slot)
    else if op.LIndex? || op.LLen? || op.LRange? then ReadList(op, slot)
    else if op.SCard? || op.SIsMember? || op.SMembers? then ReadSet(env, op, slot)
    else if op.ZCard? || op.ZRange? || op.ZScore? then ReadSortedSet(env, op, slot)
    else ReadHash(env, op, slot)
  }

  // ---- Commands that may change one key ----

  predicate StringOp(op: WriteOp) {
    op.Append? || op.IncrBy? || op.GetDel? || op.Set? || op.SetNX?
  }

  predicate ListOp(op: WriteOp) {
    op.LPop? || op.RPop? || op.LPush? || op.RPush?
  }

  function ApplyString(op: WriteOp, slot: Slot): (Slot, RespValue)
    requires StringOp(op)
  {
    match op
    case Append(suffix) => var (s, r) := Store.Append(slot, suffix); (s, CountReply(r))
    case IncrBy(delta) =>
      var (s, r) := Store.IncrBy(slot, delta);
      (s, if r.Ok? then Integer(r.value) else ErrorReply(r.error))
    case GetDel => (
      match slot
      case None => (None, NullBulkString)
      case Some(Str(text)) => (None, BulkString(text))
      case _ => (slot, WRONGTYPE_REPLY))
    case Set(val) => (Some(Str(val)), SimpleString(Ascii("OK")))
    case SetNX(val) => if slot.Some? then (slot, Integer(0)) else (Some(Str(val)), Integer(1))
  }

  function ApplyList(op: WriteOp, slot: Slot): (Slot, RespValue)
    requires ListOp(op)
  {
    match op
    case LPop => var (s, r) := Store.LPop(slot); (s, OptReply(r))
    case RPop => var (s, r) := Store.RPop(slot); (s, OptReply(r))
    case LPush(vals) => var (s, r) := Store.LPush(slot, vals); (s, CountReply(r))
    case RPush(vals) => var (s, r) := Store.RPush(slot, vals); (s, CountReply(r))
  }

  /** Hashes, sets and sorted sets: every reply is a count. */
  ghost function ApplyCollection(op: WriteOp, slot: Slot): (Slot, DBResult<int>)
    requires !StringOp(op) && !ListOp(op)
  {
    match op
    case HDel(fields) => Store.HDel(slot, fields)
    case HSet(pairs) => Store.HSet(slot, pairs)
    case SAdd(members) => Store.SAdd(slot, members)
    case SRem(members) => Store.SRem(slot, members)
    case ZAdd(score, member) => Store.ZAdd(slot, score, member)
    case ZRem(members) => Store.ZRem(slot, members)
  }

  ghost function Apply(op: WriteOp, slot: Slot): (Slot, RespValue) {
    if StringOp(op) then ApplyString(op, slot)
    else if ListOp(op) then ApplyList(op, slot)
    else var (s, r) := ApplyCollection(op, slot); (s, CountReply(r))
  }

  // ---- Any command ----

  /** EXISTS counts a key once for every time it is named. */
  function CountPresent(db: DB, keys: seq<Bytes>): nat {
    if |keys| == 0 then 0
    else CountPresent(db, keys[..|keys| - 1]) + if keys[|keys| - 1] in db then 1 else 0
  }

  ghost function Exec(env: Env, db: DB, cmd: Cmd): (DB, RespValue) {
    match cmd
    case Echo(msg) => (db, BulkString(msg))
    case Ping => (db, SimpleString(Ascii("PONG")))
    case Exists(keys) => (db, Count(CountPresent(db, keys)))
    case DbSize => (db, Count(|db|))
    case Del(keys) => (db - ToSet(keys), Count(|db| - |db - ToSet(keys)|))
    case Keys => (db, BulkArray(env.order(db.Keys)))
    case Read(key, op) => (db, ReadReply(env, op, At(db, key)))
    case Write(key, op) => var (slot, reply) := Apply(op, At(db, key)); (Put(db, key, slot), reply)
  }

  // ---- From a RESP value to a command ----

  datatype Verb =
    | ECHO | PING | EXISTS | DBSIZE | DEL | KEYS | TYPE | APPEND | DECR | DECRBY | INCR | INCRBY
    | GET | GETDEL | SET | SETNX | STRLEN | LINDEX | LLEN | LPOP | LPUSH | LRANGE | RPOP | RPUSH
    | HDEL | HEXISTS | HGET | HGETALL | HKEYS | HLEN | HSET | HVALS | SADD | SCARD | SISMEMBER
    | SMEMBERS | SREM | ZADD | ZCARD | ZRANGE | ZREM | ZSCORE

  // The names and handlers of the handler map.

  function KeyHandlers(): seq<(string, Verb)> {
    [
      ("ECHO", ECHO), ("PING", PING), ("EXISTS", EXISTS), ("DBSIZE", DBSIZE), ("DEL", DEL), ("KEYS", KEYS),
      ("TYPE", TYPE)
    ]
  }

  function StringHandlers(): seq<(string, Verb)> {
    [
      ("APPEND", APPEND), ("DECR", DECR), ("DECRBY", DECRBY), ("INCR", INCR), ("INCRBY", INCRBY), ("GET", GET),
      ("GETDEL", GETDEL), ("SET", SET), ("SETNX", SETNX), ("STRLEN", STRLEN)
    ]
  }

  function ListHandlers(): seq<(string, Verb)> {
    [
      ("LINDEX", LINDEX), ("LLEN", LLEN), ("LPOP", LPOP), ("LPUSH", LPUSH), ("LRANGE", LRANGE), ("RPOP", RPOP),
      ("RPUSH", RPUSH)
    ]
  }

  function HashHandlers(): seq<(string, Verb)> {
    [
      ("HDEL", HDEL), ("HEXISTS", HEXISTS), ("HGET", HGET), ("HGETALL", HGETALL), ("HKEYS", HKEYS),
      ("HLEN", HLEN), ("HSET", HSET), ("HVALS", HVALS)
    ]
  }

  function SetHandlers(): seq<(string, Verb)> {
    [
      ("SADD", SADD), ("SCARD", SCARD), ("SISMEMBER", SISMEMBER), ("SMEMBERS", SMEMBERS), ("SREM", SREM)
    ]
  }

  function SortedSetHandlers(): seq<(string, Verb)> {
    [("ZADD", ZADD), ("ZCARD", ZCARD), ("ZRANGE", ZRANGE), ("ZREM", ZREM), ("ZSCORE", ZSCORE)]
  }

  function Handlers(): seq<(string, Verb)> {
    KeyHandlers() + StringHandlers() + ListHandlers() + HashHandlers() + SetHandlers() + SortedSetHandlers()
  }

  function LookupIn(table: seq<(string, Verb)>, name: Bytes): Option<Verb> {
    if |table| == 0 then None
    else if name == Ascii(table[0].0) then Some(table[0].1)
    else LookupIn(table[1..], name)
  }

  function Lookup(name: Bytes): Option<Verb> {
    LookupIn(Handlers(), name)
  }

  /** `std::toupper` in the "C" locale, byte by byte. */
  function UpperByte(b: byte): byte {
    if 97 <= b <= 122 then b - 32 else b
  }

  function Upper(s: Bytes): Bytes {
    seq(|s|, i requires 0 <= i < |s| => UpperByte(s[i]))
  }

  /** The argument counts each handler accepts, the verb included. */
  predicate ArityOk(verb: Verb, n: nat) {
    match verb
    case DBSIZE => n == 1
    case PING => n == 1 || n == 2
    case ECHO | KEYS | TYPE | DECR | INCR | GET | GETDEL | STRLEN | LLEN | LPOP | RPOP => n == 2
    case HGETALL | HKEYS | HLEN | HVALS | SCARD | SMEMBERS | ZCARD => n == 2
    case APPEND | DECRBY | INCRBY | SET | SETNX | LINDEX | HEXISTS | HGET | SISMEMBER | ZSCORE => n == 3
    case LRANGE | ZADD => n == 4
    case ZRANGE => n == 4 || n == 5
    case EXISTS | DEL => n >= 2
    case LPUSH | RPUSH | HDEL | SADD | SREM | ZREM => n >= 3
    case HSET => n >= 4 && (n - 2) % 2 == 0
  }

  datatype Request = Reject(reply: RespValue) | Accept(cmd: Cmd)

  function PairUp(s: seq<Bytes>): (r: seq<(Bytes, Bytes)>)
    requires |s| % 2 == 0
    ensures |r| == |s| / 2
  {
    seq(|s| / 2, i requires 0 <= i < |s| / 2 => (s[2 * i], s[2 * i + 1]))
  }

  const INVALID_REQUEST: Request := Reject(SimpleError(INVALID_MSG))
  const NOTINTEGER_REQUEST: Request := Reject(SimpleError(NOTINTEGER_MSG))

  predicate Numeric(verb: Verb) {
    verb.INCRBY? || verb.DECRBY? || verb.LINDEX? || verb.LRANGE? || verb.ZADD? || verb.ZRANGE?
  }

  /** The key-only and value commands, whose arguments need no conversion. */
  function ParsePlain(verb: Verb, args: seq<Bytes>): Request
    requires |args| > 0 && ArityOk(verb, |args|)
    requires !Numeric(verb)
  {
    match verb
    case ECHO => Accept(Echo(args[1]))
    case PING => Accept(if |args| == 1 then Ping else Echo(args[1]))
    case EXISTS => Accept(Exists(args[1..]))
    case DBSIZE => Accept(DbSize)
    case DEL => Accept(Del(args[1..]))
    case KEYS => Accept(Keys)
    case TYPE => Accept(Read(args[1], Type))
    case GET => Accept(Read(args[1], Get))
    case STRLEN => Accept(Read(args[1], StrLen))
    case LLEN => Accept(Read(args[1], LLen))
    case HEXISTS => Accept(Read(args[1], HExists(args[2])))
    case HGET => Accept(Read(args[1], HGet(args[2])))
    case HGETALL => Accept(Read(args[1], HGetAll))
    case HKEYS => Accept(Read(args[1], HKeys))
    case HLEN => Accept(Read(args[1], HLen))
    case HVALS => Accept(Read(args[1], HVals))
    case SCARD => Accept(Read(args[1], SCard))
    case SISMEMBER => Accept(Read(args[1], SIsMember(args[2])))
    case SMEMBERS => Accept(Read(args[1], SMembers))
    case ZCARD => Accept(Read(args[1], ZCard))
    case ZSCORE => Accept(Read(args[1], ZScore(args[2])))
    case APPEND => Accept(Write(args[1], Append(args[2])))
    case DECR => Accept(Write(args[1], IncrBy(-1)))
    case INCR => Accept(Write(args[1], IncrBy(1)))
    case GETDEL => Accept(Write(args[1], GetDel))
    case SET => Accept(Write(args[1], WriteOp.Set(args[2])))
    case SETNX => Accept(Write(args[1], SetNX(args[2])))
    case LPOP => Accept(Write(args[1], LPop))
    case RPOP => Accept(Write(args[1], RPop))
    case LPUSH => Accept(Write(args[1], LPush(args[2..])))
    case RPUSH => Accept(Write(args[1], RPush(args[2..])))
    case HDEL => Accept(Write(args[1], HDel(args[2..])))
    case HSET => Accept(Write(args[1], HSet(PairUp(args[2..]))))
    case SADD => Accept(Write(args[1], SAdd(args[2..])))
    case SREM => Accept(Write(args[1], SRem(args[2..])))
    case ZREM => Accept(Write(args[1], ZRem(args[2..])))
  }

  /** The commands with a number or a score among their arguments. */
  function ParseNumeric(env: Env, verb: Verb, args: seq<Bytes>): Request
    requires |args| > 0 && ArityOk(verb, |args|)
    requires Numeric(verb)
  {
    if verb.ZADD? then
      var score := env.parseScore(args[2]);
      if score.None? then NOTINTEGER_REQUEST else Accept(Write(args[1], ZAdd(score.value, args[3])))
    else if verb.ZRANGE? && |args| == 5 && Upper(args[4]) != Ascii("WITHSCORES") then INVALID_REQUEST
    else
      var n := ParseLL(args[2]);
      if !n.Parsed? then NOTINTEGER_REQUEST
      else if verb.INCRBY? then Accept(Write(args[1], IncrBy(n.val)))
      else if verb.DECRBY? then
          // Negating the smallest integer is guarded against.
          if n.val as int == I64_MIN then Reject(SimpleError(OOR_MSG)) else Accept(Write(args[1], IncrBy(-n.val)))
        else if verb.LINDEX? then Accept(Read(args[1], LIndex(n.val)))
        else
          var m := ParseLL(args[3]);
          if !m.Parsed? then NOTINTEGER_REQUEST
          else if verb.LRANGE? then Accept(Read(args[1], LRange(n.val, m.val)))
          else Accept(Read(args[1], ZRange(n.val, m.val, |args| == 5)))
  }

  function ParseArgs(env: Env, verb: Verb, args: seq<Bytes>): Request
    requires |args| > 0
  {
    if !ArityOk(verb, |args|) then INVALID_REQUEST
    else if Numeric(verb) then ParseNumeric(env, verb, args)
    else ParsePlain(verb, args)
  }

  /** A command is a non-empty array of bulk strings. */
  predicate IsCommand(v: RespValue) {
    v.Array? && |v.vals| > 0 && forall i :: 0 <= i < |v.vals| ==> v.vals[i].BulkString?
  }

  function Args(v: RespValue): (r: seq<Bytes>)
    requires IsCommand(v)
    ensures |r| == |v.vals|
  {
    seq(|v.vals|, i requires 0 <= i < |v.vals| => v.vals[i].msg)
  }

  function UnknownCommand(name: Bytes): Bytes {
    Ascii("ERR unknown command '") + name + Ascii("'")
  }

  function ParseCommand(env: Env, v: RespValue): Request {
    if !IsCommand(v) then INVALID_REQUEST
    else
      var args := Args(v);
      var verb := Lookup(Upper(args[0]));
      if verb.None? then Reject(SimpleError(UnknownCommand(Upper(args[0]))))
      else ParseArgs(env, verb.value, args)
  }

  /** `dispatch`: every refusal leaves the database alone. */
  ghost function Dispatch(env: Env, db: DB, v: RespValue): (DB, RespValue) {
    match ParseCommand(env, v)
    case Reject(reply) => (db, reply)
    case Accept(cmd) => Exec(env, db, cmd)
  }
}
