/**
  What a client is answered, and what its request leaves stored: the commands on any key and on strings,
  and every refusal. The laws speak of requests, bytes, numbers and stored values only.
*/
module Answers {
  import opened Options
  import opened ByteStrings
  import opened Decimal
  import opened RespValues
  import opened Ranks
  import opened Protocol
  import opened Grammar
  import opened Store
  import opened Commands
  import opened DispatchLaws
  import opened Requests

  // ---- Outcomes ----

  predicate Spelt(b: Bytes, text: string) {
    |b| == |text| && forall i :: 0 <= i < |b| ==> b[i] as int == text[i] as int
  }

  predicate Says(reply: RespValue, text: string) {
    reply.SimpleString? && Spelt(reply.msg, text)
  }

  /** An error with this text, and nothing changed. */
  predicate Refused(db: DB, out: (DB, RespValue), text: string) {
    out.0 == db && out.1.SimpleError? && Spelt(out.1.msg, text)
  }

  const INVALID_TEXT := "INVALID Command format is " + "invalid for this command"
  const WRONGTYPE_TEXT := "WRONGTYPE Operation against a key " + "holding the wrong kind of value"
  const OUTOFRANGE_TEXT := "OUT OF RANGE Operation pushes " + "value past 64-bit integer bounds"
  const NOTINTEGER_TEXT := "NOT INTEGER Target element " + "cannot be converted to an integer"

  /** The integer `n`, as long as it fits 64 bits. */
  predicate Counted(reply: RespValue, n: int) {
    reply.Integer? && (Fits64(n) ==> reply.val as int == n)
  }

  /** An array of these bulk strings. */
  predicate Lists(reply: RespValue, items: seq<Bytes>) {
    reply.Array? && |reply.vals| == |items| && forall i :: 0 <= i < |items| ==> reply.vals[i] == BulkString(items[i])
  }

  /** An array of bulk strings that are exactly the elements of the set, each once, in some order. */
  ghost predicate ListsSet(reply: RespValue, items: set<Bytes>) {
    exists walk :: Lists(reply, walk) && |walk| == |items| && forall x :: x in walk <==> x in items
  }

  lemma SpeltAscii(text: string)
    requires Printable(text)
    ensures Spelt(Ascii(text), text)
  {
  }

  lemma SpeltJoin(a: string, b: string)
    requires Printable(a) && Printable(b)
    ensures Spelt(Ascii(a) + Ascii(b), a + b)
  {
  }

  lemma Texts()
    ensures Spelt(INVALID_MSG, INVALID_TEXT) && Spelt(WRONGTYPE_MSG, WRONGTYPE_TEXT)
    ensures Spelt(OOR_MSG, OUTOFRANGE_TEXT) && Spelt(NOTINTEGER_MSG, NOTINTEGER_TEXT)
  {
    InvalidSpelt();
    WrongTypeSpelt();
    OutOfRangeSpelt();
    NotIntegerSpelt();
  }

  lemma InvalidSpelt()
    ensures Spelt(INVALID_MSG, INVALID_TEXT)
  {
    hide Ascii, Spelt;
    SpeltJoin("INVALID Command format is ", "invalid for this command");
  }

  lemma WrongTypeSpelt()
    ensures Spelt(WRONGTYPE_MSG, WRONGTYPE_TEXT)
  {
    hide Ascii, Spelt;
    SpeltJoin("WRONGTYPE Operation against a key ", "holding the wrong kind of value");
  }

  lemma OutOfRangeSpelt()
    ensures Spelt(OOR_MSG, OUTOFRANGE_TEXT)
  {
    hide Ascii, Spelt;
    SpeltJoin("OUT OF RANGE Operation pushes ", "value past 64-bit integer bounds");
  }

  lemma NotIntegerSpelt()
    ensures Spelt(NOTINTEGER_MSG, NOTINTEGER_TEXT)
  {
    hide Ascii, Spelt;
    SpeltJoin("NOT INTEGER Target element ", "cannot be converted to an integer");
  }

  lemma CountIs(n: int)
    ensures Counted(Count(n), n)
  {
  }

  // ---- Refusals ----

  /** How many arguments a command takes after its name. */
  predicate Takes(verb: Verb, n: nat) {
    match verb
    case DBSIZE => n == 0
    case PING => n <= 1
    case ECHO | KEYS | TYPE | DECR | INCR | GET | GETDEL | STRLEN | LLEN | LPOP | RPOP => n == 1
    case HGETALL | HKEYS | HLEN | HVALS | SCARD | SMEMBERS | ZCARD => n == 1
    case APPEND | DECRBY | INCRBY | SET | SETNX | LINDEX | HEXISTS | HGET | SISMEMBER | ZSCORE => n == 2
    case LRANGE | ZADD => n == 3
    case ZRANGE => n == 3 || n == 4
    case EXISTS | DEL => n >= 1
    case LPUSH | RPUSH | HDEL | SADD | SREM | ZREM => n >= 2
    case HSET => n >= 3 && n % 2 == 1
  }

  lemma TakesIff(verb: Verb, n: nat)
    ensures Takes(verb, n) <==> ArityOk(verb, 1 + n)
  {
  }

  /** Anything but a non-empty array of bulk strings is refused. */
  lemma MalformedRefused(env: Env, db: DB, v: RespValue)
    requires Malformed(v)
    ensures Refused(db, Dispatch(env, db, v), INVALID_TEXT)
  {
    hide INVALID_MSG, Spelt;
    InvalidSpelt();
  }

  /** A name no command has is echoed, in capitals. */
  lemma UnheardRefused(env: Env, db: DB, v: RespValue) returns (lead: Bytes, capitals: Bytes)
    requires Unheard(v)
    ensures Dispatch(env, db, v) == (db, SimpleError(lead + capitals + [39])) && Spelt(lead, "ERR unknown command '")
    ensures var name := v.vals[0].msg;
      |capitals| == |name| && forall i :: 0 <= i < |name| ==>
        capitals[i] as int == if 97 <= name[i] as int <= 122 then name[i] as int - 32 else name[i] as int
  {
    hide Lookup, NameOf, SameLetters, Printable;
    var name := v.vals[0].msg;
    lead, capitals := Ascii("ERR unknown command '"), Upper(name);
    QuoteSpelt();
    assert Args(v)[0] == name;
    if Lookup(Upper(name)).Some? {
      LookupIff(name, Lookup(Upper(name)).value);
    }
  }

  lemma QuoteSpelt()
    ensures Spelt(Ascii("ERR unknown command '"), "ERR unknown command '") && Ascii("'") == [39]
  {
    SpeltAscii("ERR unknown command '");
  }

  lemma WrongCountRefused(env: Env, db: DB, v: RespValue, verb: Verb, args: seq<Bytes>)
    requires Asks(v, verb, args) && !Takes(verb, |args|)
    ensures Refused(db, Dispatch(env, db, v), INVALID_TEXT)
  {
    hide Asks, ParseCommand, INVALID_MSG, Spelt, Takes, ArityOk;
    var all := Asked(env, v, verb, args);
    TakesIff(verb, |args|);
    InvalidSpelt();
  }

  /** The whole argument is a decimal number of 64 bits. */
  ghost predicate IsNumber(arg: Bytes, n: int) {
    Reads(arg, n, []) && Fits64(n)
  }

  ghost predicate NoNumber(arg: Bytes) {
    forall n :: !IsNumber(arg, n)
  }

  lemma NumberIff(arg: Bytes, n: int)
    ensures IsNumber(arg, n) <==> ParseLL(arg).Parsed? && ParseLL(arg).val as int == n
  {
    hide Reads, ParseLL;
    ParseLLExactly(arg, n);
  }

  lemma NoNumberIff(arg: Bytes)
    ensures NoNumber(arg) <==> !ParseLL(arg).Parsed?
  {
    hide IsNumber, ParseLL;
    forall n
      ensures IsNumber(arg, n) <==> ParseLL(arg).Parsed? && ParseLL(arg).val as int == n
    {
      NumberIff(arg, n);
    }
    if ParseLL(arg).Parsed? {
      assert IsNumber(arg, ParseLL(arg).val as int);
    }
  }

  /** Is this the option of ZRANGE, in any letter case? */
  predicate IsWithScores(arg: Bytes) {
    SameLetters(arg, "WITHSCORES")
  }

  lemma WithScoresIff(arg: Bytes)
    ensures IsWithScores(arg) <==> Upper(arg) == Ascii("WITHSCORES")
  {
    hide SameLetters, Upper, Ascii;
    UpperIff(arg, "WITHSCORES");
  }

  /** An argument that should be a number and is none. */
  ghost predicate BadNumber(env: Env, verb: Verb, args: seq<Bytes>)
    requires Takes(verb, |args|)
  {
    match verb
    case INCRBY | DECRBY | LINDEX => NoNumber(args[1])
    case LRANGE => NoNumber(args[1]) || NoNumber(args[2])
    case ZRANGE => NoNumber(args[1]) || NoNumber(args[2])
    case ZADD => env.parseScore(args[1]).None?
    case _ => false
  }

  predicate BadOption(verb: Verb, args: seq<Bytes>) {
    verb.ZRANGE? && |args| == 4 && !IsWithScores(args[3])
  }

  lemma BadNumberRefused(env: Env, db: DB, v: RespValue, verb: Verb, args: seq<Bytes>)
    requires Asks(v, verb, args) && Takes(verb, |args|) && BadNumber(env, verb, args) && !BadOption(verb, args)
    ensures Refused(db, Dispatch(env, db, v), NOTINTEGER_TEXT)
  {
    hide Asks, ParseCommand, NOTINTEGER_MSG, Spelt, ParseLL, NoNumber, Upper, Ascii, IsWithScores;
    var all := Asked(env, v, verb, args);
    assert |args| >= 2 ==> all[1 + 1] == args[1];
    assert |args| >= 3 ==> all[1 + 2] == args[2];
    assert |args| >= 4 ==> all[1 + 3] == args[3];
    TakesIff(verb, |args|);
    NotIntegerSpelt();
    forall a
      ensures NoNumber(a) <==> !ParseLL(a).Parsed?
    {
      NoNumberIff(a);
    }
    if |args| == 4 {
      WithScoresIff(args[3]);
    }
  }

  lemma BadOptionRefused(env: Env, db: DB, v: RespValue, args: seq<Bytes>)
    requires Asks(v, ZRANGE, args) && BadOption(ZRANGE, args)
    ensures Refused(db, Dispatch(env, db, v), INVALID_TEXT)
  {
    hide Asks, ParseCommand, INVALID_MSG, Spelt, ParseLL, Upper, Ascii, IsWithScores;
    var all := Asked(env, v, ZRANGE, args);
    InvalidSpelt();
    WithScoresIff(args[3]);
    assert all[1 + 3] == args[3];
  }

  // ---- Keys of another type ----

  predicate OnStrings(verb: Verb) {
    || verb.APPEND? || verb.DECR? || verb.DECRBY? || verb.INCR? || verb.INCRBY? || verb.GET? || verb.GETDEL?
    || verb.STRLEN?
  }

  predicate OnLists(verb: Verb) {
    || verb.LINDEX? || verb.LLEN? || verb.LPOP? || verb.LPUSH? || verb.LRANGE? || verb.RPOP? || verb.RPUSH?
  }

  predicate OnHashes(verb: Verb) {
    || verb.HDEL? || verb.HEXISTS? || verb.HGET? || verb.HGETALL? || verb.HKEYS? || verb.HLEN? || verb.HSET?
    || verb.HVALS?
  }

  predicate OnSets(verb: Verb) {
    verb.SADD? || verb.SCARD? || verb.SISMEMBER? || verb.SMEMBERS? || verb.SREM?
  }

  predicate OnSortedSets(verb: Verb) {
    verb.ZADD? || verb.ZCARD? || verb.ZRANGE? || verb.ZREM? || verb.ZSCORE?
  }

  /** The command works on one type and the value is of another. */
  predicate WrongKind(verb: Verb, value: Value) {
    || (OnStrings(verb) && !value.Str?)
    || (OnLists(verb) && !value.List?)
    || (OnHashes(verb) && !value.Hash?)
    || (OnSets(verb) && !value.Set?)
    || (OnSortedSets(verb) && !value.SortedSet?)
  }

  /** Count, numbers and option are right; the smallest integer is refused by DECRBY before the key is looked at. */
  ghost predicate Understood(env: Env, verb: Verb, args: seq<Bytes>) {
    && Takes(verb, |args|) && !BadNumber(env, verb, args) && !BadOption(verb, args)
    && (verb.DECRBY? ==> !IsNumber(args[1], -0x8000_0000_0000_0000))
  }

  /** What the dispatcher makes of an argument list that is understood. */
  lemma Converted(env: Env, v: RespValue, verb: Verb, args: seq<Bytes>) returns (all: seq<Bytes>)
    requires Asks(v, verb, args) && Understood(env, verb, args)
    ensures |all| == 1 + |args| && all[1..] == args && forall i :: 0 <= i < |args| ==> all[1 + i] == args[i]
    ensures ArityOk(verb, |all|)
    ensures ParseCommand(env, v) == if Numeric(verb) then ParseNumeric(env, verb, all) else ParsePlain(verb, all)
    ensures Numeric(verb) ==> ParseNumeric(env, verb, all).Accept?
  {
    hide Asks, ParseCommand, ParseLL, NoNumber, Upper, Ascii, IsWithScores, ParsePlain, IsNumber;
    all := Asked(env, v, verb, args);
    assert |args| >= 2 ==> all[1 + 1] == args[1];
    assert |args| >= 3 ==> all[1 + 2] == args[2];
    assert |args| >= 4 ==> all[1 + 3] == args[3];
    TakesIff(verb, |args|);
    forall a
      ensures NoNumber(a) <==> !ParseLL(a).Parsed?
    {
      NoNumberIff(a);
    }
    if |args| == 4 {
      WithScoresIff(args[3]);
    }
    if verb.DECRBY? {
      NumberIff(args[1], -0x8000_0000_0000_0000);
    }
  }

  predicate ReadsKind(verb: Verb, op: ReadOp) {
    && (OnStrings(verb) ==> op.Get? || op.StrLen?)
    && (OnLists(verb) ==> op.LIndex? || op.LLen? || op.LRange?)
    && (OnHashes(verb) ==> op.HExists? || op.HGet? || op.HGetAll? || op.HKeys? || op.HLen? || op.HVals?)
    && (OnSets(verb) ==> op.SCard? || op.SIsMember? || op.SMembers?)
    && (OnSortedSets(verb) ==> op.ZCard? || op.ZRange? || op.ZScore?)
  }

  predicate WritesKind(verb: Verb, op: WriteOp) {
    && (OnStrings(verb) ==> op.Append? || op.IncrBy? || op.GetDel?)
    && (OnLists(verb) ==> ListOp(op))
    && (OnHashes(verb) ==> op.HDel? || op.HSet?)
    && (OnSets(verb) ==> op.SAdd? || op.SRem?)
    && (OnSortedSets(verb) ==> op.ZAdd? || op.ZRem?)
  }

  predicate HasKind(verb: Verb) {
    OnStrings(verb) || OnLists(verb) || OnHashes(verb) || OnSets(verb) || OnSortedSets(verb)
  }

  predicate OfKind(verb: Verb, key: Bytes, p: Request) {
    && p.Accept?
    && ((p.cmd.Read? && p.cmd.key == key && ReadsKind(verb, p.cmd.rop))
        || (p.cmd.Write? && p.cmd.key == key && WritesKind(verb, p.cmd.wop)))
  }

  lemma PlainOfKind(verb: Verb, all: seq<Bytes>)
    requires |all| > 0 && ArityOk(verb, |all|) && !Numeric(verb) && HasKind(verb)
    ensures OfKind(verb, all[1], ParsePlain(verb, all))
  {
    hide ParsePlain, OfKind, ArityOk;
    if OnStrings(verb) || OnLists(verb) {
      TextOrListKind(verb, all);
    } else if OnHashes(verb) {
      HashKind(verb, all);
    } else {
      SetKind(verb, all);
    }
  }

  lemma TextOrListKind(verb: Verb, all: seq<Bytes>)
    requires |all| > 0 && ArityOk(verb, |all|) && !Numeric(verb) && (OnStrings(verb) || OnLists(verb))
    ensures OfKind(verb, all[1], ParsePlain(verb, all))
  {
  }

  lemma HashKind(verb: Verb, all: seq<Bytes>)
    requires |all| > 0 && ArityOk(verb, |all|) && !Numeric(verb) && OnHashes(verb)
    ensures OfKind(verb, all[1], ParsePlain(verb, all))
  {
    hide PairUp;
  }

  lemma SetKind(verb: Verb, all: seq<Bytes>)
    requires |all| > 0 && ArityOk(verb, |all|) && !Numeric(verb) && (OnSets(verb) || OnSortedSets(verb))
    ensures OfKind(verb, all[1], ParsePlain(verb, all))
  {
  }

  lemma NumericOfKind(env: Env, verb: Verb, all: seq<Bytes>)
    requires |all| > 0 && ArityOk(verb, |all|) && Numeric(verb) && ParseNumeric(env, verb, all).Accept?
    ensures OfKind(verb, all[1], ParseNumeric(env, verb, all))
  {
    hide ParseLL, Upper, Ascii, INVALID_MSG, NOTINTEGER_MSG, OOR_MSG;
  }

  lemma ReadOfWrongKind(env: Env, verb: Verb, op: ReadOp, value: Value)
    requires ReadsKind(verb, op) && WrongKind(verb, value)
    ensures ReadReply(env, op, Some(value)) == SimpleError(WRONGTYPE_MSG)
  {
    hide WRONGTYPE_MSG;
  }

  lemma WriteOfWrongKind(verb: Verb, op: WriteOp, value: Value)
    requires WritesKind(verb, op) && WrongKind(verb, value)
    ensures Apply(op, Some(value)) == (Some(value), SimpleError(WRONGTYPE_MSG))
  {
    hide WRONGTYPE_MSG;
  }

  /** A command of one type on a key of another is refused and changes nothing. */
  lemma WrongKindRefused(env: Env, db: DB, v: RespValue, verb: Verb, args: seq<Bytes>)
    requires Asks(v, verb, args) && Understood(env, verb, args)
    requires |args| > 0 && args[0] in db && WrongKind(verb, db[args[0]])
    ensures Refused(db, Dispatch(env, db, v), WRONGTYPE_TEXT)
  {
    hide Asks, Understood, ParseCommand, ParsePlain, ParseNumeric, ReadReply, Apply, Spelt, ReadsKind, WritesKind;
    hide WRONGTYPE_MSG;
    var all := Converted(env, v, verb, args);
    assert all[1 + 0] == args[0];
    var value := db[args[0]];
    if Numeric(verb) {
      NumericOfKind(env, verb, all);
    } else {
      PlainOfKind(verb, all);
    }
    WrongTypeSpelt();
    var cmd := ParseCommand(env, v).cmd;
    if cmd.Read? {
      RunsRead(env, db, v, args[0], cmd.rop);
      ReadOfWrongKind(env, verb, cmd.rop, value);
    } else {
      RunsWrite(env, db, v, args[0], cmd.wop);
      WriteOfWrongKind(verb, cmd.wop, value);
      PutSame(db, args[0]);
    }
  }

  /** Of a command without numbers among its arguments. */
  lemma Plain(env: Env, v: RespValue, verb: Verb, args: seq<Bytes>) returns (all: seq<Bytes>)
    requires Asks(v, verb, args) && Takes(verb, |args|) && !Numeric(verb)
    ensures |all| == 1 + |args| && all[1..] == args && forall i :: 0 <= i < |args| ==> all[1 + i] == args[i]
    ensures ArityOk(verb, |all|) && ParseCommand(env, v) == ParsePlain(verb, all)
  {
    hide Asks, ParseCommand, ParsePlain;
    all := Asked(env, v, verb, args);
    TakesIff(verb, |args|);
  }

  // Which operation a request without numbers stands for, by the shape of its arguments.

  function ByKey(verb: Verb): Option<ReadOp> {
    match verb
    case TYPE => Some(ReadOp.Type)
    case GET => Some(ReadOp.Get)
    case STRLEN => Some(ReadOp.StrLen)
    case LLEN => Some(ReadOp.LLen)
    case HGETALL => Some(ReadOp.HGetAll)
    case HKEYS => Some(ReadOp.HKeys)
    case HLEN => Some(ReadOp.HLen)
    case HVALS => Some(ReadOp.HVals)
    case SCARD => Some(ReadOp.SCard)
    case SMEMBERS => Some(ReadOp.SMembers)
    case ZCARD => Some(ReadOp.ZCard)
    case _ => None
  }

  function ByMember(verb: Verb, m: Bytes): Option<ReadOp> {
    match verb
    case HEXISTS => Some(ReadOp.HExists(m))
    case HGET => Some(ReadOp.HGet(m))
    case SISMEMBER => Some(ReadOp.SIsMember(m))
    case ZSCORE => Some(ReadOp.ZScore(m))
    case _ => None
  }

  function Taking(verb: Verb): Option<WriteOp> {
    match verb
    case DECR => Some(WriteOp.IncrBy(-1))
    case INCR => Some(WriteOp.IncrBy(1))
    case GETDEL => Some(WriteOp.GetDel)
    case LPOP => Some(WriteOp.LPop)
    case RPOP => Some(WriteOp.RPop)
    case _ => None
  }

  function Giving(verb: Verb, val: Bytes): Option<WriteOp> {
    match verb
    case APPEND => Some(WriteOp.Append(val))
    case SET => Some(WriteOp.Set(val))
    case SETNX => Some(WriteOp.SetNX(val))
    case _ => None
  }

  function GivingMany(verb: Verb, vals: seq<Bytes>): Option<WriteOp> {
    match verb
    case LPUSH => Some(WriteOp.LPush(vals))
    case RPUSH => Some(WriteOp.RPush(vals))
    case HDEL => Some(WriteOp.HDel(vals))
    case SADD => Some(WriteOp.SAdd(vals))
    case SREM => Some(WriteOp.SRem(vals))
    case ZREM => Some(WriteOp.ZRem(vals))
    case _ => None
  }

  lemma AsksByKey(env: Env, db: DB, v: RespValue, verb: Verb, key: Bytes)
    requires Asks(v, verb, [key]) && ByKey(verb).Some?
    ensures Dispatch(env, db, v) == (db, ReadReply(env, ByKey(verb).value, At(db, key)))
  {
    hide Asks, ParseCommand, Dispatch, ReadReply, At;
    var all := Plain(env, v, verb, [key]);
    assert all[1 + 0] == key;
    RunsRead(env, db, v, key, ByKey(verb).value);
  }

  lemma AsksByMember(env: Env, db: DB, v: RespValue, verb: Verb, key: Bytes, m: Bytes)
    requires Asks(v, verb, [key, m]) && ByMember(verb, m).Some?
    ensures Dispatch(env, db, v) == (db, ReadReply(env, ByMember(verb, m).value, At(db, key)))
  {
    hide Asks, ParseCommand, Dispatch, ReadReply, At;
    var all := Plain(env, v, verb, [key, m]);
    assert all[1 + 0] == key && all[1 + 1] == m;
    RunsRead(env, db, v, key, ByMember(verb, m).value);
  }

  /** What a write leaves and answers. */
  ghost function Written(db: DB, key: Bytes, op: WriteOp): (DB, RespValue) {
    (Put(db, key, Apply(op, At(db, key)).0), Apply(op, At(db, key)).1)
  }

  lemma AsksTaking(env: Env, db: DB, v: RespValue, verb: Verb, key: Bytes)
    requires Asks(v, verb, [key]) && Taking(verb).Some?
    ensures Dispatch(env, db, v) == Written(db, key, Taking(verb).value)
  {
    hide Asks, ParseCommand, Dispatch, Apply, At, Put;
    var all := Plain(env, v, verb, [key]);
    assert all[1 + 0] == key;
    RunsWrite(env, db, v, key, Taking(verb).value);
  }

  lemma AsksGiving(env: Env, db: DB, v: RespValue, verb: Verb, key: Bytes, val: Bytes)
    requires Asks(v, verb, [key, val]) && Giving(verb, val).Some?
    ensures Dispatch(env, db, v) == Written(db, key, Giving(verb, val).value)
  {
    hide Asks, ParseCommand, Dispatch, Apply, At, Put;
    var all := Plain(env, v, verb, [key, val]);
    assert all[1 + 0] == key && all[1 + 1] == val;
    RunsWrite(env, db, v, key, Giving(verb, val).value);
  }

  lemma AsksGivingMany(env: Env, db: DB, v: RespValue, verb: Verb, key: Bytes, vals: seq<Bytes>)
    requires Asks(v, verb, [key] + vals) && vals != [] && GivingMany(verb, vals).Some?
    ensures Dispatch(env, db, v) == Written(db, key, GivingMany(verb, vals).value)
  {
    hide Asks, ParseCommand, Dispatch, Apply, At, Put;
    var all := Plain(env, v, verb, [key] + vals);
    assert all[1 + 0] == key && all[2..] == all[1..][1..] == vals;
    RunsWrite(env, db, v, key, GivingMany(verb, vals).value);
  }

  lemma AsksPairs(env: Env, db: DB, v: RespValue, key: Bytes, flat: seq<Bytes>)
    requires Asks(v, HSET, [key] + flat) && flat != [] && |flat| % 2 == 0
    ensures Dispatch(env, db, v) == Written(db, key, WriteOp.HSet(PairUp(flat)))
  {
    hide Asks, ParseCommand, Dispatch, Apply, At, Put, PairUp;
    var all := Plain(env, v, HSET, [key] + flat);
    assert all[1 + 0] == key && all[2..] == all[1..][1..] == flat;
    RunsWrite(env, db, v, key, WriteOp.HSet(PairUp(flat)));
  }

  lemma AsksScored(env: Env, db: DB, v: RespValue, key: Bytes, arg: Bytes, score: Score, member: Bytes)
    requires Asks(v, ZADD, [key, arg, member]) && env.parseScore(arg) == Some(score)
    ensures Dispatch(env, db, v) == Written(db, key, WriteOp.ZAdd(score, member))
  {
    hide Asks, ParseCommand, Dispatch, Apply, At, Put, ParseLL, Upper, Ascii;
    var all := Asked(env, v, ZADD, [key, arg, member]);
    assert all[1 + 0] == key && all[1 + 1] == arg && all[1 + 2] == member;
    RunsWrite(env, db, v, key, WriteOp.ZAdd(score, member));
  }

  lemma AsksIndex(env: Env, db: DB, v: RespValue, key: Bytes, a: Bytes, i: int)
    requires Asks(v, LINDEX, [key, a]) && IsNumber(a, i)
    ensures InI64(i) && Dispatch(env, db, v) == (db, ReadReply(env, ReadOp.LIndex(i as i64), At(db, key)))
  {
    hide Asks, ParseCommand, Dispatch, ReadReply, At, ParseLL, Upper, Ascii, Reads;
    var all := Asked(env, v, LINDEX, [key, a]);
    assert all[1 + 0] == key && all[1 + 1] == a;
    NumberIff(a, i);
    RunsRead(env, db, v, key, ReadOp.LIndex(i as i64));
  }

  lemma AsksRange(env: Env, db: DB, v: RespValue, verb: Verb, args: seq<Bytes>, start: int, stop: int)
    requires Asks(v, verb, args) && (verb.LRANGE? || verb.ZRANGE?) && Takes(verb, |args|) && !BadOption(verb, args)
    requires IsNumber(args[1], start) && IsNumber(args[2], stop)
    ensures InI64(start) && InI64(stop)
    ensures verb.LRANGE? ==>
      Dispatch(env, db, v) == (db, ReadReply(env, ReadOp.LRange(start as i64, stop as i64), At(db, args[0])))
    ensures verb.ZRANGE? ==>
      var op := ReadOp.ZRange(start as i64, stop as i64, |args| == 4);
      Dispatch(env, db, v) == (db, ReadReply(env, op, At(db, args[0])))
  {
    hide Asks, ParseCommand, Dispatch, ReadReply, At, ParseLL, Upper, Ascii, Reads, IsWithScores;
    var all := Asked(env, v, verb, args);
    assert all[1 + 0] == args[0] && all[1 + 1] == args[1] && all[1 + 2] == args[2];
    NumberIff(args[1], start);
    NumberIff(args[2], stop);
    if |args| == 4 {
      assert all[1 + 3] == args[3];
      WithScoresIff(args[3]);
    }
    if verb.LRANGE? {
      RunsRead(env, db, v, args[0], ReadOp.LRange(start as i64, stop as i64));
    } else {
      RunsRead(env, db, v, args[0], ReadOp.ZRange(start as i64, stop as i64, |args| == 4));
    }
  }

  lemma RunsOther(env: Env, db: DB, v: RespValue, cmd: Cmd)
    requires ParseCommand(env, v) == Accept(cmd) && !cmd.Read? && !cmd.Write?
    ensures cmd.Echo? ==> Dispatch(env, db, v) == (db, BulkString(cmd.msg))
    ensures cmd.Ping? ==> Dispatch(env, db, v) == (db, SimpleString(Ascii("PONG")))
    ensures cmd.Exists? ==> Dispatch(env, db, v) == (db, Count(CountPresent(db, cmd.keys)))
    ensures cmd.DbSize? ==> Dispatch(env, db, v) == (db, Count(|db|))
    ensures cmd.Del? ==> Dispatch(env, db, v) == (db - ToSet(cmd.keys), Count(|db| - |db - ToSet(cmd.keys)|))
    ensures cmd.Keys? ==> Dispatch(env, db, v) == (db, BulkArray(env.order(db.Keys)))
  {
    hide ParseCommand, BulkArray, Count, CountPresent, ToSet, Ascii;
  }

  // ---- Any key ----

  lemma EchoAnswer(env: Env, db: DB, v: RespValue, msg: Bytes)
    requires Asks(v, ECHO, [msg]) || Asks(v, PING, [msg])
    ensures Dispatch(env, db, v) == (db, BulkString(msg))
  {
    hide Asks, ParseCommand, Exec;
    var verb := if Asks(v, ECHO, [msg]) then ECHO else PING;
    var all := Plain(env, v, verb, [msg]);
    assert all[1 + 0] == msg;
    RunsOther(env, db, v, Echo(msg));
  }

  lemma PingAnswer(env: Env, db: DB, v: RespValue)
    requires Asks(v, PING, [])
    ensures Dispatch(env, db, v).0 == db && Says(Dispatch(env, db, v).1, "PONG")
  {
    hide Asks, ParseCommand, Exec;
    var all := Plain(env, v, PING, []);
    RunsOther(env, db, v, Ping);
    SpeltAscii("PONG");
  }

  /** EXISTS counts the arguments that are keys, each as often as it is named. */
  lemma ExistsAnswer(env: Env, db: DB, v: RespValue, keys: seq<Bytes>)
    requires Asks(v, EXISTS, keys) && |keys| > 0
    ensures Dispatch(env, db, v).0 == db
    ensures Counted(Dispatch(env, db, v).1, |set i | 0 <= i < |keys| && keys[i] in db|)
  {
    hide Asks, ParseCommand, CastI64, Counted, Exec;
    var all := Plain(env, v, EXISTS, keys);
    RunsOther(env, db, v, Exists(keys));
    PresentIsCount(db, keys);
    CountIs(CountPresent(db, keys));
  }

  lemma {:induction false} PresentIsCount(db: DB, keys: seq<Bytes>)
    ensures CountPresent(db, keys) == |set i | 0 <= i < |keys| && keys[i] in db|
  {
    if |keys| > 0 {
      var front, n := keys[..|keys| - 1], |keys| - 1;
      PresentIsCount(db, front);
      var before := set i | 0 <= i < |front| && front[i] in db;
      assert (set i | 0 <= i < |keys| && keys[i] in db) == if keys[n] in db then before + {n} else before;
    }
  }

  /** DEL removes the keys it names, and answers how many of them were there. */
  lemma DelAnswer(env: Env, db: DB, v: RespValue, keys: seq<Bytes>)
    requires Asks(v, DEL, keys) && |keys| > 0
    ensures var (db', reply) := Dispatch(env, db, v);
      && (forall k :: k in db' <==> k in db && k !in keys)
      && (forall k :: k in db' ==> db'[k] == db[k])
      && Counted(reply, |set k | k in db && k in keys|)
  {
    hide Asks, ParseCommand, CastI64, Counted, Exec, ToSet;
    var all := Plain(env, v, DEL, keys);
    RunsOther(env, db, v, Del(keys));
    CountIs(|db| - |db - ToSet(keys)|);
    DeletedCount(db, keys);
  }

  lemma DeletedCount(db: DB, keys: seq<Bytes>)
    ensures forall k :: k in db - ToSet(keys) <==> k in db && k !in keys
    ensures |db| - |db - ToSet(keys)| == |set k | k in db && k in keys|
  {
    var gone, left := set k | k in db && k in keys, (db - ToSet(keys)).Keys;
    assert db.Keys == left + gone && left !! gone;
    assert |db.Keys| == |db| && |left| == |db - ToSet(keys)|;
  }

  lemma SizeAnswer(env: Env, db: DB, v: RespValue)
    requires Asks(v, DBSIZE, [])
    ensures Dispatch(env, db, v).0 == db && Counted(Dispatch(env, db, v).1, |db|)
  {
    hide Asks, ParseCommand, CastI64, Counted, Exec;
    var all := Plain(env, v, DBSIZE, []);
    RunsOther(env, db, v, DbSize);
    CountIs(|db|);
  }

  /** KEYS lists every key once, whatever the pattern. */
  lemma KeysAnswer(env: Env, db: DB, v: RespValue, pattern: Bytes)
    requires ValidEnv(env) && Asks(v, KEYS, [pattern])
    ensures Dispatch(env, db, v).0 == db && ListsSet(Dispatch(env, db, v).1, db.Keys)
  {
    hide Asks, ParseCommand, Exec, ValidEnv, BulkArray, ListsSet;
    var all := Plain(env, v, KEYS, [pattern]);
    RunsOther(env, db, v, Keys);
    WalkLists(env, db.Keys);
  }

  lemma WalkLists(env: Env, items: set<Bytes>)
    requires ValidEnv(env)
    ensures ListsSet(BulkArray(env.order(items)), items)
  {
    var walk := env.order(items);
    assert ToSet(walk) == items;
    assert forall x :: x in walk <==> x in ToSet(walk);
    assert Lists(BulkArray(walk), walk);
  }

  function KindText(slot: Slot): string {
    match slot
    case None => "none"
    case Some(Str(_)) => "String"
    case Some(List(_)) => "List"
    case Some(Hash(_)) => "Hash"
    case Some(Set(_)) => "Set"
    case Some(SortedSet(_, _)) => "Sorted Set"
  }

  lemma TypeAnswer(env: Env, db: DB, v: RespValue, key: Bytes)
    requires Asks(v, TYPE, [key])
    ensures Dispatch(env, db, v).0 == db
    ensures Says(Dispatch(env, db, v).1, KindText(if key in db then Some(db[key]) else None))
  {
    hide Asks, Dispatch, Ascii, Printable, Spelt;
    AsksByKey(env, db, v, TYPE, key);
    KindsSpelt();
  }

  lemma KindsSpelt()
    ensures Spelt(Ascii("none"), "none") && Spelt(Ascii("String"), "String") && Spelt(Ascii("List"), "List")
    ensures Spelt(Ascii("Hash"), "Hash") && Spelt(Ascii("Set"), "Set") && Spelt(Ascii("Sorted Set"), "Sorted Set")
  {
    hide Ascii, Spelt;
    SpeltAscii("none");
    SpeltAscii("String");
    SpeltAscii("List");
    SpeltAscii("Hash");
    SpeltAscii("Set");
    SpeltAscii("Sorted Set");
  }

  // ---- Strings ----

  /** The text at a key; a missing key counts as the empty text. */
  predicate TextAt(db: DB, key: Bytes, text: Bytes) {
    if key in db then db[key] == Str(text) else text == []
  }

  lemma SetAnswer(env: Env, db: DB, v: RespValue, key: Bytes, val: Bytes)
    requires Asks(v, SET, [key, val])
    ensures Dispatch(env, db, v).0 == db[key := Str(val)] && Says(Dispatch(env, db, v).1, "OK")
  {
    hide Asks, Dispatch;
    AsksGiving(env, db, v, SET, key, val);
    SpeltAscii("OK");
  }

  lemma SetNXAnswer(env: Env, db: DB, v: RespValue, key: Bytes, val: Bytes)
    requires Asks(v, SETNX, [key, val])
    ensures Dispatch(env, db, v) == if key in db then (db, Integer(0)) else (db[key := Str(val)], Integer(1))
  {
    hide Asks, Dispatch;
    AsksGiving(env, db, v, SETNX, key, val);
    PutSame(db, key);
  }

  lemma GetAnswer(env: Env, db: DB, v: RespValue, key: Bytes, text: Bytes)
    requires TextAt(db, key, text)
    ensures Asks(v, GET, [key]) ==>
      Dispatch(env, db, v) == (db, if key in db then BulkString(text) else NullBulkString)
    ensures Asks(v, GETDEL, [key]) ==>
      Dispatch(env, db, v) == (db - {key}, if key in db then BulkString(text) else NullBulkString)
    ensures Asks(v, STRLEN, [key]) ==>
      Dispatch(env, db, v).0 == db && Counted(Dispatch(env, db, v).1, |text|)
  {
    hide Asks, Dispatch, CastI64, Counted;
    if Asks(v, GET, [key]) {
      AsksByKey(env, db, v, GET, key);
    }
    if Asks(v, GETDEL, [key]) {
      AsksTaking(env, db, v, GETDEL, key);
    }
    if Asks(v, STRLEN, [key]) {
      AsksByKey(env, db, v, STRLEN, key);
      CountIs(|text|);
    }
  }

  lemma AppendAnswer(env: Env, db: DB, v: RespValue, key: Bytes, text: Bytes, suffix: Bytes)
    requires TextAt(db, key, text) && Asks(v, APPEND, [key, suffix])
    ensures var (db', reply) := Dispatch(env, db, v);
      db' == db[key := Str(text + suffix)] && Counted(reply, |text| + |suffix|)
  {
    hide Asks, Dispatch, CastI64, Counted;
    AsksGiving(env, db, v, APPEND, key, suffix);
    CountIs(|text| + |suffix|);
    assert [] + suffix == suffix;
  }

  /** SET, APPEND and GET, one after the other: both texts, in order. */
  lemma SetAppendGet(env: Env, db: DB, v1: RespValue, v2: RespValue, v3: RespValue, key: Bytes, x: Bytes, y: Bytes)
    requires Asks(v1, SET, [key, x]) && Asks(v2, APPEND, [key, y]) && Asks(v3, GET, [key])
    ensures var db1 := Dispatch(env, db, v1).0;
      Dispatch(env, Dispatch(env, db1, v2).0, v3).1 == BulkString(x + y)
  {
    hide Asks, Dispatch, Counted, Says;
    SetAnswer(env, db, v1, key, x);
    var db1 := Dispatch(env, db, v1).0;
    AppendAnswer(env, db1, v2, key, x, y);
    GetAnswer(env, Dispatch(env, db1, v2).0, v3, key, x + y);
  }
}
