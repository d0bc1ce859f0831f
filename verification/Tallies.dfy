/** Runs that count: decimal counters, and the sizes of hashes, sets and sorted sets. */
module Tallies {
  import opened Options
  import opened ByteStrings
  import opened Decimal
  import opened RespValues
  import opened Protocol
  import opened Grammar
  import opened Ranks
  import opened Store
  import opened Commands
  import opened DispatchLaws
  import opened Requests
  import opened Answers
  import opened Runs

  // ---- Counters ----

  predicate CounterOp(op: WriteOp) {
    op.IncrBy?
  }

  /** What one command adds to the counter: its delta when it succeeded. */
  function Delta(cmd: Cmd, key: Bytes, reply: RespValue): int {
    var op := OpOn(cmd, key);
    if op.Some? && op.value.IncrBy? && reply.Integer? then op.value.delta as int else 0
  }

  /** The sum of the deltas that succeeded. */
  ghost function Sum(env: Env, db: DB, cmds: seq<Cmd>, key: Bytes): int {
    if |cmds| == 0 then 0
    else Sum(env, db, cmds[..|cmds| - 1], key) + Delta(cmds[|cmds| - 1], key, LastReply(env, db, cmds))
  }

  predicate Incremented(cmds: seq<Cmd>, key: Bytes) {
    exists i :: 0 <= i < |cmds| && OpOn(cmds[i], key).Some?
  }

  function CounterSlot(written: bool, sum: int): Slot {
    if written then Some(Str(IntStr(sum))) else None
  }

  /**
    On text that `stoll` reads, an increment is refused exactly when the true sum leaves 64 bits, and
    otherwise stores and returns the true sum; a refusal leaves the text alone.
  */
  lemma IncrByExact(text: Bytes, delta: i64)
    requires Stoll(text).Parsed?
    ensures var sum := Stoll(text).val as int + delta as int;
      var (slot, reply) := Apply(IncrBy(delta), Some(Str(text)));
      && (reply == SimpleError(OOR_MSG) <==> !InI64(sum))
      && (InI64(sum) ==> reply == Integer(sum as i64) && slot == Some(Str(IntStr(sum))))
      && (!InI64(sum) ==> slot == Some(Str(text)))
  {
    hide OOR_MSG;
  }

  lemma CounterStep(cmd: Cmd, key: Bytes, written: bool, sum: int, reply: RespValue)
    requires InI64(sum) && Spares(cmd, key) && (!written ==> sum == 0)
    requires var op := OpOn(cmd, key);
      op.Some? ==> CounterOp(op.value) && reply == Apply(op.value, CounterSlot(written, sum)).1
    ensures var written', sum' := written || OpOn(cmd, key).Some?, sum + Delta(cmd, key, reply);
      InI64(sum') && Effect(cmd, key, CounterSlot(written, sum)) == CounterSlot(written', sum')
  {
    hide IntStr, OOR_MSG;
    StollOfIntStr(sum);
    if OpOn(cmd, key).Some? && written {
      IncrByExact(IntStr(sum), cmd.wop.delta);
    }
  }

  /**
    From a missing key, after any run of increments and decrements among other commands, the key
    holds the decimal form of the exact sum of those that succeeded, which `stoll` reads back.
  */
  lemma {:induction false} CounterRun(env: Env, db: DB, cmds: seq<Cmd>, key: Bytes)
    requires At(db, key) == None && Only(cmds, key, CounterOp)
    ensures var sum := Sum(env, db, cmds, key);
      && InI64(sum) && (!Incremented(cmds, key) ==> sum == 0)
      && At(Run(env, db, cmds), key) == CounterSlot(Incremented(cmds, key), sum)
      && Stoll(IntStr(sum)) == Parsed(sum as i64, |IntStr(sum)|)
  {
    hide Run, Only, LastReply, Apply, Effect, CounterSlot, Delta, IntStr, Stoll;
    if |cmds| == 0 {
      RunNothing(env, db);
      NoCounter();
      StollOfIntStr(0);
    } else {
      var front, cmd := cmds[..|cmds| - 1], cmds[|cmds| - 1];
      OnlyFront(cmds, key, CounterOp);
      CounterRun(env, db, front, key);
      StepLocal(env, db, cmds, key);
      var reply := LastReply(env, db, cmds);
      CounterStep(cmd, key, Incremented(front, key), Sum(env, db, front, key), reply);
      IncrementedSnoc(cmds, key);
      DeltaOfOther(cmd, key, reply);
      StollOfIntStr(Sum(env, db, cmds, key));
    }
  }

  lemma NoCounter()
    ensures CounterSlot(false, 0) == None
  {
  }

  lemma DeltaOfOther(cmd: Cmd, key: Bytes, reply: RespValue)
    ensures OpOn(cmd, key).None? ==> Delta(cmd, key, reply) == 0
  {
  }

  lemma IncrementedSnoc(cmds: seq<Cmd>, key: Bytes)
    requires |cmds| > 0
    ensures Incremented(cmds, key) <==> Incremented(cmds[..|cmds| - 1], key) || OpOn(cmds[|cmds| - 1], key).Some?
  {
    var front := cmds[..|cmds| - 1];
    if Incremented(front, key) {
      var i :| 0 <= i < |front| && OpOn(front[i], key).Some?;
      assert OpOn(cmds[i], key).Some?;
    }
    if Incremented(cmds, key) {
      var i :| 0 <= i < |cmds| && OpOn(cmds[i], key).Some?;
      assert i < |front| ==> OpOn(front[i], key).Some?;
    }
  }

  // ---- Counters, as requested and answered ----

  /** A request to add `delta` to the counter; DECRBY never takes the smallest integer. */
  ghost predicate AsksToAdd(v: RespValue, key: Bytes, delta: int) {
    || (Asks(v, INCR, [key]) && delta == 1)
    || (Asks(v, DECR, [key]) && delta == -1)
    || (exists n :: Asks(v, INCRBY, [key, n]) && IsNumber(n, delta))
    || (exists n :: Asks(v, DECRBY, [key, n]) && IsNumber(n, -delta) && -delta != -0x8000_0000_0000_0000)
  }

  /** The key counts from `was`: zero when it is missing, or the number its text starts with. */
  ghost predicate CountsFrom(db: DB, key: Bytes, was: int) {
    if key in db then db[key].Str? && Fits64(was) && exists junk :: Reads(db[key].text, was, junk)
    else was == 0
  }

  /** The exact result, printed and stored, and returned; or, when it does not fit 64 bits, a refusal. */
  ghost predicate Exact(db: DB, out: (DB, RespValue), key: Bytes, result: int) {
    if Fits64(result) then
      exists text :: Prints(text, result) && out == (db[key := Str(text)], Integer(result as i64))
    else Refused(db, out, OUTOFRANGE_TEXT)
  }

  lemma OneArgument(env: Env, v: RespValue, verb: Verb, key: Bytes)
    requires Asks(v, verb, [key]) && (verb.INCR? || verb.DECR?)
    ensures ParseCommand(env, v) == Accept(Write(key, IncrBy(if verb.INCR? then 1 else -1)))
  {
    hide Asks, ParseCommand;
    var all := Plain(env, v, verb, [key]);
    assert all[1 + 0] == key;
  }

  lemma TwoArguments(env: Env, v: RespValue, verb: Verb, key: Bytes, n: Bytes, d: int)
    requires Asks(v, verb, [key, n]) && (verb.INCRBY? || verb.DECRBY?) && IsNumber(n, d)
    ensures verb.INCRBY? ==> ParseCommand(env, v) == Accept(Write(key, IncrBy(d as i64)))
    ensures verb.DECRBY? && d != I64_MIN ==> ParseCommand(env, v) == Accept(Write(key, IncrBy((-d) as i64)))
    ensures verb.DECRBY? && d == I64_MIN ==> ParseCommand(env, v) == Reject(SimpleError(OOR_MSG))
  {
    hide Asks, ParseCommand, ParseLL, Upper, Ascii, Reads, OOR_MSG;
    var all := Asked(env, v, verb, [key, n]);
    assert all[1 + 0] == key && all[1 + 1] == n;
    NumberIff(n, d);
  }

  lemma AddingIsIncrBy(env: Env, v: RespValue, key: Bytes, delta: int)
    requires AsksToAdd(v, key, delta)
    ensures Fits64(delta) && ParseCommand(env, v) == Accept(Write(key, IncrBy(delta as i64)))
  {
    hide Asks, ParseCommand, Reads;
    if Asks(v, INCR, [key]) && delta == 1 {
      OneArgument(env, v, INCR, key);
    } else if Asks(v, DECR, [key]) && delta == -1 {
      OneArgument(env, v, DECR, key);
    } else if n :| Asks(v, INCRBY, [key, n]) && IsNumber(n, delta) {
      TwoArguments(env, v, INCRBY, key, n, delta);
    } else {
      var n :| Asks(v, DECRBY, [key, n]) && IsNumber(n, -delta) && -delta != -0x8000_0000_0000_0000;
      TwoArguments(env, v, DECRBY, key, n, -delta);
    }
  }

  lemma Adds64(slot: Slot, was: int, delta: i64, text: Bytes)
    requires if slot == None then was == 0
      else slot == Some(Str(text)) && Stoll(text).Parsed? && Stoll(text).val as int == was
    ensures Apply(IncrBy(delta), slot) == if InI64(was + delta as int)
      then (Some(Str(IntStr(was + delta as int))), Integer((was + delta as int) as i64))
      else (slot, SimpleError(OOR_MSG))
  {
    hide OOR_MSG, Stoll, IntStr;
  }

  /** INCR, DECR, INCRBY and DECRBY, in any database: the exact result, or a refusal as out of range. */
  lemma CounterVerbs(env: Env, db: DB, v: RespValue, key: Bytes, delta: int, was: int)
    requires AsksToAdd(v, key, delta) && CountsFrom(db, key, was)
    ensures Exact(db, Dispatch(env, db, v), key, was + delta)
  {
    hide AsksToAdd, ParseCommand, Apply, Reads, OOR_MSG, Stoll, IntStr, Prints, Spelt;
    AddingIsIncrBy(env, v, key, delta);
    RunsWrite(env, db, v, key, IncrBy(delta as i64));
    var text := if key in db then db[key].text else [];
    if key in db {
      var junk :| Reads(text, was, junk);
      ReadsIsStoll(text, was, junk);
    }
    Adds64(At(db, key), was, delta as i64, text);
    PrintsIff(IntStr(was + delta), was + delta);
    PutSame(db, key);
    OutOfRangeSpelt();
  }

  /** Text that is no number, or none of 64 bits, is refused with an error of its own, and stays as it is. */
  lemma CounterRefused(env: Env, db: DB, v: RespValue, key: Bytes, delta: int)
    requires AsksToAdd(v, key, delta) && key in db && db[key].Str?
    ensures (forall n, junk :: !Reads(db[key].text, n, junk)) ==>
      Refused(db, Dispatch(env, db, v), NOTINTEGER_TEXT)
    ensures (exists n, junk :: Reads(db[key].text, n, junk) && !Fits64(n)) ==>
      Refused(db, Dispatch(env, db, v), OUTOFRANGE_TEXT)
  {
    hide AsksToAdd, ParseCommand, Reads, Stoll, IntStr, Spelt, OOR_MSG, NOTINTEGER_MSG;
    AddingIsIncrBy(env, v, key, delta);
    RunsWrite(env, db, v, key, IncrBy(delta as i64));
    StollExactly(db[key].text);
    PutSame(db, key);
    OutOfRangeSpelt();
    NotIntegerSpelt();
  }

  /** DECRBY of the smallest integer is refused whatever the key holds. */
  lemma DecrByMinimum(env: Env, db: DB, v: RespValue, key: Bytes, n: Bytes)
    requires Asks(v, DECRBY, [key, n]) && IsNumber(n, -0x8000_0000_0000_0000)
    ensures Refused(db, Dispatch(env, db, v), OUTOFRANGE_TEXT)
  {
    hide Asks, ParseCommand, Reads, Spelt, OOR_MSG;
    TwoArguments(env, v, DECRBY, key, n, I64_MIN);
    OutOfRangeSpelt();
  }

  /**
    DECRBY, in any database, gives the exact result or refuses it as out of range, unless the decrement
    is the smallest integer and the counter negative: then, and only then, it refuses a difference
    that fits.
  */
  lemma DecrByExact(env: Env, db: DB, v: RespValue, key: Bytes, n: Bytes, d: int, was: int)
    requires Asks(v, DECRBY, [key, n]) && IsNumber(n, d) && CountsFrom(db, key, was)
    ensures Exact(db, Dispatch(env, db, v), key, was - d) <==> d != -0x8000_0000_0000_0000 || was >= 0
  {
    hide Asks, Dispatch, Reads, Spelt, Prints;
    if d != -0x8000_0000_0000_0000 {
      assert IsNumber(n, -(-d));
      CounterVerbs(env, db, v, key, -d, was);
    } else {
      DecrByMinimum(env, db, v, key, n);
    }
  }

  function DecrByRequest(key: Bytes, n: Bytes): RespValue {
    Array([BulkString(Ascii("DECRBY")), BulkString(key), BulkString(n)])
  }

  /** That case occurs: "DECRBY key -9223372036854775808" on a counter at -1, whose result would fit, is refused. */
  lemma DecrByMinimumRefused(env: Env, db: DB, key: Bytes, n: Bytes)
    requires key in db && db[key] == Str([45, 49]) && Prints(n, -0x8000_0000_0000_0000)
    ensures var out := Dispatch(env, db, DecrByRequest(key, n));
      Refused(db, out, OUTOFRANGE_TEXT) && !Exact(db, out, key, -1 - -0x8000_0000_0000_0000)
  {
    hide Dispatch, Spelt, Reads, Prints, Asks;
    var v := DecrByRequest(key, n);
    AsksDecrBy(key, n);
    PrintedReads(n, -0x8000_0000_0000_0000);
    MinusOnePrints();
    PrintedReads([45, 49], -1);
    DecrByMinimum(env, db, v, key, n);
    DecrByExact(env, db, v, key, n, -0x8000_0000_0000_0000, -1);
  }

  lemma AsksDecrBy(key: Bytes, n: Bytes)
    ensures Asks(DecrByRequest(key, n), DECRBY, [key, n])
  {
  }

  lemma MinusOnePrints()
    ensures Prints([45, 49], -1)
  {
    var s: Bytes := [45, 49];
    assert s[1..] == [49];
  }

  lemma PrintedReads(s: Bytes, x: int)
    requires Prints(s, x)
    ensures Reads(s, x, [])
  {
    var sign: Bytes, ds := if x < 0 then [45] else [], if x < 0 then s[1..] else s;
    assert Parts(x, [], sign, ds, []) && s == [] + sign + ds + [];
  }

  // ---- Sizes ----

  /** What HLEN, SCARD and ZCARD count; strings and lists have no cardinality here. */
  function Card(slot: Slot): nat {
    match slot
    case Some(Hash(fields)) => |fields|
    case Some(Set(members)) => |members|
    case Some(SortedSet(scores, _)) => |scores|
    case _ => 0
  }

  predicate Adds(op: WriteOp) {
    op.HSet? || op.SAdd? || op.ZAdd?
  }

  predicate Removes(op: WriteOp) {
    op.HDel? || op.SRem? || op.ZRem?
  }

  predicate CardOp(op: WriteOp) {
    Adds(op) || Removes(op)
  }

  /** What a reply claims to have added, or to have removed, counted negatively. */
  function Claimed(cmd: Cmd, key: Bytes, reply: RespValue): int {
    var op := OpOn(cmd, key);
    if op.None? || !reply.Integer? then 0
    else if Adds(op.value) then reply.val as int
    else if Removes(op.value) then -(reply.val as int)
    else 0
  }

  ghost function TotalClaimed(env: Env, db: DB, cmds: seq<Cmd>, key: Bytes): int {
    if |cmds| == 0 then 0
    else TotalClaimed(env, db, cmds[..|cmds| - 1], key) + Claimed(cmds[|cmds| - 1], key, LastReply(env, db, cmds))
  }

  lemma CastExact(n: int)
    requires InI64(n)
    ensures CastI64(n) as int == n
  {
  }

  /** The reply is an error and nothing changed, or the signed change in cardinality. */
  ghost predicate Tells(op: WriteOp, slot: Slot) {
    var (slot', reply) := Apply(op, slot);
    if reply.Integer? then
      reply == Count(if Adds(op) then Card(slot') - Card(slot) else Card(slot) - Card(slot'))
    else slot' == slot
  }

  lemma HashTells(op: WriteOp, slot: Slot)
    requires op.HSet? || op.HDel?
    ensures Tells(op, slot)
  {
    hide Assign, ToSet, CastI64, WRONGTYPE_MSG, ApplyString, ApplyList;
  }

  lemma SetTells(op: WriteOp, slot: Slot)
    requires op.SAdd? || op.SRem?
    ensures Tells(op, slot)
  {
    hide ToSet, CastI64, WRONGTYPE_MSG, ApplyString, ApplyList;
  }

  lemma SortedSetTells(op: WriteOp, slot: Slot)
    requires op.ZAdd? || op.ZRem?
    ensures Tells(op, slot)
  {
    hide ToSet, Ranking, CastI64, WRONGTYPE_MSG, ApplyString, ApplyList, Apply, ApplyCollection, Ranked;
    SortedSetApplies(op, slot);
    if op.ZAdd? {
      RankedCard(map[op.member := op.score]);
      if slot.Some? && slot.value.SortedSet? {
        RankedCard(slot.value.scores[op.member := op.score]);
      }
    } else if slot.Some? && slot.value.SortedSet? {
      RankedCard(slot.value.scores - ToSet(op.members));
    }
  }

  lemma RankedCard(scores: map<Bytes, Score>)
    ensures Card(Ranked(scores)) == |scores|
    ensures forall m, x :: scores == map[m := x] ==> |scores| == 1
  {
    hide Ranking;
    forall m, x | scores == map[m := x]
      ensures |scores| == 1
    {
      assert scores.Keys == {m};
    }
  }

  lemma SortedSetApplies(op: WriteOp, slot: Slot)
    requires op.ZAdd? || op.ZRem?
    ensures var (s, r) := if op.ZAdd? then Store.ZAdd(slot, op.score, op.member) else Store.ZRem(slot, op.members);
      Apply(op, slot) == (s, CountReply(r))
  {
    hide Store.ZAdd, Store.ZRem;
  }

  /** One command on a collection: its reply is exactly the change in cardinality. */
  lemma CardStep(cmd: Cmd, key: Bytes, slot: Slot, reply: RespValue)
    requires Spares(cmd, key)
    requires var op := OpOn(cmd, key); op.Some? ==> CardOp(op.value) && reply == Apply(op.value, slot).1
    requires Card(slot) <= I64_MAX && Card(Effect(cmd, key, slot)) <= I64_MAX
    ensures Card(Effect(cmd, key, slot)) == Card(slot) + Claimed(cmd, key, reply)
  {
    hide Apply, Card;
    if OpOn(cmd, key).Some? {
      var op := cmd.wop;
      if op.HSet? || op.HDel? {
        HashTells(op, slot);
      } else if op.SAdd? || op.SRem? {
        SetTells(op, slot);
      } else {
        SortedSetTells(op, slot);
      }
      CastExact(Card(Effect(cmd, key, slot)) - Card(slot));
      CastExact(Card(slot) - Card(Effect(cmd, key, slot)));
    }
  }

  /**
    Over any run in which only collection commands write to the key, its cardinality is what it was,
    plus everything the replies claimed added, minus everything they claimed removed: with repeated
    arguments, members already there or missing, refusals for a wrong type, and the key vanishing and
    coming back.
  */
  lemma {:induction false} CardinalityConserved(env: Env, db: DB, cmds: seq<Cmd>, key: Bytes)
    requires Only(cmds, key, CardOp)
    requires forall i :: 0 <= i <= |cmds| ==> Card(At(Run(env, db, cmds[..i]), key)) <= I64_MAX
    ensures Card(At(Run(env, db, cmds), key)) == Card(At(db, key)) + TotalClaimed(env, db, cmds, key)
  {
    hide Run, Only, LastReply, Apply, Effect, Card, Claimed;
    assert cmds[..|cmds|] == cmds;
    if |cmds| == 0 {
      RunNothing(env, db);
    } else {
      var front, cmd := cmds[..|cmds| - 1], cmds[|cmds| - 1];
      assert forall i :: 0 <= i <= |front| ==> front[..i] == cmds[..i];
      OnlyFront(cmds, key, CardOp);
      CardinalityConserved(env, db, front, key);
      StepLocal(env, db, cmds, key);
      CardStep(cmd, key, At(Run(env, db, front), key), LastReply(env, db, cmds));
    }
  }

  lemma MapPartition<K, V>(m: map<K, V>, s: set<K>)
    ensures |m| - |m - s| == |m.Keys * s|
  {
    var left, gone := (m - s).Keys, m.Keys * s;
    assert m.Keys == left + gone && left !! gone;
  }

  /** DEL's reply is the drop in DBSIZE, and the number of distinct keys it named that were there. */
  lemma DelCounts(env: Env, db: DB, keys: seq<Bytes>)
    requires |db| <= I64_MAX
    ensures var (db', reply) := Exec(env, db, Del(keys));
      reply.Integer? && reply.val as int == |db| - |db'| == |db.Keys * ToSet(keys)|
  {
    hide ToSet;
    MapPartition(db, ToSet(keys));
    CastExact(|db| - |db - ToSet(keys)|);
  }
}
