/** What hashes, sets and sorted sets hold after a run: for every member, what the last command on it said. */
module Contents {
  import opened Options
  import opened ByteStrings
  import opened Decimal
  import opened RespValues
  import opened Ranks
  import opened Store
  import opened Commands
  import opened DispatchLaws
  import opened Requests
  import opened Answers
  import opened CollectionAnswers
  import opened HashAnswers
  import opened SortedSetAnswers
  import opened Runs
  import opened Tallies

  /** What a collection stores for one of its members. */
  datatype Datum = Field(val: Bytes) | Present | Scored(score: Score)

  /** What HGET, SISMEMBER and ZSCORE look up. */
  function Content(slot: Slot, m: Bytes): Option<Datum> {
    match slot
    case Some(Hash(fields)) => if m in fields then Some(Field(fields[m])) else None
    case Some(Set(members)) => if m in members then Some(Present) else None
    case Some(SortedSet(scores, _)) => if m in scores then Some(Scored(scores[m])) else None
    case _ => None
  }

  /** The value the last of the pairs gives to the field, if any names it. */
  function LastPair(pairs: seq<(Bytes, Bytes)>, m: Bytes): Option<Bytes> {
    if |pairs| == 0 then None
    else if pairs[|pairs| - 1].0 == m then Some(pairs[|pairs| - 1].1)
    else LastPair(pairs[..|pairs| - 1], m)
  }

  datatype Said = Nothing | Gone | Now(d: Datum)

  /** What an operation says about a member. */
  function Says(op: WriteOp, m: Bytes): Said {
    match op
    case HSet(pairs) => if LastPair(pairs, m).Some? then Now(Field(LastPair(pairs, m).value)) else Nothing
    case SAdd(members) => if m in members then Now(Present) else Nothing
    case ZAdd(score, member) => if m == member then Now(Scored(score)) else Nothing
    case HDel(names) => if m in names then Gone else Nothing
    case SRem(members) => if m in members then Gone else Nothing
    case ZRem(members) => if m in members then Gone else Nothing
    case _ => Nothing
  }

  /** The last thing a run said about the member, refused commands left out. */
  ghost function LastSaid(env: Env, db: DB, cmds: seq<Cmd>, key: Bytes, m: Bytes): Said {
    if |cmds| == 0 then Nothing
    else
      var op := OpOn(cmds[|cmds| - 1], key);
      if op.Some? && LastReply(env, db, cmds).Integer? && !Says(op.value, m).Nothing? then Says(op.value, m)
      else LastSaid(env, db, cmds[..|cmds| - 1], key, m)
  }

  function After(said: Said, before: Option<Datum>): Option<Datum> {
    match said
    case Nothing => before
    case Gone => None
    case Now(d) => Some(d)
  }

  lemma {:induction false} AssignSays(fields: map<Bytes, Bytes>, pairs: seq<(Bytes, Bytes)>, m: Bytes)
    ensures LastPair(pairs, m).Some? ==>
      m in Assign(fields, pairs) && Assign(fields, pairs)[m] == LastPair(pairs, m).value
    ensures LastPair(pairs, m).None? ==> (m in Assign(fields, pairs) <==> m in fields)
    ensures LastPair(pairs, m).None? && m in fields ==> Assign(fields, pairs)[m] == fields[m]
  {
    if |pairs| > 0 {
      AssignSays(fields, pairs[..|pairs| - 1], m);
    }
  }

  lemma HashSays(op: WriteOp, slot: Slot, m: Bytes)
    requires op.HSet? || op.HDel?
    ensures var (slot', reply) := Apply(op, slot);
      Content(slot', m) == After(if reply.Integer? then Says(op, m) else Nothing, Content(slot, m))
  {
    hide Assign, LastPair, CastI64, WRONGTYPE_MSG, ApplyString, ApplyList;
    if op.HSet? {
      AssignSays(if slot.Some? && slot.value.Hash? then slot.value.fields else map[], op.pairs, m);
    } else if slot.Some? && slot.value.Hash? {
      assert m in slot.value.fields - ToSet(op.fields) <==> m in slot.value.fields && m !in op.fields;
    }
  }

  lemma SetSays(op: WriteOp, slot: Slot, m: Bytes)
    requires op.SAdd? || op.SRem?
    ensures var (slot', reply) := Apply(op, slot);
      Content(slot', m) == After(if reply.Integer? then Says(op, m) else Nothing, Content(slot, m))
  {
    hide CastI64, WRONGTYPE_MSG, ApplyString, ApplyList, ToSet, Store.ZAdd, Store.ZRem, Store.HSet, Store.HDel;
    MemberOf(op.members, m);
    if op.SRem? && slot.Some? && slot.value.Set? {
      assert m in slot.value.members - ToSet(op.members) <==> m in slot.value.members && m !in op.members;
    }
  }

  lemma MemberOf<T>(s: seq<T>, x: T)
    ensures x in ToSet(s) <==> x in s
  {
  }

  lemma SortedSetSays(op: WriteOp, slot: Slot, m: Bytes)
    requires op.ZAdd? || op.ZRem?
    ensures var (slot', reply) := Apply(op, slot);
      Content(slot', m) == After(if reply.Integer? then Says(op, m) else Nothing, Content(slot, m))
  {
    hide CastI64, Ranking, WRONGTYPE_MSG, Apply;
    SortedSetApplies(op, slot);
    if op.ZAdd? {
      assert op.member in map[op.member := op.score];
      assert slot.Some? && slot.value.SortedSet? ==> op.member in slot.value.scores[op.member := op.score];
    } else if slot.Some? && slot.value.SortedSet? {
      assert m in slot.value.scores - ToSet(op.members) <==> m in slot.value.scores && m !in op.members;
    }
  }

  /**
    Over any run in which only collection commands write to the key, every field, member and score is
    what the last command that named it and was not refused made it, or what it was at the start if
    there was none; whatever else the run did, the key vanishing and coming back included.
  */
  lemma {:induction false} LastWriterWins(env: Env, db: DB, cmds: seq<Cmd>, key: Bytes, m: Bytes)
    requires Only(cmds, key, CardOp)
    ensures Content(At(Run(env, db, cmds), key), m) == After(LastSaid(env, db, cmds, key, m), Content(At(db, key), m))
  {
    hide Run, Only, LastReply, Apply, Content, Says;
    if |cmds| == 0 {
      RunNothing(env, db);
    } else {
      var front, cmd := cmds[..|cmds| - 1], cmds[|cmds| - 1];
      OnlyFront(cmds, key, CardOp);
      LastWriterWins(env, db, front, key, m);
      StepLocal(env, db, cmds, key);
      var slot := At(Run(env, db, front), key);
      if OpOn(cmd, key).Some? {
        var op := cmd.wop;
        if op.HSet? || op.HDel? {
          HashSays(op, slot, m);
        } else if op.SAdd? || op.SRem? {
          SetSays(op, slot, m);
        } else {
          SortedSetSays(op, slot, m);
        }
      }
    }
  }

  // ---- What the reading commands say about it ----

  lemma LookUpsReadContent(env: Env, slot: Slot, m: Bytes)
    ensures slot.None? || slot.value.Hash? ==>
      && ReadReply(env, HGet(m), slot)
         == (match Content(slot, m) case Some(Field(v)) => BulkString(v) case _ => NullBulkString)
      && ReadReply(env, HExists(m), slot) == Integer(if Content(slot, m).Some? then 1 else 0)
    ensures slot.None? || slot.value.Set? ==>
      ReadReply(env, SIsMember(m), slot) == Integer(if Content(slot, m).Some? then 1 else 0)
    ensures slot.None? || slot.value.SortedSet? ==>
      ReadReply(env, ReadOp.ZScore(m), slot)
      == (match Content(slot, m) case Some(Scored(x)) => BulkString(env.formatScore(x)) case _ => NullBulkString)
  {
  }

  ghost function ReplyTo(env: Env, db: DB, key: Bytes, op: ReadOp): RespValue {
    Exec(env, db, Read(key, op)).1
  }

  /**
    After any such run from a missing key, HGET, HEXISTS, SISMEMBER and ZSCORE answer what the last
    command that named the member said, unless the key by then holds another type.
  */
  lemma LookUpsAfterRun(env: Env, db: DB, cmds: seq<Cmd>, key: Bytes, m: Bytes)
    requires At(db, key) == None && Only(cmds, key, CardOp)
    ensures var now, slot := Run(env, db, cmds), At(Run(env, db, cmds), key);
      var said := LastSaid(env, db, cmds, key, m);
      var there := Integer(if said.Now? then 1 else 0);
      && (slot.None? || slot.value.Hash? ==>
           && ReplyTo(env, now, key, HExists(m)) == there
           && ReplyTo(env, now, key, HGet(m))
              == if said.Now? && said.d.Field? then BulkString(said.d.val) else NullBulkString)
      && (slot.None? || slot.value.Set? ==> ReplyTo(env, now, key, SIsMember(m)) == there)
      && (slot.None? || slot.value.SortedSet? ==>
           ReplyTo(env, now, key, ReadOp.ZScore(m))
           == if said.Now? && said.d.Scored? then BulkString(env.formatScore(said.d.score)) else NullBulkString)
  {
    hide Run, Only, LastSaid, ReadReply, At;
    LastWriterWins(env, db, cmds, key, m);
    LookUpsReadContent(env, At(Run(env, db, cmds), key), m);
  }

  lemma CardsReadSizes(env: Env, slot: Slot)
    ensures slot.None? || slot.value.Hash? ==> ReadReply(env, HLen, slot) == Count(Card(slot))
    ensures slot.None? || slot.value.Set? ==> ReadReply(env, SCard, slot) == Count(Card(slot))
    ensures slot.None? || slot.value.SortedSet? ==> ReadReply(env, ZCard, slot) == Count(Card(slot))
  {
  }

  /**
    After any such run from a missing key, HLEN, SCARD and ZCARD answer everything the replies claimed
    added minus everything they claimed removed.
  */
  lemma CardsAfterRun(env: Env, db: DB, cmds: seq<Cmd>, key: Bytes)
    requires At(db, key) == None && Only(cmds, key, CardOp)
    requires forall i :: 0 <= i <= |cmds| ==> Card(At(Run(env, db, cmds[..i]), key)) <= I64_MAX
    ensures var now, slot := Run(env, db, cmds), At(Run(env, db, cmds), key);
      var total := TotalClaimed(env, db, cmds, key);
      && InI64(total)
      && (slot.None? || slot.value.Hash? ==> ReplyTo(env, now, key, HLen) == Integer(total as i64))
      && (slot.None? || slot.value.Set? ==> ReplyTo(env, now, key, SCard) == Integer(total as i64))
      && (slot.None? || slot.value.SortedSet? ==> ReplyTo(env, now, key, ZCard) == Integer(total as i64))
  {
    hide Run, Only, TotalClaimed, ReadReply, At;
    assert cmds[..|cmds|] == cmds;
    CardinalityConserved(env, db, cmds, key);
    CardsReadSizes(env, At(Run(env, db, cmds), key));
    CastExact(TotalClaimed(env, db, cmds, key));
  }

  /** What the run last said of each member, as a map: nothing is listed that was not last said to be there. */
  ghost predicate LastScores(env: Env, db: DB, cmds: seq<Cmd>, key: Bytes, scores: map<Bytes, Score>) {
    forall m ::
      && (m in scores <==> LastSaid(env, db, cmds, key, m).Now?)
      && (m in scores ==> LastSaid(env, db, cmds, key, m) == Now(Scored(scores[m])))
  }

  ghost predicate LastFields(env: Env, db: DB, cmds: seq<Cmd>, key: Bytes, fields: map<Bytes, Bytes>) {
    forall m ::
      && (m in fields <==> LastSaid(env, db, cmds, key, m).Now?)
      && (m in fields ==> LastSaid(env, db, cmds, key, m) == Now(Field(fields[m])))
  }

  lemma SaidOfMember(env: Env, db: DB, cmds: seq<Cmd>, key: Bytes, m: Bytes)
    requires At(db, key) == None && Only(cmds, key, CardOp)
    ensures var said := LastSaid(env, db, cmds, key, m);
      Content(At(Run(env, db, cmds), key), m) == if said.Now? then Some(said.d) else None
  {
    hide Run, Only, LastSaid, At;
    LastWriterWins(env, db, cmds, key, m);
  }

  /**
    After any such run of accepted commands from a missing key, ZRANGE lists, for all bounds, a slice of
    the members last said to be there, in the order of the score last said, then of the member.
  */
  lemma RangeAfterRun(env: Env, db: DB, cmds: seq<Cmd>, key: Bytes, v: RespValue,
                      a: Bytes, b: Bytes, start: int, stop: int, option: Bytes)
    returns (scores: map<Bytes, Score>, ranked: seq<Rank>, part: seq<Rank>, lo: nat)
    requires At(db, key) == None && Only(cmds, key, CardOp) && forall i :: 0 <= i < |cmds| ==> Legal(cmds[i])
    requires var slot := At(Run(env, db, cmds), key); slot.Some? ==> slot.value.SortedSet?
    requires IsNumber(a, start) && IsNumber(b, stop) && IsWithScores(option)
    ensures LastScores(env, db, cmds, key, scores)
    ensures Enumerates(scores, ranked) && |ranked| == |scores|
    ensures Slice(ranked, FromEnd(start, |scores|), FromEnd(stop, |scores|), part, lo)
    ensures var reply := Dispatch(env, Run(env, db, cmds), v).1;
      && (Asks(v, ZRANGE, [key, a, b]) ==> Lists(reply, MembersOf(part)))
      && (Asks(v, ZRANGE, [key, a, b, option]) ==> Alternates(reply, MembersOf(part), ScoresOf(env, part)))
  {
    hide Run, Only, LastSaid, Legal, Sound, Dispatch, IsNumber, IsWithScores, Asks, Enumerates, Slice, Lists;
    hide Alternates, MembersOf, ScoresOf;
    var now := Run(env, db, cmds);
    var slot := At(now, key);
    scores := if slot.Some? then slot.value.scores else map[];
    NothingIsSound();
    SoundAfterRun(env, db, cmds, key);
    SoundScores(now, key);
    ranked, part, lo := ZRangeAnswer(env, now, v, key, a, b, start, stop, option, scores);
    forall m
      ensures m in scores <==> LastSaid(env, db, cmds, key, m).Now?
      ensures m in scores ==> LastSaid(env, db, cmds, key, m) == Now(Scored(scores[m]))
    {
      SaidOfMember(env, db, cmds, key, m);
    }
  }

  lemma SoundScores(db: DB, key: Bytes)
    requires Sound(At(db, key)) && (key in db ==> db[key].SortedSet?)
    ensures ScoresAt(db, key, if key in db then db[key].scores else map[])
  {
    hide Enumerates, Ranking;
    if key in db {
      IndexIsRanking(db[key].scores, db[key].ranks);
      RankingIff(db[key].scores, db[key].ranks);
    }
  }

  /** SMEMBERS lists each member last said to be there once, and nothing else. */
  lemma MembersAfterRun(env: Env, db: DB, cmds: seq<Cmd>, key: Bytes, v: RespValue) returns (members: set<Bytes>)
    requires ValidEnv(env) && At(db, key) == None && Only(cmds, key, CardOp)
    requires forall i :: 0 <= i < |cmds| ==> Legal(cmds[i])
    requires var slot := At(Run(env, db, cmds), key); slot.Some? ==> slot.value.Set?
    ensures forall m :: m in members <==> LastSaid(env, db, cmds, key, m).Now?
    ensures Asks(v, SMEMBERS, [key]) ==> ListsSet(Dispatch(env, Run(env, db, cmds), v).1, members)
  {
    hide Run, Only, LastSaid, Legal, Dispatch, Asks, ListsSet, ValidEnv, Counted;
    var now := Run(env, db, cmds);
    var slot := At(now, key);
    members := if slot.Some? then slot.value.members else {};
    NothingIsSound();
    SoundAfterRun(env, db, cmds, key);
    SCardAnswer(env, now, v, key, members);
    forall m
      ensures m in members <==> LastSaid(env, db, cmds, key, m).Now?
    {
      SaidOfMember(env, db, cmds, key, m);
    }
  }

  /** HGETALL, HKEYS and HVALS list each field last said to be there once, with the value last said. */
  lemma FieldsAfterRun(env: Env, db: DB, cmds: seq<Cmd>, key: Bytes, v: RespValue)
    returns (fields: map<Bytes, Bytes>, names: seq<Bytes>, values: seq<Bytes>)
    requires ValidEnv(env) && At(db, key) == None && Only(cmds, key, CardOp)
    requires forall i :: 0 <= i < |cmds| ==> Legal(cmds[i])
    requires var slot := At(Run(env, db, cmds), key); slot.Some? ==> slot.value.Hash?
    ensures LastFields(env, db, cmds, key, fields) && Walks(fields, names, values)
    ensures var reply := Dispatch(env, Run(env, db, cmds), v).1;
      && (Asks(v, HGETALL, [key]) ==> Alternates(reply, names, values))
      && (Asks(v, HKEYS, [key]) ==> Lists(reply, names))
      && (Asks(v, HVALS, [key]) ==> Lists(reply, values))
  {
    hide Run, Only, LastSaid, Legal, Dispatch, Asks, ValidEnv, Walks, Alternates, Lists;
    var now := Run(env, db, cmds);
    var slot := At(now, key);
    fields := if slot.Some? then slot.value.fields else map[];
    NothingIsSound();
    SoundAfterRun(env, db, cmds, key);
    names, values := HWalkAnswer(env, now, v, key, fields);
    forall m
      ensures m in fields <==> LastSaid(env, db, cmds, key, m).Now?
      ensures m in fields ==> LastSaid(env, db, cmds, key, m) == Now(Field(fields[m]))
    {
      SaidOfMember(env, db, cmds, key, m);
    }
  }
}
