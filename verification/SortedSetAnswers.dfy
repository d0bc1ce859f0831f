/** What a client is answered by the commands on sorted sets, and what its request leaves stored. */
module SortedSetAnswers {
  import opened Options
  import opened ByteStrings
  import opened Decimal
  import opened RespValues
  import opened Ranks
  import opened Store
  import opened Commands
  import opened Requests
  import opened Answers
  import opened CollectionAnswers
  import opened HashAnswers

  /** The scores at a key, and beside them the index: every member once, in order. */
  ghost predicate ScoresAt(db: DB, key: Bytes, scores: map<Bytes, Score>) {
    if key in db then
      && db[key].SortedSet? && db[key].scores == scores && scores != map[]
      && Enumerates(scores, db[key].ranks)
    else scores == map[]
  }

  ghost predicate Elsewhere(db: DB, db': DB, key: Bytes) {
    db' - {key} == db - {key}
  }

  lemma ScoresAreRanked(db: DB, key: Bytes, scores: map<Bytes, Score>)
    ensures ScoresAt(db, key, scores) <==> At(db, key) == Ranked(scores)
  {
    hide Enumerates, Ranking;
    if key in db && db[key].SortedSet? {
      RankingIff(scores, db[key].ranks);
    }
  }

  lemma PutRanked(db: DB, key: Bytes, scores: map<Bytes, Score>)
    ensures var db' := Put(db, key, Ranked(scores));
      ScoresAt(db', key, scores) && Elsewhere(db, db', key)
  {
    hide ScoresAt, Ranked;
    var db' := Put(db, key, Ranked(scores));
    ScoresAreRanked(db', key, scores);
    assert db' - {key} == db - {key};
  }

  lemma ZAddSlots(scores: map<Bytes, Score>, score: Score, member: Bytes)
    ensures var more := scores[member := score];
      Apply(WriteOp.ZAdd(score, member), Ranked(scores)) == (Ranked(more), Count(|more| - |scores|))
  {
    hide CastI64, Ranking, ApplyString, ApplyList;
    if scores == map[] {
      assert scores[member := score] == map[member := score];
      assert |map[member := score]| == 1;
    }
  }

  lemma ZRemSlots(scores: map<Bytes, Score>, members: seq<Bytes>)
    ensures var less := scores - ToSet(members);
      Apply(WriteOp.ZRem(members), Ranked(scores)) == (Ranked(less), Count(|scores| - |less|))
  {
    hide CastI64, Ranking, ApplyString, ApplyList, ToSet;
    if scores == map[] {
      assert scores - ToSet(members) == scores;
    }
  }

  lemma MembersLeft(scores: map<Bytes, Score>, members: seq<Bytes>)
    ensures forall m :: m in scores - ToSet(members) <==> m in scores && m !in members
  {
  }

  /** ZADD takes the score before the member, and answers 1 when the member is new. */
  lemma ZAddAnswer(env: Env, db: DB, v: RespValue, key: Bytes, arg: Bytes, score: Score, member: Bytes,
                   scores: map<Bytes, Score>)
    requires ScoresAt(db, key, scores) && Asks(v, ZADD, [key, arg, member]) && env.parseScore(arg) == Some(score)
    ensures var (db', reply) := Dispatch(env, db, v);
      && ScoresAt(db', key, scores[member := score]) && Elsewhere(db, db', key)
      && reply == Integer(if member in scores then 0 else 1)
  {
    hide Asks, Dispatch, Apply, ScoresAt, Ranked, Elsewhere, Put, ParseLL, Upper, Ascii;
    AsksScored(env, db, v, key, arg, score, member);
    ScoresAreRanked(db, key, scores);
    ZAddSlots(scores, score, member);
    PutRanked(db, key, scores[member := score]);
  }

  /** ZREM removes the members, answers how many were there, and the key goes with its last member. */
  lemma ZRemAnswer(env: Env, db: DB, v: RespValue, key: Bytes, members: seq<Bytes>, scores: map<Bytes, Score>)
    returns (less: map<Bytes, Score>)
    requires ScoresAt(db, key, scores) && Asks(v, ZREM, [key] + members) && members != []
    ensures var (db', reply) := Dispatch(env, db, v);
      ScoresAt(db', key, less) && Elsewhere(db, db', key) && Counted(reply, |scores| - |less|)
    ensures forall m :: m in less <==> m in scores && m !in members
    ensures forall m :: m in less ==> less[m] == scores[m]
  {
    hide Asks, Dispatch, Apply, ScoresAt, Ranked, Elsewhere, Put, ToSet, Counted, CastI64;
    AsksGivingMany(env, db, v, ZREM, key, members);
    ScoresAreRanked(db, key, scores);
    ZRemSlots(scores, members);
    MembersLeft(scores, members);
    less := scores - ToSet(members);
    PutRanked(db, key, less);
    CountIs(|scores| - |less|);
  }

  lemma ScoreReads(env: Env, scores: map<Bytes, Score>, m: Bytes)
    ensures ReadReply(env, ReadOp.ZCard, Ranked(scores)) == Count(|scores|)
    ensures ReadReply(env, ReadOp.ZScore(m), Ranked(scores))
         == if m in scores then BulkString(env.formatScore(scores[m])) else NullBulkString
  {
    hide CastI64, Ranking;
  }

  lemma ZScoreAnswer(env: Env, db: DB, v: RespValue, key: Bytes, m: Bytes, scores: map<Bytes, Score>)
    requires ScoresAt(db, key, scores)
    ensures Asks(v, ZSCORE, [key, m]) ==>
      Dispatch(env, db, v) == (db, if m in scores then BulkString(env.formatScore(scores[m])) else NullBulkString)
    ensures Asks(v, ZCARD, [key]) ==> Dispatch(env, db, v).0 == db && Counted(Dispatch(env, db, v).1, |scores|)
  {
    hide Asks, Dispatch, ReadReply, ScoresAt, Ranked, Counted, CastI64;
    ScoresAreRanked(db, key, scores);
    ScoreReads(env, scores, m);
    if Asks(v, ZSCORE, [key, m]) {
      AsksByMember(env, db, v, ZSCORE, key, m);
    }
    if Asks(v, ZCARD, [key]) {
      AsksByKey(env, db, v, ZCARD, key);
      CountIs(|scores|);
    }
  }

  /** The members of these ranks, and their scores as printed. */
  function MembersOf(ranks: seq<Rank>): seq<Bytes> {
    seq(|ranks|, i requires 0 <= i < |ranks| => ranks[i].member)
  }

  function ScoresOf(env: Env, ranks: seq<Rank>): seq<Bytes> {
    seq(|ranks|, i requires 0 <= i < |ranks| => env.formatScore(ranks[i].score))
  }

  lemma RangeReads(env: Env, scores: map<Bytes, Score>, start: i64, stop: i64)
    ensures var w := Window(Ranking(scores), start as int, stop as int);
      && Lists(ReadReply(env, ReadOp.ZRange(start, stop, false), Ranked(scores)), MembersOf(w))
      && Alternates(ReadReply(env, ReadOp.ZRange(start, stop, true), Ranked(scores)), MembersOf(w), ScoresOf(env, w))
  {
    hide Window, Ranking, Pairs, RankPairs, Bulks, RankMembers, Alternates, Lists, MembersOf, ScoresOf;
    RankingIff(map[], Ranking(map[]));
    NoWindow(start as int, stop as int);
    var w := Window(Ranking(scores), start as int, stop as int);
    RankPairsAlternate(env, w);
    RankMembersListed(w);
  }

  lemma RankMembersListed(w: seq<Rank>)
    ensures Lists(BulkArray(RankMembers(w)), MembersOf(w))
  {
  }

  lemma RankPairsAlternate(env: Env, w: seq<Rank>)
    ensures Alternates(Array(Pairs(RankPairs(env, w))), MembersOf(w), ScoresOf(env, w))
  {
    hide Pairs, Alternates;
    PairsAlternate(RankPairs(env, w), MembersOf(w), ScoresOf(env, w));
  }

  /**
    ZRANGE lists, out of the members in order, those from start to stop, both included and counted from
    the end when negative; with the option, each followed by its score.
  */
  lemma ZRangeAnswer(env: Env, db: DB, v: RespValue, key: Bytes, a: Bytes, b: Bytes, start: int, stop: int,
                     option: Bytes, scores: map<Bytes, Score>)
    returns (ranked: seq<Rank>, part: seq<Rank>, lo: nat)
    requires ScoresAt(db, key, scores) && IsNumber(a, start) && IsNumber(b, stop) && IsWithScores(option)
    ensures Enumerates(scores, ranked) && |ranked| == |scores|
    ensures Slice(ranked, FromEnd(start, |scores|), FromEnd(stop, |scores|), part, lo)
    ensures Asks(v, ZRANGE, [key, a, b]) ==>
      Dispatch(env, db, v).0 == db && Lists(Dispatch(env, db, v).1, MembersOf(part))
    ensures Asks(v, ZRANGE, [key, a, b, option]) ==>
      Dispatch(env, db, v).0 == db && Alternates(Dispatch(env, db, v).1, MembersOf(part), ScoresOf(env, part))
  {
    hide Asks, Dispatch, ReadReply, ScoresAt, Ranked, Ranking, Enumerates, Window, Slice, Lists;
    hide IsNumber, Alternates, ParseLL, Upper, Ascii, IsWithScores, MembersOf, ScoresOf;
    ScoresAreRanked(db, key, scores);
    ranked := Ranking(scores);
    RankingIff(scores, ranked);
    part := Window(ranked, start, stop);
    lo := WindowIsSlice(ranked, start, stop);
    NumbersFit(a, start);
    NumbersFit(b, stop);
    RangeReads(env, scores, start as i64, stop as i64);
    if Asks(v, ZRANGE, [key, a, b]) {
      AsksRange(env, db, v, ZRANGE, [key, a, b], start, stop);
    }
    if Asks(v, ZRANGE, [key, a, b, option]) {
      AsksRange(env, db, v, ZRANGE, [key, a, b, option], start, stop);
    }
  }

  lemma NumbersFit(arg: Bytes, n: int)
    requires IsNumber(arg, n)
    ensures InI64(n)
  {
  }
}
