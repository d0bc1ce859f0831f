/** What a client is answered by the commands on hashes, and what its request leaves stored. */
module HashAnswers {
  import opened Options
  import opened ByteStrings
  import opened RespValues
  import opened Store
  import opened Commands
  import opened DispatchLaws
  import opened Requests
  import opened Answers

  predicate HashAt(db: DB, key: Bytes, h: map<Bytes, Bytes>) {
    if key in db then db[key] == Hash(h) && h != map[] else h == map[]
  }

  function WithHash(db: DB, key: Bytes, h: map<Bytes, Bytes>): DB {
    if h == map[] then db - {key} else db[key := Hash(h)]
  }

  function HashSlot(h: map<Bytes, Bytes>): Slot {
    if h == map[] then None else Some(Hash(h))
  }

  lemma HashIsSlot(db: DB, key: Bytes, h: map<Bytes, Bytes>)
    requires HashAt(db, key, h)
    ensures At(db, key) == HashSlot(h)
    ensures forall g :: Put(db, key, HashSlot(g)) == WithHash(db, key, g)
  {
  }

  // ---- Fields and values in a request ----

  /** The i-th field of a flat list of fields and values, and the value after it. */
  function FieldAndValue(flat: seq<Bytes>, i: nat): (Bytes, Bytes)
    requires 2 * i + 1 < |flat|
  {
    (flat[2 * i], flat[2 * i + 1])
  }

  /** The last place at which the list gives the field a value. */
  ghost predicate LastNamed(flat: seq<Bytes>, i: nat, f: Bytes) {
    && 2 * i + 1 < |flat| && FieldAndValue(flat, i).0 == f
    && forall j: nat :: i < j && 2 * j + 1 < |flat| ==> FieldAndValue(flat, j).0 != f
  }

  ghost predicate NotNamed(flat: seq<Bytes>, f: Bytes) {
    forall j: nat :: 2 * j + 1 < |flat| ==> FieldAndValue(flat, j).0 != f
  }

  lemma {:induction false} AssignLast(h: map<Bytes, Bytes>, pairs: seq<(Bytes, Bytes)>, i: nat, f: Bytes)
    requires i < |pairs| && pairs[i].0 == f && forall j :: i < j < |pairs| ==> pairs[j].0 != f
    ensures f in Assign(h, pairs) && Assign(h, pairs)[f] == pairs[i].1
  {
    if i < |pairs| - 1 {
      AssignLast(h, pairs[..|pairs| - 1], i, f);
    }
  }

  lemma {:induction false} AssignOther(h: map<Bytes, Bytes>, pairs: seq<(Bytes, Bytes)>, f: Bytes)
    requires forall j :: 0 <= j < |pairs| ==> pairs[j].0 != f
    ensures f in Assign(h, pairs) <==> f in h
    ensures f in h ==> Assign(h, pairs)[f] == h[f]
  {
    if |pairs| > 0 {
      AssignOther(h, pairs[..|pairs| - 1], f);
    }
  }

  lemma PairsAre(flat: seq<Bytes>)
    requires |flat| % 2 == 0
    ensures |PairUp(flat)| == |flat| / 2
    ensures forall i: nat :: 2 * i + 1 < |flat| ==> PairUp(flat)[i] == FieldAndValue(flat, i)
  {
  }

  lemma HSetSlots(h: map<Bytes, Bytes>, pairs: seq<(Bytes, Bytes)>)
    requires pairs != []
    ensures var g := Assign(h, pairs);
      Apply(WriteOp.HSet(pairs), HashSlot(h)) == (HashSlot(g), Count(|g| - |h|))
  {
    hide CastI64, ApplyString, ApplyList;
    AssignNonEmpty(h, pairs);
  }

  /** HSET gives each named field the last value named for it, and answers how many fields are new. */
  lemma HSetAnswer(env: Env, db: DB, v: RespValue, key: Bytes, flat: seq<Bytes>, h: map<Bytes, Bytes>)
    returns (h': map<Bytes, Bytes>)
    requires HashAt(db, key, h) && Asks(v, HSET, [key] + flat) && flat != [] && |flat| % 2 == 0
    ensures Dispatch(env, db, v).0 == db[key := Hash(h')] && Counted(Dispatch(env, db, v).1, |h'| - |h|)
    ensures forall i, f :: LastNamed(flat, i, f) ==> f in h' && h'[f] == FieldAndValue(flat, i).1
    ensures forall f :: NotNamed(flat, f) ==> (f in h' <==> f in h) && (f in h ==> h'[f] == h[f])
  {
    hide Asks, Dispatch, Apply, Counted, CastI64, HashAt, HashSlot, Assign, PairUp, LastNamed, NotNamed, At, Put;
    AsksPairs(env, db, v, key, flat);
    PairsAre(flat);
    var pairs := PairUp(flat);
    HashIsSlot(db, key, h);
    HSetSlots(h, pairs);
    AssignNonEmpty(h, pairs);
    h' := Assign(h, pairs);
    CountIs(|h'| - |h|);
    AssignedFields(h, flat, pairs);
  }

  lemma AssignedFields(h: map<Bytes, Bytes>, flat: seq<Bytes>, pairs: seq<(Bytes, Bytes)>)
    requires |flat| % 2 == 0 && |pairs| == |flat| / 2
    requires forall i: nat :: 2 * i + 1 < |flat| ==> pairs[i] == FieldAndValue(flat, i)
    ensures var h' := Assign(h, pairs);
      && (forall i, f :: LastNamed(flat, i, f) ==> f in h' && h'[f] == FieldAndValue(flat, i).1)
      && (forall f :: NotNamed(flat, f) ==> (f in h' <==> f in h) && (f in h ==> h'[f] == h[f]))
  {
    hide Assign;
    forall i: nat, f | LastNamed(flat, i, f)
      ensures f in Assign(h, pairs) && Assign(h, pairs)[f] == FieldAndValue(flat, i).1
    {
      forall j | i < j < |pairs|
        ensures pairs[j].0 != f
      {
        assert pairs[j] == FieldAndValue(flat, j);
      }
      AssignLast(h, pairs, i, f);
    }
    forall f | NotNamed(flat, f)
      ensures (f in Assign(h, pairs) <==> f in h) && (f in h ==> Assign(h, pairs)[f] == h[f])
    {
      forall j | 0 <= j < |pairs|
        ensures pairs[j].0 != f
      {
        assert pairs[j] == FieldAndValue(flat, j);
      }
      AssignOther(h, pairs, f);
    }
  }

  lemma HDelSlots(h: map<Bytes, Bytes>, names: seq<Bytes>)
    ensures var g := h - ToSet(names);
      Apply(WriteOp.HDel(names), HashSlot(h)) == (HashSlot(g), Count(|h| - |g|))
  {
    hide CastI64, ApplyString, ApplyList, ToSet;
    if h == map[] {
      assert h - ToSet(names) == h;
    }
  }

  lemma FieldsLeft(h: map<Bytes, Bytes>, names: seq<Bytes>)
    ensures forall f :: f in h - ToSet(names) <==> f in h && f !in names
  {
  }

  /** HDEL removes the fields it names, answers how many were there, and the key goes with its last field. */
  lemma HDelAnswer(env: Env, db: DB, v: RespValue, key: Bytes, names: seq<Bytes>, h: map<Bytes, Bytes>)
    returns (h': map<Bytes, Bytes>)
    requires HashAt(db, key, h) && Asks(v, HDEL, [key] + names) && names != []
    ensures Dispatch(env, db, v).0 == WithHash(db, key, h') && Counted(Dispatch(env, db, v).1, |h| - |h'|)
    ensures forall f :: f in h' <==> f in h && f !in names
    ensures forall f :: f in h' ==> h'[f] == h[f]
  {
    hide Asks, Dispatch, Apply, Counted, CastI64, HashAt, HashSlot, WithHash, ToSet;
    AsksGivingMany(env, db, v, HDEL, key, names);
    HashIsSlot(db, key, h);
    HDelSlots(h, names);
    FieldsLeft(h, names);
    h' := h - ToSet(names);
    CountIs(|h| - |h'|);
  }

  // ---- Reading ----

  /** An array that alternates the first and the second of these, in order. */
  predicate Alternates(reply: RespValue, firsts: seq<Bytes>, seconds: seq<Bytes>)
    requires |firsts| == |seconds|
  {
    && reply.Array? && |reply.vals| == 2 * |firsts|
    && forall i :: 0 <= i < |firsts| ==>
         reply.vals[2 * i] == BulkString(firsts[i]) && reply.vals[2 * i + 1] == BulkString(seconds[i])
  }

  /** The fields of the hash, each once, and beside each its value. */
  ghost predicate Walks(h: map<Bytes, Bytes>, names: seq<Bytes>, values: seq<Bytes>) {
    && |names| == |h| == |values| && (forall f :: f in names <==> f in h)
    && forall i :: 0 <= i < |names| ==> names[i] in h && values[i] == h[names[i]]
  }

  lemma HashReads(env: Env, h: map<Bytes, Bytes>, f: Bytes)
    ensures ReadReply(env, ReadOp.HGet(f), HashSlot(h)) == if f in h then BulkString(h[f]) else NullBulkString
    ensures ReadReply(env, ReadOp.HExists(f), HashSlot(h)) == Integer(if f in h then 1 else 0)
    ensures ReadReply(env, ReadOp.HLen, HashSlot(h)) == Count(|h|)
  {
    hide CastI64;
  }

  lemma HGetAnswer(env: Env, db: DB, v: RespValue, key: Bytes, f: Bytes, h: map<Bytes, Bytes>)
    requires HashAt(db, key, h) && Asks(v, HGET, [key, f])
    ensures Dispatch(env, db, v) == (db, if f in h then BulkString(h[f]) else NullBulkString)
  {
    hide Asks, Dispatch, ReadReply, HashSlot, HashAt, At;
    AsksByMember(env, db, v, HGET, key, f);
    HashIsSlot(db, key, h);
    HashReads(env, h, f);
  }

  lemma HExistsAnswer(env: Env, db: DB, v: RespValue, key: Bytes, f: Bytes, h: map<Bytes, Bytes>)
    requires HashAt(db, key, h) && Asks(v, HEXISTS, [key, f])
    ensures Dispatch(env, db, v) == (db, Integer(if f in h then 1 else 0))
  {
    hide Asks, Dispatch, ReadReply, HashSlot, HashAt, At;
    AsksByMember(env, db, v, HEXISTS, key, f);
    HashIsSlot(db, key, h);
    HashReads(env, h, f);
  }

  lemma HLenAnswer(env: Env, db: DB, v: RespValue, key: Bytes, h: map<Bytes, Bytes>)
    requires HashAt(db, key, h) && Asks(v, HLEN, [key])
    ensures Dispatch(env, db, v).0 == db && Counted(Dispatch(env, db, v).1, |h|)
  {
    hide Asks, Dispatch, ReadReply, HashSlot, HashAt, Counted, CastI64, At;
    AsksByKey(env, db, v, HLEN, key);
    HashIsSlot(db, key, h);
    HashReads(env, h, []);
    CountIs(|h|);
  }

  lemma HashWalk(env: Env, h: map<Bytes, Bytes>) returns (names: seq<Bytes>, values: seq<Bytes>)
    requires ValidEnv(env)
    ensures Walks(h, names, values)
    ensures Alternates(ReadReply(env, ReadOp.HGetAll, HashSlot(h)), names, values)
    ensures Lists(ReadReply(env, ReadOp.HKeys, HashSlot(h)), names)
    ensures Lists(ReadReply(env, ReadOp.HVals, HashSlot(h)), values)
  {
    hide ValidEnv, Walks, Alternates, Lists, ReadReply, HashSlot, FieldPairs, Seconds;
    if h == map[] {
      names, values := [], [];
      WalksNothing(env);
    } else {
      names, values := env.order(h.Keys), Seconds(FieldPairs(env, h));
      WalksFields(env, h);
      WalkedPairs(env, h);
      WalkReplies(env, h);
    }
  }

  lemma WalksNothing(env: Env)
    ensures Walks(map[], [], []) && Alternates(Array([]), [], []) && Lists(Array([]), [])
    ensures ReadReply(env, ReadOp.HGetAll, HashSlot(map[])) == ReadReply(env, ReadOp.HKeys, HashSlot(map[]))
         == ReadReply(env, ReadOp.HVals, HashSlot(map[])) == Array([])
  {
  }

  lemma WalkReplies(env: Env, h: map<Bytes, Bytes>)
    requires h != map[]
    ensures ReadReply(env, ReadOp.HGetAll, HashSlot(h)) == Array(Pairs(FieldPairs(env, h)))
    ensures Lists(ReadReply(env, ReadOp.HKeys, HashSlot(h)), env.order(h.Keys))
    ensures Lists(ReadReply(env, ReadOp.HVals, HashSlot(h)), Seconds(FieldPairs(env, h)))
  {
    hide Pairs, FieldPairs, Seconds;
  }

  lemma WalksFields(env: Env, h: map<Bytes, Bytes>)
    requires ValidEnv(env)
    ensures Walks(h, env.order(h.Keys), Seconds(FieldPairs(env, h)))
  {
    var names := env.order(h.Keys);
    assert ToSet(names) == h.Keys && |names| == |h.Keys| == |h|;
    assert forall f :: f in names <==> f in ToSet(names);
  }

  lemma PairsAlternate(pairs: seq<(Bytes, Bytes)>, firsts: seq<Bytes>, seconds: seq<Bytes>)
    requires |firsts| == |seconds| == |pairs|
    requires forall i :: 0 <= i < |pairs| ==> pairs[i] == (firsts[i], seconds[i])
    ensures Alternates(Array(Pairs(pairs)), firsts, seconds)
  {
    forall i | 0 <= i < |pairs|
      ensures Pairs(pairs)[2 * i] == BulkString(firsts[i]) && Pairs(pairs)[2 * i + 1] == BulkString(seconds[i])
    {
      PairAt(pairs, i);
    }
  }

  lemma PairAt(pairs: seq<(Bytes, Bytes)>, i: nat)
    requires i < |pairs|
    ensures Pairs(pairs)[2 * i] == BulkString(pairs[i].0) && Pairs(pairs)[2 * i + 1] == BulkString(pairs[i].1)
  {
    assert 2 * i / 2 == i && (2 * i + 1) / 2 == i && 2 * i % 2 == 0 && (2 * i + 1) % 2 == 1;
  }

  lemma WalkedPairs(env: Env, h: map<Bytes, Bytes>)
    ensures var pairs := FieldPairs(env, h);
      && |pairs| == |env.order(h.Keys)|
      && Alternates(Array(Pairs(pairs)), env.order(h.Keys), Seconds(pairs))
  {
    hide Pairs, Alternates;
    PairsAlternate(FieldPairs(env, h), env.order(h.Keys), Seconds(FieldPairs(env, h)));
  }

  /** HGETALL, HKEYS and HVALS walk the fields in one order. */
  lemma HWalkAnswer(env: Env, db: DB, v: RespValue, key: Bytes, h: map<Bytes, Bytes>)
    returns (names: seq<Bytes>, values: seq<Bytes>)
    requires ValidEnv(env) && HashAt(db, key, h)
    ensures Walks(h, names, values)
    ensures Asks(v, HGETALL, [key]) ==>
      Dispatch(env, db, v).0 == db && Alternates(Dispatch(env, db, v).1, names, values)
    ensures Asks(v, HKEYS, [key]) ==> Dispatch(env, db, v).0 == db && Lists(Dispatch(env, db, v).1, names)
    ensures Asks(v, HVALS, [key]) ==> Dispatch(env, db, v).0 == db && Lists(Dispatch(env, db, v).1, values)
  {
    hide Asks, Dispatch, ReadReply, HashSlot, HashAt, ValidEnv, Lists, Alternates, Walks, At;
    HashIsSlot(db, key, h);
    names, values := HashWalk(env, h);
    if Asks(v, HGETALL, [key]) {
      AsksByKey(env, db, v, HGETALL, key);
    }
    if Asks(v, HKEYS, [key]) {
      AsksByKey(env, db, v, HKEYS, key);
    }
    if Asks(v, HVALS, [key]) {
      AsksByKey(env, db, v, HVALS, key);
    }
  }

  /** HSET and then HGET of a field it names: the last value it gave that field. */
  lemma HSetThenHGet(env: Env, db: DB, v1: RespValue, v2: RespValue, key: Bytes, flat: seq<Bytes>, i: nat,
                     h: map<Bytes, Bytes>)
    requires HashAt(db, key, h) && flat != [] && |flat| % 2 == 0 && 2 * i + 1 < |flat|
    requires Asks(v1, HSET, [key] + flat) && LastNamed(flat, i, flat[2 * i]) && Asks(v2, HGET, [key, flat[2 * i]])
    ensures Dispatch(env, Dispatch(env, db, v1).0, v2).1 == BulkString(flat[2 * i + 1])
  {
    hide Asks, Dispatch, Counted, LastNamed, NotNamed;
    var h' := HSetAnswer(env, db, v1, key, flat, h);
    HGetAnswer(env, Dispatch(env, db, v1).0, v2, key, flat[2 * i], h');
  }
}
