/**
  What a client is answered by the commands on lists, hashes, sets and sorted sets, and what its request
  leaves stored, in terms of requests, bytes, numbers and stored values only.
*/
module CollectionAnswers {
  import opened Options
  import opened ByteStrings
  import opened Decimal
  import opened RespValues
  import opened Ranks
  import opened Store
  import opened Commands
  import opened Requests
  import opened Answers

  // ---- Lists ----

  /** The list at a key; a missing key counts as the empty list, and none that is empty is stored. */
  predicate ListAt(db: DB, key: Bytes, es: seq<Bytes>) {
    if key in db then db[key] == List(es) && es != [] else es == []
  }

  /** The database with this list at the key, which goes when the list is empty. */
  function WithList(db: DB, key: Bytes, es: seq<Bytes>): DB {
    if es == [] then db - {key} else db[key := List(es)]
  }

  lemma ListIsSlot(db: DB, key: Bytes, es: seq<Bytes>)
    requires ListAt(db, key, es)
    ensures At(db, key) == ListSlot(es)
    ensures forall l :: Put(db, key, ListSlot(l)) == WithList(db, key, l)
    ensures WithList(db, key, es) == db
  {
  }

  lemma LPushSlots(es: seq<Bytes>, vals: seq<Bytes>)
    requires vals != []
    ensures Apply(LPush(vals), ListSlot(es)) == (ListSlot(Reverse(vals) + es), Count(|vals| + |es|))
  {
    hide CastI64, Reverse, ApplyString, ApplyCollection;
    assert Reverse(vals) + [] == Reverse(vals);
  }

  lemma RPushSlots(es: seq<Bytes>, vals: seq<Bytes>)
    requires vals != []
    ensures Apply(RPush(vals), ListSlot(es)) == (ListSlot(es + vals), Count(|es| + |vals|))
  {
    hide CastI64, ApplyString, ApplyCollection;
    assert [] + vals == vals;
  }

  /** LPUSH puts each value in front of those before it. */
  lemma LPushAnswer(env: Env, db: DB, v: RespValue, key: Bytes, vals: seq<Bytes>, es: seq<Bytes>)
    returns (l: seq<Bytes>)
    requires ListAt(db, key, es) && Asks(v, LPUSH, [key] + vals) && vals != []
    ensures Dispatch(env, db, v).0 == WithList(db, key, l) && Counted(Dispatch(env, db, v).1, |l|)
    ensures |l| == |vals| + |es|
    ensures forall i :: 0 <= i < |vals| ==> l[i] == vals[|vals| - 1 - i]
    ensures forall i :: 0 <= i < |es| ==> l[|vals| + i] == es[i]
  {
    hide Asks, Dispatch, Apply, ListAt, ListSlot, WithList, Counted, CastI64;
    AsksGivingMany(env, db, v, LPUSH, key, vals);
    ListIsSlot(db, key, es);
    LPushSlots(es, vals);
    CountIs(|vals| + |es|);
    l := Reverse(vals) + es;
  }

  lemma RPushAnswer(env: Env, db: DB, v: RespValue, key: Bytes, vals: seq<Bytes>, es: seq<Bytes>)
    requires ListAt(db, key, es) && Asks(v, RPUSH, [key] + vals) && vals != []
    ensures Dispatch(env, db, v).0 == WithList(db, key, es + vals)
    ensures Counted(Dispatch(env, db, v).1, |es| + |vals|)
  {
    hide Asks, Dispatch, Apply, ListAt, ListSlot, WithList, Counted, CastI64;
    AsksGivingMany(env, db, v, RPUSH, key, vals);
    ListIsSlot(db, key, es);
    RPushSlots(es, vals);
    CountIs(|es| + |vals|);
  }

  lemma PopSlots(es: seq<Bytes>)
    ensures es == [] ==> Apply(LPop, ListSlot(es)) == Apply(RPop, ListSlot(es)) == (ListSlot([]), NullBulkString)
    ensures es != [] ==> Apply(LPop, ListSlot(es)) == (ListSlot(es[1..]), BulkString(es[0]))
    ensures es != [] ==> Apply(RPop, ListSlot(es)) == (ListSlot(es[..|es| - 1]), BulkString(es[|es| - 1]))
  {
  }

  /** LPOP takes the first element, RPOP the last. */
  lemma PopAnswer(env: Env, db: DB, v: RespValue, key: Bytes, es: seq<Bytes>)
    requires ListAt(db, key, es)
    ensures Asks(v, LPOP, [key]) || Asks(v, RPOP, [key]) ==>
      (es == [] ==> Dispatch(env, db, v) == (db, NullBulkString))
    ensures Asks(v, LPOP, [key]) && es != [] ==>
      Dispatch(env, db, v) == (WithList(db, key, es[1..]), BulkString(es[0]))
    ensures Asks(v, RPOP, [key]) && es != [] ==>
      Dispatch(env, db, v) == (WithList(db, key, es[..|es| - 1]), BulkString(es[|es| - 1]))
  {
    hide Asks, Dispatch, Apply, ListAt, ListSlot, WithList;
    ListIsSlot(db, key, es);
    PopSlots(es);
    if Asks(v, LPOP, [key]) {
      AsksTaking(env, db, v, LPOP, key);
    }
    if Asks(v, RPOP, [key]) {
      AsksTaking(env, db, v, RPOP, key);
    }
  }

  lemma LLenAnswer(env: Env, db: DB, v: RespValue, key: Bytes, es: seq<Bytes>)
    requires ListAt(db, key, es) && Asks(v, LLEN, [key])
    ensures Dispatch(env, db, v).0 == db && Counted(Dispatch(env, db, v).1, |es|)
  {
    hide Asks, Dispatch, Counted, CastI64;
    AsksByKey(env, db, v, LLEN, key);
    CountIs(|es|);
  }

  /** A negative index counts from the end: -1 is the last element. */
  function FromEnd(i: int, n: nat): int {
    if i < 0 then i + n else i
  }

  lemma LIndexAnswer(env: Env, db: DB, v: RespValue, key: Bytes, arg: Bytes, i: int, es: seq<Bytes>)
    requires ListAt(db, key, es) && Asks(v, LINDEX, [key, arg]) && IsNumber(arg, i)
    ensures var at := FromEnd(i, |es|);
      Dispatch(env, db, v) == (db, if 0 <= at < |es| then BulkString(es[at]) else NullBulkString)
  {
    hide Asks, Dispatch, ParseLL, Upper, Ascii;
    AsksIndex(env, db, v, key, arg, i);
  }

  predicate Between(first: int, j: int, last: int) {
    first <= j <= last
  }

  /** The elements with an index from `first` to `last`, both included: exactly these, in order. */
  predicate Slice<T(==)>(es: seq<T>, first: int, last: int, part: seq<T>, lo: nat) {
    && lo + |part| <= |es|
    && (forall i :: 0 <= i < |part| ==> part[i] == es[lo + i])
    && (forall j :: 0 <= j < |es| ==> (lo <= j < lo + |part| <==> Between(first, j, last)))
  }

  lemma WindowIsSlice<T>(es: seq<T>, start: int, stop: int) returns (lo: nat)
    ensures Slice(es, FromEnd(start, |es|), FromEnd(stop, |es|), Window(es, start, stop), lo)
  {
    var a, b := WindowExact(es, start, stop);
    lo := a;
    forall j | 0 <= j < |es|
      ensures a <= j < b <==> Between(FromEnd(start, |es|), j, FromEnd(stop, |es|))
    {
      assert a <= j < b <==> InWindow(|es|, j, start, stop);
    }
  }

  /** LRANGE lists the elements from start to stop, both included and counted from the end when negative. */
  lemma LRangeAnswer(env: Env, db: DB, v: RespValue, key: Bytes, a: Bytes, b: Bytes, start: int, stop: int,
                     es: seq<Bytes>) returns (part: seq<Bytes>, lo: nat)
    requires ListAt(db, key, es) && Asks(v, LRANGE, [key, a, b]) && IsNumber(a, start) && IsNumber(b, stop)
    ensures Dispatch(env, db, v).0 == db && Lists(Dispatch(env, db, v).1, part)
    ensures Slice(es, FromEnd(start, |es|), FromEnd(stop, |es|), part, lo)
  {
    hide Asks, Dispatch, ParseLL, Upper, Ascii, Window, Slice, IsNumber;
    AsksRange(env, db, v, LRANGE, [key, a, b], start, stop);
    part := Window(es, start, stop);
    lo := WindowIsSlice(es, start, stop);
    NoWindow(start, stop);
  }

  lemma NoWindow(start: int, stop: int)
    ensures Window<Bytes>([], start, stop) == []
    ensures Window<Rank>([], start, stop) == []
  {
  }

  // ---- Sets ----

  predicate SetAt(db: DB, key: Bytes, s: set<Bytes>) {
    if key in db then db[key] == Value.Set(s) && s != {} else s == {}
  }

  function WithSet(db: DB, key: Bytes, s: set<Bytes>): DB {
    if s == {} then db - {key} else db[key := Value.Set(s)]
  }

  function SetSlot(s: set<Bytes>): Slot {
    if s == {} then None else Some(Value.Set(s))
  }

  lemma SetIsSlot(db: DB, key: Bytes, s: set<Bytes>)
    requires SetAt(db, key, s)
    ensures At(db, key) == SetSlot(s)
    ensures forall t :: Put(db, key, SetSlot(t)) == WithSet(db, key, t)
  {
  }

  lemma SetSlots(s: set<Bytes>, members: seq<Bytes>)
    requires members != []
    ensures var more, less := s + ToSet(members), s - ToSet(members);
      && Apply(SAdd(members), SetSlot(s)) == (SetSlot(more), Count(|more| - |s|))
      && Apply(SRem(members), SetSlot(s)) == (SetSlot(less), Count(|s| - |less|))
  {
    hide CastI64, ApplyString, ApplyList;
    assert members[0] in ToSet(members);
    hide ToSet;
    assert {} + ToSet(members) == ToSet(members) && {} - ToSet(members) == {};
  }

  lemma ToSetHas(s: seq<Bytes>)
    ensures forall x :: x in ToSet(s) <==> x in s
  {
  }

  /** SADD adds its arguments as a set and answers how many were new. */
  lemma SAddAnswer(env: Env, db: DB, v: RespValue, key: Bytes, members: seq<Bytes>, s: set<Bytes>)
    returns (s': set<Bytes>)
    requires SetAt(db, key, s) && Asks(v, SADD, [key] + members) && members != []
    ensures Dispatch(env, db, v).0 == WithSet(db, key, s') && Counted(Dispatch(env, db, v).1, |s'| - |s|)
    ensures forall m :: m in s' <==> m in s || m in members
  {
    hide Asks, Dispatch, Apply, Counted, CastI64, ToSet, SetAt, SetSlot, WithSet;
    AsksGivingMany(env, db, v, SADD, key, members);
    SetIsSlot(db, key, s);
    SetSlots(s, members);
    ToSetHas(members);
    s' := s + ToSet(members);
    CountIs(|s'| - |s|);
  }

  /** SREM removes them, answers how many were there, and the key goes with its last member. */
  lemma SRemAnswer(env: Env, db: DB, v: RespValue, key: Bytes, members: seq<Bytes>, s: set<Bytes>)
    returns (s': set<Bytes>)
    requires SetAt(db, key, s) && Asks(v, SREM, [key] + members) && members != []
    ensures Dispatch(env, db, v).0 == WithSet(db, key, s') && Counted(Dispatch(env, db, v).1, |s| - |s'|)
    ensures forall m :: m in s' <==> m in s && m !in members
  {
    hide Asks, Dispatch, Apply, Counted, CastI64, ToSet, SetAt, SetSlot, WithSet;
    AsksGivingMany(env, db, v, SREM, key, members);
    SetIsSlot(db, key, s);
    SetSlots(s, members);
    ToSetHas(members);
    s' := s - ToSet(members);
    CountIs(|s| - |s'|);
  }

  lemma SetReads(env: Env, s: set<Bytes>, m: Bytes)
    requires ValidEnv(env)
    ensures ReadReply(env, SIsMember(m), SetSlot(s)) == Integer(if m in s then 1 else 0)
    ensures ReadReply(env, ReadOp.SCard, SetSlot(s)) == Count(|s|)
    ensures ListsSet(ReadReply(env, ReadOp.SMembers, SetSlot(s)), s)
  {
    hide CastI64, BulkArray, ListsSet;
    WalkLists(env, s);
    EmptyLists();
    hide ValidEnv;
  }

  lemma SIsMemberAnswer(env: Env, db: DB, v: RespValue, key: Bytes, m: Bytes, s: set<Bytes>)
    requires ValidEnv(env) && SetAt(db, key, s) && Asks(v, SISMEMBER, [key, m])
    ensures Dispatch(env, db, v) == (db, Integer(if m in s then 1 else 0))
  {
    hide Asks, Dispatch, ReadReply, SetSlot, SetAt, ValidEnv;
    AsksByMember(env, db, v, SISMEMBER, key, m);
    SetIsSlot(db, key, s);
    SetReads(env, s, m);
  }

  lemma SCardAnswer(env: Env, db: DB, v: RespValue, key: Bytes, s: set<Bytes>)
    requires ValidEnv(env) && SetAt(db, key, s)
    ensures Asks(v, SCARD, [key]) ==> Dispatch(env, db, v).0 == db && Counted(Dispatch(env, db, v).1, |s|)
    ensures Asks(v, SMEMBERS, [key]) ==> Dispatch(env, db, v).0 == db && ListsSet(Dispatch(env, db, v).1, s)
  {
    hide Asks, Dispatch, ReadReply, SetSlot, SetAt, ValidEnv, Counted, ListsSet, CastI64;
    SetIsSlot(db, key, s);
    SetReads(env, s, []);
    if Asks(v, SCARD, [key]) {
      AsksByKey(env, db, v, SCARD, key);
      CountIs(|s|);
    }
    if Asks(v, SMEMBERS, [key]) {
      AsksByKey(env, db, v, SMEMBERS, key);
    }
  }

  lemma EmptyLists()
    ensures ListsSet(Array([]), {})
  {
    var none: seq<Bytes> := [];
    assert Lists(Array([]), none);
  }
}
