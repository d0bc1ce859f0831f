/** What holds of every command that goes through `dispatch`, in every reachable state. */
module DispatchLaws {
  import opened Options
  import opened ByteStrings
  import opened Decimal
  import opened RespValues
  import opened Ranks
  import opened Store
  import opened Commands
  import opened Requests
  import opened Parser
  import opened Serializer
  import opened RoundTrips

  // ---- Arity checks make the container loops run at least once ----

  predicate LegalOp(op: WriteOp) {
    match op
    case LPush(vals) => |vals| > 0
    case RPush(vals) => |vals| > 0
    case HSet(pairs) => |pairs| > 0
    case SAdd(members) => |members| > 0
    case _ => true
  }

  predicate Legal(cmd: Cmd) {
    cmd.Write? ==> LegalOp(cmd.wop)
  }

  lemma PlainIsLegal(verb: Verb, args: seq<Bytes>)
    requires |args| > 0 && ArityOk(verb, |args|) && !Numeric(verb)
    ensures var p := ParsePlain(verb, args); p.Accept? && Legal(p.cmd)
  {
  }

  lemma NumericIsLegal(env: Env, verb: Verb, args: seq<Bytes>)
    requires |args| > 0 && ArityOk(verb, |args|) && Numeric(verb)
    ensures var p := ParseNumeric(env, verb, args); p.Accept? ==> Legal(p.cmd)
  {
    hide Ascii, Upper, ParseLL;
  }

  lemma ParsedIsLegal(env: Env, v: RespValue)
    ensures var p := ParseCommand(env, v); p.Accept? ==> Legal(p.cmd)
  {
    hide Lookup, Upper, ParsePlain, ParseNumeric, Legal, ArityOk;
    if IsCommand(v) && Lookup(Upper(Args(v)[0])).Some? {
      var verb, args := Lookup(Upper(Args(v)[0])).value, Args(v);
      if ArityOk(verb, |args|) {
        if Numeric(verb) {
          NumericIsLegal(env, verb, args);
        } else {
          PlainIsLegal(verb, args);
        }
      }
    }
  }

  // ---- Invariants of the store ----

  lemma {:induction false} AssignNonEmpty(fields: map<Bytes, Bytes>, pairs: seq<(Bytes, Bytes)>)
    ensures |pairs| > 0 || fields != map[] ==> Assign(fields, pairs) != map[]
  {
    if |pairs| > 0 {
      assert pairs[|pairs| - 1].0 in Assign(fields, pairs);
    }
  }

  lemma InToSet<T>(s: seq<T>, i: nat)
    requires i < |s|
    ensures s[i] in ToSet(s)
  {
  }

  lemma RankedSound(scores: map<Bytes, Score>)
    ensures Sound(Ranked(scores))
  {
    IndexIsRanking(scores, Ranking(scores));
  }

  lemma StringSound(op: WriteOp, slot: Slot)
    requires Sound(slot) && StringOp(op)
    ensures Sound(ApplyString(op, slot).0)
  {
  }

  lemma ListSound(op: WriteOp, slot: Slot)
    requires Sound(slot) && ListOp(op) && LegalOp(op)
    ensures Sound(ApplyList(op, slot).0)
  {
  }

  lemma CollectionSound(op: WriteOp, slot: Slot)
    requires Sound(slot) && !StringOp(op) && !ListOp(op) && LegalOp(op)
    ensures Sound(ApplyCollection(op, slot).0)
  {
    hide IndexAgrees, Ranked, Assign, ToSet;
    match op
    case HSet(pairs) =>
      AssignNonEmpty(if slot.Some? && slot.value.Hash? then slot.value.fields else map[], pairs);
    case SAdd(members) =>
      InToSet(members, 0);
    case ZAdd(score, member) =>
      RankedSound(map[member := score]);
      if slot.Some? && slot.value.SortedSet? {
        RankedSound(slot.value.scores[member := score]);
      }
    case ZRem(members) =>
      if slot.Some? && slot.value.SortedSet? {
        RankedSound(slot.value.scores - ToSet(members));
      }
    case _ =>
  }

  /** One command keeps what its key holds sound: non-empty, with an index that agrees. */
  lemma ApplySound(op: WriteOp, slot: Slot)
    requires Sound(slot) && LegalOp(op)
    ensures Sound(Apply(op, slot).0)
  {
    hide ApplyString, ApplyList, ApplyCollection, Sound, LegalOp;
    if StringOp(op) {
      StringSound(op, slot);
    } else if ListOp(op) {
      ListSound(op, slot);
    } else {
      CollectionSound(op, slot);
    }
  }

  /**
    Without the arity checks it would not: a push, HSET or SADD of nothing stores an empty collection
    exactly when the key is missing.
  */
  lemma ApplySoundIff(op: WriteOp, slot: Slot)
    requires Sound(slot)
    ensures Sound(Apply(op, slot).0) <==> LegalOp(op) || slot.Some?
  {
    hide Ranking, IndexAgrees, CastI64, WRONGTYPE_MSG;
    if LegalOp(op) {
      ApplySound(op, slot);
    } else {
      NothingToAdd(op, slot);
    }
  }

  lemma NothingToAdd(op: WriteOp, slot: Slot)
    requires !LegalOp(op)
    ensures slot.Some? ==> Apply(op, slot).0 == slot
    ensures slot.None? ==> Apply(op, slot).0.Some? && !NonEmpty(Apply(op, slot).0.value)
  {
    hide WRONGTYPE_MSG, CastI64;
    if slot.Some? && slot.value.List? {
      assert Store.Reverse<Bytes>([]) + slot.value.elements == slot.value.elements == slot.value.elements + [];
    }
    assert Store.Reverse<Bytes>([]) == [];
    assert ToSet<Bytes>([]) == {};
    assert slot.Some? && slot.value.Set? ==> slot.value.members + {} == slot.value.members;
  }

  lemma PutSound(db: DB, key: Bytes, slot: Slot)
    requires SoundDB(db) && Sound(slot)
    ensures SoundDB(Put(db, key, slot))
  {
  }

  lemma ExecSound(env: Env, db: DB, cmd: Cmd)
    requires SoundDB(db) && Legal(cmd)
    ensures SoundDB(Exec(env, db, cmd).0)
  {
    hide Sound, Apply;
    if cmd.Write? {
      NothingIsSound();
      ApplySound(cmd.wop, At(db, cmd.key));
      PutSound(db, cmd.key, Apply(cmd.wop, At(db, cmd.key)).0);
    }
  }

  lemma NothingIsSound()
    ensures Sound(None)
  {
  }

  /**
    Whatever value a client sends, no empty collection is ever stored and every sorted set's index is
    exactly its members in order.
  */
  lemma DispatchSound(env: Env, db: DB, v: RespValue)
    requires SoundDB(db)
    ensures SoundDB(Dispatch(env, db, v).0)
  {
    hide ParseCommand, Exec, SoundDB;
    ParsedIsLegal(env, v);
    var p := ParseCommand(env, v);
    if p.Accept? {
      ExecSound(env, db, p.cmd);
    }
  }

  // ---- Atomicity ----

  lemma ApplyAtomic(op: WriteOp, slot: Slot)
    requires Apply(op, slot).1.SimpleError?
    ensures Apply(op, slot).0 == slot
  {
  }

  /** An error reply means the database is unchanged. */
  lemma DispatchAtomic(env: Env, db: DB, v: RespValue)
    requires Dispatch(env, db, v).1.SimpleError?
    ensures Dispatch(env, db, v).0 == db
  {
    hide ParseCommand, Apply;
    var p := ParseCommand(env, v);
    if p.Accept? && p.cmd.Write? {
      ApplyAtomic(p.cmd.wop, At(db, p.cmd.key));
      PutSame(db, p.cmd.key);
    }
  }

  // ---- Frame ----

  /** The keys a command names. */
  function Named(cmd: Cmd): set<Bytes> {
    match cmd
    case Exists(keys) => ToSet(keys)
    case Del(keys) => ToSet(keys)
    case Read(key, _) => {key}
    case Write(key, _) => {key}
    case _ => {}
  }

  /** What a command does to one key depends on what that key held, and on nothing else. */
  ghost function Effect(cmd: Cmd, key: Bytes, slot: Slot): Slot {
    if cmd.Write? && cmd.key == key then Apply(cmd.wop, slot).0
    else if cmd.Del? && key in cmd.keys then None
    else slot
  }

  lemma PutAt(db: DB, k: Bytes, slot: Slot, key: Bytes)
    ensures At(Put(db, k, slot), key) == if k == key then slot else At(db, key)
  {
  }

  lemma MinusAt(db: DB, keys: seq<Bytes>, key: Bytes)
    ensures At(db - ToSet(keys), key) == if key in keys then None else At(db, key)
    ensures key in ToSet(keys) <==> key in keys
  {
  }

  lemma ExecLocal(env: Env, db: DB, cmd: Cmd, key: Bytes)
    ensures At(Exec(env, db, cmd).0, key) == Effect(cmd, key, At(db, key))
    ensures key !in Named(cmd) ==> At(Exec(env, db, cmd).0, key) == At(db, key)
    ensures cmd.Write? && cmd.key == key ==> Exec(env, db, cmd).1 == Apply(cmd.wop, At(db, key)).1
  {
    hide Apply, ReadReply, CountPresent, BulkArray, Count, Ascii, ToSet, Put, At;
    match cmd
    case Write(k, op) => PutAt(db, k, Apply(op, At(db, k)).0, key);
    case Del(keys) => MinusAt(db, keys, key);
    case _ =>
  }

  lemma SameDB(a: DB, b: DB)
    requires forall key :: At(a, key) == At(b, key)
    ensures a == b
  {
    assert forall key :: key in a <==> key in b by {
      assert forall key :: At(a, key).Some? <==> key in a;
      assert forall key :: At(b, key).Some? <==> key in b;
    }
    forall key | key in a
      ensures a[key] == b[key]
    {
      assert At(a, key) == Some(a[key]) && At(b, key) == Some(b[key]);
    }
  }

  /** The commands whose reply depends on at most one key. */
  predicate OnOneKey(cmd: Cmd) {
    cmd.Read? || cmd.Write? || cmd.Echo? || cmd.Ping?
  }

  /**
    Commands that name different keys commute: in either order they leave the same database, and those
    on one key give the same reply before and after the other.
  */
  lemma DisjointCommute(env: Env, db: DB, a: Cmd, b: Cmd)
    requires Named(a) !! Named(b)
    ensures Exec(env, Exec(env, db, a).0, b).0 == Exec(env, Exec(env, db, b).0, a).0
    ensures OnOneKey(a) ==> Exec(env, Exec(env, db, b).0, a).1 == Exec(env, db, a).1
  {
    var ab, ba := Exec(env, Exec(env, db, a).0, b).0, Exec(env, Exec(env, db, b).0, a).0;
    forall key
      ensures At(ab, key) == At(ba, key)
    {
      CommuteAt(env, db, a, b, key);
    }
    hide Exec;
    SameDB(ab, ba);
    if OnOneKey(a) {
      SameReply(env, db, a, b);
    }
  }

  lemma CommuteAt(env: Env, db: DB, a: Cmd, b: Cmd, key: Bytes)
    requires Named(a) !! Named(b)
    ensures At(Exec(env, Exec(env, db, a).0, b).0, key) == At(Exec(env, Exec(env, db, b).0, a).0, key)
  {
    hide Exec, Effect, Named, At;
    ExecLocal(env, db, a, key);
    ExecLocal(env, db, b, key);
    ExecLocal(env, Exec(env, db, a).0, b, key);
    ExecLocal(env, Exec(env, db, b).0, a, key);
  }

  lemma SameReply(env: Env, db: DB, a: Cmd, b: Cmd)
    requires Named(a) !! Named(b) && OnOneKey(a)
    ensures Exec(env, Exec(env, db, b).0, a).1 == Exec(env, db, a).1
  {
    if a.Read? || a.Write? {
      hide Apply, ReadReply, At;
      assert a.key in Named(a);
      ExecLocal(env, db, b, a.key);
    }
  }

  lemma PlainNames(verb: Verb, args: seq<Bytes>, key: Bytes)
    requires |args| > 0 && ArityOk(verb, |args|) && !Numeric(verb)
    ensures var p := ParsePlain(verb, args); p.Accept? && (key in Named(p.cmd) ==> key in args[1..])
  {
  }

  lemma NumericNames(env: Env, verb: Verb, args: seq<Bytes>, key: Bytes)
    requires |args| > 0 && ArityOk(verb, |args|) && Numeric(verb)
    ensures var p := ParseNumeric(env, verb, args); p.Accept? && key in Named(p.cmd) ==> key in args[1..]
  {
    hide Ascii, Upper, ParseLL;
    assert args[1] == args[1..][0];
  }

  /** Only the keys among a command's arguments can change. */
  lemma DispatchFrame(env: Env, db: DB, v: RespValue, key: Bytes)
    requires IsCommand(v) ==> key !in Args(v)[1..]
    ensures At(Dispatch(env, db, v).0, key) == At(db, key)
  {
    hide Exec, ParsePlain, ParseNumeric, ArityOk, Lookup, Upper, Named;
    var p := ParseCommand(env, v);
    if p.Accept? {
      var args := Args(v);
      var verb := Lookup(Upper(args[0])).value;
      if Numeric(verb) {
        NumericNames(env, verb, args, key);
      } else {
        PlainNames(verb, args, key);
      }
      ExecLocal(env, db, p.cmd, key);
    }
  }

  // ---- Type stability ----

  predicate SameType(a: Value, b: Value) {
    && a.Str? == b.Str?
    && a.List? == b.List?
    && a.Hash? == b.Hash?
    && a.Set? == b.Set?
    && a.SortedSet? == b.SortedSet?
  }

  lemma StringType(op: WriteOp, slot: Slot)
    requires StringOp(op) && slot.Some? && !op.Set? && ApplyString(op, slot).0.Some?
    ensures SameType(slot.value, ApplyString(op, slot).0.value)
  {
    hide IntStr, Stoll, Ascii, WRONGTYPE_MSG;
  }

  lemma ListType(op: WriteOp, slot: Slot)
    requires ListOp(op) && slot.Some? && ApplyList(op, slot).0.Some?
    ensures SameType(slot.value, ApplyList(op, slot).0.value)
  {
    hide Reverse, CastI64, WRONGTYPE_MSG;
  }

  lemma CollectionType(op: WriteOp, slot: Slot)
    requires !StringOp(op) && !ListOp(op) && slot.Some? && ApplyCollection(op, slot).0.Some?
    ensures SameType(slot.value, ApplyCollection(op, slot).0.value)
  {
    hide Ranking, Assign, ToSet;
  }

  lemma ApplyType(op: WriteOp, slot: Slot)
    requires slot.Some? && !op.Set? && Apply(op, slot).0.Some?
    ensures SameType(slot.value, Apply(op, slot).0.value)
  {
    hide ApplyString, ApplyList, ApplyCollection, SameType;
    if StringOp(op) {
      StringType(op, slot);
    } else if ListOp(op) {
      ListType(op, slot);
    } else {
      CollectionType(op, slot);
    }
  }

  /** Only SET can turn a present value into one of another type. */
  lemma TypeStable(env: Env, db: DB, cmd: Cmd, key: Bytes)
    requires key in db && key in Exec(env, db, cmd).0
    requires cmd.Write? && cmd.key == key ==> !cmd.wop.Set?
    ensures SameType(db[key], Exec(env, db, cmd).0[key])
  {
    hide Exec, Apply, SameType;
    ExecLocal(env, db, cmd, key);
    SameTypeReflexive(db[key]);
    if cmd.Write? && cmd.key == key {
      ApplyType(cmd.wop, At(db, key));
    }
  }

  lemma SameTypeReflexive(v: Value)
    ensures SameType(v, v)
  {
  }

  // ---- Replies ----

  /**
    What a container or string of the platform can hold: strings up to 2^63 - 1 bytes, containers of
    elements of at least two bytes each.
  */
  const CONTAINER_MAX: int := 0x3FFF_FFFF_FFFF_FFFF

  predicate FitsAll(items: set<Bytes>) {
    |items| <= CONTAINER_MAX && forall x :: x in items ==> |x| <= I64_MAX
  }

  predicate FitsSeq(items: seq<Bytes>) {
    |items| <= CONTAINER_MAX && forall i :: 0 <= i < |items| ==> |items[i]| <= I64_MAX
  }

  ghost predicate FitsValue(v: Value) {
    match v
    case Str(text) => |text| <= I64_MAX
    case List(es) => FitsSeq(es)
    case Hash(fields) => FitsAll(fields.Keys) && forall k :: k in fields ==> |fields[k]| <= I64_MAX
    case Set(s) => FitsAll(s)
    case SortedSet(_, ranks) =>
      |ranks| <= CONTAINER_MAX && forall i :: 0 <= i < |ranks| ==> |ranks[i].member| <= I64_MAX
  }

  ghost predicate FitsDB(db: DB) {
    FitsAll(db.Keys) && forall k :: k in db ==> FitsValue(db[k])
  }

  predicate Printable(s: string) {
    forall i :: 0 <= i < |s| ==> ' ' <= s[i] <= '~'
  }

  lemma AsciiIsLine(s: string)
    requires Printable(s)
    ensures IsLine(Ascii(s))
  {
    var r := Ascii(s);
    forall i | 0 <= i < |r|
      ensures r[i] != CR && r[i] != LF
    {
      assert ' ' <= s[i] <= '~';
    }
  }

  lemma JoinedLines(a: Bytes, b: Bytes)
    requires IsLine(a) && IsLine(b)
    ensures IsLine(a + b)
  {
  }

  lemma InvalidIsLine()
    ensures WellFormed(SimpleError(INVALID_MSG))
  {
    hide Ascii, IsLine;
    AsciiIsLine("INVALID Command format is ");
    AsciiIsLine("invalid for this command");
    JoinedLines(Ascii("INVALID Command format is "), Ascii("invalid for this command"));
  }

  lemma WrongTypeIsLine()
    ensures WellFormed(SimpleError(WRONGTYPE_MSG))
  {
    hide Ascii, IsLine;
    AsciiIsLine("WRONGTYPE Operation against a key ");
    AsciiIsLine("holding the wrong kind of value");
    JoinedLines(Ascii("WRONGTYPE Operation against a key "), Ascii("holding the wrong kind of value"));
  }

  lemma OutOfRangeIsLine()
    ensures WellFormed(SimpleError(OOR_MSG))
  {
    hide Ascii, IsLine;
    AsciiIsLine("OUT OF RANGE Operation pushes ");
    AsciiIsLine("value past 64-bit integer bounds");
    JoinedLines(Ascii("OUT OF RANGE Operation pushes "), Ascii("value past 64-bit integer bounds"));
  }

  lemma NotIntegerIsLine()
    ensures WellFormed(SimpleError(NOTINTEGER_MSG))
  {
    hide Ascii, IsLine;
    AsciiIsLine("NOT INTEGER Target element ");
    AsciiIsLine("cannot be converted to an integer");
    JoinedLines(Ascii("NOT INTEGER Target element "), Ascii("cannot be converted to an integer"));
  }

  lemma ErrorRepliesWellFormed(e: DBError)
    ensures WellFormed(ErrorReply(e))
  {
    hide WellFormed;
    WrongTypeIsLine();
    OutOfRangeIsLine();
    NotIntegerIsLine();
  }

  lemma TypeNamesAreLines(v: Value)
    ensures IsLine(TypeName(v))
  {
    hide Ascii, IsLine;
    AsciiIsLine("String");
    AsciiIsLine("List");
    AsciiIsLine("Hash");
    AsciiIsLine("Set");
    AsciiIsLine("Sorted Set");
  }

  ghost predicate FitsSlot(slot: Slot) {
    slot.Some? ==> FitsValue(slot.value)
  }

  lemma BulkArrayWellFormed(items: seq<Bytes>)
    requires FitsSeq(items)
    ensures WellFormed(BulkArray(items))
  {
  }

  lemma PairsWellFormed(items: seq<(Bytes, Bytes)>)
    requires |items| <= CONTAINER_MAX
    requires forall i :: 0 <= i < |items| ==> |items[i].0| <= I64_MAX && |items[i].1| <= I64_MAX
    ensures WellFormed(Array(Pairs(items)))
  {
  }

  /** Walking an unordered container that fits gives a sequence that fits. */
  lemma WalkFits(env: Env, s: set<Bytes>)
    requires ValidEnv(env) && FitsAll(s)
    ensures FitsSeq(env.order(s))
    ensures forall i :: 0 <= i < |env.order(s)| ==> env.order(s)[i] in s
  {
    var walk := env.order(s);
    assert ToSet(walk) == s;
    forall i | 0 <= i < |walk|
      ensures walk[i] in s
    {
      assert walk[i] in ToSet(walk);
    }
  }

  lemma ReadStringReply(op: ReadOp, slot: Slot)
    requires FitsSlot(slot) && (op.Get? || op.StrLen?)
    ensures WellFormed(ReadString(op, slot))
  {
    WrongTypeIsLine();
  }

  lemma ReadListReply(op: ReadOp, slot: Slot)
    requires FitsSlot(slot) && (op.LIndex? || op.LLen? || op.LRange?)
    ensures WellFormed(ReadList(op, slot))
  {
    hide WRONGTYPE_MSG;
    ErrorRepliesWellFormed(WRONGTYPE);
    if op.LRange? {
      var r := Store.LRange(slot, op.start as int, op.stop as int);
      if r.Ok? {
        BulkArrayWellFormed(r.value);
      }
    }
  }

  lemma ReadHashReply(env: Env, op: ReadOp, slot: Slot)
    requires ValidEnv(env) && FitsSlot(slot)
    requires op.HExists? || op.HGet? || op.HGetAll? || op.HKeys? || op.HLen? || op.HVals?
    ensures WellFormed(ReadHash(env, op, slot))
  {
    hide Pairs, Bulks, ToSet;
    WrongTypeIsLine();
    if slot.Some? && slot.value.Hash? {
      var fields := slot.value.fields;
      WalkFits(env, fields.Keys);
      hide ValidEnv;
      if op.HGetAll? {
        PairsWellFormed(FieldPairs(env, fields));
      } else if op.HVals? {
        BulkArrayWellFormed(Seconds(FieldPairs(env, fields)));
      } else if op.HKeys? {
        BulkArrayWellFormed(env.order(fields.Keys));
      }
    }
  }

  lemma ReadSetReply(env: Env, op: ReadOp, slot: Slot)
    requires ValidEnv(env) && FitsSlot(slot)
    requires op.SCard? || op.SIsMember? || op.SMembers?
    ensures WellFormed(ReadSet(env, op, slot))
  {
    WrongTypeIsLine();
    if op.SMembers? && slot.Some? && slot.value.Set? {
      WalkFits(env, slot.value.members);
      BulkArrayWellFormed(env.order(slot.value.members));
    }
  }

  lemma ReadSortedSetReply(env: Env, op: ReadOp, slot: Slot)
    requires ValidEnv(env) && FitsSlot(slot)
    requires op.ZCard? || op.ZRange? || op.ZScore?
    ensures WellFormed(ReadSortedSet(env, op, slot))
  {
    hide Pairs, Bulks, ToSet;
    ErrorRepliesWellFormed(WRONGTYPE);
    if op.ZRange? {
      var ranks := if slot.Some? && slot.value.SortedSet? then slot.value.ranks else [];
      var w := Window(ranks, op.start as int, op.stop as int);
      WindowFits(ranks, op.start as int, op.stop as int);
      PairsWellFormed(RankPairs(env, w));
      BulkArrayWellFormed(RankMembers(w));
    }
  }

  lemma WindowFits(ranks: seq<Rank>, start: int, stop: int)
    requires |ranks| <= CONTAINER_MAX && forall i :: 0 <= i < |ranks| ==> |ranks[i].member| <= I64_MAX
    ensures var w := Window(ranks, start, stop);
      |w| <= CONTAINER_MAX && forall i :: 0 <= i < |w| ==> |w[i].member| <= I64_MAX
  {
  }

  lemma ReadReplyWellFormed(env: Env, op: ReadOp, slot: Slot)
    requires ValidEnv(env) && FitsSlot(slot)
    ensures WellFormed(ReadReply(env, op, slot))
  {
    hide ReadString, ReadList, ReadHash, ReadSet, ReadSortedSet, ValidEnv, FitsSlot;
    if op.Type? {
      AsciiIsLine("none");
      if slot.Some? {
        TypeNamesAreLines(slot.value);
      }
    } else if op.Get? || op.StrLen? {
      ReadStringReply(op, slot);
    } else if op.LIndex? || op.LLen? || op.LRange? {
      ReadListReply(op, slot);
    } else if op.SCard? || op.SIsMember? || op.SMembers? {
      ReadSetReply(env, op, slot);
    } else if op.ZCard? || op.ZRange? || op.ZScore? {
      ReadSortedSetReply(env, op, slot);
    } else {
      ReadHashReply(env, op, slot);
    }
  }

  lemma CountsAreWellFormed()
    ensures WellFormed(NullBulkString)
    ensures forall n :: WellFormed(Integer(n))
    ensures forall s: Bytes :: WellFormed(SimpleString(s)) <==> IsLine(s)
    ensures forall s: Bytes :: WellFormed(BulkString(s)) <==> |s| <= I64_MAX
  {
  }

  lemma CountReplyWellFormed(r: DBResult<int>)
    ensures WellFormed(CountReply(r))
  {
    hide WellFormed;
    CountsAreWellFormed();
    if r.Err? {
      ErrorRepliesWellFormed(r.error);
    }
  }

  lemma StringReply(op: WriteOp, slot: Slot)
    requires FitsSlot(slot) && StringOp(op)
    ensures WellFormed(ApplyString(op, slot).1)
  {
    hide ErrorReply, WellFormed, CountReply;
    CountsAreWellFormed();
    WrongTypeIsLine();
    AsciiIsLine("OK");
    ErrorRepliesWellFormed(OUTOFRANGE);
    ErrorRepliesWellFormed(NOTINTEGER);
    ErrorRepliesWellFormed(WRONGTYPE);
    if op.Append? {
      CountReplyWellFormed(Store.Append(slot, op.suffix).1);
    }
  }

  lemma ListReply(op: WriteOp, slot: Slot)
    requires FitsSlot(slot) && ListOp(op)
    ensures WellFormed(ApplyList(op, slot).1)
  {
    hide ErrorReply, WellFormed, CountReply;
    CountsAreWellFormed();
    ErrorRepliesWellFormed(WRONGTYPE);
    if op.LPush? {
      CountReplyWellFormed(Store.LPush(slot, op.vals).1);
    } else if op.RPush? {
      CountReplyWellFormed(Store.RPush(slot, op.vals).1);
    }
  }

  lemma ApplyReplyWellFormed(op: WriteOp, slot: Slot)
    requires FitsSlot(slot)
    ensures WellFormed(Apply(op, slot).1)
  {
    hide ApplyString, ApplyList, ApplyCollection, WellFormed, FitsSlot, CountReply;
    if StringOp(op) {
      StringReply(op, slot);
    } else if ListOp(op) {
      ListReply(op, slot);
    } else {
      CountReplyWellFormed(ApplyCollection(op, slot).1);
    }
  }

  lemma SlotFits(db: DB, key: Bytes)
    requires FitsDB(db)
    ensures FitsSlot(At(db, key))
  {
  }

  lemma ExecReplyWellFormed(env: Env, db: DB, cmd: Cmd)
    requires ValidEnv(env) && FitsDB(db)
    requires cmd.Echo? ==> |cmd.msg| <= I64_MAX
    ensures WellFormed(Exec(env, db, cmd).1)
  {
    hide ReadReply, Apply, Bulks, FitsSlot, WellFormed, FitsAll, ToSet, CountPresent, At;
    CountsAreWellFormed();
    match cmd
    case Ping =>
      AsciiIsLine("PONG");
    case Keys =>
      WalkFits(env, db.Keys);
      BulkArrayWellFormed(env.order(db.Keys));
    case Read(key, op) =>
      SlotFits(db, key);
      ReadReplyWellFormed(env, op, At(db, key));
    case Write(key, op) =>
      SlotFits(db, key);
      ApplyReplyWellFormed(op, At(db, key));
    case _ =>
  }

  // ---- Dispatch, over the wire ----

  predicate IsUnknown(v: RespValue) {
    IsCommand(v) && Lookup(Upper(Args(v)[0])).None?
  }

  lemma UpperKeepsLines(s: Bytes)
    ensures IsLine(Upper(s)) <==> IsLine(s)
  {
    var u := Upper(s);
    if !IsLine(s) {
      var i :| 0 <= i < |s| && (s[i] == CR || s[i] == LF);
      assert u[i] == s[i];
      assert u[i] in u;
    }
  }

  lemma UnknownReply(name: Bytes)
    ensures WellFormed(SimpleError(UnknownCommand(name))) <==> IsLine(name)
  {
    AsciiIsLine("ERR unknown command '");
    AsciiIsLine("'");
    var head, tail := Ascii("ERR unknown command '"), Ascii("'");
    assert forall b :: b in name ==> b in head + name + tail;
  }

  lemma PlainEcho(verb: Verb, args: seq<Bytes>)
    requires |args| > 0 && ArityOk(verb, |args|) && !Numeric(verb)
    ensures var p := ParsePlain(verb, args); p.Accept? && (p.cmd.Echo? ==> |args| > 1 && p.cmd.msg == args[1])
  {
  }

  lemma NumericParse(env: Env, verb: Verb, args: seq<Bytes>)
    requires |args| > 0 && ArityOk(verb, |args|) && Numeric(verb)
    ensures var p := ParseNumeric(env, verb, args);
      match p
      case Reject(reply) => WellFormed(reply)
      case Accept(cmd) => !cmd.Echo?
  {
    hide WellFormed, ParseLL, Ascii, Upper;
    InvalidIsLine();
    NotIntegerIsLine();
    OutOfRangeIsLine();
  }

  lemma ParseReply(env: Env, v: RespValue)
    requires WellFormed(v)
    ensures match ParseCommand(env, v)
            case Reject(reply) => WellFormed(reply) <==> !IsUnknown(v) || IsLine(Args(v)[0])
            case Accept(cmd) => !IsUnknown(v) && (cmd.Echo? ==> |cmd.msg| <= I64_MAX)
  {
    hide Lookup, Upper, ParsePlain, ParseNumeric, ArityOk, UnknownCommand;
    InvalidIsLine();
    if IsCommand(v) {
      var args := Args(v);
      UpperKeepsLines(args[0]);
      UnknownReply(Upper(args[0]));
      if Lookup(Upper(args[0])).Some? {
        var verb := Lookup(Upper(args[0])).value;
        if ArityOk(verb, |args|) {
          if Numeric(verb) {
            NumericParse(env, verb, args);
          } else {
            PlainEcho(verb, args);
            if |args| > 1 {
              assert WellFormed(v.vals[1]);
            }
          }
        }
      }
    }
  }

  /** No command has a name with a CR or LF in it. */
  lemma KnownIsLine(v: RespValue)
    requires IsCommand(v) && !IsUnknown(v)
    ensures IsLine(Args(v)[0])
  {
    hide Lookup, NameOf, Upper;
    var name := Args(v)[0];
    var verb := Lookup(Upper(name)).value;
    LookupIff(name, verb);
    NamesAreCapitals(verb);
  }

  /** Not a command with a CR or LF in its name, which the reply would echo. */
  predicate Legible(v: RespValue) {
    IsCommand(v) ==> IsLine(Args(v)[0])
  }

  lemma ReplyWellFormedIff(env: Env, db: DB, v: RespValue)
    requires ValidEnv(env) && FitsDB(db) && WellFormed(v)
    ensures WellFormed(Dispatch(env, db, v).1) <==> Legible(v)
  {
    hide ParseCommand, Exec, WellFormed, FitsDB, ValidEnv, Args, Lookup, IsLine;
    ParseReply(env, v);
    if IsCommand(v) && !IsUnknown(v) {
      KnownIsLine(v);
    }
    var p := ParseCommand(env, v);
    if p.Accept? {
      ExecReplyWellFormed(env, db, p.cmd);
    }
  }

  /**
    Every reply reaches the client as it was dispatched, whatever follows it on the wire, unless it
    answers a command with a CR or LF in its name; then, and only then, the client reads something else.
  */
  lemma ReplyFidelity(env: Env, db: DB, v: RespValue, rest: Bytes)
    requires ValidEnv(env) && FitsDB(db) && WellFormed(v)
    ensures var reply := Dispatch(env, db, v).1;
      Parse(Serialize(reply) + rest) == Complete(reply, |Serialize(reply)|) <==> Legible(v)
  {
    hide Dispatch, Parse, Serialize, WellFormed, Legible, FitsDB, ValidEnv;
    ReplyWellFormedIff(env, db, v);
    SurvivesIffWellFormed(Dispatch(env, db, v).1, rest);
  }

  /** "A\nB" is such a command: its reply is not read back. */
  lemma LineBreakInName(env: Env, db: DB, rest: Bytes)
    requires ValidEnv(env) && FitsDB(db)
    ensures var reply := Dispatch(env, db, Array([BulkString([65, LF, 66])])).1;
      Parse(Serialize(reply) + rest) != Complete(reply, |Serialize(reply)|)
  {
    hide Dispatch, Parse, Serialize, ValidEnv, FitsDB;
    var v := Array([BulkString([65, LF, 66])]);
    assert LF in Args(v)[0];
    ReplyFidelity(env, db, v, rest);
  }
}
