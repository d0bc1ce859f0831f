/** Runs of commands on one database: what whole histories guarantee about a single key. */
module Runs {
  import opened Options
  import opened ByteStrings
  import opened RespValues
  import opened Ranks
  import opened Store
  import opened Commands
  import opened DispatchLaws

  ghost function Run(env: Env, db: DB, cmds: seq<Cmd>): DB {
    if |cmds| == 0 then db
    else Exec(env, Run(env, db, cmds[..|cmds| - 1]), cmds[|cmds| - 1]).0
  }

  /** The reply to the last command of a run. */
  ghost function LastReply(env: Env, db: DB, cmds: seq<Cmd>): RespValue
    requires |cmds| > 0
  {
    Exec(env, Run(env, db, cmds[..|cmds| - 1]), cmds[|cmds| - 1]).1
  }

  // ---- Dispatched values as a run of commands ----

  ghost function DispatchAll(env: Env, db: DB, vs: seq<RespValue>): DB {
    if |vs| == 0 then db
    else Dispatch(env, DispatchAll(env, db, vs[..|vs| - 1]), vs[|vs| - 1]).0
  }

  /** The commands among the values, refused ones left out. */
  function Accepted(env: Env, vs: seq<RespValue>): seq<Cmd> {
    if |vs| == 0 then []
    else
      var p := ParseCommand(env, vs[|vs| - 1]);
      Accepted(env, vs[..|vs| - 1]) + if p.Accept? then [p.cmd] else []
  }

  lemma RunSnoc(env: Env, db: DB, cmds: seq<Cmd>, cmd: Cmd)
    ensures Run(env, db, cmds + [cmd]) == Exec(env, Run(env, db, cmds), cmd).0
  {
    hide Exec;
    var all := cmds + [cmd];
    assert all[..|all| - 1] == cmds;
  }

  lemma {:induction false} AcceptedLegal(env: Env, vs: seq<RespValue>, i: nat)
    requires i < |Accepted(env, vs)|
    ensures Legal(Accepted(env, vs)[i])
  {
    hide ParseCommand, Legal;
    var front, v := vs[..|vs| - 1], vs[|vs| - 1];
    ParsedIsLegal(env, v);
    if i < |Accepted(env, front)| {
      AcceptedLegal(env, front, i);
    }
  }

  /** Laws of command runs apply to what clients send: refused values leave no trace. */
  lemma {:induction false} DispatchIsRun(env: Env, db: DB, vs: seq<RespValue>)
    ensures DispatchAll(env, db, vs) == Run(env, db, Accepted(env, vs))
  {
    hide ParseCommand, Exec, Run;
    if |vs| == 0 {
      RunNothing(env, db);
    } else {
      var front, v := vs[..|vs| - 1], vs[|vs| - 1];
      DispatchIsRun(env, db, front);
      var p := ParseCommand(env, v);
      if p.Accept? {
        RunSnoc(env, db, Accepted(env, front), p.cmd);
      } else {
        assert Accepted(env, front) + [] == Accepted(env, front);
      }
    }
  }

  lemma RunNothing(env: Env, db: DB)
    ensures Run(env, db, []) == db
  {
  }

  /** In every state reached from the empty database no empty collection is stored and all indexes agree. */
  lemma {:induction false} ReachableSound(env: Env, vs: seq<RespValue>)
    ensures SoundDB(DispatchAll(env, map[], vs))
  {
    if |vs| > 0 {
      hide Dispatch, Sound;
      ReachableSound(env, vs[..|vs| - 1]);
      DispatchSound(env, DispatchAll(env, map[], vs[..|vs| - 1]), vs[|vs| - 1]);
    }
  }

  /** Every sorted set in a reachable state is ranked: same size, strictly sorted, nothing stale. */
  lemma ReachableRanks(env: Env, vs: seq<RespValue>, key: Bytes)
    requires var db := DispatchAll(env, map[], vs); key in db && db[key].SortedSet?
    ensures var z := DispatchAll(env, map[], vs)[key];
      z.ranks == Ranking(z.scores) && |z.ranks| == |z.scores| > 0 && IndexAgrees(z.scores, z.ranks)
  {
    hide Dispatch;
    ReachableSound(env, vs);
    var z := DispatchAll(env, map[], vs)[key];
    assert Sound(Some(z));
    IndexIsRanking(z.scores, z.ranks);
  }

  /** One step of a run, seen from one key. */
  lemma StepLocal(env: Env, db: DB, cmds: seq<Cmd>, key: Bytes)
    requires |cmds| > 0
    ensures var front, cmd := cmds[..|cmds| - 1], cmds[|cmds| - 1];
      var slot := At(Run(env, db, front), key);
      && At(Run(env, db, cmds), key) == Effect(cmd, key, slot)
      && (cmd.Write? && cmd.key == key ==> LastReply(env, db, cmds) == Apply(cmd.wop, slot).1)
  {
    hide Exec, Effect, Apply;
    ExecLocal(env, Run(env, db, cmds[..|cmds| - 1]), cmds[|cmds| - 1], key);
  }

  /** The write operation, if any, that a command performs on a key; DEL counts as none here. */
  function OpOn(cmd: Cmd, key: Bytes): Option<WriteOp> {
    if cmd.Write? && cmd.key == key then Some(cmd.wop) else None
  }

  predicate Spares(cmd: Cmd, key: Bytes) {
    cmd.Del? ==> key !in cmd.keys
  }

  /** Every command of the run that writes to the key is of a kind in `allowed`, and none deletes it. */
  predicate Only(cmds: seq<Cmd>, key: Bytes, allowed: WriteOp -> bool) {
    forall i :: 0 <= i < |cmds| ==>
      Spares(cmds[i], key) && (OpOn(cmds[i], key).Some? ==> allowed(OpOn(cmds[i], key).value))
  }

  lemma OnlyFront(cmds: seq<Cmd>, key: Bytes, allowed: WriteOp -> bool)
    requires Only(cmds, key, allowed) && |cmds| > 0
    ensures Only(cmds[..|cmds| - 1], key, allowed)
    ensures Spares(cmds[|cmds| - 1], key)
    ensures var op := OpOn(cmds[|cmds| - 1], key); op.Some? ==> allowed(op.value)
  {
  }

  /** A key that starts sound stays sound under commands the dispatcher accepts. */
  lemma {:induction false} SoundAfterRun(env: Env, db: DB, cmds: seq<Cmd>, key: Bytes)
    requires Sound(At(db, key)) && forall i :: 0 <= i < |cmds| ==> Legal(cmds[i])
    ensures Sound(At(Run(env, db, cmds), key))
  {
    hide Run, Sound, Legal, Effect;
    if |cmds| == 0 {
      RunNothing(env, db);
    } else {
      var front, cmd := cmds[..|cmds| - 1], cmds[|cmds| - 1];
      SoundAfterRun(env, db, front, key);
      StepLocal(env, db, cmds, key);
      assert Legal(cmd);
      EffectSound(cmd, key, At(Run(env, db, front), key));
    }
  }

  lemma EffectSound(cmd: Cmd, key: Bytes, slot: Slot)
    requires Legal(cmd) && Sound(slot)
    ensures Sound(Effect(cmd, key, slot))
  {
    hide Apply, Sound, LegalOp;
    NothingIsSound();
    if cmd.Write? {
      ApplySound(cmd.wop, slot);
    }
  }

  // ---- Types ----

  predicate NotSet(op: WriteOp) {
    !op.Set?
  }

  /** Over a run in which the key never vanishes, only SET can change its type. */
  lemma {:induction false} TypeStableRun(env: Env, db: DB, cmds: seq<Cmd>, key: Bytes)
    requires forall i :: 0 <= i <= |cmds| ==> key in Run(env, db, cmds[..i])
    requires Only(cmds, key, NotSet)
    ensures key in db && key in Run(env, db, cmds)
    ensures SameType(db[key], Run(env, db, cmds)[key])
  {
    hide Exec, SameType;
    assert cmds[..|cmds|] == cmds && cmds[..0] == [];
    SameTypeReflexive(db[key]);
    if |cmds| > 0 {
      var front, cmd := cmds[..|cmds| - 1], cmds[|cmds| - 1];
      assert forall i :: 0 <= i <= |front| ==> front[..i] == cmds[..i];
      OnlyFront(cmds, key, NotSet);
      TypeStableRun(env, db, front, key);
      TypeStable(env, Run(env, db, front), cmd, key);
      SameTypeTransitive(db[key], Run(env, db, front)[key], Run(env, db, cmds)[key]);
    }
  }

  lemma SameTypeTransitive(a: Value, b: Value, c: Value)
    requires SameType(a, b) && SameType(b, c)
    ensures SameType(a, c)
  {
  }

  // ---- Lists as queues and stacks ----

  predicate IsListSlot(slot: Slot) {
    slot.Some? ==> slot.value.List? && slot.value.elements != []
  }

  /** The list at a key; a missing key is the empty list. */
  function ListOf(slot: Slot): seq<Bytes> {
    if slot.Some? && slot.value.List? then slot.value.elements else []
  }

  ghost function ListAt(env: Env, db: DB, cmds: seq<Cmd>, key: Bytes): seq<Bytes> {
    ListOf(At(Run(env, db, cmds), key))
  }

  predicate QueueOp(op: WriteOp) {
    op.LPop? || (op.RPush? && |op.vals| > 0)
  }

  predicate StackOp(op: WriteOp) {
    op.LPop? || (op.LPush? && |op.vals| > 0)
  }

  predicate EndOp(op: WriteOp) {
    ((op.LPush? || op.RPush?) && |op.vals| > 0) || op.LPop? || op.RPop?
  }

  function PushedBy(cmd: Cmd, key: Bytes): seq<Bytes> {
    var op := OpOn(cmd, key);
    if op.Some? && op.value.RPush? then op.value.vals else []
  }

  function PoppedBy(cmd: Cmd, key: Bytes, reply: RespValue): seq<Bytes> {
    var op := OpOn(cmd, key);
    if op.Some? && op.value.LPop? && reply.BulkString? then [reply.msg] else []
  }

  /** All values pushed to the key, in order. */
  function Pushed(cmds: seq<Cmd>, key: Bytes): seq<Bytes> {
    if |cmds| == 0 then [] else Pushed(cmds[..|cmds| - 1], key) + PushedBy(cmds[|cmds| - 1], key)
  }

  /** All values the pops returned, in order. */
  ghost function Popped(env: Env, db: DB, cmds: seq<Cmd>, key: Bytes): seq<Bytes> {
    if |cmds| == 0 then []
    else Popped(env, db, cmds[..|cmds| - 1], key) + PoppedBy(cmds[|cmds| - 1], key, LastReply(env, db, cmds))
  }

  lemma PushOps(op: WriteOp, slot: Slot)
    requires IsListSlot(slot) && (op.LPush? || op.RPush?)
    ensures |op.vals| > 0 ==> IsListSlot(Apply(op, slot).0)
    ensures var l, l' := ListOf(slot), ListOf(Apply(op, slot).0);
      l' == (if op.LPush? then Reverse(op.vals) + l else l + op.vals) && Apply(op, slot).1 == Count(|l'|)
  {
    hide ApplyString, ApplyCollection, Reverse, CastI64;
    assert Reverse(op.vals) + [] == Reverse(op.vals);
    assert [] + op.vals == op.vals;
  }

  /** The four list operations in terms of the list alone. */
  lemma ListOps(op: WriteOp, slot: Slot)
    requires IsListSlot(slot)
    ensures EndOp(op) ==> IsListSlot(Apply(op, slot).0)
    ensures var (slot', reply) := Apply(op, slot);
      var l, l' := ListOf(slot), ListOf(slot');
      match op
      case LPush(vals) => l' == Reverse(vals) + l && reply == Count(|l'|)
      case RPush(vals) => l' == l + vals && reply == Count(|l'|)
      case LPop => l' == (if l == [] then [] else l[1..])
        && reply == (if l == [] then NullBulkString else BulkString(l[0]))
      case RPop => l' == (if l == [] then [] else l[..|l| - 1])
        && reply == (if l == [] then NullBulkString else BulkString(l[|l| - 1]))
      case _ => true
  {
    hide ApplyString, ApplyCollection, Reverse, WRONGTYPE_MSG, CastI64;
    if op.LPush? || op.RPush? {
      PushOps(op, slot);
    }
  }

  lemma QueueStep(cmd: Cmd, key: Bytes, slot: Slot, reply: RespValue)
    requires IsListSlot(slot) && Spares(cmd, key)
    requires var op := OpOn(cmd, key); op.Some? ==> QueueOp(op.value) && reply == Apply(op.value, slot).1
    ensures IsListSlot(Effect(cmd, key, slot))
    ensures ListOf(slot) + PushedBy(cmd, key) == PoppedBy(cmd, key, reply) + ListOf(Effect(cmd, key, slot))
  {
    hide Apply;
    if OpOn(cmd, key).Some? {
      ListOps(cmd.wop, slot);
    }
  }

  /**
    RPUSH and LPOP make a queue: what was there and everything pushed comes out in order, across the
    key vanishing when emptied, being recreated, and commands on other keys in between.
  */
  lemma {:induction false} QueueDiscipline(env: Env, db: DB, cmds: seq<Cmd>, key: Bytes)
    requires IsListSlot(At(db, key)) && Only(cmds, key, QueueOp)
    ensures IsListSlot(At(Run(env, db, cmds), key))
    ensures ListOf(At(db, key)) + Pushed(cmds, key) == Popped(env, db, cmds, key) + ListAt(env, db, cmds, key)
  {
    if |cmds| > 0 {
      hide Apply, Effect, QueueOp, LastReply, Only, PushedBy, PoppedBy, Run;
      var front, cmd := cmds[..|cmds| - 1], cmds[|cmds| - 1];
      OnlyFront(cmds, key, QueueOp);
      QueueDiscipline(env, db, front, key);
      StepLocal(env, db, cmds, key);
      var slot := At(Run(env, db, front), key);
      QueueStep(cmd, key, slot, LastReply(env, db, cmds));
      Glue(ListOf(At(db, key)), Pushed(front, key), Popped(env, db, front, key), ListOf(slot),
           PushedBy(cmd, key), PoppedBy(cmd, key, LastReply(env, db, cmds)), ListAt(env, db, cmds, key));
    } else {
      RunNothing(env, db);
    }
  }

  lemma Glue<T>(start: seq<T>, pushed: seq<T>, popped: seq<T>, l: seq<T>, a: seq<T>, b: seq<T>, l': seq<T>)
    requires start + pushed == popped + l && l + a == b + l'
    ensures start + (pushed + a) == (popped + b) + l'
  {
    assert start + (pushed + a) == (popped + l) + a == popped + (l + a);
  }

  /** The list never gets shorter than it was at the start of the run. */
  ghost predicate NeverBelow(env: Env, db: DB, cmds: seq<Cmd>, key: Bytes) {
    forall i :: 0 <= i <= |cmds| ==> |ListAt(env, db, cmds[..i], key)| >= |ListOf(At(db, key))|
  }

  predicate EndsWith<T(==)>(l: seq<T>, base: seq<T>) {
    |l| >= |base| && l[|l| - |base|..] == base
  }

  lemma EndsWithLaws<T>(front: seq<T>, l: seq<T>, base: seq<T>)
    requires EndsWith(l, base)
    ensures EndsWith(front + l, base)
    ensures |l| > |base| ==> EndsWith(l[1..], base)
    ensures |l| == |base| ==> l == base
  {
  }

  lemma EndsWithItself<T>(base: seq<T>)
    ensures EndsWith(base, base)
  {
  }

  lemma StackStep(cmd: Cmd, key: Bytes, slot: Slot, base: seq<Bytes>)
    requires IsListSlot(slot) && Spares(cmd, key)
    requires var op := OpOn(cmd, key); op.Some? ==> StackOp(op.value)
    requires EndsWith(ListOf(slot), base)
    requires |ListOf(Effect(cmd, key, slot))| >= |base|
    ensures IsListSlot(Effect(cmd, key, slot))
    ensures EndsWith(ListOf(Effect(cmd, key, slot)), base)
  {
    hide Apply, Reverse, ListOf, IsListSlot, EndsWith;
    if OpOn(cmd, key).Some? {
      ListOps(cmd.wop, slot);
      var l := ListOf(slot);
      EndsWithLaws(if cmd.wop.LPush? then Reverse(cmd.wop.vals) else [], l, base);
    }
  }

  /**
    LPUSH and LPOP make a stack: as long as a run does not pop below where it started, what was there
    at the start is untouched beneath whatever the run left on top.
  */
  lemma {:induction false} StackDiscipline(env: Env, db: DB, cmds: seq<Cmd>, key: Bytes)
    requires IsListSlot(At(db, key)) && Only(cmds, key, StackOp)
    requires NeverBelow(env, db, cmds, key)
    ensures IsListSlot(At(Run(env, db, cmds), key))
    ensures EndsWith(ListAt(env, db, cmds, key), ListOf(At(db, key)))
  {
    hide Effect, StackOp, Only, Run, EndsWith;
    assert cmds[..|cmds|] == cmds;
    if |cmds| == 0 {
      RunNothing(env, db);
      EndsWithItself(ListOf(At(db, key)));
    } else {
      var front := cmds[..|cmds| - 1];
      assert forall i :: 0 <= i <= |front| ==> front[..i] == cmds[..i];
      OnlyFront(cmds, key, StackOp);
      StackDiscipline(env, db, front, key);
      StepLocal(env, db, cmds, key);
      StackStep(cmds[|cmds| - 1], key, At(Run(env, db, front), key), ListOf(At(db, key)));
    }
  }

  lemma SameList(a: Slot, b: Slot)
    requires IsListSlot(a) && IsListSlot(b)
    requires EndsWith(ListOf(a), ListOf(b)) && |ListOf(a)| == |ListOf(b)|
    ensures a == b
  {
    EndsWithLaws([], ListOf(a), ListOf(b));
  }

  lemma ReverseSnoc<T>(s: seq<T>, x: T)
    ensures Reverse(s + [x]) == [x] + Reverse(s)
  {
  }

  lemma PushThrough(env: Env, db: DB, key: Bytes, vals: seq<Bytes>, x: Bytes)
    requires IsListSlot(At(db, key))
    ensures At(Exec(env, db, Write(key, LPush(vals + [x]))).0, key)
         == Some(List([x] + (Reverse(vals) + ListOf(At(db, key)))))
  {
    hide Exec, Apply, Reverse, ListOf, IsListSlot;
    ExecLocal(env, db, Write(key, LPush(vals + [x])), key);
    ListOps(LPush(vals + [x]), At(db, key));
    var slot := At(Exec(env, db, Write(key, LPush(vals + [x]))).0, key);
    SlotOfList(slot);
    ReverseSnoc(vals, x);
    assert ListOf(slot) == [x] + (Reverse(vals) + ListOf(At(db, key)));
  }

  lemma PopOne(env: Env, db: DB, key: Bytes, x: Bytes, below: seq<Bytes>)
    requires At(db, key) == Some(List([x] + below))
    ensures Exec(env, db, Write(key, LPop)).1 == BulkString(x)
    ensures At(Exec(env, db, Write(key, LPop)).0, key) == ListSlot(below)
  {
    hide Exec;
    ExecLocal(env, db, Write(key, LPop), key);
    assert ([x] + below)[1..] == below;
  }

  /**
    Last in, first out: once everything pushed after `x` is popped, the next LPOP returns `x`, with what
    was pushed before it in the same command, and what was there before that, left beneath.
  */
  lemma LastInFirstOut(env: Env, db: DB, key: Bytes, vals: seq<Bytes>, x: Bytes, cmds: seq<Cmd>)
    requires IsListSlot(At(db, key)) && Only(cmds, key, StackOp)
    requires var db1 := Exec(env, db, Write(key, LPush(vals + [x]))).0;
      NeverBelow(env, db1, cmds, key) && |ListAt(env, db1, cmds, key)| == |ListOf(At(db1, key))|
    ensures var db1 := Exec(env, db, Write(key, LPush(vals + [x]))).0;
      var (db2, reply) := Exec(env, Run(env, db1, cmds), Write(key, LPop));
      reply == BulkString(x) && At(db2, key) == ListSlot(Reverse(vals) + ListOf(At(db, key)))
  {
    hide Exec, Run, Only, NeverBelow, EndsWith, Reverse;
    var db1 := Exec(env, db, Write(key, LPush(vals + [x]))).0;
    PushThrough(env, db, key, vals, x);
    StackDiscipline(env, db1, cmds, key);
    SameList(At(Run(env, db1, cmds), key), At(db1, key));
    PopOne(env, Run(env, db1, cmds), key, x, Reverse(vals) + ListOf(At(db, key)));
  }

  // ---- The two ends of a list are mirror images ----

  function MirrorOp(op: WriteOp): WriteOp {
    match op
    case LPush(vals) => RPush(vals)
    case RPush(vals) => LPush(vals)
    case LPop => RPop
    case RPop => LPop
    case _ => op
  }

  function Mirror(cmd: Cmd, key: Bytes): Cmd {
    if cmd.Write? && cmd.key == key then cmd.(wop := MirrorOp(cmd.wop)) else cmd
  }

  function MirrorAll(cmds: seq<Cmd>, key: Bytes): seq<Cmd> {
    seq(|cmds|, i requires 0 <= i < |cmds| => Mirror(cmds[i], key))
  }

  function Flip(slot: Slot): Slot {
    if slot.Some? && slot.value.List? then Some(List(Reverse(slot.value.elements))) else slot
  }

  lemma ReverseLaws<T>(a: seq<T>, b: seq<T>)
    ensures Reverse(a + b) == Reverse(b) + Reverse(a)
    ensures Reverse(Reverse(a)) == a
    ensures a == [] ==> Reverse(a) == []
  {
  }

  lemma SlotOfList(slot: Slot)
    requires IsListSlot(slot)
    ensures slot == ListSlot(ListOf(slot)) && Flip(slot) == ListSlot(Reverse(ListOf(slot)))
    ensures IsListSlot(Flip(slot)) && ListOf(Flip(slot)) == Reverse(ListOf(slot))
  {
    if slot.Some? {
      assert |Reverse(ListOf(slot))| > 0;
    } else {
      assert Reverse<Bytes>([]) == [];
    }
  }

  lemma MirrorApply(op: WriteOp, slot: Slot)
    requires EndOp(op) && IsListSlot(slot)
    ensures Apply(MirrorOp(op), Flip(slot)) == (Flip(Apply(op, slot).0), Apply(op, slot).1)
  {
    hide Apply, ListSlot, Flip, IsListSlot, ListOf;
    var l, l' := ListOf(slot), ListOf(Apply(op, slot).0);
    SlotOfList(slot);
    ListOps(op, slot);
    SlotOfList(Apply(op, slot).0);
    ListOps(MirrorOp(op), Flip(slot));
    SlotOfList(Apply(MirrorOp(op), Flip(slot)).0);
    if op.LPush? {
      ReverseLaws(Reverse(op.vals), l);
      ReverseLaws(op.vals, []);
    } else if op.RPush? {
      ReverseLaws(l, op.vals);
    } else if l != [] {
      PopEnds(l);
    }
  }

  lemma PopEnds(l: seq<Bytes>)
    requires l != []
    ensures var r := Reverse(l);
      && |r| == |l| && r[|r| - 1] == l[0] && r[0] == l[|l| - 1]
      && r[..|r| - 1] == Reverse(l[1..]) && r[1..] == Reverse(l[..|l| - 1])
  {
  }

  /**
    Exchange left and right in every command on the key, start from the reversed list, and the run
    ends with the reversed list and gives the same replies. So LPUSH and RPOP make a queue, and RPUSH
    and RPOP a stack, in the same way as their mirror images.
  */
  lemma {:induction false} MirrorRun(env: Env, db: DB, db2: DB, cmds: seq<Cmd>, key: Bytes)
    requires IsListSlot(At(db, key)) && At(db2, key) == Flip(At(db, key))
    requires Only(cmds, key, EndOp)
    ensures IsListSlot(At(Run(env, db, cmds), key))
    ensures At(Run(env, db2, MirrorAll(cmds, key)), key) == Flip(At(Run(env, db, cmds), key))
    ensures forall i :: 0 < i <= |cmds| && OpOn(cmds[i - 1], key).Some? ==>
      LastReply(env, db2, MirrorAll(cmds[..i], key)) == LastReply(env, db, cmds[..i])
  {
    hide Apply, EndOp, Only, Run, MirrorOp, Flip, LastReply;
    if |cmds| == 0 {
      RunNothing(env, db);
      RunNothing(env, db2);
    } else {
      var front, cmd := cmds[..|cmds| - 1], cmds[|cmds| - 1];
      var mirrored := MirrorAll(cmds, key);
      assert mirrored[..|mirrored| - 1] == MirrorAll(front, key);
      assert cmds[..|cmds|] == cmds;
      assert forall i :: 0 < i <= |front| ==> front[..i] == cmds[..i] && front[i - 1] == cmds[i - 1];
      OnlyFront(cmds, key, EndOp);
      MirrorRun(env, db, db2, front, key);
      StepLocal(env, db, cmds, key);
      StepLocal(env, db2, mirrored, key);
      var slot := At(Run(env, db, front), key);
      if OpOn(cmd, key).Some? {
        MirrorApply(cmd.wop, slot);
        ListOps(cmd.wop, slot);
      }
    }
  }
}
