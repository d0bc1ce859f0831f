/**
  The typed store: one map from keys to values, updated in place. Container references into the map
  become a local that is written back; signed 64-bit arithmetic is done in `i64`, so each method's
  verification includes that nothing overflows.
*/
module Databases {
  import opened Options
  import opened ByteStrings
  import opened Decimal
  import opened Ranks
  import opened Store

  /** No container holds more than 2^63 - 1 elements. */
  predicate SizesFit(v: Value) {
    match v
    case List(es) => |es| <= I64_MAX
    case SortedSet(scores, _) => |scores| <= I64_MAX
    case _ => true
  }

  lemma MapRemove<K, V>(m: map<K, V>, k: K)
    ensures |m - {k}| == |m| - (if k in m then 1 else 0)
  {
    if k in m {
      assert m == (m - {k})[k := m[k]];
    } else {
      assert m == m - {k};
    }
  }

  lemma OverwriteErase(db: DB, key: Bytes, v: Value)
    ensures db[key := v] - {key} == db - {key}
  {
  }

  lemma MapMinus<K, V>(m: map<K, V>, a: set<K>, k: K)
    ensures m - a - {k} == m - (a + {k})
    ensures m - {} == m
  {
  }

  /** The index after the old pair of `member`, if any, left it and the new pair entered it. */
  lemma MoveTogether(scores: map<Bytes, Score>, ranks: seq<Rank>, member: Bytes, score: Score, ranks': seq<Rank>)
    requires IndexAgrees(scores, ranks) && Sorted(ranks')
    requires forall x :: x in ranks' <==>
      (x in ranks && !(member in scores && x == Rank(scores[member], member))) || x == Rank(score, member)
    ensures IndexAgrees(scores[member := score], ranks')
  {
    hide Sorted;
    forall x
      ensures x in ranks' <==> Holds(scores[member := score], x)
    {
      assert x in ranks <==> Holds(scores, x);
    }
  }

  lemma RemoveTogether(scores: map<Bytes, Score>, ranks: seq<Rank>, member: Bytes, ranks': seq<Rank>)
    requires IndexAgrees(scores, ranks) && Sorted(ranks') && member in scores
    requires forall x :: x in ranks' <==> x in ranks && x != Rank(scores[member], member)
    ensures IndexAgrees(scores - {member}, ranks')
  {
    hide Sorted;
    forall x
      ensures x in ranks' <==> Holds(scores - {member}, x)
    {
      assert x in ranks <==> Holds(scores, x);
    }
  }

  /** The bounds both range commands compute from a `start` that is not past the end. */
  method Clamp(n: i64, start: i64, stop: i64) returns (lo: i64, hi: i64)
    requires 0 <= n && start < n
    ensures lo as int == Max(0, Norm(n as nat, start as int))
    ensures hi as int == Min(n as int - 1, Norm(n as nat, stop as int))
  {
    lo, hi := start, stop;
    if hi < 0 {
      hi := n + hi;
    } else {
      hi := if n - 1 < hi then n - 1 else hi;
    }
    if lo < 0 {
      lo := if 0 < n + lo then n + lo else 0;
    }
  }

  /** The elements from `lo` to `hi`, both included, pushed one by one. */
  method CopyRange<T>(s: seq<T>, lo: i64, hi: i64) returns (ret: seq<T>)
    requires |s| <= I64_MAX && 0 <= lo as int <= |s| && hi as int < |s|
    ensures ret == if lo <= hi then s[lo..hi + 1] else []
  {
    ret := [];
    var i := lo;
    while i <= hi
      invariant lo <= i && (i <= hi + 1 || i == lo)
      invariant ret == if lo < i then s[lo..i] else []
    {
      ret := ret + [s[i]];
      i := i + 1;
    }
  }

  // The loops over a container's arguments, on the container they update.

  method InsertAll(s0: set<Bytes>, members: seq<Bytes>) returns (s: set<Bytes>, added: int)
    ensures s == s0 + ToSet(members) && added == |s| - |s0|
  {
    hide ToSet;
    s, added := s0, 0;
    ToSetNil<Bytes>();
    for i := 0 to |members|
      invariant s == s0 + ToSet(members[..i])
      invariant added == |s| - |s0|
    {
      assert members[i] in s ==> s + {members[i]} == s;
      if members[i] !in s {
        added := added + 1;
      }
      ToSetSnoc(members, i);
      s := s + {members[i]};
    }
    assert members[..|members|] == members;
  }

  method EraseAll(s0: set<Bytes>, members: seq<Bytes>) returns (s: set<Bytes>, removed: int)
    ensures s == s0 - ToSet(members) && removed == |s0| - |s|
  {
    hide ToSet;
    s, removed := s0, 0;
    ToSetNil<Bytes>();
    for i := 0 to |members|
      invariant s == s0 - ToSet(members[..i])
      invariant removed == |s0| - |s|
    {
      if members[i] in s {
        removed := removed + 1;
      }
      ToSetSnoc(members, i);
      s := s - {members[i]};
    }
    assert members[..|members|] == members;
  }

  method EraseFields(h0: map<Bytes, Bytes>, names: seq<Bytes>) returns (h: map<Bytes, Bytes>, removed: int)
    ensures h == h0 - ToSet(names) && removed == |h0| - |h|
  {
    hide ToSet;
    h, removed := h0, 0;
    ToSetNil<Bytes>();
    MapMinus(h0, {}, []);
    for i := 0 to |names|
      invariant h == h0 - ToSet(names[..i])
      invariant removed == |h0| - |h|
    {
      if names[i] in h {
        removed := removed + 1;
      }
      MapRemove(h, names[i]);
      ToSetSnoc(names, i);
      MapMinus(h0, ToSet(names[..i]), names[i]);
      h := h - {names[i]};
    }
    assert names[..|names|] == names;
  }

  method AssignFields(h0: map<Bytes, Bytes>, fieldVals: seq<(Bytes, Bytes)>)
    returns (h: map<Bytes, Bytes>, added: int)
    ensures h == Assign(h0, fieldVals) && added == |h| - |h0|
  {
    h, added := h0, 0;
    for i := 0 to |fieldVals|
      invariant h == Assign(h0, fieldVals[..i])
      invariant added == |h| - |h0|
    {
      var (field, val) := fieldVals[i];
      assert fieldVals[..i + 1][..i] == fieldVals[..i];
      if field !in h {
        added := added + 1;
      }
      h := h[field := val];
    }
    assert fieldVals[..|fieldVals|] == fieldVals;
  }

  /** A new member, a changed score or the same score: map and index move together. */
  method AddMember(scores0: map<Bytes, Score>, ranks0: seq<Rank>, score: Score, member: Bytes)
    returns (scores: map<Bytes, Score>, ranks: seq<Rank>, added: int)
    requires IndexAgrees(scores0, ranks0)
    ensures scores == scores0[member := score] && ranks == Ranking(scores)
    ensures added == |scores| - |scores0|
  {
    hide Sorted;
    scores, ranks, added := scores0, ranks0, 0;
    if member in scores {
      ranks := EraseRank(ranks, Rank(scores[member], member));
    } else {
      scores := scores[member := score];
      added := 1;
    }
    scores := scores[member := score];
    ranks := InsertRank(ranks, Rank(score, member));
    assert scores == scores0[member := score];
    MoveTogether(scores0, ranks0, member, score, ranks);
    IndexIsRanking(scores, ranks);
  }

  method RemoveMember(scores0: map<Bytes, Score>, ranks0: seq<Rank>, member: Bytes)
    returns (scores: map<Bytes, Score>, ranks: seq<Rank>, removed: int)
    requires IndexAgrees(scores0, ranks0)
    ensures scores == scores0 - {member} && IndexAgrees(scores, ranks)
    ensures removed == |scores0| - |scores|
  {
    hide IndexAgrees, Holds;
    scores, ranks, removed := scores0, ranks0, 0;
    MapRemove(scores, member);
    if member !in scores {
      assert scores - {member} == scores;
      return;
    }
    SortedOf(scores, ranks);
    hide Sorted;
    ranks := EraseRank(ranks, Rank(scores[member], member));
    RemoveTogether(scores, ranks0, member, ranks);
    scores := scores - {member};
    removed := removed + 1;
  }

  method RemoveMembers(scores0: map<Bytes, Score>, ranks0: seq<Rank>, members: seq<Bytes>)
    returns (scores: map<Bytes, Score>, ranks: seq<Rank>, removed: int)
    requires IndexAgrees(scores0, ranks0)
    ensures scores == scores0 - ToSet(members) && ranks == Ranking(scores)
    ensures removed == |scores0| - |scores|
  {
    hide ToSet, IndexAgrees;
    scores, ranks, removed := scores0, ranks0, 0;
    ToSetNil<Bytes>();
    MapMinus(scores0, {}, []);
    for i := 0 to |members|
      invariant scores == scores0 - ToSet(members[..i])
      invariant IndexAgrees(scores, ranks)
      invariant removed == |scores0| - |scores|
    {
      ToSetSnoc(members, i);
      MapMinus(scores0, ToSet(members[..i]), members[i]);
      var one;
      scores, ranks, one := RemoveMember(scores, ranks, members[i]);
      removed := removed + one;
    }
    assert members[..|members|] == members;
    IndexIsRanking(scores, ranks);
  }

  lemma SortedOf(scores: map<Bytes, Score>, ranks: seq<Rank>)
    requires IndexAgrees(scores, ranks)
    ensures Sorted(ranks)
  {
  }

  lemma ToSetNil<T>()
    ensures ToSet<T>([]) == {}
  {
  }

  lemma IndexSize(v: Value)
    requires v.SortedSet? && IndexesAgree(v)
    ensures |v.ranks| == |v.scores|
  {
    IndexIsRanking(v.scores, v.ranks);
  }

  lemma EmptyAgrees()
    ensures IndexAgrees(map[], [])
  {
  }

  lemma ToSetSnoc<T>(s: seq<T>, i: nat)
    requires i < |s|
    ensures ToSet(s[..i + 1]) == ToSet(s[..i]) + {s[i]}
  {
  }

  class Database {
    var db: DB

    constructor ()
      ensures db == map[]
    {
      db := map[];
    }

    // ---- Generic ----

    method Del(key: Bytes) returns (removed: bool)
      modifies this
      ensures db == old(db) - {key} && removed == (key in old(db))
    {
      if key !in db {
        return false;
      }
      db := db - {key};
      removed := true;
    }

    // ---- Strings ----

    method Set(key: Bytes, val: Bytes)
      modifies this
      ensures db == old(db)[key := Str(val)]
    {
      db := db[key := Str(val)];
    }

    method SetNX(key: Bytes, val: Bytes) returns (added: bool)
      modifies this
      ensures added == (key !in old(db))
      ensures db == if added then old(db)[key := Str(val)] else old(db)
    {
      if key in db {
        return false;
      }
      db := db[key := Str(val)];
      added := true;
    }

    method Append(key: Bytes, suffix: Bytes) returns (r: DBResult<nat>)
      modifies this
      ensures var (slot, res) := Store.Append(At(old(db), key), suffix);
        db == Put(old(db), key, slot) && r == res
    {
      if key !in db {
        db := db[key := Str(suffix)];
        return Ok(|suffix|);
      }
      if !db[key].Str? {
        PutSame(db, key);
        return Err(WRONGTYPE);
      }
      var val := db[key].text;
      val := val + suffix;
      db := db[key := Str(val)];
      r := Ok(|val|);
    }

    method IncrBy(key: Bytes, delta: i64) returns (r: DBResult<i64>)
      modifies this
      ensures var (slot, res) := Store.IncrBy(At(old(db), key), delta);
        db == Put(old(db), key, slot) && r == res
    {
      if key !in db {
        db := db[key := Str(IntStr(delta as int))];
        return Ok(delta);
      }
      PutSame(db, key);
      if !db[key].Str? {
        return Err(WRONGTYPE);
      }
      match Stoll(db[key].text)
      case Invalid => r := Err(NOTINTEGER);
      case OutOfRange => r := Err(OUTOFRANGE);
      case Parsed(parsed, _) =>
        var val := parsed;
        var max: i64 := 0x7FFF_FFFF_FFFF_FFFF;
        var min: i64 := -0x8000_0000_0000_0000;
        if (delta > 0 && val > max - delta) || (delta < 0 && val < min - delta) {
          return Err(OUTOFRANGE);
        }
        val := val + delta;
        db := db[key := Str(IntStr(val as int))];
        r := Ok(val);
    }

    // ---- Lists ----

    method LPush(key: Bytes, vals: seq<Bytes>) returns (r: DBResult<nat>)
      modifies this
      ensures var (slot, res) := Store.LPush(At(old(db), key), vals);
        db == Put(old(db), key, slot) && r == res
    {
      PutSame(db, key);
      if key !in db {
        db := db[key := List([])];
      }
      if !db[key].List? {
        return Err(WRONGTYPE);
      }
      var list := db[key].elements;
      ghost var before := list;
      for i := 0 to |vals|
        invariant list == Reverse(vals[..i]) + before
      {
        list := [vals[i]] + list;
      }
      assert vals[..|vals|] == vals;
      assert before == [] ==> Reverse(vals) + before == Reverse(vals);
      db := db[key := List(list)];
      r := Ok(|list|);
    }

    method RPush(key: Bytes, vals: seq<Bytes>) returns (r: DBResult<nat>)
      modifies this
      ensures var (slot, res) := Store.RPush(At(old(db), key), vals);
        db == Put(old(db), key, slot) && r == res
    {
      PutSame(db, key);
      if key !in db {
        db := db[key := List([])];
      }
      if !db[key].List? {
        return Err(WRONGTYPE);
      }
      var list := db[key].elements;
      ghost var before := list;
      for i := 0 to |vals|
        invariant list == before + vals[..i]
      {
        list := list + [vals[i]];
      }
      assert vals[..|vals|] == vals;
      assert before == [] ==> before + vals == vals;
      db := db[key := List(list)];
      r := Ok(|list|);
    }

    /** `front` of an empty deque is undefined, so a stored list must not be empty. */
    method LPop(key: Bytes) returns (r: DBResult<Option<Bytes>>)
      requires key in db ==> NonEmpty(db[key])
      modifies this
      ensures var (slot, res) := Store.LPop(At(old(db), key));
        db == Put(old(db), key, slot) && r == res
    {
      PutSame(db, key);
      if key !in db {
        return Ok(None);
      }
      if !db[key].List? {
        return Err(WRONGTYPE);
      }
      var list := db[key].elements;
      var ret := list[0];
      list := list[1..];
      db := db[key := List(list)];
      if list == [] {
        OverwriteErase(old(db), key, db[key]);
        db := db - {key};
      }
      r := Ok(Some(ret));
    }

    method RPop(key: Bytes) returns (r: DBResult<Option<Bytes>>)
      requires key in db ==> NonEmpty(db[key])
      modifies this
      ensures var (slot, res) := Store.RPop(At(old(db), key));
        db == Put(old(db), key, slot) && r == res
    {
      PutSame(db, key);
      if key !in db {
        return Ok(None);
      }
      if !db[key].List? {
        return Err(WRONGTYPE);
      }
      var list := db[key].elements;
      var ret := list[|list| - 1];
      list := list[..|list| - 1];
      db := db[key := List(list)];
      if list == [] {
        OverwriteErase(old(db), key, db[key]);
        db := db - {key};
      }
      r := Ok(Some(ret));
    }

    method LRange(key: Bytes, start: i64, stop: i64) returns (r: DBResult<seq<Bytes>>)
      requires key in db ==> SizesFit(db[key])
      ensures r == Store.LRange(At(db, key), start as int, stop as int)
    {
      var ret: seq<Bytes> := [];
      if key !in db {
        return Ok(ret);
      }
      if !db[key].List? {
        return Err(WRONGTYPE);
      }
      var list := db[key].elements;
      var n := |list| as i64;
      if start >= n {
        return Ok(ret);
      }
      var lo, hi := Clamp(n, start, stop);
      ret := CopyRange(list, lo, hi);
      r := Ok(ret);
    }

    method LIndex(key: Bytes, idx: i64) returns (r: DBResult<Option<Bytes>>)
      requires key in db ==> SizesFit(db[key])
      ensures r == Store.LIndex(At(db, key), idx as int)
    {
      if key !in db {
        return Ok(None);
      }
      if !db[key].List? {
        return Err(WRONGTYPE);
      }
      var list := db[key].elements;
      var n := |list| as i64;
      var i := idx;
      if i < 0 {
        i := n + i;
      }
      if i >= n || i < 0 {
        return Ok(None);
      }
      r := Ok(Some(list[i]));
    }

    // ---- Hashes ----

    method HSet(key: Bytes, fieldVals: seq<(Bytes, Bytes)>) returns (r: DBResult<int>)
      modifies this
      ensures var (slot, res) := Store.HSet(At(old(db), key), fieldVals);
        db == Put(old(db), key, slot) && r == res
    {
      PutSame(db, key);
      if key !in db {
        db := db[key := Hash(map[])];
      }
      if !db[key].Hash? {
        return Err(WRONGTYPE);
      }
      var fields, added := AssignFields(db[key].fields, fieldVals);
      db := db[key := Hash(fields)];
      r := Ok(added);
    }

    method HDel(key: Bytes, fields: seq<Bytes>) returns (r: DBResult<int>)
      modifies this
      ensures var (slot, res) := Store.HDel(At(old(db), key), fields);
        db == Put(old(db), key, slot) && r == res
    {
      hide ToSet;
      PutSame(db, key);
      if key !in db {
        return Ok(0);
      }
      if !db[key].Hash? {
        return Err(WRONGTYPE);
      }
      var hash, removed := EraseFields(db[key].fields, fields);
      db := db[key := Hash(hash)];
      if hash == map[] {
        OverwriteErase(old(db), key, db[key]);
        db := db - {key};
      }
      r := Ok(removed);
    }

    // ---- Sets ----

    method SAdd(key: Bytes, members: seq<Bytes>) returns (r: DBResult<int>)
      modifies this
      ensures var (slot, res) := Store.SAdd(At(old(db), key), members);
        db == Put(old(db), key, slot) && r == res
    {
      PutSame(db, key);
      if key !in db {
        db := db[key := Value.Set({})];
      }
      if !db[key].Set? {
        return Err(WRONGTYPE);
      }
      var s, added := InsertAll(db[key].members, members);
      assert {} + ToSet(members) == ToSet(members);
      db := db[key := Value.Set(s)];
      r := Ok(added);
    }

    method SRem(key: Bytes, members: seq<Bytes>) returns (r: DBResult<int>)
      modifies this
      ensures var (slot, res) := Store.SRem(At(old(db), key), members);
        db == Put(old(db), key, slot) && r == res
    {
      hide ToSet;
      PutSame(db, key);
      if key !in db {
        return Ok(0);
      }
      if !db[key].Set? {
        return Err(WRONGTYPE);
      }
      var s, removed := EraseAll(db[key].members, members);
      db := db[key := Value.Set(s)];
      if s == {} {
        OverwriteErase(old(db), key, Value.Set(s));
        db := db - {key};
      }
      r := Ok(removed);
    }

    // ---- Sorted sets ----

    method ZAdd(key: Bytes, score: Score, member: Bytes) returns (r: DBResult<int>)
      requires key in db ==> IndexesAgree(db[key])
      modifies this
      ensures var (slot, res) := Store.ZAdd(At(old(db), key), score, member);
        db == Put(old(db), key, slot) && r == res
    {
      hide Sorted, IndexAgrees, Ranking;
      PutSame(db, key);
      if key !in db {
        db := db[key := SortedSet(map[], [])];
      }
      if !db[key].SortedSet? {
        return Err(WRONGTYPE);
      }
      EmptyAgrees();
      var scores, ranks, added := AddMember(db[key].scores, db[key].ranks, score, member);
      assert member in scores;
      db := db[key := SortedSet(scores, ranks)];
      r := Ok(added);
    }

    method ZRem(key: Bytes, members: seq<Bytes>) returns (r: DBResult<int>)
      requires key in db ==> IndexesAgree(db[key])
      modifies this
      ensures var (slot, res) := Store.ZRem(At(old(db), key), members);
        db == Put(old(db), key, slot) && r == res
    {
      hide Sorted, IndexAgrees, Ranking, ToSet;
      PutSame(db, key);
      if key !in db {
        return Ok(0);
      }
      if !db[key].SortedSet? {
        return Err(WRONGTYPE);
      }
      var scores, ranks, removed := RemoveMembers(db[key].scores, db[key].ranks, members);
      db := db[key := SortedSet(scores, ranks)];
      if scores == map[] {
        OverwriteErase(old(db), key, db[key]);
        db := db - {key};
      }
      r := Ok(removed);
    }

    method ZRange(key: Bytes, start: i64, stop: i64) returns (r: DBResult<seq<Rank>>)
      requires key in db ==> IndexesAgree(db[key])
      requires key in db ==> SizesFit(db[key])
      ensures r == Store.ZRange(At(db, key), start as int, stop as int)
    {
      var ret: seq<Rank> := [];
      if key !in db {
        return Ok(ret);
      }
      if !db[key].SortedSet? {
        return Err(WRONGTYPE);
      }
      hide Sorted, IndexAgrees, Ranking, IndexesAgree;
      var members, ranks := db[key].scores, db[key].ranks;
      IndexSize(db[key]);
      var n := |members| as i64;
      if start >= n {
        return Ok(ret);
      }
      var lo, hi := Clamp(n, start, stop);
      if lo > hi {
        return Ok(ret);
      }
      ret := CopyRange(ranks, lo, hi);
      r := Ok(ret);
    }
  }
}
