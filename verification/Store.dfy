/**
  What each database operation does to the one value it addresses. A slot is what a key holds, or
  nothing; an operation maps a slot to the new slot and a result.
*/
module Store {
  import opened Options
  import opened ByteStrings
  import opened Decimal
  import opened Ranks

  datatype DBError = WRONGTYPE | NOTINTEGER | OUTOFRANGE

  datatype DBResult<+T> = Ok(value: T) | Err(error: DBError)

  datatype Value =
    | Str(text: Bytes)
    | List(elements: seq<Bytes>)
    | Hash(fields: map<Bytes, Bytes>)
    | Set(members: set<Bytes>)
    | SortedSet(scores: map<Bytes, Score>, ranks: seq<Rank>)

  type DB = map<Bytes, Value>
  type Slot = Option<Value>

  function At(db: DB, key: Bytes): Slot {
    if key in db then Some(db[key]) else None
  }

  function Put(db: DB, key: Bytes, slot: Slot): DB {
    if slot.Some? then db[key := slot.value] else db - {key}
  }

  lemma PutSame(db: DB, key: Bytes)
    ensures Put(db, key, At(db, key)) == db
  {
    if key in db {
      assert db[key := db[key]] == db;
    } else {
      assert db - {key} == db;
    }
  }

  // ---- Strings ----

  function Append(slot: Slot, suffix: Bytes): (Slot, DBResult<nat>) {
    match slot
    case None => (Some(Str(suffix)), Ok(|suffix|))
    case Some(Str(text)) => (Some(Str(text + suffix)), Ok(|text| + |suffix|))
    case _ => (slot, Err(WRONGTYPE))
  }

  /** The true sum when it fits 64 bits, and an error that changes nothing when it does not. */
  function IncrBy(slot: Slot, delta: i64): (Slot, DBResult<i64>) {
    match slot
    case None => (Some(Str(IntStr(delta as int))), Ok(delta))
    case Some(Str(text)) => (
      match Stoll(text)
      case Invalid => (slot, Err(NOTINTEGER))
      case OutOfRange => (slot, Err(OUTOFRANGE))
      case Parsed(val, _) =>
        var sum := val as int + delta as int;
        if InI64(sum) then (Some(Str(IntStr(sum))), Ok(sum as i64)) else (slot, Err(OUTOFRANGE)))
    case _ => (slot, Err(WRONGTYPE))
  }

  // ---- Lists ----

  function Reverse<T>(s: seq<T>): (r: seq<T>)
    ensures |r| == |s|
    ensures forall i :: 0 <= i < |s| ==> r[i] == s[|s| - 1 - i]
  {
    seq(|s|, i requires 0 <= i < |s| => s[|s| - 1 - i])
  }

  function LPush(slot: Slot, vals: seq<Bytes>): (Slot, DBResult<nat>) {
    match slot
    case None => (Some(List(Reverse(vals))), Ok(|vals|))
    case Some(List(es)) => (Some(List(Reverse(vals) + es)), Ok(|vals| + |es|))
    case _ => (slot, Err(WRONGTYPE))
  }

  function RPush(slot: Slot, vals: seq<Bytes>): (Slot, DBResult<nat>) {
    match slot
    case None => (Some(List(vals)), Ok(|vals|))
    case Some(List(es)) => (Some(List(es + vals)), Ok(|es| + |vals|))
    case _ => (slot, Err(WRONGTYPE))
  }

  function ListSlot(es: seq<Bytes>): Slot {
    if es == [] then None else Some(List(es))
  }

  // An empty list is never stored, so what popping one would do is of no account.

  function LPop(slot: Slot): (Slot, DBResult<Option<Bytes>>) {
    match slot
    case None => (None, Ok(None))
    case Some(List(es)) => if es == [] then (None, Ok(None)) else (ListSlot(es[1..]), Ok(Some(es[0])))
    case _ => (slot, Err(WRONGTYPE))
  }

  function RPop(slot: Slot): (Slot, DBResult<Option<Bytes>>) {
    match slot
    case None => (None, Ok(None))
    case Some(List(es)) =>
      if es == [] then (None, Ok(None)) else (ListSlot(es[..|es| - 1]), Ok(Some(es[|es| - 1])))
    case _ => (slot, Err(WRONGTYPE))
  }

  /** A negative index counts from the end. */
  function Norm(n: nat, i: int): int {
    if i < 0 then n + i else i
  }

  function Min(a: int, b: int): int {
    if a < b then a else b
  }

  function Max(a: int, b: int): int {
    if a < b then b else a
  }

  predicate InWindow(n: nat, j: nat, start: int, stop: int) {
    Norm(n, start) <= j <= Norm(n, stop)
  }

  /** The elements whose index lies between the normalised bounds, both included. */
  function Window<T>(s: seq<T>, start: int, stop: int): seq<T> {
    var lo, hi := Max(0, Norm(|s|, start)), Min(|s|, Norm(|s|, stop) + 1);
    if lo < hi then s[lo..hi] else []
  }

  function LRange(slot: Slot, start: int, stop: int): DBResult<seq<Bytes>> {
    match slot
    case None => Ok([])
    case Some(List(es)) => Ok(Window(es, start, stop))
    case _ => Err(WRONGTYPE)
  }

  function LIndex(slot: Slot, idx: int): DBResult<Option<Bytes>> {
    match slot
    case None => Ok(None)
    case Some(List(es)) => var i := Norm(|es|, idx); Ok(if 0 <= i < |es| then Some(es[i]) else None)
    case _ => Err(WRONGTYPE)
  }

  // ---- Hashes ----

  function ToSet<T>(s: seq<T>): set<T> {
    set x | x in s
  }

  /** Later pairs win. */
  function Assign(fields: map<Bytes, Bytes>, pairs: seq<(Bytes, Bytes)>): map<Bytes, Bytes> {
    if |pairs| == 0 then fields
    else
      var last := pairs[|pairs| - 1];
      Assign(fields, pairs[..|pairs| - 1])[last.0 := last.1]
  }

  function HSet(slot: Slot, pairs: seq<(Bytes, Bytes)>): (Slot, DBResult<int>) {
    match slot
    case None => (Some(Hash(Assign(map[], pairs))), Ok(|Assign(map[], pairs)|))
    case Some(Hash(fields)) => (Some(Hash(Assign(fields, pairs))), Ok(|Assign(fields, pairs)| - |fields|))
    case _ => (slot, Err(WRONGTYPE))
  }

  function HDel(slot: Slot, names: seq<Bytes>): (Slot, DBResult<int>) {
    match slot
    case None => (None, Ok(0))
    case Some(Hash(fields)) =>
      var left := fields - ToSet(names);
      (if left == map[] then None else Some(Hash(left)), Ok(|fields| - |left|))
    case _ => (slot, Err(WRONGTYPE))
  }

  // ---- Sets ----

  function SAdd(slot: Slot, members: seq<Bytes>): (Slot, DBResult<int>) {
    match slot
    case None => (Some(Set(ToSet(members))), Ok(|ToSet(members)|))
    case Some(Set(s)) => (Some(Set(s + ToSet(members))), Ok(|s + ToSet(members)| - |s|))
    case _ => (slot, Err(WRONGTYPE))
  }

  function SRem(slot: Slot, members: seq<Bytes>): (Slot, DBResult<int>) {
    match slot
    case None => (None, Ok(0))
    case Some(Set(s)) =>
      var left := s - ToSet(members);
      (if left == {} then None else Some(Set(left)), Ok(|s| - |left|))
    case _ => (slot, Err(WRONGTYPE))
  }

  // ---- Sorted sets: after every change the index is the ranking of the member map ----

  ghost function Ranked(scores: map<Bytes, Score>): Slot {
    if scores == map[] then None else Some(SortedSet(scores, Ranking(scores)))
  }

  ghost function ZAdd(slot: Slot, score: Score, member: Bytes): (Slot, DBResult<int>) {
    match slot
    case None => (Ranked(map[member := score]), Ok(1))
    case Some(SortedSet(scores, _)) => (Ranked(scores[member := score]), Ok(|scores[member := score]| - |scores|))
    case _ => (slot, Err(WRONGTYPE))
  }

  ghost function ZRem(slot: Slot, members: seq<Bytes>): (Slot, DBResult<int>) {
    match slot
    case None => (None, Ok(0))
    case Some(SortedSet(scores, _)) =>
      var left := scores - ToSet(members);
      (Ranked(left), Ok(|scores| - |left|))
    case _ => (slot, Err(WRONGTYPE))
  }

  function ZRange(slot: Slot, start: int, stop: int): DBResult<seq<Rank>> {
    match slot
    case None => Ok([])
    case Some(SortedSet(_, ranks)) => Ok(Window(ranks, start, stop))
    case _ => Err(WRONGTYPE)
  }

  function ZScore(slot: Slot, member: Bytes): DBResult<Option<Score>> {
    match slot
    case None => Ok(None)
    case Some(SortedSet(scores, _)) => Ok(if member in scores then Some(scores[member]) else None)
    case _ => Err(WRONGTYPE)
  }

  // ---- Invariants of what is stored ----

  /** A sorted set's index is exactly its members in order. */
  ghost predicate IndexesAgree(v: Value) {
    v.SortedSet? ==> IndexAgrees(v.scores, v.ranks)
  }

  predicate NonEmpty(v: Value) {
    match v
    case Str(_) => true
    case List(es) => es != []
    case Hash(fields) => fields != map[]
    case Set(s) => s != {}
    case SortedSet(scores, _) => scores != map[]
  }

  /** What a key may hold in any state reached through commands. */
  ghost predicate Sound(slot: Slot) {
    slot.Some? ==> IndexesAgree(slot.value) && NonEmpty(slot.value)
  }

  ghost predicate SoundDB(db: DB) {
    forall k :: k in db ==> Sound(Some(db[k]))
  }

  // ---- Windows, exactly ----

  /**
    The window holds, in order, precisely the elements at an index between the normalised bounds:
    it is one contiguous piece, and an index is in the piece iff it is between them.
  */
  lemma WindowExact<T>(s: seq<T>, start: int, stop: int) returns (a: nat, b: nat)
    ensures a <= b <= |s| && Window(s, start, stop) == s[a..b]
    ensures forall j: nat :: j < |s| ==> (a <= j < b <==> InWindow(|s|, j, start, stop))
  {
    var lo, hi := Max(0, Norm(|s|, start)), Min(|s|, Norm(|s|, stop) + 1);
    if lo < hi {
      a, b := lo, hi;
    } else {
      a, b := 0, 0;
    }
  }

  /** Adjacent windows with non-negative bounds concatenate. */
  lemma WindowsConcatenate<T>(s: seq<T>, start: nat, mid: nat, stop: nat)
    requires start <= mid <= stop
    ensures Window(s, start, mid) + Window(s, mid + 1, stop) == Window(s, start, stop)
  {
    var n := |s|;
    if mid + 1 < n {
      var hi := Min(n, stop + 1);
      assert s[start..hi] == s[start..mid + 1] + s[mid + 1..hi];
    }
  }

  /** `LRANGE i i` and `LINDEX i` agree for every i, in range or not, negative or not. */
  lemma RangeOfOne(slot: Slot, i: int)
    ensures match LIndex(slot, i)
            case Err(e) => LRange(slot, i, i) == Err(e)
            case Ok(None) => LRange(slot, i, i) == Ok([])
            case Ok(Some(x)) => LRange(slot, i, i) == Ok([x])
  {
    if slot.Some? && slot.value.List? {
      var es := slot.value.elements;
      var j := Norm(|es|, i);
      if 0 <= j < |es| {
        assert es[j..j + 1] == [es[j]];
      }
    }
  }

  /**
    ZRANGE refines sorting: what it returns is the window of the members sorted by (score, member),
    and each returned score is that member's ZSCORE.
  */
  lemma ZRangeRefinesSorting(slot: Slot, start: int, stop: int)
    requires Sound(slot) && slot.Some? && slot.value.SortedSet?
    ensures ZRange(slot, start, stop) == Ok(Window(Ranking(slot.value.scores), start, stop))
    ensures var r := ZRange(slot, start, stop).value;
      forall i, j :: 0 <= i < j < |r| ==> ListedBefore(r[i], r[j])
    ensures forall x :: x in ZRange(slot, start, stop).value ==> ZScore(slot, x.member) == Ok(Some(x.score))
  {
    hide Sorted, Ranking, Window, ListedBefore;
    var scores, ranks := slot.value.scores, slot.value.ranks;
    IndexIsRanking(scores, ranks);
    WindowSorted(ranks, start, stop);
    SortedIsListed(Window(ranks, start, stop));
    forall x | x in Window(ranks, start, stop)
      ensures Holds(scores, x)
    {
      assert x in ranks;
    }
  }

  lemma WindowSorted(ranks: seq<Rank>, start: int, stop: int)
    requires Sorted(ranks)
    ensures Sorted(Window(ranks, start, stop))
    ensures forall x :: x in Window(ranks, start, stop) ==> x in ranks
  {
    hide RankLess;
  }
}
