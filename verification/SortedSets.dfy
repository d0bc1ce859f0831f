/**
  Sorted sets: the order on (score, member) pairs, the ranking of a member map, and the ordered
  index that is kept beside the map.
*/
module Ranks {
  import opened ByteStrings

  /**
    A score is a double that is not NaN, as an ordered value: the doubles that compare equal (the two
    zeros) are one score.
  */
  datatype Score = NegInf | Finite(value: real) | PosInf

  datatype Rank = Rank(score: Score, member: Bytes)

  predicate ScoreLess(a: Score, b: Score) {
    match (a, b)
    case (Finite(x), Finite(y)) => x < y
    case (NegInf, _) => !b.NegInf?
    case (Finite(_), _) => b.PosInf?
    case (PosInf, _) => false
  }

  /** `std::string::operator<`: byte by byte, a proper prefix first. */
  predicate BytesLess(a: Bytes, b: Bytes) {
    if |b| == 0 then false
    else if |a| == 0 then true
    else if a[0] != b[0] then a[0] < b[0]
    else BytesLess(a[1..], b[1..])
  }

  /** `std::pair::operator<`. */
  predicate RankLess(a: Rank, b: Rank) {
    ScoreLess(a.score, b.score) || (!ScoreLess(b.score, a.score) && BytesLess(a.member, b.member))
  }

  lemma {:induction false} BytesIrreflexive(a: Bytes)
    ensures !BytesLess(a, a)
  {
    if |a| > 0 {
      BytesIrreflexive(a[1..]);
    }
  }

  lemma {:induction false} BytesTrichotomy(a: Bytes, b: Bytes)
    ensures BytesLess(a, b) || a == b || BytesLess(b, a)
    ensures !(BytesLess(a, b) && BytesLess(b, a))
    decreases |a|
  {
    if |a| > 0 && |b| > 0 && a[0] == b[0] {
      BytesTrichotomy(a[1..], b[1..]);
      assert a == [a[0]] + a[1..] && b == [b[0]] + b[1..];
    }
  }

  lemma {:induction false} BytesTransitive(a: Bytes, b: Bytes, c: Bytes)
    requires BytesLess(a, b) && BytesLess(b, c)
    ensures BytesLess(a, c)
    decreases |a|
  {
    if |a| > 0 && a[0] == b[0] == c[0] {
      BytesTransitive(a[1..], b[1..], c[1..]);
    }
  }

  /** The order the index relies on is a strict total order. */
  lemma RankTrichotomy(a: Rank, b: Rank)
    ensures RankLess(a, b) || a == b || RankLess(b, a)
    ensures !(RankLess(a, b) && RankLess(b, a)) && !RankLess(a, a)
  {
    BytesTrichotomy(a.member, b.member);
    BytesIrreflexive(a.member);
  }

  lemma RankTransitive(a: Rank, b: Rank, c: Rank)
    requires RankLess(a, b) && RankLess(b, c)
    ensures RankLess(a, c)
  {
    if !ScoreLess(a.score, b.score) && !ScoreLess(b.score, c.score) {
      BytesTransitive(a.member, b.member, c.member);
    }
  }

  // ---- The order, in plain terms ----

  /** The two first differ at a byte that is smaller in `a`, or `a` ends first. */
  predicate BytesBefore(a: Bytes, b: Bytes) {
    exists k :: 0 <= k <= |a| && k < |b| && a[..k] == b[..k] && (k < |a| ==> a[k] as int < b[k] as int)
  }

  /** By score, minus infinity first and plus infinity last, and by member where the scores are equal. */
  predicate ListedBefore(a: Rank, b: Rank) {
    && (b.score.NegInf? ==> a.score.NegInf?)
    && (a.score.PosInf? ==> b.score.PosInf?)
    && (a.score.Finite? && b.score.Finite? ==> a.score.value <= b.score.value)
    && (a.score == b.score ==> BytesBefore(a.member, b.member))
  }

  lemma {:induction false} BytesLessIff(a: Bytes, b: Bytes)
    ensures BytesLess(a, b) <==> BytesBefore(a, b)
    decreases |a|
  {
    if |a| > 0 && |b| > 0 && a[0] == b[0] {
      BytesLessIff(a[1..], b[1..]);
      if k :| 0 <= k <= |a[1..]| && k < |b[1..]| && a[1..][..k] == b[1..][..k]
              && (k < |a[1..]| ==> a[1..][k] as int < b[1..][k] as int) {
        assert a[..k + 1] == [a[0]] + a[1..][..k] && b[..k + 1] == [b[0]] + b[1..][..k];
      }
      if k :| 0 < k <= |a| && k < |b| && a[..k] == b[..k] && (k < |a| ==> a[k] as int < b[k] as int) {
        assert a[1..][..k - 1] == a[..k][1..] && b[1..][..k - 1] == b[..k][1..];
      }
    } else {
      DifferAtOnce(a, b);
    }
  }

  lemma DifferAtOnce(a: Bytes, b: Bytes)
    requires |a| == 0 || |b| == 0 || a[0] != b[0]
    ensures BytesBefore(a, b) <==> |b| > 0 && (|a| == 0 || a[0] < b[0])
  {
    assert |b| > 0 ==> a[..0] == b[..0];
  }

  lemma RankLessIff(a: Rank, b: Rank)
    ensures RankLess(a, b) <==> ListedBefore(a, b)
  {
    hide BytesLess, BytesBefore;
    BytesLessIff(a.member, b.member);
  }

  lemma SortedIsListed(r: seq<Rank>)
    ensures Sorted(r) <==> forall i, j :: 0 <= i < j < |r| ==> ListedBefore(r[i], r[j])
  {
    hide RankLess, ListedBefore;
    forall i, j | 0 <= i < j < |r|
      ensures RankLess(r[i], r[j]) <==> ListedBefore(r[i], r[j])
    {
      RankLessIff(r[i], r[j]);
    }
  }

  // ---- Strictly sorted sequences ----

  ghost predicate Sorted(r: seq<Rank>) {
    forall i, j :: 0 <= i < j < |r| ==> RankLess(r[i], r[j])
  }

  ghost predicate SameElements(a: seq<Rank>, b: seq<Rank>) {
    forall x :: x in a <==> x in b
  }

  /** A set of pairs has one sorted enumeration. */
  lemma {:induction false} SortedUnique(a: seq<Rank>, b: seq<Rank>)
    requires Sorted(a) && Sorted(b) && SameElements(a, b)
    ensures a == b
  {
    EmptyTogether(a, b);
    if |a| > 0 {
      SameHead(a, b);
      forall x
        ensures x in a[1..] <==> x in b[1..]
      {
        HeadOnlyOnce(a, x);
        HeadOnlyOnce(b, x);
      }
      SortedUnique(a[1..], b[1..]);
      assert a == [a[0]] + a[1..] && b == [b[0]] + b[1..];
    }
  }

  lemma EmptyTogether(a: seq<Rank>, b: seq<Rank>)
    requires SameElements(a, b)
    ensures |a| == 0 <==> |b| == 0
  {
    if |a| > 0 {
      assert a[0] in b;
    }
    if |b| > 0 {
      assert b[0] in a;
    }
  }

  lemma SameHead(a: seq<Rank>, b: seq<Rank>)
    requires Sorted(a) && Sorted(b) && SameElements(a, b) && |a| > 0 && |b| > 0
    ensures a[0] == b[0]
  {
    assert a[0] in b && b[0] in a;
    var i :| 0 <= i < |b| && b[i] == a[0];
    var j :| 0 <= j < |a| && a[j] == b[0];
    RankTrichotomy(a[0], b[0]);
  }

  lemma HeadOnlyOnce(a: seq<Rank>, x: Rank)
    requires Sorted(a) && |a| > 0
    ensures x in a[1..] <==> x in a && x != a[0]
  {
    if x in a[1..] {
      var i :| 0 <= i < |a| - 1 && a[1..][i] == x;
      RankTrichotomy(a[0], a[i + 1]);
    }
  }

  // ---- The ranking of a member map ----

  ghost predicate Holds(members: map<Bytes, Score>, x: Rank) {
    x.member in members && members[x.member] == x.score
  }

  /** `ranks` enumerates exactly the pairs of `members`, in order, none stale and none twice. */
  ghost predicate IndexAgrees(members: map<Bytes, Score>, ranks: seq<Rank>) {
    Sorted(ranks) && forall x :: x in ranks <==> Holds(members, x)
  }

  /** The member that sorts first. */
  ghost function Lowest(members: map<Bytes, Score>): (m: Bytes)
    requires members != map[]
    ensures m in members
    ensures forall k :: k in members && k != m ==> RankLess(Rank(members[m], m), Rank(members[k], k))
    decreases |members|
  {
    var k :| k in members;
    var others := members - {k};
    if others == map[] then
      assert forall j :: j in members && j != k ==> j in others;
      k
    else
      var l := Lowest(others);
      assert forall j :: j in members && j != k ==> j in others && others[j] == members[j];
      RankTrichotomy(Rank(members[k], k), Rank(members[l], l));
      LowestOfTwo(members, k, l);
      if RankLess(Rank(members[k], k), Rank(members[l], l)) then k else l
  }

  lemma LowestOfTwo(members: map<Bytes, Score>, k: Bytes, l: Bytes)
    requires k in members && l in members && k != l
    requires forall j :: j in members && j != k && j != l ==> RankLess(Rank(members[l], l), Rank(members[j], j))
    ensures RankLess(Rank(members[k], k), Rank(members[l], l)) ==>
      forall j :: j in members && j != k ==> RankLess(Rank(members[k], k), Rank(members[j], j))
  {
    if RankLess(Rank(members[k], k), Rank(members[l], l)) {
      forall j | j in members && j != k
        ensures RankLess(Rank(members[k], k), Rank(members[j], j))
      {
        if j != l {
          RankTransitive(Rank(members[k], k), Rank(members[l], l), Rank(members[j], j));
        }
      }
    }
  }

  /** The members sorted by (score, member): repeatedly take the one that sorts first. */
  ghost function Ranking(members: map<Bytes, Score>): (r: seq<Rank>)
    ensures |r| == |members|
    decreases |members|
  {
    if members == map[] then []
    else
      var m := Lowest(members);
      [Rank(members[m], m)] + Ranking(members - {m})
  }

  lemma {:induction false} RankingAgrees(members: map<Bytes, Score>)
    ensures IndexAgrees(members, Ranking(members))
    decreases |members|
  {
    if members != map[] {
      var m := Lowest(members);
      var others := members - {m};
      RankingAgrees(others);
      var head, tail := Rank(members[m], m), Ranking(others);
      forall x
        ensures x in [head] + tail <==> Holds(members, x)
      {
        assert x in tail <==> Holds(others, x);
      }
      forall x | x in tail
        ensures RankLess(head, x)
      {
        assert Holds(others, x);
      }
      ConsSorted(head, tail);
    }
  }

  lemma ConsSorted(head: Rank, tail: seq<Rank>)
    requires Sorted(tail) && forall x :: x in tail ==> RankLess(head, x)
    ensures Sorted([head] + tail)
  {
    forall j | 0 <= j < |tail|
      ensures RankLess(head, tail[j])
    {
      assert tail[j] in tail;
    }
  }

  /** Agreeing with the map leaves no freedom: the index is the ranking, and as large as the map. */
  lemma IndexIsRanking(members: map<Bytes, Score>, ranks: seq<Rank>)
    ensures IndexAgrees(members, ranks) <==> ranks == Ranking(members)
    ensures IndexAgrees(members, ranks) ==> |ranks| == |members|
  {
    RankingAgrees(members);
    if IndexAgrees(members, ranks) {
      SortedUnique(ranks, Ranking(members));
    }
  }

  /** Every member with its score, once, in the order of the listing. */
  ghost predicate Enumerates(members: map<Bytes, Score>, r: seq<Rank>) {
    && (forall i :: 0 <= i < |r| ==> r[i].member in members && members[r[i].member] == r[i].score)
    && (forall m :: m in members ==> exists i :: 0 <= i < |r| && r[i].member == m)
    && (forall i, j :: 0 <= i < j < |r| ==> ListedBefore(r[i], r[j]))
  }

  lemma RankingIff(members: map<Bytes, Score>, r: seq<Rank>)
    ensures r == Ranking(members) <==> Enumerates(members, r)
    ensures r == Ranking(members) ==> |r| == |members|
  {
    hide Ranking, Sorted, ListedBefore;
    IndexIsRanking(members, r);
    SortedIsListed(r);
    if Enumerates(members, r) {
      forall x
        ensures x in r <==> Holds(members, x)
      {
        if Holds(members, x) {
          var i :| 0 <= i < |r| && r[i].member == x.member;
          assert r[i] == x;
        }
      }
    }
    if IndexAgrees(members, r) {
      forall i | 0 <= i < |r|
        ensures Holds(members, r[i])
      {
        assert r[i] in r;
      }
      forall m | m in members
        ensures exists i :: 0 <= i < |r| && r[i].member == m
      {
        assert Holds(members, Rank(members[m], m));
        var i :| 0 <= i < |r| && r[i] == Rank(members[m], m);
      }
    }
  }

  // ---- The ordered set: insert and erase keep the order ----

  method InsertRank(ranks: seq<Rank>, e: Rank) returns (r: seq<Rank>)
    requires Sorted(ranks)
    ensures Sorted(r)
    ensures forall x :: x in r <==> x in ranks || x == e
  {
    var p := 0;
    while p < |ranks| && RankLess(ranks[p], e)
      invariant 0 <= p <= |ranks|
      invariant forall i :: 0 <= i < p ==> RankLess(ranks[i], e)
    {
      p := p + 1;
    }
    if p < |ranks| && ranks[p] == e {
      return ranks;
    }
    r := ranks[..p] + [e] + ranks[p..];
    InsertedSorted(ranks, p, e);
    assert ranks == ranks[..p] + ranks[p..];
  }

  lemma InsertedSorted(ranks: seq<Rank>, p: nat, e: Rank)
    requires Sorted(ranks) && p <= |ranks|
    requires forall i :: 0 <= i < p ==> RankLess(ranks[i], e)
    requires p < |ranks| ==> ranks[p] != e && !RankLess(ranks[p], e)
    ensures Sorted(ranks[..p] + [e] + ranks[p..])
  {
    var r := ranks[..p] + [e] + ranks[p..];
    forall j | p <= j < |ranks|
      ensures RankLess(e, ranks[j])
    {
      RankTrichotomy(ranks[p], e);
      if p < j {
        RankTransitive(e, ranks[p], ranks[j]);
      }
    }
    forall i, j | 0 <= i < j < |r|
      ensures RankLess(r[i], r[j])
    {
      assert i < p ==> r[i] == ranks[i];
      assert i > p ==> r[i] == ranks[i - 1];
      assert j < p ==> r[j] == ranks[j];
      assert j > p ==> r[j] == ranks[j - 1];
    }
  }

  method EraseRank(ranks: seq<Rank>, e: Rank) returns (r: seq<Rank>)
    requires Sorted(ranks)
    ensures Sorted(r)
    ensures forall x :: x in r <==> x in ranks && x != e
  {
    var p := 0;
    while p < |ranks| && ranks[p] != e
      invariant 0 <= p <= |ranks|
      invariant e !in ranks[..p]
    {
      p := p + 1;
    }
    if p == |ranks| {
      assert ranks[..p] == ranks;
      return ranks;
    }
    r := ranks[..p] + ranks[p + 1..];
    ErasedElements(ranks, p);
  }

  lemma ErasedElements(ranks: seq<Rank>, p: nat)
    requires Sorted(ranks) && p < |ranks|
    ensures Sorted(ranks[..p] + ranks[p + 1..])
    ensures forall x :: x in ranks[..p] + ranks[p + 1..] <==> x in ranks && x != ranks[p]
  {
    var r := ranks[..p] + ranks[p + 1..];
    hide RankLess;
    assert forall i :: 0 <= i < |r| ==> r[i] == ranks[if i < p then i else i + 1];
    assert ranks == ranks[..p] + [ranks[p]] + ranks[p + 1..];
    forall x | x in r
      ensures x != ranks[p]
    {
      var i :| 0 <= i < |r| && r[i] == x;
      RankTrichotomy(x, ranks[p]);
    }
  }
}
