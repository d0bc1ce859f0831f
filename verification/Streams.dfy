/**
  One client's byte stream. Bytes arrive in chunks of any size; after each chunk the server runs
  `parse_one` once. What is decoded does not depend on where the chunks were cut.
*/
module Streams {
  import opened ByteStrings
  import opened RespValues
  import opened Parser
  import opened Serializer
  import opened RoundTrips

  /** A stream parsed until a verdict other than COMPLETE: its values and what is left. */
  datatype Decoded = Decoded(vals: seq<RespValue>, rest: Bytes, failed: bool)

  function Decode(s: Bytes): Decoded
    decreases |s|
  {
    match Parse(s)
    case Complete(v, u) => After([v], Decode(s[u..]))
    case Incomplete => Decoded([], s, false)
    case Error => Decoded([], s, true)
  }

  lemma DecodeStops(s: Bytes)
    ensures Decode([]) == Decoded([], [], false)
    ensures Parse(s).Error? ==> Decode(s).failed
  {
  }

  function After(vals: seq<RespValue>, d: Decoded): Decoded {
    d.(vals := vals + d.vals)
  }

  lemma AfterAfter(a: seq<RespValue>, b: seq<RespValue>, d: Decoded)
    ensures After(a, After(b, d)) == After(a + b, d)
    ensures After([], d) == d
  {
    assert a + (b + d.vals) == (a + b) + d.vals;
    assert [] + d.vals == d.vals;
  }

  /** Decoding may stop anywhere and resume with what was left in front of the new bytes. */
  lemma {:induction false} DecodeAppend(a: Bytes, b: Bytes)
    ensures Decode(a + b) == After(Decode(a).vals, Decode(Decode(a).rest + b))
    decreases |a|
  {
    hide Parse;
    match Parse(a)
    case Complete(v, u) =>
      CompleteStable(a, b);
      SplitAppend(a, b, u);
      DecodeAppend(a[u..], b);
      AfterAfter([v], Decode(a[u..]).vals, Decode(Decode(a[u..]).rest + b));
    case Incomplete =>
      AfterAfter([], [], Decode(a + b));
    case Error =>
      AfterAfter([], [], Decode(a + b));
  }

  /** Concatenated serializations decode to the values in order. */
  lemma {:induction false} DecodeSerialized(vs: seq<RespValue>, rest: Bytes)
    requires AllWellFormed(vs)
    ensures Decode(SerializeAll(vs) + rest) == After(vs, Decode(rest))
  {
    if |vs| == 0 {
      assert [] + rest == rest;
      AfterAfter([], [], Decode(rest));
    } else {
      hide Parse, Serialize, SerializeAll, AllWellFormed;
      ApartWellFormed(vs);
      var head, tail := Serialize(vs[0]), SerializeAll(vs[1..]) + rest;
      SerializeApart(vs, rest);
      RoundTrip(vs[0], tail);
      assert (head + tail)[|head|..] == tail;
      DecodeSerialized(vs[1..], rest);
      AfterAfter([vs[0]], vs[1..], Decode(rest));
    }
  }

  // ---- The receiving side ----

  /** A client as the server sees it; `dispatched` is a log, and an error ends the run. */
  datatype Client = Client(buff: Bytes, dispatched: seq<RespValue>, failed: bool)

  const FRESH := Client([], [], false)

  /** One `recv` of `chunk`: append it, parse once, dispatch if COMPLETE. */
  function Receive(c: Client, chunk: Bytes): Client {
    if c.failed then c
    else
      var buff := c.buff + chunk;
      match Parse(buff)
      case Complete(v, u) => Client(buff[u..], c.dispatched + [v], false)
      case Incomplete => Client(buff, c.dispatched, false)
      case Error => Client(buff, c.dispatched, true)
  }

  function ReceiveAll(chunks: seq<Bytes>): Client {
    if |chunks| == 0 then FRESH
    else Receive(ReceiveAll(chunks[..|chunks| - 1]), chunks[|chunks| - 1])
  }

  function Flatten(chunks: seq<Bytes>): Bytes {
    if |chunks| == 0 then [] else Flatten(chunks[..|chunks| - 1]) + chunks[|chunks| - 1]
  }

  /** No receive follows an error: only the last chunk may have caused one. */
  predicate Live(chunks: seq<Bytes>) {
    |chunks| > 0 ==> !ReceiveAll(chunks[..|chunks| - 1]).failed
  }

  lemma {:induction false} FailureIsFinal(chunks: seq<Bytes>, i: nat)
    requires i <= |chunks|
    requires !ReceiveAll(chunks).failed
    ensures !ReceiveAll(chunks[..i]).failed && Live(chunks[..i])
  {
    if i == |chunks| {
      assert chunks[..i] == chunks;
    } else {
      var front := chunks[..|chunks| - 1];
      assert front[..i] == chunks[..i];
      FailureIsFinal(front, i);
    }
  }

  /**
    The state after `chunks`, tied to the bytes received: `consumed` decodes exactly to what was
    dispatched, consumed bytes and buffer make up the stream, and decoding the stream is what was
    dispatched followed by decoding the buffer.
  */
  ghost predicate Tracks(chunks: seq<Bytes>, consumed: Bytes) {
    var c := ReceiveAll(chunks);
    && Flatten(chunks) == consumed + c.buff
    && Decode(consumed) == Decoded(c.dispatched, [], false)
    && Decode(Flatten(chunks)) == After(c.dispatched, Decode(c.buff))
    && |c.dispatched| <= |chunks|
    && (c.failed ==> Parse(c.buff).Error?)
  }

  lemma DecodeOne(s: Bytes)
    requires Parse(s).Complete?
    ensures var Complete(v, u) := Parse(s); Decode(s[..u]) == Decoded([v], [], false)
  {
    hide ParseArray, ParseSimpleString, ParseBulkString, ParseInteger, ParseSimpleError;
    var Complete(v, u) := Parse(s);
    VerdictStable(s, []);
    assert s[..u][u..] == [];
    DecodeStops([]);
  }

  /**
    One receive. The bytes consumed grow by exactly the value dispatched, and exactly one value is
    dispatched whenever one is complete in the buffer.
  */
  lemma ReceiveStep(consumed: Bytes, c: Client, chunk: Bytes) returns (consumed': Bytes)
    requires !c.failed && Decode(consumed) == Decoded(c.dispatched, [], false)
    ensures var c' := Receive(c, chunk);
      && consumed + c.buff + chunk == consumed' + c'.buff
      && Decode(consumed') == Decoded(c'.dispatched, [], false)
      && (c'.failed ==> Parse(c'.buff).Error?)
      && |c'.dispatched| == |c.dispatched| + (if Decode(c.buff + chunk).vals == [] then 0 else 1)
  {
    hide Parse;
    var buff := c.buff + chunk;
    consumed' := consumed;
    assert consumed + c.buff + chunk == consumed + buff;
    if Parse(buff).Complete? {
      var Complete(v, u) := Parse(buff);
      consumed' := consumed + buff[..u];
      assert consumed + buff == consumed' + buff[u..];
      DecodeOne(buff);
      assert [] + buff[..u] == buff[..u];
      DecodeAppend(consumed, buff[..u]);
    }
  }

  /** Every reachable state up to and including the first error, for every stream and every split. */
  lemma {:induction false} StreamInvariant(chunks: seq<Bytes>) returns (consumed: Bytes)
    requires Live(chunks)
    ensures Tracks(chunks, consumed)
  {
    if |chunks| == 0 {
      consumed := [];
      DecodeStops([]);
    } else {
      hide Parse;
      var front, chunk := chunks[..|chunks| - 1], chunks[|chunks| - 1];
      LastReceive(chunks);
      var before := StreamInvariant(front);
      var c := ReceiveAll(front);
      consumed := ReceiveStep(before, c, chunk);
      var c' := ReceiveAll(chunks);
      DecodeAppend(consumed, c'.buff);
      assert [] + c'.buff == c'.buff;
    }
  }

  /** Draining the buffer completes the stream: chunking never changes what is decoded. */
  lemma ChunkingIrrelevant(a: seq<Bytes>, b: seq<Bytes>)
    requires Live(a) && Live(b) && Flatten(a) == Flatten(b)
    ensures var ca, cb := ReceiveAll(a), ReceiveAll(b);
      After(ca.dispatched, Decode(ca.buff)) == After(cb.dispatched, Decode(cb.buff)) == Decode(Flatten(a))
  {
    var _ := StreamInvariant(a);
    var _ := StreamInvariant(b);
  }

  /**
    The lag, exactly: after a receive the number dispatched is one more than before, capped by the
    number of values complete in the stream so far.
  */
  lemma Lag(chunks: seq<Bytes>)
    requires Live(chunks) && |chunks| > 0
    ensures var next, all := |ReceiveAll(chunks[..|chunks| - 1]).dispatched| + 1, |Decode(Flatten(chunks)).vals|;
      |ReceiveAll(chunks).dispatched| == if next < all then next else all
  {
    hide Parse, Decode, ReceiveAll, Flatten, Receive;
    var front, chunk := chunks[..|chunks| - 1], chunks[|chunks| - 1];
    LastReceive(chunks);
    var before := StreamInvariant(front);
    var c := ReceiveAll(front);
    var _ := ReceiveStep(before, c, chunk);
    DecodeAppend(before, c.buff + chunk);
    assert [] + (c.buff + chunk) == c.buff + chunk;
    assert before + (c.buff + chunk) == Flatten(front) + chunk;
  }

  lemma LastReceive(chunks: seq<Bytes>)
    requires Live(chunks) && |chunks| > 0
    ensures var front, chunk := chunks[..|chunks| - 1], chunks[|chunks| - 1];
      && ReceiveAll(chunks) == Receive(ReceiveAll(front), chunk)
      && Flatten(chunks) == Flatten(front) + chunk
      && Live(front) && !ReceiveAll(front).failed
  {
    var front := chunks[..|chunks| - 1];
    FailureIsFinal(front, |front|);
    assert front[..|front|] == front;
  }

  /** How many values are complete in the first `j` chunks. */
  function Available(chunks: seq<Bytes>, j: nat): nat
    requires j <= |chunks|
  {
    |Decode(Flatten(chunks[..j])).vals|
  }

  /**
    In closed form: after n receives the number dispatched is the least, over all 0 <= j <= n, of the
    number available after j of them plus one for each of the other n - j.
  */
  lemma {:induction false} DispatchedClosedForm(chunks: seq<Bytes>) returns (least: nat)
    requires Live(chunks)
    ensures least <= |chunks|
    ensures |ReceiveAll(chunks).dispatched| == Available(chunks, least) + |chunks| - least
    ensures forall j: nat :: j <= |chunks| ==>
      |ReceiveAll(chunks).dispatched| <= Available(chunks, j) + |chunks| - j
  {
    hide Parse, Decode, ReceiveAll, Flatten, Receive;
    assert chunks[..|chunks|] == chunks;
    if |chunks| == 0 {
      NothingYet();
      least := 0;
    } else {
      var front := chunks[..|chunks| - 1];
      forall j: nat | j <= |front|
        ensures Available(chunks, j) == Available(front, j)
      {
        assert front[..j] == chunks[..j];
      }
      LastReceive(chunks);
      Lag(chunks);
      least := DispatchedClosedForm(front);
      if |ReceiveAll(front).dispatched| + 1 >= Available(chunks, |chunks|) {
        least := |chunks|;
      }
    }
  }

  lemma NothingYet()
    ensures ReceiveAll([]) == FRESH && Flatten([]) == [] && Decode([]).vals == []
  {
    DecodeStops([]);
  }

  /**
    So everything complete has been dispatched exactly when since every earlier moment no more values
    became complete than chunks arrived.
  */
  lemma NothingLagsIff(chunks: seq<Bytes>)
    requires Live(chunks)
    ensures var n := |chunks|;
      |ReceiveAll(chunks).dispatched| == Available(chunks, n)
      <==> forall j: nat :: j <= n ==> Available(chunks, n) - Available(chunks, j) <= n - j
  {
    hide Available, ReceiveAll;
    var least := DispatchedClosedForm(chunks);
  }

  /**
    The k-th chunk breaks the stream: an error lies in the bytes so far, and the values before it are
    few enough to have been dispatched by the receives before.
  */
  predicate Breaks(chunks: seq<Bytes>, k: nat)
    requires 0 < k <= |chunks|
  {
    var all := Decode(Flatten(chunks[..k]));
    all.failed && forall j: nat :: j < k ==> |all.vals| - Available(chunks, j) <= k - 1 - j
  }

  /** What a receive leaves decides whether the stream failed. */
  lemma FailedBuffer(chunks: seq<Bytes>)
    requires Live(chunks) && |chunks| > 0
    ensures var c, before, all :=
        ReceiveAll(chunks), |ReceiveAll(chunks[..|chunks| - 1]).dispatched|, Decode(Flatten(chunks));
      && (c.failed ==> all.failed && |all.vals| == before)
      && (!c.failed && all.failed ==> |all.vals| > before)
  {
    hide Parse, Decode, ReceiveAll, Flatten;
    LastReceive(chunks);
    var c := ReceiveAll(chunks);
    var _ := StreamInvariant(chunks);
    DecodeVerdict(c.buff);
    DecodeVerdict(ReceiveAll(chunks[..|chunks| - 1]).buff + chunks[|chunks| - 1]);
  }

  lemma DecodeVerdict(s: Bytes)
    ensures Parse(s).Error? ==> Decode(s) == Decoded([], s, true)
    ensures Parse(s).Incomplete? ==> Decode(s) == Decoded([], s, false)
  {
  }

  /** A receive fails exactly when its chunk breaks the stream. */
  lemma FailsNowIff(chunks: seq<Bytes>)
    requires Live(chunks) && |chunks| > 0
    ensures ReceiveAll(chunks).failed <==> Breaks(chunks, |chunks|)
  {
    hide Decode, ReceiveAll, Flatten;
    var n := |chunks|;
    var front := chunks[..n - 1];
    assert chunks[..n] == chunks;
    forall j: nat | j < n
      ensures Available(chunks, j) == Available(front, j)
    {
      assert front[..j] == chunks[..j];
    }
    LastReceive(chunks);
    FailedBuffer(chunks);
    var least := DispatchedClosedForm(front);
  }

  lemma BreaksFront(chunks: seq<Bytes>, k: nat)
    requires 0 < k < |chunks|
    ensures Breaks(chunks[..|chunks| - 1], k) <==> Breaks(chunks, k)
  {
    hide Decode, Flatten;
    var front := chunks[..|chunks| - 1];
    assert front[..k] == chunks[..k];
    forall j: nat | j < k
      ensures Available(chunks, j) == Available(front, j)
    {
      assert front[..j] == chunks[..j];
    }
  }

  ghost predicate Unbroken(chunks: seq<Bytes>) {
    forall k: nat :: 0 < k <= |chunks| ==> !Breaks(chunks, k)
  }

  /** A stream has failed exactly when one of its chunks broke it, for every stream and every split. */
  lemma {:induction false} FailsIff(chunks: seq<Bytes>)
    ensures ReceiveAll(chunks).failed <==> !Unbroken(chunks)
  {
    hide Breaks, Receive;
    if |chunks| > 0 {
      var front := chunks[..|chunks| - 1];
      FailsIff(front);
      forall k: nat | 0 < k < |chunks|
        ensures Breaks(front, k) <==> Breaks(chunks, k)
      {
        BreaksFront(chunks, k);
      }
      if ReceiveAll(front).failed {
        FailedStays(ReceiveAll(front), chunks[|chunks| - 1]);
        var k: nat :| 0 < k <= |front| && Breaks(front, k);
        assert Breaks(chunks, k);
      } else {
        FailsNowIff(chunks);
      }
    }
  }

  /** And it is live exactly when none but the last did. */
  lemma LiveIff(chunks: seq<Bytes>)
    ensures Live(chunks) <==> (|chunks| > 0 ==> Unbroken(chunks[..|chunks| - 1]))
  {
    hide Unbroken, ReceiveAll;
    if |chunks| > 0 {
      FailsIff(chunks[..|chunks| - 1]);
    }
  }

  lemma FailedStays(c: Client, chunk: Bytes)
    requires c.failed
    ensures Receive(c, chunk) == c
  {
  }

  /** Two commands that arrive in one chunk: only the first is dispatched. */
  lemma TwoInOneChunkLag(v: RespValue, w: RespValue)
    requires WellFormed(v) && WellFormed(w)
    ensures var chunks := [Serialize(v) + Serialize(w)];
      ReceiveAll(chunks).dispatched == [v] && Available(chunks, 1) == 2
  {
    hide Parse, Serialize;
    var chunk := Serialize(v) + Serialize(w);
    assert [chunk][..0] == [] && [chunk][..1] == [chunk] && [] + chunk == chunk;
    RoundTrip(v, Serialize(w));
    SerializeCons(v, [w]);
    SerializeCons(w, []);
    assert [w] + [] == [w] && Serialize(w) + [] == Serialize(w);
    DecodeSerialized([v, w], []);
    DecodeStops([]);
    assert [v] + [w] == [v, w] && chunk + [] == chunk;
    NothingYet();
  }

  /** A stream of well-formed commands, cut anywhere and even mid-command, never fails. */
  lemma {:induction false} CommandsArriveInOrder(cmds: seq<RespValue>, chunks: seq<Bytes>, more: Bytes)
    requires AllWellFormed(cmds)
    requires SerializeAll(cmds) == Flatten(chunks) + more
    ensures !ReceiveAll(chunks).failed
    ensures ReceiveAll(chunks).dispatched <= cmds
  {
    hide Parse;
    if |chunks| > 0 {
      var front, chunk := chunks[..|chunks| - 1], chunks[|chunks| - 1];
      assert Flatten(chunks) + more == Flatten(front) + (chunk + more);
      CommandsArriveInOrder(cmds, front, chunk + more);
    }
    WholeStream(cmds, chunks, more);
  }

  lemma WholeStream(cmds: seq<RespValue>, chunks: seq<Bytes>, more: Bytes)
    requires AllWellFormed(cmds)
    requires SerializeAll(cmds) == Flatten(chunks) + more
    requires Live(chunks)
    ensures !ReceiveAll(chunks).failed
    ensures ReceiveAll(chunks).dispatched <= cmds
  {
    hide Parse, Decode, ReceiveAll, Flatten;
    var consumed := StreamInvariant(chunks);
    var c := ReceiveAll(chunks);
    DecodeSerialized(cmds, []);
    DecodeStops([]);
    assert SerializeAll(cmds) + [] == consumed + (c.buff + more);
    DecodeAppend(consumed, c.buff + more);
    assert [] + (c.buff + more) == c.buff + more;
    assert cmds == c.dispatched + Decode(c.buff + more).vals;
    if c.failed {
      ErrorStable(c.buff, more);
      DecodeStops(c.buff + more);
      assert false;
    }
  }
}
