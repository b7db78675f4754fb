/** Multi-segment OML messages of Nokia BTSs (abis_nm_send and abis_nm_send_multi_segments in
    src/osmo-bsc/bts_nokia_site.c), sent through the acknowledged OML queue. */
module NokiaSegments {
  import opened OmlQueue

  datatype Placement = Only | First | Middle | Last

  /** The OM header of a segment and what follows it; sequence and length are octets. */
  datatype Segment = Segment(placement: Placement, sequence: nat, length: nat, data: seq<nat>)

  const HEADER_SIZE := 4
  const MAX_DATA := 256

  /** The Nokia header: message type, spare octet, reference in network order. */
  function Header(msgType: nat, ref: nat): (h: seq<nat>)
    ensures |h| == HEADER_SIZE
  {
    [msgType, 0, ref / 256, ref % 256]
  }

  // ----- the receiving side -----

  datatype Whole = Malformed | Whole(msgType: nat, ref: nat, payload: seq<nat>)

  function Octets(length: nat): nat {
    if length == 0 then MAX_DATA else length
  }

  predicate PlacementFits(p: Placement, i: nat, n: nat) {
    p == if n == 1 then Only else if i == 0 then First else if i == n - 1 then Last else Middle
  }

  /** Segment i of n is where it should be and as long as it says. */
  predicate InPlace(seg: Segment, i: nat, n: nat) {
    PlacementFits(seg.placement, i, n) && seg.sequence == i % 256 && Octets(seg.length) == |seg.data|
  }

  function Join(segs: seq<Segment>): (d: seq<nat>) {
    if segs == [] then [] else segs[0].data + Join(segs[1..])
  }

  function Reassemble(segs: seq<Segment>): (w: Whole) {
    var d := Join(segs);
    if (forall i :: 0 <= i < |segs| ==> InPlace(segs[i], i, |segs|)) && |d| >= HEADER_SIZE
    then Whole(d[0], d[2] * 256 + d[3], d[HEADER_SIZE..])
    else Malformed
  }

  // ----- reference segmentation -----

  /** Number of segments for n octets, n > 0. */
  function Count(n: nat): (c: nat) {
    if n <= MAX_DATA then 1 else 1 + Count(n - MAX_DATA)
  }

  function PlacementOf(i: nat, last: bool): (p: Placement) {
    if i == 0 then (if last then Only else First) else if last then Last else Middle
  }

  /** The octets cut into pieces of 256, the first with sequence number i. */
  function Pieces(b: seq<nat>, i: nat): (r: seq<Segment>)
    ensures |r| == Count(|b|)
    decreases |b|
  {
    if |b| <= MAX_DATA then [Segment(PlacementOf(i, true), i % 256, |b| % 256, b)]
    else [Segment(PlacementOf(i, false), i % 256, 0, b[..MAX_DATA])] + Pieces(b[MAX_DATA..], i + 1)
  }

  function Segments(msgType: nat, ref: nat, payload: seq<nat>): (r: seq<Segment>) {
    Pieces(Header(msgType, ref) + payload, 0)
  }

  lemma {:induction false} PiecesJoin(b: seq<nat>, i: nat)
    ensures Join(Pieces(b, i)) == b
    decreases |b|
  {
    var r := Pieces(b, i);
    if |b| <= MAX_DATA {
      assert r[1..] == [];
    } else {
      PiecesJoin(b[MAX_DATA..], i + 1);
      assert r[1..] == Pieces(b[MAX_DATA..], i + 1);
    }
  }

  lemma {:induction false} PiecesInPlace(b: seq<nat>, i: nat, k: nat)
    requires b != [] && k < Count(|b|)
    ensures InPlace(Pieces(b, i)[k], i + k, i + Count(|b|))
    decreases |b|
  {
    if |b| > MAX_DATA && k > 0 {
      PiecesInPlace(b[MAX_DATA..], i + 1, k - 1);
    }
  }

  /** Reassembly of what is sent for any payload gives back type, reference and payload. */
  lemma RoundTrip(msgType: nat, ref: nat, payload: seq<nat>)
    ensures Reassemble(Segments(msgType, ref, payload)) == Whole(msgType, ref, payload)
  {
    var b := Header(msgType, ref) + payload;
    PiecesJoin(b, 0);
    forall k | 0 <= k < Count(|b|) ensures InPlace(Pieces(b, 0)[k], k, Count(|b|)) {
      PiecesInPlace(b, 0, k);
    }
    assert b[HEADER_SIZE..] == payload;
  }

  // ----- the code -----

  function WithAck(segs: seq<Segment>): (r: seq<Msg<Segment>>) {
    if segs == [] then [] else [Msg(segs[0], true)] + WithAck(segs[1..])
  }

  lemma {:induction false} WithAckConcat(s: seq<Segment>, t: seq<Segment>)
    ensures WithAck(s + t) == WithAck(s) + WithAck(t)
  {
    if s == [] {
      assert s + t == t;
    } else {
      WithAckConcat(s[1..], t);
      assert (s + t)[1..] == s[1..] + t;
    }
  }

  /** abis_nm_send */
  method Send(q: Queue<Segment>, msgType: nat, ref: nat, data: seq<nat>)
    requires q.Valid() && |data| <= MAX_DATA - HEADER_SIZE
    modifies q
    ensures q.Valid()
    ensures q.submitted == old(q.submitted) + WithAck(Segments(msgType, ref, data))
    ensures !old(q.pend) ==> q.sent == old(q.sent) + WithAck(Segments(msgType, ref, data))
  {
    var seg := Segment(Only, 0, (HEADER_SIZE + |data|) % 256, Header(msgType, ref) + data);
    assert Segments(msgType, ref, data) == [seg];
    assert WithAck([seg]) == [Msg(seg, true)];
    q.QueueMsg(seg, true);
  }

  /** A message log has grown by these segments. */
  predicate Grown(log: seq<Msg<Segment>>, was: seq<Msg<Segment>>, more: seq<Segment>) {
    log == was + WithAck(more)
  }

  lemma GrownStep(log: seq<Msg<Segment>>, was: seq<Msg<Segment>>, more: seq<Segment>, seg: Segment)
    requires Grown(log, was, more)
    ensures Grown(log + [Msg(seg, true)], was, more + [seg])
  {
    WithAckConcat(more, [seg]);
    assert WithAck([seg]) == [Msg(seg, true)];
    assert was + WithAck(more) + [Msg(seg, true)] == was + (WithAck(more) + [Msg(seg, true)]);
  }

  lemma GrownNot(log: seq<Msg<Segment>>)
    ensures Grown(log, log, [])
  {
    assert WithAck([]) == [];
  }

  /** One segment, then send-next. */
  method SendOne(q: Queue<Segment>, seg: Segment, ghost done: seq<Segment>, ghost sub0: seq<Msg<Segment>>,
                 ghost sent0: seq<Msg<Segment>>, ghost idle: bool)
    requires q.Valid() && Grown(q.submitted, sub0, done)
    requires idle ==> !q.pend && Grown(q.sent, sent0, done)
    modifies q
    ensures q.Valid() && Grown(q.submitted, sub0, done + [seg])
    ensures idle ==> !q.pend && Grown(q.sent, sent0, done + [seg])
  {
    GrownStep(q.submitted, sub0, done, seg);
    if idle {
      GrownStep(q.sent, sent0, done, seg);
    }
    q.QueueMsg(seg, true);
    q.SendNext();
  }

  /** What is still to be cut after i segments. */
  function Left(msgType: nat, ref: nat, rest: seq<nat>, i: nat): (b: seq<nat>) {
    if i == 0 then Header(msgType, ref) + rest else rest
  }

  function MaxSend(i: nat): nat {
    if i == 0 then MAX_DATA - HEADER_SIZE else MAX_DATA
  }

  lemma CutOne(msgType: nat, ref: nat, rest: seq<nat>, i: nat)
    requires |rest| > MaxSend(i)
    ensures var n := MaxSend(i);
            Pieces(Left(msgType, ref, rest, i), i)
            == [Segment(PlacementOf(i, false), i % 256, 0, Left(msgType, ref, rest[..n], i))]
               + Pieces(Left(msgType, ref, rest[n..], i + 1), i + 1)
  {
    var b, n := Left(msgType, ref, rest, i), MaxSend(i);
    assert b[..MAX_DATA] == Left(msgType, ref, rest[..n], i);
    assert b[MAX_DATA..] == rest[n..];
  }

  /** First, middle or last segment. */
  method NextSegment(msgType: nat, ref: nat, rest: seq<nat>, i: nat) returns (n: nat, seg: Segment)
    requires rest != [] && !(i == 0 && |rest| <= MaxSend(0))
    ensures 0 < n <= |rest|
    ensures Todo(msgType, ref, rest, i) == [seg] + Todo(msgType, ref, rest[n..], i + 1)
  {
    var maxSend := if i == 0 then MAX_DATA - HEADER_SIZE else MAX_DATA;
    if |rest| > maxSend {
      CutOne(msgType, ref, rest, i);
      n := maxSend;
      if i == 0 {
        seg := Segment(First, i % 256, 0, Header(msgType, ref) + rest[..n]);
      } else {
        seg := Segment(Middle, i % 256, 0, rest[..n]);
      }
    } else {
      n := |rest|;
      seg := Segment(Last, i % 256, n % 256, rest);
    }
  }

  /** Half way: `done` is out, and what is left of the payload is still to be cut. */
  ghost predicate Sending(q: Queue<Segment>, all: seq<Segment>, done: seq<Segment>, todo: seq<Segment>,
                          sub0: seq<Msg<Segment>>, sent0: seq<Msg<Segment>>, idle: bool)
    reads q
  {
    && q.Valid()
    && Cut(all, done, todo)
    && Grown(q.submitted, sub0, done)
    && (idle ==> !q.pend && Grown(q.sent, sent0, done))
  }

  method SendNextSegment(q: Queue<Segment>, msgType: nat, ref: nat, rest: seq<nat>, i: nat,
                         ghost all: seq<Segment>, ghost done: seq<Segment>, ghost sub0: seq<Msg<Segment>>,
                         ghost sent0: seq<Msg<Segment>>, ghost idle: bool)
    returns (n: nat, ghost done': seq<Segment>)
    requires rest != [] && !(i == 0 && |rest| <= MaxSend(0))
    requires Sending(q, all, done, Todo(msgType, ref, rest, i), sub0, sent0, idle)
    modifies q
    ensures 0 < n <= |rest|
    ensures Sending(q, all, done', Todo(msgType, ref, rest[n..], i + 1), sub0, sent0, idle)
  {
    var seg;
    n, seg := NextSegment(msgType, ref, rest, i);
    SendOne(q, seg, done, sub0, sent0, idle);
    CutStep(all, done, seg, Todo(msgType, ref, rest, i), Todo(msgType, ref, rest[n..], i + 1));
    done' := done + [seg];
  }

  /** abis_nm_send_multi_segments. Every segment is followed by a send-next, so on an idle queue all
      segments are on the link, in order, when it returns. An empty payload sends nothing. */
  method SendMultiSegments(q: Queue<Segment>, msgType: nat, ref: nat, data: seq<nat>)
    requires q.Valid()
    modifies q
    ensures q.Valid()
    ensures Grown(q.submitted, old(q.submitted), if data == [] then [] else Segments(msgType, ref, data))
    ensures !old(q.pend) && data != [] ==> Grown(q.sent, old(q.sent), Segments(msgType, ref, data))
  {
    ghost var all, done := Todo(msgType, ref, data, 0), [];
    ghost var sub0, sent0, idle := q.submitted, q.sent, !q.pend;
    GrownNot(sub0);
    GrownNot(sent0);
    if 0 < |data| <= MaxSend(0) {
      Send(q, msgType, ref, data);
      return;
    }
    var rest := data;
    var i := 0;
    while |rest| > 0
      invariant i == 0 ==> rest == data
      invariant Sending(q, all, done, Todo(msgType, ref, rest, i), sub0, sent0, idle)
      decreases |rest|
    {
      var n;
      n, done := SendNextSegment(q, msgType, ref, rest, i, all, done, sub0, sent0, idle);
      rest := rest[n..];
      i := i + 1;
    }
    CutAll(all, done);
  }

  predicate Cut(all: seq<Segment>, done: seq<Segment>, todo: seq<Segment>) {
    all == done + todo
  }

  lemma CutAll(all: seq<Segment>, done: seq<Segment>)
    requires Cut(all, done, [])
    ensures all == done
  {
  }

  lemma CutStep(all: seq<Segment>, done: seq<Segment>, seg: Segment, todo: seq<Segment>, rest: seq<Segment>)
    requires Cut(all, done, todo) && todo == [seg] + rest
    ensures Cut(all, done + [seg], rest)
  {
    assert done + ([seg] + rest) == done + [seg] + rest;
  }

  /** The segments of what is left; at the start, of the whole payload unless it is empty. */
  function Todo(msgType: nat, ref: nat, rest: seq<nat>, i: nat): (r: seq<Segment>) {
    if rest == [] then [] else Pieces(Left(msgType, ref, rest, i), i)
  }
}
