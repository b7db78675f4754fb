/** The acknowledged OML send queue of a BTS (abis_nm_queue_msg, abis_nm_queue_send_next and
    abis_nm_clear_queue in src/osmo-bsc/abis_nm.c). */
module OmlQueue {

  /** wAck: the BTS must acknowledge this message before the next one goes out. */
  datatype Msg<T> = Msg(body: T, wAck: bool)

  // ----- reference -----

  /** How many messages go out at once: up to and including the first that waits for an ack. */
  function Batch<T>(q: seq<Msg<T>>): (n: nat)
    ensures n <= |q|
  {
    if q == [] then 0 else if q[0].wAck then 1 else 1 + Batch(q[1..])
  }

  function Acks<T>(s: seq<Msg<T>>): (n: nat) {
    if s == [] then 0 else Acks(s[..|s| - 1]) + if s[|s| - 1].wAck then 1 else 0
  }

  lemma {:induction false} AcksConcat<T>(s: seq<Msg<T>>, t: seq<Msg<T>>)
    ensures Acks(s + t) == Acks(s) + Acks(t)
  {
    if t == [] {
      assert s + t == s;
    } else {
      AcksConcat(s, t[..|t| - 1]);
      assert (s + t)[..|s + t| - 1] == s + t[..|t| - 1];
    }
  }

  lemma SuffixStep<T>(s: seq<Msg<T>>, from: nat, m: Msg<T>)
    requires from <= |s|
    ensures (s + [m])[from..] == s[from..] + [m]
    ensures Acks((s + [m])[from..]) == Acks(s[from..]) + if m.wAck then 1 else 0
  {
    assert (s[from..] + [m])[..|s[from..]|] == s[from..];
  }

  /** Transmitted then queued is submission order. */
  predicate Ordered<T(==)>(sent: seq<Msg<T>>, base: nat, queue: seq<Msg<T>>, submitted: seq<Msg<T>>) {
    base <= |sent| && sent[base..] + queue == submitted
  }

  /** The flag counts the messages that wait for an ack since the mark. */
  predicate Flagged<T>(sent: seq<Msg<T>>, mark: nat, pend: bool) {
    mark <= |sent| && Acks(sent[mark..]) == if pend then 1 else 0
  }

  lemma OrderedSend<T>(sent: seq<Msg<T>>, base: nat, submitted: seq<Msg<T>>, m: Msg<T>)
    requires Ordered(sent, base, [], submitted)
    ensures Ordered(sent + [m], base, [], submitted + [m])
  {
    SuffixStep(sent, base, m);
    assert sent[base..] + [] == sent[base..];
    assert sent[base..] + [m] + [] == sent[base..] + [m];
  }

  lemma OrderedQueue<T>(sent: seq<Msg<T>>, base: nat, queue: seq<Msg<T>>, submitted: seq<Msg<T>>, m: Msg<T>)
    requires Ordered(sent, base, queue, submitted)
    ensures Ordered(sent, base, queue + [m], submitted + [m])
  {
    assert sent[base..] + (queue + [m]) == sent[base..] + queue + [m];
  }

  lemma OrderedBatch<T>(sent: seq<Msg<T>>, base: nat, queue: seq<Msg<T>>, submitted: seq<Msg<T>>, n: nat)
    requires Ordered(sent, base, queue, submitted) && n <= |queue|
    ensures Ordered(sent + queue[..n], base, queue[n..], submitted)
  {
    assert (sent + queue[..n])[base..] == sent[base..] + queue[..n];
    assert sent[base..] + queue[..n] + queue[n..] == sent[base..] + queue;
  }

  lemma FlaggedSend<T>(sent: seq<Msg<T>>, mark: nat, m: Msg<T>)
    requires Flagged(sent, mark, false)
    ensures Flagged(sent + [m], mark, m.wAck)
  {
    SuffixStep(sent, mark, m);
  }

  /** A batch holds at most one message that waits for an ack, and holds everything if none does. */
  lemma {:induction false} BatchAcks<T>(q: seq<Msg<T>>)
    ensures Acks(q[..Batch(q)]) <= 1
    ensures Acks(q[..Batch(q)]) == 0 ==> Batch(q) == |q|
    ensures Acks(q[..Batch(q)]) == 1 ==> Batch(q) > 0 && q[Batch(q) - 1].wAck
  {
    if q != [] && !q[0].wAck {
      BatchAcks(q[1..]);
      var n := Batch(q[1..]);
      assert q[..n + 1] == [q[0]] + q[1..][..n];
      AcksConcat([q[0]], q[1..][..n]);
      assert [q[0]][..0] == [];
    } else if q != [] {
      assert q[..1][..0] == [];
    }
  }

  /** The flag left by send-next is the number of messages in the batch that wait for an ack. */
  lemma BatchFlag<T>(q: seq<Msg<T>>)
    ensures Acks(q[..Batch(q)]) == if Batch(q) > 0 && q[Batch(q) - 1].wAck then 1 else 0
    ensures Batch(q) == |q| || (Batch(q) > 0 && q[Batch(q) - 1].wAck)
  {
    BatchAcks(q);
    var n := Batch(q);
    if n > 0 {
      assert q[..n][..n - 1] == q[..n - 1];
    }
  }

  class Queue<T> {
    var queue: seq<Msg<T>>       // abis_queue
    var pend: bool               // abis_nm_pend
    ghost var sent: seq<Msg<T>>  // handed to the link, in order
    ghost var submitted: seq<Msg<T>>  // accepted since the last clear
    ghost var base: nat          // length of sent at the last clear
    ghost var mark: nat          // length of sent when send-next was last called, or at the last clear

    /** Transmitted then queued is submission order; a waiting message implies the pending flag; between
        two send-next calls the flag counts the messages that wait for an ack. */
    ghost predicate Valid()
      reads this
    {
      && base <= mark
      && Ordered(sent, base, queue, submitted)
      && (queue != [] ==> pend)
      && Flagged(sent, mark, pend)
    }

    constructor ()
      ensures Valid() && queue == [] && !pend && sent == [] && submitted == []
    {
      queue, pend, sent, submitted, base, mark := [], false, [], [], 0, 0;
    }

    /** abis_nm_queue_msg, for abis_nm_sendmsg (wAck) and abis_nm_sendmsg_direct (not) */
    method QueueMsg(body: T, wAck: bool)
      requires Valid()
      modifies this
      ensures Valid()
      ensures submitted == old(submitted) + [Msg(body, wAck)]
      ensures sent == if old(pend) then old(sent) else old(sent) + [Msg(body, wAck)]
      ensures base == old(base) && mark == old(mark)
    {
      var msg := Msg(body, wAck);
      if |queue| == 0 && !pend {
        assert queue == [];
        OrderedSend(sent, base, submitted, msg);
        FlaggedSend(sent, mark, msg);
        pend := wAck;
        sent := sent + [msg];
      } else {
        OrderedQueue(sent, base, queue, submitted, msg);
        queue := queue + [msg];
      }
      submitted := submitted + [msg];
    }

    /** abis_nm_queue_send_next */
    method SendNext()
      requires Valid()
      modifies this
      ensures Valid() && submitted == old(submitted) && base == old(base) && mark == |old(sent)|
      ensures sent == old(sent) + old(queue)[..Batch(old(queue))]
      ensures queue == old(queue)[Batch(old(queue))..]
    {
      ghost var q0 := queue;
      ghost var n := 0;
      var wait := false;
      while |queue| > 0 && !wait
        invariant n <= |q0| && queue == q0[n..] && sent == old(sent) + q0[..n]
        invariant submitted == old(submitted) && base == old(base)
        invariant wait <==> n > 0 && q0[n - 1].wAck
        invariant Batch(q0) == if wait then n else n + Batch(q0[n..])
        decreases |queue|, !wait
      {
        var msg := queue[0];
        queue := queue[1..];
        wait := msg.wAck;
        sent := sent + [msg];
        n := n + 1;
      }
      mark := |old(sent)|;
      pend := wait;
      assert sent[mark..] == q0[..n];
      OrderedBatch(old(sent), base, q0, submitted, n);
      BatchFlag(q0);
    }

    /** abis_nm_clear_queue */
    method ClearQueue()
      requires Valid()
      modifies this
      ensures Valid() && queue == [] && !pend && submitted == [] && sent == old(sent)
      ensures base == mark == |sent|
    {
      while |queue| > 0
        invariant sent == old(sent)
        decreases |queue|
      {
        queue := queue[1..];
      }
      pend := false;
      submitted, base, mark := [], |sent|, |sent|;
      assert sent[base..] == [];
    }
  }

  datatype Op<T> = Submit(body: T, wAck: bool) | Next | Clear

  /** Any mix of sends, acknowledgements and clears keeps the queue in order. */
  method Run<T>(q: Queue<T>, ops: seq<Op<T>>)
    requires q.Valid()
    modifies q
    ensures q.Valid()
  {
    for i := 0 to |ops|
      invariant q.Valid()
    {
      match ops[i] {
        case Submit(body, wAck) => q.QueueMsg(body, wAck);
        case Next => q.SendNext();
        case Clear => q.ClearQueue();
      }
    }
  }
}
