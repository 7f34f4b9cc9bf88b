/** fifo_t: a first-in first-out queue of bytes that is a resizable buffer
    plus a read offset. Enqueued bytes go to the buffer's tail; dequeuing
    moves the offset forward and leaves the bytes before it in place, until
    the queue drains, when offset and buffer length both go back to zero.
    The storage therefore stays bounded only if the queue is emptied from
    time to time. */
module FifoQueue {
  import opened Memory
  import opened ResizableBuf

  class Fifo {
    const rb: Buffer
    var offset: nat

    /** The offset stays within the buffer's content, and it reaches the
        end of the content only as 0: a drained queue is always compacted. */
    ghost predicate Valid()
      reads this, rb
    {
      && rb.Valid()
      && offset <= rb.len
      && (offset == rb.len ==> offset == 0)
    }

    /** The bytes enqueued and not yet dequeued, oldest first. */
    function Pending(): (s: seq<byte>)
      reads this, rb, rb.buf
      requires Valid()
      ensures |s| == rb.len - offset
    {
      rb.Content()[offset..]
    }

    /** FIFO_BLANK: an empty queue over a blank buffer. */
    constructor ()
      ensures Valid() && fresh(rb) && rb.buf == null
      ensures offset == 0 && rb.len == 0 && Pending() == []
    {
      rb := new Buffer();
      offset := 0;
    }

    /** fifo_len: the number of bytes waiting. */
    function Len(): (n: nat)
      reads this, rb, rb.buf
      requires Valid()
      ensures n == |Pending()|
    {
      rb.len - offset
    }

    /** fifo_is_empty: whether nothing waits; then the queue is compacted. */
    function IsEmpty(): (e: bool)
      reads this, rb, rb.buf
      requires Valid()
      ensures e <==> Pending() == []
      ensures e ==> offset == 0 && rb.len == 0
    {
      Len() == 0
    }

    /** fifo_head: where the oldest waiting byte is; NULL while the buffer
        owns no storage. */
    function Head(): (p: Pointer)
      reads this, rb, rb.buf
      requires Valid()
      ensures p == Null <==> rb.size == 0
      ensures p.At? ==> p.offset + Len() <= p.base.Length && p.base[p.offset..p.offset + Len()] == Pending()
    {
      match rb.Ptr()
      case Null => Null
      case At(base, at) => At(base, at + offset)
    }

    /** fifo_clear: drops everything waiting, keeping the storage. */
    method Clear()
      requires Valid()
      modifies this, rb
      ensures Valid() && offset == 0 && rb.len == 0 && Pending() == []
      ensures rb.buf == old(rb.buf) && rb.size == old(rb.size)
    {
      rb.Clear();
      offset := 0;
    }

    /** fifo_append: enqueues data behind everything already waiting. */
    method Append(data: seq<byte>)
      requires Valid()
      modifies this, rb, rb.buf
      ensures Valid() && offset == old(offset)
      ensures Pending() == old(Pending()) + data
      ensures rb.buf == old(rb.buf) || fresh(rb.buf)
    {
      rb.Append(data);
    }

    /** fifo_dequeue: takes the n oldest bytes. Taking all that waits
        compacts the queue to offset 0 and an empty buffer; taking fewer
        moves the offset and touches nothing else. */
    method Dequeue(n: nat) returns (out: seq<byte>)
      requires Valid() && n <= Len()
      modifies this, rb
      ensures Valid()
      ensures out == old(Pending())[..n] && Pending() == old(Pending())[n..]
      ensures n == old(Len()) ==> offset == 0 && rb.len == 0
      ensures n < old(Len()) ==> offset == old(offset) + n && rb.len == old(rb.len)
      ensures rb.buf == old(rb.buf) && rb.size == old(rb.size) && rb.Storage() == old(rb.Storage())
    {
      out := rb.Content()[offset..offset + n];
      if n == Len() {
        offset := 0;
        rb.Clear();
      } else {
        offset := offset + n;
      }
    }
  }

  /** One call on a queue, for reasoning about runs of them. */
  datatype Op = Enqueue(data: seq<byte>) | Dequeue(n: nat)

  /** Everything the enqueues of ops hand in, in order. */
  function Enqueued(ops: seq<Op>): seq<byte> {
    if ops == [] then []
    else
      (match ops[0]
       case Enqueue(data) => data
       case Dequeue(_) => []) + Enqueued(ops[1..])
  }

  datatype Run = Run(pending: seq<byte>, out: seq<byte>)

  /** What ops do to a queue holding `pending`, step by step as Append and
      Dequeue promise: the bytes left waiting and everything the dequeues
      returned, in order; None when a dequeue asks for more than waits. */
  function Replay(pending: seq<byte>, ops: seq<Op>): Option<Run>
    decreases |ops|
  {
    if ops == [] then Some(Run(pending, []))
    else match ops[0]
      case Enqueue(data) => Replay(pending + data, ops[1..])
      case Dequeue(n) =>
        if n > |pending| then None
        else match Replay(pending[n..], ops[1..])
          case None => None
          case Some(r) => Some(Run(r.pending, pending[..n] + r.out))
  }

  /** Bytes leave in the order they came: what all the dequeues return,
      followed by what is still waiting, is what waited at the start
      followed by everything enqueued. */
  lemma {:induction false} FirstInFirstOut(pending: seq<byte>, ops: seq<Op>)
    requires Replay(pending, ops).Some?
    ensures Replay(pending, ops).value.out + Replay(pending, ops).value.pending == pending + Enqueued(ops)
    decreases |ops|
  {
    if ops != [] {
      var rest := ops[1..];
      assert Enqueued(ops) == Enqueued([ops[0]]) + Enqueued(rest) by {
        assert [ops[0]][1..] == [];
      }
      match ops[0]
      case Enqueue(data) =>
        FirstInFirstOut(pending + data, rest);
      case Dequeue(n) =>
        var r := Replay(pending[n..], rest).value;
        FirstInFirstOut(pending[n..], rest);
        calc {
          Replay(pending, ops).value.out + Replay(pending, ops).value.pending;
          pending[..n] + r.out + r.pending;
          pending[..n] + (r.out + r.pending);
          pending[..n] + (pending[n..] + Enqueued(rest));
          { assert pending == pending[..n] + pending[n..]; }
          pending + Enqueued(rest);
        }
    }
  }

  /** dequeue(enqueue(X)) == X: a queue that starts and ends empty hands out
      exactly what it was given. */
  lemma DrainedQueueReturnsInput(ops: seq<Op>)
    requires Replay([], ops).Some? && Replay([], ops).value.pending == []
    ensures Replay([], ops).value.out == Enqueued(ops)
  {
    FirstInFirstOut([], ops);
    assert Replay([], ops).value.out + [] == Replay([], ops).value.out;
    assert [] + Enqueued(ops) == Enqueued(ops);
  }

  /** One step of Replay: after an enqueue (which hands out nothing) or a
      dequeue (which hands out the front of the pending bytes), the rest of
      the run continues from the new pending bytes. */
  lemma ReplayAdvance(pending: seq<byte>, ops: seq<Op>, taken: seq<byte>, next: seq<byte>)
    requires ops != [] && Replay(pending, ops).Some?
    requires ops[0].Enqueue? ==> taken == [] && next == pending + ops[0].data
    requires ops[0].Dequeue? ==> ops[0].n <= |pending| && taken == pending[..ops[0].n] && next == pending[ops[0].n..]
    ensures Replay(next, ops[1..]).Some?
    ensures Replay(pending, ops).value == Run(Replay(next, ops[1..]).value.pending, taken + Replay(next, ops[1..]).value.out)
  {
    if ops[0].Enqueue? {
      assert taken + Replay(next, ops[1..]).value.out == Replay(next, ops[1..]).value.out;
    }
  }

  /** A run that Replay accepts never dequeues more than waits. */
  lemma ReplayFits(pending: seq<byte>, ops: seq<Op>)
    requires ops != [] && Replay(pending, ops).Some?
    ensures ops[0].Dequeue? ==> ops[0].n <= |pending|
  {
  }

  /** One fifo_append or fifo_dequeue call, as an Op. */
  method Step(q: Fifo, op: Op) returns (taken: seq<byte>)
    requires q.Valid() && (op.Dequeue? ==> op.n <= |q.Pending()|)
    modifies q, q.rb, q.rb.buf
    ensures q.Valid() && (q.rb.buf == old(q.rb.buf) || fresh(q.rb.buf))
    ensures op.Enqueue? ==> taken == [] && q.Pending() == old(q.Pending()) + op.data
    ensures op.Dequeue? ==> taken == old(q.Pending())[..op.n] && q.Pending() == old(q.Pending())[op.n..]
  {
    if op.Enqueue? {
      q.Append(op.data);
      taken := [];
    } else {
      taken := q.Dequeue(op.n);
    }
  }

  /** A run of fifo_append and fifo_dequeue calls on a queue: what the
      dequeues handed out followed by what still waits is what waited at
      the start followed by everything enqueued. */
  method RunOps(q: Fifo, ops: seq<Op>) returns (out: seq<byte>)
    requires q.Valid() && Replay(q.Pending(), ops).Some?
    modifies q, q.rb, q.rb.buf
    ensures q.Valid() && Replay(old(q.Pending()), ops) == Some(Run(q.Pending(), out))
    ensures out + q.Pending() == old(q.Pending()) + Enqueued(ops)
  {
    ghost var start := q.Pending();
    out := Replayed(q, ops);
    FirstInFirstOut(start, ops);
  }

  /** The calls of a run, one at a time: the queue ends as Replay says. */
  method Replayed(q: Fifo, ops: seq<Op>) returns (out: seq<byte>)
    requires q.Valid() && Replay(q.Pending(), ops).Some?
    modifies q, q.rb, q.rb.buf
    ensures q.Valid() && Replay(old(q.Pending()), ops) == Some(Run(q.Pending(), out))
    decreases |ops|
  {
    if ops == [] {
      out := [];
    } else {
      ghost var pending := q.Pending();
      ReplayFits(pending, ops);
      var taken := Step(q, ops[0]);
      ReplayAdvance(pending, ops, taken, q.Pending());
      var more := Replayed(q, ops[1..]);
      out := taken + more;
    }
  }
}
