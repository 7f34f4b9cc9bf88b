/** Clients of the buffer and the queue that replay the repository's test
    program and the usage the header's comments describe, proved from the
    operations' contracts alone. */
module Scenarios {
  import opened Memory
  import opened ResizableBuf
  import opened FifoQueue

  /** The bytes of an ASCII string literal. */
  function Ascii(s: string): (b: seq<byte>)
    ensures |b| == |s|
  {
    seq(|s|, i requires 0 <= i < |s| => (s[i] as int % 256) as byte)
  }

  /** The bytes of a concatenation are the bytes of its parts. */
  lemma AsciiConcat(s: string, t: string)
    ensures Ascii(s + t) == Ascii(s) + Ascii(t)
  {
  }

  /** A string of characters from 1 to 255 has no zero byte. */
  lemma AsciiNoZero(s: string)
    requires forall i :: 0 <= i < |s| ==> 0 < s[i] as int < 256
    ensures 0 !in Ascii(s)
  {
  }

  /** Cutting the middle piece out of a + b + c leaves a + c. */
  lemma Spliced(a: string, b: string, c: string)
    ensures Ascii(a + b + c)[..|a|] + Ascii(a + b + c)[|a| + |b|..] == Ascii(a + c)
  {
    AsciiConcat(a, b);
    AsciiConcat(a + b, c);
    AsciiConcat(a, c);
    var x := Ascii(a) + Ascii(b) + Ascii(c);
    assert x[..|a|] == Ascii(a);
    assert x[|a| + |b|..] == Ascii(c);
  }

  /** The strings of test/test_resizable_buf.c, spliced as the test does:
      the insert, then each of the two deletes. */
  lemma InsertedString(before: seq<byte>, after: seq<byte>)
    requires before == Ascii("hello 43 testX")
    requires after == before[..5] + Ascii(", world") + before[5..]
    ensures after == Ascii("hello, world 43 testX") && 0 !in after
  {
    assert "hello 43 testX" == "hello" + " 43 testX";
    AsciiConcat("hello", " 43 testX");
    AsciiConcat("hello", ", world");
    AsciiConcat("hello" + ", world", " 43 testX");
    assert "hello, world 43 testX" == "hello" + ", world" + " 43 testX";
    AsciiNoZero("hello, world 43 testX");
  }

  lemma FirstDelete(before: seq<byte>, after: seq<byte>)
    requires before == Ascii("hello, world 43 testX")
    requires after == before[..2] + before[9..]
    ensures after == Ascii("herld 43 testX")
  {
    assert "hello, world 43 testX" == "he" + "llo, wo" + "rld 43 testX";
    Spliced("he", "llo, wo", "rld 43 testX");
  }

  lemma SecondDelete(before: seq<byte>, after: seq<byte>)
    requires before == Ascii("herld 43 testX")
    requires after == before[..10] + before[12..]
    ensures after == Ascii("herld 43 ttX") && 0 !in after
  {
    assert "herld 43 testX" == "herld 43 t" + "es" + "tX";
    Spliced("herld 43 t", "es", "tX");
    AsciiNoZero("herld 43 ttX");
  }

  /** What the test formats: its first character is 'h' and it has 14. */
  lemma Formatted()
    ensures |Ascii("hello 43 testX")| == 14 && Ascii("hello 43 testX")[0] == 'h' as int as byte
  {
  }

  /** The first half of test/test_resizable_buf.c: a blank buffer has no
      storage; formatting into it gives a terminated 14-byte string starting
      with 'h'; growing it leaves room for 14 non-zero bytes past the
      terminator, which the test then writes. */
  method FormatAndPad() returns (rb: Buffer)
    ensures fresh(rb) && fresh(rb.buf)
    ensures rb.Valid() && rb.Terminated() && rb.Content() == Ascii("hello 43 testX")
  {
    rb := new Buffer();
    assert rb.Ptr() == Null && rb.EndPtr() == Null && rb.Len() == 0;
    var _ := rb.Printf(Ascii("hello 43 testX"));
    Formatted();
    assert rb.Content()[0] == 'h' as int as byte;
    assert rb.Terminated() && rb.Len() == 14;
    rb.Grow(15);
    ghost var formatted := rb.Content();
    FillBytes(rb.buf, rb.len + 1, 14, 'x' as int as byte);
    assert rb.Terminated() && rb.Content() == formatted;
  }

  /** test/test_resizable_buf.c: format into a blank buffer, pad the storage
      past the terminator with non-zero bytes, insert, delete twice, and read
      the result as a C string. */
  method TestResizableBuf() returns (first: seq<byte>, shown: seq<byte>)
    ensures first == Ascii("hello, world 43 testX")
    ensures shown == Ascii("herld 43 ttX")
  {
    var rb := FormatAndPad();
    ghost var formatted := rb.Content();
    rb.Insert(5, Ascii(", world"));
    InsertedString(formatted, rb.Content());
    ReadBack(rb);
    first := CStr(rb.Storage());
    ghost var inserted := rb.Content();
    rb.Delete(2, 7);
    ghost var deleted := rb.Content();
    FirstDelete(inserted, deleted);
    rb.Delete(10, 2);
    SecondDelete(deleted, rb.Content());
    ReadBack(rb);
    shown := CStr(rb.Storage());
  }

  /** A terminated buffer without zero bytes in its content reads back, as
      a C string, as its content. */
  lemma ReadBack(rb: Buffer)
    requires rb.Valid() && rb.Terminated() && 0 !in rb.Content()
    ensures 0 in rb.Storage() && CStr(rb.Storage()) == rb.Content()
  {
    var s := rb.Storage();
    assert s == rb.Content() + [0] + s[rb.len + 1..];
    CStrOfTerminated(rb.Content(), s[rb.len + 1..]);
  }

  lemma HelloWorld()
    ensures 0 !in Ascii("hello") && 0 !in Ascii("world")
    ensures [] + Ascii("hello") + Ascii("world") == Ascii("helloworld")
  {
  }

  /** Two string appends build the same string as one append of their
      concatenation, and the result reads back as a C string of length len. */
  method StrcatTwice() returns (shown: seq<byte>, len: nat)
    ensures shown == Ascii("helloworld") && len == |shown|
  {
    HelloWorld();
    CStrOfTerminated(Ascii("hello"), []);
    CStrOfTerminated(Ascii("world"), []);
    var rb := new Buffer();
    rb.Strcat(Ascii("hello") + [0]);
    rb.Strcat(Ascii("world") + [0]);
    ReadBack(rb);
    shown, len := CStr(rb.Storage()), rb.Len();
  }

  /** RB_PUSH then RB_POP of the same size: the bytes written through the
      pushed region come back, and the content is as before. */
  method StackRoundTrip(rb: Buffer, data: seq<byte>) returns (peeked: seq<byte>, popped: seq<byte>)
    requires rb.Valid()
    modifies rb, rb.buf
    ensures rb.Valid() && peeked == data && popped == data
    ensures rb.Content() == old(rb.Content()) && rb.len == old(rb.len)
  {
    var at := rb.Push(|data|);
    if rb.buf != null {
      CopyBytes(rb.buf, at, data);
    }
    assert rb.Content() == old(rb.Content()) + data;
    peeked := rb.Peek(|data|);
    popped := rb.Pop(|data|);
  }

  /** Cutting out what was spliced in restores the original. */
  lemma SpliceCancels(before: seq<byte>, loc: nat, data: seq<byte>, inserted: seq<byte>, after: seq<byte>)
    requires loc <= |before| && inserted == before[..loc] + data + before[loc..]
    requires after == inserted[..loc] + inserted[loc + |data|..]
    ensures after == before
  {
    assert inserted[..loc] == before[..loc];
    assert inserted[loc + |data|..] == before[loc..];
  }

  /** Inserting data at loc and then deleting the same number of bytes at
      loc gives back the original content. */
  method InsertThenDelete(rb: Buffer, loc: nat, data: seq<byte>)
    requires rb.Valid() && loc <= rb.len
    modifies rb, rb.buf
    ensures rb.Valid() && rb.Content() == old(rb.Content())
    ensures old(rb.Terminated()) ==> rb.Terminated()
  {
    ghost var before := rb.Content();
    rb.Insert(loc, data);
    ghost var inserted := rb.Content();
    rb.Delete(loc, |data|);
    SpliceCancels(before, loc, data, inserted, rb.Content());
  }

  /** rb_clear twice leaves the buffer as rb_clear once does. */
  method ClearTwice(rb: Buffer)
    requires rb.Valid()
    modifies rb
    ensures rb.Valid() && rb.len == 0
    ensures rb.buf == old(rb.buf) && rb.size == old(rb.size) && rb.Storage() == old(rb.Storage())
  {
    rb.Clear();
    ghost var once := (rb.buf, rb.len, rb.size, rb.Storage());
    rb.Clear();
    assert (rb.buf, rb.len, rb.size, rb.Storage()) == once;
  }

  /** rb_resize_fill on a blank buffer yields exactly `target` copies of
      `fill`. */
  method ResizeFillBlank(target: nat, fill: byte) returns (content: seq<byte>)
    ensures content == seq(target, _ => fill)
  {
    var rb := new Buffer();
    rb.ResizeFill(target, fill);
    content := rb.Content();
  }

  lemma HelloWorldQueued()
    ensures |[] + Ascii("hello") + Ascii("world")| == 10
    ensures ([] + Ascii("hello") + Ascii("world"))[..3] == Ascii("hel")
    ensures ([] + Ascii("hello") + Ascii("world"))[3..] == Ascii("loworld")
  {
    assert "hello" + "world" == "hel" + "loworld";
    AsciiConcat("hello", "world");
    AsciiConcat("hel", "loworld");
  }

  /** A queue drained by two dequeues hands back its bytes in order, is
      compacted, and the next enqueue starts again at offset 0. */
  method FifoDrainAndRefill() returns (first: seq<byte>, second: seq<byte>, offset: nat, pending: seq<byte>)
    ensures first == Ascii("hel") && second == Ascii("loworld")
    ensures offset == 0 && pending == Ascii("again")
  {
    var q;
    q, first, second := EnqueueAndDrain();
    q.Append(Ascii("again"));
    offset, pending := q.offset, q.Pending();
  }

  /** The first part of FifoDrainAndRefill: two enqueues, two dequeues. */
  method EnqueueAndDrain() returns (q: Fifo, first: seq<byte>, second: seq<byte>)
    ensures fresh(q) && fresh(q.rb) && (q.rb.buf == null || fresh(q.rb.buf))
    ensures q.Valid() && q.IsEmpty()
    ensures first == Ascii("hel") && second == Ascii("loworld")
  {
    HelloWorldQueued();
    q := EnqueueHelloWorld();
    first := q.Dequeue(3);
    assert q.offset == 3 && !q.IsEmpty();
    second := q.Dequeue(7);
  }

  /** Two enqueues into a blank queue. */
  method EnqueueHelloWorld() returns (q: Fifo)
    ensures fresh(q) && fresh(q.rb) && (q.rb.buf == null || fresh(q.rb.buf))
    ensures q.Valid() && q.offset == 0 && q.Pending() == [] + Ascii("hello") + Ascii("world")
  {
    q := new Fifo();
    q.Append(Ascii("hello"));
    q.Append(Ascii("world"));
  }
}
