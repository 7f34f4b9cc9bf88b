# resizable_buf in Dafny

A model of the resizable byte buffer `rb_t` and the byte FIFO `fifo_t` from
`resizable_buf.h`, with proofs of what the header, its comments and
`test/test_resizable_buf.c` promise.

- `memory.dfy` (module `Memory`): bytes, the C block operations the buffer
  moves its storage with (memmove, memcpy, memset), and C strings (`StrLen`,
  `CStr`).
- `resizable_buf.dfy` (module `ResizableBuf`): class `Buffer`, the struct
  `{buf, len, size}`. `buf` is a nullable array of `size` bytes. It is null
  exactly while nothing is allocated, as in `RB_BLANK`. The object invariant
  `Valid()` says that, and also `len <= size`. `Content()` is the first `len`
  bytes. `Storage()` is all `size` bytes, so the model also keeps the bytes
  past `len`: bytes popped or cleared stay in place, and so does the zero
  terminator. `Terminated()` says a zero byte sits just past the content.
  Every modelled operation is a method whose `ensures` gives the new
  content in terms of the old. Operations that may reallocate promise only
  that `buf` is the old array or a fresh one.
- `fifo.dfy` (module `FifoQueue`): class `Fifo`, a `Buffer` plus `offset`.
  `Pending()` is the content after the offset. Its invariant says the offset
  reaches the end of the content only when it is 0, so a drained queue is
  always compacted. `Replay` runs a sequence of enqueues and dequeues on
  values, following the method contracts step by step. `FirstInFirstOut`
  proves that the bytes come out in the order they went in, and `RunOps`
  performs such a run on a `Fifo` object, so the same holds for the class.
- `utf8.dfy` (module `Utf8`): the encoding `rb_putwc` appends, following
  section 3 of RFC 3629. It comes with a strict decoder that follows the
  syntax of section 4, and round trips proved in both directions.
- `file_status.dfy` (module `FileStatus`): the `-(bytes + 1)` error encoding
  of the file and stream operations.
- `scenarios.dfy` (module `Scenarios`): clients proved from the contracts
  alone. They include the whole of `test/test_resizable_buf.c`.

The implementation file `resizable_buf.c` is not part of this model. Only
the header's inline bodies are visible. All other contracts come from the
declarations, the comments and the test. The method bodies are one valid
implementation of those contracts.

Where the contracts commit to a choice:

- The test writes non-zero bytes just past the terminator. It then expects
  the buffer to still read as a C string after `rb_insert` and after both
  calls to `rb_delete` (test/test_resizable_buf.c:17-27). So `InsertSpace`,
  `Insert` and `Delete` move the byte just past the content along with the
  tail, and promise `old(Terminated()) ==> Terminated()`.
- `rb_grow` is called by the test (test/test_resizable_buf.c:18) but is not
  declared in the header. It is modelled as `Grow(n)`: room for `n` more
  bytes, content unchanged.
- Capacity is promised only to grow (`size >= needed`, never below the old
  size). The growth factor is not part of any contract.
- The header's comment on the string operations says they return "the
  number of characters operated on". But `rb_strcpy` and `rb_strcat` are
  declared to return `char *`. The model follows neither, and `Strcpy` and
  `Strcat` return nothing. `Printf` returns the appended length, matching
  its `int` return type.
- Callers must pass arguments in range: `loc <= len` for insert,
  `loc + n <= len` for delete, `n <= len` for pop and peek, and
  `n <= fifo_len` for dequeue. These are preconditions, because the header
  leaves those cases undefined.

## Model

| member | source | states |
|---|---|---|
| `ResizableBuf.Buffer.constructor` | resizable_buf.h:20-24 | a blank buffer has a null pointer, length 0 and capacity 0, and is valid without further set-up |
| `ResizableBuf.Buffer.Ptr` | resizable_buf.h:86-89 | null exactly while nothing is allocated; otherwise the content starts there |
| `ResizableBuf.Buffer.EndPtr` | resizable_buf.h:90-93 | null exactly while nothing is allocated; otherwise it points just past the content, within the allocation |
| `ResizableBuf.Buffer.Len` | resizable_buf.h:94-97 | the number of bytes of content |
| `ResizableBuf.Buffer.Clear` | resizable_buf.h:98-101 | length becomes 0; the allocation, the capacity and the stored bytes are untouched |
| `Scenarios.ClearTwice` | resizable_buf.h:98-101 | clearing twice leaves the same state as clearing once |
| `ResizableBuf.Buffer.Reserve` | resizable_buf.h:4-5 | growth on demand: capacity reaches the need and never shrinks, and every stored byte is kept |
| `ResizableBuf.Buffer.Grow` | test/test_resizable_buf.c:18-19 | room for n bytes past the content; the content and a terminator are kept |
| `ResizableBuf.Buffer.Push` | resizable_buf.h:111 | length grows by n at the tail, the old content stays as the prefix, and the result is where the new bytes start |
| `ResizableBuf.Buffer.Pop` | resizable_buf.h:110 | returns the last n bytes; what is left followed by them is the old content; storage is unchanged, so the returned bytes stay in place |
| `ResizableBuf.Buffer.Peek` | resizable_buf.h:109 | the last n bytes: the content is the rest followed by them; nothing changes |
| `Scenarios.InsertThenDelete` | resizable_buf.h:106-113 | inserting data at loc and then deleting as many bytes at loc restores the old content and keeps a terminator |
| `Scenarios.StackRoundTrip` | resizable_buf.h:45-53 | bytes written into a pushed region come back from peek and from pop, and after the pop the content and length are as before |
| `ResizableBuf.Buffer.Append` | resizable_buf.h:104 | the content becomes the old content followed by the data |
| `ResizableBuf.Buffer.InsertSpace` | resizable_buf.h:107 | a gap of n bytes opens at loc: the prefix before loc is kept, and the old tail follows the gap; a terminator is kept |
| `ResizableBuf.Buffer.Insert` | resizable_buf.h:106 | the content becomes old[..loc] + data + old[loc..]; a terminator is kept |
| `ResizableBuf.Buffer.Delete` | resizable_buf.h:113 | the content becomes old[..loc] + old[loc+n..]; capacity and allocation are unchanged; a terminator is kept |
| `ResizableBuf.Buffer.Memset` | resizable_buf.h:108 | the n bytes at loc become `what`; other old bytes are kept; the length grows to loc + n when the region runs past the end |
| `ResizableBuf.Buffer.Set` | resizable_buf.h:112 | the content becomes exactly the data |
| `ResizableBuf.Buffer.Resize` | resizable_buf.h:115 | length becomes the target; when preserving, the bytes that fit are kept |
| `ResizableBuf.Buffer.ResizeFill` | resizable_buf.h:116 | length becomes the target; the bytes that fit are kept, and every added byte is the fill value |
| `Scenarios.ResizeFillBlank` | resizable_buf.h:116 | resize-fill of a blank buffer to L bytes gives exactly L copies of the fill byte |
| `ResizableBuf.Buffer.Stringize` | resizable_buf.h:103 | the content is unchanged and a zero byte follows it, uncounted in the length |
| `ResizableBuf.Buffer.Strcpy` | resizable_buf.h:135-140 | the content becomes the C string's characters, terminated, and reads back as a C string of length len |
| `ResizableBuf.Buffer.Strcat` | resizable_buf.h:135-141 | the C string's characters are appended and terminated; the whole reads back as a C string of length len when the old content had no zero byte |
| `ResizableBuf.Buffer.Printf` | resizable_buf.h:135-142 | the rendered text is appended and terminated, the terminator is not counted, and the result is the text's length |
| `Scenarios.StrcatTwice` | resizable_buf.h:141 | appending "hello" and then "world" gives "helloworld", which reads back as a C string of length len |
| `ResizableBuf.Buffer.Putc` | resizable_buf.h:129-130 | appends one byte |
| `ResizableBuf.Buffer.Puts` | resizable_buf.h:131 | appends the characters of a C string |
| `ResizableBuf.Buffer.Putwc` | resizable_buf.h:132-133 | appends bytes that decode to the code point exactly when it is a Unicode scalar value; otherwise refuses and changes nothing |
| `Utf8.Encode` | resizable_buf.h:132-133 | defined exactly for scalar values, with 1 to 4 bytes by range and continuation bytes 10xxxxxx |
| `Utf8.DecodeEncode` | resizable_buf.h:132-133 | decoding the encoding of a scalar value gives it back |
| `Utf8.EncodeDecode` | resizable_buf.h:132-133 | every well-formed sequence decodes to a scalar value whose encoding is that same sequence |
| `Memory.StrLen` | resizable_buf.h:135-139 | a C string's length is the position of its first zero byte |
| `Memory.StrLenAt` | resizable_buf.h:135-139 | content with no zero byte, followed by a zero, has a C string length equal to the content's length |
| `Memory.CStrOfTerminated` | resizable_buf.h:135-139 | text written with its terminator reads back as that text |
| `Scenarios.TestResizableBuf` | test/test_resizable_buf.c:7-29 | the test's steps: a blank buffer; "hello 43 testX" (len 14, terminated); inserting ", world" at 5 gives "hello, world 43 testX"; deleting (2,7) then (10,2) gives "herld 43 ttX", read as C strings even with non-zero padding after the terminator |
| `FileStatus.Status` | resizable_buf.h:119-120 | negative exactly on error, and the byte count is recoverable from the return value |
| `FileStatus.StatusOfCopied` | resizable_buf.h:119-120 | every return value is the status of exactly one outcome |
| `FifoQueue.Fifo.constructor` | resizable_buf.h:155 | a blank queue over a blank buffer, offset 0, nothing pending |
| `FifoQueue.Fifo.Len` | resizable_buf.h:157-160 | the number of pending bytes, rb.len - offset |
| `FifoQueue.Fifo.Head` | resizable_buf.h:161-164 | null exactly while nothing is allocated; otherwise the pending bytes start there |
| `FifoQueue.Fifo.IsEmpty` | resizable_buf.h:165-168 | true exactly when nothing is pending, and then offset and length are both 0 |
| `FifoQueue.Fifo.Clear` | resizable_buf.h:169-173 | offset and buffer length become 0; the storage is kept |
| `FifoQueue.Fifo.Append` | resizable_buf.h:177 | the data joins the pending bytes at the back; the offset is unchanged |
| `FifoQueue.Fifo.Dequeue` | resizable_buf.h:175-178 | returns the n oldest pending bytes; taking all of them resets offset and length to 0, and taking fewer only moves the offset; storage is untouched |
| `FifoQueue.FirstInFirstOut` | resizable_buf.h:144-146 | over any run of enqueues and dequeues, the dequeued bytes followed by those still pending equal the initial pending bytes followed by all enqueued bytes; `RunOps` carries this to a `Fifo` object |
| `FifoQueue.DrainedQueueReturnsInput` | resizable_buf.h:144-146 | a queue that starts and ends empty hands out exactly the bytes it was given, in order; by `RunOps` this holds for a `Fifo` object driven by the same calls |
| `FifoQueue.Step` | resizable_buf.h:177-178 | one call on the queue: an enqueue adds the data at the back and hands out nothing, a dequeue hands out the n oldest pending bytes and leaves the rest |
| `FifoQueue.Replayed` | resizable_buf.h:177-178 | calling `Append` and `Dequeue` on a queue in the order of a run ends in the state and output that `Replay` computes on values |
| `FifoQueue.RunOps` | resizable_buf.h:144-146 | a run of `Append` and `Dequeue` calls on a queue: what the dequeues hand out, followed by what is still pending, equals what was pending at the start followed by everything enqueued |
| `Scenarios.FifoDrainAndRefill` | resizable_buf.h:175 | "hello" and "world" come out as "hel" then "loworld"; the drained queue is compacted, and the next enqueue starts at offset 0 and is all that is pending |

## Left out

- `rb_extract` (resizable_buf.h:105): it is only declared, with no comment or test, so its meaning cannot be pinned down.
- `rb_free` (resizable_buf.h:114): deallocation. Memory is not reclaimed in Dafny.
- `rb_read_file`, `rb_write_file`, `rb_fread` and `rb_fwrite` (resizable_buf.h:119-127): file and stream I/O. Only their return-value encoding is modelled (`FileStatus`).
- `Printf`: the format string and varargs rendering are not modelled. The method takes the rendered text as a parameter.
- The typed macros `RBP`, `RBPE`, `RB_NITEMS`, `RB_LAST`, `RB_FIRST`, `RB_PEEK`/`RB_POP`/`RB_PUSH`/`RB_PUSHN`, `RB_L*`, `RB_A*` and `RB_FOR` (resizable_buf.h:39-69, 84): these reinterpret raw memory with `sizeof`. The byte-level operations under them are modelled.
- `RB_QSORT` and `RB_BSEARCH` (resizable_buf.h:72-74): thin wrappers over the C library's `qsort` and `bsearch`. As written, they pass `RB_NITEMS` one argument where the macro takes two.
- Pointer results: the `void *` results of `rb_append`, `rb_insert`, `rb_insert_space`, `rb_memset`, `rb_set` and `fifo_append`, and the `char *` results of `rb_stringize`, `rb_strcpy` and `rb_strcat`, are not modelled. Their meaning is not visible. `Push` returns the offset of the new bytes. `Pop`, `Peek` and `Dequeue` return the bytes themselves.
- `Putc`, `Puts`: the `int` results of `rb_putc` and `rb_puts` (resizable_buf.h:130-131) are not modelled, because their convention is not visible; the methods return nothing.
- `Putwc`: the `int` return convention of `rb_putwc` is not visible, so success is reported as a boolean.
- Aliasing: data passed to append, insert, set and the string operations is a value. A source region that lies inside the buffer itself is not modelled.
- Integer widths: `len`, `size` and `offset` are unbounded naturals. The 32-bit `unsigned` fields, the `int` arguments of push, pop and peek, and the `int` result of `fifo_len` would wrap above their ranges. Reaching that needs buffers of gigabytes.
- Allocation failure: the source aborts on it, and the model's allocations always succeed.
- Capacity after `Resize` and growth: only a lower bound is promised. Neither the exact growth factor nor whether a resize shrinks the allocation is visible.
- Thread safety: there is none in the source, and the caller is responsible for it.
