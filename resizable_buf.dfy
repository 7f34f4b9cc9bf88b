/** The resizable byte buffer rb_t: a block of storage of `size` bytes of
    which the first `len` are in use. Every operation grows the storage by
    itself when it needs more room; callers never manage the capacity. The
    storage past `len` is kept, so bytes dropped by pop or clear stay where
    they were, and a zero byte right after the content makes the content a C
    string without being counted in `len`. */
module ResizableBuf {
  import opened Memory
  import Utf8

  /** A C pointer into a buffer's storage: NULL, or an offset into an
      allocation. */
  datatype Pointer = Null | At(base: array<byte>, offset: nat)

  function Min(a: nat, b: nat): nat {
    if a < b then a else b
  }

  /** Opening a gap of n bytes at loc by moving the tail, and the byte
      just past it when keep is 1, to the right: the prefix stays, the tail
      follows the gap, and the moved byte lands just past the new content. */
  lemma OpenedGap(before: seq<byte>, after: seq<byte>, loc: nat, n: nat, len: nat, keep: nat)
    requires loc <= len && len + n + keep <= |before|
    requires after == Moved(before, loc, loc + n, len + keep - loc)
    ensures after[..len + n][..loc] == before[..len][..loc]
    ensures after[..len + n][loc + n..] == before[..len][loc..]
    ensures keep == 1 ==> after[len + n] == before[len]
  {
    var count := len + keep - loc;
    var head, moved := before[..loc + n], before[loc..loc + count];
    assert after == head + moved + before[loc + n + count..];
    assert after[..len + n] == head + moved[..len - loc];
    assert after[..len + n][..loc] == head[..loc];
    assert after[..len + n][loc + n..] == moved[..len - loc];
    if keep == 1 {
      assert after[len + n] == moved[len - loc];
    }
  }

  /** Closing the n bytes at loc by moving the tail, and the byte just past
      it when keep is 1, to the left. */
  lemma ClosedGap(before: seq<byte>, after: seq<byte>, loc: nat, n: nat, len: nat, keep: nat)
    requires loc + n <= len && len + keep <= |before|
    requires after == Moved(before, loc + n, loc, len + keep - loc - n)
    ensures after[..len - n] == before[..len][..loc] + before[..len][loc + n..]
    ensures keep == 1 ==> after[len - n] == before[len]
  {
    var count := len + keep - loc - n;
    var moved := before[loc + n..loc + n + count];
    assert after == before[..loc] + moved + before[loc + count..];
    assert after[..len - n] == before[..loc] + moved[..len - loc - n];
    assert moved[..len - loc - n] == before[..len][loc + n..];
    if keep == 1 {
      assert after[len - n] == moved[len - loc - n];
    }
  }

  /** Writing data just past the first len bytes of storage that was grown
      from `stored`: the first len bytes followed by the data. */
  lemma WrittenAfter(stored: seq<byte>, grown: seq<byte>, after: seq<byte>, len: nat, data: seq<byte>)
    requires len <= |stored| <= |grown| && len + |data| <= |grown|
    requires grown[..|stored|] == stored
    requires after == Written(grown, len, data)
    ensures after[..len + |data|] == stored[..len] + data
  {
    forall i | 0 <= i < len + |data| ensures after[i] == (stored[..len] + data)[i] {
      if i < len {
        assert grown[..|stored|][i] == grown[i];
      }
    }
  }

  /** The same with text and a zero byte after it: the text joins the
      content, the zero sits just past it, and when neither has a zero of
      its own, the storage reads as a C string of the new length. */
  lemma TerminatedAfter(stored: seq<byte>, grown: seq<byte>, after: seq<byte>, len: nat, text: seq<byte>)
    requires len <= |stored| <= |grown| && len + |text| + 1 <= |grown|
    requires grown[..|stored|] == stored
    requires after == Written(grown, len, text + [0])
    ensures after[..len + |text|] == stored[..len] + text
    ensures after[len + |text|] == 0
    ensures 0 !in stored[..len] + text ==> 0 in after && StrLen(after) == len + |text|
  {
    WrittenAfter(stored, grown, after, len, text + [0]);
    assert after[..len + |text| + 1] == stored[..len] + text + [0];
    assert after[..len + |text|] == after[..len + |text| + 1][..len + |text|];
    if 0 !in stored[..len] + text {
      StrLenAt(after, len + |text|);
    }
  }

  /** Writing data into the gap that InsertSpace opened at loc. */
  lemma FilledGap(before: seq<byte>, spaced: seq<byte>, after: seq<byte>, loc: nat, data: seq<byte>, len: nat)
    requires loc <= |before| && len == |before| + |data| <= |spaced|
    requires spaced[..len][..loc] == before[..loc]
    requires spaced[..len][loc + |data|..] == before[loc..]
    requires after == Written(spaced, loc, data)
    ensures after[..len] == before[..loc] + data + before[loc..]
    ensures len < |spaced| ==> after[len] == spaced[len]
  {
    forall i | 0 <= i < len ensures after[i] == (before[..loc] + data + before[loc..])[i] {
      if i < loc {
        assert spaced[..len][..loc][i] == before[..loc][i];
      } else if i >= loc + |data| {
        assert spaced[..len][loc + |data|..][i - loc - |data|] == before[loc..][i - loc - |data|];
      }
    }
  }

  class Buffer {
    var buf: array?<byte>
    var len: nat
    var size: nat

    /** buf is NULL exactly while nothing is allocated, the allocation has
        `size` bytes, and the bytes in use fit in it. */
    ghost predicate Valid()
      reads this
    {
      && (buf == null <==> size == 0)
      && (buf != null ==> buf.Length == size)
      && len <= size
    }

    /** All `size` bytes of storage, those past `len` included. */
    function Storage(): (s: seq<byte>)
      reads this, buf
      requires Valid()
      ensures |s| == size
    {
      if buf == null then [] else buf[..]
    }

    /** The bytes in use. */
    function Content(): (s: seq<byte>)
      reads this, buf
      requires Valid()
      ensures |s| == len
    {
      Storage()[..len]
    }

    /** A zero byte sits just past the content, uncounted in `len`. */
    predicate Terminated()
      reads this, buf
      requires Valid()
    {
      len < size && Storage()[len] == 0
    }

    /** RB_BLANK: a buffer that holds nothing and owns no storage, ready for
        use as it is. */
    constructor ()
      ensures Valid() && buf == null && len == 0 && size == 0
      ensures Content() == [] && Ptr() == Null
    {
      buf, len, size := null, 0, 0;
    }

    /** rb_ptr: where the content starts; NULL while nothing is allocated. */
    function Ptr(): (p: Pointer)
      reads this, buf
      requires Valid()
      ensures p == Null <==> size == 0
      ensures p.At? ==> p.offset + len <= p.base.Length && p.base[p.offset..p.offset + len] == Content()
    {
      if buf == null then Null else At(buf, 0)
    }

    /** rb_endptr: just past the content, inside or at the end of the
        allocation; NULL while nothing is allocated. */
    function EndPtr(): (p: Pointer)
      reads this, buf
      requires Valid()
      ensures p == Null <==> size == 0
      ensures p.At? ==> p.offset <= p.base.Length && p.base[..p.offset] == Content()
    {
      if buf == null then Null else At(buf, len)
    }

    /** rb_len: the number of bytes in use. */
    function Len(): (n: nat)
      reads this, buf
      requires Valid()
      ensures n == |Content()|
    {
      len
    }

    /** rb_clear: forgets the content but keeps the storage and its bytes. */
    method Clear()
      requires Valid()
      modifies this
      ensures Valid() && len == 0 && Content() == []
      ensures buf == old(buf) && size == old(size) && Storage() == old(Storage())
    {
      len := 0;
    }

    /** Makes room for `need` bytes in all, keeping every byte of storage
        (those past `len` too); storage never shrinks. The growth factor is
        not promised. */
    method Reserve(need: nat)
      requires Valid()
      modifies this
      ensures Valid() && len == old(len)
      ensures size >= need && size >= old(size)
      ensures Storage()[..old(size)] == old(Storage())
      ensures Content() == old(Content()) && (old(Terminated()) ==> Terminated())
      ensures buf == old(buf) || fresh(buf)
    {
      if need > size {
        var cap := if need > 2 * size then need else 2 * size;
        var a := new byte[cap];
        if buf != null {
          CopyBytes(a, 0, buf[..]);
        }
        buf, size := a, cap;
      }
    }

    /** rb_grow: room for n more bytes after the content, which is unchanged. */
    method Grow(n: nat)
      requires Valid()
      modifies this
      ensures Valid() && size >= len + n && size >= old(size)
      ensures len == old(len) && Storage()[..old(size)] == old(Storage())
      ensures Content() == old(Content()) && (old(Terminated()) ==> Terminated())
      ensures buf == old(buf) || fresh(buf)
    {
      Reserve(len + n);
    }

    /** rb_push: adds n bytes at the tail, for the caller to write, and
        returns where they start. They hold whatever the storage held. */
    method Push(n: nat) returns (at: nat)
      requires Valid()
      modifies this
      ensures Valid() && at == old(len) && len == old(len) + n && size >= old(size)
      ensures Content()[..at] == old(Content())
      ensures Storage()[..old(size)] == old(Storage())
      ensures buf == old(buf) || fresh(buf)
    {
      Reserve(len + n);
      at := len;
      len := len + n;
    }

    /** rb_pop: removes the last n bytes and returns them; they stay in
        storage, just past the new content. */
    method Pop(n: nat) returns (bytes: seq<byte>)
      requires Valid() && n <= len
      modifies this
      ensures Valid() && len == old(len) - n
      ensures Content() + bytes == old(Content())
      ensures buf == old(buf) && size == old(size) && Storage() == old(Storage())
    {
      bytes := Storage()[len - n..len];
      len := len - n;
    }

    /** rb_peek: the last n bytes, with nothing changed. */
    method Peek(n: nat) returns (bytes: seq<byte>)
      requires Valid() && n <= len
      ensures |bytes| == n && Content()[..len - n] + bytes == Content()
    {
      bytes := Storage()[len - n..len];
    }

    /** rb_append: copies data to the tail. */
    method Append(data: seq<byte>)
      requires Valid()
      modifies this, buf
      ensures Valid() && Content() == old(Content()) + data
      ensures buf == old(buf) || fresh(buf)
    {
      ghost var stored := Storage();
      Reserve(len + |data|);
      ghost var grown := Storage();
      if buf != null {
        CopyBytes(buf, len, data);
        WrittenAfter(stored, grown, buf[..], len, data);
      }
      len := len + |data|;
    }

    /** rb_insert_space: opens a gap of n bytes at loc, moving the tail
        right; the gap holds unspecified bytes. The byte just past the
        content moves with the tail, so a terminated buffer stays so. */
    method InsertSpace(loc: nat, n: nat)
      requires Valid() && loc <= len
      modifies this, buf
      ensures Valid() && len == old(len) + n
      ensures Content()[..loc] == old(Content())[..loc]
      ensures Content()[loc + n..] == old(Content())[loc..]
      ensures old(Terminated()) ==> Terminated()
      ensures buf == old(buf) || fresh(buf)
    {
      var keep := if Terminated() then 1 else 0;
      Reserve(len + n + keep);
      OpenGap(loc, n, keep);
    }

    /** The memmove under rb_insert_space, once the allocation has room:
        the tail from loc, and the byte just past the content when keep is
        1, move n bytes to the right, and the length grows by n. */
    method OpenGap(loc: nat, n: nat, keep: nat)
      requires Valid() && loc <= len && len + n + keep <= size
      requires keep == 1 ==> Terminated()
      modifies this, buf
      ensures Valid() && len == old(len) + n && buf == old(buf) && size == old(size)
      ensures Content()[..loc] == old(Content())[..loc]
      ensures Content()[loc + n..] == old(Content())[loc..]
      ensures keep == 1 ==> Terminated()
    {
      if buf != null {
        ghost var before := buf[..];
        MoveBytes(buf, loc, loc + n, len + keep - loc);
        OpenedGap(before, buf[..], loc, n, len, keep);
      }
      len := len + n;
    }

    /** rb_insert: splices data in at loc. */
    method Insert(loc: nat, data: seq<byte>)
      requires Valid() && loc <= len
      modifies this, buf
      ensures Valid() && Content() == old(Content())[..loc] + data + old(Content())[loc..]
      ensures old(Terminated()) ==> Terminated()
      ensures buf == old(buf) || fresh(buf)
    {
      ghost var before := Content();
      InsertSpace(loc, |data|);
      ghost var spaced := Storage();
      if buf != null {
        CopyBytes(buf, loc, data);
        FilledGap(before, spaced, buf[..], loc, data, len);
      }
    }

    /** rb_delete: removes the n bytes at loc, moving the tail left; the byte
        just past the content moves with it. */
    method Delete(loc: nat, n: nat)
      requires Valid() && loc + n <= len
      modifies this, buf
      ensures Valid() && Content() == old(Content())[..loc] + old(Content())[loc + n..]
      ensures old(Terminated()) ==> Terminated()
      ensures buf == old(buf) && size == old(size)
    {
      ghost var before := Storage();
      var keep := if Terminated() then 1 else 0;
      if buf != null {
        MoveBytes(buf, loc + n, loc, len + keep - loc - n);
        ClosedGap(before, buf[..], loc, n, len, keep);
      }
      len := len - n;
    }

    /** rb_memset: sets the n bytes at loc to `what`, extending the content
        when the region runs past it. Bytes between the old end and loc,
        if any, are unspecified. */
    method Memset(what: byte, loc: nat, n: nat)
      requires Valid()
      modifies this, buf
      ensures Valid() && len == if loc + n > old(len) then loc + n else old(len)
      ensures forall i :: loc <= i < loc + n ==> Content()[i] == what
      ensures forall i :: 0 <= i < old(len) && !(loc <= i < loc + n) ==> Content()[i] == old(Content())[i]
      ensures buf == old(buf) || fresh(buf)
    {
      Reserve(loc + n);
      if buf != null {
        FillBytes(buf, loc, n, what);
      }
      if loc + n > len {
        len := loc + n;
      }
    }

    /** rb_set: replaces the whole content with data. */
    method Set(data: seq<byte>)
      requires Valid()
      modifies this, buf
      ensures Valid() && Content() == data
      ensures buf == old(buf) || fresh(buf)
    {
      Reserve(|data|);
      if buf != null {
        CopyBytes(buf, 0, data);
      }
      len := |data|;
    }

    /** rb_resize: makes the content exactly `target` bytes long. With
        `preserve` the bytes that fit are kept; without it the old content is
        discarded. Bytes past the old content are unspecified. */
    method Resize(target: nat, preserve: bool)
      requires Valid()
      modifies this
      ensures Valid() && len == target
      ensures preserve ==> Content()[..Min(old(len), target)] == old(Content())[..Min(old(len), target)]
      ensures buf == old(buf) || fresh(buf)
    {
      if preserve {
        Reserve(target);
      } else if target > size {
        buf := new byte[target];
        size := target;
      }
      len := target;
    }

    /** rb_resize_fill: like rb_resize with the content kept, and every byte
        added past the old content set to `fill`. */
    method ResizeFill(target: nat, fill: byte)
      requires Valid()
      modifies this, buf
      ensures Valid() && len == target
      ensures Content()[..Min(old(len), target)] == old(Content())[..Min(old(len), target)]
      ensures forall i :: old(len) <= i < target ==> Content()[i] == fill
      ensures buf == old(buf) || fresh(buf)
    {
      var was := len;
      Resize(target, true);
      if target > was {
        FillBytes(buf, was, target - was, fill);
      }
    }

    /** rb_stringize: puts a zero byte just past the content, leaving the
        content itself alone. */
    method Stringize()
      requires Valid()
      modifies this, buf
      ensures Valid() && Content() == old(Content()) && Terminated()
      ensures buf == old(buf) || fresh(buf)
    {
      Reserve(len + 1);
      buf[len] := 0;
    }

    /** Appends text and a zero byte after it, the zero not counted: the
        common tail of rb_strcat and rb_printf. */
    method AppendTerminated(text: seq<byte>)
      requires Valid()
      modifies this, buf
      ensures Valid() && Content() == old(Content()) + text && Terminated()
      ensures 0 !in Content() ==> StrLen(Storage()) == len
      ensures buf == old(buf) || fresh(buf)
    {
      ghost var stored := Storage();
      Reserve(len + |text| + 1);
      ghost var grown := Storage();
      CopyBytes(buf, len, text + [0]);
      TerminatedAfter(stored, grown, buf[..], len, text);
      len := len + |text|;
    }

    /** rb_strcpy: the content becomes the C string str, terminated, so that
        it reads back as a C string of length `len`. */
    method Strcpy(str: seq<byte>)
      requires Valid() && 0 in str
      modifies this, buf
      ensures Valid() && Content() == CStr(str) && Terminated()
      ensures StrLen(Storage()) == len
      ensures buf == old(buf) || fresh(buf)
    {
      var n := StrLen(str);
      ghost var stored := Storage();
      Reserve(n + 1);
      ghost var grown := Storage();
      assert str[..n + 1] == CStr(str) + [0];
      CopyBytes(buf, 0, str[..n + 1]);
      TerminatedAfter(stored, grown, buf[..], 0, CStr(str));
      len := n;
    }

    /** rb_strcat: appends the C string str, terminated. */
    method Strcat(str: seq<byte>)
      requires Valid() && 0 in str
      modifies this, buf
      ensures Valid() && Content() == old(Content()) + CStr(str) && Terminated()
      ensures 0 !in old(Content()) ==> StrLen(Storage()) == len
      ensures buf == old(buf) || fresh(buf)
    {
      AppendTerminated(CStr(str));
    }

    /** rb_printf, given the text the format renders to: appends it,
        terminated, and returns its length. */
    method Printf(text: seq<byte>) returns (count: nat)
      requires Valid()
      modifies this, buf
      ensures Valid() && Content() == old(Content()) + text && Terminated()
      ensures 0 !in old(Content()) + text ==> StrLen(Storage()) == len
      ensures count == |text| == len - old(len)
      ensures buf == old(buf) || fresh(buf)
    {
      AppendTerminated(text);
      count := |text|;
    }

    /** rb_putc: appends one byte. */
    method Putc(ch: byte)
      requires Valid()
      modifies this, buf
      ensures Valid() && Content() == old(Content()) + [ch]
      ensures buf == old(buf) || fresh(buf)
    {
      Append([ch]);
    }

    /** rb_puts: appends the characters of the C string str. */
    method Puts(str: seq<byte>)
      requires Valid() && 0 in str
      modifies this, buf
      ensures Valid() && Content() == old(Content()) + CStr(str)
      ensures buf == old(buf) || fresh(buf)
    {
      Append(CStr(str));
    }

    /** rb_putwc: appends the UTF-8 encoding of the code point cp; a value
        with no encoding is refused and changes nothing. */
    method Putwc(cp: uint32) returns (ok: bool)
      requires Valid()
      modifies this, buf
      ensures Valid() && ok == Utf8.IsScalar(cp as int)
      ensures ok ==> exists e :: Utf8.Decode(e) == Some(cp as int) && Content() == old(Content()) + e
      ensures !ok ==> buf == old(buf) && len == old(len) && size == old(size) && Storage() == old(Storage())
      ensures buf == old(buf) || fresh(buf)
    {
      var e := Utf8.Encode(cp);
      if e.Some? {
        Utf8.DecodeEncode(cp);
        Append(e.value);
        ok := true;
      } else {
        ok := false;
      }
    }
  }
}
