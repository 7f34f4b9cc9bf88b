/** The raw-memory vocabulary the buffer is written in: bytes, the three C
    library block operations it moves its storage with (memmove, memcpy and
    memset), and C strings, which are byte runs ended by a zero byte. */
module Memory {

  newtype byte = x: int | 0 <= x < 256

  newtype uint32 = x: int | 0 <= x < 0x1_0000_0000

  /** A value, or nothing where the C code would fail or return NULL. */
  datatype Option<T> = None | Some(value: T)

  /** The bytes of s after memmove(s + dst, s + src, count): the count
      bytes that started at src now also start at dst, even when the two
      regions overlap; nothing else changes. */
  function Moved(s: seq<byte>, src: nat, dst: nat, count: nat): (r: seq<byte>)
    requires src + count <= |s| && dst + count <= |s|
    ensures |r| == |s|
  {
    s[..dst] + s[src..src + count] + s[dst + count..]
  }

  /** memmove on an array. */
  method MoveBytes(a: array<byte>, src: nat, dst: nat, count: nat)
    requires src + count <= a.Length && dst + count <= a.Length
    modifies a
    ensures a[..] == Moved(old(a[..]), src, dst, count)
  {
    ghost var s := a[..];
    forall i | dst <= i < dst + count {
      a[i] := a[src + (i - dst)];
    }
    ghost var r := Moved(s, src, dst, count);
    forall i | 0 <= i < a.Length ensures a[i] == r[i] {
      if i < dst {
      } else if i < dst + count {
        assert r[i] == s[src..src + count][i - dst];
      } else {
      }
    }
    assert a[..] == r;
  }

  /** The bytes of s after memcpy(s + at, data, |data|) from a source
      outside s. */
  function Written(s: seq<byte>, at: nat, data: seq<byte>): (r: seq<byte>)
    requires at + |data| <= |s|
    ensures |r| == |s|
    ensures forall i :: at <= i < at + |data| ==> r[i] == data[i - at]
    ensures forall i :: 0 <= i < |s| && !(at <= i < at + |data|) ==> r[i] == s[i]
  {
    s[..at] + data + s[at + |data|..]
  }

  /** memcpy into an array. */
  method CopyBytes(a: array<byte>, at: nat, data: seq<byte>)
    requires at + |data| <= a.Length
    modifies a
    ensures a[..] == Written(old(a[..]), at, data)
  {
    ghost var s := a[..];
    forall i | at <= i < at + |data| {
      a[i] := data[i - at];
    }
    assert a[..] == Written(s, at, data);
  }

  /** memset(a + at, v, count). */
  method FillBytes(a: array<byte>, at: nat, count: nat, v: byte)
    requires at + count <= a.Length
    modifies a
    ensures forall i :: at <= i < at + count ==> a[i] == v
    ensures forall i :: 0 <= i < a.Length && !(at <= i < at + count) ==> a[i] == old(a[i])
  {
    forall i | at <= i < at + count {
      a[i] := v;
    }
  }

  /** strlen: the number of bytes before the first zero byte. C only accepts
      a string that has a terminator, hence the precondition. */
  function StrLen(s: seq<byte>): (n: nat)
    requires 0 in s
    ensures n < |s| && s[n] == 0
    ensures 0 !in s[..n]
  {
    if s[0] == 0 then 0
    else
      var m := StrLen(s[1..]);
      assert s[..m + 1] == [s[0]] + s[1..][..m];
      m + 1
  }

  /** The characters of the C string s, its terminator excluded. */
  function CStr(s: seq<byte>): seq<byte>
    requires 0 in s
  {
    s[..StrLen(s)]
  }

  /** A run of bytes with a zero right after its first n bytes, and no zero
      among them, reads as a C string of length n: the terminator C finds
      is exactly that zero. */
  lemma {:induction false} StrLenAt(s: seq<byte>, n: nat)
    requires n < |s| && s[n] == 0 && 0 !in s[..n]
    ensures StrLen(s) == n
  {
    if n > 0 {
      assert s[0] == s[..n][0];
      assert s[1..][..n - 1] == s[..n][1..];
      StrLenAt(s[1..], n - 1);
    }
  }

  /** A string written with its terminator reads back as itself. */
  lemma CStrOfTerminated(text: seq<byte>, rest: seq<byte>)
    requires 0 !in text
    ensures 0 in text + [0] + rest
    ensures CStr(text + [0] + rest) == text
  {
    var s := text + [0] + rest;
    assert s[|text|] == 0;
    assert s[..|text|] == text;
    StrLenAt(s, |text|);
  }
}
