/** Writes into a fixed-size byte buffer, specified on the buffer's contents as one sequence. */
module Buffers {
  import opened Bytes

  function Zeros(n: nat): (z: bytes)
    ensures |z| == n
  {
    seq(n, _ => NUL)
  }

  /** `b` with `data` written over it at `at`. */
  function Splice(b: bytes, at: nat, data: bytes): (r: bytes)
    requires at + |data| <= |b|
    ensures |r| == |b|
  {
    b[..at] + data + b[at + |data|..]
  }

  lemma SpliceParts(b: bytes, at: nat, data: bytes, k: nat)
    requires at + |data| <= k <= |b|
    ensures Splice(b, at, data)[..at + |data|] == b[..at] + data
    ensures Splice(b, at, data)[k..] == b[k..]
  {
  }

  /** The bytes from `pos` up to `end` are `content`. */
  predicate Holds(b: bytes, pos: nat, end: nat, content: bytes) {
    pos <= end <= |b| && b[pos..end] == content
  }

  /**
   `b'` is `b` after the region from `pos` to `oldEnd` was replaced in place by the shorter
   `content`: nothing in front of it or behind it moved and the bytes given up are zero.
   */
  predicate Rewritten(b: bytes, b': bytes, pos: nat, oldEnd: nat, newEnd: nat, content: bytes) {
    && pos <= newEnd <= oldEnd <= |b|
    && newEnd == pos + |content|
    && b' == b[..pos] + content + Zeros(oldEnd - newEnd) + b[oldEnd..]
  }

  lemma NotRewritten(b: bytes, pos: nat, end: nat, content: bytes)
    requires Holds(b, pos, end, content)
    ensures Rewritten(b, b, pos, end, end, content)
  {
    assert b == b[..pos] + b[pos..end] + b[end..];
    assert b[..pos] + content + Zeros(0) + b[end..] == b[..pos] + content + b[end..];
  }

  lemma RewrittenHolds(b: bytes, b': bytes, pos: nat, oldEnd: nat, newEnd: nat, content: bytes)
    requires Rewritten(b, b', pos, oldEnd, newEnd, content)
    ensures |b'| == |b|
    ensures b'[..pos] == b[..pos]
    ensures Holds(b', pos, newEnd, content)
    ensures forall i :: newEnd <= i < oldEnd ==> b'[i] == NUL
    ensures b'[oldEnd..] == b[oldEnd..]
  {
    assert b'[pos..newEnd] == content;
    assert |b'| == |b|;
  }

  lemma HoldsParts(b: bytes, pos: nat, end: nat, front: bytes, back: bytes)
    requires Holds(b, pos, end, front + back)
    ensures Holds(b, pos, pos + |front|, front)
    ensures Holds(b, pos + |front|, end, back)
  {
    var c := b[pos..end];
    assert c[..|front|] == front && c[|front|..] == back;
    assert b[pos..pos + |front|] == c[..|front|];
    assert b[pos + |front|..end] == c[|front|..];
  }

  lemma HoldsJoined(b: bytes, pos: nat, mid: nat, end: nat, front: bytes, back: bytes)
    requires Holds(b, pos, mid, front) && Holds(b, mid, end, back)
    ensures Holds(b, pos, end, front + back)
  {
    assert b[pos..end] == b[pos..mid] + b[mid..end];
  }

  /** Rewriting the back part of a region that has already been rewritten. */
  lemma RewrittenTwice(b: bytes, b': bytes, b'': bytes, pos: nat, oldEnd: nat, mid: nat, newEnd: nat,
                       front: bytes, back: bytes, back': bytes)
    requires Rewritten(b, b', pos, oldEnd, mid, front + back)
    requires Rewritten(b', b'', pos + |front|, mid, newEnd, back')
    ensures Rewritten(b, b'', pos, oldEnd, newEnd, front + back')
  {
    var at := pos + |front|;
    assert b'[..at] == b[..pos] + front;
    assert b'[mid..] == Zeros(oldEnd - mid) + b[oldEnd..];
    assert Zeros(mid - newEnd) + Zeros(oldEnd - mid) == Zeros(oldEnd - newEnd);
    assert b'' == b[..pos] + (front + back') + Zeros(oldEnd - newEnd) + b[oldEnd..];
  }

  /** memcpy, memset and a snprintf whose output fits. */
  method Write(buf: array<byte>, at: nat, data: bytes)
    requires at + |data| <= buf.Length
    modifies buf
    ensures buf[..] == Splice(old(buf[..]), at, data)
  {
    forall i | 0 <= i < |data| { buf[at + i] := data[i]; }
  }

  /** memmove: the source and the target may overlap. */
  method Move(buf: array<byte>, to: nat, from: nat, n: nat)
    requires to + n <= buf.Length && from + n <= buf.Length
    modifies buf
    ensures buf[..] == Splice(old(buf[..]), to, old(buf[..])[from..from + n])
  {
    forall i | 0 <= i < n { buf[to + i] := buf[from + i]; }
  }
}
