/**
 * The frames the analysis process publishes to the `AircraftData` and
 * `AlertsData` regions: the region is zeroed, the writer's version `int` is
 * copied to offset 0 and the text records follow it back to back.  Bytes that
 * would fall past the end of the mapping are not part of the region.
 */
module Frames {
  import opened Bytes

  /** The records written one after another: the first `k` of them. */
  function ConcatUpTo(rs: seq<seq<byte>>, k: nat): (c: seq<byte>)
    requires k <= |rs|
    decreases k
  {
    if k == 0 then [] else ConcatUpTo(rs, k - 1) + rs[k - 1]
  }

  function Concat(rs: seq<seq<byte>>): seq<byte> {
    ConcatUpTo(rs, |rs|)
  }

  /** Lengths add up along the records. */
  lemma {:induction false} ConcatUpToLength(rs: seq<seq<byte>>, k: nat, j: nat)
    requires j <= k <= |rs|
    ensures |ConcatUpTo(rs, j)| <= |ConcatUpTo(rs, k)|
    ensures ConcatUpTo(rs, k)[..|ConcatUpTo(rs, j)|] == ConcatUpTo(rs, j)
    decreases k
  {
    if j < k {
      ConcatUpToLength(rs, k - 1, j);
      var p := ConcatUpTo(rs, k - 1);
      assert ConcatUpTo(rs, k) == p + rs[k - 1];
      assert (p + rs[k - 1])[..|p|] == p;
    }
  }

  lemma SliceOfPrefix(c: seq<byte>, n: nat, a: nat, b: nat)
    requires a <= b <= n <= |c|
    ensures c[..n][a..b] == c[a..b]
  {
  }

  /** The bytes of `f` from offset `off` on are those of `r`. */
  predicate HoldsAt(f: seq<byte>, off: nat, r: seq<byte>) {
    off + |r| <= |f| && f[off..off + |r|] == r
  }

  /** Record `k` sits right after the records before it. */
  lemma RecordPosition(rs: seq<seq<byte>>, k: nat)
    requires k < |rs|
    ensures HoldsAt(Concat(rs), |ConcatUpTo(rs, k)|, rs[k])
  {
    ConcatUpToLength(rs, |rs|, k + 1);
    var p, q, c := ConcatUpTo(rs, k), ConcatUpTo(rs, k + 1), Concat(rs);
    assert q == p + rs[k];
    assert q[|p|..|q|] == rs[k];
    assert c[..|q|] == q;
    SliceOfPrefix(c, |q|, |p|, |q|);
  }

  /** No record holds a NUL, so neither does their concatenation. */
  lemma {:induction false} ConcatNulFree(rs: seq<seq<byte>>, k: nat)
    requires k <= |rs|
    requires forall i :: 0 <= i < |rs| ==> NUL !in rs[i]
    ensures NUL !in ConcatUpTo(rs, k)
    decreases k
  {
    if k > 0 {
      ConcatNulFree(rs, k - 1);
    }
  }

  /** `memcpy(buf + at, data, |data|)`, keeping only the bytes that land inside `buf`. */
  function Overwrite(buf: seq<byte>, at: nat, data: seq<byte>): (r: seq<byte>)
    ensures |r| == |buf|
  {
    seq(|buf|, i requires 0 <= i < |buf| => if at <= i < at + |data| then data[i - at] else buf[i])
  }

  /** Two copies back to back make one copy of the joined data. */
  lemma OverwriteAppend(buf: seq<byte>, at: nat, d1: seq<byte>, d2: seq<byte>)
    ensures Overwrite(Overwrite(buf, at, d1), at + |d1|, d2) == Overwrite(buf, at, d1 + d2)
  {
    var lhs, rhs := Overwrite(Overwrite(buf, at, d1), at + |d1|, d2), Overwrite(buf, at, d1 + d2);
    forall i | 0 <= i < |buf| ensures lhs[i] == rhs[i] {
      if at + |d1| <= i < at + |d1| + |d2| {
        assert (d1 + d2)[i - at] == d2[i - at - |d1|];
      } else if at <= i < at + |d1| {
        assert (d1 + d2)[i - at] == d1[i - at];
      }
    }
  }

  /** What the region holds after zeroing and writing `content` at its start. */
  function Fit(content: seq<byte>, size: nat): (r: seq<byte>)
    ensures |r| == size
  {
    if |content| >= size then content[..size] else content + Zeros(size - |content|)
  }

  lemma OverwriteZeros(content: seq<byte>, size: nat)
    ensures Overwrite(Zeros(size), 0, content) == Fit(content, size)
  {
    var lhs, rhs := Overwrite(Zeros(size), 0, content), Fit(content, size);
    forall i | 0 <= i < size ensures lhs[i] == rhs[i] {
      if i >= |content| {
        assert rhs[i] == Zeros(size - |content|)[i - |content|];
      }
    }
  }

  /** The published frame: version, then the records, then zero padding, in a region of `size` bytes. */
  function Frame(size: nat, version: int, records: seq<seq<byte>>): (f: seq<byte>)
    ensures |f| == size
  {
    Fit(EncodeInt32(version) + Concat(records), size)
  }

  /** A reader of the frame gets the version back from its first four bytes. */
  lemma FrameVersion(size: nat, version: int, records: seq<seq<byte>>)
    requires size >= Int32Size && IsInt32(version)
    ensures DecodeInt32(Frame(size, version, records)) == version
  {
    var c := EncodeInt32(version) + Concat(records);
    var f := Frame(size, version, records);
    assert f[..Int32Size] == c[..Int32Size] == EncodeInt32(version);
    assert Unsigned32(f) == Unsigned32(EncodeInt32(version));
    DecodeEncode(version);
  }

  /** What sits in a prefix of a sequence sits in the sequence. */
  lemma HoldsAtInPrefix(w: seq<byte>, f: seq<byte>, off: nat, r: seq<byte>)
    requires HoldsAt(w, off, r) && |w| <= |f| && f[..|w|] == w
    ensures HoldsAt(f, off, r)
  {
    SliceOfPrefix(f, |w|, off, off + |r|);
  }

  /** Putting `p` in front moves everything by `|p|`. */
  lemma HoldsAtAfter(p: seq<byte>, c: seq<byte>, off: nat, r: seq<byte>)
    requires HoldsAt(c, off, r)
    ensures HoldsAt(p + c, |p| + off, r)
  {
    assert (p + c)[|p| + off..|p| + off + |r|] == c[off..off + |r|];
  }

  /** When the frame has room, record `k` sits at offset 4 plus the lengths of the records before it. */
  lemma FrameRecordAt(size: nat, version: int, records: seq<seq<byte>>, k: nat)
    requires k < |records|
    requires Int32Size + |Concat(records)| <= size
    ensures HoldsAt(Frame(size, version, records), Int32Size + |ConcatUpTo(records, k)|, records[k])
  {
    var c := Concat(records);
    var whole := EncodeInt32(version) + c;
    RecordPosition(records, k);
    HoldsAtAfter(EncodeInt32(version), c, |ConcatUpTo(records, k)|, records[k]);
    var f := Frame(size, version, records);
    assert f == whole + Zeros(size - |whole|);
    assert f[..|whole|] == whole;
    HoldsAtInPrefix(whole, f, Int32Size + |ConcatUpTo(records, k)|, records[k]);
  }

  /** Everything after the records is zero. */
  lemma FramePadding(size: nat, version: int, records: seq<seq<byte>>, i: nat)
    requires Int32Size + |Concat(records)| <= i < size
    ensures Frame(size, version, records)[i] == NUL
  {
    var whole := EncodeInt32(version) + Concat(records);
    assert Frame(size, version, records)[i] == Zeros(size - |whole|)[i - |whole|];
  }

  /**
   * When the records hold no NUL and leave room for one, reading the text after
   * the version as a C string gives all the records back, joined.
   */
  lemma FrameTextReadBack(size: nat, version: int, records: seq<seq<byte>>)
    requires forall i :: 0 <= i < |records| ==> NUL !in records[i]
    requires Int32Size + |Concat(records)| < size
    ensures CString(Frame(size, version, records)[Int32Size..]) == Concat(records)
  {
    var c := Concat(records);
    ConcatNulFree(records, |records|);
    var pad := size - Int32Size - |c|;
    var f := Frame(size, version, records);
    assert f == EncodeInt32(version) + c + Zeros(pad);
    assert f[Int32Size..] == c + [NUL] + Zeros(pad - 1);
    CStringOfTerminated(c, Zeros(pad - 1));
  }

  /** `memcpy` of `data` into the region at `cursor`, stopping at the end of the mapping. */
  method CopyOut(region: array<byte>, cursor: nat, data: seq<byte>)
    modifies region
    ensures region[..] == Overwrite(old(region[..]), cursor, data)
  {
    ghost var before := region[..];
    var k: nat := 0;
    while k < |data| && cursor + k < region.Length
      invariant 0 <= k <= |data|
      invariant forall i :: 0 <= i < region.Length ==>
                  region[i] == if cursor <= i < cursor + k then data[i - cursor] else before[i]
    {
      region[cursor + k] := data[k];
      k := k + 1;
    }
    assert region[..] == Overwrite(before, cursor, data);
  }

  /**
   * The body of both writers: zero the region, copy the version, advance the
   * cursor past it and copy each record in turn.
   */
  method WriteFrame(region: array<byte>, version: int, records: seq<seq<byte>>)
    modifies region
    ensures region[..] == Frame(region.Length, version, records)
  {
    Clear(region);
    ghost var zeros := region[..];
    CopyOut(region, 0, EncodeInt32(version));
    var cursor := Int32Size;
    var k: nat := 0;
    while k < |records|
      invariant 0 <= k <= |records|
      invariant cursor == Int32Size + |ConcatUpTo(records, k)|
      invariant region[..] == Overwrite(zeros, 0, EncodeInt32(version) + ConcatUpTo(records, k))
    {
      ghost var written := EncodeInt32(version) + ConcatUpTo(records, k);
      CopyOut(region, cursor, records[k]);
      OverwriteAppend(zeros, 0, written, records[k]);
      assert written + records[k] == EncodeInt32(version) + ConcatUpTo(records, k + 1);
      cursor := cursor + |records[k]|;
      k := k + 1;
    }
    OverwriteZeros(EncodeInt32(version) + Concat(records), region.Length);
  }
}
