/** What write, setattr and read of the client layer do to the bytes of a file. */
module ByteRange {
  import opened Bytes

  /** Byte p of a file, and zero where the file has no byte. */
  function ByteAt(c: seq<Byte>, p: nat): Byte {
    if p < |c| then c[p] else 0
  }

  /** Contents after writing data at off: data on its range, the old bytes elsewhere, zeros in
      a hole between the old end and off. */
  function WriteAt(c: seq<Byte>, off: nat, data: seq<Byte>): seq<Byte> {
    var n := if |c| < off + |data| then off + |data| else |c|;
    seq(n, p requires 0 <= p < n => if off <= p < off + |data| then data[p - off] else ByteAt(c, p))
  }

  /** Contents after setattr to a size: cut, or extended with zeros. */
  function Resize(c: seq<Byte>, size: nat): seq<Byte> {
    seq(size, p requires 0 <= p < size => ByteAt(c, p))
  }

  /** buf.substr(off, size). */
  function ReadAt(c: seq<Byte>, off: nat, size: nat): seq<Byte>
    requires off <= |c|
  {
    if off + size <= |c| then c[off..off + size] else c[off..]
  }

  datatype Edit = Write(off: nat, data: seq<Byte>) | SetSize(size: nat)

  function Apply(c: seq<Byte>, e: Edit): seq<Byte> {
    match e
    case Write(off, data) => WriteAt(c, off, data)
    case SetSize(size) => Resize(c, size)
  }

  function ApplyAll(c: seq<Byte>, es: seq<Edit>): seq<Byte> {
    if es == [] then c else Apply(ApplyAll(c, es[..|es| - 1]), es[|es| - 1])
  }

  /** Independent of how contents are built: the byte at p is decided by the last edit that
      wrote p or cut the file at or before p. */
  function LastWord(c: seq<Byte>, es: seq<Edit>, p: nat): Byte {
    if es == [] then ByteAt(c, p) else
      match es[|es| - 1]
      case Write(off, data) =>
        if off <= p < off + |data| then data[p - off] else LastWord(c, es[..|es| - 1], p)
      case SetSize(size) =>
        if size <= p then 0 else LastWord(c, es[..|es| - 1], p)
  }

  /** The length after edits of a file of length n: a write never makes a file shorter and reaches
      at least its own end; a set-size decides. */
  function LastLength(n: nat, es: seq<Edit>): nat {
    if es == [] then n else
      var before := LastLength(n, es[..|es| - 1]);
      match es[|es| - 1]
      case Write(off, data) => if before < off + |data| then off + |data| else before
      case SetSize(size) => size
  }

  predicate Wrote(e: Edit, p: nat) {
    e.Write? && e.off <= p < e.off + |e.data|
  }

  /** Any run of writes and truncations, read back at any position. */
  lemma {:induction false} LastEditWins(c: seq<Byte>, es: seq<Edit>, p: nat)
    ensures ByteAt(ApplyAll(c, es), p) == LastWord(c, es, p)
    decreases |es|
  {
    if es == [] {
    } else {
      LastEditWins(c, es[..|es| - 1], p);
    }
  }

  /** setattr gives the file exactly the size asked for, shorter, equal or longer: the old bytes as
      far as they go, then zeros. */
  lemma ResizeIsExact(c: seq<Byte>, size: nat)
    ensures |Resize(c, size)| == size
    ensures size <= |c| ==> Resize(c, size) == c[..size]
    ensures size > |c| ==> Resize(c, size) == c + seq<Byte>(size - |c|, _ => 0)
  {}

  /** Any run of writes and truncations leaves the length that the edits alone give. */
  lemma {:induction false} LastEditSetsLength(c: seq<Byte>, es: seq<Edit>)
    ensures |ApplyAll(c, es)| == LastLength(|c|, es)
    decreases |es|
  {
    if es == [] {
    } else {
      LastEditSetsLength(c, es[..|es| - 1]);
    }
  }

  lemma {:induction false} ApplyInTwoParts(c: seq<Byte>, a: seq<Edit>, b: seq<Edit>)
    ensures ApplyAll(c, a + b) == ApplyAll(ApplyAll(c, a), b)
    decreases |b|
  {
    if b == [] {
      assert a + b == a;
    } else {
      var n := |b| - 1;
      assert (a + b)[..|a + b| - 1] == a + b[..n] && (a + b)[|a + b| - 1] == b[n];
      ApplyInTwoParts(c, a, b[..n]);
    }
  }

  lemma {:induction false} UnwrittenStaysZero(c: seq<Byte>, es: seq<Edit>, p: nat)
    requires forall k :: 0 <= k < |es| ==> !Wrote(es[k], p)
    requires ByteAt(c, p) == 0
    ensures LastWord(c, es, p) == 0
    decreases |es|
  {
    if es == [] {
    } else {
      assert !Wrote(es[|es| - 1], p);
      UnwrittenStaysZero(c, es[..|es| - 1], p);
    }
  }

  /** Stale bytes never come back: what a truncation cut off reads as zero until it is written
      again, whatever edits extend the file over it. */
  lemma {:induction false} TruncatedBytesStayZero(c: seq<Byte>, m: nat, es: seq<Edit>, p: nat)
    requires m <= p && forall k :: 0 <= k < |es| ==> !Wrote(es[k], p)
    ensures ByteAt(ApplyAll(Resize(c, m), es), p) == 0
  {
    LastEditWins(Resize(c, m), es, p);
    UnwrittenStaysZero(Resize(c, m), es, p);
  }

  lemma ReadIsByteAt(c: seq<Byte>, off: nat, size: nat, k: nat)
    requires off <= |c| && k < |ReadAt(c, off, size)|
    ensures ReadAt(c, off, size)[k] == ByteAt(c, off + k)
  {}

  /** Reading the range just written gives back the data. */
  lemma ReadOwnWrite(c: seq<Byte>, off: nat, data: seq<Byte>)
    ensures off <= |WriteAt(c, off, data)|
    ensures ReadAt(WriteAt(c, off, data), off, |data|) == data
  {
    var w := WriteAt(c, off, data);
    assert off + |data| <= |w|;
    assert w[off..off + |data|] == data;
  }

  lemma DisjointWritesCommute(c: seq<Byte>, a: nat, x: seq<Byte>, b: nat, y: seq<Byte>)
    requires a + |x| <= b || b + |y| <= a
    ensures WriteAt(WriteAt(c, a, x), b, y) == WriteAt(WriteAt(c, b, y), a, x)
  {
    var l := WriteAt(WriteAt(c, a, x), b, y);
    var r := WriteAt(WriteAt(c, b, y), a, x);
    assert |l| == |r|;
    forall p | 0 <= p < |l| ensures l[p] == r[p] {}
  }

  lemma RewriteKeepsLast(c: seq<Byte>, off: nat, x: seq<Byte>, y: seq<Byte>)
    requires |x| == |y|
    ensures WriteAt(WriteAt(c, off, x), off, y) == WriteAt(c, off, y)
  {
    var l := WriteAt(WriteAt(c, off, x), off, y);
    var r := WriteAt(c, off, y);
    assert |l| == |r|;
    forall p | 0 <= p < |l| ensures l[p] == r[p] {}
  }
}
