/** The pooled byte buffer: a slice that is appended to, reset and refilled. */
module Buffers {
  import opened Options
  import opened Slices

  datatype ReadError = EOF | Broken(code: int)

  function Flatten(chunks: seq<seq<byte>>): seq<byte> {
    if chunks == [] then [] else chunks[0] + Flatten(chunks[1..])
  }

  function Rounds(chunks: seq<seq<byte>>): nat {
    if chunks == [] then 0 else 1 + |chunks[0]| + Rounds(chunks[1..])
  }

  /** Taking bytes from the first chunk, or all of it. */
  lemma TakeChunk(chunks: seq<seq<byte>>, n: nat)
    requires chunks != [] && n <= |chunks[0]|
    ensures var all, rest := Flatten(chunks), [chunks[0][n..]] + chunks[1..];
            && n <= |all| && all[..n] == chunks[0][..n] && all[n..] == Flatten(rest)
            && (n == |chunks[0]| ==> all[n..] == Flatten(chunks[1..]))
            && Rounds(rest) + n == Rounds(chunks)
  {
    var rest := [chunks[0][n..]] + chunks[1..];
    assert rest[1..] == chunks[1..];
  }

  /** Writes `b` into `dst` from `from` on. */
  method Fill(dst: array<byte>, from: nat, b: seq<byte>)
    requires from + |b| <= dst.Length
    modifies dst
    ensures dst[..] == old(dst[..from]) + b + old(dst[from + |b|..])
  {
    forall i | 0 <= i < |b| {
      dst[from + i] := b[i];
    }
    assert dst[..] == dst[..from] + dst[from..from + |b|] + dst[from + |b|..];
    assert dst[from..from + |b|] == b;
  }

  /** A reader with finitely many chunks left, then an error; the error may come with the last chunk. */
  class Source {
    var chunks: seq<seq<byte>>
    const failure: ReadError
    const eager: bool

    constructor (chunks: seq<seq<byte>>, failure: ReadError, eager: bool)
      ensures Pending() == Flatten(chunks) && this.failure == failure && this.eager == eager
    {
      this.chunks, this.failure, this.eager := chunks, failure, eager;
    }

    ghost function Pending(): seq<byte>
      reads this
    {
      Flatten(chunks)
    }

    /** Read into the slice `dst[from..]`, which must not be empty: an empty one could be read forever. */
    method Read(dst: array<byte>, from: nat) returns (n: nat, err: Option<ReadError>)
      requires from < dst.Length
      modifies this, dst
      ensures n <= |old(Pending())| && from + n <= dst.Length
      ensures dst[..] == old(dst[..from]) + old(Pending())[..n] + old(dst[from + n..])
      ensures Pending() == old(Pending())[n..]
      ensures err.Some? ==> err.value == failure && Pending() == []
      ensures err.None? ==> Rounds(chunks) < old(Rounds(chunks))
    {
      if chunks == [] {
        return 0, Some(failure);
      }
      var chunk := chunks[0];
      n := if |chunk| < dst.Length - from then |chunk| else dst.Length - from;
      Fill(dst, from, chunk[..n]);
      TakeChunk(chunks, n);
      if n < |chunk| {
        chunks := [chunk[n..]] + chunks[1..];
      } else {
        chunks := chunks[1..];
      }
      err := if eager && chunks == [] then Some(failure) else None;
    }

    /** `Read`, in terms of the bytes before `n` and the bytes still to come: none is lost. */
    method Append(p: array<byte>, n: nat) returns (nn: nat, err: Option<ReadError>)
      requires n < p.Length
      modifies this, p
      ensures n + nn <= p.Length
      ensures p[..n + nn] + Pending() == old(p[..n]) + old(Pending())
      ensures err.Some? ==> err.value == failure && Pending() == [] && p[..n + nn] == old(p[..n]) + old(Pending())
      ensures err.None? ==> Rounds(chunks) < old(Rounds(chunks))
    {
      hide Flatten, Rounds;
      ghost var before, pending := p[..n], Pending();
      nn, err := Read(p, n);
      assert p[..n + nn] == before + pending[..nn];
      MoveBytes(before, pending, nn);
    }
  }

  /** Bytes moved from the front of one list to the end of another. */
  lemma MoveBytes(before: seq<byte>, pending: seq<byte>, n: nat)
    requires n <= |pending|
    ensures before + pending[..n] + pending[n..] == before + pending
    ensures pending[n..] == [] ==> before + pending[..n] == before + pending
  {}

  /** A larger array that starts with the contents of `p`. */
  method Enlarge(p: array<byte>, size: nat) returns (bNew: array<byte>)
    requires p.Length <= size
    ensures fresh(bNew) && bNew.Length == size && bNew[..p.Length] == p[..]
  {
    bNew := new byte[size];
    Copy(bNew, 0, p, 0, p.Length);
    assert bNew[..p.Length] == p[..];
  }

  class ByteBuffer {
    /** The backing array of the slice, whose length is the slice's capacity. */
    var data: array<byte>
    var len: nat

    constructor (len: nat, cap: nat)
      requires len <= cap
      ensures Valid() && this.len == len && data.Length == cap && fresh(data)
    {
      data := new byte[cap];
      this.len := len;
    }

    ghost predicate Valid()
      reads this
    {
      len <= data.Length
    }

    ghost function Contents(): seq<byte>
      requires Valid()
      reads this, data
    {
      data[..len]
    }

    method Reset()
      modifies this`len
      ensures len == 0 && Valid()
    {
      len := 0;
    }

    /** append(b.B[:keep], p[lo:hi]...); a reallocation may round the capacity up by `slack`. */
    method Append(keep: nat, p: array<byte>, lo: nat, hi: nat, slack: nat)
      requires Valid() && keep <= len && lo <= hi <= p.Length
      modifies this, data
      ensures Valid() && (data == old(data) || fresh(data))
      ensures Contents() == old(data[..keep]) + old(p[lo..hi])
    {
      var need := keep + (hi - lo);
      if need > data.Length {
        var grown := new byte[need + slack];
        Copy(grown, 0, data, 0, keep);
        data := grown;
      }
      assert data[..keep] == old(data[..keep]);
      Copy(data, keep, p, lo, hi);
      len := need;
      assert data[..len] == old(data[..keep]) + old(p[lo..hi]);
    }

    method Write(p: array<byte>, slack: nat) returns (n: nat)
      requires Valid()
      modifies this, data
      ensures Valid() && (data == old(data) || fresh(data)) && n == p.Length
      ensures Contents() == old(Contents()) + old(p[..])
    {
      Append(len, p, 0, p.Length, slack);
      assert old(p[0..p.Length]) == old(p[..]);
      return p.Length;
    }

    method Set(p: array<byte>, slack: nat)
      requires Valid()
      modifies this, data
      ensures Valid() && (data == old(data) || fresh(data))
      ensures Contents() == old(p[..])
    {
      Append(0, p, 0, p.Length, slack);
      assert old(data[..0]) + old(p[0..p.Length]) == old(p[..]);
    }

    /**
     * Reads until the source fails, growing by doubling. The buffer ends up as its old contents
     * and then everything the source had; the growth, from at least 64 bytes on, copies fewer than
     * twice that many bytes, and none if they fit from the start.
     */
    method ReadFrom(r: Source) returns (n: nat, err: Option<ReadError>, ghost copied: nat)
      requires Valid()
      modifies this, data, r
      ensures Valid() && (data == old(data) || fresh(data))
      ensures Contents() == old(Contents()) + old(r.Pending()) && r.Pending() == []
      ensures n == |old(r.Pending())|
      ensures err == if r.failure == EOF then None else Some(r.failure)
      ensures copied == 0 || copied < 2 * len
      ensures var first := if old(data.Length) == 0 then 64 else old(data.Length);
              copied + first == data.Length && (len < first ==> copied == 0)
    {
      hide Flatten, Rounds;
      var p := data;
      var nStart := len;
      var nMax := data.Length;
      n := nStart;
      copied := 0;
      if nMax == 0 {
        nMax := 64;
        p := new byte[nMax];
      }
      ghost var first, all := nMax, old(Contents()) + r.Pending();
      while true
        invariant p == old(data) || fresh(p)
        invariant n <= nMax == p.Length && nMax > 0
        invariant p[..n] + r.Pending() == all
        invariant copied + first == nMax && first == if old(data.Length) == 0 then 64 else old(data.Length)
        invariant copied > 0 ==> nMax <= 2 * n && first <= n
        decreases Rounds(r.chunks)
      {
        if n == nMax {
          copied := copied + nMax;
          nMax := nMax * 2;
          p := Enlarge(p, nMax);
        }
        var nn, e := r.Append(p, n);
        n := n + nn;
        if e.Some? {
          assert r.Pending() == [] && p[..n] == all;
          data, len := p, n;
          n := n - nStart;
          err := if e.value == EOF then None else e;
          return;
        }
      }
    }
  }
}
