/** Network-order integers, as `encoding/binary` reads and writes them. */
module BigEndian {

  import opened Slices

  /** 256 to the power `k`: the number of values `k` bytes can hold. */
  function Capacity(k: nat): (c: nat)
    ensures c > 0
  {
    if k == 0 then 1 else 256 * Capacity(k - 1)
  }

  /** The low `k` bytes of `n`, most significant byte first. */
  function Bytes(n: nat, k: nat): (b: seq<byte>)
    ensures |b| == k
  {
    if k == 0 then [] else Bytes(n / 256, k - 1) + [(n % 256) as byte]
  }

  /** The number that `b` spells, most significant byte first. */
  function Value(b: seq<byte>): (n: nat)
    ensures n < Capacity(|b|)
  {
    if b == [] then 0 else Value(b[..|b| - 1]) * 256 + b[|b| - 1] as nat
  }

  lemma QuotientFits(n: nat, k: nat)
    requires k > 0 && n < Capacity(k)
    ensures n / 256 < Capacity(k - 1)
  {}

  /** The last byte of a number, once the bytes before it are known to spell its quotient. */
  lemma ValueOfLast(n: nat, k: nat)
    requires k > 0 && Value(Bytes(n / 256, k - 1)) == n / 256
    ensures Value(Bytes(n, k)) == n
  {
    assert Bytes(n, k)[..k - 1] == Bytes(n / 256, k - 1) && Bytes(n, k)[k - 1] == (n % 256) as byte;
    hide Bytes;
    LastByte(n);
  }

  lemma {:induction false} ValueOfBytes(n: nat, k: nat)
    requires n < Capacity(k)
    ensures Value(Bytes(n, k)) == n
  {
    if k > 0 {
      QuotientFits(n, k);
      ValueOfBytes(n / 256, k - 1);
      ValueOfLast(n, k);
    }
  }

  lemma LastByte(n: nat)
    ensures n / 256 * 256 + ((n % 256) as byte) as nat == n
  {
    ByteOfInt(n % 256);
    QuotientAndRest(n);
  }

  lemma QuotientAndRest(n: nat)
    ensures n / 256 * 256 + n % 256 == n
  {}

  lemma ByteOfInt(x: nat)
    requires x < 256
    ensures (x as byte) as int == x
  {
    var d := ByteFor(x);
    ByteRange(d);
  }

  /** Every number below 256 is a byte's. */
  lemma ByteFor(x: nat) returns (d: byte)
    requires x < 256
    ensures d as int == x
  {
    if x == 0 {
      d := 0;
    } else {
      var b := ByteFor(x - 1);
      Increment(b);
      d := b + 1;
    }
  }

  lemma Increment(d: byte)
    requires d as int < 255
    ensures (d + 1) as int == d as int + 1
  {}

  lemma ShiftIn(q: nat, d: byte)
    ensures (q * 256 + d as nat) / 256 == q
    ensures ((q * 256 + d as nat) % 256) as byte == d
  {
    ByteRange(d);
    DivMod256(q, d as nat);
  }

  lemma ByteRange(d: byte)
    ensures 0 <= d as int < 256 && (d as int) as byte == d
  {}

  lemma DivMod256(q: nat, x: nat)
    requires x < 256
    ensures (q * 256 + x) / 256 == q && (q * 256 + x) % 256 == x
  {}

  /** The bytes of a number whose last byte is known are those of its quotient, and that byte. */
  lemma BytesWithLast(q: nat, last: byte, k: nat)
    ensures Bytes(q * 256 + last as nat, k + 1) == Bytes(q, k) + [last]
  {
    ShiftIn(q, last);
  }

  lemma {:induction false} BytesOfValue(b: seq<byte>)
    ensures Bytes(Value(b), |b|) == b
  {
    hide Bytes;
    if b == [] {
      NoBytes(Value(b));
    } else {
      var front, last := b[..|b| - 1], b[|b| - 1];
      BytesOfValue(front);
      BytesWithLast(Value(front), last, |front|);
      assert b == front + [last];
    }
  }

  lemma NoBytes(n: nat)
    ensures Bytes(n, 0) == []
  {}

  /** Capacities of the two wide length fields of a frame header. */
  lemma FieldCapacities()
    ensures Capacity(2) == 0x1_0000
    ensures Capacity(4) == 0x1_0000_0000
    ensures Capacity(8) == 0x1_0000_0000_0000_0000
  {
    assert Capacity(3) == 256 * Capacity(2);
    assert Capacity(5) == 256 * Capacity(4);
    assert Capacity(7) == 256 * Capacity(6);
  }

  /** PutUint16 and PutUint64: fills `a[at..at + k]`, least significant byte last. */
  method Put(a: array<byte>, at: nat, k: nat, n: nat)
    requires at + k <= a.Length
    modifies a
    ensures a[..] == old(a[..at]) + Bytes(n, k) + old(a[at + k..])
  {
    var i, v := k, n;
    while i > 0
      invariant 0 <= i <= k
      invariant forall j :: 0 <= j < at + i || at + k <= j < a.Length ==> a[j] == old(a[j])
      invariant Bytes(n, k) == Bytes(v, i) + a[at + i..at + k]
    {
      ghost var done := a[at + i..at + k];
      assert Bytes(v, i) == Bytes(v / 256, i - 1) + [(v % 256) as byte];
      i := i - 1;
      a[at + i] := (v % 256) as byte;
      assert a[at + i..at + k] == [(v % 256) as byte] + done;
      v := v / 256;
    }
    assert a[..] == a[..at] + a[at..at + k] + a[at + k..];
    assert a[..at] == old(a[..at]) && a[at + k..] == old(a[at + k..]);
  }
}
