/** The Adler-32 checksum, section 2.2 of RFC 1950. */
module Adler32 {
  import opened Bytes

  const BASE := 65521

  /** s1 and s2: the sum of the bytes plus one, and the sum of those sums, both modulo 65521. */
  function S1(data: seq<Byte>): (r: int)
    ensures 0 <= r < BASE
  {
    if data == [] then 1 else (S1(data[..|data| - 1]) + data[|data| - 1]) % BASE
  }

  function S2(data: seq<Byte>): (r: int)
    ensures 0 <= r < BASE
  {
    if data == [] then 0 else (S2(data[..|data| - 1]) + S1(data)) % BASE
  }

  function Checksum(data: seq<Byte>): (r: int)
    ensures 0 <= r < 0x1_0000_0000
  {
    S2(data) * 65536 + S1(data)
  }

  /** `a` and `b` differ in the byte at `k` and nowhere else. */
  predicate DifferAt(a: seq<Byte>, b: seq<Byte>, k: int) {
    && |a| == |b| && 0 <= k < |a| && a[k] != b[k]
    && forall i :: 0 <= i < |a| && i != k ==> a[i] == b[i]
  }

  function Sum(data: seq<Byte>): nat {
    if data == [] then 0 else Sum(data[..|data| - 1]) + data[|data| - 1]
  }

  lemma AddModulo(x: int, y: int)
    ensures (x % BASE + y) % BASE == (x + y) % BASE
  {
  }

  lemma {:induction false} S1IsSum(data: seq<Byte>)
    ensures S1(data) == (1 + Sum(data)) % BASE
  {
    if data != [] {
      var prefix := data[..|data| - 1];
      S1IsSum(prefix);
      AddModulo(1 + Sum(prefix), data[|data| - 1]);
    }
  }

  lemma {:induction false} SumDiffers(a: seq<Byte>, b: seq<Byte>, k: int)
    requires DifferAt(a, b, k)
    ensures Sum(a) - Sum(b) == a[k] as int - b[k] as int
  {
    var n := |a| - 1;
    if k < n {
      SumDiffers(a[..n], b[..n], k);
    } else {
      assert a[..n] == b[..n];
    }
  }

  /** Byte `i` counts `|data| - i` times: once in each running sum it is part of. */
  function WeightedSum(data: seq<Byte>): nat {
    if data == [] then 0 else |data| * data[0] + WeightedSum(data[1..])
  }

  lemma {:induction false} SumFront(data: seq<Byte>)
    requires data != []
    ensures Sum(data) == data[0] + Sum(data[1..])
  {
    var n := |data| - 1;
    if n > 0 {
      SumFront(data[..n]);
      assert data[..n][1..] == data[1..][..n - 1];
    } else {
      assert data[1..] == [] && data[..n] == [];
    }
  }

  /** One more byte adds the plain sum of all. */
  lemma {:induction false} WeightedSumLast(data: seq<Byte>)
    requires data != []
    ensures WeightedSum(data) == WeightedSum(data[..|data| - 1]) + Sum(data)
  {
    var n := |data| - 1;
    SumFront(data);
    if n > 0 {
      WeightedSumLast(data[1..]);
      assert data[1..][..n - 1] == data[..n][1..];
      WeightStep(n, data[0]);
    } else {
      assert data[1..] == [] && data[..n] == [];
    }
  }

  lemma WeightStep(n: nat, b: int)
    ensures (n + 1) * b == n * b + b
  {
  }

  lemma {:induction false} S2IsWeightedSum(data: seq<Byte>)
    ensures S2(data) == (|data| + WeightedSum(data)) % BASE
  {
    if data != [] {
      var n := |data| - 1;
      S2IsWeightedSum(data[..n]);
      S1IsSum(data);
      WeightedSumLast(data);
      AddModulo(n + WeightedSum(data[..n]), S1(data));
      AddModulo(1 + Sum(data), n + WeightedSum(data[..n]));
    }
  }

  /** The checksum from the two plain sums: one plus the bytes below, the length plus the weighted bytes above. */
  lemma ChecksumIs(data: seq<Byte>)
    ensures Checksum(data) % 65536 == (1 + Sum(data)) % 65521
    ensures Checksum(data) / 65536 == (|data| + WeightedSum(data)) % 65521
  {
    S1IsSum(data);
    S2IsWeightedSum(data);
    Halves(S2(data), S1(data));
  }

  lemma Halves(h: int, l: int)
    requires 0 <= l < 65536
    ensures (h * 65536 + l) / 65536 == h && (h * 65536 + l) % 65536 == l
  {
  }

  /** A change of one byte changes the checksum. */
  lemma OneByteChangesChecksum(a: seq<Byte>, b: seq<Byte>, k: int)
    requires DifferAt(a, b, k)
    ensures Checksum(a) != Checksum(b)
  {
    S1IsSum(a);
    S1IsSum(b);
    SumDiffers(a, b, k);
    NotCongruent(1 + Sum(a), 1 + Sum(b));
    LowHalves(S2(a), S1(a), S2(b), S1(b));
  }

  lemma NotCongruent(x: int, y: int)
    requires 0 < x - y < 256 || 0 < y - x < 256
    ensures x % BASE != y % BASE
  {
  }

  lemma LowHalves(h: int, l: int, h': int, l': int)
    requires 0 <= l < 65536 && 0 <= l' < 65536 && l != l'
    ensures h * 65536 + l != h' * 65536 + l'
  {
  }
}
