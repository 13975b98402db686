/** Byte-level vocabulary shared by every part of the wire protocol:
    bytes, 32-bit unsigned words, their little-endian encoding and the
    concatenation of fixed-size records. */
module Bytes {

  /** `uint8_t` */
  type u8 = bv8
  /** `uint32_t`: arithmetic on it wraps modulo 2^32, as in C++. */
  type u32 = bv32

  datatype Option<+T> = None | Some(value: T)

  /** Truncating conversion of a natural number to `uint32_t`, `n mod 2^32`,
      counted out one wrapping increment at a time. */
  function Wrap32(n: nat): u32
  {
    if n == 0 then 0 else Wrap32(n - 1) + 1
  }

  /** Small counts, such as the record count of one frame, convert exactly. */
  lemma {:induction false} Wrap32Exact(n: nat)
    requires n < 0x100
    ensures Wrap32(n) as int == n
  {
    if n > 0 {
      Wrap32Exact(n - 1);
      BelowFF(Wrap32(n - 1));
      IncExact(Wrap32(n - 1));
    }
  }

  lemma BelowFF(x: u32)
    requires x as int < 0xFF
    ensures x < 0xFF
  {
  }

  lemma IncExact(x: u32)
    requires x < 0xFF
    ensures (x + 1) as int == x as int + 1
  {
  }

  /** The low `n` bytes of `x`, least significant first. */
  function LeBytes(x: u32, n: nat): (b: seq<u8>)
    ensures |b| == n
  {
    if n == 0 then [] else [(x & 0xFF) as u8] + LeBytes(x >> 8, n - 1)
  }

  /** The four bytes of `x`, least significant first. */
  function Le32(x: u32): (b: seq<u8>)
    ensures |b| == 4
  {
    LeBytes(x, 4)
  }

  /** Reads a little-endian word back from four bytes. */
  function FromLe32(b: seq<u8>): u32
    requires |b| == 4
  {
    (b[0] as u32) | ((b[1] as u32) << 8) | ((b[2] as u32) << 16) | ((b[3] as u32) << 24)
  }

  lemma Le32Bytes(x: u32)
    ensures Le32(x) == [(x & 0xFF) as u8, ((x >> 8) & 0xFF) as u8, ((x >> 16) & 0xFF) as u8, ((x >> 24) & 0xFF) as u8]
  {
    assert LeBytes(x >> 24, 1) == [((x >> 24) & 0xFF) as u8];
    assert LeBytes(x >> 16, 2) == [((x >> 16) & 0xFF) as u8] + LeBytes(x >> 24, 1);
    assert LeBytes(x >> 8, 3) == [((x >> 8) & 0xFF) as u8] + LeBytes(x >> 16, 2);
  }

  lemma Le32RoundTrip(x: u32)
    ensures FromLe32(Le32(x)) == x
  {
    Le32Bytes(x);
  }

  lemma FromLe32RoundTrip(b: seq<u8>)
    requires |b| == 4
    ensures Le32(FromLe32(b)) == b
  {
    var x := FromLe32(b);
    Le32Bytes(x);
    assert Le32(x)[0] == b[0] && Le32(x)[1] == b[1] && Le32(x)[2] == b[2] && Le32(x)[3] == b[3];
  }

  /** Every record in `rs` is exactly `size` bytes long. */
  ghost predicate AllSized(rs: seq<seq<u8>>, size: nat)
  {
    forall k | 0 <= k < |rs| :: |rs[k]| == size
  }

  /** The bytes of `rs` laid out contiguously, as `memcpy` of a record array copies them. */
  function Flatten(rs: seq<seq<u8>>): seq<u8>
  {
    if |rs| == 0 then [] else rs[0] + Flatten(rs[1..])
  }

  lemma {:induction false} FlattenAppend(a: seq<seq<u8>>, b: seq<seq<u8>>)
    ensures Flatten(a + b) == Flatten(a) + Flatten(b)
  {
    if |a| == 0 {
      assert a + b == b;
    } else {
      assert (a + b)[1..] == a[1..] + b;
      FlattenAppend(a[1..], b);
    }
  }

  lemma {:induction false} FlattenLength(rs: seq<seq<u8>>, size: nat)
    requires AllSized(rs, size)
    ensures |Flatten(rs)| == |rs| * size
  {
    if |rs| > 0 {
      FlattenLength(rs[1..], size);
    }
  }

  lemma SliceAfter(a: seq<u8>, b: seq<u8>, x: nat, y: nat)
    requires x <= y <= |b|
    ensures (a + b)[|a| + x .. |a| + y] == b[x..y]
  {
  }

  /** `i * size`, written as repeated addition so that slicing proofs stay linear. */
  function Offset(i: nat, size: nat): (o: nat)
    ensures o == i * size
  {
    if i == 0 then 0 else size + Offset(i - 1, size)
  }

  lemma {:induction false} OffsetMono(i: nat, j: nat, size: nat)
    requires i <= j
    ensures Offset(i, size) <= Offset(j, size)
  {
    if i < j {
      OffsetMono(i, j - 1, size);
    }
  }

  /** Appending one more element after a concatenation. */
  lemma AppendSnoc<T>(a: seq<T>, b: seq<T>, x: T)
    ensures a + (b + [x]) == (a + b) + [x]
  {
  }

  lemma {:induction false} FlattenSliceAt(rs: seq<seq<u8>>, size: nat, i: nat)
    requires AllSized(rs, size) && i < |rs|
    ensures Offset(i, size) + size <= |Flatten(rs)|
    ensures Flatten(rs)[Offset(i, size) .. Offset(i, size) + size] == rs[i]
  {
    var tail := rs[1..];
    assert Flatten(rs) == rs[0] + Flatten(tail);
    if i == 0 {
      assert Offset(i, size) == 0;
    } else {
      FlattenSliceAt(tail, size, i - 1);
      var lo := Offset(i - 1, size);
      assert Offset(i, size) == size + lo;
      SliceAfter(rs[0], Flatten(tail), lo, lo + size);
      assert tail[i - 1] == rs[i];
    }
  }

  /** Record `i` occupies bytes `[i*size, (i+1)*size)` of the flattened array. */
  lemma FlattenSlice(rs: seq<seq<u8>>, size: nat, i: nat)
    requires AllSized(rs, size) && i < |rs|
    ensures |Flatten(rs)| == |rs| * size
    ensures Flatten(rs)[i * size .. (i + 1) * size] == rs[i]
  {
    FlattenLength(rs, size);
    FlattenSliceAt(rs, size, i);
    assert (i + 1) * size == i * size + size;
  }
}
