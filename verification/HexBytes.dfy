/** Byte strings: the `Hex` class, and the fixed-width little-endian numbers stored in them. */
module HexBytes {
  import opened Arithmetic

  type Byte = n: int | 0 <= n < 256

  type Hex = seq<Byte>

  type Hash32 = h: Hex | |h| == 32 witness seq(32, _ => 0)

  const ZERO_HASH: Hash32 := seq(32, _ => 0)

  type U32 = n: int | 0 <= n < 0x1_0000_0000

  function Reverse(h: Hex): (r: Hex)
    ensures |r| == |h|
    ensures forall i :: 0 <= i < |h| ==> r[i] == h[|h| - 1 - i]
  {
    seq(|h|, i requires 0 <= i < |h| => h[|h| - 1 - i])
  }

  lemma ReverseTwice(h: Hex)
    ensures Reverse(Reverse(h)) == h
  {
  }

  lemma Regroup(a: Hex, b: Hex, c: Hex, d: Hex, r: Hex)
    ensures a + b + c + d + r == a + (b + (c + (d + r)))
    ensures r + (a + b + c + d) == r + a + b + c + d
  {
  }

  /** Concatenation of a list of byte strings. */
  function Concat(parts: seq<Hex>): Hex {
    if parts == [] then [] else parts[0] + Concat(parts[1..])
  }

  lemma {:induction false} ConcatAppend(a: seq<Hex>, b: seq<Hex>)
    ensures Concat(a + b) == Concat(a) + Concat(b)
  {
    if a == [] {
      assert a + b == b;
    } else {
      assert (a + b)[1..] == a[1..] + b;
      ConcatAppend(a[1..], b);
    }
  }

  lemma ConcatOne(a: seq<Hex>, x: Hex)
    ensures Concat(a + [x]) == Concat(a) + x
  {
    ConcatAppend(a, [x]);
    assert Concat([x]) == x + Concat([]);
  }

  /** Cuts a byte string in pieces of `size` bytes; the last piece is shorter when the length does not divide. */
  function Chunks(h: Hex, size: nat): (parts: seq<Hex>)
    requires 0 < size
    ensures forall p :: p in parts ==> |p| <= size
  {
    if h == [] then []
    else if |h| <= size then [h]
    else [h[..size]] + Chunks(h[size..], size)
  }

  lemma ChunksStep(h: Hex, size: nat)
    requires 0 < size <= |h|
    ensures Chunks(h, size) == [h[..size]] + Chunks(h[size..], size)
  {
    if |h| == size {
      assert h[..size] == h;
    }
  }

  lemma {:induction false} ChunksOfConcat(parts: seq<Hex>, size: nat)
    requires 0 < size
    requires forall p :: p in parts ==> |p| == size
    ensures Chunks(Concat(parts), size) == parts
  {
    if parts != [] {
      var rest := Concat(parts[1..]);
      ChunksOfConcat(parts[1..], size);
      assert (parts[0] + rest)[..size] == parts[0];
      assert (parts[0] + rest)[size..] == rest;
      ChunksStep(parts[0] + rest, size);
    }
  }

  lemma {:induction false} ConcatOfChunks(h: Hex, size: nat)
    requires 0 < size
    ensures Concat(Chunks(h, size)) == h
  {
    if |h| <= size {
      assert Concat([h]) == h + Concat([]);
    } else {
      ConcatOfChunks(h[size..], size);
      assert h == h[..size] + h[size..];
    }
  }

  /** The pieces are full, and `count` of them make the string, exactly when the length is `count * size`. */
  lemma {:induction false} FullChunks(h: Hex, size: nat, count: nat)
    requires 0 < size
    requires |h| == count * size
    ensures |Chunks(h, size)| == count
    ensures forall p :: p in Chunks(h, size) ==> |p| == size
  {
    if count == 1 {
    } else if count != 0 {
      MulNext(count - 1, size);
      MulLessEq(2, count, size);
      FullChunks(h[size..], size, count - 1);
    }
  }

  lemma {:induction false} ConcatLength(parts: seq<Hex>, size: nat)
    requires forall p :: p in parts ==> |p| == size
    ensures |Concat(parts)| == |parts| * size
  {
    if parts != [] {
      ConcatLength(parts[1..], size);
      MulNext(|parts| - 1, size);
    }
  }

  /** The number a little-endian byte string denotes. */
  function ToNatLE(h: Hex): nat {
    if h == [] then 0 else h[0] + 256 * ToNatLE(h[1..])
  }

  lemma ToNatLEStep(h: Hex)
    requires h != []
    ensures ToNatLE(h) == h[0] + 256 * ToNatLE(h[1..])
  {
  }

  /** A byte appended counts for the power of 256 of its position: the first byte is the least significant. */
  lemma {:induction false} ToNatLEAppend(h: Hex, b: Byte)
    ensures ToNatLE(h + [b]) == ToNatLE(h) + b * Pow256(|h|)
  {
    if h == [] {
      assert ToNatLE([b]) == b + 256 * ToNatLE([b][1..]);
    } else {
      assert (h + [b])[1..] == h[1..] + [b];
      ToNatLEAppend(h[1..], b);
      ScaleSum(ToNatLE(h[1..]), b, Pow256(|h| - 1));
    }
  }

  lemma {:induction false} ToNatLEConcat(a: Hex, b: Hex)
    ensures ToNatLE(a + b) == ToNatLE(a) + ToNatLE(b) * Pow256(|a|)
  {
    if a == [] {
      assert a + b == b;
    } else {
      assert (a + b)[1..] == a[1..] + b;
      ToNatLEConcat(a[1..], b);
      ScaleSum(ToNatLE(a[1..]), ToNatLE(b), Pow256(|a| - 1));
    }
  }

  /** A number is below a power of 256 exactly when all bytes from that position on are zero. */
  lemma {:induction false} HighBytesZero(h: Hex, k: nat)
    requires k <= |h|
    ensures ToNatLE(h) < Pow256(k) <==> forall i :: k <= i < |h| ==> h[i] == 0
    decreases |h|
  {
    if |h| == 0 {
    } else if k == |h| {
      HighBytesZero(h[..k - 1], k - 1);
      ToNatLEAppend(h[..k - 1], h[k - 1]);
      assert h == h[..k - 1] + [h[k - 1]];
      MulLessEq(h[k - 1], 255, Pow256(k - 1));
    } else {
      var front, last := h[..|h| - 1], h[|h| - 1];
      assert h == front + [last];
      HighBytesZero(front, k);
      ToNatLEAppend(front, last);
      if last != 0 {
        MulLessEq(1, last, Pow256(|h| - 1));
        if k < |h| - 1 {
          Pow256Step(k, |h| - 1);
        }
      }
    }
  }

  function U32LE(n: U32): (h: Hex)
    ensures |h| == 4
  {
    [n % 256, n / 256 % 256, n / 0x1_0000 % 256, n / 0x100_0000]
  }

  function ReadU32LE(h: Hex, offset: nat): U32
    requires offset + 4 <= |h|
  {
    var b0: int, b1: int, b2: int, b3: int := h[offset], h[offset + 1], h[offset + 2], h[offset + 3];
    b0 + 0x100 * b1 + 0x1_0000 * b2 + 0x100_0000 * b3
  }

  /** One base-256 digit: what is above and below it. */
  lemma Digit(n: int, low: int, high: int)
    requires 0 <= low < 256 && n == low + 256 * high
    ensures n % 256 == low && n / 256 == high
  {
  }

  lemma DivideTwice(n: int)
    ensures n / 0x1_0000 == n / 256 / 256 && n / 0x100_0000 == n / 256 / 256 / 256
  {
  }

  lemma ReadOfU32LE(n: U32)
    ensures ReadU32LE(U32LE(n), 0) == n
  {
    var a := n / 256;
    var b := a / 256;
    DivideTwice(n);
    assert n == 256 * a + n % 256;
    assert a == 256 * b + a % 256;
    assert b == 256 * (b / 256) + b % 256;
  }

  lemma FourBytes(h: Hex)
    requires |h| == 4
    ensures ToNatLE(h) == ReadU32LE(h, 0)
  {
    var b, c, d: Hex := h[1..], h[2..], h[3..];
    assert b[1..] == c && c[1..] == d && d[1..] == [];
    assert ToNatLE(d) == h[3];
    assert ToNatLE(c) == h[2] + 256 * ToNatLE(d);
    assert ToNatLE(b) == h[1] + 256 * ToNatLE(c);
  }

  lemma ToNatOfU32LE(n: U32)
    ensures ToNatLE(U32LE(n)) == n
  {
    var h := U32LE(n);
    ReadOfU32LE(n);
    FourBytes(h);
  }

  lemma U32LEOfRead(h: Hex)
    requires |h| == 4
    ensures U32LE(ReadU32LE(h, 0)) == h
  {
    var b0: int, b1: int, b2: int, b3: int := h[0], h[1], h[2], h[3];
    var n := ReadU32LE(h, 0);
    DivideTwice(n);
    Digit(n, b0, b1 + 0x100 * b2 + 0x1_0000 * b3);
    Digit(n / 256, b1, b2 + 0x100 * b3);
    Digit(n / 256 / 256, b2, b3);
    Digits(n, h);
  }

  lemma Digits(n: U32, h: Hex)
    requires |h| == 4
    requires n % 256 == h[0] && n / 256 % 256 == h[1] && n / 0x1_0000 % 256 == h[2] && n / 0x100_0000 == h[3]
    ensures U32LE(n) == h
  {
  }
}
