/** Shared vocabulary of both drivers: bytes, the errors the drivers raise,
    short reads from a byte sequence, and big-endian decoding. */
module Common {

  /** One octet, as carried on the SPI and I2C buses and in byte streams. */
  type byte = x: int | 0 <= x < 256

  /** A strictly positive size (page or sector size). */
  type Positive = x: int | 0 < x witness 1

  /** The exceptions the drivers raise. */
  datatype Error =
    | UnsupportedJedecId(id: int)        // SpiFlash construction: ID not in the table
    | UnsupportedEepromModel(name: string)
    | OffsetNotSectorAligned             // SpiFlash.erase
    | CountNotSectorMultiple             // SpiFlash.erase
    | ShortResponse                      // a device answered fewer bytes than indexed (IndexError)
    | InvalidReadSize(size: int)         // a data source asked for fewer than -1 bytes (ValueError)

  datatype Result<T> = Ok(value: T) | Err(error: Error)

  datatype Option<T> = None | Some(value: T)

  function Min(a: int, b: int): int { if a <= b then a else b }

  function Max(a: int, b: int): int { if a <= b then b else a }

  /** The bytes a stream over `data` returns when asked for `n` bytes with its
      cursor at `pos`: at most `n` of them (fewer near the end), and everything
      that is left for n == -1, as a Python binary file's read(-1) does. */
  function Take(data: seq<byte>, pos: nat, n: int): (r: seq<byte>)
    requires pos <= |data|
    ensures pos + |r| <= |data| && r == data[pos .. pos + |r|]
    ensures |r| == if n < 0 then |data| - pos else Min(n, |data| - pos)
  {
    if n < 0 || |data| - pos < n then data[pos..] else data[pos .. pos + n]
  }

  /** Concatenation of a sequence of byte strings. */
  function Flatten(chunks: seq<seq<byte>>): seq<byte>
  {
    if chunks == [] then [] else chunks[0] + Flatten(chunks[1..])
  }

  lemma {:induction false} FlattenAppend(a: seq<seq<byte>>, b: seq<seq<byte>>)
    ensures Flatten(a + b) == Flatten(a) + Flatten(b)
  {
    if a == [] {
      assert a + b == b;
    } else {
      assert (a + b)[1..] == a[1..] + b;
      FlattenAppend(a[1..], b);
    }
  }

  lemma FlattenCons(c: seq<byte>, cs: seq<seq<byte>>)
    ensures Flatten([c] + cs) == c + Flatten(cs)
  {
    assert ([c] + cs)[0] == c && ([c] + cs)[1..] == cs;
  }

  lemma AppendAssoc<T>(a: seq<T>, b: seq<T>, c: seq<T>)
    ensures a + (b + c) == (a + b) + c
  {
  }

  lemma SliceSplit<T>(s: seq<T>, i: nat, j: nat, k: nat)
    requires i <= j <= k <= |s|
    ensures s[i..j] + s[j..k] == s[i..k]
  {
  }

  /** 256 to the power n. */
  function Pow256(n: nat): (r: nat)
    ensures r > 0
  {
    if n == 0 then 1 else 256 * Pow256(n - 1)
  }

  /** The number a byte string denotes, most significant byte first. */
  function BigEndian(s: seq<byte>): nat
  {
    if s == [] then 0 else BigEndian(s[..|s| - 1]) * 256 + s[|s| - 1]
  }

  /** Prepending a byte adds it at weight 256^|s|. */
  lemma {:induction false} BigEndianPrepend(b: byte, s: seq<byte>)
    ensures BigEndian([b] + s) == b * Pow256(|s|) + BigEndian(s)
  {
    if s == [] {
      assert [b] + s == [b];
      assert [b][..0] == [];
    } else {
      var init, last := s[..|s| - 1], s[|s| - 1];
      assert ([b] + s)[..|s|] == [b] + init;
      BigEndianPrepend(b, init);
      assert Pow256(|s|) == 256 * Pow256(|init|);
      calc {
        BigEndian([b] + s);
        BigEndian([b] + init) * 256 + last;
        (b * Pow256(|init|) + BigEndian(init)) * 256 + last;
        b * (256 * Pow256(|init|)) + (BigEndian(init) * 256 + last);
        b * Pow256(|s|) + BigEndian(s);
      }
    }
  }

  lemma Pow256Values()
    ensures Pow256(1) == 0x100 && Pow256(2) == 0x1_0000
    ensures Pow256(3) == 0x100_0000 && Pow256(4) == 0x1_0000_0000
  {
  }

  /** Splitting `x mod 256*m` into the byte above `m` and the remainder below it:
      the arithmetic behind `(x >> k) & 0xff`. */
  lemma ModSplit(x: int, m: int)
    requires m > 0
    ensures x % (256 * m) == (x / m % 256) * m + x % m
  {
    var q, r := x / m, x % m;
    var a, b := q / 256, q % 256;
    assert x == q * m + r;
    assert q == a * 256 + b;
    MulRegroup(a, b, m);
    assert x == a * (256 * m) + (b * m + r);
    MulBelow(b, 256, m);
    ModUnique(x, 256 * m, a, b * m + r);
  }

  lemma MulRegroup(a: int, b: int, m: int)
    ensures (a * 256 + b) * m == a * (256 * m) + b * m
  {
  }

  lemma MulBelow(b: int, n: int, m: int)
    requires 0 <= b < n && m > 0
    ensures 0 <= b * m <= (n - 1) * m
  {
  }

  /** A multiple of d stays one after i more steps of d. */
  lemma AlignedAfter(x: int, i: int, d: int)
    requires d > 0 && x % d == 0
    ensures (x + i * d) % d == 0
  {
    var q := x / d;
    assert x == q * d;
    assert x + i * d == (q + i) * d;
    ModUnique(x + i * d, d, q + i, 0);
  }

  /** Euclidean division is unique. */
  lemma ModUnique(x: int, d: int, q: int, r: int)
    requires d > 0 && 0 <= r < d && x == q * d + r
    ensures x % d == r && x / d == q
  {
    var q', r' := x / d, x % d;
    var k := q - q';
    assert x == q' * d + r';
    assert k * d == r' - r by {
      assert q * d - q' * d == (q - q') * d;
    }
    if k >= 1 {
      assert false;
    } else if k <= -1 {
      assert false;
    }
  }
}
