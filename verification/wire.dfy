/**
  Shared vocabulary of the codec: the C integer types as bounded integers,
  big-endian byte sequences, and the caller-owned buffer an encoder writes into.
 */
module Wire {

  type uint8 = x: int | 0 <= x < 0x100
  type uint16 = x: int | 0 <= x < 0x1_0000
  type uint32 = x: int | 0 <= x < 0x1_0000_0000
  type uint64 = x: int | 0 <= x < 0x1_0000_0000_0000_0000
  type int32 = x: int | -0x8000_0000 <= x < 0x8000_0000

  /** An output reference that was either written (`Some`) or left untouched (`None`). */
  datatype Option<T> = None | Some(value: T)

  /** 256 to the power `n`: the number of values an `n`-byte field can hold. */
  function Pow256(n: nat): (r: nat)
    ensures r > 0
  {
    if n == 0 then 1 else 256 * Pow256(n - 1)
  }

  lemma {:induction false} Pow256Monotone(m: nat, n: nat)
    requires m <= n
    ensures Pow256(m) <= Pow256(n)
    decreases n
  {
    if m < n {
      Pow256Monotone(m, n - 1);
    }
  }

  /** The unsigned integer that the bytes `s` denote, most significant byte first. */
  function BeValue(s: seq<uint8>): (v: nat)
    ensures v < Pow256(|s|)
  {
    if |s| == 0 then 0 else BeValue(s[..|s| - 1]) * 256 + s[|s| - 1]
  }

  /** The `n`-byte big-endian representation of `v`; its inverse is `BeValue`. */
  function BeBytes(v: nat, n: nat): (s: seq<uint8>)
    requires v < Pow256(n)
    ensures |s| == n
    ensures BeValue(s) == v
  {
    if n == 0 then [] else BeBytes(v / 256, n - 1) + [v % 256]
  }

  lemma {:induction false} Pow256Add(a: nat, b: nat)
    ensures Pow256(a + b) == Pow256(a) * Pow256(b)
    decreases a
  {
    if a > 0 {
      Pow256Add(a - 1, b);
      assert Pow256(a + b) == 256 * Pow256(a - 1 + b);
      assert 256 * (Pow256(a - 1) * Pow256(b)) == (256 * Pow256(a - 1)) * Pow256(b);
    }
  }

  /** Reading `n` bytes and writing them back yields the same bytes. */
  lemma {:induction false} BeBytesOfBeValue(s: seq<uint8>)
    ensures BeBytes(BeValue(s), |s|) == s
  {
    if |s| > 0 {
      var init := s[..|s| - 1];
      BeBytesOfBeValue(init);
      assert BeValue(s) / 256 == BeValue(init);
      assert s == init + [s[|s| - 1]];
    }
  }

  lemma MulNonneg(x: int, y: int)
    requires x >= 0 && y >= 0
    ensures x * y >= 0
  {
  }

  lemma MulOutsideUnit(d: int, k: int)
    requires d > 0
    ensures k >= 1 ==> d * k >= d
    ensures k <= -1 ==> d * k <= -d
  {
    if k >= 1 {
      MulNonneg(d, k - 1);
      assert d * k == d * (k - 1) + d;
    } else if k <= -1 {
      MulNonneg(d, -k - 1);
      assert d * k == -(d * (-k - 1)) - d;
    }
  }

  /** Euclidean division has a unique quotient. */
  lemma DivUnique(a: int, d: int, q: int, r: int)
    requires d > 0 && a == d * q + r && 0 <= r < d
    ensures a / d == q
  {
    var q', r' := a / d, a % d;
    assert d * (q' - q) == r - r' by {
      assert a == d * q' + r';
      assert d * (q' - q) == d * q' - d * q;
    }
    MulOutsideUnit(d, q' - q);
  }

  /** Division by a product, taken one factor at a time. */
  lemma DivDiv(a: nat, b: nat, c: nat)
    requires b > 0 && c > 0
    ensures (a / b) / c == a / (b * c)
  {
    var q, r := a / b, a % b;
    var q2, r2 := q / c, q % c;
    assert a == (b * c) * q2 + (b * r2 + r) by {
      assert a == b * q + r;
      assert q == c * q2 + r2;
      assert b * q == b * (c * q2) + b * r2;
      assert b * (c * q2) == (b * c) * q2;
    }
    assert 0 <= b * r2 + r < b * c by {
      MulNonneg(b, r2);
      MulNonneg(b, c - 1 - r2);
      assert b * (c - 1) - b * r2 == b * (c - 1 - r2);
    }
    DivUnique(a, b * c, q2, b * r2 + r);
  }

  /** Adding a multiple of the divisor adds that multiple to the quotient. */
  lemma DivAddMultiple(a: int, d: int, m: int)
    requires d > 0
    ensures (a + d * m) / d == a / d + m
  {
    assert a + d * m == d * (a / d + m) + a % d by {
      assert d * (a / d + m) == d * (a / d) + d * m;
    }
    DivUnique(a + d * m, d, a / d + m, a % d);
  }

  /** Byte `i` of the big-endian form of `v` is the `n-1-i`th base-256 digit of `v`. */
  lemma {:induction false} BeBytesDigit(v: nat, n: nat, i: nat)
    requires v < Pow256(n) && i < n
    ensures BeBytes(v, n)[i] == (v / Pow256(n - 1 - i)) % 256
  {
    var rest := BeBytes(v / 256, n - 1);
    assert BeBytes(v, n) == rest + [v % 256];
    if i < n - 1 {
      BeBytesDigit(v / 256, n - 1, i);
      assert BeBytes(v, n)[i] == rest[i];
      DivDiv(v, 256, Pow256(n - 2 - i));
      assert 256 * Pow256(n - 2 - i) == Pow256(n - 1 - i);
    }
  }

  /**
    Where an encoder writes. `Nowhere` is a NULL destination, by which the
    caller asks only for the length; `At(mem, at)` points at offset `at` of the
    caller's buffer `mem`.
   */
  datatype Dest = Nowhere | At(mem: seq<uint8>, at: nat)

  /** The destination can take `n` bytes without running off the buffer. */
  predicate Room(d: Dest, n: nat) {
    d.At? ==> d.at + n <= |d.mem|
  }

  /** The destination holds exactly `bytes` at its write position. */
  predicate Holds(d: Dest, bytes: seq<uint8>) {
    d.At? ==> d.at + |bytes| <= |d.mem| && d.mem[d.at..d.at + |bytes|] == bytes
  }

  /** Every byte of `before` outside the `n` bytes at the write position is the same in `after`. */
  predicate SameOutside(before: Dest, after: Dest, n: nat) {
    before.At? && after.At? ==>
      |after.mem| == |before.mem| &&
      forall i :: 0 <= i < |before.mem| && !(before.at <= i < before.at + n) ==>
        after.mem[i] == before.mem[i]
  }

  /** The caller's buffer after `bytes` are written at the destination. */
  function Store(d: Dest, bytes: seq<uint8>): (r: Dest)
    requires Room(d, |bytes|)
    ensures r.Nowhere? <==> d.Nowhere?
    ensures r.At? ==> r.at == d.at
    ensures Holds(r, bytes)
    ensures SameOutside(d, r, |bytes|)
  {
    match d
    case Nowhere => Nowhere
    case At(mem, at) => At(mem[..at] + bytes + mem[at + |bytes|..], at)
  }

  /** The destination `n` bytes further on: where the next field of a composite encoding goes. */
  function Advance(d: Dest, n: nat): (r: Dest)
    ensures r.Nowhere? <==> d.Nowhere?
  {
    match d
    case Nowhere => Nowhere
    case At(mem, at) => At(mem, at + n)
  }

  /** The buffer of `after` seen again from the write position of `before`. */
  function Rebase(after: Dest, before: Dest): (r: Dest)
    ensures r.Nowhere? <==> after.Nowhere?
    ensures r.At? && before.At? ==> r.at == before.at
  {
    match after
    case Nowhere => Nowhere
    case At(mem, _) => At(mem, if before.At? then before.at else 0)
  }

  /**
    Writing `a` and then `b` right behind it leaves the buffer as writing
    `a + b` in one go: composite encodings are their parts side by side.
   */
  lemma StoreTwice(d: Dest, a: seq<uint8>, b: seq<uint8>)
    requires Room(d, |a| + |b|)
    ensures Room(Advance(Store(d, a), |a|), |b|)
    ensures Rebase(Store(Advance(Store(d, a), |a|), b), d) == Store(d, a + b)
  {
    if d.At? {
      var m1 := Store(d, a).mem;
      var m2 := Store(Advance(Store(d, a), |a|), b).mem;
      var m := Store(d, a + b).mem;
      assert |m2| == |m|;
      forall i | 0 <= i < |m|
        ensures m2[i] == m[i]
      {
        if i < d.at || i >= d.at + |a| + |b| {
        } else if i < d.at + |a| {
          assert m2[i] == m1[i];
          assert m1[d.at..d.at + |a|][i - d.at] == a[i - d.at];
          assert m[d.at..d.at + |a| + |b|][i - d.at] == (a + b)[i - d.at];
        } else {
          assert m2[d.at + |a|..d.at + |a| + |b|][i - d.at - |a|] == b[i - d.at - |a|];
          assert m[d.at..d.at + |a| + |b|][i - d.at] == (a + b)[i - d.at];
        }
      }
      assert m2 == m;
    }
  }

  /** What an encoder reports: its C return value and the caller's buffer afterwards. */
  datatype Encoding = Encoding(len: int, dest: Dest)

  /**
    The usual encoder convention: the bytes are written at the destination (or
    nowhere, for a NULL destination) and their count is returned either way.
   */
  function Emit(d: Dest, bytes: seq<uint8>): Encoding
    requires Room(d, |bytes|)
  {
    Encoding(|bytes|, Store(d, bytes))
  }
}
