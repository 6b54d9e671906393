/**
 * The Internet checksum as `csum` (ping-rat.c:44-52) computes it: 16-bit
 * words summed into an `unsigned long`, carries folded back twice, and the
 * complement truncated to 16 bits. Beside it stands the one's-complement
 * sum with end-around carry of RFC 1071, section 1, as an independent
 * reference, and the lemmas that connect the two.
 */
module Checksum {
  import opened Bytes

  /** `unsigned long` is 64 bits wide on the LP64 Linux targets the program is built for. */
  const ACCUMULATOR_MODULUS: nat := 0x1_0000_0000_0000_0000

  /** One's-complement arithmetic on 16 bits works modulo 2^16 - 1. */
  const ONES_MODULUS: nat := 0xFFFF

  /** Word counts for which `sum` cannot exceed 32 bits, so two folds suffice. */
  const MAX_WORDS: nat := 0x1_0001

  /** The buffer `b` read as consecutive network-order 16-bit words; an odd last byte is not read. */
  function Words(b: seq<byte>): (ws: seq<u16>)
    ensures |ws| == |b| / 2
    ensures forall i :: 0 <= i < |ws| ==> ws[i] == ReadBe16(b, 2 * i)
  {
    seq(|b| / 2, i requires 0 <= i < |b| / 2 => ReadBe16(b, 2 * i))
  }

  /** The mathematical sum of the words. */
  function Sum(ws: seq<u16>): nat
  {
    if |ws| == 0 then 0 else ws[0] + Sum(ws[1..])
  }

  /** The loop `sum += *buf++` over `ws`, starting from `sum`, with the accumulator's wrap-around. */
  function Accumulate(sum: nat, ws: seq<u16>): (r: nat)
    requires sum < ACCUMULATOR_MODULUS
    ensures r < ACCUMULATOR_MODULUS
    decreases |ws|
  {
    if |ws| == 0 then sum
    else Accumulate((sum + ws[0]) % ACCUMULATOR_MODULUS, ws[1..])
  }

  /** The two carry folds and the complement returned as `unsigned short`. */
  function FoldAndComplement(sum: nat): (r: u16)
    requires sum < ACCUMULATOR_MODULUS
    ensures sum < 0x1_0000 ==> r == 0xFFFF - sum
  {
    var folded := sum / 0x1_0000 + sum % 0x1_0000;
    var carried := folded + folded / 0x1_0000;
    0xFFFF - carried % 0x1_0000
  }

  /**
   * `csum(buf, |ws|)` where `buf` holds the words `ws`. For every word count
   * up to MAX_WORDS it is the complement of the one's-complement sum: the
   * truncation after two folds loses nothing.
   */
  function Csum(ws: seq<u16>): (r: u16)
    ensures |ws| <= MAX_WORDS ==> r == 0xFFFF - OnesSum(ws)
  {
    var c := FoldAndComplement(Accumulate(0, ws));
    if |ws| <= MAX_WORDS then
      SumBound(ws);
      AccumulateExact(0, ws);
      FoldResidue(Sum(ws));
      OnesSumResidue(ws);
      ResidueDetermines(0xFFFF - c, OnesSum(ws));
      c
    else
      c
  }

  /** One's-complement addition: the carry out of bit 15 is added back in. */
  function OnesAdd(a: u16, b: u16): u16
  {
    if a + b < 0x1_0000 then a + b else a + b - 0xFFFF
  }

  /** The one's-complement sum of the words (RFC 1071, section 1). */
  function OnesSum(ws: seq<u16>): u16
  {
    if |ws| == 0 then 0 else OnesAdd(ws[0], OnesSum(ws[1..]))
  }

  /**
   * The `csum` loop itself, reading `nwords` words from `buf`. A count of
   * zero or less leaves the loop at once, and then the result is 0xFFFF.
   */
  method ComputeCsum(buf: seq<byte>, nwords: int) returns (r: u16)
    requires 2 * nwords <= |buf|
    ensures nwords <= 0 ==> r == 0xFFFF
    ensures 0 < nwords <= MAX_WORDS ==> r == 0xFFFF - OnesSum(Words(buf[..2 * nwords]))
    ensures 0 < nwords ==> r == Csum(Words(buf[..2 * nwords]))
  {
    var count := if nwords > 0 then nwords else 0;
    ghost var ws := Words(buf[..2 * count]);
    var sum: nat := 0;
    var k := 0;
    var n := nwords;
    while n > 0
      invariant 0 <= k <= count
      invariant n <= 0 ==> k == count
      invariant n > 0 ==> n == count - k
      invariant sum < ACCUMULATOR_MODULUS
      invariant Accumulate(sum, ws[k..]) == Accumulate(0, ws)
      decreases n
    {
      assert ws[k..][1..] == ws[k + 1..];
      sum := (sum + ReadBe16(buf, 2 * k)) % ACCUMULATOR_MODULUS;
      k := k + 1;
      n := n - 1;
    }
    assert ws[k..] == [];
    var folded := sum / 0x1_0000 + sum % 0x1_0000;
    folded := folded + folded / 0x1_0000;
    r := 0xFFFF - folded % 0x1_0000;
    assert r == Csum(ws);
  }

  // ---------------------------------------------------------------------
  // Arithmetic facts about sums of words
  // ---------------------------------------------------------------------

  lemma {:induction false} SumBound(ws: seq<u16>)
    ensures Sum(ws) <= 0xFFFF * |ws|
  {
    if |ws| > 0 {
      SumBound(ws[1..]);
    }
  }

  lemma {:induction false} SumAppend(a: seq<u16>, b: seq<u16>)
    ensures Sum(a + b) == Sum(a) + Sum(b)
  {
    if |a| > 0 {
      assert (a + b)[1..] == a[1..] + b;
      SumAppend(a[1..], b);
    } else {
      assert a + b == b;
    }
  }

  lemma {:induction false} SumUpdate(ws: seq<u16>, k: nat, v: u16)
    requires k < |ws|
    ensures Sum(ws[k := v]) == Sum(ws) - ws[k] + v
  {
    if k > 0 {
      assert ws[k := v][1..] == ws[1..][k - 1 := v];
      SumUpdate(ws[1..], k - 1, v);
    }
  }

  /** Without wrap-around the accumulator holds the plain sum. */
  lemma {:induction false} AccumulateExact(sum: nat, ws: seq<u16>)
    requires sum + Sum(ws) < ACCUMULATOR_MODULUS
    ensures Accumulate(sum, ws) == sum + Sum(ws)
    decreases |ws|
  {
    if |ws| > 0 {
      AccumulateExact(sum + ws[0], ws[1..]);
    }
  }

  /** Zero words leave the accumulator unchanged, wrap-around or not. */
  lemma {:induction false} AccumulateZeros(sum: nat, zs: seq<u16>)
    requires sum < ACCUMULATOR_MODULUS
    requires forall i :: 0 <= i < |zs| ==> zs[i] == 0
    ensures Accumulate(sum, zs) == sum
    decreases |zs|
  {
    if |zs| > 0 {
      AccumulateZeros(sum, zs[1..]);
    }
  }

  lemma {:induction false} AccumulateAppend(sum: nat, a: seq<u16>, b: seq<u16>)
    requires sum < ACCUMULATOR_MODULUS
    ensures Accumulate(sum, a + b) == Accumulate(Accumulate(sum, a), b)
    decreases |a|
  {
    if |a| > 0 {
      assert (a + b)[1..] == a[1..] + b;
      AccumulateAppend((sum + a[0]) % ACCUMULATOR_MODULUS, a[1..], b);
    } else {
      assert a + b == b;
    }
  }

  lemma ModShift(x: int, k: int)
    ensures (x + k * ONES_MODULUS) % ONES_MODULUS == x % ONES_MODULUS
  {
  }

  // ---------------------------------------------------------------------
  // The one's-complement sum and its characterisation
  // ---------------------------------------------------------------------

  /**
   * A 16-bit one's-complement value is fixed by its residue modulo 0xFFFF
   * and by whether it is zero.
   */
  lemma ResidueDetermines(x: u16, y: u16)
    requires x % ONES_MODULUS == y % ONES_MODULUS
    requires x == 0 <==> y == 0
    ensures x == y
  {
  }

  /** The one's-complement sum is congruent to the plain sum and is zero only for an all-zero run. */
  lemma {:induction false} OnesSumResidue(ws: seq<u16>)
    ensures OnesSum(ws) % ONES_MODULUS == Sum(ws) % ONES_MODULUS
    ensures OnesSum(ws) == 0 <==> Sum(ws) == 0
  {
    if |ws| > 0 {
      OnesSumResidue(ws[1..]);
      var rest := OnesSum(ws[1..]);
      var first: int := ws[0];
      var s := first + rest;
      if s >= 0x1_0000 {
        ModShift(s - 0xFFFF, 1);
      }
      ModShift(s, (Sum(ws[1..]) - rest) / ONES_MODULUS);
      assert (Sum(ws[1..]) - rest) % ONES_MODULUS == 0;
    }
  }

  /**
   * For a sum below 2^32, the two folds of `csum` give the one's-complement
   * value: congruent to the sum and zero only when the sum is zero.
   */
  lemma FoldResidue(sum: nat)
    requires sum < 0x1_0000_0000
    ensures (0xFFFF - FoldAndComplement(sum)) % ONES_MODULUS == sum % ONES_MODULUS
    ensures 0xFFFF - FoldAndComplement(sum) == 0 <==> sum == 0
  {
    var hi := sum / 0x1_0000;
    var lo := sum % 0x1_0000;
    var folded := hi + lo;
    assert sum == hi * 0x1_0000 + lo;
    assert hi < 0x1_0000;
    ModShift(folded, hi);
    assert sum == folded + hi * ONES_MODULUS;
    if folded >= 0x1_0000 {
      assert (folded + 1) % 0x1_0000 == folded - 0xFFFF;
      ModShift(folded - 0xFFFF, 1);
    } else {
      assert folded / 0x1_0000 == 0;
    }
  }

  // ---------------------------------------------------------------------
  // Properties the datagram relies on
  // ---------------------------------------------------------------------

  /** A run of zero words, of any length, checksums to 0xFFFF. */
  lemma CsumOfZeros(zs: seq<u16>)
    requires forall i :: 0 <= i < |zs| ==> zs[i] == 0
    ensures Csum(zs) == 0xFFFF
  {
    AccumulateZeros(0, zs);
  }

  /** Appending zero words never changes the checksum. */
  lemma CsumIgnoresTrailingZeros(ws: seq<u16>, zs: seq<u16>)
    requires forall i :: 0 <= i < |zs| ==> zs[i] == 0
    ensures Csum(ws + zs) == Csum(ws)
  {
    AccumulateAppend(0, ws, zs);
    AccumulateZeros(Accumulate(0, ws), zs);
  }

  /** `csum` of a short run is the complement of a value congruent to the word sum, zero only for zero. */
  lemma CsumResidue(ws: seq<u16>)
    requires |ws| <= MAX_WORDS
    ensures (0xFFFF - Csum(ws)) % ONES_MODULUS == Sum(ws) % ONES_MODULUS
    ensures 0xFFFF - Csum(ws) == 0 <==> Sum(ws) == 0
  {
    SumBound(ws);
    AccumulateExact(0, ws);
    FoldResidue(Sum(ws));
  }

  /** Adding the complement of a one's-complement value to its sum gives a non-zero multiple of 0xFFFF. */
  lemma ComplementCancels(sum: nat, f: u16)
    requires f % ONES_MODULUS == sum % ONES_MODULUS
    requires f == 0 <==> sum == 0
    ensures (sum + (0xFFFF - f)) % ONES_MODULUS == 0
    ensures sum + (0xFFFF - f) > 0
  {
    ModShift(sum - f, 1);
  }

  /**
   * Checksum verification: once a zeroed checksum word is overwritten with
   * the checksum of the region, the checksum of the region becomes 0.
   */
  lemma CsumVerifies(ws: seq<u16>, k: nat)
    requires k < |ws| <= MAX_WORDS
    requires ws[k] == 0
    ensures Csum(ws[k := Csum(ws)]) == 0
  {
    var c := Csum(ws);
    var ws' := ws[k := c];
    SumUpdate(ws, k, c);
    CsumResidue(ws);
    ComplementCancels(Sum(ws), 0xFFFF - c);
    CsumResidue(ws');
    ResidueDetermines(0xFFFF - Csum(ws'), 0xFFFF);
  }

  // ---------------------------------------------------------------------
  // Words as views of byte buffers
  // ---------------------------------------------------------------------

  lemma WordsAppend(a: seq<byte>, b: seq<byte>)
    requires |a| % 2 == 0
    ensures Words(a + b) == Words(a) + Words(b)
  {
    var l := Words(a + b);
    var r := Words(a) + Words(b);
    forall i | 0 <= i < |l|
      ensures l[i] == r[i]
    {
      if i >= |a| / 2 {
        assert (a + b)[2 * i] == b[2 * (i - |a| / 2)];
        assert (a + b)[2 * i + 1] == b[2 * (i - |a| / 2) + 1];
      }
    }
  }

  lemma WordsOfZeros(b: seq<byte>)
    requires AllZero(b)
    ensures forall i :: 0 <= i < |Words(b)| ==> Words(b)[i] == 0
  {
  }

  /** Writing a 16-bit value at an even offset replaces exactly one word. */
  lemma WordsSplice(b: seq<byte>, off: nat, v: u16)
    requires off % 2 == 0 && off + 2 <= |b|
    ensures Words(Splice(b, off, Be16(v))) == Words(b)[off / 2 := v]
  {
    var l := Words(Splice(b, off, Be16(v)));
    var r := Words(b)[off / 2 := v];
    forall i | 0 <= i < |l|
      ensures l[i] == r[i]
    {
      if i == off / 2 {
        Be16RoundTrip(v);
      }
    }
  }

  /** Writing a 32-bit value at an even offset replaces two consecutive words. */
  lemma WordsSplice32(b: seq<byte>, off: nat, v: u32)
    requires off % 2 == 0 && off + 4 <= |b|
    ensures Words(Splice(b, off, Be32(v))) == Words(b)[off / 2 := v / 0x1_0000][off / 2 + 1 := v % 0x1_0000]
  {
    var hi := v / 0x1_0000;
    var lo := v % 0x1_0000;
    assert Splice(b, off, Be32(v)) == Splice(Splice(b, off, Be16(hi)), off + 2, Be16(lo));
    WordsSplice(b, off, hi);
    WordsSplice(Splice(b, off, Be16(hi)), off + 2, lo);
  }

  // ---------------------------------------------------------------------
  // Byte-order independence (RFC 1071, section 2(B))
  // ---------------------------------------------------------------------

  /** A 16-bit value with its two bytes exchanged. */
  function Swap16(w: u16): u16
  {
    (w % 0x100) * 0x100 + w / 0x100
  }

  function SwapAll(ws: seq<u16>): (r: seq<u16>)
    ensures |r| == |ws|
  {
    seq(|ws|, i requires 0 <= i < |ws| => Swap16(ws[i]))
  }

  /** The words `*buf++` reads on a little-endian host: low-order byte first. */
  function HostWords(b: seq<byte>): (ws: seq<u16>)
    ensures |ws| == |b| / 2
  {
    seq(|b| / 2, i requires 0 <= i < |b| / 2 => var lo: int := b[2 * i]; var hi: int := b[2 * i + 1]; lo + hi * 0x100)
  }

  /** How a little-endian host stores an `unsigned short`. */
  function Le16(v: u16): (b: seq<byte>)
    ensures |b| == 2
  {
    [v % 0x100, v / 0x100]
  }

  lemma Swap16Residue(w: u16)
    ensures Swap16(w) % ONES_MODULUS == (0x100 * w) % ONES_MODULUS
  {
    ModShift(Swap16(w), w / 0x100);
  }

  lemma ModAdd(a: int, b: int, c: int, d: int)
    requires a % ONES_MODULUS == c % ONES_MODULUS
    requires b % ONES_MODULUS == d % ONES_MODULUS
    ensures (a + b) % ONES_MODULUS == (c + d) % ONES_MODULUS
  {
    var p := a / ONES_MODULUS - c / ONES_MODULUS;
    var q := b / ONES_MODULUS - d / ONES_MODULUS;
    assert a == c + p * ONES_MODULUS;
    assert b == d + q * ONES_MODULUS;
    ModShift(c + d, p + q);
  }

  lemma ModScale(a: int, c: int)
    requires a % ONES_MODULUS == c % ONES_MODULUS
    ensures (0x100 * a) % ONES_MODULUS == (0x100 * c) % ONES_MODULUS
  {
    var q := a / ONES_MODULUS - c / ONES_MODULUS;
    assert a == c + q * ONES_MODULUS;
    assert 0x100 * a == 0x100 * c + (0x100 * q) * ONES_MODULUS;
    ModShift(0x100 * c, 0x100 * q);
  }

  /** Swapping the bytes of every word multiplies the sum by 2^8 modulo 0xFFFF. */
  lemma {:induction false} SumSwapped(ws: seq<u16>)
    ensures Sum(SwapAll(ws)) % ONES_MODULUS == (0x100 * Sum(ws)) % ONES_MODULUS
    ensures Sum(SwapAll(ws)) == 0 <==> Sum(ws) == 0
  {
    if |ws| > 0 {
      assert SwapAll(ws)[1..] == SwapAll(ws[1..]);
      SumSwapped(ws[1..]);
      Swap16Residue(ws[0]);
      var first: int := ws[0];
      ModAdd(Swap16(ws[0]), Sum(SwapAll(ws[1..])), 0x100 * first, 0x100 * Sum(ws[1..]));
    } else {
      assert SwapAll(ws) == [];
    }
  }

  lemma SwapComplement(x: u16)
    ensures Swap16(0xFFFF - x) == 0xFFFF - Swap16(x)
  {
    var hi := x / 0x100;
    var lo := x % 0x100;
    assert x == hi * 0x100 + lo;
    assert 0xFFFF - x == (0xFF - hi) * 0x100 + (0xFF - lo);
  }

  /**
   * Summing byte-swapped words yields the byte-swapped checksum, so the
   * checksum does not depend on the host's word order.
   */
  lemma CsumByteOrderIndependent(ws: seq<u16>)
    requires |ws| <= MAX_WORDS
    ensures Csum(SwapAll(ws)) == Swap16(Csum(ws))
  {
    var f := 0xFFFF - Csum(ws);
    var g := 0xFFFF - Csum(SwapAll(ws));
    CsumResidue(ws);
    CsumResidue(SwapAll(ws));
    SumSwapped(ws);
    ModScale(f, Sum(ws));
    Swap16Residue(f);
    ResidueDetermines(g, Swap16(f));
    SwapComplement(f);
  }

  lemma HostWordsAreSwapped(b: seq<byte>)
    ensures HostWords(b) == SwapAll(Words(b))
  {
    var l := HostWords(b);
    var r := SwapAll(Words(b));
    forall i | 0 <= i < |l|
      ensures l[i] == r[i]
    {
      var w := ReadBe16(b, 2 * i);
      assert w % 0x100 == b[2 * i + 1];
      assert w / 0x100 == b[2 * i];
    }
  }

  lemma StoreSwapped(c: u16)
    ensures Le16(Swap16(c)) == Be16(c)
  {
  }

  /**
   * What `csum` stores into a checksum field on a little-endian host (host
   * words in, host-order store out) is the same pair of bytes as the
   * network-order computation of this model.
   */
  lemma HostOrderChecksumBytes(b: seq<byte>)
    requires |b| / 2 <= MAX_WORDS
    ensures Le16(Csum(HostWords(b))) == Be16(Csum(Words(b)))
  {
    HostWordsAreSwapped(b);
    CsumByteOrderIndependent(Words(b));
    StoreSwapped(Csum(Words(b)));
  }
}
