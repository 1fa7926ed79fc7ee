/**
 Addresses as Go's net.IP keeps them, big-endian byte slices, and what the
 byte-by-byte mask arithmetic of the allocator means on numbers.  An IPv4
 address is held in its 4-byte form; To4 also recognises the 16-byte mapped form.
 */
module Bytes {
  import opened Wrappers
  import opened Bits

  type IP = seq<byte>

  /** The number a byte slice spells, most significant byte first (big.Int.SetBytes). */
  function Value(b: IP): nat
  {
    if |b| == 0 then 0 else 256 * Value(b[..|b| - 1]) + b[|b| - 1]
  }

  /** The n-byte spelling of v. */
  function Spell(n: nat, v: nat): (b: IP)
    ensures |b| == n
  {
    if n == 0 then [] else Spell(n - 1, v / 256) + [v % 256]
  }

  /** The shortest spelling of v, which is what big.Int.Bytes returns. */
  function Shortest(v: nat): IP
  {
    if v == 0 then [] else Shortest(v / 256) + [v % 256]
  }

  /** The number of an IPv4 address, octet by octet. */
  lemma ValueOfFour(b: IP)
    requires |b| == 4
    ensures Value(b) == 0x100_0000 * b[0] as nat + 0x1_0000 * b[1] as nat + 0x100 * b[2] as nat + b[3] as nat
  {
    assert Value(b) == 256 * Value(b[..3]) + b[3];
    assert b[..3][..2] == b[..2] && b[..2][..1] == b[..1] && b[..1][..0] == [];
    assert Value(b[..3]) == 256 * Value(b[..2]) + b[2];
    assert Value(b[..2]) == 256 * Value(b[..1]) + b[1];
    assert Value(b[..1]) == 256 * Value([]) + b[0];
  }

  lemma {:induction false} ValueBound(b: IP)
    ensures Value(b) < Pow2(8 * |b|)
  {
    if |b| > 0 {
      ValueBound(b[..|b| - 1]);
      Pow2Bytes(|b|);
    }
  }

  lemma Pow2Bytes(n: nat)
    requires n > 0
    ensures Pow2(8 * n) == 256 * Pow2(8 * (n - 1))
  {
    Pow2Byte(8 * (n - 1));
  }

  lemma {:induction false} SpellValue(b: IP)
    ensures Spell(|b|, Value(b)) == b
  {
    if |b| > 0 {
      SpellValue(b[..|b| - 1]);
    }
  }

  lemma {:induction false} ValueSpell(n: nat, v: nat)
    requires v < Pow2(8 * n)
    ensures Value(Spell(n, v)) == v
  {
    if n > 0 {
      Pow2Bytes(n);
      ValueSpell(n - 1, v / 256);
      assert Spell(n, v)[..n - 1] == Spell(n - 1, v / 256);
    }
  }

  /** Slices of one length that spell the same number are the same slice. */
  lemma ValueInjective(a: IP, b: IP)
    requires |a| == |b| && Value(a) == Value(b)
    ensures a == b
  {
    SpellValue(a);
    SpellValue(b);
  }

  lemma {:induction false} ShortestValue(v: nat)
    ensures Value(Shortest(v)) == v
  {
    if v > 0 {
      ShortestValue(v / 256);
      assert Shortest(v)[..|Shortest(v)| - 1] == Shortest(v / 256);
    }
  }

  /** The shortest spelling has n bytes exactly when its leading byte is in use. */
  lemma {:induction false} ShortestLength(n: nat, v: nat)
    requires v < Pow2(8 * n)
    ensures |Shortest(v)| <= n
    ensures n > 0 ==> (|Shortest(v)| == n <==> Pow2(8 * (n - 1)) <= v)
    ensures |Shortest(v)| == n ==> Shortest(v) == Spell(n, v)
    ensures Value(Shortest(v)) == v
  {
    if v == 0 {
    } else if n == 1 {
      Pow2Small();
      assert Shortest(v / 256) == [];
    } else if n > 1 {
      Pow2Bytes(n);
      Pow2Bytes(n - 1);
      ShortestLength(n - 1, v / 256);
      assert Shortest(v)[..|Shortest(v)| - 1] == Shortest(v / 256);
    }
  }

  /** The leading byte of a spelling is in use exactly when the number needs all its bytes. */
  lemma {:induction false} LeadingByte(b: IP)
    requires |b| > 0
    ensures Pow2(8 * (|b| - 1)) <= Value(b) <==> b[0] != 0
  {
    var n := |b| - 1;
    if n == 0 {
      assert Value(b[..0]) == 0;
    } else {
      Pow2Bytes(n);
      LeadingByte(b[..n]);
    }
  }

  /** Writing the shortest spelling at the end of n zero bytes gives the n-byte spelling. */
  lemma {:induction false} PadShortest(n: nat, v: nat)
    requires v < Pow2(8 * n)
    ensures |Shortest(v)| <= n
    ensures Zeros(n - |Shortest(v)|) + Shortest(v) == Spell(n, v)
  {
    ShortestLength(n, v);
    if n > 0 {
      Pow2Bytes(n);
      PadShortest(n - 1, v / 256);
      if v == 0 {
        assert Zeros(n) == Zeros(n - 1) + [0];
      } else {
        assert Zeros(n - |Shortest(v)|) + Shortest(v)
            == (Zeros(n - 1 - |Shortest(v / 256)|) + Shortest(v / 256)) + [v % 256];
      }
    }
  }

  lemma {:induction false} NoLeadingZero(v: nat)
    ensures Shortest(v) != [] ==> Shortest(v)[0] != 0
  {
    if v > 0 {
      NoLeadingZero(v / 256);
    }
  }

  function Zeros(n: nat): IP
  {
    seq(n, i => 0)
  }

  // ---- forms of an address

  const MAPPED_PREFIX: IP := [0, 0, 0, 0, 0, 0, 0, 0, 0, 0, 0xff, 0xff]

  /** net.IP.To4: the 4-byte form of an IPv4 address, in either of its encodings. */
  function To4(ip: IP): (r: Option<IP>)
    ensures r.Some? ==> |r.value| == 4
  {
    if |ip| == 4 then Some(ip)
    else if |ip| == 16 && ip[..12] == MAPPED_PREFIX then Some(ip[12..])
    else None
  }

  /** net.IP.To16. */
  function To16(ip: IP): (r: Option<IP>)
    ensures r.Some? ==> |r.value| == 16
  {
    if |ip| == 4 then Some(MAPPED_PREFIX + ip)
    else if |ip| == 16 then Some(ip)
    else None
  }

  /** net.IP.Equal: an IPv4 address equals its mapped form; otherwise lengths must agree. */
  predicate Equal(a: IP, b: IP)
  {
    if |a| == |b| then a == b
    else if |a| == 4 && |b| == 16 then b == MAPPED_PREFIX + a
    else if |a| == 16 && |b| == 4 then a == MAPPED_PREFIX + b
    else false
  }

  /** A well-formed address: four bytes, or sixteen that are not a mapped IPv4 address. */
  predicate WellFormed(ip: IP)
  {
    |ip| == 4 || (|ip| == 16 && To4(ip).None?)
  }

  // ---- masks

  /** How many of byte i's bits a prefix of `ones` bits covers. */
  function Kept(ones: nat, i: nat): (k: nat)
    ensures k <= 8
  {
    if ones <= 8 * i then 0 else if ones >= 8 * i + 8 then 8 else ones - 8 * i
  }

  /** The byte whose `kept` high bits are set: ^byte(0xff >> kept). */
  function MaskByte(kept: nat): byte
    requires kept <= 8
  {
    Pow2Small();
    Pow2Monotonic(8 - kept, 8);
    Pow2(8) - Pow2(8 - kept)
  }

  /** net.CIDRMask(ones, 8 * n). */
  function PrefixMask(ones: nat, n: nat): (m: seq<byte>)
    ensures |m| == n
  {
    seq(n, i requires 0 <= i < n => MaskByte(Kept(ones, i)))
  }

  function AndByte(a: byte, b: byte): byte { Pow2Small(); And(8, a, b) }

  function OrByte(a: byte, b: byte): byte { Pow2Small(); Or(8, a, b) }

  function NotByte(a: byte): byte { Pow2Small(); Not(8, a) }

  /** net.IP.Mask. */
  function ApplyMask(ip: IP, mask: seq<byte>): (r: IP)
    requires |ip| == |mask|
    ensures |r| == |ip|
  {
    seq(|ip|, i requires 0 <= i < |ip| => AndByte(ip[i], mask[i]))
  }

  /** The slice the allocator builds as the subnet's last address: base | ^mask. */
  function SetHostBits(base: IP, mask: seq<byte>): (r: IP)
    requires |base| == |mask|
    ensures |r| == |base|
  {
    seq(|base|, i requires 0 <= i < |base| => OrByte(base[i], NotByte(mask[i])))
  }

  lemma MaskOneByte(x: byte, kept: nat)
    requires kept <= 8
    ensures AndByte(x, MaskByte(kept)) == RoundDown(x, 8 - kept)
    ensures OrByte(AndByte(x, MaskByte(kept)), NotByte(MaskByte(kept))) == RoundDown(x, 8 - kept) + Pow2(8 - kept) - 1
  {
    hide And, Or, Not, RoundDown, Pow2;
    Pow2Small();
    assert AndByte(x, MaskByte(kept)) == And(8, x, MaskByte(kept));
    AndOfPrefixRoundsDown(8, 8 - kept, x);
    OrOfMaskedIsSum(8, x, MaskByte(kept));
    NotIsComplement(8, MaskByte(kept));
  }

  /** The first address of ip's block, as ip.Mask(mask) computes it. */
  function Base(ip: IP, ones: nat): (r: IP)
    ensures |r| == |ip|
  {
    ApplyMask(ip, PrefixMask(ones, |ip|))
  }

  /** The last address of ip's block, as base | ^mask computes it. */
  function Last(ip: IP, ones: nat): (r: IP)
    ensures |r| == |ip|
  {
    SetHostBits(Base(ip, ones), PrefixMask(ones, |ip|))
  }

  /** How many of an n-byte address's bits a prefix of `ones` bits leaves free. */
  function Free(ones: nat, n: nat): nat
  {
    if ones >= 8 * n then 0 else 8 * n - ones
  }

  /** What masking does to each byte. */
  ghost predicate MaskedBytewise(ip: IP, base: IP, last: IP, ones: nat)
  {
    && |ip| == |base| == |last|
    && forall i :: 0 <= i < |ip| ==>
         base[i] == RoundDown(ip[i], 8 - Kept(ones, i)) && last[i] == base[i] + Pow2(8 - Kept(ones, i)) - 1
  }

  lemma BytewiseInit(ip: IP, base: IP, last: IP, ones: nat)
    requires MaskedBytewise(ip, base, last, ones) && |ip| > 0
    ensures var n := |ip| - 1;
            && MaskedBytewise(ip[..n], base[..n], last[..n], ones)
            && base[n] == RoundDown(ip[n], 8 - Kept(ones, n)) && last[n] == base[n] + Pow2(8 - Kept(ones, n)) - 1
  {
    hide RoundDown, Pow2, Kept;
  }

  /** From the arithmetic of the bytes to that of the numbers they spell. */
  lemma {:induction false} BlockArithmetic(ip: IP, base: IP, last: IP, ones: nat)
    requires MaskedBytewise(ip, base, last, ones)
    ensures BlockOf(ip, base, last, Free(ones, |ip|))
    decreases |ip|
  {
    assert |ip| == |base| == |last|;
    hide Value, RoundDown, Pow2, MaskedBytewise, BlockOf, Free, Kept;
    if |ip| == 0 {
      EmptyBlock(ones);
    } else {
      var n := |ip| - 1;
      BytewiseInit(ip, base, last, ones);
      FreeGrows(ones, n);
      BlockArithmetic(ip[..n], base[..n], last[..n], ones);
      AppendByte(ip, base, last, Free(ones, n), 8 - Kept(ones, n));
    }
  }

  lemma FreeGrows(ones: nat, n: nat)
    ensures Free(ones, n) + 8 - Kept(ones, n) == Free(ones, n + 1)
    ensures Free(ones, n) > 0 ==> Kept(ones, n) == 0
  {
  }

  lemma EmptyBlock(ones: nat)
    ensures BlockOf([], [], [], Free(ones, 0))
  {
  }

  /** base and last are the ends of ip's block of 2^free addresses. */
  ghost predicate BlockOf(ip: IP, base: IP, last: IP, free: nat)
  {
    Value(base) == RoundDown(Value(ip), free) && Value(last) == Value(base) + Pow2(free) - 1
  }

  /** One step of BlockArithmetic: `more` further free bits, all in the last byte. */
  lemma AppendByte(ip: IP, base: IP, last: IP, free: nat, more: nat)
    requires |ip| == |base| == |last| > 0 && more <= 8 && (free > 0 ==> more == 8)
    requires var n := |ip| - 1;
             && BlockOf(ip[..n], base[..n], last[..n], free)
             && base[n] == RoundDown(ip[n], more)
             && last[n] == base[n] + Pow2(more) - 1
    ensures BlockOf(ip, base, last, free + more)
  {
    hide RoundDown, Pow2, Value;
    var n := |ip| - 1;
    ValueStep(ip);
    ValueStep(base);
    ValueStep(last);
    BlockStep(Value(ip[..n]), Value(base[..n]), ip[n], free, more);
  }

  lemma ValueStep(b: IP)
    requires |b| > 0
    ensures Value(b) == 256 * Value(b[..|b| - 1]) + b[|b| - 1]
  {
  }

  /** The same on numbers: `init` and `first` are those of the bytes before. */
  lemma BlockStep(init: nat, first: nat, x: byte, free: nat, more: nat)
    requires more <= 8 && (free > 0 ==> more == 8) && first == RoundDown(init, free)
    ensures RoundDown(256 * init + x, free + more) == 256 * first + RoundDown(x, more)
    ensures 256 * (Pow2(free) - 1) + Pow2(more) - 1 == Pow2(free + more) - 1
  {
    assert Pow2(0) == 1;
    RoundDownStep(init, 0);
    hide RoundDown, Pow2;
    if more == 8 {
      WholeByteFree(init, x, free);
    } else {
      PartByteFree(init, x, more);
    }
  }

  /**
   Masking rounds an address down to its block of 2^(bits - ones), and setting the
   host bits of that gives the block's last address.
   */
  lemma MaskArithmetic(ip: IP, ones: nat)
    ensures Value(Base(ip, ones)) == RoundDown(Value(ip), Free(ones, |ip|))
    ensures Value(Last(ip, ones)) == Value(Base(ip, ones)) + Pow2(Free(ones, |ip|)) - 1
  {
    hide Base, Last, Value, RoundDown, Pow2, MaskedBytewise, Free;
    MaskBytes(ip, ones);
    BlockArithmetic(ip, Base(ip, ones), Last(ip, ones), ones);
  }

  lemma MaskBytes(ip: IP, ones: nat)
    ensures MaskedBytewise(ip, Base(ip, ones), Last(ip, ones), ones)
  {
    hide RoundDown, Pow2, Kept, AndByte, OrByte, NotByte, MaskByte;
    var base, last := Base(ip, ones), Last(ip, ones);
    forall i | 0 <= i < |ip|
      ensures base[i] == RoundDown(ip[i], 8 - Kept(ones, i)) && last[i] == base[i] + Pow2(8 - Kept(ones, i)) - 1
    {
      MaskOneByte(ip[i], Kept(ones, i));
    }
  }

  lemma WholeByteFree(init: nat, last: byte, low: nat)
    ensures RoundDown(256 * init + last, low + 8) == 256 * RoundDown(init, low)
    ensures Pow2(low + 8) == 256 * Pow2(low)
    ensures RoundDown(last, 8) == 0 && Pow2(8) == 256
  {
    RoundDownByte(last, 0);
    Pow2Byte(0);
    assert Pow2(0) == 1 && RoundDown(0, 0) == 0 && last / 256 == 0;
    hide Pow2, RoundDown;
    RoundDownByte(256 * init + last, low);
    Pow2Byte(low);
    assert (256 * init + last) / 256 == init;
  }

  lemma PartByteFree(init: nat, last: byte, free: nat)
    requires free <= 8
    ensures RoundDown(256 * init + last, free) == 256 * init + RoundDown(last, free)
  {
    RoundDownStep(init, 0);
    hide RoundDown, Pow2;
    RoundDownByte(256 * init, 0);
    assert 256 * init / 256 == init;
    RoundDownFewer(256 * init, free, 8);
    RoundDownSum(256 * init, last, free);
  }
}
