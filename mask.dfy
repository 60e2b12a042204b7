/** The dotted-mask validator of ipcalc: `ParseMask` turns a subnet mask such
    as 255.255.255.0 into its prefix length, or throws `Invalid mask`. */
module Mask {
  import opened Types

  /** Bit k (0 = least significant) of one octet. */
  predicate OctetBit(b: Octet, k: nat)
    requires k < 8
  {
    (b >> k) & 1 == 1
  }

  /** The byte-array `GetBit` extension the loop relies on, as assumed here:
      bit i of a byte array is bit i % 8 of byte i / 8. */
  predicate GetBit(bytes: seq<Octet>, i: nat)
    requires i < |bytes| * 8
    ensures GetBit(bytes, i) <==> bytes[i / 8] & BitMask(i % 8) != 0
  {
    OctetBitMask(bytes[i / 8], i % 8);
    OctetBit(bytes[i / 8], i % 8)
  }

  /** The octet with only bit k set: `1 << k`. */
  function BitMask(k: nat): Octet
    requires k < 8
  {
    [0x01, 0x02, 0x04, 0x08, 0x10, 0x20, 0x40, 0x80][k]
  }

  /** Bit k of an octet is set exactly when masking with `1 << k` leaves
      something. */
  lemma OctetBitMask(b: Octet, k: nat)
    requires k < 8
    ensures OctetBit(b, k) <==> b & BitMask(k) != 0
  {
  }

  /** Bit i of the address read as a 32-bit number, bit 0 being the least
      significant bit of the last octet. */
  predicate Bit(m: Address, i: nat)
    requires i < 32
  {
    OctetBit(m[3 - i / 8], i % 8)
  }

  /** A valid mask: once a set bit has been seen (scanning up from bit 0),
      every more significant bit is set too. */
  predicate IsContiguousMask(m: Address)
  {
    forall i, j :: 0 <= i < j < 32 && Bit(m, i) ==> Bit(m, j)
  }

  /** The index of the least significant set bit at or above `from`, or 32
      when there is none. */
  function LowestSetBit(m: Address, from: nat): (r: nat)
    requires from <= 32
    ensures from <= r <= 32
    ensures r < 32 ==> Bit(m, r)
    ensures forall j :: from <= j < r ==> !Bit(m, j)
    decreases 32 - from
  {
    if from == 32 then 32
    else if Bit(m, from) then from
    else LowestSetBit(m, from + 1)
  }

  /** What `ParseMask` computes: `32 - bits`, where `bits` is the index of the
      lowest set bit and stays 0 when no bit is set. */
  function MaskToPrefix(m: Address): (r: Result<nat, Error>)
    ensures r.Ok? ==> 1 <= r.value <= 32
    ensures r.Err? ==> r.error == InvalidMask(m)
  {
    if !IsContiguousMask(m) then Err(InvalidMask(m))
    else
      var low := LowestSetBit(m, 0);
      var bits := if low == 32 then 0 else low;
      Ok(32 - bits)
  }

  /** `Array.Reverse` on the address bytes. */
  method ReverseBytes(a: array<Octet>)
    modifies a
    ensures forall k :: 0 <= k < a.Length ==> a[k] == old(a[a.Length - 1 - k])
  {
    var n := a.Length;
    var i := 0;
    while i < n / 2
      invariant 0 <= i <= n / 2
      invariant forall k :: 0 <= k < i ==> a[k] == old(a[n - 1 - k]) && a[n - 1 - k] == old(a[k])
      invariant forall k :: i <= k < n - i ==> a[k] == old(a[k])
    {
      a[i], a[n - 1 - i] := a[n - 1 - i], a[i];
      i := i + 1;
    }
  }

  /** After the reversal, `GetBit` reads the address's bits from the least
      significant end. */
  lemma ReversedBit(bytes: seq<Octet>, address: Address, i: nat)
    requires |bytes| == 4 && i < 32
    requires forall k :: 0 <= k < 4 ==> bytes[k] == address[3 - k]
    ensures GetBit(bytes, i) == Bit(address, i)
  {
  }

  /** A clear bit above a set one makes the mask invalid. */
  lemma GapRejected(m: Address, i: nat, j: nat)
    requires i < j < 32 && Bit(m, i) && !Bit(m, j)
    ensures MaskToPrefix(m) == Err(InvalidMask(m))
  {
  }

  /** A run of set bits from the lowest set bit to the top is valid. */
  lemma RunAccepted(m: Address, low: nat)
    requires low < 32
    requires forall j :: 0 <= j < low ==> !Bit(m, j)
    requires forall j :: low <= j < 32 ==> Bit(m, j)
    ensures MaskToPrefix(m) == Ok(32 - low)
  {
    LowestSetBitIs(m, low);
  }

  /** With no bit set the mask is valid and `bits` keeps its initial 0. */
  lemma ZeroAccepted(m: Address)
    requires forall j :: 0 <= j < 32 ==> !Bit(m, j)
    ensures MaskToPrefix(m) == Ok(32)
  {
  }

  /** The mask validator: copies the address bytes, reverses them so that
      byte 0 is the least significant octet, and scans bits 0..31 upwards. */
  method ParseMask(address: Address) returns (r: Result<nat, Error>)
    ensures r == MaskToPrefix(address)
  {
    var bits: nat := 0;
    var bytes := new Octet[4](k requires 0 <= k < 4 => address[k]);
    ReverseBytes(bytes);
    var lastOne := false;
    for i := 0 to bytes.Length * 8
      invariant forall k :: 0 <= k < 4 ==> bytes[k] == address[3 - k]
      invariant !lastOne ==> bits == 0 && forall j :: 0 <= j < i ==> !Bit(address, j)
      invariant lastOne ==> bits < i && Bit(address, bits) && forall j :: 0 <= j < bits ==> !Bit(address, j)
      invariant lastOne ==> forall j :: bits <= j < i ==> Bit(address, j)
    {
      var isSet := GetBit(bytes[..], i);
      ReversedBit(bytes[..], address, i);
      if lastOne {
        if !isSet {
          GapRejected(address, bits, i);
          return Err(InvalidMask(address));
        }
      } else {
        if isSet {
          bits := i;
          lastOne := true;
        }
      }
    }
    if lastOne {
      RunAccepted(address, bits);
    } else {
      ZeroAccepted(address);
    }
    return Ok(bytes.Length * 8 - bits);
  }

  /** The octet whose n most significant bits are set and the rest clear. */
  function OnesOctet(n: nat): Octet
    requires n <= 8
  {
    [0x00, 0x80, 0xC0, 0xE0, 0xF0, 0xF8, 0xFC, 0xFE, 0xFF][n]
  }

  function Clamp8(x: int): (r: nat)
  {
    if x < 0 then 0 else if x > 8 then 8 else x
  }

  /** The mask with the k most significant bits set: /k in CIDR notation. */
  function MaskOfPrefix(k: nat): Address
    requires k <= 32
  {
    [OnesOctet(Clamp8(k)), OnesOctet(Clamp8(k - 8)), OnesOctet(Clamp8(k - 16)), OnesOctet(Clamp8(k - 24))]
  }

  lemma OnesOctetBit(n: nat, b: nat)
    requires n <= 8 && b < 8
    ensures OctetBit(OnesOctet(n), b) <==> b >= 8 - n
  {
  }

  /** The mask for prefix k has exactly its top k bits set. */
  lemma MaskOfPrefixBit(k: nat, i: nat)
    requires k <= 32 && i < 32
    ensures Bit(MaskOfPrefix(k), i) <==> i >= 32 - k
  {
    var j := 3 - i / 8;
    OnesOctetBit(Clamp8(k - 8 * j), i % 8);
  }

  /** Octet i of an address holds bits 8 * (3 - i) .. 8 * (3 - i) + 7. */
  lemma BitOfOctet(m: Address, j: nat, b: nat)
    requires j < 4 && b < 8
    ensures Bit(m, 8 * (3 - j) + b) == OctetBit(m[j], b)
  {
  }

  lemma OctetsEqualByBits(x: Octet, y: Octet)
    requires forall k :: 0 <= k < 8 ==> OctetBit(x, k) == OctetBit(y, k)
    ensures x == y
  {
    assert OctetBit(x, 0) == OctetBit(y, 0) && OctetBit(x, 1) == OctetBit(y, 1);
    assert OctetBit(x, 2) == OctetBit(y, 2) && OctetBit(x, 3) == OctetBit(y, 3);
    assert OctetBit(x, 4) == OctetBit(y, 4) && OctetBit(x, 5) == OctetBit(y, 5);
    assert OctetBit(x, 6) == OctetBit(y, 6) && OctetBit(x, 7) == OctetBit(y, 7);
  }

  /** Two addresses with the same 32 bits are the same address. */
  lemma AddressesEqualByBits(m: Address, n: Address)
    requires forall i :: 0 <= i < 32 ==> Bit(m, i) == Bit(n, i)
    ensures m == n
  {
    forall j | 0 <= j < 4
      ensures m[j] == n[j]
    {
      forall b | 0 <= b < 8
        ensures OctetBit(m[j], b) == OctetBit(n[j], b)
      {
        BitOfOctet(m, j, b);
        BitOfOctet(n, j, b);
      }
      OctetsEqualByBits(m[j], n[j]);
    }
  }

  /** The lowest set bit is pinned down by its defining properties. */
  lemma LowestSetBitIs(m: Address, r: nat)
    requires r <= 32
    requires r < 32 ==> Bit(m, r)
    requires forall j :: 0 <= j < r ==> !Bit(m, j)
    ensures LowestSetBit(m, 0) == r
  {
    var low := LowestSetBit(m, 0);
  }

  /** A contiguous mask has every bit from its lowest set bit upwards set. */
  lemma ContiguousBits(m: Address, i: nat)
    requires IsContiguousMask(m) && i < 32
    ensures Bit(m, i) <==> i >= LowestSetBit(m, 0)
  {
    var low := LowestSetBit(m, 0);
    if low < i {
      assert Bit(m, low);
    }
  }

  /** An address whose set bits are exactly the top k is the mask of prefix k. */
  lemma SameBitsAsPrefixMask(m: Address, k: nat)
    requires k <= 32
    requires forall i :: 0 <= i < 32 ==> (Bit(m, i) <==> i >= 32 - k)
    ensures m == MaskOfPrefix(k)
  {
    var p := MaskOfPrefix(k);
    forall i | 0 <= i < 32
      ensures Bit(m, i) == Bit(p, i)
    {
      MaskOfPrefixBit(k, i);
    }
    AddressesEqualByBits(m, p);
  }

  /** A contiguous mask is the mask of the prefix its lowest set bit gives. */
  lemma ContiguousIsPrefixMask(m: Address)
    requires IsContiguousMask(m)
    ensures m == MaskOfPrefix(32 - LowestSetBit(m, 0))
  {
    var low := LowestSetBit(m, 0);
    forall i | 0 <= i < 32
      ensures Bit(m, i) <==> i >= low
    {
      ContiguousBits(m, i);
    }
    SameBitsAsPrefixMask(m, 32 - low);
  }

  /** Every prefix mask passes the contiguity test. */
  lemma PrefixMaskIsContiguous(k: nat)
    requires k <= 32
    ensures IsContiguousMask(MaskOfPrefix(k))
    ensures LowestSetBit(MaskOfPrefix(k), 0) == 32 - k
  {
    var m := MaskOfPrefix(k);
    forall i | 0 <= i < 32
      ensures Bit(m, i) <==> i >= 32 - k
    {
      MaskOfPrefixBit(k, i);
    }
    LowestSetBitIs(m, 32 - k);
  }

  /** Round trip: the mask of a prefix 1..32 parses back to that prefix. */
  lemma PrefixMaskRoundTrip(k: nat)
    requires 1 <= k <= 32
    ensures MaskToPrefix(MaskOfPrefix(k)) == Ok(k)
  {
    PrefixMaskIsContiguous(k);
  }

  /** The all-zero mask 0.0.0.0 is accepted and yields 32, not 0. */
  lemma ZeroMaskYields32()
    ensures MaskOfPrefix(0) == [0, 0, 0, 0]
    ensures MaskToPrefix([0, 0, 0, 0]) == Ok(32)
  {
    PrefixMaskIsContiguous(0);
  }

  /** A mask is accepted exactly when it is the mask of some prefix 0..32. */
  lemma MaskAcceptedIffPrefixMask(m: Address)
    ensures MaskToPrefix(m).Ok? <==> exists k :: 0 <= k <= 32 && m == MaskOfPrefix(k)
  {
    if IsContiguousMask(m) {
      ContiguousIsPrefixMask(m);
    } else {
      forall k | 0 <= k <= 32
        ensures m != MaskOfPrefix(k)
      {
        PrefixMaskIsContiguous(k);
      }
    }
  }

  /** An accepted mask is the mask of the prefix returned, except 0.0.0.0,
      for which 32 is returned. */
  lemma AcceptedMaskPrefix(m: Address)
    requires MaskToPrefix(m).Ok?
    ensures var p := MaskToPrefix(m).value;
            if m == [0, 0, 0, 0] then p == 32 else m == MaskOfPrefix(p)
  {
    var low := LowestSetBit(m, 0);
    ContiguousIsPrefixMask(m);
    ZeroMaskYields32();
    if low == 32 {
      assert m == [0, 0, 0, 0];
    } else {
      PrefixMaskIsContiguous(0);
      assert m != [0, 0, 0, 0];
      assert MaskToPrefix(m).value == 32 - low;
    }
  }

  /** 255.0.255.0 has a set bit (8) below a clear one (16): rejected. */
  lemma NonContiguousMaskRejected()
    ensures MaskToPrefix([255, 0, 255, 0]) == Err(InvalidMask([255, 0, 255, 0]))
  {
    var m: Address := [255, 0, 255, 0];
    assert Bit(m, 8) && !Bit(m, 16);
  }
}
