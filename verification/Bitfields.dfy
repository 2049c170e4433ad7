/**
 Bitfields: what a field access must read, shift and mask (src/struct.cpp:14-48), and the three
 ways debug information describes one bitfield, on little-endian hosts.
 */
module Bitfields {
  import opened Prelude
  import opened Arithmetic
  import opened Bytes

  // Read `readBytes` bytes at the field's offset, shift right by `accessRshift`, and with `mask`.
  datatype Bitfield = Bitfield(readBytes: nat, accessRshift: nat, mask: nat)

  const MAX_WIDTH: nat := 64

  function ClipWidth(width: nat): nat {
    if width > MAX_WIDTH then MAX_WIDTH else width
  }

  function MakeBitfield(bitOffset: nat, bitWidth: nat): Bitfield {
    var width := ClipWidth(bitWidth);
    Pow2Positive(width);
    Bitfield((bitOffset + width + 7) / 8, bitOffset, Pow2(width) - 1)
  }

  function BitAnd(a: nat, b: nat): nat
    decreases a + b
  {
    if a == 0 || b == 0 then 0 else (if a % 2 == 1 && b % 2 == 1 then 1 else 0) + 2 * BitAnd(a / 2, b / 2)
  }

  // What the generated code computes from the bytes of the struct.
  function Extract(b: Bitfield, mem: seq<byte>, at: nat): nat
    requires at + b.readBytes <= |mem|
  {
    BitAnd(Shr(FromLE(mem[at..at + b.readBytes]), b.accessRshift), b.mask)
  }

  // Bits p, p + 1, ..., p + w - 1 of the struct, as a number.
  function StructBits(mem: seq<byte>, p: nat, w: nat): nat {
    LowBits(Shr(FromLE(mem), p), w)
  }

  // Shifts and masks of bit strings.

  lemma {:induction false} MaskIsLowBits(v: nat, w: nat)
    ensures Pow2(w) >= 1 && BitAnd(v, Pow2(w) - 1) == LowBits(v, w)
  {
    Pow2Positive(w);
    if w > 0 {
      MaskIsLowBits(v / 2, w - 1);
      Pow2Positive(w - 1);
      assert (Pow2(w) - 1) / 2 == Pow2(w - 1) - 1 && (Pow2(w) - 1) % 2 == 1;
      if v == 0 {
        LowBitsOfZero(w);
      }
    }
  }

  lemma {:induction false} LowBitsOfZero(w: nat)
    ensures LowBits(0, w) == 0
  {
    if w > 0 {
      LowBitsOfZero(w - 1);
    }
  }

  lemma {:induction false} ShrShr(n: nat, j: nat, k: nat)
    ensures Shr(Shr(n, j), k) == Shr(n, j + k)
  {
    if j > 0 {
      ShrShr(n / 2, j - 1, k);
    }
  }

  lemma {:induction false} LowOfLow(x: nat, m: nat, w: nat)
    requires w <= m
    ensures LowBits(LowBits(x, m), w) == LowBits(x, w)
  {
    if w > 0 {
      LowOfLow(x / 2, m - 1, w - 1);
    }
  }

  // Bits below m determine the bits that a shift and mask below m select.
  lemma {:induction false} LowShrLow(x: nat, m: nat, off: nat, w: nat)
    requires off + w <= m
    ensures LowBits(Shr(LowBits(x, m), off), w) == LowBits(Shr(x, off), w)
  {
    if off == 0 {
      LowOfLow(x, m, w);
    } else {
      LowShrLow(x / 2, m - 1, off - 1, w);
    }
  }

  lemma DropByte(mem: seq<byte>)
    requires mem != []
    ensures Shr(FromLE(mem), 8) == FromLE(mem[1..])
  {
    ShrByte(FromLE(mem));
  }

  lemma ShrByte(n: nat)
    ensures Shr(n, 8) == n / 256
  {
    assert Shr(n, 8) == Shr(n / 2 / 2, 6) == Shr(n / 2 / 2 / 2 / 2, 4);
    assert Shr(n / 16, 4) == Shr(n / 16 / 2 / 2, 2) == n / 16 / 2 / 2 / 2 / 2;
  }

  lemma {:induction false} LowByte(n: nat, m: nat)
    ensures LowBits(n, 8 + m) == n % 256 + 256 * LowBits(n / 256, m)
  {
    hide LowBits;
    FourBits(n, 4 + m);
    FourBits(n / 16, m);
  }

  lemma FourBits(n: nat, m: nat)
    ensures LowBits(n, 4 + m) == n % 16 + 16 * LowBits(n / 16, m)
  {
    assert LowBits(n, 4 + m) == n % 2 + 2 * LowBits(n / 2, 3 + m);
    assert LowBits(n / 2, 3 + m) == n / 2 % 2 + 2 * LowBits(n / 4, 2 + m);
    assert LowBits(n / 4, 2 + m) == n / 4 % 2 + 2 * LowBits(n / 8, 1 + m);
    assert LowBits(n / 8, 1 + m) == n / 8 % 2 + 2 * LowBits(n / 16, m);
  }

  // Dropping bytes is shifting, taking bytes is masking.

  lemma {:induction false} DropBytes(mem: seq<byte>, at: nat)
    requires at <= |mem|
    ensures Shr(FromLE(mem), 8 * at) == FromLE(mem[at..])
  {
    hide Shr, FromLE, Range;
    if at == 0 {
      assert mem[0..] == mem;
      ShrNone(FromLE(mem));
    } else {
      DropBytes(mem[1..], at - 1);
      assert mem[1..][at - 1..] == mem[at..];
      DropOneMore(mem, at - 1);
    }
  }

  lemma DropOneMore(mem: seq<byte>, at: nat)
    requires mem != []
    ensures Shr(FromLE(mem), 8 * (at + 1)) == Shr(FromLE(mem[1..]), 8 * at)
  {
    hide Shr, FromLE, Range;
    DropByte(mem);
    ShrShr(FromLE(mem), 8, 8 * at);
  }

  lemma ShrNone(n: nat)
    ensures Shr(n, 0) == n
  {
  }

  lemma {:induction false} TakeBytes(mem: seq<byte>, n: nat)
    requires n <= |mem|
    ensures LowBits(FromLE(mem), 8 * n) == FromLE(mem[..n])
  {
    if n > 0 {
      hide LowBits;
      TakeBytes(mem[1..], n - 1);
      LowByte(FromLE(mem), 8 * (n - 1));
      assert FromLE(mem) % 256 == mem[0] && FromLE(mem) / 256 == FromLE(mem[1..]);
      assert mem[..n][1..] == mem[1..][..n - 1];
    }
  }

  // Main result: the extracted value is the struct's bits at the field's position.
  lemma ExtractIsStructBits(bitOffset: nat, bitWidth: nat, mem: seq<byte>, at: nat)
    requires at + MakeBitfield(bitOffset, bitWidth).readBytes <= |mem|
    ensures Extract(MakeBitfield(bitOffset, bitWidth), mem, at)
            == StructBits(mem, 8 * at + bitOffset, ClipWidth(bitWidth))
  {
    hide Shr, LowBits, Shl, BitAnd;
    var w := ClipWidth(bitWidth);
    var n := MakeBitfield(bitOffset, bitWidth).readBytes;
    assert mem[at..][..n] == mem[at..at + n];
    TakeBytes(mem[at..], n);
    DropBytes(mem, at);
    LowShrLow(FromLE(mem[at..]), 8 * n, bitOffset, w);
    ShrShr(FromLE(mem), 8 * at, bitOffset);
    MaskIsLowBits(Shr(FromLE(mem[at..at + n]), bitOffset), w);
  }

  // The read covers the field, ends at the byte of its last bit, and no shorter read covers it.
  lemma ReadIsMinimal(bitOffset: nat, bitWidth: nat, at: nat, n: nat)
    requires bitWidth >= 1
    ensures var w := ClipWidth(bitWidth);
            var read := MakeBitfield(bitOffset, bitWidth).readBytes;
            && at + read - 1 == (8 * at + bitOffset + w - 1) / 8
            && (8 * n >= bitOffset + w <==> n >= read)
  {
  }

  // Debug information.

  // The attributes of a DWARF member that matter here; `byteSize` is -1 when absent.
  datatype Member = Member(memberLocation: Option<nat>, dataBitOffset: Option<nat>, bitOffset: Option<nat>,
                           byteSize: int, bitSize: nat)

  function FieldBitOffset(m: Member): nat {
    match m.dataBitOffset
    case Some(v) => v
    case None => match m.bitOffset case Some(v) => v case None => 0
  }

  function FieldByteOffset(m: Member): nat {
    match m.memberLocation
    case Some(v) => v
    case None => FieldBitOffset(m) / 8
  }

  // None for a member that is not a bitfield.  The storage unit holds the field.
  function ResolveDwarf(m: Member): Option<Bitfield>
    requires m.bitSize > 0 && m.dataBitOffset.None? ==> FieldBitOffset(m) + m.bitSize <= m.byteSize * 8
  {
    if m.bitSize == 0 then None
    else if m.dataBitOffset.Some? then Some(MakeBitfield(FieldBitOffset(m) % 8, m.bitSize))
    else Some(MakeBitfield(m.byteSize * 8 - FieldBitOffset(m) - m.bitSize, m.bitSize))
  }

  // BTF gives the bit position in the struct and the width.
  function BtfByteOffset(bitPosition: nat): nat {
    bitPosition / 8
  }

  function ResolveBtf(bitPosition: nat, width: nat): Option<Bitfield> {
    if width == 0 then None else Some(MakeBitfield(bitPosition % 8, width))
  }

  // One field described by its bit position: as DWARF 4 does, and as older versions do by a
  // storage unit of `unit` bytes at byte `location` and the distance from its highest bit.
  function ByDataBitOffset(p: nat, w: nat): Member {
    Member(None, Some(p), None, -1, w)
  }

  function ByStorageUnit(p: nat, w: nat, location: nat, unit: nat): Member
    requires 8 * location <= p && p + w <= 8 * (location + unit)
  {
    Member(Some(location), None, Some(8 * (location + unit) - p - w), unit, w)
  }

  // Main result: all three descriptions extract bits p, ..., p + w - 1 of the struct.
  lemma DescriptionsAgree(p: nat, w: nat, location: nat, unit: nat, mem: seq<byte>)
    requires 1 <= w <= 64 && 8 * location <= p && p + w <= 8 * (location + unit)
    requires location + unit <= |mem|
    ensures var btf, four, older := ResolveBtf(p, w), ResolveDwarf(ByDataBitOffset(p, w)),
                                    ResolveDwarf(ByStorageUnit(p, w, location, unit));
            && btf.Some? && BtfByteOffset(p) + btf.value.readBytes <= |mem|
            && Extract(btf.value, mem, BtfByteOffset(p)) == StructBits(mem, p, w)
            && four.Some? && FieldByteOffset(ByDataBitOffset(p, w)) + four.value.readBytes <= |mem|
            && Extract(four.value, mem, FieldByteOffset(ByDataBitOffset(p, w))) == StructBits(mem, p, w)
            && older.Some? && location + older.value.readBytes <= |mem|
            && Extract(older.value, mem, location) == StructBits(mem, p, w)
  {
    hide Extract, StructBits;
    ReadFits(p % 8, w, p / 8, |mem|);
    ReadFits(p - 8 * location, w, location, |mem|);
    ExtractIsStructBits(p % 8, w, mem, p / 8);
    ExtractIsStructBits(p - 8 * location, w, mem, location);
  }

  lemma ReadFits(bitOffset: nat, w: nat, at: nat, size: nat)
    requires 1 <= w <= 64 && 8 * at + bitOffset + w <= 8 * size
    ensures at + MakeBitfield(bitOffset, w).readBytes <= size
  {
  }

  // A member with both a location and a data bit offset is extracted at the location, so the
  // value is right for every struct exactly when the two name the same byte.

  lemma {:induction false} ShrPower(p: nat, q: nat)
    ensures Shr(Pow2(p), q) == if q <= p then Pow2(p - q) else 0
  {
    if q > 0 {
      if p > 0 {
        ShrPower(p - 1, q - 1);
      } else {
        ShrZero(q - 1);
      }
    }
  }

  lemma {:induction false} ShrZero(q: nat)
    ensures Shr(0, q) == 0
  {
    if q > 0 {
      ShrZero(q - 1);
    }
  }

  lemma {:induction false} LowBitsOfPower(i: nat, w: nat)
    ensures LowBits(Pow2(i), w) == if i < w then Pow2(i) else 0
  {
    if w > 0 {
      if i > 0 {
        LowBitsOfPower(i - 1, w - 1);
      } else {
        LowBitsOfZero(w - 1);
      }
    }
  }

  lemma {:induction false} PowerInRange(p: nat, n: nat)
    requires p < 8 * n
    ensures Pow2(p) < Range(n)
  {
    if p >= 8 {
      PowerInRange(p - 8, n - 1);
      ShlTwice(1, p - 8, 8);
      Shl8(Pow2(p - 8));
    } else {
      Pow2Leq(p, 7);
      Shl8(1);
      assert Range(n) >= 256;
    }
  }

  // A struct with only bit p set tells position p from every other.
  lemma BitPositionsDiffer(p: nat, q: nat, w: nat, n: nat)
    requires p != q && 1 <= w && p < 8 * n
    ensures StructBits(ToLE(n, Pow2(p)), p, w) != StructBits(ToLE(n, Pow2(p)), q, w)
  {
    hide Shr, LowBits, Shl;
    PowerInRange(p, n);
    ReadBack(n, Pow2(p));
    ShrPower(p, p);
    ShrPower(p, q);
    LowBitsOfPower(0, w);
    PowerZero();
    if q < p {
      LowBitsOfPower(p - q, w);
      PowerAboveOne(p - q);
    } else {
      LowBitsOfZero(w);
    }
  }

  lemma PowerZero()
    ensures Pow2(0) == 1
  {
  }

  lemma PowerAboveOne(i: nat)
    requires i > 0
    ensures Pow2(i) > 1
  {
    Pow2Leq(1, i);
    assert Pow2(1) == 2;
  }

  // Every struct large enough for both reads yields the described bits.
  ghost predicate ExtractedRight(m: Member, p: nat) {
    m.bitSize > 0 && m.dataBitOffset.Some? &&
    forall mem ::
      FieldByteOffset(m) + ResolveDwarf(m).value.readBytes <= |mem| && p + m.bitSize <= 8 * |mem| ==>
        Extract(ResolveDwarf(m).value, mem, FieldByteOffset(m)) == StructBits(mem, p, m.bitSize)
  }

  lemma LocationMustAgree(p: nat, w: nat, location: nat)
    requires 1 <= w <= 64
    ensures ExtractedRight(Member(Some(location), Some(p), None, -1, w), p) <==> location == p / 8
  {
    hide Extract, StructBits;
    var m := Member(Some(location), Some(p), None, -1, w);
    var b := MakeBitfield(p % 8, w);
    if location == p / 8 {
      forall mem: seq<byte> | location + b.readBytes <= |mem| && p + w <= 8 * |mem|
        ensures Extract(b, mem, location) == StructBits(mem, p, w)
      {
        ExtractIsStructBits(p % 8, w, mem, location);
      }
    } else {
      var n := location + b.readBytes + p + w;
      var mem := ToLE(n, Pow2(p));
      ExtractIsStructBits(p % 8, w, mem, location);
      BitPositionsDiffer(p, 8 * location + p % 8, w, n);
    }
  }
}
