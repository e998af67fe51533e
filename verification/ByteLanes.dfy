/** Byte lanes of the 64-bit data memories: which lanes an access enables, which input byte
    each lane receives, which lane each output byte comes from, and the mask that truncates
    or sign-extends a loaded value.  The flat byte memory they implement is at the end. */
module ByteLanes {
  import opened Words

  // Access sizes as coded in the size bits of a memory opcode.
  const SIZE32: int := 0
  const SIZE16: int := 1
  const SIZE8: int := 2
  const SIZE64: int := 3

  type Size = x: int | 0 <= x < 4
  type Lane = x: int | 0 <= x < 8

  /** One 64-bit memory word, lowest byte first. */
  type Lanes = s: seq<Byte> | |s| == 8 witness [0, 0, 0, 0, 0, 0, 0, 0]

  const ZERO_LANES: Lanes := [0, 0, 0, 0, 0, 0, 0, 0]

  function Width(size: Size): (n: nat)
    ensures n in {1, 2, 4, 8}
  {
    if size == SIZE8 then 1 else if size == SIZE16 then 2 else if size == SIZE32 then 4 else 8
  }

  // Little-endian values ------------------------------------------------------

  function LeValue(bytes: seq<Byte>): nat {
    if bytes == [] then 0 else bytes[0] + 256 * LeValue(bytes[1..])
  }

  function LeBytes(w: nat, n: nat): (bytes: seq<Byte>)
    ensures |bytes| == n
  {
    if n == 0 then [] else [w % 256] + LeBytes(w / 256, n - 1)
  }

  function Pow256(n: nat): (r: nat)
    ensures r > 0
  {
    if n == 0 then 1 else 256 * Pow256(n - 1)
  }

  lemma {:induction false} LeValueBound(bytes: seq<Byte>)
    ensures LeValue(bytes) < Pow256(|bytes|)
  {
    if bytes != [] {
      LeValueBound(bytes[1..]);
    }
  }

  lemma Pow256Values()
    ensures Pow256(1) == TWO_8 && Pow256(2) == TWO_16 && Pow256(4) == TWO_32 && Pow256(8) == TWO_64
  {
    assert Pow256(1) == 256 * Pow256(0);
    assert Pow256(2) == 256 * Pow256(1);
    assert Pow256(3) == 256 * Pow256(2);
    assert Pow256(4) == 256 * Pow256(3);
    assert Pow256(5) == 256 * Pow256(4);
    assert Pow256(6) == 256 * Pow256(5);
    assert Pow256(7) == 256 * Pow256(6);
    assert Pow256(8) == 256 * Pow256(7);
  }

  function WordOf(l: Lanes): Word {
    LeValueBound(l);
    Pow256Values();
    LeValue(l)
  }

  function LanesOf(w: Word): Lanes {
    LeBytes(w, 8)
  }

  /** Bytes of a value give the value back, modulo what n bytes can hold. */
  lemma {:induction false} LeRoundTrip(w: nat, n: nat)
    ensures LeValue(LeBytes(w, n)) == w % Pow256(n)
  {
    if n > 0 {
      LeRoundTrip(w / 256, n - 1);
      assert LeBytes(w, n)[1..] == LeBytes(w / 256, n - 1);
      var p, q, r := Pow256(n - 1), w / 256, w % 256;
      ModSplit(q, r, p);
    }
  }

  lemma ModSplit(q: nat, r: nat, p: nat)
    requires r < 256 && p > 0
    ensures (256 * q + r) % (256 * p) == 256 * (q % p) + r
  {
    var d, m := q / p, q % p;
    assert q == d * p + m;
    assert 256 * q + r == d * (256 * p) + (256 * m + r);
    assert 0 <= 256 * m + r < 256 * p;
    QuotientUnique(256 * q + r, d, 256 * m + r, 256 * p);
  }

  lemma {:induction false} LeBytesOfValue(bytes: seq<Byte>)
    ensures LeBytes(LeValue(bytes), |bytes|) == bytes
  {
    if bytes != [] {
      LeBytesOfValue(bytes[1..]);
      var v := LeValue(bytes[1..]);
      assert LeValue(bytes) == bytes[0] + 256 * v;
      assert LeValue(bytes) / 256 == v && LeValue(bytes) % 256 == bytes[0];
    }
  }

  lemma {:induction false} LeBytesPrefix(w: nat, n: nat, m: nat)
    requires m <= n
    ensures LeBytes(w, n)[..m] == LeBytes(w, m)
  {
    if m > 0 {
      LeBytesPrefix(w / 256, n - 1, m - 1);
      assert LeBytes(w, n)[..m] == [w % 256] + LeBytes(w / 256, n - 1)[..m - 1];
    }
  }

  lemma {:induction false} LeValueAppendZeros(bytes: seq<Byte>, zeros: seq<Byte>)
    requires forall k :: 0 <= k < |zeros| ==> zeros[k] == 0
    ensures LeValue(bytes + zeros) == LeValue(bytes)
    decreases |bytes| + |zeros|
  {
    if bytes != [] {
      LeValueAppendZeros(bytes[1..], zeros);
      assert (bytes + zeros)[1..] == bytes[1..] + zeros;
    } else if zeros != [] {
      assert bytes + zeros == zeros;
      LeValueAppendZeros([], zeros[1..]);
      assert [] + zeros[1..] == zeros[1..];
    }
  }

  lemma WordOfLanesOf(w: Word)
    ensures WordOf(LanesOf(w)) == w
  {
    hide LeValue, LeBytes, Pow256;
    LeRoundTrip(w, 8);
    Pow256Values();
  }

  lemma LanesOfWordOf(l: Lanes)
    ensures LanesOf(WordOf(l)) == l
  {
    LeBytesOfValue(l);
  }

  // Lane selection ------------------------------------------------------------

  /** Write enable of lane k for an access of this size at this offset in the word. */
  predicate LaneEnabled(size: Size, sel: Lane, k: Lane) {
    || (size == SIZE8 && sel == k)
    || (size == SIZE16 && sel / 2 == k / 2)
    || (size == SIZE32 && sel / 4 == k / 4)
    || size == SIZE64
  }

  /** The input byte that lane k receives from the plain-store multiplexer. */
  function StoreByte(size: Size, sel: Lane, k: Lane, input: Lanes): Byte {
    if size == SIZE8 && sel == k then input[0]
    else if size == SIZE16 && sel / 2 == k / 2 then input[k % 2]
    else if size == SIZE32 && sel / 4 == k / 4 then input[k % 4]
    else input[k]
  }

  function StoreLanes(size: Size, sel: Lane, input: Lanes): Lanes {
    seq(8, (k: int) requires 0 <= k < 8 => StoreByte(size, sel, k, input))
  }

  /** The output byte j of the selection multiplexer for the saved word. */
  function SelectByte(size: Size, sel: Lane, j: Lane, saved: Lanes): Byte {
    if size == SIZE64 then saved[j]
    else if size == SIZE32 && j < 4 then saved[sel / 4 * 4 + j]
    else if size == SIZE16 && j < 2 then saved[sel / 2 * 2 + j]
    else if size == SIZE8 && j < 1 then saved[sel]
    else 0
  }

  function SelectLanes(size: Size, sel: Lane, saved: Lanes): Lanes {
    seq(8, (j: int) requires 0 <= j < 8 => SelectByte(size, sel, j, saved))
  }

  /** Merge enabled lanes of new data into an old word, as a byte-enable RAM does. */
  function MergeLanes(old_: Lanes, data: Lanes, enable: seq<bool>): Lanes
    requires |enable| == 8
  {
    seq(8, (k: int) requires 0 <= k < 8 => if enable[k] then data[k] else old_[k])
  }

  function Enables(size: Size, sel: Lane): (e: seq<bool>)
    ensures |e| == 8
  {
    seq(8, (k: int) requires 0 <= k < 8 => LaneEnabled(size, sel, k))
  }

  /** Truncate to the access size and, if asked, replicate the sign bit above it. */
  function ByteMask(input: Word, size: Size, signExtend: bool): Word {
    if size == SIZE8 then
      input % TWO_8 + (if signExtend && input / 0x80 % 2 == 1 then TWO_64 - TWO_8 else 0)
    else if size == SIZE16 then
      input % TWO_16 + (if signExtend && input / 0x8000 % 2 == 1 then TWO_64 - TWO_16 else 0)
    else if size == SIZE32 then
      input % TWO_32 + (if signExtend && input / TWO_31 % 2 == 1 then TWO_64 - TWO_32 else 0)
    else
      input
  }

  // Memory as an array of words, and the flat byte memory it implements --------

  /** Word-organised memory over the 16-bit core address space, index = address / 8. */
  type Ram = s: seq<Lanes> | |s| == 0x2000 witness seq<Lanes>(0x2000, _ => ZERO_LANES)

  type Addr16 = x: int | 0 <= x < 0x1_0000

  function RamLoad(ram: Ram, a: Addr16, size: Size): Word {
    WordOf(SelectLanes(size, a % 8, ram[a / 8]))
  }

  function RamStore(ram: Ram, a: Addr16, size: Size, data: Word): Ram {
    ram[a / 8 := MergeLanes(ram[a / 8], StoreLanes(size, a % 8, LanesOf(data)), Enables(size, a % 8))]
  }

  /** The byte the flat memory holds at an address. */
  function ByteAt(ram: Ram, a: Addr16): Byte {
    ram[a / 8][a % 8]
  }

  predicate Aligned(a: Addr16, size: Size) {
    (size == SIZE16 ==> a % 2 == 0) && (size == SIZE32 ==> a % 4 == 0) && (size == SIZE64 ==> a % 8 == 0)
  }

  function BytesAt(ram: Ram, a: Addr16, n: nat): (bytes: seq<Byte>)
    requires a + n <= 0x1_0000
    ensures |bytes| == n
  {
    seq<Byte>(n, (k: int) requires 0 <= k < n => ByteAt(ram, a + k))
  }

  /** An address by its word and its byte in the word. */
  lemma EightParts(a: Addr16)
    ensures var q, r := a / 8, a % 8;
            a == 8 * q + r && q < 0x2000 && a % 2 == r % 2 && a % 4 == r % 4 && a / 2 == 4 * q + r / 2 && a / 4 == 2 * q + r / 4
  {
    var q, r := a / 8, a % 8;
    QuotientUnique(a, 4 * q + r / 2, r % 2, 2);
    QuotientUnique(a, 2 * q + r / 4, r % 4, 4);
  }

  lemma AlignedFits(a: Addr16, size: Size)
    requires Aligned(a, size)
    ensures a + Width(size) <= 0x1_0000
    ensures a / 8 * 8 <= a && a + Width(size) <= a / 8 * 8 + 8
  {
    EightParts(a);
    AlignedLane(size, a % 8);
  }

  predicate LaneAligned(size: Size, r: Lane) {
    (size == SIZE16 ==> r % 2 == 0) && (size == SIZE32 ==> r % 4 == 0) && (size == SIZE64 ==> r == 0)
  }

  lemma AlignedLane(size: Size, r: Lane)
    requires LaneAligned(size, r)
    ensures r + Width(size) <= 8
  {
  }

  /** The lanes of an aligned access, and the input byte each of them gets. */
  lemma AlignedLanes(size: Size, r: Lane, k: Lane, input: Lanes)
    requires LaneAligned(size, r)
    ensures r + Width(size) <= 8
    ensures LaneEnabled(size, r, k) <==> r <= k < r + Width(size)
    ensures r <= k < r + Width(size) ==> StoreByte(size, r, k, input) == input[k - r]
  {
  }

  lemma SelectedLanes(size: Size, r: Lane, j: Lane, saved: Lanes)
    requires LaneAligned(size, r)
    ensures r + Width(size) <= 8
    ensures SelectByte(size, r, j, saved) == if j < Width(size) then saved[r + j] else 0
  {
  }

  lemma LoadSelects(ram: Ram, a: Addr16, size: Size)
    requires Aligned(a, size)
    ensures a + Width(size) <= 0x1_0000
    ensures SelectLanes(size, a % 8, ram[a / 8]) == BytesAt(ram, a, Width(size)) + seq(8 - Width(size), _ => 0)
  {
    EightParts(a);
    AlignedFits(a, size);
    var n := Width(size);
    var got, want := SelectLanes(size, a % 8, ram[a / 8]), BytesAt(ram, a, n) + seq(8 - n, _ => 0);
    assert LaneAligned(size, a % 8);
    hide SelectByte, LaneAligned, Aligned, Width;
    forall j: int | 0 <= j < 8
      ensures got[j] == want[j]
    {
      SelectedLanes(size, a % 8, j, ram[a / 8]);
      assert got[j] == SelectByte(size, a % 8, j, ram[a / 8]);
      if j < n {
        QuotientUnique(a + j, a / 8, a % 8 + j, 8);
        assert want[j] == BytesAt(ram, a, n)[j] == ByteAt(ram, a + j);
      } else {
        assert want[j] == 0;
      }
    }
  }

  /** A naturally aligned load returns the little-endian value of the flat bytes, and the mask
      turns it into the zero- or sign-extended value of that many bytes. */
  lemma AlignedLoadIsLittleEndian(ram: Ram, a: Addr16, size: Size, signExtend: bool)
    requires Aligned(a, size)
    ensures a + Width(size) <= 0x1_0000
    ensures var v := LeValue(BytesAt(ram, a, Width(size)));
            && v < Pow256(Width(size))
            && RamLoad(ram, a, size) == v
            && ByteMask(RamLoad(ram, a, size), size, signExtend)
               == if signExtend && 2 * v >= Pow256(Width(size)) then Wrap(v - Pow256(Width(size))) else v
  {
    LoadSelects(ram, a, size);
    var n := Width(size);
    var bytes := BytesAt(ram, a, n);
    LeValueAppendZeros(bytes, seq(8 - n, _ => 0));
    LeValueBound(bytes);
    Pow256Values();
    hide LeValue, SelectLanes, BytesAt, Pow256, Wrap, ByteMask;
    MaskOfValue(LeValue(bytes), size, signExtend);
  }

  lemma MaskOfValue(v: Word, size: Size, signExtend: bool)
    requires v < Pow256(Width(size))
    ensures ByteMask(v, size, signExtend)
            == if signExtend && 2 * v >= Pow256(Width(size)) then Wrap(v - Pow256(Width(size))) else v
  {
    Pow256Values();
    hide Pow256;
    var half := if size == SIZE8 then 0x80 else if size == SIZE16 then 0x8000 else TWO_31;
    if size != SIZE64 {
      TopHalf(v, half);
    }
  }

  lemma TopHalf(v: nat, half: nat)
    requires v < 2 * half
    ensures v / half % 2 == 1 <==> v >= half
  {
    if v >= half {
      QuotientUnique(v, 1, v - half, half);
    } else {
      QuotientUnique(v, 0, v, half);
    }
  }

  /** A naturally aligned store writes exactly its own bytes, little-endian, and no others. */
  lemma AlignedStoreWritesBytes(ram: Ram, a: Addr16, size: Size, data: Word, b: Addr16)
    requires Aligned(a, size)
    ensures ByteAt(RamStore(ram, a, size, data), b)
            == if a <= b < a + Width(size) then LeBytes(data, Width(size))[b - a] else ByteAt(ram, b)
  {
    EightParts(a);
    EightParts(b);
    var r, k, n := a % 8, b % 8, Width(size);
    AlignedLanes(size, r, k, LanesOf(data));
    LeBytesPrefix(data, 8, n);
    hide LaneEnabled, StoreByte, Aligned, Width, LeBytes;
    if b / 8 == a / 8 {
      assert b - a == k - r;
      if a <= b < a + n {
        assert LeBytes(data, 8)[..n][b - a] == LeBytes(data, 8)[b - a];
      }
    }
  }

  function RoundDown(a: Addr16, size: Size): (down: Addr16)
    ensures down <= a
  {
    if size == SIZE8 then a else if size == SIZE16 then a / 2 * 2 else if size == SIZE32 then a / 4 * 4 else a / 8 * 8
  }

  lemma RoundDownSelects(a: Addr16, size: Size)
    ensures var down := RoundDown(a, size);
            && Aligned(down, size) && a - down < Width(size)
            && down / 8 == a / 8
            && (size == SIZE8 ==> down % 8 == a % 8)
            && (size == SIZE16 ==> down % 8 / 2 == a % 8 / 2)
            && (size == SIZE32 ==> down % 8 / 4 == a % 8 / 4)
  {
    var q, r := a / 8, a % 8;
    EightParts(a);
    EightParts(RoundDown(a, size));
    if size == SIZE16 {
      QuotientUnique(RoundDown(a, size), q, r / 2 * 2, 8);
    } else if size == SIZE32 {
      QuotientUnique(RoundDown(a, size), q, r / 4 * 4, 8);
    } else if size == SIZE64 {
      QuotientUnique(RoundDown(a, size), q, 0, 8);
    }
  }

  /** The low address bits below the access size are ignored: a misaligned access is an access at
      the address rounded down. */
  lemma MisalignedRoundsDown(ram: Ram, a: Addr16, size: Size, data: Word)
    ensures var down := RoundDown(a, size);
            && Aligned(down, size)
            && RamLoad(ram, a, size) == RamLoad(ram, down, size)
            && RamStore(ram, a, size, data) == RamStore(ram, down, size, data)
  {
    var down := RoundDown(a, size);
    RoundDownSelects(a, size);
    assert SelectLanes(size, a % 8, ram[a / 8]) == SelectLanes(size, down % 8, ram[a / 8]);
    assert StoreLanes(size, a % 8, LanesOf(data)) == StoreLanes(size, down % 8, LanesOf(data));
    assert Enables(size, a % 8) == Enables(size, down % 8);
  }

  /** A memory of zeros with a one in the byte at an address. */
  function OneAt(b: Addr16): Ram {
    var zeros := seq<Lanes>(0x2000, _ => ZERO_LANES);
    zeros[b / 8 := ZERO_LANES[b % 8 := 1]]
  }

  lemma ByteOfOneAt(b: Addr16, a: Addr16)
    ensures ByteAt(OneAt(b), a) == if a == b then 1 else 0
  {
  }

  /** Rounded down, the access sees the one; its own bytes are all zero. */
  lemma MisalignedMisses(a: Addr16, size: Size)
    requires !Aligned(a, size) && a + Width(size) <= 0x1_0000
    ensures var ram := OneAt(RoundDown(a, size));
            RamLoad(ram, a, size) == 1 && LeValue(BytesAt(ram, a, Width(size))) == 0
  {
    var down := RoundDown(a, size);
    RoundDownSelects(a, size);
    assert down < a;
    hide Aligned, RoundDown, RamLoad, BytesAt, LeValue, OneAt, Width;
    MisalignedRoundsDown(OneAt(down), a, size, 0);
    AlignedLoadIsLittleEndian(OneAt(down), down, size, false);
    OneThere(down, down, Width(size));
    OneThere(down, a, Width(size));
  }

  /** The value of n bytes of that memory. */
  lemma OneThere(b: Addr16, a: Addr16, n: nat)
    requires b <= a && 0 < n && a + n <= 0x1_0000
    ensures LeValue(BytesAt(OneAt(b), a, n)) == if a == b then 1 else 0
  {
    var bytes := BytesAt(OneAt(b), a, n);
    forall k | 0 <= k < n
      ensures bytes[k] == if k == 0 && a == b then 1 else 0
    {
      ByteOfOneAt(b, a + k);
    }
    hide BytesAt, LeValue, OneAt;
    if a == b {
      OneAndZeros(bytes);
    } else {
      Zeros(bytes);
    }
  }

  lemma OneAndZeros(bytes: seq<Byte>)
    requires bytes != [] && forall k :: 0 <= k < |bytes| ==> bytes[k] == if k == 0 then 1 else 0
    ensures LeValue(bytes) == 1
  {
    Zeros(bytes[1..]);
  }

  lemma Zeros(bytes: seq<Byte>)
    requires forall k :: 0 <= k < |bytes| ==> bytes[k] == 0
    ensures LeValue(bytes) == 0
  {
    LeValueAppendZeros([], bytes);
    assert [] + bytes == bytes;
  }

  /** A load is the little-endian value of the bytes at its own address, in every memory, exactly
      when the address is aligned. */
  lemma FlatLoadExactlyWhenAligned(a: Addr16, size: Size)
    requires a + Width(size) <= 0x1_0000
    ensures Aligned(a, size) <==> forall ram: Ram :: RamLoad(ram, a, size) == LeValue(BytesAt(ram, a, Width(size)))
  {
    if Aligned(a, size) {
      forall ram: Ram
        ensures RamLoad(ram, a, size) == LeValue(BytesAt(ram, a, Width(size)))
      {
        AlignedLoadIsLittleEndian(ram, a, size, false);
      }
    } else {
      MisalignedMisses(a, size);
      var ram := OneAt(RoundDown(a, size));
      assert RamLoad(ram, a, size) != LeValue(BytesAt(ram, a, Width(size)));
    }
  }

  // Whole access sequences -----------------------------------------------------

  datatype Access = Load(addr: Addr16, size: Size, signExtend: bool)
                  | Store(addr: Addr16, size: Size, data: Word)
  {
    predicate IsAligned() { Aligned(addr, size) }
  }

  /** Flat byte memory. */
  type Flat = s: seq<Byte> | |s| == 0x1_0000 witness seq(0x1_0000, _ => 0)

  function FlatOf(ram: Ram): Flat {
    seq(0x1_0000, (a: int) requires 0 <= a < 0x1_0000 => ByteAt(ram, a))
  }

  function RunRam(ram: Ram, ops: seq<Access>): seq<Word>
    decreases |ops|
  {
    if ops == [] then []
    else match ops[0]
      case Load(a, size, sx) => [ByteMask(RamLoad(ram, a, size), size, sx)] + RunRam(ram, ops[1..])
      case Store(a, size, data) => RunRam(RamStore(ram, a, size, data), ops[1..])
  }

  function ExtendValue(v: nat, n: nat, signExtend: bool): Word
    requires n <= 8 && v < Pow256(n) && Pow256(n) <= TWO_64
  {
    if signExtend && 2 * v >= Pow256(n) then v - Pow256(n) + TWO_64 else v
  }

  function FlatStore(flat: Flat, a: Addr16, n: nat, data: Word): Flat
    requires a + n <= 0x1_0000
  {
    flat[..a] + LeBytes(data, n) + flat[a + n..]
  }

  function RunFlat(flat: Flat, ops: seq<Access>): seq<Word>
    requires forall k :: 0 <= k < |ops| ==> ops[k].IsAligned()
    decreases |ops|
  {
    if ops == [] then []
    else
      assert ops[0].IsAligned();
      AlignedFits(ops[0].addr, ops[0].size);
      match ops[0]
      case Load(a, size, sx) =>
        var bytes := flat[a..a + Width(size)];
        LeValueBound(bytes);
        Pow256Values();
        [ExtendValue(LeValue(bytes), Width(size), sx)] + RunFlat(flat, ops[1..])
      case Store(a, size, data) => RunFlat(FlatStore(flat, a, Width(size), data), ops[1..])
  }

  lemma FlatOfStore(ram: Ram, a: Addr16, size: Size, data: Word)
    requires Aligned(a, size)
    ensures a + Width(size) <= 0x1_0000
    ensures FlatOf(RamStore(ram, a, size, data)) == FlatStore(FlatOf(ram), a, Width(size), data)
  {
    AlignedFits(a, size);
    var got, want := FlatOf(RamStore(ram, a, size, data)), FlatStore(FlatOf(ram), a, Width(size), data);
    forall b: int | 0 <= b < 0x1_0000
      ensures got[b] == want[b]
    {
      AlignedStoreWritesBytes(ram, a, size, data, b);
    }
  }

  lemma FlatLoad(ram: Ram, a: Addr16, size: Size, signExtend: bool)
    requires Aligned(a, size)
    ensures a + Width(size) <= 0x1_0000
    ensures var bytes := FlatOf(ram)[a..a + Width(size)];
            && LeValue(bytes) < Pow256(Width(size)) <= TWO_64
            && ByteMask(RamLoad(ram, a, size), size, signExtend) == ExtendValue(LeValue(bytes), Width(size), signExtend)
  {
    AlignedLoadIsLittleEndian(ram, a, size, signExtend);
    assert FlatOf(ram)[a..a + Width(size)] == BytesAt(ram, a, Width(size));
    hide LeValue, BytesAt, FlatOf, RamLoad, ByteMask, Pow256, Aligned;
    Pow256Values();
    assert Pow256(Width(size)) <= TWO_64;
  }

  /** Over every sequence of aligned accesses the byte-lane memory and the flat byte memory
      return the same loaded values. */
  lemma {:induction false} LanesRefineFlatMemory(ram: Ram, ops: seq<Access>)
    requires forall k :: 0 <= k < |ops| ==> ops[k].IsAligned()
    ensures RunRam(ram, ops) == RunFlat(FlatOf(ram), ops)
    decreases |ops|
  {
    hide RamLoad, RamStore, ByteMask, ExtendValue, LeValue, Pow256, FlatStore, FlatOf, Aligned, Width;
    if ops != [] {
      assert ops[0].IsAligned();
      match ops[0]
      case Load(a, size, sx) =>
        FlatLoad(ram, a, size, sx);
        LanesRefineFlatMemory(ram, ops[1..]);
      case Store(a, size, data) =>
        FlatOfStore(ram, a, size, data);
        LanesRefineFlatMemory(RamStore(ram, a, size, data), ops[1..]);
    }
  }
}
