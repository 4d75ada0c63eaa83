/**
 Big numbers in devicetree properties: of_read_number (include/fdt_support.h), the byte-order macros
 (include/compiler.h) and fdt_property_u64 (include/libfdt.h), on hosts of either byte order. Property
 values are big-endian (section 2.3.5 of the Devicetree Specification).
 */
module FdtCells {
  import opened Words

  type Byte = x: nat | x < 256

  datatype Host = LittleEndian | BigEndian

  const TWO32 := 0x1_0000_0000
  const TWO64 := 0x1_0000_0000_0000_0000

  // ----- The value of bytes in memory -----

  function BigValue(bytes: seq<Byte>): nat {
    if bytes == [] then 0 else BigValue(bytes[..|bytes| - 1]) * 256 + bytes[|bytes| - 1]
  }

  function LittleValue(bytes: seq<Byte>): nat {
    if bytes == [] then 0 else bytes[0] + 256 * LittleValue(bytes[1..])
  }

  /** What the host reads from these bytes as one word. */
  function Load(host: Host, bytes: seq<Byte>): nat {
    if host == BigEndian then BigValue(bytes) else LittleValue(bytes)
  }

  // ----- The macros -----

  /** uswap_32 */
  function Uswap32(x: nat): nat {
    Or(Or(Or(Shr(And(x, Shl(0xff, 24)), 24), Shr(And(x, Shl(0xff, 16)), 8)), Shl(And(x, Shl(0xff, 8)), 8)),
       Shl(And(x, Shl(0xff, 0)), 24))
  }

  /** uswap_64 */
  function Uswap64(x: nat): nat {
    Or(Or(Or(Or(Or(Or(Or(Shr(And(x, Shl(0xff, 56)), 56), Shr(And(x, Shl(0xff, 48)), 40)),
                      Shr(And(x, Shl(0xff, 40)), 24)), Shr(And(x, Shl(0xff, 32)), 8)),
                Shl(And(x, Shl(0xff, 24)), 8)), Shl(And(x, Shl(0xff, 16)), 24)),
          Shl(And(x, Shl(0xff, 8)), 40)), Shl(And(x, Shl(0xff, 0)), 56))
  }

  /** fdt32_to_cpu, which is be32_to_cpu */
  function Fdt32ToCpu(host: Host, x: nat): nat {
    if host == LittleEndian then Uswap32(x) else x
  }

  /** cpu_to_fdt64, which is cpu_to_be64 */
  function CpuToFdt64(host: Host, x: nat): nat {
    if host == LittleEndian then Uswap64(x) else x
  }

  // ----- Swapping reverses bytes -----

  function ByteOf(x: nat, j: nat): nat {
    Low(Shr(x, 8 * j), 8)
  }

  /** The OR of the first i terms of an n-byte swap: byte n - 1 - t goes to position t. */
  function Gathered(x: nat, n: nat, i: nat): nat
    requires i <= n
  {
    if i == 0 then 0 else Or(Gathered(x, n, i - 1), Shl(ByteOf(x, n - i), 8 * (i - 1)))
  }

  lemma {:induction false} ShrShl(x: nat, k: nat, j: nat)
    ensures Shr(Shl(x, k + j), j) == Shl(x, k)
  {
    if j > 0 { ShrShl(x, k, j - 1); }
  }

  lemma {:induction false} ShlShl(x: nat, k: nat, j: nat)
    ensures Shl(Shl(x, k), j) == Shl(x, k + j)
  {
    if j > 0 { ShlShl(x, k, j - 1); }
  }

  /** One term of the macros: byte j of x moves to byte i. */
  lemma {:induction false} MovesByte(x: nat, j: nat, i: nat)
    ensures j >= i ==> Shr(And(x, Shl(0xff, 8 * j)), 8 * (j - i)) == Shl(ByteOf(x, j), 8 * i)
    ensures j <= i ==> Shl(And(x, Shl(0xff, 8 * j)), 8 * (i - j)) == Shl(ByteOf(x, j), 8 * i)
    ensures ByteOf(x, j) < 256
  {
    Pow2Known();
    FieldMask(x, 8, 8 * j);
    Split(Shr(x, 8 * j), 8);
    if j >= i { ShrShl(ByteOf(x, j), 8 * i, 8 * (j - i)); }
    if j <= i { ShlShl(ByteOf(x, j), 8 * j, 8 * (i - j)); }
  }

  /** The next term of the macros adds byte j above the bytes gathered so far. */
  lemma {:induction false} AddsByte(low: nat, b: nat, i: nat)
    requires low < Pow2(8 * i) && b < 256
    ensures Or(low, Shl(b, 8 * i)) == low + b * Pow2(8 * i) < Pow2(8 * (i + 1))
  {
    OrDisjoint(b, low, 8 * i);
    ShlIs(b, 8 * i);
    NextByte(i);
    Room(low, b, Pow2(8 * i));
  }

  lemma {:induction false} NextByte(i: nat)
    ensures Pow2(8 * (i + 1)) == 256 * Pow2(8 * i)
  {
    Pow2Known();
    Pow2Add(8, 8 * i);
    assert 8 * (i + 1) == 8 + 8 * i;
  }

  lemma {:induction false} Room(low: nat, b: nat, p: nat)
    requires low < p && b < 256
    ensures low + b * p < 256 * p
  {
    assert b * p <= 255 * p;
  }

  lemma {:induction false} BigHead(bytes: seq<Byte>)
    requires bytes != []
    ensures BigValue(bytes) == bytes[0] * Pow2(8 * (|bytes| - 1)) + BigValue(bytes[1..])
  {
    var n := |bytes| - 1;
    if n == 0 {
      assert bytes[..0] == [] && bytes[1..] == [];
    } else {
      var p, middle := Pow2(8 * (n - 1)), bytes[..n][1..];
      BigHead(bytes[..n]);
      assert middle == bytes[1..][..n - 1];
      NextByte(n - 1);
      ShiftByte(bytes[0], p, BigValue(middle));
    }
  }

  lemma {:induction false} ShiftByte(a: nat, p: nat, b: nat)
    ensures (a * p + b) * 256 == a * (p * 256) + b * 256
  {}

  lemma {:induction false} ByteOfLittle(bytes: seq<Byte>, j: nat)
    requires j < |bytes|
    ensures ByteOf(LittleValue(bytes), j) == bytes[j]
  {
    var v, rest := LittleValue(bytes), LittleValue(bytes[1..]);
    Pow2Known();
    ShlIs(rest, 8);
    Join(rest, bytes[0], 8);
    if j > 0 {
      ByteOfLittle(bytes[1..], j - 1);
      ShrShr(v, 8, 8 * (j - 1));
    }
  }

  lemma {:induction false} ShrShr(x: nat, k: nat, j: nat)
    ensures Shr(Shr(x, k), j) == Shr(x, k + j)
  {
    if k > 0 { ShrShr(x / 2, k - 1, j); }
  }

  /** The terms of a byte swap gather to the big-endian value of the bytes that hold x little-endian. */
  lemma {:induction false} GatheredIsBig(bytes: seq<Byte>, i: nat)
    requires i <= |bytes|
    ensures Gathered(LittleValue(bytes), |bytes|, i) == BigValue(bytes[|bytes| - i..]) < Pow2(8 * i)
  {
    if i > 0 {
      var n := |bytes|;
      GatheredIsBig(bytes, i - 1);
      ByteOfLittle(bytes, n - i);
      AddsByte(BigValue(bytes[n - (i - 1)..]), bytes[n - i], i - 1);
      BigHead(bytes[n - i..]);
      assert bytes[n - i..][1..] == bytes[n - (i - 1)..];
    }
  }

  /** The OR with the next term in place. */
  lemma {:induction false} GatherNext(x: nat, n: nat, i: nat, term: nat)
    requires i < n && term == Shl(ByteOf(x, n - 1 - i), 8 * i)
    ensures Gathered(x, n, i + 1) == Or(Gathered(x, n, i), term)
  {}

  lemma {:induction false} HighHalfGathers(x: nat)
    ensures Or(Shr(And(x, Shl(0xff, 24)), 24), Shr(And(x, Shl(0xff, 16)), 8)) == Gathered(x, 4, 2)
  {
    MovesByte(x, 3, 0);
    GatherNext(x, 4, 0, Shl(ByteOf(x, 3), 0));
    MovesByte(x, 2, 1);
    GatherNext(x, 4, 1, Shl(ByteOf(x, 2), 8));
  }

  lemma {:induction false} Uswap32Gathers(x: nat)
    ensures Uswap32(x) == Gathered(x, 4, 4)
  {
    HighHalfGathers(x);
    MovesByte(x, 1, 2);
    GatherNext(x, 4, 2, Shl(ByteOf(x, 1), 16));
    MovesByte(x, 0, 3);
    GatherNext(x, 4, 3, Shl(ByteOf(x, 0), 24));
  }

  lemma {:induction false} HighBytesGather(x: nat)
    ensures Or(Or(Or(Shr(And(x, Shl(0xff, 56)), 56), Shr(And(x, Shl(0xff, 48)), 40)),
                  Shr(And(x, Shl(0xff, 40)), 24)), Shr(And(x, Shl(0xff, 32)), 8)) == Gathered(x, 8, 4)
  {
    MovesByte(x, 7, 0);
    GatherNext(x, 8, 0, Shl(ByteOf(x, 7), 0));
    MovesByte(x, 6, 1);
    GatherNext(x, 8, 1, Shl(ByteOf(x, 6), 8));
    MovesByte(x, 5, 2);
    GatherNext(x, 8, 2, Shl(ByteOf(x, 5), 16));
    MovesByte(x, 4, 3);
    GatherNext(x, 8, 3, Shl(ByteOf(x, 4), 24));
  }

  lemma {:induction false} LowBytesGather(x: nat, high: nat)
    requires high == Gathered(x, 8, 4)
    ensures Or(Or(Or(Or(high, Shl(And(x, Shl(0xff, 24)), 8)), Shl(And(x, Shl(0xff, 16)), 24)),
                  Shl(And(x, Shl(0xff, 8)), 40)), Shl(And(x, Shl(0xff, 0)), 56)) == Gathered(x, 8, 8)
  {
    MovesByte(x, 3, 4);
    GatherNext(x, 8, 4, Shl(ByteOf(x, 3), 32));
    MovesByte(x, 2, 5);
    GatherNext(x, 8, 5, Shl(ByteOf(x, 2), 40));
    MovesByte(x, 1, 6);
    GatherNext(x, 8, 6, Shl(ByteOf(x, 1), 48));
    MovesByte(x, 0, 7);
    GatherNext(x, 8, 7, Shl(ByteOf(x, 0), 56));
  }

  lemma {:induction false} Uswap64Gathers(x: nat)
    ensures Uswap64(x) == Gathered(x, 8, 8)
  {
    HighBytesGather(x);
    LowBytesGather(x, Gathered(x, 8, 4));
  }

  lemma {:induction false} GatheredAll(bytes: seq<Byte>)
    ensures Gathered(LittleValue(bytes), |bytes|, |bytes|) == BigValue(bytes) < Pow2(8 * |bytes|)
  {
    GatheredIsBig(bytes, |bytes|);
    assert bytes[|bytes| - |bytes|..] == bytes;
  }

  lemma Pow2Of64()
    ensures Pow2(64) == TWO64
  {
    Pow2Known();
    Pow2Add(32, 32);
  }

  /** On either host fdt32_to_cpu of the word loaded from four bytes is their big-endian value. */
  lemma {:induction false} Swap32ReadsBig(host: Host, bytes: seq<Byte>)
    requires |bytes| == 4
    ensures Fdt32ToCpu(host, Load(host, bytes)) == BigValue(bytes) < TWO32
  {
    Pow2Known();
    GatheredAll(bytes);
    Uswap32Gathers(LittleValue(bytes));
  }

  lemma {:induction false} Swap64ReadsBig(host: Host, bytes: seq<Byte>)
    requires |bytes| == 8
    ensures CpuToFdt64(host, Load(host, bytes)) == BigValue(bytes) < TWO64
  {
    Pow2Of64();
    GatheredAll(bytes);
    Uswap64Gathers(LittleValue(bytes));
  }

  // ----- of_read_number -----

  /** The cells of a property as the host loads them. */
  method LoadCell(host: Host, mem: array<Byte>, at: nat) returns (cell: nat)
    requires at + 4 <= mem.Length
    ensures cell == Load(host, mem[at..at + 4])
  {
    cell := Load(host, mem[at..at + 4]);
  }

  lemma {:induction false} BigAppend(high: seq<Byte>, low: seq<Byte>)
    ensures BigValue(high + low) == BigValue(high) * Pow2(8 * |low|) + BigValue(low)
  {
    if low == [] {
      assert high + low == high;
    } else {
      var n := |low| - 1;
      BigAppend(high, low[..n]);
      assert (high + low)[..|high + low| - 1] == high + low[..n];
      NextByte(n);
      ShiftByte(BigValue(high), Pow2(8 * n), BigValue(low[..n]));
    }
  }

  /** r << 32 in 64 bits keeps the low half of r. */
  lemma {:induction false} ShiftHalf(r: nat)
    ensures Low(Shl(r, 32), 64) == r % TWO32 * TWO32 == Shl(r % TWO32, 32)
  {
    Pow2Known();
    Pow2Of64();
    ShlIs(r, 32);
    ShrIs(r * TWO32, 64);
    DivisionIs(r * TWO32, TWO64, r / TWO32, r % TWO32 * TWO32);
    ShlIs(r % TWO32, 32);
  }

  lemma {:induction false} NextValue(v: nat, c: nat)
    requires c < TWO32
    ensures (v * TWO32 + c) % TWO64 == v % TWO64 % TWO32 * TWO32 + c
  {
    DivisionIs(v, TWO64, v / TWO64, v % TWO64);
    DivisionIs(v % TWO64, TWO32, v % TWO64 / TWO32, v % TWO64 % TWO32);
    DivisionIs(v * TWO32 + c, TWO64, v / TWO64 * TWO32 + v % TWO64 / TWO32, v % TWO64 % TWO32 * TWO32 + c);
  }

  /** (r << 32) | c in 64 bits, for r reduced to 64 bits and a 32-bit c. */
  lemma {:induction false} NextCell(v: nat, r: nat, c: nat)
    requires r == v % TWO64 && c < TWO32
    ensures Or(Low(Shl(r, 32), 64), c) == (v * TWO32 + c) % TWO64
  {
    ShiftHalf(r);
    Pow2Known();
    OrDisjoint(r % TWO32, c, 32);
    NextValue(v, c);
  }

  lemma {:induction false} AddCell(host: Host, high: seq<Byte>, low: seq<Byte>, r: nat)
    requires |low| == 4 && r == BigValue(high) % TWO64
    ensures Or(Low(Shl(r, 32), 64), Fdt32ToCpu(host, Load(host, low))) == BigValue(high + low) % TWO64
  {
    Swap32ReadsBig(host, low);
    BigAppend(high, low);
    Pow2Known();
    NextCell(BigValue(high), r, BigValue(low));
  }

  /** of_read_number reads any number of cells as their big-endian value modulo 2^64. */
  method OfReadNumber(host: Host, mem: array<Byte>, size: nat) returns (r: nat)
    requires 4 * size <= mem.Length
    ensures r == BigValue(mem[..4 * size]) % TWO64
    ensures size <= 2 ==> r == BigValue(mem[..4 * size])
  {
    r := 0;
    var left, at := size, 0;
    ghost var all := mem[..];
    while left > 0
      invariant 0 <= left <= size && at == 4 * (size - left)
      invariant r == BigValue(all[..at]) % TWO64
    {
      var cell := LoadCell(host, mem, at);
      assert mem[at..at + 4] == all[at..at + 4];
      AddCell(host, all[..at], all[at..at + 4], r);
      assert all[..at] + all[at..at + 4] == all[..at + 4];
      r := Or(Low(Shl(r, 32), 64), Fdt32ToCpu(host, cell));
      at := at + 4;
      left := left - 1;
    }
    assert mem[..4 * size] == all[..4 * size];
    if size <= 2 {
      BigBelow(mem[..4 * size]);
    }
  }

  lemma {:induction false} BigBelow(bytes: seq<Byte>)
    requires |bytes| <= 8
    ensures BigValue(bytes) < TWO64
  {
    GatheredAll(bytes);
    Pow2Of64();
    Pow2Add(8 * |bytes|, 64 - 8 * |bytes|);
    AtLeast(Pow2(8 * |bytes|), Pow2(64 - 8 * |bytes|));
  }

  lemma {:induction false} AtLeast(p: nat, q: nat)
    requires q >= 1
    ensures p * q >= p
  {}

  // ----- Writing and reading back -----

  function Digits(x: nat, n: nat): (ds: seq<Byte>)
    ensures |ds| == n
  {
    if n == 0 then [] else [x % 256] + Digits(x / 256, n - 1)
  }

  lemma {:induction false} DigitsHold(x: nat, n: nat)
    requires x < Pow2(8 * n)
    ensures LittleValue(Digits(x, n)) == x
  {
    if n > 0 {
      NextByte(n - 1);
      DigitsHold(x / 256, n - 1);
    }
  }

  function Backwards(ds: seq<Byte>): (r: seq<Byte>)
    ensures |r| == |ds|
  {
    if ds == [] then [] else Backwards(ds[1..]) + [ds[0]]
  }

  lemma {:induction false} BackwardsValues(ds: seq<Byte>)
    ensures BigValue(Backwards(ds)) == LittleValue(ds)
    ensures LittleValue(Backwards(ds)) == BigValue(ds)
  {
    if ds != [] {
      BackwardsValues(ds[1..]);
      var r := Backwards(ds[1..]);
      assert (r + [ds[0]])[..|r|] == r;
      BigHead(ds);
      LittleSnoc(r, ds[0]);
    }
  }

  lemma {:induction false} LittleSnoc(s: seq<Byte>, b: Byte)
    ensures LittleValue(s + [b]) == LittleValue(s) + b * Pow2(8 * |s|)
  {
    if s != [] {
      LittleSnoc(s[1..], b);
      assert (s + [b])[1..] == s[1..] + [b];
      NextByte(|s| - 1);
      ShiftByte(b, Pow2(8 * (|s| - 1)), LittleValue(s[1..]));
    }
  }

  lemma {:induction false} UswapTwice(x: nat)
    requires x < TWO64
    ensures Uswap64(Uswap64(x)) == x
  {
    var ds := Digits(x, 8);
    Pow2Of64();
    DigitsHold(x, 8);
    Swap64ReadsBig(LittleEndian, ds);
    BackwardsValues(ds);
    Swap64ReadsBig(LittleEndian, Backwards(ds));
  }

  lemma {:induction false} LoadBelow(host: Host, bytes: seq<Byte>)
    requires |bytes| == 8
    ensures Load(host, bytes) < TWO64
  {
    BackwardsValues(bytes);
    BigBelow(bytes);
    BigBelow(Backwards(bytes));
  }

  /** Eight bytes are what a host of either order stores for cpu_to_fdt64 of v, as fdt_property_u64 does, exactly
      when they are v big-endian. */
  lemma {:induction false} PropertyRoundTrip(host: Host, v: nat, bytes: seq<Byte>)
    requires v < TWO64 && |bytes| == 8
    ensures Load(host, bytes) == CpuToFdt64(host, v) <==> BigValue(bytes) == v
  {
    Swap64ReadsBig(host, bytes);
    LoadBelow(host, bytes);
    UswapTwice(v);
    UswapTwice(Load(host, bytes));
  }

  /** The bytes a host stores for a word */
  function WordBytes(host: Host, x: nat): (bytes: seq<Byte>)
    ensures |bytes| == 8
  {
    BackwardsLength(Digits(x, 8));
    if host == BigEndian then Backwards(Digits(x, 8)) else Digits(x, 8)
  }

  lemma {:induction false} BackwardsLength(ds: seq<Byte>)
    ensures |Backwards(ds)| == |ds|
  {
    if ds != [] { BackwardsLength(ds[1..]); }
  }

  lemma {:induction false} WordLoads(host: Host, x: nat)
    requires x < TWO64
    ensures Load(host, WordBytes(host, x)) == x
  {
    Pow2Of64();
    DigitsHold(x, 8);
    BackwardsValues(Digits(x, 8));
  }

  lemma {:induction false} FdtWordBelow(host: Host, v: nat)
    requires v < TWO64
    ensures CpuToFdt64(host, v) < TWO64
  {
    var big := WordBytes(BigEndian, v);
    WordLoads(BigEndian, v);
    PropertyRoundTrip(host, v, big);
    LoadBelow(host, big);
  }

  lemma {:induction false} StoredIsBig(host: Host, v: nat)
    requires v < TWO64
    ensures BigValue(WordBytes(host, CpuToFdt64(host, v))) == v
  {
    FdtWordBelow(host, v);
    WordLoads(host, CpuToFdt64(host, v));
    PropertyRoundTrip(host, v, WordBytes(host, CpuToFdt64(host, v)));
  }

  method CopyBytes(property: array<Byte>, bytes: seq<Byte>)
    requires property.Length >= 8 && |bytes| == 8
    modifies property
    ensures property[..8] == bytes && property[8..] == old(property[8..])
  {
    forall i | 0 <= i < 8 { property[i] := bytes[i]; }
  }

  /** What fdt_property_u64 puts into a property */
  method PropertyU64(host: Host, property: array<Byte>, v: nat)
    requires v < TWO64 && property.Length >= 8
    modifies property
    ensures BigValue(property[..8]) == v && property[8..] == old(property[8..])
  {
    StoredIsBig(host, v);
    CopyBytes(property, WordBytes(host, CpuToFdt64(host, v)));
  }

  /** The value that fdt_property_u64 stores comes back when of_read_number reads its two cells, on a host of either
      order. */
  method StoreAndRead(host: Host, property: array<Byte>, v: nat) returns (r: nat)
    requires v < TWO64 && property.Length >= 8
    modifies property
    ensures r == v
  {
    PropertyU64(host, property, v);
    r := OfReadNumber(host, property, 2);
  }
}
