/** Address allocation from the rows of a database (console/backend/utils/crypto.js). */
module VipRows {
  import opened Results
  import opened Text
  import Vip

  /** A row's columns; either may be null. */
  datatype Row = Row(ipv4: Option<string>, ipv6: Option<string>)

  datatype Address = Address(ipv4: string, ipv6: string)

  /** What trim does to an IPv4 column, and trim and toLowerCase to an IPv6 one, whatever that is. */
  datatype Cleaning = Cleaning(ipv4: string -> string, ipv6: string -> string)

  const LIMIT: nat := 4_194_300
  const USABLE: nat := 4_161_533
  const GUARANTEED: nat := 2_080_766

  // ---- offsets and their texts ----------------------------------------------------------------

  predicate UsableOffset(o: nat) {
    1 <= o < LIMIT && o % 256 != 0 && o % 256 != 255
  }

  function Ipv4Text(o2: nat, o3: nat, o4: nat): string {
    "100." + Decimal(o2) + "." + Decimal(o3) + "." + Decimal(o4)
  }

  /** The text of the address 100.64.0.0 + o. */
  function Ipv4Of(o: nat): string
    requires o < LIMIT
  {
    Vip.DottedQuad(0x6440_0000 + o)
  }

  function Ipv6Of(o: nat): string {
    "fd7a:115c:a1e0::" + Hex(o)
  }

  /** The template writes the text of that address. */
  lemma TemplateWritesAddress(o: nat)
    requires o < LIMIT
    ensures Ipv4Text(64 + o / 65536, o % 65536 / 256, o % 256) == Ipv4Of(o)
  {
    Quarters(o);
    assert Digits(100, Dec) == Digits(10, Dec) + ['0'];
    assert Digits(10, Dec) == Digits(1, Dec) + ['0'];
    assert Decimal(100) + "." == "100.";
  }

  lemma Quarters(o: nat)
    requires o < LIMIT
    ensures var ip := 0x6440_0000 + o;
            && ip / 0x100_0000 == 100 && ip / 0x1_0000 % 0x100 == 64 + o / 65536
            && ip / 0x100 % 0x100 == o % 65536 / 256 && ip % 0x100 == o % 256
  {
    UpperHalf(o);
    LowerHalf(o);
  }

  lemma UpperHalf(o: nat)
    requires o < LIMIT
    ensures (0x6440_0000 + o) / 0x100_0000 == 100
    ensures (0x6440_0000 + o) / 0x1_0000 % 0x100 == 64 + o / 65536
  {
    assert (0x6440_0000 + o) / 0x1_0000 == 0x6440 + o / 65536;
  }

  lemma LowerHalf(o: nat)
    ensures (0x6440_0000 + o) / 0x100 % 0x100 == o % 65536 / 256
    ensures (0x6440_0000 + o) % 0x100 == o % 256
  {
    Shifted(o);
    ThirdByte(o);
    BaseIsAligned(o / 256);
  }

  lemma Shifted(o: nat)
    ensures (0x6440_0000 + o) / 0x100 == 0x64_4000 + o / 256
    ensures (0x6440_0000 + o) % 0x100 == o % 256
  {}

  lemma BaseIsAligned(q: nat)
    ensures (0x64_4000 + q) % 0x100 == q % 256
  {}

  lemma ThirdByte(o: nat)
    ensures o % 65536 / 256 == o / 256 % 256
  {
    var p, q := o / 65536, o / 256;
    assert q / 256 == p;
    assert o - 65536 * p == 256 * (q - 256 * p) + o % 256;
  }

  /** Different offsets have different texts of either kind. */
  lemma Ipv4Injective(m: nat, n: nat)
    requires m < LIMIT && n < LIMIT && Ipv4Of(m) == Ipv4Of(n)
    ensures m == n
  {
    SameAddress(0x6440_0000 + m, 0x6440_0000 + n, Ipv4Of(m));
  }

  lemma SameAddress(x: nat, y: nat, text: string)
    requires x < 0x1_0000_0000 && y < 0x1_0000_0000
    ensures text == Vip.DottedQuad(x) && text == Vip.DottedQuad(y) ==> x == y
  {
    Vip.DottedQuadInjective(x, y);
  }

  lemma Ipv6Injective(m: nat, n: nat)
    requires m < LIMIT && n < LIMIT && Ipv6Of(m) == Ipv6Of(n)
    ensures m == n
  {
    var prefix := "fd7a:115c:a1e0::";
    assert Hex(m) == Ipv6Of(m)[|prefix|..] && Hex(n) == Ipv6Of(n)[|prefix|..];
    HexInjective(m, n);
  }

  // ---- what the rows use ------------------------------------------------------------------------

  /** The cleaned text of a column, unless nothing is left of it. */
  function Cell(clean: string -> string, column: Option<string>): Option<string> {
    if column == None || column.value == "" || clean(column.value) == "" then None else Some(clean(column.value))
  }

  predicate BlockedBy(c: Cleaning, row: Row, o: nat)
    requires o < LIMIT
  {
    Cell(c.ipv4, row.ipv4) == Some(Ipv4Of(o)) || Cell(c.ipv6, row.ipv6) == Some(Ipv6Of(o))
  }

  predicate Taken(c: Cleaning, rows: seq<Row>, o: nat)
    requires o < LIMIT
  {
    exists i :: 0 <= i < |rows| && BlockedBy(c, rows[i], o)
  }

  predicate Free(c: Cleaning, rows: seq<Row>, o: nat) {
    UsableOffset(o) && !Taken(c, rows, o)
  }

  predicate AnyFree(c: Cleaning, rows: seq<Row>) {
    exists o: nat :: o < LIMIT && Free(c, rows, o)
  }

  function UsedIpv4(c: Cleaning, rows: seq<Row>): set<string> {
    set i | 0 <= i < |rows| && Cell(c.ipv4, rows[i].ipv4).Some? :: Cell(c.ipv4, rows[i].ipv4).value
  }

  function UsedIpv6(c: Cleaning, rows: seq<Row>): set<string> {
    set i | 0 <= i < |rows| && Cell(c.ipv6, rows[i].ipv6).Some? :: Cell(c.ipv6, rows[i].ipv6).value
  }

  lemma UsedMeansTaken(c: Cleaning, rows: seq<Row>, o: nat)
    requires o < LIMIT
    ensures Ipv4Of(o) in UsedIpv4(c, rows) || Ipv6Of(o) in UsedIpv6(c, rows) <==> Taken(c, rows, o)
  {
    var v4, v6 := Ipv4Of(o), Ipv6Of(o);
    assert v4 in UsedIpv4(c, rows) <==> exists i :: 0 <= i < |rows| && Cell(c.ipv4, rows[i].ipv4) == Some(v4);
    assert v6 in UsedIpv6(c, rows) <==> exists i :: 0 <= i < |rows| && Cell(c.ipv6, rows[i].ipv6) == Some(v6);
    if i :| 0 <= i < |rows| && Cell(c.ipv4, rows[i].ipv4) == Some(v4) {
      assert BlockedBy(c, rows[i], o);
    }
    if i :| 0 <= i < |rows| && Cell(c.ipv6, rows[i].ipv6) == Some(v6) {
      assert BlockedBy(c, rows[i], o);
    }
  }

  /** A usable offset is free exactly when no row holds, once cleaned, either of its texts. */
  lemma FreeMeansUnused(c: Cleaning, rows: seq<Row>, o: nat)
    ensures Free(c, rows, o) <==>
      && UsableOffset(o)
      && forall i :: 0 <= i < |rows| ==>
           && (rows[i].ipv4.Some? && rows[i].ipv4.value != "" ==> c.ipv4(rows[i].ipv4.value) != Ipv4Of(o))
           && (rows[i].ipv6.Some? && rows[i].ipv6.value != "" ==> c.ipv6(rows[i].ipv6.value) != Ipv6Of(o))
  {
    if UsableOffset(o) {
      forall i | 0 <= i < |rows|
        ensures BlockedBy(c, rows[i], o) <==>
          || (rows[i].ipv4.Some? && rows[i].ipv4.value != "" && c.ipv4(rows[i].ipv4.value) == Ipv4Of(o))
          || (rows[i].ipv6.Some? && rows[i].ipv6.value != "" && c.ipv6(rows[i].ipv6.value) == Ipv6Of(o))
      {
        CellHolds(c.ipv4, rows[i].ipv4, Ipv4Of(o));
        CellHolds(c.ipv6, rows[i].ipv6, Ipv6Of(o));
      }
    }
  }

  lemma CellHolds(clean: string -> string, column: Option<string>, text: string)
    ensures text != "" ==> (Cell(clean, column) == Some(text) <==> column.Some? && column.value != "" && clean(column.value) == text)
  {}

  // ---- the allocation ------------------------------------------------------------------------------

  function AddressOf(o: nat): Address
    requires o < LIMIT
  {
    Address(Ipv4Of(o), Ipv6Of(o))
  }

  function Fallback(randOffset: nat): Address {
    Address("100.64.1." + Decimal(randOffset % 250 + 1), Ipv6Of(randOffset))
  }

  /** The random address lies in 100.64.1.1 to 100.64.1.250. */
  lemma FallbackIsAddress(randOffset: nat)
    ensures Fallback(randOffset).ipv4 == Vip.DottedQuad(0x6440_0101 + randOffset % 250)
    ensures Fallback(randOffset).ipv6 == Vip.IPV6_PREFIX + "::" + Hex(randOffset)
  {
    LastByteText(randOffset % 250 + 1);
    assert Vip.IPV6_PREFIX + "::" == "fd7a:115c:a1e0::";
  }

  lemma LastByteText(d: nat)
    requires d < 256
    ensures "100.64.1." + Decimal(d) == Vip.DottedQuad(0x6440_0100 + d)
  {
    SecondBlock(d);
    SmallDecimals();
    FixedOctets(Decimal(64), Decimal(1), Decimal(d));
  }

  lemma SecondBlock(d: nat)
    requires d < 256
    ensures Ipv4Text(64, 1, d) == Vip.DottedQuad(0x6440_0100 + d)
  {
    TemplateAt(256 + d, 64, 1, d, 0x6440_0100 + d);
  }

  lemma TemplateAt(o: nat, o2: nat, o3: nat, o4: nat, ip: nat)
    requires o < LIMIT && o2 == 64 + o / 65536 && o3 == o % 65536 / 256 && o4 == o % 256 && ip == 0x6440_0000 + o
    ensures ip < 0x1_0000_0000 && Ipv4Text(o2, o3, o4) == Vip.DottedQuad(ip)
  {
    TemplateWritesAddress(o);
  }

  lemma FixedOctets(a: string, b: string, d: string)
    requires a == "64" && b == "1"
    ensures "100.64.1." + d == "100." + a + "." + b + "." + d
  {
    assert "100.64.1." == "100." + a + "." + b + ".";
  }

  lemma SmallDecimals()
    ensures Decimal(64) == "64" && Decimal(1) == "1"
  {
    TwoDigits(6, 4);
  }

  lemma TwoDigits(tens: nat, ones: nat)
    requires 0 < tens < 10 && ones < 10
    ensures Decimal(10 * tens + ones) == [DigitChar(tens), DigitChar(ones)]
  {
    var n := 10 * tens + ones;
    assert n / 10 == tens && n % 10 == ones;
    assert Digits(tens, Dec) == [DigitChar(tens)];
  }

  /** A free offset, and no smaller one is free. */
  ghost predicate LeastFree(c: Cleaning, rows: seq<Row>, o: nat) {
    Free(c, rows, o) && forall p: nat :: p < o ==> !Free(c, rows, p)
  }

  /**
   The least usable offset that no row blocks decides the address; only when all are blocked does the
   random one decide it.
   */
  method AllocateVipFromRows(c: Cleaning, rows: seq<Row>, random: nat) returns (a: Address)
    requires random < 10000
    ensures AnyFree(c, rows) ==> exists o: nat :: LeastFree(c, rows, o) && a == AddressOf(o)
    ensures !AnyFree(c, rows) ==> a == Fallback(100000 + random)
    ensures |rows| <= GUARANTEED ==> AnyFree(c, rows)
  {
    if |rows| <= GUARANTEED {
      SomeOffsetIsFree(c, rows);
    }
    var usedIpv4, usedIpv6 := UsedIpv4(c, rows), UsedIpv6(c, rows);
    var offset := 1;
    while offset < 4194300
      invariant 1 <= offset <= LIMIT
      invariant forall o: nat :: o < offset ==> !Free(c, rows, o)
    {
      var o2 := 64 + offset / 65536;
      var o3 := offset % 65536 / 256;
      var o4 := offset % 256;
      if o4 == 0 || o4 == 255 {
        offset := offset + 1;
        continue;
      }
      if o2 >= 128 {
        break;
      }
      var overlay := Overlay(offset, o2, o3, o4);
      UsedMeansTaken(c, rows, offset);
      if overlay.ipv4 !in usedIpv4 && overlay.ipv6 !in usedIpv6 {
        assert LeastFree(c, rows, offset);
        return overlay;
      }
      offset := offset + 1;
    }
    return Fallback(100000 + random);
  }

  /** The two templates. */
  method Overlay(offset: nat, o2: nat, o3: nat, o4: nat) returns (a: Address)
    requires offset < LIMIT && o2 == 64 + offset / 65536 && o3 == offset % 65536 / 256 && o4 == offset % 256
    ensures a == AddressOf(offset)
  {
    TemplateWritesAddress(offset);
    a := Address(Ipv4Text(o2, o3, o4), Ipv6Of(offset));
  }

  // ---- how many rows the search can stand --------------------------------------------------------------

  lemma {:induction false} SubsetSize<T>(a: set<T>, b: set<T>)
    requires a <= b
    ensures |a| <= |b|
  {
    if a != {} {
      var x :| x in a;
      SubsetSize(a - {x}, b - {x});
    }
  }

  function UsableBelow(n: nat): set<nat> {
    set o | 0 <= o < n && UsableOffset(o)
  }

  /** 254 of every 256 offsets are usable. */
  function UsableNumber(n: nat): nat {
    254 * (n / 256) + if n % 256 == 0 then 0 else n % 256 - 1
  }

  lemma UsableNumberNext(n: nat)
    ensures UsableNumber(n + 1) == UsableNumber(n) + if n % 256 == 0 || n % 256 == 255 then 0 else 1
  {}

  lemma UsableBelowNext(n: nat)
    ensures |UsableBelow(n + 1)| == |UsableBelow(n)| + if UsableOffset(n) then 1 else 0
  {
    var rest := UsableBelow(n);
    if UsableOffset(n) {
      assert UsableBelow(n + 1) == rest + {n};
    } else {
      assert UsableBelow(n + 1) == rest;
    }
  }

  lemma {:induction false} UsableCount(n: nat)
    requires n <= LIMIT
    ensures |UsableBelow(n)| == UsableNumber(n)
  {
    if n > 0 {
      UsableCount(n - 1);
      UsableNumberNext(n - 1);
      UsableBelowNext(n - 1);
    }
  }

  function BlockedBy4(c: Cleaning, row: Row): set<nat> {
    set o | 0 <= o < LIMIT && Cell(c.ipv4, row.ipv4) == Some(Ipv4Of(o))
  }

  function BlockedBy6(c: Cleaning, row: Row): set<nat> {
    set o | 0 <= o < LIMIT && Cell(c.ipv6, row.ipv6) == Some(Ipv6Of(o))
  }

  function RowBlocks(c: Cleaning, row: Row): set<nat> {
    BlockedBy4(c, row) + BlockedBy6(c, row)
  }

  lemma InRowBlocks(c: Cleaning, row: Row, o: nat)
    requires o < LIMIT
    ensures o in RowBlocks(c, row) <==> BlockedBy(c, row, o)
  {}

  function Union<T>(sets: seq<set<T>>): set<T> {
    if sets == [] then {} else sets[0] + Union(sets[1..])
  }

  lemma {:induction false} InUnion<T>(sets: seq<set<T>>, i: nat, x: T)
    requires i < |sets| && x in sets[i]
    ensures x in Union(sets)
  {
    if i > 0 {
      InUnion(sets[1..], i - 1, x);
    }
  }

  lemma {:induction false} UnionSize<T>(sets: seq<set<T>>, each: nat)
    requires forall i :: 0 <= i < |sets| ==> |sets[i]| <= each
    ensures |Union(sets)| <= each * |sets|
  {
    if sets != [] {
      UnionSize(sets[1..], each);
      assert each * |sets| == each + each * |sets[1..]|;
    }
  }

  /** At most one offset has a given IPv4 text, and at most one a given IPv6 text. */
  lemma OneOfEachKind(c: Cleaning, row: Row)
    ensures |BlockedBy4(c, row)| <= 1 && |BlockedBy6(c, row)| <= 1
  {
    forall m, n | m in BlockedBy4(c, row) && n in BlockedBy4(c, row)
      ensures m == n
    {
      Ipv4Injective(m, n);
    }
    forall m, n | m in BlockedBy6(c, row) && n in BlockedBy6(c, row)
      ensures m == n
    {
      Ipv6Injective(m, n);
    }
    AtMostOne(BlockedBy4(c, row));
    AtMostOne(BlockedBy6(c, row));
  }

  lemma AtMostOne<T>(s: set<T>)
    requires forall x, y :: x in s && y in s ==> x == y
    ensures |s| <= 1
  {
    if x :| x in s {
      assert s == {x};
    }
  }

  function Blocked(c: Cleaning, rows: seq<Row>): seq<set<nat>> {
    seq(|rows|, i requires 0 <= i < |rows| => RowBlocks(c, rows[i]))
  }

  lemma AllBlockedNeedsRows(c: Cleaning, rows: seq<Row>)
    requires !AnyFree(c, rows)
    ensures |UsableBelow(LIMIT)| <= 2 * |rows|
  {
    var sets := Blocked(c, rows);
    forall i | 0 <= i < |sets|
      ensures |sets[i]| <= 2
    {
      OneOfEachKind(c, rows[i]);
    }
    UnionSize(sets, 2);
    forall o | o in UsableBelow(LIMIT)
      ensures o in Union(sets)
    {
      assert !Free(c, rows, o);
      var i :| 0 <= i < |rows| && BlockedBy(c, rows[i], o);
      InRowBlocks(c, rows[i], o);
      InUnion(sets, i, o);
    }
    SubsetSize(UsableBelow(LIMIT), Union(sets));
  }

  /** With at most 2,080,766 rows, some usable offset is left. */
  lemma SomeOffsetIsFree(c: Cleaning, rows: seq<Row>)
    requires |rows| <= GUARANTEED
    ensures AnyFree(c, rows)
  {
    UsableCount(LIMIT);
    assert |UsableBelow(LIMIT)| == USABLE;
    if !AnyFree(c, rows) {
      AllBlockedNeedsRows(c, rows);
    }
  }

  // ---- and no more ---------------------------------------------------------------------------------------

  /** Address texts have no spaces to trim and no upper case to lower. */
  ghost predicate KeepsTexts(c: Cleaning) {
    forall o: nat :: o < LIMIT ==> c.ipv4(Ipv4Of(o)) == Ipv4Of(o) && c.ipv6(Ipv6Of(o)) == Ipv6Of(o)
  }

  /** The usable offsets in order, and their places in that order. */
  function UsableAt(i: nat): nat {
    i / 254 * 256 + i % 254 + 1
  }

  function PlaceOf(o: nat): (i: nat)
    requires UsableOffset(o)
    ensures i < USABLE && UsableAt(i) == o
  {
    o / 256 * 254 + (o % 256 - 1)
  }

  /** The i-th row takes the IPv4 address of one offset and the IPv6 address of the next. */
  function FillingRow(i: nat): Row {
    Row(if UsableAt(2 * i) < LIMIT then Some(Ipv4Of(UsableAt(2 * i))) else None, Some(Ipv6Of(UsableAt(2 * i + 1))))
  }

  lemma CellOfText(clean: string -> string, text: string)
    requires clean(text) == text && text != ""
    ensures Cell(clean, Some(text)) == Some(text)
  {}

  lemma FillingRowBlocks(c: Cleaning, o: nat)
    requires KeepsTexts(c) && UsableOffset(o)
    ensures BlockedBy(c, FillingRow(PlaceOf(o) / 2), o)
  {
    var i := PlaceOf(o) / 2;
    if PlaceOf(o) == 2 * i {
      CellOfText(c.ipv4, Ipv4Of(o));
    } else {
      assert PlaceOf(o) == 2 * i + 1;
      CellOfText(c.ipv6, Ipv6Of(o));
    }
  }

  function Filling(n: nat): seq<Row> {
    seq(n, i requires 0 <= i < n => FillingRow(i))
  }

  lemma FillingBlocksAll(c: Cleaning, n: nat)
    requires KeepsTexts(c) && n > GUARANTEED
    ensures !AnyFree(c, Filling(n))
  {
    forall o: nat | UsableOffset(o)
      ensures Taken(c, Filling(n), o)
    {
      FillingTakes(c, n, o, PlaceOf(o) / 2);
    }
  }

  lemma FillingTakes(c: Cleaning, n: nat, o: nat, i: nat)
    requires KeepsTexts(c) && UsableOffset(o) && i == PlaceOf(o) / 2 && i < n
    ensures Taken(c, Filling(n), o)
  {
    FillingRowBlocks(c, o);
    RowBlocksAt(c, Filling(n), o, i, FillingRow(i));
  }

  lemma RowBlocksAt(c: Cleaning, rows: seq<Row>, o: nat, i: nat, row: Row)
    requires i < |rows| && o < LIMIT && rows[i] == row && BlockedBy(c, row, o)
    ensures Taken(c, rows, o)
  {}

  /** Lists of n rows always leave an offset free exactly when n is at most 2,080,766. */
  lemma GuaranteedExactly(c: Cleaning, n: nat)
    requires KeepsTexts(c)
    ensures (forall rows: seq<Row> :: |rows| == n ==> AnyFree(c, rows)) <==> n <= GUARANTEED
  {
    if n <= GUARANTEED {
      forall rows: seq<Row> | |rows| == n
        ensures AnyFree(c, rows)
      {
        SomeOffsetIsFree(c, rows);
      }
    } else {
      FillingBlocksAll(c, n);
      assert |Filling(n)| == n;
    }
  }
}
