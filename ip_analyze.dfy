/**
 * Target expansion: `ip_to_tuple` and `ip_analyze` turn an address, a CIDR
 * block or a dash range into the list of dotted addresses a frame is sent
 * to. The CIDR branch of this version lists only the addresses strictly
 * between the network and the broadcast address.
 */
module IpAnalyze {
  import opened Base
  import opened Text

  /** Each ValueError the expansion raises, by its message. */
  datatype Error =
      /** "Invalid IP address format" */
      InvalidAddress
      /** "Invalid subnet mask": the mask is not a run of digits */
    | InvalidMask
      /** "Subnet mask out of range" */
    | MaskOutOfRange(mask: nat)
      /** "Subnet mask too small": blocks larger than 65536 addresses are refused */
    | MaskTooSmall(mask: nat)
      /** "Invalid IP address range format" */
    | InvalidRangeFormat
      /** "IP address out of range": a single octet above 255 */
    | OctetOutOfRange(value: nat)
      /** "Invalid IP address range" */
    | InvalidRange(start: nat, end: nat)
      /** "IP address range too large" */
    | RangeTooLarge(count: int)

  /** `int(x)` for every piece, or nothing once one of them is not a number. */
  function ParseAll(pieces: seq<string>): (r: Option<seq<int>>)
    ensures r.Some? <==> forall i :: 0 <= i < |pieces| ==> ParseInt(pieces[i], 10).Some?
    ensures r.Some? ==> |r.value| == |pieces| && forall i :: 0 <= i < |pieces| ==> r.value[i] == ParseInt(pieces[i], 10).value
  {
    if pieces == [] then Some([])
    else
      match ParseInt(pieces[0], 10)
      case None => None
      case Some(v) =>
        match ParseAll(pieces[1..])
        case None => None
        case Some(rest) => Some([v] + rest)
  }

  predicate IsOctet(v: int) { 0 <= v <= 255 }

  /** `ip_to_tuple(ip)`: exactly four dot-separated integers, each from 0 to 255. */
  function IpToTuple(ip: string): (r: Result<seq<Byte>, Error>)
    ensures r.Ok? <==>
              && |Split(ip, '.')| == 4
              && forall i :: 0 <= i < 4 ==> ParseInt(Split(ip, '.')[i], 10).Some? && IsOctet(ParseInt(Split(ip, '.')[i], 10).value)
    ensures r.Ok? ==> |r.value| == 4 && forall i :: 0 <= i < 4 ==> r.value[i] == ParseInt(Split(ip, '.')[i], 10).value
    ensures r.Err? ==> r.error == InvalidAddress
  {
    match ParseAll(Split(ip, '.'))
    case None => Err(InvalidAddress)
    case Some(values) =>
      if |values| != 4 || exists i :: 0 <= i < 4 && !IsOctet(values[i]) then Err(InvalidAddress)
      else Ok(seq(4, i requires 0 <= i < 4 => values[i] as Byte))
  }

  /** The octets in canonical decimal. */
  function Pieces(o: seq<Byte>): (r: seq<string>)
    requires |o| == 4
    ensures |r| == 4 && forall i :: 0 <= i < 4 ==> r[i] == Decimal(o[i])
  {
    seq(4, i requires 0 <= i < 4 => Decimal(o[i]))
  }

  /**
   * `f"{a}.{b}.{c}.{d}"`: the octets in canonical decimal, joined by dots.
   * Reading the text back gives the octets: the rendering is canonical and
   * loses nothing.
   */
  function Dotted(o: seq<Byte>): (r: string)
    requires |o| == 4
    ensures IpToTuple(r) == Ok(o)
  {
    PiecesReadBack(o);
    Join(Pieces(o), '.')
  }

  /** The joined decimal octets parse back to the octets. */
  lemma PiecesReadBack(o: seq<Byte>)
    requires |o| == 4
    ensures IpToTuple(Join(Pieces(o), '.')) == Ok(o)
  {
    var pieces := Pieces(o);
    forall i | 0 <= i < 4
      ensures '.' !in pieces[i] && ParseInt(pieces[i], 10) == Some(o[i] as int)
    {
      ParseDecimal(o[i]);
      assert forall j :: 0 <= j < |pieces[i]| ==> IsAsciiDigit(pieces[i][j]);
    }
    SplitJoin(pieces, '.');
    var r := IpToTuple(Join(pieces, '.'));
    assert r.Ok?;
    assert r.value == o;
  }

  /** Two addresses render alike only when they are the same address. */
  lemma DottedInjective(o: seq<Byte>, p: seq<Byte>)
    requires |o| == 4 && |p| == 4 && Dotted(o) == Dotted(p)
    ensures o == p
  {
  }

  const AddressSpace: nat := 0x1_0000_0000

  /** `a << 24 | b << 16 | c << 8 | d`; the octets occupy disjoint bits, so the or is a sum. */
  function Address(o: seq<Byte>): (r: nat)
    requires |o| == 4
    ensures r < AddressSpace
  {
    (o[0] as int) * 0x100_0000 + (o[1] as int) * 0x1_0000 + (o[2] as int) * 0x100 + (o[3] as int)
  }

  /** `((i >> 24) & 0xFF, (i >> 16) & 0xFF, (i >> 8) & 0xFF, i & 0xFF)` */
  function OctetsOf(x: nat): (r: seq<Byte>)
    requires x < AddressSpace
    ensures |r| == 4 && Address(r) == x
  {
    OctetDigits(x);
    var r: seq<Byte> := [x / 0x100_0000, x / 0x1_0000 % 0x100, x / 0x100 % 0x100, x % 0x100];
    r
  }

  /** The four base-256 digits of a 32-bit value, most significant first. */
  lemma OctetDigits(x: nat)
    requires x < AddressSpace
    ensures 0 <= x / 0x100_0000 < 0x100
    ensures x == (x / 0x100_0000) * 0x100_0000 + (x / 0x1_0000 % 0x100) * 0x1_0000 + (x / 0x100 % 0x100) * 0x100 + x % 0x100
  {
    assert x / 0x100 == x / 0x1_0000 * 0x100 + x / 0x100 % 0x100;
    assert x / 0x1_0000 == x / 0x100_0000 * 0x100 + x / 0x1_0000 % 0x100;
  }

  /** Splitting an address into octets and joining them again are inverse. */
  lemma OctetsOfAddress(o: seq<Byte>)
    requires |o| == 4
    ensures OctetsOf(Address(o)) == o
  {
    var x := Address(o);
    var a, b, c, d := o[0] as int, o[1] as int, o[2] as int, o[3] as int;
    DivisionUnique(x, 0x100, a * 0x1_0000 + b * 0x100 + c, d);
    DivisionUnique(x, 0x1_0000, a * 0x100 + b, c * 0x100 + d);
    DivisionUnique(x, 0x100_0000, a, b * 0x1_0000 + c * 0x100 + d);
    DivisionUnique(x / 0x100, 0x100, a * 0x100 + b, c);
    DivisionUnique(x / 0x1_0000, 0x100, a, b);
  }

  /** `f"{(i >> 24) & 0xFF}.{(i >> 16) & 0xFF}.{(i >> 8) & 0xFF}.{i & 0xFF}"` */
  function Render(x: nat): (r: string)
    requires x < AddressSpace
    ensures IpToTuple(r).Ok? && Address(IpToTuple(r).value) == x
  {
    Dotted(OctetsOf(x))
  }

  /** Every entry is a 32-bit value. */
  predicate InSpace(addresses: seq<int>) {
    forall i :: 0 <= i < |addresses| ==> 0 <= addresses[i] < AddressSpace
  }

  /** Each address of a comprehension's `range` rendered in dotted form, in order. */
  function Rendered(addresses: seq<int>): (r: seq<string>)
    requires InSpace(addresses)
    ensures |r| == |addresses|
    ensures forall i :: 0 <= i < |r| ==> r[i] == Render(addresses[i])
  {
    seq(|addresses|, i requires 0 <= i < |addresses| => Render(addresses[i]))
  }

  /** Rendering a slice of a list gives the same slice of the rendered list. */
  lemma RenderedSlice(addresses: seq<int>, lo: nat, hi: nat)
    requires InSpace(addresses) && lo <= hi <= |addresses|
    ensures InSpace(addresses[lo..hi]) && Rendered(addresses[lo..hi]) == Rendered(addresses)[lo..hi]
  {
    var part := addresses[lo..hi];
    assert InSpace(part) by {
      forall i | 0 <= i < |part| ensures 0 <= part[i] < AddressSpace {
        assert part[i] == addresses[lo + i];
      }
    }
    var whole := Rendered(addresses);
    var r := Rendered(part);
    forall i | 0 <= i < |r| ensures r[i] == whole[lo..hi][i] {
      assert part[i] == addresses[lo + i];
      assert whole[lo + i] == Render(addresses[lo + i]);
    }
  }

  /** A rendered list reads back entry by entry as the values it was made from, and renders each of them. */
  lemma RenderedReadsBack(addresses: seq<int>)
    requires InSpace(addresses)
    ensures forall i :: 0 <= i < |addresses| ==>
              IpToTuple(Rendered(addresses)[i]).Ok? && Address(IpToTuple(Rendered(addresses)[i]).value) == addresses[i]
    ensures forall a :: a in addresses ==> 0 <= a < AddressSpace && Render(a) in Rendered(addresses)
  {
    var r := Rendered(addresses);
    forall i | 0 <= i < |addresses|
      ensures IpToTuple(r[i]).Ok? && Address(IpToTuple(r[i]).value) == addresses[i]
    {
      assert r[i] == Render(addresses[i]);
    }
    forall a | a in addresses
      ensures 0 <= a < AddressSpace && Render(a) in r
    {
      var k :| 0 <= k < |addresses| && addresses[k] == a;
      assert r[k] == Render(a);
    }
  }

  lemma {:induction false} Pow2Add(a: nat, b: nat)
    ensures Pow2(a + b) == Pow2(a) * Pow2(b)
    decreases a
  {
    if a > 0 {
      Pow2Add(a - 1, b);
      assert Pow2(a + b) == 2 * Pow2(a - 1 + b);
    }
  }

  /** The number of addresses a prefix of `mask` bits leaves to the host part. */
  function BlockSize(mask: nat): (r: nat)
    requires mask <= 32
    ensures r >= 1
  {
    Pow2(32 - mask)
  }

  /** The blocks of one mask tile the address space. */
  lemma BlocksTile(mask: nat)
    requires mask <= 32
    ensures BlockSize(mask) * Pow2(mask) == AddressSpace
  {
    Pow2Add(32 - mask, mask);
    Pow2ThirtyTwo();
  }

  lemma Pow2ThirtyTwo()
    ensures Pow2(32) == AddressSpace
  {
    assert Pow2(8) == 256;
    Pow2Add(8, 8);
    Pow2Add(16, 16);
  }

  /**
   * `ip32 & ((0xFFFFFFFF >> (32 - mask)) << (32 - mask))`: the host bits
   * cleared, leaving the first address of the block that holds `x`.
   */
  function Network(x: nat, mask: nat): (r: nat)
    requires x < AddressSpace && mask <= 32
    ensures r <= x < r + BlockSize(mask)
    ensures r % BlockSize(mask) == 0
    ensures r + BlockSize(mask) <= AddressSpace
  {
    BlocksTile(mask);
    RoundedDown(x, BlockSize(mask), Pow2(mask), AddressSpace);
    x - x % BlockSize(mask)
  }

  /** Rounding down to a multiple of `size` inside `size * count` leaves room for a whole block. */
  lemma RoundedDown(x: nat, size: nat, count: nat, total: nat)
    requires size >= 1 && size * count == total && x < total
    ensures var r := x - x % size; 0 <= r <= x < r + size && r % size == 0 && r + size <= total
  {
    var q := x / size;
    ProductSign(size, q);
    assert x == size * q + x % size;
    DivisionUnique(x - x % size, size, q, 0);
    BlockFits(q, size, count, x % size);
  }

  lemma BlockFits(q: int, size: nat, count: nat, r: nat)
    requires size >= 1 && r < size && size * q + r < size * count && q >= 0
    ensures size * q + size <= size * count
  {
    ProductSign(size, q - count);
    ProductSign(size, count - 1 - q);
    assert size * q - size * count == size * (q - count);
    assert size * count - size - size * q == size * (count - 1 - q);
  }

  /** Every address of a block has that block's network address: they share the first `mask` bits. */
  lemma NetworkOfBlock(net: nat, mask: nat, j: nat)
    requires mask <= 32 && net + BlockSize(mask) <= AddressSpace && net % BlockSize(mask) == 0 && j < BlockSize(mask)
    ensures Network(net + j, mask) == net
  {
    SameMultiple(net, BlockSize(mask), j);
  }

  lemma SameMultiple(net: nat, size: nat, j: nat)
    requires size >= 1 && net % size == 0 && j < size
    ensures (net + j) % size == j
  {
    var q := net / size;
    assert net == size * q;
    DivisionUnique(net + j, size, q, j);
  }

  /** Python's `range(lo, hi)`. */
  function Range(lo: int, hi: int): (r: seq<int>)
    ensures |r| == if hi > lo then hi - lo else 0
    ensures forall i :: 0 <= i < |r| ==> r[i] == lo + i
  {
    seq(if hi > lo then hi - lo else 0, i => lo + i)
  }

  /** `"addr/mask"`: the address octets and the mask, with the checks made in the order the source makes them. */
  function ParseCidr(s: string): (r: Result<(seq<Byte>, nat), Error>)
    ensures |Split(s, '/')| != 2 ==> r == Err(InvalidAddress)
    ensures |Split(s, '/')| == 2 ==>
              var mask := Split(s, '/')[1];
              && (!IsDigits(mask) ==> r == Err(InvalidMask))
              && (IsDigits(mask) && DigitsValue(mask, 10) > 32 ==> r == Err(MaskOutOfRange(DigitsValue(mask, 10))))
              && (IsDigits(mask) && DigitsValue(mask, 10) < 16 ==> r == Err(MaskTooSmall(DigitsValue(mask, 10))))
              && (IsDigits(mask) && 16 <= DigitsValue(mask, 10) <= 32 ==>
                    r == (match IpToTuple(Split(s, '/')[0])
                          case Ok(o) => Ok((o, DigitsValue(mask, 10)))
                          case Err(e) => Err(e)))
    ensures r.Ok? ==> |r.value.0| == 4 && 16 <= r.value.1 <= 32
  {
    var parts := Split(s, '/');
    if |parts| != 2 then Err(InvalidAddress)
    else if !IsDigits(parts[1]) then Err(InvalidMask)
    else
      var mask := DigitsValue(parts[1], 10);
      if mask > 32 then Err(MaskOutOfRange(mask))
      else if mask < 16 then Err(MaskTooSmall(mask))
      else
        var o :- IpToTuple(parts[0]);
        Ok((o, mask))
  }

  /**
   * `range(ip32 + 1, ip32 | ((1 << (32 - mask)) - 1))`: the network address
   * has no host bits set, so the or adds the host mask.
   */
  function Interior(net: nat, mask: nat): (r: seq<int>)
    requires mask <= 32
    ensures |r| == if mask <= 30 then BlockSize(mask) - 2 else 0
    ensures forall a :: a in r <==> net < a < net + BlockSize(mask) - 1
    ensures forall i, j :: 0 <= i < j < |r| ==> r[i] < r[j]
  {
    SmallBlocks(mask);
    RangeMembers(net + 1, net + BlockSize(mask) - 1);
    Range(net + 1, net + BlockSize(mask) - 1)
  }

  /** A `range` holds exactly the integers from its start up to, not including, its stop. */
  lemma RangeMembers(lo: int, hi: int)
    ensures forall a :: a in Range(lo, hi) <==> lo <= a < hi
  {
    forall a | lo <= a < hi
      ensures a in Range(lo, hi)
    {
      assert Range(lo, hi)[a - lo] == a;
    }
  }

  /** Masks 31 and 32 leave blocks of two addresses and one; shorter masks leave at least four. */
  lemma SmallBlocks(mask: nat)
    requires mask <= 32
    ensures mask <= 30 ==> BlockSize(mask) >= 4
    ensures mask == 31 ==> BlockSize(mask) == 2
    ensures mask == 32 ==> BlockSize(mask) == 1
  {
    if mask <= 30 {
      Pow2Add(2, 30 - mask);
    }
  }

  /** Masks of at least 16 leave at most 65536 addresses. */
  lemma LargestBlock(mask: nat)
    requires 16 <= mask <= 32
    ensures BlockSize(mask) <= 65536
  {
    assert Pow2(8) == 256;
    Pow2Add(8, 8);
    Pow2Add(32 - mask, mask - 16);
  }

  /** The interior of a block: its addresses strictly between network and broadcast, ascending. */
  lemma InteriorAddresses(net: nat, mask: nat)
    requires mask <= 32 && net + BlockSize(mask) <= AddressSpace && net % BlockSize(mask) == 0
    ensures |Interior(net, mask)| == if mask <= 30 then BlockSize(mask) - 2 else 0
    ensures forall a :: a in Interior(net, mask) <==> net < a < net + BlockSize(mask) - 1
    ensures forall i, j :: 0 <= i < j < |Interior(net, mask)| ==> Interior(net, mask)[i] < Interior(net, mask)[j]
    ensures forall a :: a in Interior(net, mask) ==> 0 <= a < AddressSpace && Network(a, mask) == net
    ensures InSpace(Interior(net, mask))
  {
    var r := Interior(net, mask);
    forall a | a in r
      ensures 0 <= a < AddressSpace && Network(a, mask) == net
    {
      NetworkOfBlock(net, mask, a - net);
    }
  }

  /** The rendered block in the interior-only version. */
  function InteriorListing(o: seq<Byte>, mask: nat): (r: seq<string>)
    requires |o| == 4 && 16 <= mask <= 32
    ensures |r| == (if mask <= 30 then BlockSize(mask) - 2 else 0)
  {
    var net := Network(Address(o), mask);
    InteriorAddresses(net, mask);
    Rendered(Interior(net, mask))
  }

  /** One octet of a dash range, `lo-hi`, or a single octet as `v-v`. */
  datatype Span = Span(lo: nat, hi: nat)

  function Width(s: Span): int { s.hi - s.lo + 1 }

  predicate Proper(spans: seq<Span>) {
    forall i :: 0 <= i < |spans| ==> spans[i].lo <= spans[i].hi <= 255
  }

  /** One dot-separated segment of a dash range: `d` or `lo-hi`, digits only, within 0 to 255. */
  function SegmentSpan(segment: string): (r: Result<Span, Error>)
    ensures r.Ok? ==> r.value.lo <= r.value.hi <= 255
    ensures r.Ok? <==>
              || (|Split(segment, '-')| == 1 && IsDigits(segment) && DigitsValue(segment, 10) <= 255)
              || (&& |Split(segment, '-')| == 2
                  && IsDigits(Split(segment, '-')[0]) && IsDigits(Split(segment, '-')[1])
                  && DigitsValue(Split(segment, '-')[0], 10) <= DigitsValue(Split(segment, '-')[1], 10) <= 255)
    ensures |Split(segment, '-')| == 1 && r.Ok? ==> r.value == Span(DigitsValue(segment, 10), DigitsValue(segment, 10))
    ensures |Split(segment, '-')| == 2 && r.Ok? ==>
              r.value == Span(DigitsValue(Split(segment, '-')[0], 10), DigitsValue(Split(segment, '-')[1], 10))
    ensures |Split(segment, '-')| > 2 ==> r == Err(InvalidRangeFormat)
  {
    var parts := Split(segment, '-');
    if |parts| == 1 then
      SplitSingle(segment, '-');
      SplitNoSeparator(segment, '-');
      if !IsDigits(segment) then Err(InvalidRangeFormat)
      else
        var v := DigitsValue(segment, 10);
        if v > 255 then Err(OctetOutOfRange(v)) else Ok(Span(v, v))
    else if |parts| == 2 then
      if !(IsDigits(parts[0]) && IsDigits(parts[1])) then Err(InvalidRangeFormat)
      else
        var lo, hi := DigitsValue(parts[0], 10), DigitsValue(parts[1], 10);
        if lo > 255 || hi > 255 || lo > hi then Err(InvalidRange(lo, hi)) else Ok(Span(lo, hi))
    else Err(InvalidRangeFormat)
  }

  /** The spans of the segments, read left to right; the first segment that fails decides the error. */
  function ParseSpans(segments: seq<string>): (r: Result<seq<Span>, Error>)
    ensures r.Ok? ==> |r.value| == |segments| && Proper(r.value)
    ensures r.Ok? <==> forall i :: 0 <= i < |segments| ==> SegmentSpan(segments[i]).Ok?
    ensures r.Ok? ==> forall i :: 0 <= i < |segments| ==> r.value[i] == SegmentSpan(segments[i]).value
    decreases |segments|
  {
    if segments == [] then Ok([])
    else
      var front := segments[..|segments| - 1];
      var spans :- ParseSpans(front);
      var last :- SegmentSpan(segments[|segments| - 1]);
      assert forall i :: 0 <= i < |front| ==> front[i] == segments[i];
      Ok(spans + [last])
  }

  /** A segment that fails ends the parse with its error, whatever follows it. */
  lemma {:induction false} ParseSpansStops(segments: seq<string>, i: nat)
    requires i <= |segments| && ParseSpans(segments[..i]).Err?
    ensures ParseSpans(segments) == ParseSpans(segments[..i])
    decreases |segments| - i
  {
    if i < |segments| {
      assert segments[..i + 1][..i] == segments[..i];
      ParseSpansExtendFailed(segments[..i + 1]);
      ParseSpansStops(segments, i + 1);
    } else {
      assert segments[..i] == segments;
    }
  }

  lemma ParseSpansExtendFailed(segments: seq<string>)
    requires segments != [] && ParseSpans(segments[..|segments| - 1]).Err?
    ensures ParseSpans(segments) == ParseSpans(segments[..|segments| - 1])
  {
  }

  /** `ip_count`: the number of addresses the spans describe, the product of their widths. */
  function Count(spans: seq<Span>): int
    decreases |spans|
  {
    if spans == [] then 1 else Width(spans[0]) * Count(spans[1..])
  }

  /** The count of `n` proper spans is at least 1 and at most `256^n`. */
  lemma {:induction false} CountBounds(spans: seq<Span>)
    requires Proper(spans)
    ensures 1 <= Count(spans) <= Pow256(|spans|)
    decreases |spans|
  {
    if spans != [] {
      assert forall i :: 0 <= i < |spans| - 1 ==> spans[1..][i] == spans[i + 1];
      CountBounds(spans[1..]);
      WidthTimesCount(Width(spans[0]), Count(spans[1..]), Pow256(|spans| - 1));
    }
  }

  /** A width of at most 256 times a count of at most `p` is at most `256 * p`. */
  lemma WidthTimesCount(w: int, c: int, p: nat)
    requires 1 <= w <= 256 && 1 <= c <= p
    ensures 1 <= w * c <= 256 * p
  {
    assert w * c <= 256 * c;
  }

  lemma {:induction false} CountAppend(spans: seq<Span>, s: Span)
    ensures Count(spans + [s]) == Count(spans) * Width(s)
    decreases |spans|
  {
    if spans != [] {
      CountAppend(spans[1..], s);
      assert (spans + [s])[1..] == spans[1..] + [s];
    }
  }

  /**
   * The segment loop: each segment is split on `-`, checked, appended to
   * `ip_range`, and multiplies `ip_count` by its width, until one fails.
   */
  method ParseRangeSegments(segments: seq<string>) returns (r: Result<(seq<Span>, int), Error>)
    ensures r.Ok? <==> ParseSpans(segments).Ok?
    ensures r.Ok? ==> r.value == (ParseSpans(segments).value, Count(ParseSpans(segments).value))
    ensures r.Err? ==> r.error == ParseSpans(segments).error
  {
    var spans: seq<Span> := [];
    var count := 1;
    var i := 0;
    while i < |segments|
      invariant 0 <= i <= |segments|
      invariant ParseSpans(segments[..i]) == Ok(spans)
      invariant count == Count(spans)
    {
      var s := SegmentSpan(segments[i]);
      assert segments[..i + 1][..i] == segments[..i];
      if s.Err? {
        ParseSpansStops(segments, i + 1);
        return Err(s.error);
      }
      CountAppend(spans, s.value);
      spans := spans + [s.value];
      count := count * Width(s.value);
      i := i + 1;
    }
    assert segments[..i] == segments;
    return Ok((spans, count));
  }

  /** `[v] + t` for each of the tails, in their order. */
  function Prepend(v: int, tails: seq<seq<int>>): (r: seq<seq<int>>)
    ensures |r| == |tails|
    ensures forall i :: 0 <= i < |r| ==> r[i] == [v] + tails[i]
  {
    seq(|tails|, i requires 0 <= i < |tails| => [v] + tails[i])
  }

  /** `for a in range(v, hi + 1)` around the inner loops whose results are `tails`. */
  function Block(v: nat, hi: nat, tails: seq<seq<int>>): seq<seq<int>>
    decreases hi + 1 - v
  {
    if v > hi then [] else Prepend(v, tails) + Block(v + 1, hi, tails)
  }

  /** The nested comprehension over the spans, the first octet outermost. */
  function Listing(spans: seq<Span>): seq<seq<int>>
    decreases |spans|
  {
    if spans == [] then [[]] else Block(spans[0].lo, spans[0].hi, Listing(spans[1..]))
  }

  lemma {:induction false} BlockLength(v: nat, hi: nat, tails: seq<seq<int>>)
    requires v <= hi + 1
    ensures |Block(v, hi, tails)| == (hi + 1 - v) * |tails|
    decreases hi + 1 - v
  {
    if v <= hi {
      BlockLength(v + 1, hi, tails);
      assert (hi + 1 - v) * |tails| == |tails| + (hi - v) * |tails|;
    }
  }

  /** The listing holds exactly as many addresses as the count says. */
  lemma {:induction false} ListingLength(spans: seq<Span>)
    requires Proper(spans)
    ensures |Listing(spans)| == Count(spans)
    decreases |spans|
  {
    if spans != [] {
      ListingLength(spans[1..]);
      BlockLength(spans[0].lo, spans[0].hi, Listing(spans[1..]));
    }
  }

  lemma {:induction false} BlockMembers(v: nat, hi: nat, tails: seq<seq<int>>, x: seq<int>)
    ensures x in Block(v, hi, tails) <==> |x| >= 1 && v <= x[0] <= hi && x[1..] in tails
    decreases hi + 1 - v
  {
    if v <= hi {
      BlockMembers(v + 1, hi, tails, x);
      var p := Prepend(v, tails);
      if x in p {
        var i :| 0 <= i < |p| && p[i] == x;
        assert x[1..] == tails[i];
      }
      if |x| >= 1 && x[0] == v && x[1..] in tails {
        var i :| 0 <= i < |tails| && tails[i] == x[1..];
        assert p[i] == x;
      }
    }
  }

  predicate Within(x: seq<int>, spans: seq<Span>) {
    |x| == |spans| && forall i :: 0 <= i < |spans| ==> spans[i].lo <= x[i] <= spans[i].hi
  }

  /** An address is listed exactly when every octet lies within its span. */
  lemma {:induction false} ListingMembers(spans: seq<Span>, x: seq<int>)
    ensures x in Listing(spans) <==> Within(x, spans)
    decreases |spans|
  {
    if spans == [] {
      assert x in [[]] <==> x == [];
    } else {
      BlockMembers(spans[0].lo, spans[0].hi, Listing(spans[1..]), x);
      if |x| >= 1 {
        ListingMembers(spans[1..], x[1..]);
        if Within(x[1..], spans[1..]) && spans[0].lo <= x[0] <= spans[0].hi {
          forall i | 0 <= i < |spans|
            ensures spans[i].lo <= x[i] <= spans[i].hi
          {
            if i > 0 {
              assert x[1..][i - 1] == x[i];
            }
          }
        }
        if Within(x, spans) {
          forall i | 0 <= i < |spans| - 1
            ensures spans[1..][i].lo <= x[1..][i] <= spans[1..][i].hi
          {
            assert x[1..][i] == x[i + 1];
          }
        }
      }
    }
  }

  /** `x` comes before `y` in the order the nested loops produce: compared octet by octet, first one first. */
  predicate Before(x: seq<int>, y: seq<int>)
    decreases |x|
  {
    |x| > 0 && |y| > 0 && (x[0] < y[0] || (x[0] == y[0] && Before(x[1..], y[1..])))
  }

  lemma {:induction false} BeforeIrreflexive(x: seq<int>)
    ensures !Before(x, x)
    decreases |x|
  {
    if |x| > 0 {
      BeforeIrreflexive(x[1..]);
    }
  }

  predicate Ascending(l: seq<seq<int>>) {
    forall i, j :: 0 <= i < j < |l| ==> Before(l[i], l[j])
  }

  lemma AscendingDistinct(l: seq<seq<int>>)
    requires Ascending(l)
    ensures forall i, j :: 0 <= i < j < |l| ==> l[i] != l[j]
  {
    forall i, j | 0 <= i < j < |l|
      ensures l[i] != l[j]
    {
      BeforeIrreflexive(l[i]);
    }
  }

  lemma AscendingConcat(a: seq<seq<int>>, b: seq<seq<int>>)
    requires Ascending(a) && Ascending(b)
    requires forall i, j :: 0 <= i < |a| && 0 <= j < |b| ==> Before(a[i], b[j])
    ensures Ascending(a + b)
  {
    var c := a + b;
    forall i, j | 0 <= i < j < |c|
      ensures Before(c[i], c[j])
    {
      if j < |a| {
        assert c[i] == a[i] && c[j] == a[j];
      } else if i >= |a| {
        assert c[i] == b[i - |a|] && c[j] == b[j - |a|];
      } else {
        assert c[i] == a[i] && c[j] == b[j - |a|];
      }
    }
  }

  lemma {:induction false} BlockAscending(v: nat, hi: nat, tails: seq<seq<int>>)
    requires Ascending(tails)
    ensures Ascending(Block(v, hi, tails))
    decreases hi + 1 - v
  {
    if v <= hi {
      BlockAscending(v + 1, hi, tails);
      var p := Prepend(v, tails);
      var rest := Block(v + 1, hi, tails);
      forall i, j | 0 <= i < j < |p|
        ensures Before(p[i], p[j])
      {
        assert p[i][1..] == tails[i] && p[j][1..] == tails[j];
      }
      forall i, j | 0 <= i < |p| && 0 <= j < |rest|
        ensures Before(p[i], rest[j])
      {
        BlockMembers(v + 1, hi, tails, rest[j]);
      }
      AscendingConcat(p, rest);
    }
  }

  /** The listing is strictly ascending, first octet outermost, and so has no address twice. */
  lemma {:induction false} ListingAscending(spans: seq<Span>)
    ensures Ascending(Listing(spans))
    ensures forall i, j :: 0 <= i < j < |Listing(spans)| ==> Listing(spans)[i] != Listing(spans)[j]
    decreases |spans|
  {
    if spans != [] {
      ListingAscending(spans[1..]);
      BlockAscending(spans[0].lo, spans[0].hi, Listing(spans[1..]));
    }
    AscendingDistinct(Listing(spans));
  }

  /** The dash branch once the spans are known: the cap, then the listing rendered. */
  function RangeListing(spans: seq<Span>): (r: Result<seq<string>, Error>)
    requires |spans| == 4 && Proper(spans)
    ensures r.Ok? <==> Count(spans) <= 65536
    ensures r.Err? ==> r.error == RangeTooLarge(Count(spans))
    ensures r.Ok? ==> |r.value| == Count(spans)
  {
    if Count(spans) > 65536 then Err(RangeTooLarge(Count(spans)))
    else
      ListingLength(spans);
      ListingOctets(spans);
      Ok(DottedList(Listing(spans)))
  }

  /** Every listed entry lies within the spans, so each is four octets. */
  lemma ListingOctets(spans: seq<Span>)
    requires |spans| == 4 && Proper(spans)
    ensures forall i :: 0 <= i < |Listing(spans)| ==> Within(Listing(spans)[i], spans)
    ensures OctetTuples(Listing(spans))
  {
    var l := Listing(spans);
    forall i | 0 <= i < |l|
      ensures Within(l[i], spans)
    {
      ListingMembers(spans, l[i]);
    }
  }

  /** Every entry is four integers within 0 to 255. */
  predicate OctetTuples(l: seq<seq<int>>) {
    forall i :: 0 <= i < |l| ==> |l[i]| == 4 && forall j :: 0 <= j < 4 ==> 0 <= l[i][j] <= 255
  }

  /** `f"{a}.{b}.{c}.{d}"` for each tuple the nested loops produce, in order. */
  function DottedList(l: seq<seq<int>>): (r: seq<string>)
    requires OctetTuples(l)
    ensures |r| == |l|
    ensures forall i :: 0 <= i < |r| ==> r[i] == Dotted(AsOctets(l[i]))
  {
    seq(|l|, i requires 0 <= i < |l| => Dotted(AsOctets(l[i])))
  }

  /** A dotted list reads back entry by entry as the tuples it was made from, and holds every one of them. */
  lemma DottedListReadsBack(l: seq<seq<int>>)
    requires OctetTuples(l)
    ensures forall i :: 0 <= i < |l| ==> IpToTuple(DottedList(l)[i]) == Ok(AsOctets(l[i])) && AsOctets(l[i]) == l[i]
    ensures forall x: seq<Byte> :: x in l ==> Dotted(x) in DottedList(l)
  {
    var r := DottedList(l);
    forall i | 0 <= i < |l|
      ensures IpToTuple(r[i]) == Ok(AsOctets(l[i]))
    {
      assert r[i] == Dotted(AsOctets(l[i]));
    }
    forall x: seq<Byte> | x in l
      ensures Dotted(x) in r
    {
      var k :| 0 <= k < |l| && l[k] == x;
      assert r[k] == Dotted(x);
    }
  }

  /** Four integers already known to lie within 0 to 255, as octets. */
  function AsOctets(x: seq<int>): (r: seq<Byte>)
    requires |x| == 4 && forall i :: 0 <= i < 4 ==> 0 <= x[i] <= 255
    ensures r == x
  {
    var o: seq<Byte> := seq(4, i requires 0 <= i < 4 => x[i] as Byte);
    o
  }

  /**
   * The rendered dash range lists exactly the addresses whose octets lie
   * within their spans, in first-octet-outermost ascending order.
   */
  lemma RangeListed(spans: seq<Span>)
    requires |spans| == 4 && Proper(spans) && Count(spans) <= 65536
    ensures var r := RangeListing(spans).value;
            && (forall i :: 0 <= i < |r| ==> IpToTuple(r[i]).Ok? && Within(IpToTuple(r[i]).value, spans))
            && (forall x: seq<Byte> :: Within(x, spans) ==> Dotted(x) in r)
            && (forall i, j :: 0 <= i < j < |r| ==> Before(IpToTuple(r[i]).value, IpToTuple(r[j]).value))
  {
    var l := Listing(spans);
    ListingOctets(spans);
    ListingAscending(spans);
    DottedListReadsBack(l);
    forall x: seq<Byte> | Within(x, spans)
      ensures x in l
    {
      ListingMembers(spans, x);
    }
  }

  /** The dash branch: exactly four segments, their spans, then the listing. */
  function RangeSpec(s: string): (r: Result<seq<string>, Error>)
    ensures r.Ok? ==> |r.value| <= 65536 && forall i :: 0 <= i < |r.value| ==> IpToTuple(r.value[i]).Ok?
  {
    var segments := Split(s, '.');
    if |segments| != 4 then Err(InvalidRangeFormat)
    else
      var spans :- ParseSpans(segments);
      RangeListingReadable(spans);
      RangeListing(spans)
  }

  /** Every entry of an accepted dash range is an address. */
  lemma RangeListingReadable(spans: seq<Span>)
    requires |spans| == 4 && Proper(spans)
    ensures RangeListing(spans).Ok? ==> forall i :: 0 <= i < |RangeListing(spans).value| ==> IpToTuple(RangeListing(spans).value[i]).Ok?
  {
    if Count(spans) <= 65536 {
      RangeListed(spans);
    }
  }

  /** `ip_analyze(ip)`: spaces dropped, then `/` before `-`, else one plain address. */
  function AnalyzeSpec(ip: string): (r: Result<seq<string>, Error>)
    ensures r.Ok? ==> |r.value| <= 65536 && forall i :: 0 <= i < |r.value| ==> IpToTuple(r.value[i]).Ok?
  {
    var s := RemoveSpaces(ip);
    if '/' in s then
      var (o, mask) :- ParseCidr(s);
      InteriorListed(o, mask);
      LargestBlock(mask);
      Ok(InteriorListing(o, mask))
    else if '-' in s then RangeSpec(s)
    else
      var o :- IpToTuple(s);
      Ok([Dotted(o)])
  }

  /** `ip_analyze(ip)`, with its segment loop. */
  method Analyze(ip: string) returns (r: Result<seq<string>, Error>)
    ensures r == AnalyzeSpec(ip)
  {
    var s := RemoveSpaces(ip);
    if '/' in s {
      var cidr := ParseCidr(s);
      if cidr.Err? {
        return Err(cidr.error);
      }
      var (o, mask) := cidr.value;
      return Ok(InteriorListing(o, mask));
    }
    if '-' in s {
      var segments := Split(s, '.');
      if |segments| != 4 {
        return Err(InvalidRangeFormat);
      }
      var parsed := ParseRangeSegments(segments);
      if parsed.Err? {
        return Err(parsed.error);
      }
      var (spans, count) := parsed.value;
      if count > 65536 {
        return Err(RangeTooLarge(count));
      }
      return RangeListing(spans);
    }
    var o := IpToTuple(s);
    if o.Err? {
      return Err(o.error);
    }
    return Ok([Dotted(o.value)]);
  }

  /** Spaces are dropped before anything is parsed, wherever they stand. */
  lemma SpacesIgnored(ip: string)
    ensures AnalyzeSpec(ip) == AnalyzeSpec(RemoveSpaces(ip))
  {
    RemoveSpacesIdempotent(ip);
  }

  /** With a `/`, the input is a CIDR block whatever else it holds, and fails exactly as its parse fails. */
  lemma SlashFirst(ip: string)
    requires '/' in RemoveSpaces(ip)
    ensures AnalyzeSpec(ip).Err? <==> ParseCidr(RemoveSpaces(ip)).Err?
    ensures AnalyzeSpec(ip).Err? ==> AnalyzeSpec(ip).error == ParseCidr(RemoveSpaces(ip)).error
  {
  }

  /**
   * The interior-only listing holds, ascending, every address strictly between
   * the network and broadcast addresses of the block and nothing else:
   * `2^(32 - mask) - 2` of them, none for masks 31 and 32.
   */
  lemma InteriorListed(o: seq<Byte>, mask: nat)
    requires |o| == 4 && 16 <= mask <= 32
    ensures var net := Network(Address(o), mask);
            var broadcast := net + BlockSize(mask) - 1;
            var r := InteriorListing(o, mask);
            && |r| == (if mask <= 30 then BlockSize(mask) - 2 else 0)
            && (forall i :: 0 <= i < |r| ==>
                  IpToTuple(r[i]).Ok? && net < Address(IpToTuple(r[i]).value) < broadcast)
            && (forall a :: net < a < broadcast ==> Render(a) in r)
            && (forall i, j :: 0 <= i < j < |r| ==>
                  Address(IpToTuple(r[i]).value) < Address(IpToTuple(r[j]).value))
  {
    var net := Network(Address(o), mask);
    InteriorAddresses(net, mask);
    RenderedReadsBack(Interior(net, mask));
  }

  /** With a `/` and a well-formed block, the interior-only listing of that block is the result. */
  lemma CidrInterior(ip: string)
    requires '/' in RemoveSpaces(ip) && ParseCidr(RemoveSpaces(ip)).Ok?
    ensures AnalyzeSpec(ip) == Ok(InteriorListing(ParseCidr(RemoveSpaces(ip)).value.0, ParseCidr(RemoveSpaces(ip)).value.1))
  {
  }

  /**
   * A dash range is accepted exactly when it has four well-formed segments
   * describing at most 65536 addresses (65536 itself included); it then lists
   * that many addresses, each within its spans.
   */
  lemma DashRange(ip: string)
    requires '/' !in RemoveSpaces(ip) && '-' in RemoveSpaces(ip)
    ensures var segments := Split(RemoveSpaces(ip), '.');
            var r := AnalyzeSpec(ip);
            && (r.Ok? <==> |segments| == 4 && ParseSpans(segments).Ok? && Count(ParseSpans(segments).value) <= 65536)
            && (|segments| != 4 ==> r == Err(InvalidRangeFormat))
            && (|segments| == 4 && ParseSpans(segments).Ok? ==>
                  var spans := ParseSpans(segments).value;
                  && (Count(spans) > 65536 ==> r == Err(RangeTooLarge(Count(spans))))
                  && (r.Ok? ==> |r.value| == Count(spans) && r.value == RangeListing(spans).value))
  {
  }

  /** A plain address gives a single entry: the same address, its octets rewritten in canonical decimal. */
  lemma PlainAddress(ip: string)
    requires '/' !in RemoveSpaces(ip) && '-' !in RemoveSpaces(ip)
    ensures AnalyzeSpec(ip).Ok? <==> IpToTuple(RemoveSpaces(ip)).Ok?
    ensures AnalyzeSpec(ip).Err? ==> AnalyzeSpec(ip).error == InvalidAddress
    ensures AnalyzeSpec(ip).Ok? ==>
              && |AnalyzeSpec(ip).value| == 1
              && IpToTuple(AnalyzeSpec(ip).value[0]) == IpToTuple(RemoveSpaces(ip))
  {
    var s := RemoveSpaces(ip);
    if IpToTuple(s).Ok? {
      assert IpToTuple(Dotted(IpToTuple(s).value)) == IpToTuple(s);
    }
  }
}
