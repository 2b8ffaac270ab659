/**
 * The address expansion of the single-file sender: the same parser as the
 * package's `ip_analyze`, except that a CIDR block lists every address of the
 * block, network and broadcast addresses included.
 */
module SenderIp {
  import opened Base
  import opened Text
  import IpAnalyze

  /** `range(ip32, ip32 + (1 << (32 - mask)))`: the whole block starting at `net`. */
  function FullBlock(net: nat, mask: nat): (r: seq<int>)
    requires mask <= 32
    ensures |r| == IpAnalyze.BlockSize(mask)
    ensures forall a :: a in r <==> net <= a < net + IpAnalyze.BlockSize(mask)
    ensures forall i, j :: 0 <= i < j < |r| ==> r[i] < r[j]
  {
    IpAnalyze.RangeMembers(net, net + IpAnalyze.BlockSize(mask));
    IpAnalyze.Range(net, net + IpAnalyze.BlockSize(mask))
  }

  /**
   * The whole block holds, ascending, exactly the 32-bit addresses whose
   * network under `mask` is `net`: `2^(32 - mask)` of them.
   */
  lemma FullBlockAddresses(net: nat, mask: nat)
    requires mask <= 32 && net + IpAnalyze.BlockSize(mask) <= IpAnalyze.AddressSpace
    requires net % IpAnalyze.BlockSize(mask) == 0
    ensures |FullBlock(net, mask)| == IpAnalyze.BlockSize(mask)
    ensures forall a :: a in FullBlock(net, mask) <==>
              0 <= a < IpAnalyze.AddressSpace && IpAnalyze.Network(a, mask) == net
    ensures forall i, j :: 0 <= i < j < |FullBlock(net, mask)| ==> FullBlock(net, mask)[i] < FullBlock(net, mask)[j]
    ensures IpAnalyze.InSpace(FullBlock(net, mask))
  {
    var r := FullBlock(net, mask);
    forall a | a in r
      ensures 0 <= a < IpAnalyze.AddressSpace && IpAnalyze.Network(a, mask) == net
    {
      IpAnalyze.NetworkOfBlock(net, mask, a - net);
    }
    forall a | 0 <= a < IpAnalyze.AddressSpace && IpAnalyze.Network(a, mask) == net
      ensures a in r
    {
      assert r[a - net] == a;
    }
  }

  /** The rendered block in the full-block version. */
  function FullListing(o: seq<Byte>, mask: nat): (r: seq<string>)
    requires |o| == 4 && 16 <= mask <= 32
    ensures |r| == IpAnalyze.BlockSize(mask)
  {
    var net := IpAnalyze.Network(IpAnalyze.Address(o), mask);
    FullBlockAddresses(net, mask);
    IpAnalyze.Rendered(FullBlock(net, mask))
  }

  /**
   * The full listing holds, ascending, every address of the block that
   * contains `o`, and nothing else: `2^(32 - mask)` of them, a single one for
   * mask 32.
   */
  lemma FullListed(o: seq<Byte>, mask: nat)
    requires |o| == 4 && 16 <= mask <= 32
    ensures var net := IpAnalyze.Network(IpAnalyze.Address(o), mask);
            var r := FullListing(o, mask);
            && |r| == IpAnalyze.BlockSize(mask)
            && (forall i :: 0 <= i < |r| ==>
                  var t := IpAnalyze.IpToTuple(r[i]);
                  t.Ok? && IpAnalyze.Network(IpAnalyze.Address(t.value), mask) == net)
            && (forall a :: 0 <= a < IpAnalyze.AddressSpace && IpAnalyze.Network(a, mask) == net ==>
                  IpAnalyze.Render(a) in r)
            && (forall i, j :: 0 <= i < j < |r| ==>
                  IpAnalyze.Address(IpAnalyze.IpToTuple(r[i]).value) < IpAnalyze.Address(IpAnalyze.IpToTuple(r[j]).value))
  {
    var net := IpAnalyze.Network(IpAnalyze.Address(o), mask);
    FullBlockAddresses(net, mask);
    IpAnalyze.RenderedReadsBack(FullBlock(net, mask));
  }

  /** The full listing runs from the network address through the broadcast address. */
  lemma FullListingEnds(o: seq<Byte>, mask: nat)
    requires |o| == 4 && 16 <= mask <= 32
    ensures var net := IpAnalyze.Network(IpAnalyze.Address(o), mask);
            var r := FullListing(o, mask);
            && |r| == IpAnalyze.BlockSize(mask)
            && IpAnalyze.IpToTuple(r[0]).Ok?
            && IpAnalyze.Address(IpAnalyze.IpToTuple(r[0]).value) == net
            && IpAnalyze.IpToTuple(r[|r| - 1]).Ok?
            && IpAnalyze.Address(IpAnalyze.IpToTuple(r[|r| - 1]).value) == net + IpAnalyze.BlockSize(mask) - 1
  {
    var net := IpAnalyze.Network(IpAnalyze.Address(o), mask);
    FullBlockAddresses(net, mask);
    IpAnalyze.RenderedReadsBack(FullBlock(net, mask));
  }

  /**
   * For masks up to 30 the interior-only listing is the full listing without
   * its first (network) and last (broadcast) entries; for masks 31 and 32 it
   * is empty while the full listing holds two entries and one.
   */
  lemma InteriorTrimsFull(o: seq<Byte>, mask: nat)
    requires |o| == 4 && 16 <= mask <= 32
    ensures var full := FullListing(o, mask);
            mask <= 30 ==> IpAnalyze.InteriorListing(o, mask) == full[1..|full| - 1]
    ensures mask > 30 ==> IpAnalyze.InteriorListing(o, mask) == [] && |FullListing(o, mask)| == 33 - mask
  {
    var net := IpAnalyze.Network(IpAnalyze.Address(o), mask);
    FullBlockAddresses(net, mask);
    IpAnalyze.SmallBlocks(mask);
    if mask <= 30 {
      InteriorInsideFull(net, mask);
      IpAnalyze.RenderedSlice(FullBlock(net, mask), 1, IpAnalyze.BlockSize(mask) - 1);
    }
  }

  /** For masks up to 30 the interior is the whole block without its first and last addresses. */
  lemma InteriorInsideFull(net: nat, mask: nat)
    requires mask <= 30
    ensures IpAnalyze.BlockSize(mask) >= 4
    ensures IpAnalyze.Interior(net, mask) == FullBlock(net, mask)[1..IpAnalyze.BlockSize(mask) - 1]
  {
    IpAnalyze.SmallBlocks(mask);
    var interior := IpAnalyze.Interior(net, mask);
    var full := FullBlock(net, mask);
    forall i | 0 <= i < |interior|
      ensures interior[i] == full[1..IpAnalyze.BlockSize(mask) - 1][i]
    {
      assert interior[i] == net + 1 + i;
      assert full[i + 1] == net + 1 + i;
    }
  }

  /** `ip_analyze(ip)` of the single-file sender: the package version with full CIDR blocks. */
  function AnalyzeSpec(ip: string): (r: Result<seq<string>, IpAnalyze.Error>)
    ensures r.Ok? ==> |r.value| <= 65536 && forall i :: 0 <= i < |r.value| ==> IpAnalyze.IpToTuple(r.value[i]).Ok?
  {
    var s := RemoveSpaces(ip);
    if '/' in s then
      var (o, mask) :- IpAnalyze.ParseCidr(s);
      FullListed(o, mask);
      IpAnalyze.LargestBlock(mask);
      Ok(FullListing(o, mask))
    else IpAnalyze.AnalyzeSpec(s)
  }

  /** `ip_analyze(ip)` of the single-file sender, with its segment loop. */
  method Analyze(ip: string) returns (r: Result<seq<string>, IpAnalyze.Error>)
    ensures r == AnalyzeSpec(ip)
  {
    var s := RemoveSpaces(ip);
    RemoveSpacesIdempotent(ip);
    if '/' in s {
      var cidr := IpAnalyze.ParseCidr(s);
      if cidr.Err? {
        return Err(cidr.error);
      }
      var (o, mask) := cidr.value;
      return Ok(FullListing(o, mask));
    }
    if '-' in s {
      var segments := Split(s, '.');
      if |segments| != 4 {
        return Err(IpAnalyze.InvalidRangeFormat);
      }
      var parsed := IpAnalyze.ParseRangeSegments(segments);
      if parsed.Err? {
        return Err(parsed.error);
      }
      var (spans, count) := parsed.value;
      if count > 65536 {
        return Err(IpAnalyze.RangeTooLarge(count));
      }
      return IpAnalyze.RangeListing(spans);
    }
    var o := IpAnalyze.IpToTuple(s);
    if o.Err? {
      return Err(o.error);
    }
    return Ok([IpAnalyze.Dotted(o.value)]);
  }

  /** Without a `/`, the two versions give the same result or the same error. */
  lemma AgreesWithoutSlash(ip: string)
    requires '/' !in RemoveSpaces(ip)
    ensures AnalyzeSpec(ip) == IpAnalyze.AnalyzeSpec(ip)
  {
    IpAnalyze.SpacesIgnored(ip);
  }

  /**
   * With a `/`, both versions reject the same inputs with the same error, and
   * on the ones they accept this version lists the whole block while the
   * package version lists its interior.
   */
  lemma CidrVersions(ip: string)
    requires '/' in RemoveSpaces(ip)
    ensures AnalyzeSpec(ip).Err? <==> IpAnalyze.AnalyzeSpec(ip).Err?
    ensures AnalyzeSpec(ip).Err? ==> AnalyzeSpec(ip).error == IpAnalyze.AnalyzeSpec(ip).error
    ensures AnalyzeSpec(ip).Ok? ==>
              var (o, mask) := IpAnalyze.ParseCidr(RemoveSpaces(ip)).value;
              && AnalyzeSpec(ip).value == FullListing(o, mask)
              && IpAnalyze.AnalyzeSpec(ip).value == IpAnalyze.InteriorListing(o, mask)
  {
  }
}
