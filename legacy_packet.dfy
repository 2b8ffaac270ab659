/**
 * The older builders of the single-file script: `format_data` truncates
 * instead of raising, so the message and execute frames never fail on
 * length, and the website frame takes 25 random bytes and a rotated copy of
 * its inner length field.
 */
module LegacyPacket {
  import opened Base
  import opened Encoding
  import Packet

  /**
   * `format_data(data, max_length)`, the truncating policy: the UTF-16LE text
   * padded with zero bytes and cut to exactly `max_length` bytes.
   */
  function FormatData(data: string, maxLength: Option<int>): (r: Result<seq<Byte>, Packet.Error>)
    ensures maxLength.None? ==> r == Ok(Utf16Le(data))
    ensures maxLength.Some? ==> (r.Ok? <==> maxLength.value > 0)
    ensures maxLength.Some? && maxLength.value <= 0 ==> r == Err(Packet.InvalidMaxLength(maxLength.value))
    ensures r.Ok? && maxLength.Some? ==> |r.value| == maxLength.value
    ensures r.Ok? && maxLength.Some? && |Utf16Le(data)| >= maxLength.value ==>
              r.value == Utf16Le(data)[..maxLength.value]
    ensures r.Ok? && maxLength.Some? && |Utf16Le(data)| < maxLength.value ==>
              ZeroPadded(r.value, Utf16Le(data))
  {
    var encoded := Utf16Le(data);
    match maxLength
    case None => Ok(encoded)
    case Some(n) =>
      if n <= 0 then Err(Packet.InvalidMaxLength(n))
      else
        var padded := encoded + Zeros(if |encoded| < n then n - |encoded| else 0);
        assert padded[..|encoded|] == encoded;
        assert |encoded| >= n ==> padded[..n] == encoded[..n];
        Ok(padded[..n])
  }

  /** Whenever the strict policy accepts a text, the truncating policy produces the same bytes. */
  lemma FormatDataAgrees(data: string, maxLength: Option<int>)
    requires Packet.FormatData(data, maxLength).Ok?
    ensures FormatData(data, maxLength) == Packet.FormatData(data, maxLength)
  {
    if maxLength.Some? {
      var n := maxLength.value;
      var strict := Packet.FormatData(data, maxLength).value;
      var cut := FormatData(data, maxLength).value;
      var enc := Utf16Le(data);
      forall i | 0 <= i < n
        ensures cut[i] == strict[i]
      {
        if |enc| == n {
          assert cut == enc[..n] && strict[..|enc|] == enc;
          assert cut[i] == enc[i] == strict[..|enc|][i];
        } else if i < |enc| {
          assert cut[..|enc|][i] == enc[i] == strict[..|enc|][i];
        } else {
          assert cut[|enc|..][i - |enc|] == 0 == strict[|enc|..][i - |enc|];
        }
      }
      assert cut == strict;
    }
  }

  /** The truncated field keeps the longest whole prefix of the text that fits. */
  lemma FormatDataKeepsPrefix(prefix: string, rest: string, n: int)
    requires n > 0 && |Utf16Le(prefix)| <= n
    ensures FormatData(prefix + rest, Some(n)).value[..|Utf16Le(prefix)|] == Utf16Le(prefix)
  {
    Utf16LeAppend(prefix, rest);
    var enc := Utf16Le(prefix + rest);
    var f := FormatData(prefix + rest, Some(n)).value;
    assert enc[..|Utf16Le(prefix)|] == Utf16Le(prefix);
    if |enc| >= n {
      assert f[..|Utf16Le(prefix)|] == enc[..n][..|Utf16Le(prefix)|];
    } else {
      assert f[..|Utf16Le(prefix)|] == f[..|enc|][..|Utf16Le(prefix)|];
    }
  }

  /** `pkg_message(msg)`: always 954 bytes; text beyond 400 code units is cut off. */
  function Message(msg: string, token: seq<Byte>): (r: seq<Byte>)
    requires |token| == 16
    ensures |r| == 954
    ensures Packet.DmocLengthFields(r)
    ensures r[..56] == Packet.MessageHead(token)
    ensures r[56..856] == FormatData(msg, Some(800)).value
    ensures AllZero(r[856..])
  {
    var data := FormatData(msg, Some(800)).value;
    var head := Packet.MessageHead(token);
    var f := head + (data + Zeros(98));
    Packet.FieldsOfPrefix(head, data + Zeros(98));
    assert f[..56] == head;
    assert f[56..856] == data;
    assert f[856..] == Zeros(98);
    f
  }

  /** The older message builder sends the same frame as the current one whenever the current one accepts. */
  lemma MessageAgrees(msg: string, token: seq<Byte>)
    requires |token| == 16 && Packet.Message(msg, token).Ok?
    ensures Message(msg, token) == Packet.Message(msg, token).value
  {
    FormatDataAgrees(msg, Some(800));
    var legacy := Message(msg, token);
    var cur := Packet.Message(msg, token).value;
    assert legacy[..56] == cur[..56];
    assert legacy[56..856] == cur[56..856];
    assert forall j :: 0 <= j < 98 ==> legacy[856..][j] == 0 == cur[856..][j];
    assert legacy == legacy[..56] + legacy[56..856] + legacy[856..];
    assert cur == cur[..56] + cur[56..856] + cur[856..];
  }

  /**
   * `pkg_execute(executable_file, arguments, mode)`: the current layout, but
   * the path and the arguments are cut to their fields, so only the mode can fail.
   */
  function Execute(path: string, arguments: string, mode: string, token: seq<Byte>): (r: Result<seq<Byte>, Packet.Error>)
    requires |token| == 16
    ensures r.Ok? <==> Packet.ModeNumber(mode).Some?
    ensures r.Err? ==> r.error == Packet.InvalidMode(mode)
    ensures r.Ok? ==>
              && |r.value| == 906
              && Packet.DmocLengthFields(r.value)
              && r.value[..60] == Packet.ExecuteHead(token)
              && r.value[60..572] == FormatData(path, Some(512)).value
              && r.value[572..826] == FormatData(arguments, Some(254)).value
              && AllZero(r.value[826..892])
              && r.value[892] == Packet.ModeNumber(mode).value
              && r.value[893..] == [0x00, 0x00, 0x00, 0x01, 0x00, 0x00, 0x00, 0x00, 0x00, 0x00, 0x00, 0x00, 0x00]
  {
    var data0 := FormatData(path, Some(512)).value;
    var data1 := FormatData(arguments, Some(254)).value;
    var data2 :- Packet.ModeBlock(mode);
    var f := Packet.ExecuteFrame(token, data0, data1, data2);
    assert f[893..] == data2[1..];
    Ok(f)
  }

  /** The older execute builder sends the same frame as the current one whenever the current one accepts. */
  lemma ExecuteAgrees(path: string, arguments: string, mode: string, token: seq<Byte>)
    requires |token| == 16 && Packet.Execute(path, arguments, mode, token).Ok?
    ensures Execute(path, arguments, mode, token) == Packet.Execute(path, arguments, mode, token)
  {
    FormatDataAgrees(path, Some(512));
    FormatDataAgrees(arguments, Some(254));
  }

  /** The 19 bytes after the rotated length field of the older website frame. */
  const WebsiteTail: seq<Byte> :=
    [0x00, 0x00, 0x00, 0x00, 0x02, 0x00, 0x00, 0x00, 0x00, 0x00, 0x00, 0x18, 0x00, 0x00, 0x00, 0x00, 0x00, 0x00, 0x00]

  /** `b[1:] + b[0:1]`: the first byte moved to the end. */
  function RotateLeft(b: seq<Byte>): (r: seq<Byte>)
    requires |b| > 0
    ensures |r| == |b| && r[|r| - 1] == b[0] && r[..|r| - 1] == b[1..]
  {
    b[1..] + b[..1]
  }

  /** The older website frame laid out around an encoded url whose first length field fits. */
  function WebsiteFrame(token: seq<Byte>, data: seq<Byte>): (r: seq<Byte>)
    requires |token| == 25 && |data| + 36 < 0x1_0000_0000
    ensures |r| == |data| + 64
    ensures r[..8] == Packet.DmocPrefix && U32At(r, 8) == |data| + 36 && r[12..37] == token
    ensures r[37..41] == RotateLeft(LittleEndian(|data| + 23, 4)) && r[41..60] == WebsiteTail
    ensures r[60..|r| - 4] == data && AllZero(r[|r| - 4..])
  {
    var siz1 := Le32(|data| + 36);
    var siz2 := RotateLeft(LittleEndian(|data| + 23, 4));
    var head := Packet.DmocPrefix + siz1 + token + siz2 + WebsiteTail;
    var f := head + (data + Zeros(4));
    assert f[..60] == head;
    assert head[8..12] == siz1 && head[12..37] == token && head[37..41] == siz2 && head[41..60] == WebsiteTail;
    assert f[8..12] == siz1;
    assert f[60..|f| - 4] == data;
    assert f[|f| - 4..] == Zeros(4);
    f
  }

  /**
   * `pkg_website(url)`, older layout: 25 random bytes at 12, the inner length
   * `len(data) + 23` as four little-endian bytes rotated left at 37, the
   * 19-byte constant at 41, then the url and four zero bytes.
   */
  function Website(url: string, token: seq<Byte>): (r: Result<seq<Byte>, Packet.Error>)
    requires |token| == 25
    ensures r.Ok? <==> |Utf16Le(url)| + 36 < 0x1_0000_0000
    ensures r.Err? ==> r.error == Packet.Overflow(|Utf16Le(url)| + 36)
    ensures r.Ok? ==>
              && |r.value| == |Utf16Le(url)| + 64
              && r.value[..8] == Packet.DmocPrefix
              && U32At(r.value, 8) == |r.value| - 28
              && r.value[12..37] == token
              && r.value[37..41] == RotateLeft(LittleEndian(|Utf16Le(url)| + 23, 4))
              && r.value[41..60] == WebsiteTail
              && r.value[60..|r.value| - 4] == Utf16Le(url)
              && AllZero(r.value[|r.value| - 4..])
  {
    var data := FormatData(url, None).value;
    var _ :- Packet.Le32Field(|data| + 36);
    Ok(WebsiteFrame(token, data))
  }

  /** The field at offset 40 of an older website frame holds the low byte of the inner length only. */
  lemma InnerFieldOfFrame(f: seq<Byte>, len2: nat)
    requires |f| >= 60 && f[37..41] == RotateLeft(LittleEndian(len2, 4)) && f[41..60] == WebsiteTail
    ensures U32At(f, 40) == len2 % 256
  {
    assert f[40] == f[37..41][3];
    assert f[41] == f[41..60][0] && f[42] == f[41..60][1] && f[43] == f[41..60][2];
  }

  /**
   * The field at offset 36 of an older website frame is the last random byte
   * followed by the three high bytes of the inner length.
   */
  lemma OuterFieldOfFrame(f: seq<Byte>, len2: nat)
    requires |f| >= 60 && len2 < 0x1_0000_0000 && f[37..41] == RotateLeft(LittleEndian(len2, 4))
    ensures U32At(f, 36) == f[36] as int + 256 * (len2 / 256)
  {
    var w := f[36..40];
    U32AtLittleEndian(f, 36);
    assert LittleEndian(len2, 4)[1..] == LittleEndian(len2 / 256, 3);
    assert w[1..] == f[37..41][..3] == LittleEndian(len2 / 256, 3);
    assert Pow256(3) == 0x100_0000;
    LittleEndianRoundTrip(len2 / 256, 3);
  }

  /**
   * Where the current frames carry the inner length at offset 36, the older
   * website frame carries the last random byte and the inner length's three
   * high bytes, so the two agree exactly when that random byte happens to
   * equal the length's low byte.
   */
  lemma WebsiteOuterField(url: string, token: seq<Byte>)
    requires |token| == 25 && Website(url, token).Ok?
    ensures U32At(Website(url, token).value, 36) == token[24] as int + 256 * ((|Utf16Le(url)| + 23) / 256)
    ensures U32At(Website(url, token).value, 36) == |Website(url, token).value| - 41 <==>
              token[24] as int == (|Utf16Le(url)| + 23) % 256
  {
    var f := Website(url, token).value;
    var len2 := |Utf16Le(url)| + 23;
    assert f[36] == f[12..37][24] == token[24];
    OuterFieldOfFrame(f, len2);
    assert |f| - 41 == len2;
  }

  /**
   * Where the current frames carry the inner length, the older website frame
   * carries only its low byte, so the two agree exactly for urls of fewer
   * than 233 encoded bytes.
   */
  lemma WebsiteInnerField(url: string, token: seq<Byte>)
    requires |token| == 25 && Website(url, token).Ok?
    ensures U32At(Website(url, token).value, 40) == (|Utf16Le(url)| + 23) % 256
    ensures U32At(Website(url, token).value, 40) == |Website(url, token).value| - 41 <==> |Utf16Le(url)| + 23 < 256
  {
    var f := Website(url, token).value;
    var len2 := |Utf16Le(url)| + 23;
    InnerFieldOfFrame(f, len2);
    assert |f| - 41 == len2;
    assert len2 % 256 == len2 <==> len2 < 256 by {
      if len2 < 256 {
        DivisionUnique(len2, 256, 0, len2);
      }
    }
  }

  /** A url of 117 characters already loses the inner length: 257 is sent as 1. */
  lemma WebsiteInnerFieldCounterexample(token: seq<Byte>)
    requires |token| == 25
    ensures var url := seq(117, _ => 'a');
            && Website(url, token).Ok?
            && |Website(url, token).value| - 41 == 257
            && U32At(Website(url, token).value, 40) == 1
  {
    var url := seq(117, _ => 'a');
    Utf16LeBmpLength(url);
    WebsiteInnerField(url, token);
  }
}
