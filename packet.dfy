/**
 * The frame builders of the current package: one total function per command
 * of (arguments, session token). Each frame is a concatenation of byte
 * literals, little-endian 32-bit fields and text encoded by `FormatData`.
 * The 16 random bytes of the session token are a parameter.
 */
module Packet {
  import opened Base
  import opened Encoding

  /** The exceptions the builders raise, one tag per cause. */
  datatype Error =
    | InvalidMaxLength(maxLength: int)        // ValueError: a field width of zero or less
    | DataTooLong(length: nat, maxLength: int) // ValueError: encoded text wider than its field
    | InvalidMode(mode: string)               // ValueError: unknown window mode
    | Overflow(value: int)                    // OverflowError: a 32-bit field that cannot hold the value
    | UnknownKey(key: string)                 // KeyError: a settings name outside its table

  /**
   * `format_data(data, max_length)`, the strict policy: the text as UTF-16LE,
   * zero-padded to `max_length` bytes; a text too long for the field is an error.
   */
  function FormatData(data: string, maxLength: Option<int>): (r: Result<seq<Byte>, Error>)
    ensures maxLength.None? ==> r == Ok(Utf16Le(data))
    ensures maxLength.Some? && maxLength.value <= 0 ==> r == Err(InvalidMaxLength(maxLength.value))
    ensures maxLength.Some? && maxLength.value > 0 ==>
              (r.Ok? <==> |Utf16Le(data)| <= maxLength.value) &&
              (r.Err? ==> r.error == DataTooLong(|Utf16Le(data)|, maxLength.value))
    ensures r.Ok? && maxLength.Some? ==>
              |r.value| == maxLength.value && ZeroPadded(r.value, Utf16Le(data))
  {
    var encoded := Utf16Le(data);
    match maxLength
    case None => Ok(encoded)
    case Some(n) =>
      if n <= 0 then Err(InvalidMaxLength(n))
      else
        var padded := encoded + Zeros(if |encoded| < n then n - |encoded| else 0);
        assert padded[..|encoded|] == encoded;
        if |padded| > n then Err(DataTooLong(|padded|, n)) else Ok(padded)
  }

  /** A text with a NUL character appended, as the rename and setting frames store names and passwords. */
  lemma NulTerminatedField(text: string, width: int)
    requires width > 0
    ensures |Utf16Le(text + "\0")| == 2 * CodeUnits(text) + 2
    ensures FormatData(text + "\0", Some(width)).Ok? <==> 2 * CodeUnits(text) + 2 <= width
    ensures FormatData(text + "\0", Some(width)).Ok? ==>
              ZeroPadded(FormatData(text + "\0", Some(width)).value, Utf16Le(text) + [0x00, 0x00])
  {
    Utf16LeAppend(text, "\0");
    Utf16LeLength(text);
  }

  /** `value.to_bytes(4, "little")` */
  function Le32Field(value: int): (r: Result<seq<Byte>, Error>)
    ensures r.Ok? <==> 0 <= value < 0x1_0000_0000
    ensures r.Err? ==> r.error == Overflow(value)
    ensures r.Ok? ==> |r.value| == 4 && FromLittleEndian(r.value) == value && U32At(r.value, 0) == value
  {
    assert Pow256(4) == 0x1_0000_0000;
    match ToBytes(value, 4, true)
    case Ok(b) =>
      U32AtLittleEndian(b, 0);
      assert b[0..4] == b;
      Ok(b)
    case Err(_) => Err(Overflow(value))
  }

  /** `b"DMOC\x00\x00\x01\x00"`, the first eight bytes of every frame of the DMOC family. */
  const DmocPrefix: seq<Byte> := [0x44, 0x4D, 0x4F, 0x43, 0x00, 0x00, 0x01, 0x00]

  /** `b"GCMN"` */
  const GcmnTag: seq<Byte> := [0x47, 0x43, 0x4D, 0x4E]

  /**
   * The length fields every DMOC frame carries: the 32-bit value at offset 8
   * is the frame length less 28, and the values at offsets 36 and 40 are that
   * less 13.
   */
  predicate DmocLengthFields(f: seq<Byte>) {
    && |f| >= 44
    && f[..8] == DmocPrefix
    && U32At(f, 8) == |f| - 28
    && U32At(f, 36) == |f| - 41
    && U32At(f, 40) == |f| - 41
  }

  /** Appending bytes leaves the fields of the part in front unchanged. */
  lemma FieldsOfPrefix(head: seq<Byte>, tail: seq<Byte>)
    requires |head| >= 44 && head[..8] == DmocPrefix
    ensures (head + tail)[..8] == DmocPrefix
    ensures U32At(head + tail, 8) == U32At(head, 8)
    ensures U32At(head + tail, 36) == U32At(head, 36)
    ensures U32At(head + tail, 40) == U32At(head, 40)
  {
    assert (head + tail)[..8] == head[..8];
  }

  /** The eight bytes naming the sender in a DMOC header: port 20000 and the address 192.168.c.d. */
  function Endpoint(c: Byte, d: Byte): (r: seq<Byte>)
    ensures |r| == 8
  {
    [0x20, 0x4E, 0x00, 0x00, 0xC0, 0xA8, c, d]
  }

  /**
   * The 44 bytes every DMOC header starts with: the prefix, the first length
   * field, the session token, eight bytes naming the sender (`20 4E 00 00`
   * and an address `C0 A8 ..`), the two inner length fields; then the
   * command-specific rest of the header.
   */
  function DmocHead(size1: seq<Byte>, token: seq<Byte>, origin: seq<Byte>,
                    size2: seq<Byte>, size3: seq<Byte>, tail: seq<Byte>): (r: seq<Byte>)
    requires |size1| == 4 && |token| == 16 && |origin| == 8 && |size2| == 4 && |size3| == 4
    ensures |r| == 44 + |tail|
    ensures r[..8] == DmocPrefix && r[12..28] == token && r[28..36] == origin && r[44..] == tail
    ensures U32At(r, 8) == U32At(size1, 0)
    ensures U32At(r, 36) == U32At(size2, 0)
    ensures U32At(r, 40) == U32At(size3, 0)
  {
    var r := DmocPrefix + size1 + token + origin + size2 + size3 + tail;
    assert r[8..12] == size1;
    assert r[36..40] == size2;
    assert r[40..44] == size3;
    r
  }

  // ---------------------------------------------------------------- message

  function MessageHead(token: seq<Byte>): (r: seq<Byte>)
    requires |token| == 16
    ensures |r| == 56 && r[..8] == DmocPrefix && r[12..28] == token
    ensures U32At(r, 8) == 926 && U32At(r, 36) == 913 && U32At(r, 40) == 913
  {
    DmocHead([0x9E, 0x03, 0x00, 0x00], token, Endpoint(0x6C, 0x01),
             [0x91, 0x03, 0x00, 0x00], [0x91, 0x03, 0x00, 0x00],
             [0x00, 0x08, 0x00, 0x00, 0x00, 0x00, 0x00, 0x00, 0x05, 0x00, 0x00, 0x00])
  }

  /**
   * `pkg_message(msg)`: a 56-byte header, the message in an 800-byte field and
   * 98 zero bytes; a message of more than 400 UTF-16 code units does not fit.
   */
  function Message(msg: string, token: seq<Byte>): (r: Result<seq<Byte>, Error>)
    requires |token| == 16
    ensures r.Ok? <==> |Utf16Le(msg)| <= 800
    ensures r.Err? ==> r.error == DataTooLong(|Utf16Le(msg)|, 800)
    ensures r.Ok? ==>
              && |r.value| == 954
              && DmocLengthFields(r.value)
              && r.value[..56] == MessageHead(token)
              && ZeroPadded(r.value[56..856], Utf16Le(msg))
              && AllZero(r.value[856..])
  {
    var data :- FormatData(msg, Some(800));
    var f := MessageHead(token) + data + Zeros(98);
    FieldsOfPrefix(MessageHead(token), data + Zeros(98));
    assert f == MessageHead(token) + (data + Zeros(98));
    assert f[..56] == MessageHead(token);
    assert f[56..856] == data;
    assert f[856..] == Zeros(98);
    Ok(f)
  }

  // ---------------------------------------------------------------- execute

  function ExecuteHead(token: seq<Byte>): (r: seq<Byte>)
    requires |token| == 16
    ensures |r| == 60 && r[..8] == DmocPrefix && r[12..28] == token
    ensures U32At(r, 8) == 878 && U32At(r, 36) == 865 && U32At(r, 40) == 865
  {
    DmocHead([0x6E, 0x03, 0x00, 0x00], token, Endpoint(0xE9, 0x01),
             [0x61, 0x03, 0x00, 0x00], [0x61, 0x03, 0x00, 0x00],
             [0x00, 0x02, 0x00, 0x00, 0x00, 0x00, 0x00, 0x00, 0x0F, 0x00, 0x00, 0x00, 0x01, 0x00, 0x00, 0x00])
  }

  /** The window modes `pkg_execute` accepts, numbered as the first byte of the mode block. */
  function ModeNumber(mode: string): Option<nat> {
    if mode == "normal" then Some(0)
    else if mode == "minimize" then Some(1)
    else if mode == "maximize" then Some(2)
    else None
  }

  /** The 14-byte mode block: the mode number, then the constant `00 00 00 01` and nine zero bytes. */
  function ModeBlock(mode: string): (r: Result<seq<Byte>, Error>)
    ensures r.Ok? <==> ModeNumber(mode).Some?
    ensures r.Err? ==> r.error == InvalidMode(mode)
    ensures r.Ok? ==> |r.value| == 14 && r.value[0] == ModeNumber(mode).value
                      && r.value[1..] == [0x00, 0x00, 0x00, 0x01, 0x00, 0x00, 0x00, 0x00, 0x00, 0x00, 0x00, 0x00, 0x00]
  {
    if mode == "normal" then Ok([0x00, 0x00, 0x00, 0x00, 0x01, 0x00, 0x00, 0x00, 0x00, 0x00, 0x00, 0x00, 0x00, 0x00])
    else if mode == "minimize" then Ok([0x01, 0x00, 0x00, 0x00, 0x01, 0x00, 0x00, 0x00, 0x00, 0x00, 0x00, 0x00, 0x00, 0x00])
    else if mode == "maximize" then Ok([0x02, 0x00, 0x00, 0x00, 0x01, 0x00, 0x00, 0x00, 0x00, 0x00, 0x00, 0x00, 0x00, 0x00])
    else Err(InvalidMode(mode))
  }

  /** The execute frame laid out: header, path field, arguments field, 66 zero bytes, mode block. */
  function ExecuteFrame(token: seq<Byte>, data0: seq<Byte>, data1: seq<Byte>, data2: seq<Byte>): (r: seq<Byte>)
    requires |token| == 16 && |data0| == 512 && |data1| == 254 && |data2| == 14
    ensures |r| == 906 && DmocLengthFields(r) && r[..60] == ExecuteHead(token)
    ensures r[60..572] == data0 && r[572..826] == data1 && AllZero(r[826..892]) && r[892..] == data2
  {
    var head := ExecuteHead(token);
    var body := data0 + data1 + Zeros(66) + data2;
    var f := head + body;
    FieldsOfPrefix(head, body);
    assert f[60..572] == data0;
    assert f[572..826] == data1;
    assert f[826..892] == Zeros(66);
    assert f[892..] == data2;
    f
  }

  /**
   * `pkg_execute(executable_file, arguments, mode)`: the path in a 512-byte
   * field at offset 60, the arguments in a 254-byte field at 572, 66 zero
   * bytes and the mode block. The path is checked first, then the arguments,
   * then the mode.
   */
  function Execute(path: string, arguments: string, mode: string, token: seq<Byte>): (r: Result<seq<Byte>, Error>)
    requires |token| == 16
    ensures r.Ok? <==> |Utf16Le(path)| <= 512 && |Utf16Le(arguments)| <= 254 && ModeNumber(mode).Some?
    ensures r.Err? ==> r.error == (if |Utf16Le(path)| > 512 then DataTooLong(|Utf16Le(path)|, 512)
                                   else if |Utf16Le(arguments)| > 254 then DataTooLong(|Utf16Le(arguments)|, 254)
                                   else InvalidMode(mode))
    ensures r.Ok? ==>
              && |r.value| == 906
              && DmocLengthFields(r.value)
              && r.value[..60] == ExecuteHead(token)
              && ZeroPadded(r.value[60..572], Utf16Le(path))
              && ZeroPadded(r.value[572..826], Utf16Le(arguments))
              && AllZero(r.value[826..892])
              && r.value[892] == ModeNumber(mode).value
              && r.value[893..] == [0x00, 0x00, 0x00, 0x01, 0x00, 0x00, 0x00, 0x00, 0x00, 0x00, 0x00, 0x00, 0x00]
  {
    var data0 :- FormatData(path, Some(512));
    var data1 :- FormatData(arguments, Some(254));
    var data2 :- ModeBlock(mode);
    var f := ExecuteFrame(token, data0, data1, data2);
    assert f[893..] == data2[1..];
    Ok(f)
  }

  // ---------------------------------------------------------------- website

  /** The website frame laid out around an encoded url whose length fields fit. */
  function WebsiteFrame(token: seq<Byte>, data: seq<Byte>): (r: seq<Byte>)
    requires |token| == 16 && |data| + 36 < 0x1_0000_0000
    ensures |r| == |data| + 64 && DmocLengthFields(r)
    ensures U32At(r, 8) == |data| + 36 && U32At(r, 36) == |data| + 23
    ensures r[12..28] == token && r[60..|r| - 4] == data && AllZero(r[|r| - 4..])
  {
    var size2 := Le32(|data| + 23);
    var head := DmocHead(Le32(|data| + 36), token, Endpoint(0xE9, 0x01), size2, size2,
                         [0x00, 0x02, 0x00, 0x00, 0x00, 0x00, 0x00, 0x00, 0x18, 0x00, 0x00, 0x00, 0x00, 0x00, 0x00, 0x00]);
    var f := head + (data + Zeros(4));
    FieldsOfPrefix(head, data + Zeros(4));
    assert f[12..28] == head[12..28];
    assert f[60..|f| - 4] == data;
    assert f[|f| - 4..] == Zeros(4);
    f
  }

  /**
   * `pkg_website(url)`: the url is not limited in length. The length fields are
   * computed from the encoded url, which starts at offset 60 and is followed by
   * four zero bytes.
   */
  function Website(url: string, token: seq<Byte>): (r: Result<seq<Byte>, Error>)
    requires |token| == 16
    ensures r.Ok? <==> |Utf16Le(url)| + 36 < 0x1_0000_0000
    ensures r.Err? ==> r.error == Overflow(|Utf16Le(url)| + 36)
    ensures r.Ok? ==>
              && |r.value| == |Utf16Le(url)| + 64
              && DmocLengthFields(r.value)
              && U32At(r.value, 8) == |Utf16Le(url)| + 36
              && U32At(r.value, 36) == |Utf16Le(url)| + 23
              && r.value[12..28] == token
              && r.value[60..|r.value| - 4] == Utf16Le(url)
              && AllZero(r.value[|r.value| - 4..])
  {
    var data := FormatData(url, None).value;
    var _ :- Le32Field(|data| + 36);
    Ok(WebsiteFrame(token, data))
  }

  // ------------------------------------------------- shutdown, close windows

  /** The first 52 bytes shared by `pkg_shutdown` and `pkg_close_windows`. */
  function TimedPrefix(token: seq<Byte>): (r: seq<Byte>)
    requires |token| == 16
    ensures |r| == 52 && r[..8] == DmocPrefix && r[12..28] == token
    ensures U32At(r, 8) == 554 && U32At(r, 36) == 541 && U32At(r, 40) == 541
  {
    DmocHead([0x2A, 0x02, 0x00, 0x00], token, Endpoint(0xE9, 0x01),
             [0x1D, 0x02, 0x00, 0x00], [0x1D, 0x02, 0x00, 0x00],
             [0x00, 0x02, 0x00, 0x00, 0x00, 0x00, 0x00, 0x00])
  }

  /**
   * The header shared by `pkg_shutdown` and `pkg_close_windows`: the
   * two-byte command selector at 52, the "no timeout" marker at 54 and the
   * timeout (0 when absent) at 56.
   */
  function TimedHead(token: seq<Byte>, selector: seq<Byte>, timeout: Option<int>, timeoutField: seq<Byte>): (r: seq<Byte>)
    requires |token| == 16 && |selector| == 2 && |timeoutField| == 4
    ensures |r| == 68 && r[..8] == DmocPrefix && r[12..28] == token
    ensures U32At(r, 8) == 554 && U32At(r, 36) == 541 && U32At(r, 40) == 541
    ensures r[..52] == TimedPrefix(token)
    ensures r[52..54] == selector
    ensures r[54..56] == (if timeout.None? then [0x00, 0x10] else [0x00, 0x00])
    ensures r[56..60] == timeoutField
    ensures r[60..68] == [0x01, 0x00, 0x00, 0x00, 0x00, 0x00, 0x00, 0x00]
  {
    var prefix := TimedPrefix(token);
    var rest := selector + (if timeout.None? then [0x00, 0x10] else [0x00, 0x00]) + timeoutField
      + [0x01, 0x00, 0x00, 0x00, 0x00, 0x00, 0x00, 0x00];
    var r := prefix + rest;
    FieldsOfPrefix(prefix, rest);
    assert r[..52] == prefix && r[52..] == rest;
    assert r[12..28] == prefix[12..28];
    r
  }

  /** `timeout or 0` */
  function TimeoutValue(timeout: Option<int>): int {
    if timeout.None? then 0 else timeout.value
  }

  /** A shutdown-style frame laid out: the 68-byte header, the 256-byte message field and 258 zero bytes. */
  function TimedLayout(head: seq<Byte>, data: seq<Byte>): (r: seq<Byte>)
    requires |head| == 68 && head[..8] == DmocPrefix && |data| == 256
    requires U32At(head, 8) == 554 && U32At(head, 36) == 541 && U32At(head, 40) == 541
    ensures |r| == 582 && DmocLengthFields(r) && r[..68] == head
    ensures r[68..324] == data && AllZero(r[324..])
  {
    var f := head + (data + Zeros(258));
    FieldsOfPrefix(head, data + Zeros(258));
    assert f[..68] == head;
    assert f[68..324] == data;
    assert f[324..] == Zeros(258);
    f
  }

  function TimedFrame(selector: seq<Byte>, timeout: Option<int>, message: string, token: seq<Byte>): (r: Result<seq<Byte>, Error>)
    requires |token| == 16 && |selector| == 2
    ensures r.Ok? <==> 0 <= TimeoutValue(timeout) < 0x1_0000_0000 && |Utf16Le(message)| <= 256
    ensures r.Err? ==> r.error == (if !(0 <= TimeoutValue(timeout) < 0x1_0000_0000) then Overflow(TimeoutValue(timeout))
                                   else DataTooLong(|Utf16Le(message)|, 256))
    ensures r.Ok? ==>
              && |r.value| == 582
              && DmocLengthFields(r.value)
              && r.value[12..28] == token
              && r.value[52..54] == selector
              && r.value[54..56] == (if timeout.None? then [0x00, 0x10] else [0x00, 0x00])
              && U32At(r.value, 56) == TimeoutValue(timeout)
              && r.value[60..68] == [0x01, 0x00, 0x00, 0x00, 0x00, 0x00, 0x00, 0x00]
              && ZeroPadded(r.value[68..324], Utf16Le(message))
              && AllZero(r.value[324..])
  {
    var timeoutField :- Le32Field(TimeoutValue(timeout));
    var head := TimedHead(token, selector, timeout, timeoutField);
    var data :- FormatData(message, Some(256));
    var f := TimedLayout(head, data);
    assert f[12..28] == head[12..28] && f[52..54] == head[52..54] && f[54..56] == head[54..56];
    assert f[56..60] == head[56..60] && f[60..68] == head[60..68];
    Ok(f)
  }

  /** `pkg_shutdown(timeout, message, reboot)`: selector `13 00` to reboot, `14 00` to shut down. */
  function Shutdown(timeout: Option<int>, message: string, reboot: bool, token: seq<Byte>): (r: Result<seq<Byte>, Error>)
    requires |token| == 16
    ensures r.Ok? <==> 0 <= TimeoutValue(timeout) < 0x1_0000_0000 && |Utf16Le(message)| <= 256
    ensures r.Err? ==> r.error == (if !(0 <= TimeoutValue(timeout) < 0x1_0000_0000) then Overflow(TimeoutValue(timeout))
                                   else DataTooLong(|Utf16Le(message)|, 256))
    ensures r.Ok? ==>
              && |r.value| == 582
              && DmocLengthFields(r.value)
              && r.value[12..28] == token
              && r.value[52..54] == (if reboot then [0x13, 0x00] else [0x14, 0x00])
              && r.value[54..56] == (if timeout.None? then [0x00, 0x10] else [0x00, 0x00])
              && U32At(r.value, 56) == TimeoutValue(timeout)
              && r.value[60..68] == [0x01, 0x00, 0x00, 0x00, 0x00, 0x00, 0x00, 0x00]
              && ZeroPadded(r.value[68..324], Utf16Le(message))
              && AllZero(r.value[324..])
  {
    TimedFrame(if reboot then [0x13, 0x00] else [0x14, 0x00], timeout, message, token)
  }

  /** `pkg_close_windows(timeout, message)`: the shutdown layout with selector `02 00`. */
  function CloseWindows(timeout: Option<int>, message: string, token: seq<Byte>): (r: Result<seq<Byte>, Error>)
    requires |token| == 16
    ensures r.Ok? <==> 0 <= TimeoutValue(timeout) < 0x1_0000_0000 && |Utf16Le(message)| <= 256
    ensures r.Err? ==> r.error == (if !(0 <= TimeoutValue(timeout) < 0x1_0000_0000) then Overflow(TimeoutValue(timeout))
                                   else DataTooLong(|Utf16Le(message)|, 256))
    ensures r.Ok? ==>
              && |r.value| == 582
              && DmocLengthFields(r.value)
              && r.value[12..28] == token
              && r.value[52..54] == [0x02, 0x00]
              && r.value[54..56] == (if timeout.None? then [0x00, 0x10] else [0x00, 0x00])
              && U32At(r.value, 56) == TimeoutValue(timeout)
              && r.value[60..68] == [0x01, 0x00, 0x00, 0x00, 0x00, 0x00, 0x00, 0x00]
              && ZeroPadded(r.value[68..324], Utf16Le(message))
              && AllZero(r.value[324..])
  {
    TimedFrame([0x02, 0x00], timeout, message, token)
  }

  // -------------------------------------------------------- close top window

  function CloseTopWindowHead(token: seq<Byte>): (r: seq<Byte>)
    requires |token| == 16
    ensures |r| == 56 && r[..8] == DmocPrefix && r[12..28] == token
    ensures U32At(r, 8) == 878 && U32At(r, 36) == 865 && U32At(r, 40) == 865
  {
    DmocHead([0x6E, 0x03, 0x00, 0x00], token, Endpoint(0x01, 0x9B),
             [0x61, 0x03, 0x00, 0x00], [0x61, 0x03, 0x00, 0x00],
             [0x00, 0x02, 0x00, 0x00, 0x00, 0x00, 0x00, 0x00, 0x0E, 0x00, 0x00, 0x00])
  }

  /** `pkg_close_top_window()`: the 56-byte header and exactly 850 zero bytes. */
  function CloseTopWindow(token: seq<Byte>): (r: seq<Byte>)
    requires |token| == 16
    ensures |r| == 906
    ensures DmocLengthFields(r)
    ensures r[..56] == CloseTopWindowHead(token)
    ensures AllZero(r[56..])
  {
    var head := CloseTopWindowHead(token);
    var f := head + Zeros(850);
    FieldsOfPrefix(head, Zeros(850));
    assert f[56..] == Zeros(850);
    f
  }

  // ----------------------------------------------------------------- rename

  /** The fixed part of the rename header: the tag, `00 00 01 00 44 00 00 00` and a 16-byte identifier. */
  const RenameHead: seq<Byte> :=
    GcmnTag + [0x00, 0x00, 0x01, 0x00, 0x44, 0x00, 0x00, 0x00,
               0x66, 0xB1, 0xE4, 0x92, 0x3F, 0x9A, 0x36, 0x4A, 0x94, 0x3A, 0x3D, 0xA3, 0xBD, 0x97, 0x60, 0x41]

  /**
   * `pkg_rename(name, name_id)`: a 96-byte GCMN frame, the id as a 32-bit
   * field at 28 and the name with a NUL character appended in a 64-byte
   * field at 32, so at most 31 code units of name fit.
   */
  function Rename(name: string, nameId: int): (r: Result<seq<Byte>, Error>)
    ensures r.Ok? <==> 0 <= nameId < 0x1_0000_0000 && CodeUnits(name) <= 31
    ensures r.Err? ==> r.error == (if !(0 <= nameId < 0x1_0000_0000) then Overflow(nameId)
                                   else DataTooLong(|Utf16Le(name + "\0")|, 64))
    ensures r.Ok? ==>
              && |r.value| == 96
              && r.value[..4] == GcmnTag
              && U32At(r.value, 8) == |r.value| - 28
              && U32At(r.value, 28) == nameId
              && ZeroPadded(r.value[32..], Utf16Le(name) + [0x00, 0x00])
  {
    NulTerminatedField(name, 64);
    var id :- Le32Field(nameId);
    var data :- FormatData(name + "\0", Some(64));
    var f := RenameHead + id + data;
    assert |RenameHead| == 28 && f[..28] == RenameHead;
    assert f[..4] == GcmnTag;
    assert f[8] == 0x44 && f[9] == 0x00 && f[10] == 0x00 && f[11] == 0x00;
    assert f[28..32] == id;
    assert f[32..] == data;
    Ok(f)
  }

  // ---------------------------------------------------------------- setting

  /** The arguments of `pkg_setting`; the three-way options are the names the source looks up. */
  datatype Settings = Settings(
    network: bool,
    transmissionReliability: string,
    offlineLagTimeDetection: int,
    audio: bool,
    playbackMute: bool,
    recordingMute: bool,
    recordingVolume: int,
    playbackVolume: int,
    password: bool,
    passwordValue: string,
    preventingProcessTermination: string,
    lockScreenWhenMaliciouslyOffline: string,
    hideTheSetupNameButton: string)

  /** The keys of the `lv` dict, each at the position of its value. */
  const Levels: seq<string> := ["low", "medium", "high"]

  /** The keys of the `setup` dict, each at the position of its value. */
  const SetupChoices: seq<string> := ["disable", "enable", "auto"]

  /**
   * `table[key]` for a dict that maps its keys to 0, 1, 2, ... in order: the
   * position of the key, or KeyError for a key the dict does not hold.
   */
  function TableValue(keys: seq<string>, key: string): (r: Result<nat, Error>)
    ensures r.Ok? <==> key in keys
    ensures r.Err? ==> r.error == UnknownKey(key)
    ensures r.Ok? ==> r.value < |keys| && keys[r.value] == key
    ensures r.Ok? ==> forall j :: 0 <= j < r.value ==> keys[j] != key
    decreases |keys|
  {
    if keys == [] then Err(UnknownKey(key))
    else if keys[0] == key then Ok(0)
    else
      var v :- TableValue(keys[1..], key);
      Ok(v + 1)
  }

  /** The two dicts give `low`, `medium`, `high` and `disable`, `enable`, `auto` the values 0, 1, 2. */
  lemma TableValues()
    ensures TableValue(Levels, "low") == Ok(0) && TableValue(Levels, "medium") == Ok(1) && TableValue(Levels, "high") == Ok(2)
    ensures TableValue(SetupChoices, "disable") == Ok(0) && TableValue(SetupChoices, "enable") == Ok(1)
    ensures TableValue(SetupChoices, "auto") == Ok(2)
  {
  }

  function BoolValue(b: bool): nat { if b then 1 else 0 }

  function SettingHead(token: seq<Byte>): (r: seq<Byte>)
    requires |token| == 16
    ensures |r| == 60 && r[..8] == DmocPrefix && r[12..28] == token
    ensures U32At(r, 8) == 149 && U32At(r, 36) == 136 && U32At(r, 40) == 136
  {
    DmocHead([0x95, 0x00, 0x00, 0x00], token, Endpoint(0xE9, 0x01),
             [0x88, 0x00, 0x00, 0x00], [0x88, 0x00, 0x00, 0x00],
             [0x00, 0x40, 0x00, 0x00, 0x00, 0x00, 0x00, 0x00, 0x06, 0x00, 0x00, 0x00, 0x7B, 0x00, 0x00, 0x00])
  }

  /** The four leading fields that can fail, the level and three 32-bit values, all accepted. */
  predicate LeadingAccepted(s: Settings) {
    && s.transmissionReliability in Levels
    && 0 <= s.offlineLagTimeDetection < 0x1_0000_0000
    && 0 <= s.recordingVolume < 0x1_0000_0000
    && 0 <= s.playbackVolume < 0x1_0000_0000
  }

  /** Every value of the settings frame fits its field and every name is in its table. */
  predicate SettingsAccepted(s: Settings) {
    && LeadingAccepted(s)
    && CodeUnits(s.passwordValue) <= 32
    && s.preventingProcessTermination in SetupChoices
    && s.lockScreenWhenMaliciouslyOffline in SetupChoices
    && s.hideTheSetupNameButton in SetupChoices
  }

  /** `v.to_bytes(4, "little")` for each value in turn, concatenated, once every value is known to fit. */
  function Le32Words(values: seq<nat>): (r: seq<Byte>)
    requires forall i :: 0 <= i < |values| ==> values[i] < 0x1_0000_0000
    ensures |r| == 4 * |values|
    ensures forall i :: 0 <= i < |values| ==> U32At(r, 4 * i) == values[i]
  {
    if values == [] then []
    else
      var first := Le32(values[0]);
      var rest := Le32Words(values[1..]);
      var f := first + rest;
      assert forall i :: 1 <= i < |values| ==> values[i] == values[1..][i - 1];
      assert U32At(f, 0) == values[0] by { U32AtPrefix(first, rest, 0); }
      assert forall i :: 1 <= i < |values| ==> U32At(f, 4 * i) == values[i] by {
        forall i | 1 <= i < |values|
          ensures U32At(f, 4 * i) == values[i]
        {
          U32AtShift(first, rest, 4 * (i - 1));
        }
      }
      f
  }

  /** `network_setup` once the lookup is done and the lag time is known to fit. */
  function NetworkSetup(s: Settings, level: nat): (r: seq<Byte>)
    requires level < 3 && 0 <= s.offlineLagTimeDetection < 0x1_0000_0000
    ensures |r| == 12
    ensures U32At(r, 0) == BoolValue(s.network) && U32At(r, 4) == level
    ensures U32At(r, 8) == s.offlineLagTimeDetection
  {
    var words: seq<nat> := [BoolValue(s.network), level, s.offlineLagTimeDetection];
    var fields := Le32Words(words);
    assert U32At(fields, 4 * 0) == words[0] && U32At(fields, 4 * 1) == words[1] && U32At(fields, 4 * 2) == words[2];
    fields
  }

  /** `audio_setup` once both volumes are known to fit. */
  function AudioSetup(s: Settings): (r: seq<Byte>)
    requires 0 <= s.recordingVolume < 0x1_0000_0000 && 0 <= s.playbackVolume < 0x1_0000_0000
    ensures |r| == 20
    ensures U32At(r, 0) == BoolValue(s.audio) && U32At(r, 4) == BoolValue(s.playbackMute)
    ensures U32At(r, 8) == BoolValue(s.recordingMute) && U32At(r, 12) == s.recordingVolume
    ensures U32At(r, 16) == s.playbackVolume
  {
    var words: seq<nat> := [BoolValue(s.audio), BoolValue(s.playbackMute), BoolValue(s.recordingMute),
                            s.recordingVolume, s.playbackVolume];
    var fields := Le32Words(words);
    assert U32At(fields, 4 * 0) == words[0] && U32At(fields, 4 * 1) == words[1] && U32At(fields, 4 * 2) == words[2];
    assert U32At(fields, 4 * 3) == words[3] && U32At(fields, 4 * 4) == words[4];
    fields
  }

  /** The nine leading setting fields: `network_setup`, `audio_setup` and the password flag. */
  function LeadingSettingWords(s: Settings, level: nat): (r: seq<Byte>)
    requires level < 3
    requires 0 <= s.offlineLagTimeDetection < 0x1_0000_0000
    requires 0 <= s.recordingVolume < 0x1_0000_0000 && 0 <= s.playbackVolume < 0x1_0000_0000
    ensures |r| == 36
    ensures U32At(r, 0) == BoolValue(s.network) && U32At(r, 4) == level
    ensures U32At(r, 8) == s.offlineLagTimeDetection && U32At(r, 12) == BoolValue(s.audio)
    ensures U32At(r, 16) == BoolValue(s.playbackMute) && U32At(r, 20) == BoolValue(s.recordingMute)
    ensures U32At(r, 24) == s.recordingVolume && U32At(r, 28) == s.playbackVolume
    ensures U32At(r, 32) == BoolValue(s.password)
  {
    var network := NetworkSetup(s, level);
    var audio := AudioSetup(s);
    var flag := Le32(BoolValue(s.password));
    var f := network + (audio + flag);
    U32AtPrefix(network, audio + flag, 0);
    U32AtPrefix(network, audio + flag, 4);
    U32AtPrefix(network, audio + flag, 8);
    U32AtShift(network, audio + flag, 0);
    U32AtShift(network, audio + flag, 4);
    U32AtShift(network, audio + flag, 8);
    U32AtShift(network, audio + flag, 12);
    U32AtShift(network, audio + flag, 16);
    U32AtShift(network, audio + flag, 20);
    U32AtPrefix(audio, flag, 0);
    U32AtPrefix(audio, flag, 4);
    U32AtPrefix(audio, flag, 8);
    U32AtPrefix(audio, flag, 12);
    U32AtPrefix(audio, flag, 16);
    U32AtShift(audio, flag, 0);
    f
  }

  /** `network_setup + audio_setup` and the password flag: nine 32-bit fields. */
  function LeadingSettingFields(s: Settings): (r: Result<seq<Byte>, Error>)
    ensures r.Ok? <==> && s.transmissionReliability in Levels
                       && 0 <= s.offlineLagTimeDetection < 0x1_0000_0000
                       && 0 <= s.recordingVolume < 0x1_0000_0000
                       && 0 <= s.playbackVolume < 0x1_0000_0000
    ensures s.transmissionReliability !in Levels ==> r == Err(UnknownKey(s.transmissionReliability))
    ensures s.transmissionReliability in Levels && !(0 <= s.offlineLagTimeDetection < 0x1_0000_0000) ==>
              r == Err(Overflow(s.offlineLagTimeDetection))
    ensures (s.transmissionReliability in Levels && 0 <= s.offlineLagTimeDetection < 0x1_0000_0000
             && !(0 <= s.recordingVolume < 0x1_0000_0000)) ==> r == Err(Overflow(s.recordingVolume))
    ensures (s.transmissionReliability in Levels && 0 <= s.offlineLagTimeDetection < 0x1_0000_0000
             && 0 <= s.recordingVolume < 0x1_0000_0000 && !(0 <= s.playbackVolume < 0x1_0000_0000)) ==>
              r == Err(Overflow(s.playbackVolume))
    ensures r.Ok? ==>
              && |r.value| == 36
              && U32At(r.value, 0) == BoolValue(s.network)
              && U32At(r.value, 4) == TableValue(Levels, s.transmissionReliability).value
              && U32At(r.value, 8) == s.offlineLagTimeDetection
              && U32At(r.value, 12) == BoolValue(s.audio)
              && U32At(r.value, 16) == BoolValue(s.playbackMute)
              && U32At(r.value, 20) == BoolValue(s.recordingMute)
              && U32At(r.value, 24) == s.recordingVolume
              && U32At(r.value, 28) == s.playbackVolume
              && U32At(r.value, 32) == BoolValue(s.password)
  {
    var level :- TableValue(Levels, s.transmissionReliability);
    var _ :- Le32Field(s.offlineLagTimeDetection);
    var _ :- Le32Field(s.recordingVolume);
    var _ :- Le32Field(s.playbackVolume);
    Ok(LeadingSettingWords(s, level))
  }

  /** `secure_setup`: three 32-bit fields looked up in the `setup` table. */
  function TrailingSettingFields(s: Settings): (r: Result<seq<Byte>, Error>)
    ensures r.Ok? <==> && s.preventingProcessTermination in SetupChoices
                       && s.lockScreenWhenMaliciouslyOffline in SetupChoices
                       && s.hideTheSetupNameButton in SetupChoices
    ensures s.preventingProcessTermination !in SetupChoices ==> r == Err(UnknownKey(s.preventingProcessTermination))
    ensures s.preventingProcessTermination in SetupChoices && s.lockScreenWhenMaliciouslyOffline !in SetupChoices ==>
              r == Err(UnknownKey(s.lockScreenWhenMaliciouslyOffline))
    ensures (s.preventingProcessTermination in SetupChoices && s.lockScreenWhenMaliciouslyOffline in SetupChoices
             && s.hideTheSetupNameButton !in SetupChoices) ==> r == Err(UnknownKey(s.hideTheSetupNameButton))
    ensures r.Ok? ==>
              && |r.value| == 12
              && U32At(r.value, 0) == TableValue(SetupChoices, s.preventingProcessTermination).value
              && U32At(r.value, 4) == TableValue(SetupChoices, s.lockScreenWhenMaliciouslyOffline).value
              && U32At(r.value, 8) == TableValue(SetupChoices, s.hideTheSetupNameButton).value
  {
    var prevent :- TableValue(SetupChoices, s.preventingProcessTermination);
    var lockScreen :- TableValue(SetupChoices, s.lockScreenWhenMaliciouslyOffline);
    var hideButton :- TableValue(SetupChoices, s.hideTheSetupNameButton);
    var words: seq<nat> := [prevent, lockScreen, hideButton];
    var fields := Le32Words(words);
    assert U32At(fields, 4 * 0) == words[0] && U32At(fields, 4 * 1) == words[1] && U32At(fields, 4 * 2) == words[2];
    Ok(fields)
  }

  /** The setting frame laid out: header, nine fields, the password field, three fields and three zero bytes. */
  function SettingFrame(token: seq<Byte>, leading: seq<Byte>, passwordText: seq<Byte>, trailing: seq<Byte>): (r: seq<Byte>)
    requires |token| == 16 && |leading| == 36 && |passwordText| == 66 && |trailing| == 12
    ensures |r| == 177 && DmocLengthFields(r) && r[12..28] == token
    ensures U32At(r, 60) == U32At(leading, 0) && U32At(r, 64) == U32At(leading, 4)
    ensures U32At(r, 68) == U32At(leading, 8) && U32At(r, 72) == U32At(leading, 12)
    ensures U32At(r, 76) == U32At(leading, 16) && U32At(r, 80) == U32At(leading, 20)
    ensures U32At(r, 84) == U32At(leading, 24) && U32At(r, 88) == U32At(leading, 28)
    ensures U32At(r, 92) == U32At(leading, 32)
    ensures r[96..162] == passwordText
    ensures U32At(r, 162) == U32At(trailing, 0) && U32At(r, 166) == U32At(trailing, 4)
    ensures U32At(r, 170) == U32At(trailing, 8)
    ensures AllZero(r[174..])
  {
    var head := SettingHead(token);
    var body := leading + passwordText + trailing + Zeros(3);
    var f := head + body;
    FieldsOfPrefix(head, body);
    assert f[12..28] == head[12..28];
    assert f[60..96] == leading;
    assert f[96..162] == passwordText;
    assert f[162..174] == trailing;
    assert f[174..] == Zeros(3);
    f
  }

  /**
   * `pkg_setting(...)`: a 177-byte frame of 32-bit fields after the
   * 60-byte header. The recording volume comes before the playback volume,
   * and the password with a NUL character appended takes a 66-byte field.
   */
  function Setting(s: Settings, token: seq<Byte>): (r: Result<seq<Byte>, Error>)
    requires |token| == 16
    ensures r.Ok? <==> SettingsAccepted(s)
    ensures s.transmissionReliability !in Levels ==> r == Err(UnknownKey(s.transmissionReliability))
    ensures s.transmissionReliability in Levels && !(0 <= s.offlineLagTimeDetection < 0x1_0000_0000) ==>
              r == Err(Overflow(s.offlineLagTimeDetection))
    ensures (s.transmissionReliability in Levels && 0 <= s.offlineLagTimeDetection < 0x1_0000_0000
             && !(0 <= s.recordingVolume < 0x1_0000_0000)) ==> r == Err(Overflow(s.recordingVolume))
    ensures (s.transmissionReliability in Levels && 0 <= s.offlineLagTimeDetection < 0x1_0000_0000
             && 0 <= s.recordingVolume < 0x1_0000_0000 && !(0 <= s.playbackVolume < 0x1_0000_0000)) ==>
              r == Err(Overflow(s.playbackVolume))
    ensures LeadingAccepted(s) && CodeUnits(s.passwordValue) > 32 ==>
              r == Err(DataTooLong(|Utf16Le(s.passwordValue + "\0")|, 66))
    ensures LeadingAccepted(s) && CodeUnits(s.passwordValue) <= 32 && s.preventingProcessTermination !in SetupChoices ==>
              r == Err(UnknownKey(s.preventingProcessTermination))
    ensures (LeadingAccepted(s) && CodeUnits(s.passwordValue) <= 32 && s.preventingProcessTermination in SetupChoices
             && s.lockScreenWhenMaliciouslyOffline !in SetupChoices) ==> r == Err(UnknownKey(s.lockScreenWhenMaliciouslyOffline))
    ensures (LeadingAccepted(s) && CodeUnits(s.passwordValue) <= 32 && s.preventingProcessTermination in SetupChoices
             && s.lockScreenWhenMaliciouslyOffline in SetupChoices && s.hideTheSetupNameButton !in SetupChoices) ==>
              r == Err(UnknownKey(s.hideTheSetupNameButton))
    ensures r.Ok? ==>
              && |r.value| == 177
              && DmocLengthFields(r.value)
              && r.value[12..28] == token
              && U32At(r.value, 60) == BoolValue(s.network)
              && U32At(r.value, 64) == TableValue(Levels, s.transmissionReliability).value
              && U32At(r.value, 68) == s.offlineLagTimeDetection
              && U32At(r.value, 72) == BoolValue(s.audio)
              && U32At(r.value, 76) == BoolValue(s.playbackMute)
              && U32At(r.value, 80) == BoolValue(s.recordingMute)
              && U32At(r.value, 84) == s.recordingVolume
              && U32At(r.value, 88) == s.playbackVolume
              && U32At(r.value, 92) == BoolValue(s.password)
              && ZeroPadded(r.value[96..162], Utf16Le(s.passwordValue) + [0x00, 0x00])
              && U32At(r.value, 162) == TableValue(SetupChoices, s.preventingProcessTermination).value
              && U32At(r.value, 166) == TableValue(SetupChoices, s.lockScreenWhenMaliciouslyOffline).value
              && U32At(r.value, 170) == TableValue(SetupChoices, s.hideTheSetupNameButton).value
              && AllZero(r.value[174..])
  {
    NulTerminatedField(s.passwordValue, 66);
    var leading :- LeadingSettingFields(s);
    var passwordText :- FormatData(s.passwordValue + "\0", Some(66));
    var trailing :- TrailingSettingFields(s);
    Ok(SettingFrame(token, leading, passwordText, trailing))
  }

  // -------------------------------------------------------------- properties

  /** The text stored in a field is recovered by decoding the field's leading bytes. */
  lemma FormatDataRoundTrip(data: string, maxLength: Option<int>)
    requires FormatData(data, maxLength).Ok?
    ensures |Utf16Le(data)| <= |FormatData(data, maxLength).value|
    ensures DecodeUtf16Le(FormatData(data, maxLength).value[..|Utf16Le(data)|]) == Some(data)
  {
    var f := FormatData(data, maxLength).value;
    assert f[..|Utf16Le(data)|] == Utf16Le(data) by {
      if maxLength.None? {
        assert f == Utf16Le(data);
      }
    }
    Utf16LeRoundTrip(data);
  }

  /** A field of `n` bytes takes exactly the texts of at most `n / 2` UTF-16 code units. */
  lemma FormatDataCapacity(data: string, n: int)
    requires n > 0
    ensures FormatData(data, Some(n)).Ok? <==> CodeUnits(data) <= n / 2
  {
    Utf16LeLength(data);
  }

  /** A message of at most 400 UTF-16 code units is sent; a longer one raises. */
  lemma MessageCapacity(msg: string, token: seq<Byte>)
    requires |token| == 16
    ensures Message(msg, token).Ok? <==> CodeUnits(msg) <= 400
  {
    Utf16LeLength(msg);
  }

  /** The receiver recovers the message by decoding the text region of the frame. */
  lemma MessageRoundTrip(msg: string, token: seq<Byte>)
    requires |token| == 16 && Message(msg, token).Ok?
    ensures DecodeUtf16Le(Message(msg, token).value[56..56 + |Utf16Le(msg)|]) == Some(msg)
  {
    var f := Message(msg, token).value;
    assert f[56..56 + |Utf16Le(msg)|] == f[56..856][..|Utf16Le(msg)|];
    Utf16LeRoundTrip(msg);
  }

  /** How a shutdown-style frame that is sent is put together. */
  lemma TimedFrameParts(selector: seq<Byte>, timeout: Option<int>, message: string, token: seq<Byte>)
    requires |token| == 16 && |selector| == 2 && TimedFrame(selector, timeout, message, token).Ok?
    ensures Le32Field(TimeoutValue(timeout)).Ok? && FormatData(message, Some(256)).Ok?
    ensures TimedFrame(selector, timeout, message, token).value ==
            TimedLayout(TimedHead(token, selector, timeout, Le32Field(TimeoutValue(timeout)).value),
                        FormatData(message, Some(256)).value)
  {
  }

  /** Headers that differ only in the selector agree outside bytes 52..54. */
  lemma TimedHeadsAgree(token: seq<Byte>, sel1: seq<Byte>, sel2: seq<Byte>, timeout: Option<int>, timeoutField: seq<Byte>)
    requires |token| == 16 && |sel1| == 2 && |sel2| == 2 && |timeoutField| == 4
    ensures TimedHead(token, sel1, timeout, timeoutField)[..52] == TimedHead(token, sel2, timeout, timeoutField)[..52]
    ensures TimedHead(token, sel1, timeout, timeoutField)[54..] == TimedHead(token, sel2, timeout, timeoutField)[54..]
  {
    var h1 := TimedHead(token, sel1, timeout, timeoutField);
    var h2 := TimedHead(token, sel2, timeout, timeoutField);
    HeadTail(h1);
    HeadTail(h2);
  }

  lemma HeadTail(h: seq<Byte>)
    requires |h| == 68
    ensures h[54..] == h[54..56] + h[56..60] + h[60..68]
  {
  }

  /** Laying out the same message behind two headers keeps the headers' agreement. */
  lemma TimedLayoutsAgree(h1: seq<Byte>, h2: seq<Byte>, data: seq<Byte>)
    requires |h1| == 68 && h1[..8] == DmocPrefix && |data| == 256
    requires U32At(h1, 8) == 554 && U32At(h1, 36) == 541 && U32At(h1, 40) == 541
    requires |h2| == 68 && h2[..8] == DmocPrefix
    requires U32At(h2, 8) == 554 && U32At(h2, 36) == 541 && U32At(h2, 40) == 541
    requires h1[..52] == h2[..52] && h1[54..] == h2[54..]
    ensures TimedLayout(h1, data)[..52] == TimedLayout(h2, data)[..52]
    ensures TimedLayout(h1, data)[54..] == TimedLayout(h2, data)[54..]
  {
    var f1 := TimedLayout(h1, data);
    var f2 := TimedLayout(h2, data);
    assert f1[..52] == f1[..68][..52];
    assert f2[..52] == f2[..68][..52];
    assert f1[54..] == f1[54..68] + f1[68..324] + f1[324..];
    assert f2[54..] == f2[54..68] + f2[68..324] + f2[324..];
    assert f1[54..68] == f1[..68][54..] && f2[54..68] == f2[..68][54..];
    assert forall j :: 0 <= j < 258 ==> f1[324..][j] == 0 == f2[324..][j];
  }

  /** Two shutdown-style frames with different selectors agree everywhere outside bytes 52..54. */
  lemma TimedFramesDifferOnlyInSelector(
    sel1: seq<Byte>, sel2: seq<Byte>, timeout: Option<int>, message: string, token: seq<Byte>)
    requires |token| == 16 && |sel1| == 2 && |sel2| == 2
    ensures TimedFrame(sel1, timeout, message, token).Ok? <==> TimedFrame(sel2, timeout, message, token).Ok?
    ensures TimedFrame(sel1, timeout, message, token).Ok? ==>
              && TimedFrame(sel1, timeout, message, token).value[..52] == TimedFrame(sel2, timeout, message, token).value[..52]
              && TimedFrame(sel1, timeout, message, token).value[54..] == TimedFrame(sel2, timeout, message, token).value[54..]
  {
    if TimedFrame(sel1, timeout, message, token).Ok? {
      TimedFrameParts(sel1, timeout, message, token);
      TimedFrameParts(sel2, timeout, message, token);
      var timeoutField := Le32Field(TimeoutValue(timeout)).value;
      TimedHeadsAgree(token, sel1, sel2, timeout, timeoutField);
      TimedLayoutsAgree(TimedHead(token, sel1, timeout, timeoutField), TimedHead(token, sel2, timeout, timeoutField),
                        FormatData(message, Some(256)).value);
    }
  }

  /** Reboot and shutdown frames differ only in the selector: `13 00` against `14 00`. */
  lemma ShutdownRebootSelector(timeout: Option<int>, message: string, token: seq<Byte>)
    requires |token| == 16 && Shutdown(timeout, message, true, token).Ok?
    ensures Shutdown(timeout, message, false, token).Ok?
    ensures var reboot, halt := Shutdown(timeout, message, true, token).value, Shutdown(timeout, message, false, token).value;
            && reboot[..52] == halt[..52] && reboot[54..] == halt[54..]
            && reboot[52..54] == [0x13, 0x00] && halt[52..54] == [0x14, 0x00]
  {
    TimedFramesDifferOnlyInSelector([0x13, 0x00], [0x14, 0x00], timeout, message, token);
  }

  /** The close-windows frame is the shutdown frame with selector `02 00`. */
  lemma CloseWindowsLikeShutdown(timeout: Option<int>, message: string, reboot: bool, token: seq<Byte>)
    requires |token| == 16
    ensures CloseWindows(timeout, message, token).Ok? <==> Shutdown(timeout, message, reboot, token).Ok?
    ensures CloseWindows(timeout, message, token).Ok? ==>
              var closing, shutdown := CloseWindows(timeout, message, token).value, Shutdown(timeout, message, reboot, token).value;
              closing[..52] == shutdown[..52] && closing[54..] == shutdown[54..]
  {
    TimedFramesDifferOnlyInSelector([0x02, 0x00], if reboot then [0x13, 0x00] else [0x14, 0x00], timeout, message, token);
  }
}
