# Jiyu UDP frames and target expansion, modelled in Dafny

This project models the pure core of a tool that forges control frames for
the Jiyu classroom-management protocol and expands a target description into
the list of addresses the frames are sent to.

- `base.dfy` (module `Base`): octets, `Option`, `Result` with early return,
  zero runs, and powers of two and of 256.
- `text.dfy` (module `Text`): the string operations the source relies on:
  - `str.split` and its inverse `Join`;
  - `str.replace(" ", "")`;
  - `str.isdigit` for ASCII digits;
  - `int(s, base)` for an optional sign followed by digits;
  - `str(n)` for a natural number.
- `encoding.dfy` (module `Encoding`):
  - UTF-16LE and UTF-8 encoding, and the receiver's UTF-16LE decoding;
  - `int.to_bytes` in little- and big-endian order, and little-endian 32-bit fields;
  - `bytes.hex()` and `binascii.unhexlify`.
- `packet.dfy` (module `Packet`): the builders of `Jiyu_udp_attack/packet.py`:
  - `format_data`;
  - the message, execute, website, shutdown, close-windows, close-top-window, rename and setting frames.

  Each builder is a total function of its arguments and of the random session
  token. The error cases are `Result` values.
- `legacy_packet.dfy` (module `LegacyPacket`): the older builders of the
  single-file script `Jiyu_attack.py`:
  - a truncating `format_data`, so the message and execute frames never fail on length;
  - a website frame with 25 random bytes and a rotated inner length field.
- `template.dfy` (module `Template`): `pkg_customize`:
  - a format string whose replacement fields reach `HexStr` arguments and the `rand16` keyword through chains of `.suffix` and `[index]` accessors;
  - the suffixes that `HexStr`, `HexInt` and `Rand16` answer in `__getattr__` and `__getitem__`;
  - hex decoding of the substituted text.

  The random bytes are an `Entropy` stream read from a cursor.
- `ip_analyze.dfy` (module `IpAnalyze`): `ip_to_tuple` and `ip_analyze` of `Jiyu_udp_attack/ip_analyze.py`:
  - a plain address;
  - a CIDR block, of which only the addresses strictly between the network and broadcast addresses are listed;
  - a dash range with four segments.

  The segment loop is the method `ParseRangeSegments`, proved against the
  function `ParseSpans`. `Analyze` is proved equal to `AnalyzeSpec`, and the
  lemmas about `AnalyzeSpec` state what the listing contains.
- `sender.dfy` (module `SenderIp`): `ip_analyze` of the single-file `sender.py`.
  It is the same parser except that a CIDR block lists the whole block. The
  `ip_to_tuple` of `sender.py:8-30` is the same as the package's, so it is
  modelled once, as `IpAnalyze.IpToTuple`.

Python's bitwise operations on addresses are written as arithmetic:
- `ip32 & mask` clears the host bits, which is `x - x % 2^(32 - mask)`;
- `ip32 | host_mask` on a network address, which has no host bits, is an addition;
- the shifts and `& 0xFF` that render an address are division and remainder by powers of 256.

Python's `//` and `%` round towards negative infinity, and are modelled that
way (`Template.FloorDiv`, `Template.FloorMod`).

## Model

| member | source | states |
|---|---|---|
| Text.Split | Jiyu_udp_attack/ip_analyze.py:19 | `str.split`: one more piece than separators; no piece contains the separator |
| Text.JoinSplit | Jiyu_udp_attack/ip_analyze.py:19 | joining the pieces of a split with the separator gives back the original string |
| Text.SplitJoin | Jiyu_udp_attack/ip_analyze.py:19 | splitting a join of separator-free pieces gives back those pieces |
| Text.RemoveSpaces | Jiyu_udp_attack/ip_analyze.py:40 | the result holds no space and is no longer than the input |
| Text.RemoveSpacesKeeps | Jiyu_udp_attack/ip_analyze.py:40 | every character other than a space occurs in the result iff it occurs in the input |
| Text.RemoveSpacesIdempotent | Jiyu_udp_attack/ip_analyze.py:40 | removing spaces twice is the same as removing them once |
| Text.ParseInt | Jiyu_udp_attack/ip_analyze.py:19 | `int(s, base)` succeeds exactly on an optional sign followed by at least one digit valid in the base |
| Text.Decimal | Jiyu_udp_attack/ip_analyze.py:96 | `str(n)` is a non-empty run of ASCII digits |
| Text.DecimalValue | Jiyu_udp_attack/ip_analyze.py:96 | the digits written by `str(n)` denote `n` |
| Text.ParseDecimal | Jiyu_udp_attack/packet.py:349-350 | `int(str(n)) == n` for every natural `n` |
| Text.IsDigits | Jiyu_udp_attack/ip_analyze.py:44 | `isdigit()` holds exactly of the strings `int(s, 10)` reads without a sign |
| Text.DigitsParse | Jiyu_udp_attack/ip_analyze.py:44-46 | a string for which `isdigit()` holds parses to its non-negative decimal value |
| Encoding.Utf16Le | Jiyu_udp_attack/packet.py:39 | `encode("utf-16le")` gives an even number of bytes, at least two per character |
| Encoding.Utf16LeLength | Jiyu_udp_attack/packet.py:44-46 | the encoding takes two bytes per UTF-16 code unit |
| Encoding.Utf16LeAppend | Jiyu_udp_attack/packet.py:205 | the encoding of a concatenation is the concatenation of the encodings |
| Encoding.Utf16LeRoundTrip | Jiyu_udp_attack/packet.py:39 | decoding the UTF-16LE encoding of any text gives the text back |
| Encoding.Utf8 | Jiyu_udp_attack/packet.py:348 | `encode("utf-8")` gives at least one byte per character |
| Encoding.LittleEndianRoundTrip | Jiyu_udp_attack/packet.py:119 | decoding the little-endian bytes of a value that fits gives the value back |
| Encoding.ToBytes | Jiyu_udp_attack/packet.py:310-312 | `to_bytes(n, order)` fails exactly for a negative length (its own error) or a value of 256^n or more, for lengths below 2^63 (see "## Left out"). Otherwise it gives `n` bytes that decode to the value in the requested order |
| Encoding.Le32 | Jiyu_udp_attack/packet.py:148 | a 32-bit little-endian field reads back as the value it holds |
| Encoding.Hex | Jiyu_udp_attack/packet.py:279 | `bytes.hex()` gives two digits per byte |
| Encoding.PairValue | Jiyu_udp_attack/packet.py:378 | the byte of a digit pair has the high digit's value as its upper four bits and the low digit's as its lower four |
| Encoding.HexPairs | Jiyu_udp_attack/packet.py:378 | even-length text decodes iff every character is a hex digit of either case; byte `i` is the value of the pair at `2 * i` |
| Encoding.Unhexlify | Jiyu_udp_attack/packet.py:378 | `unhexlify` succeeds iff the text is ASCII, of even length and all hex digits. Non-ASCII is reported first, then odd length. Byte `i` is the value of the digit pair at `2 * i`, upper or lower case |
| Encoding.UnhexlifyLowerCase | Jiyu_udp_attack/packet.py:378 | writing the decoded bytes back with `hex()` gives the text in lower case |
| Encoding.UnhexlifyHex | Jiyu_udp_attack/packet.py:378 | `unhexlify(b.hex()) == b` for all bytes |
| Packet.FormatData | Jiyu_udp_attack/packet.py:36-47 | without a maximum, the plain UTF-16LE text. A maximum of 0 or less is an error. A text longer than the maximum is an error. Otherwise the result is exactly the maximum in bytes, the text followed by zeros |
| Packet.FormatDataRoundTrip | Jiyu_udp_attack/packet.py:44-47 | the text is recovered by decoding the leading bytes of the field |
| Packet.FormatDataCapacity | Jiyu_udp_attack/packet.py:44-46 | a field of `n` bytes takes exactly the texts of at most `n / 2` code units |
| Packet.NulTerminatedField | Jiyu_udp_attack/packet.py:205 | a text with a NUL appended takes two more bytes, fits iff `2 * units + 2` fits, and ends its text with two zero bytes |
| Packet.Le32Field | Jiyu_udp_attack/packet.py:148 | `to_bytes(4, "little")` succeeds iff the value is in 0..2^32-1, else OverflowError; the field reads back as the value |
| Packet.MessageHead | Jiyu_udp_attack/packet.py:61-66 | the 56-byte message header: `DMOC 00 00 01 00`, token at 12..28, length fields 926, 913, 913 |
| Packet.Message | Jiyu_udp_attack/packet.py:50-67 | sent iff the encoded message fits 800 bytes, else a too-long error. The frame is 954 bytes with DMOC length fields. The text region 56..856 is zero-padded. Bytes 856..954 are zero |
| Packet.MessageCapacity | Jiyu_udp_attack/packet.py:60 | a message of at most 400 code units is sent; a longer one fails |
| Packet.MessageRoundTrip | Jiyu_udp_attack/packet.py:60-67 | the receiver recovers the message by decoding the text region |
| Packet.ExecuteHead | Jiyu_udp_attack/packet.py:86-91 | the 60-byte execute header with length fields 878, 865, 865 |
| Packet.ModeBlock | Jiyu_udp_attack/packet.py:94-101 | `normal`, `minimize` and `maximize` give a 14-byte block whose first byte is 0, 1 or 2 and whose rest is constant; any other mode fails with that mode |
| Packet.Execute | Jiyu_udp_attack/packet.py:86-102 | fails on the path, then the arguments, then the mode, in that order. Otherwise a 906-byte frame: path field 60..572, arguments field 572..826, zeros 826..892, mode number at 892, constant tail |
| Packet.Website | Jiyu_udp_attack/packet.py:115-127 | no length cap below 2^32. The frame is the encoded length plus 64 bytes. Offset 8 holds length + 36; offsets 36 and 40 hold length + 23. The url sits at 60, followed by four zeros |
| Packet.TimedFrame | Jiyu_udp_attack/packet.py:142-152 | the shared shutdown layout, 582 bytes. Selector at 52..54. `00 10` at 54..56 iff there is no timeout. The timeout, or 0, at 56. The message field at 68..324, then 258 zeros |
| Packet.Shutdown | Jiyu_udp_attack/packet.py:130-152 | the shared layout with selector `13 00` to reboot and `14 00` to shut down, the token at 12..28 and `01 00 …` at 60..68; fails iff the timeout or the message does not fit, with OverflowError for the timeout first |
| Packet.CloseWindows | Jiyu_udp_attack/packet.py:155-175 | the shared layout with selector `02 00`, the token at 12..28 and `01 00 …` at 60..68; fails iff the timeout or the message does not fit, with OverflowError for the timeout first |
| Packet.TimedFramesDifferOnlyInSelector | Jiyu_udp_attack/packet.py:142-175 | two frames of this layout with different selectors succeed together and agree outside bytes 52..54 |
| Packet.ShutdownRebootSelector | Jiyu_udp_attack/packet.py:146 | reboot and shutdown frames differ only in the selector `13 00` against `14 00` |
| Packet.CloseWindowsLikeShutdown | Jiyu_udp_attack/packet.py:142-175 | the close-windows frame is the shutdown frame outside the selector, and they succeed together |
| Packet.CloseTopWindowHead | Jiyu_udp_attack/packet.py:185-189 | the 56-byte header with length fields 878, 865, 865 |
| Packet.CloseTopWindow | Jiyu_udp_attack/packet.py:178-190 | a 906-byte frame: its header, then exactly 850 zero bytes |
| Packet.Rename | Jiyu_udp_attack/packet.py:193-206 | a 96-byte frame tagged `GCMN`, with the id at 28 and the NUL-terminated name padded at 32..96. A name of more than 31 units or an id outside 32 bits fails, the id checked first |
| Packet.TableValue | Jiyu_udp_attack/packet.py:242-243 | a dict lookup: defined iff the key is in the dict, giving its value, the key's position; any other key is a KeyError |
| Packet.TableValues | Jiyu_udp_attack/packet.py:242-243 | `lv` maps `low`, `medium`, `high` and `setup` maps `disable`, `enable`, `auto` to 0, 1, 2 |
| Packet.LeadingSettingFields | Jiyu_udp_attack/packet.py:249-261 | nine 32-bit fields in source order, the recording volume before the playback volume |
| Packet.TrailingSettingFields | Jiyu_udp_attack/packet.py:262-266 | three 32-bit fields looked up in the `setup` table |
| Packet.Setting | Jiyu_udp_attack/packet.py:209-267 | sent iff every key is in its table, every number fits 32 bits and the password fits. The frame is 177 bytes, each value at its offset. The NUL-terminated password is padded at 96..162. The frame ends with three zeros. A failure names the first field that fails in the order the source evaluates them: level, lag time, recording volume, playback volume, password, then the three setup keys |
| LegacyPacket.FormatData | Jiyu_attack.py:29-37 | without a maximum, the plain encoding. A maximum of 0 or less fails. Otherwise exactly the maximum in bytes: the encoding cut to it, or zero-padded to it |
| LegacyPacket.FormatDataAgrees | Jiyu_attack.py:37 | wherever the strict version succeeds, the truncating version gives the same bytes |
| LegacyPacket.FormatDataKeepsPrefix | Jiyu_attack.py:37 | the truncated field keeps any whole prefix of the text that fits |
| LegacyPacket.Message | Jiyu_attack.py:53-60 | always 954 bytes with DMOC length fields, the truncated text at 56..856 and zeros after |
| LegacyPacket.MessageAgrees | Jiyu_attack.py:53-60 | equal to the current message frame whenever that one succeeds |
| LegacyPacket.Execute | Jiyu_attack.py:88-105 | fails only on an unknown mode; otherwise a 906-byte frame with truncated path and arguments fields and the mode number at 892 |
| LegacyPacket.ExecuteAgrees | Jiyu_attack.py:88-105 | equal to the current execute frame whenever that one succeeds |
| LegacyPacket.RotateLeft | Jiyu_attack.py:128 | `b[1:] + b[0:1]` moves the first byte to the end and shifts the rest down |
| LegacyPacket.Website | Jiyu_attack.py:122-138 | the encoded length plus 64 bytes. Offset 8 holds length + 36. The token is at 12..37. The rotated field of length + 23 is at 37..41, the 19-byte constant at 41..60, the url at 60, then four zeros |
| LegacyPacket.OuterFieldOfFrame | Jiyu_attack.py:124-135 | in this layout the 32-bit value at offset 36 is the last random byte plus 256 times the inner length's three high bytes |
| LegacyPacket.WebsiteOuterField | Jiyu_attack.py:122-138 | the value at offset 36 is `token[24] + 256 * ((len + 23) / 256)`; it equals the inner length exactly when `token[24]` is the length's low byte |
| LegacyPacket.InnerFieldOfFrame | Jiyu_attack.py:124-135 | in this layout the 32-bit value at offset 40 is the low byte of the inner length |
| LegacyPacket.WebsiteInnerField | Jiyu_attack.py:124-134 | the value at offset 40 equals the inner length exactly when that length is below 256 |
| LegacyPacket.WebsiteInnerFieldCounterexample | Jiyu_attack.py:124-128 | a url of 117 characters has inner length 257 but sends 1 at offset 40 |
| Template.Draw | Jiyu_udp_attack/packet.py:279 | `token_bytes(n)` is the next `n` bytes of the entropy stream |
| Template.FloorMod | Jiyu_udp_attack/packet.py:322 | Python `%`: the remainder takes the sign of the divisor |
| Template.FloorDiv | Jiyu_udp_attack/packet.py:320 | Python `//`: the quotient rounded toward minus infinity, so `b * q <= a < b * q + b` for a positive divisor and `b * q + b < a <= b * q` for a negative one |
| Template.FloorDivMod | Jiyu_udp_attack/packet.py:319-322 | `b * (a // b) + a % b == a` |
| Template.NewHexInt | Jiyu_udp_attack/packet.py:302-305 | `HexInt(v)` exists iff `v >= 0`; its ValueError surfaces as AttributeError in the handler |
| Template.BytesAttribute | Jiyu_udp_attack/packet.py:310-312 | `to_bytes(k, order).hex()`. Fails with AttributeError for a negative length and OverflowError for a value that does not fit, for lengths below 2^63 (see "## Left out") |
| Template.ToBytesLayout | Jiyu_udp_attack/packet.py:310-312 | the big-endian bytes are the little-endian bytes reversed |
| Template.FirstPrefix | Jiyu_udp_attack/packet.py:309-322 | the first prefix the name starts with, with none before it matching |
| Template.Argument | Jiyu_udp_attack/packet.py:310-322 | `int(name[k:])` reads the suffix exactly when it is decimal digits after an optional `+` or `-`, and a negative argument needs the `-` |
| Template.IntOperation | Jiyu_udp_attack/packet.py:309-322 | `little_` and `big_` give a HexStr; the arithmetic suffixes give a HexInt |
| Template.IntAttribute | Jiyu_udp_attack/packet.py:307-326 | a name with none of the seven prefixes is no attribute |
| Template.IntPrefixSelects | Jiyu_udp_attack/packet.py:309-322 | the first matching prefix alone decides the result |
| Template.OperationSelects | Jiyu_udp_attack/packet.py:308-326 | a name with a prefix and a readable argument performs that prefix's operation |
| Template.BytesSelects | Jiyu_udp_attack/packet.py:309-312 | `little_K` and `big_K` are `to_bytes(K)` in the named order |
| Template.AddSelects | Jiyu_udp_attack/packet.py:313-314 | `add_K` is a new integer holding the sum |
| Template.SubSelects | Jiyu_udp_attack/packet.py:315-316 | `sub_K` is a new integer holding the difference |
| Template.MulSelects | Jiyu_udp_attack/packet.py:317-318 | `mul_K` is a new integer holding the product |
| Template.DivSelects | Jiyu_udp_attack/packet.py:319-320 | `div_K` with `K != 0` is a new integer holding the floor quotient |
| Template.ModSelects | Jiyu_udp_attack/packet.py:321-322 | `mod_K` with `K != 0` is a new integer holding the floor remainder |
| Template.LittleBigReversed | Jiyu_udp_attack/packet.py:309-312 | `little_K` and `big_K` succeed together iff `K >= 0` and the value fits. They give 2K hex digits, the same bytes in opposite orders, which decode back to the value. Otherwise OverflowError, or AttributeError for a negative length |
| Template.AddMul | Jiyu_udp_attack/packet.py:313-318 | `add_K` and `mul_K` give the sum and the product, and are no attribute where that is negative |
| Template.SubBelowZero | Jiyu_udp_attack/packet.py:315-316 | `sub_K` gives the difference iff `K <= value`, else AttributeError |
| Template.DivModByZero | Jiyu_udp_attack/packet.py:319-322 | `div_0` and `mod_0` raise ZeroDivisionError, which the handler does not catch |
| Template.FloorByPositive | Jiyu_udp_attack/packet.py:319-322 | with a positive divisor, floor division of a natural number is plain division |
| Template.FloorByNegative | Jiyu_udp_attack/packet.py:319-322 | with a negative divisor, only 0 has a non-negative floor quotient, and only multiples of the divisor a non-negative remainder |
| Template.FloorDivValue | Jiyu_udp_attack/packet.py:319-320 | the floor quotient as a new integer: the plain quotient for a positive divisor, only 0 for a negative one |
| Template.FloorModValue | Jiyu_udp_attack/packet.py:321-322 | the floor remainder as a new integer: the plain remainder for a positive divisor, 0 or nothing for a negative one |
| Template.DivBy | Jiyu_udp_attack/packet.py:319-320 | `div_K` is the quotient for `K > 0`; for `K < 0` it exists only for the value 0 |
| Template.ModBy | Jiyu_udp_attack/packet.py:321-322 | `mod_K` is the remainder for `K > 0`; for `K < 0` it exists iff `K` divides the value, and is then 0 |
| Template.NonNumericArgument | Jiyu_udp_attack/packet.py:308-326 | a numeric suffix whose argument `int()` cannot read is no attribute |
| Template.StrAttribute | Jiyu_udp_attack/packet.py:343-358 | `len` is the length and `hex` the hex of the UTF-8 bytes; every failure is AttributeError |
| Template.StrPrefixSelects | Jiyu_udp_attack/packet.py:345-354 | `int_` and `size_` names are none of the exact names, and the two prefixes exclude each other |
| Template.SizeIsFormatData | Jiyu_udp_attack/packet.py:353-354 | `size_K` succeeds exactly when `format_data(v, K)` does, and is then its hex; i.e. iff `0 < K` and `2 * units <= K` |
| Template.IntOfText | Jiyu_udp_attack/packet.py:349-350 | `int` is the decimal value when it is not negative, else AttributeError |
| Template.IntOfDecimal | Jiyu_udp_attack/packet.py:349-350 | `int` reads back the text a HexInt renders to |
| Template.IntInBase | Jiyu_udp_attack/packet.py:351-352 | `int_B` succeeds iff `2 <= B <= 36` and the text parses in base B to a value that is not negative |
| Template.NonNumericStrArgument | Jiyu_udp_attack/packet.py:351-358 | `int_B` and `size_K` with an unreadable argument are no attribute |
| Template.RandAttribute | Jiyu_udp_attack/packet.py:275-280 | `size_` and digits draw that many bytes, however many (see "## Left out"), and advance the stream; any other name is AttributeError |
| Template.Attribute | Jiyu_udp_attack/packet.py:275-358 | only `Rand16` draws; a plain `str` has none of the suffixes |
| Template.Item | Jiyu_udp_attack/packet.py:282-285 | `rand16[k]` succeeds iff `k` is a positive integer and draws `k` bytes, with `k` unbounded (see "## Left out"); `HexStr` and `HexInt` refuse indexing |
| Template.Render | Jiyu_udp_attack/packet.py:287-291 | `str()` of a HexStr is its text and of a HexInt its decimal; `str(rand16)` is one drawn byte, 2 hex digits |
| Template.Rand16Sizes | Jiyu_udp_attack/packet.py:275-288 | `rand16.size_N` and `rand16[N]` (N > 0) give the hex of the next N bytes, 2N digits |
| Template.Find | Jiyu_udp_attack/packet.py:378 | the first position of a stop character at or after `i` |
| Template.Access | Jiyu_udp_attack/packet.py:378 | an empty accessor chain is the value itself; the draw cursor never moves back; one plain `.name` is that attribute; each further step is stated by `AccessDot` and `AccessKey` |
| Template.Number | Jiyu_udp_attack/packet.py:378 | mixing automatic and manual field numbering is an error; `{}` takes the next argument and `{i}` the i-th |
| Template.Lookup | Jiyu_udp_attack/packet.py:378 | a numbered field is the `HexStr` of that argument if it exists; a named one is only `rand16` |
| Template.FieldNameEnd | Jiyu_udp_attack/packet.py:378 | a field name ends at the first `{`, `}`, `:` or `!` outside brackets; a bracketed key may hold any of them |
| Template.FieldNameEndSkip | Jiyu_udp_attack/packet.py:378 | characters that neither end a field name nor open a bracket do not move its end |
| Template.FieldNameEndIn | Jiyu_udp_attack/packet.py:378 | a field name that ends inside some text ends at the same place when that text is embedded in a longer format string |
| Template.PlainFieldName | Jiyu_udp_attack/packet.py:378 | text without `{`, `}`, `:`, `!` and `[` is one whole field name |
| Template.KeySkip | Jiyu_udp_attack/packet.py:378 | inside brackets, characters other than `]` do not move the end of the field name |
| Template.DigitsFieldName | Jiyu_udp_attack/packet.py:378 | a run of decimal digits is one whole field name |
| Template.Replace | Jiyu_udp_attack/packet.py:378 | the cursor never moves back; mixing automatic and manual numbering is an error; a first part that is neither empty, a number nor `rand16` is a KeyError for that name; the value of each kind of field is stated by `ReplaceArgument`, `ReplaceAutomatic` and `ReplaceRand16` |
| Template.Expand | Jiyu_udp_attack/packet.py:378 | text without braces is unchanged; a lone `}` or `{` at the end is malformed; so is a field name that meets an unbracketed `{` or runs to the end; a field with `:` or `!` after its name is unsupported |
| Template.Customize | Jiyu_udp_attack/packet.py:367-378 | a formatting error is the result; otherwise the frame exists iff the formatted text is even-length ASCII hex, and it has half as many bytes as that text has characters; those bytes are `unhexlify` of the formatted text |
| Template.CustomizeLiteral | Jiyu_udp_attack/packet.py:378 | a format string without fields is hex-decoded as it stands |
| Template.ExpandField | Jiyu_udp_attack/packet.py:378 | a field whose name runs to its closing brace is replaced where it stands, and the rest is formatted after it |
| Template.ExpandAtField | Jiyu_udp_attack/packet.py:378 | a text that opens with a field, whose name ends at an unbracketed `}`, gives that field's replacement followed by the expansion of the rest, and fails with the first error |
| Template.ReplaceArgument | Jiyu_udp_attack/packet.py:378 | `{i...}` numbered by hand yields argument `i` through its accessors, or an index error |
| Template.AccessAttribute | Jiyu_udp_attack/packet.py:378 | `.name` alone asks the object for that attribute |
| Template.CustomizeArgument | Jiyu_udp_attack/packet.py:378 | `{i}` makes the frame the i-th argument hex-decoded, or an index error when there is none |
| Template.CustomizeRoundTrip | Jiyu_udp_attack/packet.py:378 | `pkg_customize("{0}", b.hex()) == b` |
| Template.ExpandAttribute | Jiyu_udp_attack/packet.py:378 | `{0.name}` is the rendered attribute of the first argument |
| Template.AccessDot | Jiyu_udp_attack/packet.py:378 | one `.name` step: the name runs to the next `.` or `[`, the object is asked for that attribute, its error is the result, and otherwise the rest of the chain is followed from the attribute's value and the advanced cursor |
| Template.AccessKey | Jiyu_udp_attack/packet.py:378 | one `[key]` step: the key runs to the next `]`, the object is asked for that item, its error is the result, and otherwise the rest of the chain is followed from the item's value |
| Template.FirstPartField | Jiyu_udp_attack/packet.py:378 | a field's first part runs up to its first `.` or `[`, and the accessors are everything after it |
| Template.ReplaceRand16 | Jiyu_udp_attack/packet.py:378 | `{rand16…}` is `rand16` followed through the accessors and rendered, or the chain's error; the argument numbering is left as it was |
| Template.ReplaceAutomatic | Jiyu_udp_attack/packet.py:378 | `{}` and `{.name…}` take the next argument in automatic numbering (the first when none was numbered yet), follow the accessors and advance the numbering by one, or give an index error past the last argument |
| Template.AccessRandomSize | Jiyu_udp_attack/packet.py:275-280 | `rand16.size_K` is the hex of the next `K` bytes of the stream, and moves the cursor on by `K` |
| Template.ReplaceRandomSize | Jiyu_udp_attack/packet.py:275-280 | the field `rand16.size_K` renders as those `K` drawn bytes, numbering unchanged |
| Template.ExpandRandomSize | Jiyu_udp_attack/packet.py:378 | `{rand16.size_K}` formats to the hex of the first `K` bytes of the stream |
| Template.CustomizeRandomSize | Jiyu_udp_attack/packet.py:275-280 | `pkg_customize("{rand16.size_K}")` is exactly the first `K` bytes of the stream |
| Template.AccessIntLittle | Jiyu_udp_attack/packet.py:307-312 | `.int.little_K` on a decimal text of `n` is the hex of the `K` little-endian bytes of `n`, or OverflowError when `n` does not fit |
| Template.ReplaceIntLittle | Jiyu_udp_attack/packet.py:307-312 | the field `0.int.little_K` on argument `n` is those `K` bytes, and numbering turns manual |
| Template.ExpandIntLittle | Jiyu_udp_attack/packet.py:378 | `{0.int.little_K}` formats to the hex of the `K` little-endian bytes of the argument, or OverflowError |
| Template.CustomizeIntLittle | Jiyu_udp_attack/packet.py:307-312 | `pkg_customize("{0.int.little_K}", str(n))` is the `K` little-endian bytes of `n`, or OverflowError when `n >= 256^K` |
| Template.ReplaceFirst | Jiyu_udp_attack/packet.py:378 | a first field `{0}` is the first argument as it stands, and numbering turns manual |
| Template.ReplaceSecondSize | Jiyu_udp_attack/packet.py:353-354 | under manual numbering the field `1.size_K` is the hex of `format_data` of the second argument, or AttributeError where that raises |
| Template.ExpandSecondSize | Jiyu_udp_attack/packet.py:353-354 | `{1.size_K}` under manual numbering formats to that hex |
| Template.ExpandHeadAndSize | Jiyu_udp_attack/packet.py:378 | `{0}{1.size_K}` formats to the first argument followed by the hex of `format_data` of the second |
| Template.CustomizeHeadAndSize | Jiyu_udp_attack/packet.py:353-354 | `pkg_customize("{0}{1.size_K}", c.hex(), s)` is the bytes `c` followed by `format_data(s, K)`, or AttributeError where that raises |
| Template.HelpRandomSize | Jiyu_udp_attack/__main__.py:68 | the help text's `{rand16.size_2}` is the next two random bytes |
| Template.HelpIntLittle | Jiyu_udp_attack/__main__.py:69 | the help text's `{0.int.little_4}` with `1024` is the bytes `00 04 00 00` |
| Template.HelpHeadAndSize | Jiyu_udp_attack/__main__.py:70 | the help text's `{0}{1.size_800}` with `4d` and `hello` succeeds, and is the byte `4d` followed by `format_data("hello", 800)` |
| Template.CustomizeSizeName | Jiyu_udp_attack/packet.py:353-354 | `{0.size_K}`, with any spelling of K that `int()` reads, is exactly `format_data(arg, K)`, or AttributeError where that raises |
| Template.CustomizeSize | Jiyu_udp_attack/packet.py:353-354 | `{0.size_K}` is exactly the bytes `format_data(arg, K)`, or AttributeError where that raises |
| Template.CustomizeHex | Jiyu_udp_attack/packet.py:347-348 | `{0.hex}` makes the frame the UTF-8 bytes of the argument |
| Template.BracketField | Jiyu_udp_attack/packet.py:378 | `0[key]` is one whole field name for every key without `]` |
| Template.AccessBracketKey | Jiyu_udp_attack/packet.py:335-364 | `[key]` on a `HexStr`, which defines no `__getitem__`, is an index error for that key |
| Template.ReplaceBracketKey | Jiyu_udp_attack/packet.py:335-378 | the field name `0[key]` is an index error for that key |
| Template.ExpandBracketKey | Jiyu_udp_attack/packet.py:378 | `{0[key]}` is an index error for the key (a `HexStr` defines no item lookup), whatever `{`, `}`, `:` or `!` the key holds and whatever text follows |
| Template.BraceInFieldName | Jiyu_udp_attack/packet.py:378 | `{0{` is malformed whatever follows it |
| Template.UnclosedKey | Jiyu_udp_attack/packet.py:378 | `{0[` followed by text with no `]` is malformed: the key runs to the end of the text |
| IpAnalyze.ParseAll | Jiyu_udp_attack/ip_analyze.py:19-21 | `int(x)` of every piece, failing iff some piece is not a number |
| IpAnalyze.IpToTuple | Jiyu_udp_attack/ip_analyze.py:16-24 | succeeds iff there are exactly four dot-separated integers, each in 0..255, and gives them; otherwise the invalid-address error |
| IpAnalyze.Pieces | Jiyu_udp_attack/ip_analyze.py:96 | the four octets, each as `str` writes it |
| IpAnalyze.Dotted | Jiyu_udp_attack/ip_analyze.py:96 | parsing the dotted form of four octets gives those octets back |
| IpAnalyze.PiecesReadBack | Jiyu_udp_attack/ip_analyze.py:95-96 | the four decimal octets joined by dots parse back to the octets |
| IpAnalyze.DottedInjective | Jiyu_udp_attack/ip_analyze.py:96 | different octets render to different strings |
| IpAnalyze.Address | Jiyu_udp_attack/ip_analyze.py:54 | the 32-bit value of four octets is below 2^32 |
| IpAnalyze.OctetsOf | Jiyu_udp_attack/ip_analyze.py:57 | the four octets of a 32-bit value rebuild that value |
| IpAnalyze.OctetsOfAddress | Jiyu_udp_attack/ip_analyze.py:54-57 | splitting the value of four octets gives them back |
| IpAnalyze.Render | Jiyu_udp_attack/ip_analyze.py:57 | a rendered 32-bit address parses back to the same value |
| IpAnalyze.OctetDigits | Jiyu_udp_attack/ip_analyze.py:57 | the four shifted-and-masked bytes are base-256 digits that rebuild the value |
| IpAnalyze.Rendered | Jiyu_udp_attack/ip_analyze.py:56-59 | one rendered entry per address, in the same order |
| IpAnalyze.RenderedReadsBack | Jiyu_udp_attack/ip_analyze.py:56-59 | each rendered entry parses back to its address, and every address of the list is rendered in it |
| IpAnalyze.RenderedSlice | Jiyu_udp_attack/ip_analyze.py:56-59 | rendering a slice of an address list gives the same slice of the rendered list |
| IpAnalyze.BlockSize | Jiyu_udp_attack/ip_analyze.py:58 | `1 << (32 - mask)` is at least 1 |
| IpAnalyze.BlocksTile | Jiyu_udp_attack/ip_analyze.py:55 | `2^mask` blocks of `2^(32 - mask)` addresses tile the address space |
| IpAnalyze.Network | Jiyu_udp_attack/ip_analyze.py:55 | the address with its host bits cleared: the aligned block start at or below the address, whose block contains it and fits in 32 bits |
| IpAnalyze.NetworkOfBlock | Jiyu_udp_attack/ip_analyze.py:55-58 | every address of an aligned block has that block's network |
| IpAnalyze.Range | Jiyu_udp_attack/ip_analyze.py:58 | Python `range(lo, hi)`: `hi - lo` consecutive values from `lo`, none when `hi <= lo` |
| IpAnalyze.ParseCidr | Jiyu_udp_attack/ip_analyze.py:42-53 | checks in source order: not one `/` gives InvalidAddress; a non-digit mask, InvalidMask; above 32, MaskOutOfRange; below 16, MaskTooSmall. Then the address is parsed |
| IpAnalyze.Interior | Jiyu_udp_attack/ip_analyze.py:58 | the addresses strictly between network and broadcast, ascending: `2^(32-m) - 2` of them for m <= 30, none otherwise |
| IpAnalyze.RangeMembers | Jiyu_udp_attack/ip_analyze.py:58 | `range(lo, hi)` holds exactly the integers from `lo` up to, not including, `hi` |
| IpAnalyze.SmallBlocks | Jiyu_udp_attack/ip_analyze.py:58 | masks 31 and 32 leave two addresses and one; shorter masks leave at least four |
| IpAnalyze.LargestBlock | Jiyu_udp_attack/ip_analyze.py:48-50 | masks of 16 or more leave at most 65536 addresses |
| IpAnalyze.InteriorAddresses | Jiyu_udp_attack/ip_analyze.py:58 | the interior holds, ascending, exactly the addresses strictly between network and broadcast, each in the block: `2^(32-m) - 2` of them for m <= 30, none otherwise |
| IpAnalyze.InteriorListing | Jiyu_udp_attack/ip_analyze.py:56-59 | the listing the CIDR branch returns has `2^(32-m) - 2` entries for m <= 30 and none otherwise; `InteriorListed` states its contents |
| IpAnalyze.InteriorListed | Jiyu_udp_attack/ip_analyze.py:53-59 | the rendered interior parses back to exactly the addresses strictly between network and broadcast, ascending, all of them, whatever host bits were given |
| IpAnalyze.CidrInterior | Jiyu_udp_attack/ip_analyze.py:41-59 | with a `/` and a valid block, the result is the interior listing of that block |
| IpAnalyze.SlashFirst | Jiyu_udp_attack/ip_analyze.py:41-60 | with a `/`, a `-` is irrelevant: the result fails iff the CIDR parse fails, with its error |
| IpAnalyze.SegmentSpan | Jiyu_udp_attack/ip_analyze.py:67-84 | a segment is `d` or `lo-hi` of digits with `lo <= hi <= 255`. A single value above 255 is OctetOutOfRange. A bad pair is InvalidRange. Any other shape is InvalidRangeFormat |
| IpAnalyze.ParseSpans | Jiyu_udp_attack/ip_analyze.py:66-84 | succeeds iff every segment does, giving their spans in order |
| IpAnalyze.ParseSpansExtendFailed | Jiyu_udp_attack/ip_analyze.py:66-84 | once the segments before the last have failed, the last one is not looked at |
| IpAnalyze.ParseSpansStops | Jiyu_udp_attack/ip_analyze.py:66-84 | the first failing segment decides the error |
| IpAnalyze.CountAppend | Jiyu_udp_attack/ip_analyze.py:64-85 | `Count`, starting at 1 (`ip_count = 1`): appending a span multiplies it by the span's width, as the segment loop does |
| IpAnalyze.CountBounds | Jiyu_udp_attack/ip_analyze.py:64-85 | `ip_count` over n proper spans lies between 1 and `256^n` |
| IpAnalyze.ParseRangeSegments | Jiyu_udp_attack/ip_analyze.py:64-85 | the loop succeeds iff `ParseSpans` does, returning its spans and their product, and otherwise its error |
| IpAnalyze.Prepend | Jiyu_udp_attack/ip_analyze.py:88-94 | each tail with the value put in front |
| IpAnalyze.BlockLength | Jiyu_udp_attack/ip_analyze.py:88-94 | `Block`, one level of the nested comprehension, has `(hi + 1 - v) * tails` entries |
| IpAnalyze.ListingLength | Jiyu_udp_attack/ip_analyze.py:88-94 | `Listing`, the nested comprehension, has exactly the product of the widths many entries |
| IpAnalyze.BlockMembers | Jiyu_udp_attack/ip_analyze.py:88-94 | an entry of `Block` is a value in range followed by a tail |
| IpAnalyze.ListingMembers | Jiyu_udp_attack/ip_analyze.py:88-94 | a tuple is in `Listing` iff each octet lies within its span |
| IpAnalyze.AscendingDistinct | Jiyu_udp_attack/ip_analyze.py:88-94 | an ascending listing has no duplicates |
| IpAnalyze.ListingAscending | Jiyu_udp_attack/ip_analyze.py:88-94 | the listing is in first-octet-outermost ascending order with no duplicates |
| IpAnalyze.RangeListing | Jiyu_udp_attack/ip_analyze.py:85-94 | succeeds iff the count is at most 65536 (65536 included), otherwise RangeTooLarge with the count; the length is the count |
| IpAnalyze.ListingOctets | Jiyu_udp_attack/ip_analyze.py:88-94 | every entry of the nested loops lies within the spans, so it is four octets |
| IpAnalyze.DottedList | Jiyu_udp_attack/ip_analyze.py:88-94 | one dotted entry per tuple, in the same order |
| IpAnalyze.DottedListReadsBack | Jiyu_udp_attack/ip_analyze.py:88-94 | each dotted entry parses back to its tuple, and every tuple of the list is in it |
| IpAnalyze.RangeListed | Jiyu_udp_attack/ip_analyze.py:88-94 | every listed address parses back within the spans, every address within them is listed, and the parsed tuples ascend |
| IpAnalyze.DashRange | Jiyu_udp_attack/ip_analyze.py:60-94 | without `/` but with `-`: success iff four segments parse and the count is at most 65536. The wrong segment count and the oversize count give their errors, and the length is the count |
| IpAnalyze.RangeSpec | Jiyu_udp_attack/ip_analyze.py:60-94 | an accepted dash range lists at most 65536 entries, each a valid address |
| IpAnalyze.RangeListingReadable | Jiyu_udp_attack/ip_analyze.py:86-94 | every entry of an accepted dash range is a valid address |
| IpAnalyze.AnalyzeSpec | Jiyu_udp_attack/ip_analyze.py:28-96 | an accepted input lists at most 65536 entries, each a valid dotted address |
| IpAnalyze.PlainAddress | Jiyu_udp_attack/ip_analyze.py:95-96 | neither `/` nor `-`: success iff the address parses, giving one entry that parses to the same octets |
| IpAnalyze.SpacesIgnored | Jiyu_udp_attack/ip_analyze.py:40 | the result is that of the input with its spaces removed |
| IpAnalyze.Analyze | Jiyu_udp_attack/ip_analyze.py:28-96 | the method with its segment loop computes exactly `AnalyzeSpec` |
| SenderIp.FullBlock | sender.py:68 | the addresses from the network address up to and including the broadcast address, ascending, `2^(32-m)` of them |
| SenderIp.AnalyzeSpec | sender.py:48-106 | an accepted input lists at most 65536 entries, each a valid dotted address |
| SenderIp.FullBlockAddresses | sender.py:64-68 | the full block holds, ascending, exactly the `2^(32-m)` addresses whose network is the block's |
| SenderIp.FullListing | sender.py:66-69 | the listing this version's CIDR branch returns has `2^(32-m)` entries; `FullListed` states its contents |
| SenderIp.FullListed | sender.py:63-69 | the rendered block parses back to exactly the addresses sharing the first m bits of the given one, ascending, `2^(32-m)` of them |
| SenderIp.FullListingEnds | sender.py:66-69 | the first entry reads back as the network address and the last as the broadcast address |
| SenderIp.InteriorInsideFull | sender.py:68 | for m <= 30 the package's interior addresses are the full block without its first and last address |
| SenderIp.InteriorTrimsFull | sender.py:66-69 | for m <= 30 the package's interior listing is this listing minus its first and last entry. For m = 31 or 32 the interior listing is empty and this one holds 2 or 1 entries |
| SenderIp.Analyze | sender.py:48-106 | the method with its segment loop computes exactly `AnalyzeSpec` |
| SenderIp.AgreesWithoutSlash | sender.py:70-106 | without a `/`, the result is the package's, error for error |
| SenderIp.CidrVersions | sender.py:51-69 | with a `/`, both versions fail alike; on success this one lists the full block and the package the interior |

## Left out

- Sending is left out: `send_packet` and `broadcast_packet` in both `sender.py` files. They are I/O over scapy, and the IP and UDP headers are built inside that library.
- Command-line code is left out: `Jiyu_udp_attack/__main__.py`, `Jiyu_udp_attack/arg_display.py`, `Jiyu_udp_attack/__init__.py` and the `__main__` block of `Jiyu_attack.py`. They are argument parsing, help text, file reading and printing. The three `--pkg` examples of the help text (`Jiyu_udp_attack/__main__.py:68-70`), with the leading `:` removed as `Jiyu_udp_attack/__main__.py:402-406` does, are stated as the lemmas `Template.HelpRandomSize`, `Template.HelpIntLittle` and `Template.HelpHeadAndSize`.
- `secrets.token_bytes` is not modelled as a source of randomness:
  - the frame builders take the session token as a parameter of the right length;
  - `pkg_customize` reads its random bytes from an `Entropy` stream;
  - unpredictability is not a property of the model.
- The TypeError checks of `format_data`, `ip_to_tuple` and `ip_analyze` are left out. The Dafny types already exclude non-string and non-integer arguments.
- `str.format` is modelled only for the field grammar `pkg_customize` uses:
  - automatic and manual numbering, the `rand16` keyword, and `.name` and `[key]` accessors;
  - `{{` and `}}` escapes;
  - a format spec (`:`) or a conversion (`!`) is reported as unsupported, not interpreted, also where Python would reject a malformed spec with ValueError;
  - nested fields inside a spec are left out.
- Python attribute lookup is modelled only through the suffixes the three classes answer:
  - the real attributes of the objects (`value`, dunder methods) are left out;
  - so are the methods of the plain strings `rand16` hands out.
- Text.ParseInt: Python's `int()` also accepts surrounding whitespace, underscores between digits and non-ASCII digits. The model reads only an optional sign and ASCII digits.
- Text.IsDigits: `str.isdigit` is modelled for ASCII digits only. Other Unicode digits, which `int()` may reject, are left out.
- Template.Item: the integer of a `[key]` and of an argument number is unbounded. CPython stores it in a `Py_ssize_t` and raises ValueError ("Too many decimal digits in format string") once it passes 2^63 - 1, so `{rand16[99999999999999999999]}` fails there and draws 10^20 bytes here. Template.Number has the same gap for `{99999999999999999999}`.
- Template.RandAttribute: `size_N` draws `N` bytes for any `N`. CPython's `token_bytes` raises OverflowError for `N` of 2^63 or more, and MemoryError for any `N` too large to allocate; neither is modelled.
- Template.BytesAttribute: `little_N`/`big_N` with `N` of 2^63 or more raise OverflowError in `int.to_bytes` itself; the model treats such `N` like any other length. Encoding.ToBytes has the same gap.
- Template.StrAttribute: `size_N` with `N` of 2^63 or more raises OverflowError in the `bytes.ljust` inside `format_data`, which the handler does not catch; the model gives `format_data`'s result. Allocation failures (MemoryError) are not modelled.
- Template.StrAttribute: `int_0` (base 0, with `0x`, `0o` and `0b` prefixes) and the base prefixes accepted by `int(s, 16)`, `int(s, 8)` and `int(s, 2)` are modelled as no attribute.
- Encoding.Utf16Le: Dafny characters are Unicode scalar values, so Python strings with lone surrogates, whose encoding raises, cannot be expressed.
- The argument-count mismatch between `Jiyu_udp_attack/__main__.py` and `Jiyu_udp_attack/sender.py` belongs to the command-line code and is not modelled.

## Findings

| source | as written | input that shows it | evidently intended | confidence | as-written member | corrected member |
|---|---|---|---|---|---|---|
| Jiyu_attack.py:124-135 | The inner length is written rotated one byte left, at 37..41 behind 25 random bytes. The 32-bit field at offset 40, which every other DMOC frame uses for the inner length, then holds only its low byte, and the field at offset 36 holds the last random byte in place of the low byte | a url of 117 characters: the inner length is 257, but the field at offset 40 reads 1 | offsets 36 and 40 both hold the inner length `len(data) + 23`, as the package's `pkg_website` writes them | medium, not executed | LegacyPacket.WebsiteInnerFieldCounterexample | Packet.Website |
