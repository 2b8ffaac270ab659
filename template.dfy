/**
 * The custom-frame assembler: `pkg_customize(format_str, *args)` wraps each
 * argument in a `HexStr`, substitutes the replacement fields of `format_str`
 * (positional arguments and the keyword `rand16`), and hex-decodes the text
 * that results. A field reaches its value through a chain of suffixes that
 * `HexStr`, `HexInt` and `Rand16` answer in their `__getattr__`.
 */
module Template {
  import opened Base
  import opened Encoding
  import opened Text
  import Packet

  /** What a replacement field can reach. */
  datatype Value =
    | HexStr(s: string)
    | HexInt(n: nat)
    | Rand16
      /** A plain Python `str`, which is what `rand16` hands out. */
    | Str(s: string)

  /** Why a replacement fails, by the exception the source raises. */
  datatype Error =
      /** AttributeError, including every ValueError a suffix handler swallows */
    | NoAttribute(name: string)
      /** OverflowError from `to_bytes`, which the handlers do not catch */
    | Overflow(name: string)
      /** ZeroDivisionError from `div_0` or `mod_0`, which the handlers do not catch */
    | ZeroDivision(name: string)
      /** TypeError from an index the object refuses */
    | BadIndex(key: string)
      /** IndexError: no positional argument with this number */
    | ArgumentIndex(index: nat)
      /** IndexError: a string index past the end */
    | StringIndex(index: nat)
      /** KeyError: the only keyword is `rand16` */
    | UnknownKeyword(name: string)
      /** ValueError raised while parsing the format string */
    | Malformed
      /** ValueError: automatic and manual field numbering mixed */
    | NumberingSwitch
      /** A format spec or a conversion, which this model does not interpret */
    | Unsupported
      /** ValueError or binascii.Error from `unhexlify` */
    | BadHex(reason: HexError)

  /** The bytes `secrets.token_bytes` would return, as a stream read from a cursor. */
  type Entropy = nat -> Byte

  /** `secrets.token_bytes(n)` read from the stream at `cursor`. */
  function Draw(entropy: Entropy, cursor: nat, n: nat): (r: seq<Byte>)
    ensures |r| == n
    ensures forall i :: 0 <= i < n ==> r[i] == entropy(cursor + i)
  {
    seq(n, i requires 0 <= i < n => entropy(cursor + i))
  }

  /** Python's `a // b`, which rounds towards negative infinity. */
  function FloorDiv(a: int, b: int): (r: int)
    requires b != 0
    ensures b > 0 ==> b * r <= a < b * r + b
    ensures b < 0 ==> b * r + b < a <= b * r
  {
    if b > 0 then a / b else -a / -b
  }

  /** Python's `a % b`, which takes the sign of the divisor. */
  function FloorMod(a: int, b: int): (r: int)
    requires b != 0
    ensures b > 0 ==> 0 <= r < b
    ensures b < 0 ==> b < r <= 0
  {
    if b > 0 then a % b else -(-a % -b)
  }

  /** Floor division and its remainder put the dividend back together, as Python guarantees. */
  lemma FloorDivMod(a: int, b: int)
    requires b != 0
    ensures a == b * FloorDiv(a, b) + FloorMod(a, b)
  {
    if b < 0 {
      assert -a == -b * (-a / -b) + -a % -b;
    }
  }

  /** A fresh `HexInt(value)`: the constructor's ValueError for a negative value surfaces as AttributeError. */
  function NewHexInt(v: int, name: string): (r: Result<Value, Error>)
    ensures r.Ok? <==> v >= 0
    ensures r.Ok? ==> r.value == HexInt(v)
    ensures r.Err? ==> r.error == NoAttribute(name)
  {
    if v < 0 then Err(NoAttribute(name)) else Ok(HexInt(v))
  }

  /** `HexStr(value.to_bytes(n, order).hex())` */
  function BytesAttribute(v: nat, n: int, little: bool, name: string): (r: Result<Value, Error>)
    ensures r.Ok? <==> 0 <= n && v < Pow256(n)
    ensures n < 0 ==> r == Err(NoAttribute(name))
    ensures 0 <= n && v >= Pow256(n) ==> r == Err(Overflow(name))
    ensures r.Ok? ==> r.value == HexStr(Hex(if little then LittleEndian(v, n) else BigEndian(v, n)))
  {
    match ToBytes(v, n, little)
    case Err(NegativeLength) => Err(NoAttribute(name))
    case Err(TooBig) => Err(Overflow(name))
    case Ok(b) =>
      ToBytesLayout(v, n, little);
      Ok(HexStr(Hex(b)))
  }

  /** The bytes `to_bytes` returns are the little-endian digits, reversed for big-endian order. */
  lemma ToBytesLayout(v: int, n: int, little: bool)
    requires ToBytes(v, n, little).Ok?
    ensures ToBytes(v, n, little).value == if little then LittleEndian(v, n) else BigEndian(v, n)
  {
    var b := ToBytes(v, n, little).value;
    if little {
      LittleEndianOfValue(b);
    } else {
      LittleEndianOfValue(Reverse(b));
      ReverseReverse(b);
    }
  }

  /** The prefixes `HexInt.__getattr__` tries, in the order it tries them. */
  const IntPrefixes: seq<string> := [Little, Big, Add, Sub, Mul, Div, Mod]

  const Little := "little_"
  const Big := "big_"
  const Add := "add_"
  const Sub := "sub_"
  const Mul := "mul_"
  const Div := "div_"
  const Mod := "mod_"

  /** The first of `prefixes[i..]` that `name` starts with, or `|prefixes|` when there is none. */
  function FirstPrefix(name: string, prefixes: seq<string>, i: nat): (r: nat)
    requires i <= |prefixes|
    ensures i <= r <= |prefixes|
    ensures r < |prefixes| ==> StartsWith(name, prefixes[r])
    ensures forall j :: i <= j < r ==> !StartsWith(name, prefixes[j])
    decreases |prefixes| - i
  {
    if i == |prefixes| || StartsWith(name, prefixes[i]) then i else FirstPrefix(name, prefixes, i + 1)
  }

  /** The integer after a prefix of `name`, as `int(name[k:])` reads it. */
  function Argument(name: string, k: nat): (r: Option<int>)
    requires k <= |name|
    ensures var t := name[k..];
            r.Some? <==> ValidDigits(if |t| > 0 && t[0] in "+-" then t[1..] else t, 10)
    ensures r.Some? && r.value < 0 ==> name[k] == '-'
  {
    ParseInt(name[k..], 10)
  }

  /** What the suffix with prefix number `op` and argument `k` makes of `n`. */
  function IntOperation(op: nat, n: nat, k: int, name: string): (r: Result<Value, Error>)
    requires op < |IntPrefixes|
    ensures r.Ok? ==> (r.value.HexStr? <==> op < 2)
  {
    if op == 0 then BytesAttribute(n, k, true, name)
    else if op == 1 then BytesAttribute(n, k, false, name)
    else if op == 2 then NewHexInt(n + k, name)
    else if op == 3 then NewHexInt(n - k, name)
    else if op == 4 then NewHexInt(n * k, name)
    else if op == 5 then (if k == 0 then Err(ZeroDivision(name)) else NewHexInt(FloorDiv(n, k), name))
    else (if k == 0 then Err(ZeroDivision(name)) else NewHexInt(FloorMod(n, k), name))
  }

  /** `HexInt.__getattr__(name)` on a `HexInt` holding `n`: the first matching prefix decides. */
  function IntAttribute(n: nat, name: string): (r: Result<Value, Error>)
    ensures (forall j :: 0 <= j < |IntPrefixes| ==> !StartsWith(name, IntPrefixes[j])) ==> r == Err(NoAttribute(name))
  {
    var op := FirstPrefix(name, IntPrefixes, 0);
    if op == |IntPrefixes| then Err(NoAttribute(name))
    else
      match Argument(name, |IntPrefixes[op]|)
      case None => Err(NoAttribute(name))
      case Some(k) => IntOperation(op, n, k, name)
  }

  /**
   * A name that starts with one of the prefixes selects that prefix: no two of
   * them agree on their first two characters.
   */
  lemma IntPrefixSelects(n: nat, name: string, p: nat)
    requires p < |IntPrefixes| && StartsWith(name, IntPrefixes[p])
    ensures FirstPrefix(name, IntPrefixes, 0) == p
    ensures IntAttribute(n, name) ==
              match Argument(name, |IntPrefixes[p]|)
              case None => Err(NoAttribute(name))
              case Some(k) => IntOperation(p, n, k, name)
  {
    assert name[0] == IntPrefixes[p][0] && name[1] == IntPrefixes[p][1];
    forall j | 0 <= j < |IntPrefixes| && StartsWith(name, IntPrefixes[j])
      ensures j == p
    {
      assert name[0] == IntPrefixes[j][0] && name[1] == IntPrefixes[j][1];
    }
  }

  /** A name with a prefix and a readable argument `K` performs that prefix's operation with `K`. */
  lemma OperationSelects(n: nat, name: string, p: nat, k: int)
    requires p < |IntPrefixes| && StartsWith(name, IntPrefixes[p]) && Argument(name, |IntPrefixes[p]|) == Some(k)
    ensures FirstPrefix(name, IntPrefixes, 0) == p
    ensures IntAttribute(n, name) == IntOperation(p, n, k, name)
  {
    IntPrefixSelects(n, name, p);
  }

  /** `little_K` and `big_K` write the value as `K` bytes in the named order. */
  lemma BytesSelects(n: nat, name: string, little: bool, k: int)
    requires StartsWith(name, if little then Little else Big) && Argument(name, if little then 7 else 4) == Some(k)
    ensures IntAttribute(n, name) == BytesAttribute(n, k, little, name)
  {
    OperationSelects(n, name, if little then 0 else 1, k);
    assert IntOperation(if little then 0 else 1, n, k, name) == BytesAttribute(n, k, little, name);
  }

  /** `add_K` computes the sum. */
  lemma AddSelects(n: nat, add: string, k: int)
    requires StartsWith(add, Add) && Argument(add, 4) == Some(k)
    ensures IntAttribute(n, add) == NewHexInt(n + k, add)
  {
    OperationSelects(n, add, 2, k);
    assert IntOperation(2, n, k, add) == NewHexInt(n + k, add);
  }

  /** `sub_K` computes the difference. */
  lemma SubSelects(n: nat, sub: string, k: int)
    requires StartsWith(sub, Sub) && Argument(sub, 4) == Some(k)
    ensures IntAttribute(n, sub) == NewHexInt(n - k, sub)
  {
    OperationSelects(n, sub, 3, k);
    assert IntOperation(3, n, k, sub) == NewHexInt(n - k, sub);
  }

  /** `mul_K` computes the product. */
  lemma MulSelects(n: nat, mul: string, k: int)
    requires StartsWith(mul, Mul) && Argument(mul, 4) == Some(k)
    ensures IntAttribute(n, mul) == NewHexInt(n * k, mul)
  {
    OperationSelects(n, mul, 4, k);
    assert IntOperation(4, n, k, mul) == NewHexInt(n * k, mul);
  }

  /** `div_K` with a non-zero `K` computes the floor quotient. */
  lemma DivSelects(n: nat, div: string, k: int)
    requires StartsWith(div, Div) && Argument(div, 4) == Some(k) && k != 0
    ensures IntAttribute(n, div) == NewHexInt(FloorDiv(n, k), div)
  {
    OperationSelects(n, div, 5, k);
    assert IntOperation(5, n, k, div) == NewHexInt(FloorDiv(n, k), div);
  }

  /** `mod_K` with a non-zero `K` computes the floor remainder. */
  lemma ModSelects(n: nat, mod: string, k: int)
    requires StartsWith(mod, Mod) && Argument(mod, 4) == Some(k) && k != 0
    ensures IntAttribute(n, mod) == NewHexInt(FloorMod(n, k), mod)
  {
    OperationSelects(n, mod, 6, k);
    assert IntOperation(6, n, k, mod) == NewHexInt(FloorMod(n, k), mod);
  }

  /** The names `HexStr.__getattr__` answers. */
  predicate StrSuffix(name: string) {
    name == "len" || name == "hex" || name == "int" || StartsWith(name, "int_") || StartsWith(name, "size_")
  }

  /** `HexStr.__getattr__(name)` on a `HexStr` holding `s`. */
  function StrAttribute(s: string, name: string): (r: Result<Value, Error>)
    ensures !StrSuffix(name) ==> r == Err(NoAttribute(name))
    ensures name == "len" ==> r == Ok(HexInt(|s|))
    ensures name == "hex" ==> r == Ok(HexStr(Hex(Utf8(s))))
    ensures r.Err? ==> r.error == NoAttribute(name)
  {
    if name == "len" then Ok(HexInt(|s|))
    else if name == "hex" then Ok(HexStr(Hex(Utf8(s))))
    else if name == "int" then
      match ParseInt(s, 10)
      case None => Err(NoAttribute(name))
      case Some(v) => NewHexInt(v, name)
    else if StartsWith(name, "int_") then
      match Argument(name, 4)
      case None => Err(NoAttribute(name))
      case Some(base) =>
        if 2 <= base <= 36 then
          match ParseInt(s, base)
          case None => Err(NoAttribute(name))
          case Some(v) => NewHexInt(v, name)
        else Err(NoAttribute(name))
    else if StartsWith(name, "size_") then
      match Argument(name, 5)
      case None => Err(NoAttribute(name))
      case Some(k) =>
        match Packet.FormatData(s, Some(k))
        case Err(_) => Err(NoAttribute(name))
        case Ok(b) => Ok(HexStr(Hex(b)))
    else Err(NoAttribute(name))
  }

  /** `Rand16.__getattr__(name)`: `size_` and a run of digits draw that many random bytes. */
  function RandAttribute(name: string, entropy: Entropy, cursor: nat): (r: Result<(Value, nat), Error>)
    ensures r.Ok? <==> StartsWith(name, "size_") && IsDigits(name[5..])
    ensures r.Ok? ==> r.value.0 == Str(Hex(Draw(entropy, cursor, DigitsValue(name[5..], 10))))
    ensures r.Ok? ==> r.value.1 == cursor + DigitsValue(name[5..], 10)
    ensures r.Err? ==> r.error == NoAttribute(name)
  {
    if StartsWith(name, "size_") && IsDigits(name[5..]) then
      var k := DigitsValue(name[5..], 10);
      Ok((Str(Hex(Draw(entropy, cursor, k))), cursor + k))
    else Err(NoAttribute(name))
  }

  /** `getattr(v, name)`; a plain `str` answers none of the suffixes. */
  function Attribute(v: Value, name: string, entropy: Entropy, cursor: nat): (r: Result<(Value, nat), Error>)
    ensures !v.Rand16? && r.Ok? ==> r.value.1 == cursor
    ensures v.Str? ==> r == Err(NoAttribute(name))
  {
    match v
    case HexStr(s) => var w :- StrAttribute(s, name); Ok((w, cursor))
    case HexInt(n) => var w :- IntAttribute(n, name); Ok((w, cursor))
    case Rand16 => RandAttribute(name, entropy, cursor)
    case Str(_) => Err(NoAttribute(name))
  }

  /** `v[key]`, the key an integer when it is all digits and a string otherwise. */
  function Item(v: Value, key: string, entropy: Entropy, cursor: nat): (r: Result<(Value, nat), Error>)
    ensures r.Ok? ==> IsDigits(key) && (v.Rand16? || v.Str?)
    ensures v.Rand16? ==> (r.Ok? <==> IsDigits(key) && DigitsValue(key, 10) > 0)
    ensures v.Rand16? && r.Ok? ==>
              r.value == (Str(Hex(Draw(entropy, cursor, DigitsValue(key, 10)))), cursor + DigitsValue(key, 10))
    ensures v.HexStr? || v.HexInt? ==> r == Err(BadIndex(key))
  {
    match v
    case Rand16 =>
      if IsDigits(key) && DigitsValue(key, 10) > 0 then
        var k := DigitsValue(key, 10);
        Ok((Str(Hex(Draw(entropy, cursor, k))), cursor + k))
      else Err(BadIndex(key))
    case Str(s) =>
      if !IsDigits(key) then Err(BadIndex(key))
      else if DigitsValue(key, 10) < |s| then Ok((Str([s[DigitsValue(key, 10)]]), cursor))
      else Err(StringIndex(DigitsValue(key, 10)))
    case _ => Err(BadIndex(key))
  }

  /** `format(v, "")`, which is `str(v)`; `str(rand16)` draws one byte. */
  function Render(v: Value, entropy: Entropy, cursor: nat): (r: (string, nat))
    ensures v.HexStr? || v.Str? ==> r == (v.s, cursor)
    ensures v.HexInt? ==> r == (Decimal(v.n), cursor)
    ensures v.Rand16? ==> |r.0| == 2 && r.1 == cursor + 1
  {
    match v
    case HexStr(s) => (s, cursor)
    case Str(s) => (s, cursor)
    case HexInt(n) => (Decimal(n), cursor)
    case Rand16 => (Hex(Draw(entropy, cursor, 1)), cursor + 1)
  }

  /** The first index at or after `i` that holds a character of `stops`, or `|s|`. */
  function Find(s: string, i: nat, stops: string): (r: nat)
    requires i <= |s|
    ensures i <= r <= |s|
    ensures r < |s| ==> s[r] in stops
    ensures forall j :: i <= j < r ==> s[j] !in stops
    decreases |s| - i
  {
    if i == |s| || s[i] in stops then i else Find(s, i + 1, stops)
  }

  /**
   * Follows the accessors of a field name, `.name` and `[key]`, one at a
   * time: each is parsed only after the one before it has been applied.
   */
  function Access(v: Value, rest: string, entropy: Entropy, cursor: nat): (r: Result<(Value, nat), Error>)
    ensures rest == [] ==> r == Ok((v, cursor))
    ensures rest != [] && rest[0] !in ".[" ==> r == Err(Malformed)
    ensures r.Ok? ==> r.value.1 >= cursor
    ensures |rest| > 1 && rest[0] == '.' && Find(rest, 1, ".[") == |rest| ==> r == Attribute(v, rest[1..], entropy, cursor)
    decreases |rest|
  {
    if rest == [] then Ok((v, cursor))
    else if rest[0] == '.' then
      var e := Find(rest, 1, ".[");
      if e == 1 then Err(Malformed)
      else
        var a := Attribute(v, rest[1..e], entropy, cursor);
        assert e == |rest| ==> rest[1..e] == rest[1..];
        if a.Err? then a
        else
          assert a.value.1 >= cursor by {
            if !v.Rand16? {
            }
          }
          assert e == |rest| ==> rest[e..] == [];
          Access(a.value.0, rest[e..], entropy, a.value.1)
    else if rest[0] == '[' then
      var e := Find(rest, 1, "]");
      if e == |rest| || e == 1 then Err(Malformed)
      else
        var (w, c) :- Item(v, rest[1..e], entropy, cursor);
        Access(w, rest[e + 1..], entropy, c)
    else Err(Malformed)
  }

  /** How the fields so far were numbered: not yet, automatically (`{}`), or by hand (`{0}`). */
  datatype Numbering = Unset | Automatic(next: nat) | Manual

  /** The positional argument a field's first part names, if it names one, and the numbering after it. */
  function Number(first: string, numbering: Numbering): (r: Result<(Option<nat>, Numbering), Error>)
    ensures r.Err? <==> (first == [] && numbering.Manual?) || (IsDigits(first) && numbering.Automatic?)
    ensures r.Err? ==> r.error == NumberingSwitch
    ensures r.Ok? && IsDigits(first) ==> r.value == (Some(DigitsValue(first, 10)), Manual)
    ensures r.Ok? && first == [] ==> r.value.0 == Some(if numbering.Automatic? then numbering.next else 0)
    ensures first != [] && !IsDigits(first) ==> r == Ok((None, numbering))
  {
    if first == [] then
      match numbering
      case Unset => Ok((Some(0), Automatic(1)))
      case Automatic(k) => Ok((Some(k), Automatic(k + 1)))
      case Manual => Err(NumberingSwitch)
    else if IsDigits(first) then
      if numbering.Automatic? then Err(NumberingSwitch) else Ok((Some(DigitsValue(first, 10)), Manual))
    else Ok((None, numbering))
  }

  /** The object a field's first part stands for: an argument wrapped in `HexStr`, or `rand16`. */
  function Lookup(index: Option<nat>, first: string, args: seq<string>): (r: Result<Value, Error>)
    ensures index.Some? ==> (r.Ok? <==> index.value < |args|)
    ensures index.Some? && index.value < |args| ==> r == Ok(HexStr(args[index.value]))
    ensures index.None? ==> (r.Ok? <==> first == "rand16") && (r.Ok? ==> r.value == Rand16)
  {
    match index
    case Some(i) => if i < |args| then Ok(HexStr(args[i])) else Err(ArgumentIndex(i))
    case None => if first == "rand16" then Ok(Rand16) else Err(UnknownKeyword(first))
  }

  /** The characters that end a field name: `{` (an error), `}`, and `:` or `!` before a spec or conversion. */
  predicate EndsFieldName(c: char) {
    c == '{' || c == '}' || c == ':' || c == '!'
  }

  /**
   * Where the field name scanned from `i` ends: at the first `{`, `}`, `:` or
   * `!` outside brackets, or at the end of the text. A `[` hides everything
   * up to the next `]` (`inKey` says the scan is between the two), so a
   * bracketed key may hold any of those four characters.
   */
  function FieldNameEnd(s: string, i: nat, inKey: bool): (r: nat)
    requires i <= |s|
    ensures i <= r <= |s|
    ensures r < |s| ==> EndsFieldName(s[r])
    decreases |s| - i
  {
    if i == |s| then i
    else if inKey then FieldNameEnd(s, i + 1, s[i] != ']')
    else if EndsFieldName(s[i]) then i
    else FieldNameEnd(s, i + 1, s[i] == '[')
  }

  /** A field name: text whose name ends exactly at the `}` put after it. */
  predicate FieldName(field: string) {
    FieldNameEnd(field + "}", 0, false) == |field|
  }

  /** One field name, the text between `{` and `}`: the text it becomes, the new cursor and numbering. */
  function Replace(field: string, args: seq<string>, entropy: Entropy, cursor: nat, numbering: Numbering)
    : (r: Result<(string, nat, Numbering), Error>)
    ensures r.Ok? ==> r.value.1 >= cursor
    ensures var first := field[..Find(field, 0, ".[")];
            Number(first, numbering).Err? ==> r == Err(NumberingSwitch)
    ensures var first := field[..Find(field, 0, ".[")];
            first != [] && !IsDigits(first) && first != "rand16" ==> r == Err(UnknownKeyword(first))
  {
    var a := Find(field, 0, ".[");
    var first := field[..a];
    var (index, numbering') :- Number(first, numbering);
    var v :- Lookup(index, first, args);
    var (w, c) :- Access(v, field[a..], entropy, cursor);
    var (text, c') := Render(w, entropy, c);
    assert c' >= c by {
      if w.Rand16? {
      }
    }
    Ok((text, c', numbering'))
  }

  /** Text with no brace at all, which formatting passes through unchanged. */
  predicate NoBraces(s: string) {
    forall i :: 0 <= i < |s| ==> s[i] != '{' && s[i] != '}'
  }

  /** `format_str.format(*map(HexStr, args), rand16=rand16)`, read left to right. */
  function Expand(fmt: string, args: seq<string>, entropy: Entropy, cursor: nat, numbering: Numbering)
    : (r: Result<string, Error>)
    ensures NoBraces(fmt) ==> r == Ok(fmt)
    ensures fmt != [] && fmt[0] == '}' && (|fmt| == 1 || fmt[1] != '}') ==> r == Err(Malformed)
    ensures fmt == "{" ==> r == Err(Malformed)
    ensures |fmt| > 1 && fmt[0] == '{' && fmt[1] != '{' ==>
              var e := FieldNameEnd(fmt, 1, false);
              && (e == |fmt| || fmt[e] == '{' ==> r == Err(Malformed))
              && (e < |fmt| && fmt[e] in ":!" ==> r == Err(Unsupported))
    decreases |fmt|
  {
    if fmt == [] then Ok([])
    else if fmt[0] == '}' then
      if |fmt| > 1 && fmt[1] == '}' then
        var rest :- Expand(fmt[2..], args, entropy, cursor, numbering);
        Ok("}" + rest)
      else Err(Malformed)
    else if fmt[0] != '{' then
      assert NoBraces(fmt) ==> NoBraces(fmt[1..]) && [fmt[0]] + fmt[1..] == fmt;
      var rest :- Expand(fmt[1..], args, entropy, cursor, numbering);
      Ok([fmt[0]] + rest)
    else if |fmt| > 1 && fmt[1] == '{' then
      var rest :- Expand(fmt[2..], args, entropy, cursor, numbering);
      Ok("{" + rest)
    else
      var e := FieldNameEnd(fmt, 1, false);
      if e == |fmt| || fmt[e] == '{' then Err(Malformed)
      else if fmt[e] != '}' then Err(Unsupported)
      else
        var (text, c, numbering') :- Replace(fmt[1..e], args, entropy, cursor, numbering);
        var rest :- Expand(fmt[e + 1..], args, entropy, c, numbering');
        Ok(text + rest)
  }

  /** `pkg_customize(format_str, *args)`, with the random bytes drawn from `entropy`. */
  function Customize(fmt: string, args: seq<string>, entropy: Entropy): (r: Result<seq<Byte>, Error>)
    ensures var text := Expand(fmt, args, entropy, 0, Unset);
            && (text.Err? ==> r == Err(text.error))
            && (text.Ok? ==> (r.Ok? <==> IsAscii(text.value) && |text.value| % 2 == 0 && AllHexDigits(text.value)))
            && (r.Ok? ==> 2 * |r.value| == |text.value|)
            && (r.Ok? ==> text.Ok? && Unhexlify(text.value) == Ok(r.value))
  {
    var text :- Expand(fmt, args, entropy, 0, Unset);
    match Unhexlify(text)
    case Err(e) => Err(BadHex(e))
    case Ok(b) => Ok(b)
  }

  /**
   * `little_K` and `big_K` succeed exactly when `0 <= K` and the value fits in
   * `K` bytes; then they give `2 * K` hex digits, the same bytes in opposite
   * orders. A value that does not fit raises OverflowError from both; a
   * negative length is no attribute.
   */
  lemma LittleBigReversed(n: nat, little: string, big: string, k: int)
    requires StartsWith(little, Little) && Argument(little, 7) == Some(k)
    requires StartsWith(big, Big) && Argument(big, 4) == Some(k)
    ensures IntAttribute(n, little).Ok? <==> 0 <= k && n < Pow256(k)
    ensures IntAttribute(n, big).Ok? <==> 0 <= k && n < Pow256(k)
    ensures k < 0 ==> IntAttribute(n, little) == Err(NoAttribute(little)) && IntAttribute(n, big) == Err(NoAttribute(big))
    ensures 0 <= k && n >= Pow256(k) ==>
              IntAttribute(n, little) == Err(Overflow(little)) && IntAttribute(n, big) == Err(Overflow(big))
    ensures 0 <= k && n < Pow256(k) ==>
              && IntAttribute(n, little) == Ok(HexStr(Hex(LittleEndian(n, k))))
              && IntAttribute(n, big) == Ok(HexStr(Hex(Reverse(LittleEndian(n, k)))))
              && |Hex(LittleEndian(n, k))| == 2 * k
              && FromLittleEndian(LittleEndian(n, k)) == n
  {
    BytesSelects(n, little, true, k);
    BytesSelects(n, big, false, k);
    if 0 <= k && n < Pow256(k) {
      LittleEndianRoundTrip(n, k);
    }
  }

  /** `add_K` and `mul_K` give the sum and the product, and are no attribute where that is negative. */
  lemma AddMul(n: nat, add: string, mul: string, k: int)
    requires StartsWith(add, Add) && Argument(add, 4) == Some(k)
    requires StartsWith(mul, Mul) && Argument(mul, 4) == Some(k)
    ensures IntAttribute(n, add) == if n + k >= 0 then Ok(HexInt(n + k)) else Err(NoAttribute(add))
    ensures IntAttribute(n, mul).Ok? <==> n * k >= 0
    ensures IntAttribute(n, mul).Ok? ==> IntAttribute(n, mul).value.HexInt? && IntAttribute(n, mul).value.n == n * k
    ensures k >= 0 ==> IntAttribute(n, add).Ok? && IntAttribute(n, mul).Ok?
  {
    AddSelects(n, add, k);
    MulSelects(n, mul, k);
    ProductSign(n, k);
  }

  /** `sub_K` gives the difference, and is no attribute once that would drop below zero. */
  lemma SubBelowZero(n: nat, sub: string, k: int)
    requires StartsWith(sub, Sub) && Argument(sub, 4) == Some(k)
    ensures IntAttribute(n, sub).Ok? <==> k <= n
    ensures k <= n ==> IntAttribute(n, sub) == Ok(HexInt(n - k))
    ensures k > n ==> IntAttribute(n, sub) == Err(NoAttribute(sub))
  {
    SubSelects(n, sub, k);
  }

  /** `div_0` and `mod_0` raise ZeroDivisionError, which the handler does not turn into AttributeError. */
  lemma DivModByZero(n: nat, div: string, mod: string)
    requires StartsWith(div, Div) && Argument(div, 4) == Some(0)
    requires StartsWith(mod, Mod) && Argument(mod, 4) == Some(0)
    ensures IntAttribute(n, div) == Err(ZeroDivision(div))
    ensures IntAttribute(n, mod) == Err(ZeroDivision(mod))
  {
    IntPrefixSelects(n, div, 5);
    IntPrefixSelects(n, mod, 6);
  }

  /** With a positive divisor, floor division of a natural number is plain division. */
  lemma FloorByPositive(n: nat, k: int)
    requires k > 0
    ensures FloorDiv(n, k) == n / k && n / k >= 0
    ensures FloorMod(n, k) == n % k
  {
  }

  /** With a negative divisor, the floor quotient of a positive number is negative, and so is its remainder unless the divisor divides it. */
  lemma FloorByNegative(n: nat, k: int)
    requires k < 0
    ensures FloorDiv(n, k) >= 0 <==> n == 0
    ensures FloorMod(n, k) >= 0 <==> n % -k == 0
  {
    var m: int := -k;
    var a: int := -(n as int);
    assert FloorDiv(n, k) == a / m && FloorMod(n, k) == -(a % m);
    ProductSign(m, a / m);
    assert a == m * (a / m) + a % m;
    NegateDivisible(a, m);
  }

  /** A number and its negation have the same divisors. */
  lemma NegateDivisible(a: int, m: int)
    requires m > 0
    ensures a % m == 0 <==> (-a) % m == 0
  {
    if a % m == 0 {
      DivisionUnique(-a, m, -(a / m), 0);
    }
    if (-a) % m == 0 {
      DivisionUnique(a, m, -((-a) / m), 0);
    }
  }

  /** The floor quotient as a fresh `HexInt`: plain division for a positive divisor, only `0` for a negative one. */
  lemma FloorDivValue(n: nat, k: int, name: string)
    requires k != 0
    ensures k > 0 ==> NewHexInt(FloorDiv(n, k), name) == Ok(HexInt(n / k))
    ensures k < 0 ==> (NewHexInt(FloorDiv(n, k), name).Ok? <==> n == 0)
    ensures k < 0 && n == 0 ==> NewHexInt(FloorDiv(n, k), name) == Ok(HexInt(0))
  {
    if k > 0 {
      FloorByPositive(n, k);
    } else {
      FloorByNegative(n, k);
      assert n == 0 ==> FloorDiv(n, k) == 0;
    }
  }

  /** The floor remainder as a fresh `HexInt`: plain remainder for a positive divisor, `0` or nothing for a negative one. */
  lemma FloorModValue(n: nat, k: int, name: string)
    requires k != 0
    ensures k > 0 ==> NewHexInt(FloorMod(n, k), name) == Ok(HexInt(n % k))
    ensures k < 0 ==> (NewHexInt(FloorMod(n, k), name).Ok? <==> n % -k == 0)
    ensures k < 0 && n % -k == 0 ==> NewHexInt(FloorMod(n, k), name) == Ok(HexInt(0))
  {
    if k > 0 {
      FloorByPositive(n, k);
    } else {
      FloorByNegative(n, k);
    }
  }

  /** `div_K` is the quotient for a positive `K`; for a negative `K` floor division leaves only `0` non-negative. */
  lemma DivBy(n: nat, div: string, k: int)
    requires StartsWith(div, Div) && Argument(div, 4) == Some(k) && k != 0
    ensures k > 0 ==> IntAttribute(n, div).Ok? && IntAttribute(n, div).value.HexInt? && IntAttribute(n, div).value.n == n / k
    ensures k < 0 ==> (IntAttribute(n, div).Ok? <==> n == 0)
    ensures k < 0 && n == 0 ==> IntAttribute(n, div) == Ok(HexInt(0))
  {
    DivSelects(n, div, k);
    FloorDivValue(n, k, div);
  }

  /** `mod_K` is the remainder for a positive `K`; for a negative `K` it is no attribute unless `K` divides the value. */
  lemma ModBy(n: nat, mod: string, k: int)
    requires StartsWith(mod, Mod) && Argument(mod, 4) == Some(k) && k != 0
    ensures k > 0 ==> IntAttribute(n, mod).Ok? && IntAttribute(n, mod).value == HexInt(n % k)
    ensures k < 0 ==> (IntAttribute(n, mod).Ok? <==> n % -k == 0)
    ensures k < 0 && n % -k == 0 ==> IntAttribute(n, mod) == Ok(HexInt(0))
  {
    ModSelects(n, mod, k);
    FloorModValue(n, k, mod);
  }

  /** A numeric suffix whose argument `int()` cannot read is no attribute at all. */
  lemma NonNumericArgument(n: nat, name: string, p: nat)
    requires p < |IntPrefixes| && StartsWith(name, IntPrefixes[p]) && Argument(name, |IntPrefixes[p]|).None?
    ensures IntAttribute(n, name) == Err(NoAttribute(name))
  {
    IntPrefixSelects(n, name, p);
  }

  /** The two prefixes of `HexStr.__getattr__` share no first character with each other or with its three names. */
  lemma StrPrefixSelects(name: string)
    requires StartsWith(name, "int_") || StartsWith(name, "size_")
    ensures name != "len" && name != "hex" && name != "int"
    ensures StartsWith(name, "size_") ==> !StartsWith(name, "int_")
  {
    assert name[0] == 'i' || name[0] == 's';
    if StartsWith(name, "int_") {
      assert |name| >= 4;
    }
  }

  /** `size_K` of a text is the hex of `format_data(text, K)`, and fails where that raises. */
  lemma SizeIsFormatData(s: string, name: string, k: int)
    requires StartsWith(name, "size_") && Argument(name, 5) == Some(k)
    ensures StrAttribute(s, name).Ok? <==> Packet.FormatData(s, Some(k)).Ok?
    ensures StrAttribute(s, name).Ok? ==> StrAttribute(s, name) == Ok(HexStr(Hex(Packet.FormatData(s, Some(k)).value)))
    ensures StrAttribute(s, name).Ok? <==> 0 < k && 2 * CodeUnits(s) <= k
  {
    StrPrefixSelects(name);
    Utf16LeLength(s);
  }

  /** `int` reads the text as a decimal number and keeps it when it is not negative. */
  lemma IntOfText(s: string, v: int)
    requires ParseInt(s, 10) == Some(v)
    ensures StrAttribute(s, "int") == if v >= 0 then Ok(HexInt(v)) else Err(NoAttribute("int"))
  {
  }

  /** `int` reads back what `str` writes: the text of a `HexInt` gives that `HexInt` again. */
  lemma IntOfDecimal(n: nat, entropy: Entropy, cursor: nat)
    ensures StrAttribute(Render(HexInt(n), entropy, cursor).0, "int") == Ok(HexInt(n))
  {
    ParseDecimal(n);
    IntOfText(Decimal(n), n);
  }

  /** `int_B` reads the text in base `B`, and only bases 2 to 36 are accepted. */
  lemma IntInBase(s: string, name: string, base: int)
    requires StartsWith(name, "int_") && Argument(name, 4) == Some(base)
    ensures StrAttribute(s, name).Ok? <==> 2 <= base <= 36 && ParseInt(s, base).Some? && ParseInt(s, base).value >= 0
    ensures StrAttribute(s, name).Ok? ==> StrAttribute(s, name) == Ok(HexInt(ParseInt(s, base).value))
  {
    StrPrefixSelects(name);
  }

  /** `int_B` and `size_K` whose argument `int()` cannot read are no attributes. */
  lemma NonNumericStrArgument(s: string, name: string)
    requires (StartsWith(name, "int_") && Argument(name, 4).None?) || (StartsWith(name, "size_") && Argument(name, 5).None?)
    ensures StrAttribute(s, name) == Err(NoAttribute(name))
  {
    StrPrefixSelects(name);
  }

  /** `rand16.size_N` and `rand16[N]` give `2 * N` hex digits of fresh bytes; only a positive index is accepted. */
  lemma Rand16Sizes(k: nat, entropy: Entropy, cursor: nat)
    ensures Attribute(Rand16, "size_" + Decimal(k), entropy, cursor) == Ok((Str(Hex(Draw(entropy, cursor, k))), cursor + k))
    ensures Item(Rand16, Decimal(k), entropy, cursor).Ok? <==> k > 0
    ensures k > 0 ==> Item(Rand16, Decimal(k), entropy, cursor) == Ok((Str(Hex(Draw(entropy, cursor, k))), cursor + k))
    ensures |Hex(Draw(entropy, cursor, k))| == 2 * k
  {
    var name := "size_" + Decimal(k);
    assert name[..5] == "size_" && name[5..] == Decimal(k);
    DecimalValue(k);
  }

  /** A format string without fields is hex-decoded as it stands. */
  lemma CustomizeLiteral(fmt: string, args: seq<string>, entropy: Entropy)
    requires NoBraces(fmt)
    ensures Customize(fmt, args, entropy) == match Unhexlify(fmt) { case Ok(b) => Ok(b) case Err(e) => Err(BadHex(e)) }
  {
  }

  /** Characters that cannot end a field name or open a bracket are passed over. */
  lemma {:induction false} FieldNameEndSkip(s: string, i: nat, k: nat)
    requires i <= k <= |s|
    requires forall j :: i <= j < k ==> !EndsFieldName(s[j]) && s[j] != '['
    ensures FieldNameEnd(s, i, false) == FieldNameEnd(s, k, false)
    decreases k - i
  {
    if i < k {
      FieldNameEndSkip(s, i + 1, k);
    }
  }

  /** Inside a bracketed key, everything up to the closing `]` is passed over. */
  lemma {:induction false} KeySkip(s: string, i: nat, k: nat)
    requires i <= k <= |s|
    requires forall j :: i <= j < k ==> s[j] != ']'
    ensures FieldNameEnd(s, i, true) == FieldNameEnd(s, k, true)
    decreases k - i
  {
    if i < k {
      KeySkip(s, i + 1, k);
    }
  }

  /** A field name that ends inside `s` ends at the same place in any text `u` that holds `s` at offset `k`. */
  lemma {:induction false} FieldNameEndIn(u: string, k: nat, s: string, i: nat, inKey: bool)
    requires k + |s| <= |u| && u[k..k + |s|] == s
    requires i <= |s| && FieldNameEnd(s, i, inKey) < |s|
    ensures FieldNameEnd(u, k + i, inKey) == k + FieldNameEnd(s, i, inKey)
    decreases |s| - i
  {
    assert u[k + i] == u[k..k + |s|][i];
    if inKey || !EndsFieldName(s[i]) {
      FieldNameEndIn(u, k, s, i + 1, if inKey then s[i] != ']' else s[i] == '[');
    }
  }

  /** Text with none of `{`, `}`, `:`, `!` and `[` is a field name. */
  lemma PlainFieldName(field: string)
    requires forall j :: 0 <= j < |field| ==> !EndsFieldName(field[j]) && field[j] != '['
    ensures FieldName(field)
  {
    var s := field + "}";
    assert forall j :: 0 <= j < |field| ==> s[j] == field[j];
    FieldNameEndSkip(s, 0, |field|);
  }

  /** A run of digits is a field name. */
  lemma DigitsFieldName(d: string)
    requires IsDigits(d)
    ensures FieldName(d)
  {
    assert forall j :: 0 <= j < |d| ==> IsAsciiDigit(d[j]);
    PlainFieldName(d);
  }

  /** A replacement field is replaced where it stands, and the text after it is formatted next. */
  lemma ExpandField(field: string, rest: string, args: seq<string>, entropy: Entropy, cursor: nat, numbering: Numbering)
    requires FieldName(field)
    ensures var rep := Replace(field, args, entropy, cursor, numbering);
            Expand("{" + field + "}" + rest, args, entropy, cursor, numbering) ==
              if rep.Err? then Err(rep.error)
              else
                var tail := Expand(rest, args, entropy, rep.value.1, rep.value.2);
                if tail.Err? then Err(tail.error) else Ok(rep.value.0 + tail.value)
  {
    var fmt := "{" + field + "}" + rest;
    var close := |field| + 1;
    assert fmt[1..close + 1] == field + "}";
    FieldNameEndIn(fmt, 1, field + "}", 0, false);
    assert fmt[0] == '{' && fmt[close] == '}';
    assert fmt[1] != '{' by {
      if field != [] {
        assert (field + "}")[0] == field[0] == fmt[1];
      }
    }
    assert fmt[1..close] == field;
    assert fmt[close + 1..] == rest;
    ExpandAtField(fmt, args, entropy, cursor, numbering);
  }

  /** A text opening with a field whose name ends at a `}` expands that field, then the rest. */
  lemma ExpandAtField(fmt: string, args: seq<string>, entropy: Entropy, cursor: nat, numbering: Numbering)
    requires |fmt| > 1 && fmt[0] == '{' && fmt[1] != '{'
    requires FieldNameEnd(fmt, 1, false) < |fmt| && fmt[FieldNameEnd(fmt, 1, false)] == '}'
    ensures var e := FieldNameEnd(fmt, 1, false);
            var rep := Replace(fmt[1..e], args, entropy, cursor, numbering);
            Expand(fmt, args, entropy, cursor, numbering) ==
              if rep.Err? then Err(rep.error)
              else
                var tail := Expand(fmt[e + 1..], args, entropy, rep.value.1, rep.value.2);
                if tail.Err? then Err(tail.error) else Ok(rep.value.0 + tail.value)
  {
    var e := FieldNameEnd(fmt, 1, false);
    assert fmt[0] == '{' && fmt[1] != '{' && e < |fmt| && fmt[e] == '}';
  }

  /** Field-name text after the argument number: nothing, or an accessor first. */
  predicate AccessorChain(accessors: string) {
    accessors == [] || accessors[0] == '.' || accessors[0] == '['
  }

  /** A field that numbers its argument by hand yields that argument, reached through the accessors. */
  lemma ReplaceArgument(i: nat, accessors: string, args: seq<string>, entropy: Entropy, cursor: nat, numbering: Numbering)
    requires AccessorChain(accessors) && !numbering.Automatic?
    ensures Replace(Decimal(i) + accessors, args, entropy, cursor, numbering) ==
              if i >= |args| then Err(ArgumentIndex(i))
              else
                var a := Access(HexStr(args[i]), accessors, entropy, cursor);
                if a.Err? then Err(a.error)
                else Ok((Render(a.value.0, entropy, a.value.1).0, Render(a.value.0, entropy, a.value.1).1, Manual))
  {
    DecimalValue(i);
    ArgumentField(Decimal(i), accessors);
  }

  /** How `Replace` cuts a field made of an argument number and plain accessors. */
  lemma ArgumentField(d: string, accessors: string)
    requires IsDigits(d) && AccessorChain(accessors)
    ensures var field := d + accessors;
            && Find(field, 0, ".[") == |d|
            && field[..|d|] == d && field[|d|..] == accessors
  {
    var field := d + accessors;
    assert forall j :: 0 <= j < |d| ==> field[j] == d[j] && IsAsciiDigit(d[j]);
    assert forall j :: |d| <= j < |field| ==> field[j] == accessors[j - |d|];
    assert accessors != [] ==> field[|d|] == accessors[0];
  }

  /** An attribute accessor with nothing after it asks the object for that attribute. */
  lemma AccessAttribute(v: Value, name: string, entropy: Entropy, cursor: nat)
    requires name != [] && forall j :: 0 <= j < |name| ==> name[j] !in ".["
    ensures Access(v, "." + name, entropy, cursor) == Attribute(v, name, entropy, cursor)
  {
    var rest := "." + name;
    assert forall j :: 1 <= j < |rest| ==> rest[j] == name[j - 1];
    assert Find(rest, 1, ".[") == |rest|;
    assert rest[1..] == name;
  }

  /**
   * One `.name` step of a chain: the name runs up to the next `.` or `[`, the
   * object is asked for that attribute, and the rest of the chain is followed
   * from the attribute's value.
   */
  lemma AccessDot(v: Value, name: string, rest: string, entropy: Entropy, cursor: nat)
    requires name != [] && '.' !in name && '[' !in name
    requires AccessorChain(rest)
    ensures var a := Attribute(v, name, entropy, cursor);
            Access(v, "." + name + rest, entropy, cursor) ==
              if a.Err? then Err(a.error) else Access(a.value.0, rest, entropy, a.value.1)
  {
    var s := "." + name + rest;
    var e := |name| + 1;
    assert forall j :: 1 <= j < e ==> s[j] == name[j - 1];
    assert e < |s| ==> s[e] == rest[0];
    assert Find(s, 1, ".[") == e;
    assert s[1..e] == name && s[e..] == rest;
  }

  /**
   * One `[key]` step of a chain: the key runs up to the next `]`, the object
   * is asked for that item, and the rest is followed from the item's value.
   */
  lemma AccessKey(v: Value, key: string, rest: string, entropy: Entropy, cursor: nat)
    requires key != [] && ']' !in key
    ensures var it := Item(v, key, entropy, cursor);
            Access(v, "[" + key + "]" + rest, entropy, cursor) ==
              if it.Err? then Err(it.error) else Access(it.value.0, rest, entropy, it.value.1)
  {
    var s := "[" + key + "]" + rest;
    var e := |key| + 1;
    assert forall j :: 1 <= j < e ==> s[j] == key[j - 1];
    assert s[e] == ']';
    assert Find(s, 1, "]") == e;
    assert s[1..e] == key && s[e + 1..] == rest;
  }

  /** How `Replace` cuts a field whose first part holds no accessor character. */
  lemma FirstPartField(first: string, accessors: string)
    requires '.' !in first && '[' !in first && AccessorChain(accessors)
    ensures var field := first + accessors;
            && Find(field, 0, ".[") == |first|
            && field[..|first|] == first && field[|first|..] == accessors
  {
    var field := first + accessors;
    assert forall j :: 0 <= j < |first| ==> field[j] == first[j];
    assert accessors != [] ==> field[|first|] == accessors[0];
  }

  /** `{rand16…}` follows the accessors from `rand16` and leaves the numbering as it was. */
  lemma ReplaceRand16(accessors: string, args: seq<string>, entropy: Entropy, cursor: nat, numbering: Numbering)
    requires AccessorChain(accessors)
    ensures var a := Access(Rand16, accessors, entropy, cursor);
            Replace("rand16" + accessors, args, entropy, cursor, numbering) ==
              if a.Err? then Err(a.error)
              else Ok((Render(a.value.0, entropy, a.value.1).0, Render(a.value.0, entropy, a.value.1).1, numbering))
  {
    FirstPartField("rand16", accessors);
    assert !IsAsciiDigit("rand16"[0]);
  }

  /**
   * A field with no argument number, `{}` or `{.name…}`, takes the next
   * argument in automatic numbering, the first when nothing was numbered yet.
   */
  lemma ReplaceAutomatic(accessors: string, args: seq<string>, entropy: Entropy, cursor: nat, numbering: Numbering)
    requires AccessorChain(accessors) && !numbering.Manual?
    ensures var k := if numbering.Automatic? then numbering.next else 0;
            Replace(accessors, args, entropy, cursor, numbering) ==
              if k >= |args| then Err(ArgumentIndex(k))
              else
                var a := Access(HexStr(args[k]), accessors, entropy, cursor);
                if a.Err? then Err(a.error)
                else Ok((Render(a.value.0, entropy, a.value.1).0, Render(a.value.0, entropy, a.value.1).1, Automatic(k + 1)))
  {
    FirstPartField([], accessors);
    assert [] + accessors == accessors;
  }

  /** `{i}` is replaced by the i-th argument as it stands, so the frame is that argument hex-decoded. */
  lemma CustomizeArgument(i: nat, args: seq<string>, entropy: Entropy)
    ensures Customize("{" + Decimal(i) + "}", args, entropy) ==
              if i >= |args| then Err(ArgumentIndex(i))
              else match Unhexlify(args[i]) { case Ok(b) => Ok(b) case Err(e) => Err(BadHex(e)) }
  {
    ExpandArgument(i, args, entropy);
  }

  lemma ExpandArgument(i: nat, args: seq<string>, entropy: Entropy)
    ensures Expand("{" + Decimal(i) + "}", args, entropy, 0, Unset) ==
              if i >= |args| then Err(ArgumentIndex(i)) else Ok(args[i])
  {
    var d := Decimal(i);
    DigitsFieldName(d);
    assert "{" + d + "}" == "{" + d + "}" + [];
    ExpandField(d, [], args, entropy, 0, Unset);
    assert d + [] == d;
    ReplaceArgument(i, [], args, entropy, 0, Unset);
    if i < |args| {
      assert args[i] + [] == args[i];
    }
  }

  /** An argument that is the hex of some bytes, substituted whole, decodes to those bytes. */
  lemma CustomizeRoundTrip(b: seq<Byte>, entropy: Entropy)
    ensures Customize("{0}", [Hex(b)], entropy) == Ok(b)
  {
    CustomizeArgument(0, [Hex(b)], entropy);
    assert "{" + Decimal(0) + "}" == "{0}";
    UnhexlifyHex(b);
  }

  /** A name free of the characters that end or escape a field. */
  predicate PlainName(name: string) {
    name != [] && forall j :: 0 <= j < |name| ==> name[j] !in ".[{}:!"
  }

  /** How `{0.name}` splits into a field and its accessor. */
  lemma AttributeField(name: string)
    requires PlainName(name)
    ensures var accessors := "." + name;
            && AccessorChain(accessors)
            && "{0." + name + "}" == "{" + (Decimal(0) + accessors) + "}" + []
            && FieldName(Decimal(0) + accessors)
  {
    var accessors := "." + name;
    var field := Decimal(0) + accessors;
    assert Decimal(0) == "0";
    assert forall j :: 2 <= j < |field| ==> field[j] == name[j - 2];
    PlainFieldName(field);
  }

  /** `{0.name}` for a plain attribute name is that attribute of the first argument, rendered. */
  lemma ExpandAttribute(s: string, name: string, entropy: Entropy)
    requires PlainName(name)
    ensures var a := Access(HexStr(s), "." + name, entropy, 0);
            Expand("{0." + name + "}", [s], entropy, 0, Unset) ==
              if a.Err? then Err(a.error) else Ok(Render(a.value.0, entropy, a.value.1).0)
  {
    AttributeField(name);
    var accessors := "." + name;
    ExpandField(Decimal(0) + accessors, [], [s], entropy, 0, Unset);
    ReplaceArgument(0, accessors, [s], entropy, 0, Unset);
    var a := Access(HexStr(s), accessors, entropy, 0);
    if a.Ok? {
      assert Render(a.value.0, entropy, a.value.1).0 + [] == Render(a.value.0, entropy, a.value.1).0;
    }
  }

  /** `{0.size_K}`, with any spelling of `K` that `int()` reads, is `format_data(args[0], K)`. */
  lemma CustomizeSizeName(s: string, name: string, k: int, entropy: Entropy)
    requires PlainName(name) && StartsWith(name, "size_") && Argument(name, 5) == Some(k)
    ensures Customize("{0." + name + "}", [s], entropy) ==
              match Packet.FormatData(s, Some(k))
              case Ok(b) => Ok(b)
              case Err(_) => Err(NoAttribute(name))
  {
    ExpandAttribute(s, name, entropy);
    AccessAttribute(HexStr(s), name, entropy, 0);
    SizeIsFormatData(s, name, k);
    if Packet.FormatData(s, Some(k)).Ok? {
      UnhexlifyHex(Packet.FormatData(s, Some(k)).value);
    }
  }

  /** `size_` and the decimal digits of `k` make a plain name whose argument is `k`. */
  lemma SizeName(k: nat)
    ensures var name := "size_" + Decimal(k);
            && PlainName(name) && StartsWith(name, "size_") && Argument(name, 5) == Some(k)
            && "{0.size_" + Decimal(k) + "}" == "{0." + name + "}"
  {
    SizeNamePlain(k);
    SizeNameArgument(k);
    SizeNameField(k);
  }

  lemma SizeNamePlain(k: nat)
    ensures PlainName("size_" + Decimal(k))
  {
    var name := "size_" + Decimal(k);
    assert forall j :: 5 <= j < |name| ==> name[j] == Decimal(k)[j - 5] && IsAsciiDigit(Decimal(k)[j - 5]);
  }

  lemma SizeNameArgument(k: nat)
    ensures var name := "size_" + Decimal(k); StartsWith(name, "size_") && Argument(name, 5) == Some(k)
  {
    var name := "size_" + Decimal(k);
    ParseDecimal(k);
    assert name[..5] == "size_" && name[5..] == Decimal(k);
  }

  lemma SizeNameField(k: nat)
    ensures "{0.size_" + Decimal(k) + "}" == "{0." + ("size_" + Decimal(k)) + "}"
  {
  }

  /** `{0.size_K}` yields exactly the bytes `format_data(args[0], K)`, and fails where that raises. */
  lemma CustomizeSize(s: string, k: nat, entropy: Entropy)
    ensures Customize("{0.size_" + Decimal(k) + "}", [s], entropy) ==
              match Packet.FormatData(s, Some(k))
              case Ok(b) => Ok(b)
              case Err(_) => Err(NoAttribute("size_" + Decimal(k)))
  {
    SizeName(k);
    CustomizeSizeName(s, "size_" + Decimal(k), k, entropy);
  }

  /** `{0.hex}` hex-encodes the UTF-8 bytes of the first argument, so the frame is those bytes. */
  lemma CustomizeHex(s: string, entropy: Entropy)
    ensures Customize("{0.hex}", [s], entropy) == Ok(Utf8(s))
  {
    ExpandHex(s, entropy);
    UnhexlifyHex(Utf8(s));
  }

  lemma HexField()
    ensures PlainName("hex") && "{0.hex}" == "{0." + "hex" + "}"
  {
  }

  lemma ExpandHex(s: string, entropy: Entropy)
    ensures Expand("{0.hex}", [s], entropy, 0, Unset) == Ok(Hex(Utf8(s)))
  {
    HexField();
    ExpandAttribute(s, "hex", entropy);
    AccessAttribute(HexStr(s), "hex", entropy, 0);
  }

  /** Text made only of characters a field name may hold outside brackets. */
  predicate NameChars(s: string) {
    forall j :: 0 <= j < |s| ==> !EndsFieldName(s[j]) && s[j] != '['
  }

  lemma NameCharsAppend(a: string, b: string)
    requires NameChars(a) && NameChars(b)
    ensures NameChars(a + b)
  {
    assert forall j :: |a| <= j < |a + b| ==> (a + b)[j] == b[j - |a|];
  }

  /** A plain attribute name holds no character that ends a field name or starts an accessor. */
  lemma PlainNameChars(name: string)
    requires PlainName(name)
    ensures NameChars(name) && '.' !in name && '[' !in name
    ensures forall j :: 0 <= j < |name| ==> name[j] !in ".["
  {
  }

  /** `rand16.name` is a field name when `name` is plain. */
  lemma KeywordAttributeField(name: string)
    requires PlainName(name)
    ensures FieldName("rand16" + ("." + name))
  {
    PlainNameChars(name);
    assert NameChars("rand16") && NameChars(".");
    NameCharsAppend(".", name);
    NameCharsAppend("rand16", "." + name);
    PlainFieldName("rand16" + ("." + name));
  }

  /** An argument number followed by plain accessors is a field name. */
  lemma NumberAttributeField(d: string, accessors: string)
    requires IsDigits(d) && NameChars(accessors)
    ensures FieldName(d + accessors)
  {
    assert forall j :: 0 <= j < |d| ==> IsAsciiDigit(d[j]);
    assert NameChars(d);
    NameCharsAppend(d, accessors);
    PlainFieldName(d + accessors);
  }

  /** `size_` and the digits of `k`: a plain name whose digits denote `k`. */
  lemma SizeNameDigits(k: nat)
    ensures var name := "size_" + Decimal(k);
            && StartsWith(name, "size_") && IsDigits(name[5..]) && DigitsValue(name[5..], 10) == k
  {
    var name := "size_" + Decimal(k);
    DecimalValue(k);
    assert name[..5] == "size_" && name[5..] == Decimal(k);
  }

  /** `little_` and the digits of `k`: a plain name whose argument is `k`. */
  lemma LittleName(k: nat)
    ensures var name := "little_" + Decimal(k);
            && PlainName(name) && StartsWith(name, Little) && Argument(name, 7) == Some(k)
  {
    LittleNamePlain(k);
    LittleNameArgument(k);
  }

  lemma LittleNamePlain(k: nat)
    ensures PlainName("little_" + Decimal(k))
  {
    var name := "little_" + Decimal(k);
    assert forall j :: 7 <= j < |name| ==> name[j] == Decimal(k)[j - 7] && IsAsciiDigit(Decimal(k)[j - 7]);
  }

  lemma LittleNameArgument(k: nat)
    ensures var name := "little_" + Decimal(k); StartsWith(name, Little) && Argument(name, 7) == Some(k)
  {
    var name := "little_" + Decimal(k);
    ParseDecimal(k);
    assert name[..7] == Little && name[7..] == Decimal(k);
  }

  /** `rand16.size_K` draws `K` bytes from the stream at the cursor, as a plain string of hex digits. */
  lemma AccessRandomSize(name: string, k: nat, entropy: Entropy, cursor: nat)
    requires PlainName(name) && StartsWith(name, "size_") && IsDigits(name[5..]) && DigitsValue(name[5..], 10) == k
    ensures Access(Rand16, "." + name, entropy, cursor) == Ok((Str(Hex(Draw(entropy, cursor, k))), cursor + k))
  {
    PlainNameChars(name);
    AccessAttribute(Rand16, name, entropy, cursor);
  }

  lemma ReplaceRandomSize(name: string, k: nat, entropy: Entropy)
    requires PlainName(name) && StartsWith(name, "size_") && IsDigits(name[5..]) && DigitsValue(name[5..], 10) == k
    ensures Replace("rand16" + ("." + name), [], entropy, 0, Unset) == Ok((Hex(Draw(entropy, 0, k)), k, Unset))
  {
    ReplaceRand16("." + name, [], entropy, 0, Unset);
    AccessRandomSize(name, k, entropy, 0);
  }

  lemma RandomSizeText(k: nat)
    ensures "{rand16.size_" + Decimal(k) + "}" == "{" + ("rand16" + ("." + ("size_" + Decimal(k)))) + "}" + []
  {
  }

  lemma ExpandRandomSize(k: nat, entropy: Entropy)
    ensures Expand("{rand16.size_" + Decimal(k) + "}", [], entropy, 0, Unset) == Ok(Hex(Draw(entropy, 0, k)))
  {
    var name := "size_" + Decimal(k);
    SizeNamePlain(k);
    SizeNameDigits(k);
    KeywordAttributeField(name);
    RandomSizeText(k);
    ExpandField("rand16" + ("." + name), [], [], entropy, 0, Unset);
    ReplaceRandomSize(name, k, entropy);
    assert Hex(Draw(entropy, 0, k)) + [] == Hex(Draw(entropy, 0, k));
  }

  /** `{rand16.size_K}` draws `K` bytes from the stream, and the frame is exactly those bytes. */
  lemma CustomizeRandomSize(k: nat, entropy: Entropy)
    ensures Customize("{rand16.size_" + Decimal(k) + "}", [], entropy) == Ok(Draw(entropy, 0, k))
  {
    ExpandRandomSize(k, entropy);
    UnhexlifyHex(Draw(entropy, 0, k));
  }

  /** `.int.little_K` on the decimal text of `n`: the hex of its `K` little-endian bytes, or OverflowError. */
  lemma AccessIntLittle(n: nat, name: string, k: nat, entropy: Entropy)
    requires PlainName(name) && StartsWith(name, Little) && Argument(name, 7) == Some(k)
    ensures Access(HexStr(Decimal(n)), "." + "int" + ("." + name), entropy, 0) ==
              if n < Pow256(k) then Ok((HexStr(Hex(LittleEndian(n, k))), 0)) else Err(Overflow(name))
  {
    PlainNameChars(name);
    AccessDot(HexStr(Decimal(n)), "int", "." + name, entropy, 0);
    IntOfDecimal(n, entropy, 0);
    AccessAttribute(HexInt(n), name, entropy, 0);
    BytesSelects(n, name, true, k);
  }

  lemma ReplaceIntLittle(n: nat, name: string, k: nat, entropy: Entropy)
    requires PlainName(name) && StartsWith(name, Little) && Argument(name, 7) == Some(k)
    ensures Replace(Decimal(0) + ("." + "int" + ("." + name)), [Decimal(n)], entropy, 0, Unset) ==
              if n < Pow256(k) then Ok((Hex(LittleEndian(n, k)), 0, Manual)) else Err(Overflow(name))
  {
    ReplaceArgument(0, "." + "int" + ("." + name), [Decimal(n)], entropy, 0, Unset);
    AccessIntLittle(n, name, k, entropy);
  }

  lemma IntLittleText(d: string)
    ensures "{0.int.little_" + d + "}" == "{" + ("0" + ("." + "int" + ("." + ("little_" + d)))) + "}" + []
  {
  }

  /** `0.int.name` is a field name when `name` is plain. */
  lemma IntAccessorsField(name: string)
    requires PlainName(name)
    ensures FieldName(Decimal(0) + ("." + "int" + ("." + name)))
  {
    var accessors := "." + "int" + ("." + name);
    PlainNameChars(name);
    assert NameChars(".int.");
    NameCharsAppend(".int.", name);
    assert accessors == ".int." + name;
    NumberAttributeField(Decimal(0), accessors);
  }

  lemma ExpandIntLittle(n: nat, k: nat, entropy: Entropy)
    ensures Expand("{0.int.little_" + Decimal(k) + "}", [Decimal(n)], entropy, 0, Unset) ==
              if n < Pow256(k) then Ok(Hex(LittleEndian(n, k))) else Err(Overflow("little_" + Decimal(k)))
  {
    var name := "little_" + Decimal(k);
    var accessors := "." + "int" + ("." + name);
    LittleName(k);
    IntAccessorsField(name);
    IntLittleText(Decimal(k));
    assert Decimal(0) == "0";
    ExpandField(Decimal(0) + accessors, [], [Decimal(n)], entropy, 0, Unset);
    ReplaceIntLittle(n, name, k, entropy);
    if n < Pow256(k) {
      assert Hex(LittleEndian(n, k)) + [] == Hex(LittleEndian(n, k));
    }
  }

  /** `{0.int.little_K}` on the decimal text of `n` is the `K` little-endian bytes of `n`, or OverflowError. */
  lemma CustomizeIntLittle(n: nat, k: nat, entropy: Entropy)
    ensures Customize("{0.int.little_" + Decimal(k) + "}", [Decimal(n)], entropy) ==
              if n < Pow256(k) then Ok(LittleEndian(n, k)) else Err(Overflow("little_" + Decimal(k)))
  {
    ExpandIntLittle(n, k, entropy);
    if n < Pow256(k) {
      UnhexlifyHex(LittleEndian(n, k));
    }
  }

  /** A first field `{0}` under no numbering yet is the first argument as it stands, and numbering turns manual. */
  lemma ReplaceFirst(a: string, s: string, entropy: Entropy)
    ensures Replace(Decimal(0), [a, s], entropy, 0, Unset) == Ok((a, 0, Manual))
  {
    ReplaceArgument(0, [], [a, s], entropy, 0, Unset);
    assert Decimal(0) + [] == Decimal(0);
  }

  /** Under manual numbering, `{1.size_K}` is `format_data` of the second argument. */
  lemma ReplaceSecondSize(a: string, s: string, name: string, k: nat, entropy: Entropy)
    requires PlainName(name) && StartsWith(name, "size_") && Argument(name, 5) == Some(k)
    ensures var fd := Packet.FormatData(s, Some(k));
            Replace(Decimal(1) + ("." + name), [a, s], entropy, 0, Manual) ==
              if fd.Ok? then Ok((Hex(fd.value), 0, Manual)) else Err(NoAttribute(name))
  {
    PlainNameChars(name);
    ReplaceArgument(1, "." + name, [a, s], entropy, 0, Manual);
    AccessAttribute(HexStr(s), name, entropy, 0);
    SizeIsFormatData(s, name, k);
  }

  lemma ExpandSecondSize(a: string, s: string, name: string, k: nat, entropy: Entropy)
    requires PlainName(name) && StartsWith(name, "size_") && Argument(name, 5) == Some(k)
    ensures var fd := Packet.FormatData(s, Some(k));
            Expand("{" + (Decimal(1) + ("." + name)) + "}" + [], [a, s], entropy, 0, Manual) ==
              if fd.Ok? then Ok(Hex(fd.value)) else Err(NoAttribute(name))
  {
    PlainNameChars(name);
    assert NameChars(".");
    NameCharsAppend(".", name);
    NumberAttributeField(Decimal(1), "." + name);
    ExpandField(Decimal(1) + ("." + name), [], [a, s], entropy, 0, Manual);
    ReplaceSecondSize(a, s, name, k, entropy);
    if Packet.FormatData(s, Some(k)).Ok? {
      var h := Hex(Packet.FormatData(s, Some(k)).value);
      assert h + [] == h;
    }
  }

  lemma HeadAndSizeText(d: string)
    ensures "{0}{1.size_" + d + "}" == "{" + "0" + "}" + ("{" + ("1" + ("." + ("size_" + d))) + "}" + [])
  {
  }

  lemma ExpandHeadAndSize(a: string, s: string, k: nat, entropy: Entropy)
    ensures var fd := Packet.FormatData(s, Some(k));
            Expand("{0}{1.size_" + Decimal(k) + "}", [a, s], entropy, 0, Unset) ==
              if fd.Ok? then Ok(a + Hex(fd.value)) else Err(NoAttribute("size_" + Decimal(k)))
  {
    var name := "size_" + Decimal(k);
    var rest := "{" + (Decimal(1) + ("." + name)) + "}" + [];
    SizeName(k);
    HeadAndSizeText(Decimal(k));
    assert Decimal(0) == "0" && Decimal(1) == "1";
    DigitsFieldName(Decimal(0));
    ExpandField(Decimal(0), rest, [a, s], entropy, 0, Unset);
    ReplaceFirst(a, s, entropy);
    ExpandSecondSize(a, s, name, k, entropy);
  }

  /** `{0}{1.size_K}`: the first argument as it stands, then `format_data` of the second in `K` bytes. */
  lemma CustomizeHeadAndSize(c: seq<Byte>, s: string, k: nat, entropy: Entropy)
    ensures var fd := Packet.FormatData(s, Some(k));
            Customize("{0}{1.size_" + Decimal(k) + "}", [Hex(c), s], entropy) ==
              if fd.Ok? then Ok(c + fd.value) else Err(NoAttribute("size_" + Decimal(k)))
  {
    ExpandHeadAndSize(Hex(c), s, k, entropy);
    if Packet.FormatData(s, Some(k)).Ok? {
      var b := Packet.FormatData(s, Some(k)).value;
      HexAppend(c, b);
      UnhexlifyHex(c + b);
    }
  }

  /** The help text's `:{rand16.size_2}`, once its leading `:` is removed: two random bytes. */
  lemma HelpRandomSize(entropy: Entropy)
    ensures Customize("{rand16.size_2}", [], entropy) == Ok([entropy(0), entropy(1)])
  {
    assert Decimal(2) == "2";
    assert "{rand16.size_" + Decimal(2) + "}" == "{rand16.size_2}";
    CustomizeRandomSize(2, entropy);
    assert Draw(entropy, 0, 2) == [entropy(0), entropy(1)];
  }

  /** The help text's `:{0.int.little_4}` with `1024`: the bytes `00 04 00 00`. */
  lemma HelpIntLittle(entropy: Entropy)
    ensures Customize("{0.int.little_4}", ["1024"], entropy) == Ok([0x00, 0x04, 0x00, 0x00])
  {
    assert Decimal(4) == "4";
    assert Decimal(1024) == "1024";
    assert "{0.int.little_" + Decimal(4) + "}" == "{0.int.little_4}";
    CustomizeIntLittle(1024, 4, entropy);
    assert LittleEndian(1024, 4) == [0x00, 0x04, 0x00, 0x00];
  }

  /** The help text's `:{0}{1.size_800}` with `4d` and `hello`: the byte `4d`, then `hello` in 800 bytes. */
  lemma HelpHeadAndSize(entropy: Entropy)
    ensures Packet.FormatData("hello", Some(800)).Ok?
    ensures Customize("{0}{1.size_800}", ["4d", "hello"], entropy) ==
              Ok([0x4d] + Packet.FormatData("hello", Some(800)).value)
  {
    assert Decimal(800) == "800";
    assert "{0}{1.size_" + Decimal(800) + "}" == "{0}{1.size_800}";
    assert Hex([0x4d]) == "4d";
    assert |Utf16Le("hello")| == 10;
    CustomizeHeadAndSize([0x4d], "hello", 800, entropy);
  }

  /** `0[key]` is a field name for any key without `]`, whatever braces, colons or bangs the key holds. */
  lemma BracketField(key: string)
    requires ']' !in key
    ensures FieldName("0[" + key + "]")
  {
    var field := "0[" + key + "]";
    var s := field + "}";
    assert s[0] == '0' && s[1] == '[' && s[|key| + 2] == ']' && s[|key| + 3] == '}';
    assert s[2..|key| + 2] == key;
    KeySkip(s, 2, |key| + 2);
  }

  /**
   * `{0[key]}` asks the first argument for the item `key`; a `HexStr` has no
   * items, so this is always an index error, even where the key holds `{`,
   * `}`, `:` or `!`, which a bracket keeps inside the field name.
   */
  lemma ExpandBracketKey(s: string, key: string, rest: string, entropy: Entropy)
    requires key != [] && ']' !in key
    ensures Expand("{0[" + key + "]}" + rest, [s], entropy, 0, Unset) == Err(BadIndex(key))
  {
    var field := "0[" + key + "]";
    assert "{" + field + "}" + rest == "{0[" + key + "]}" + rest;
    BracketField(key);
    ExpandField(field, rest, [s], entropy, 0, Unset);
    ReplaceBracketKey(s, key, entropy);
  }

  lemma ReplaceBracketKey(s: string, key: string, entropy: Entropy)
    requires key != [] && ']' !in key
    ensures Replace("0[" + key + "]", [s], entropy, 0, Unset) == Err(BadIndex(key))
  {
    var accessors := "[" + key + "]";
    assert "0[" + key + "]" == Decimal(0) + accessors;
    ArgumentField(Decimal(0), accessors);
    DecimalValue(0);
    AccessBracketKey(s, key, entropy);
  }

  lemma AccessBracketKey(s: string, key: string, entropy: Entropy)
    requires key != [] && ']' !in key
    ensures Access(HexStr(s), "[" + key + "]", entropy, 0) == Err(BadIndex(key))
  {
    var accessors := "[" + key + "]";
    assert accessors[0] == '[' && accessors[|key| + 1] == ']';
    assert accessors[1..|key| + 1] == key;
    assert Find(accessors, 1, "]") == |key| + 1;
  }

  /** A `{` outside brackets in a field name is malformed, whatever follows. */
  lemma BraceInFieldName(rest: string, args: seq<string>, entropy: Entropy)
    ensures Expand("{0{" + rest, args, entropy, 0, Unset) == Err(Malformed)
  {
    var fmt := "{0{" + rest;
    assert fmt[0] == '{' && fmt[1] == '0' && fmt[2] == '{';
    assert FieldNameEnd(fmt, 2, false) == 2;
    assert FieldNameEnd(fmt, 1, false) == 2;
  }

  /** A bracket that is never closed lets the field name run to the end, which is malformed. */
  lemma UnclosedKey(rest: string, args: seq<string>, entropy: Entropy)
    requires ']' !in rest
    ensures Expand("{0[" + rest, args, entropy, 0, Unset) == Err(Malformed)
  {
    var fmt := "{0[" + rest;
    assert fmt[0] == '{' && fmt[1] == '0' && fmt[2] == '[' && fmt[3..] == rest;
    KeySkip(fmt, 3, |fmt|);
    assert FieldNameEnd(fmt, 2, false) == FieldNameEnd(fmt, 3, true) == |fmt|;
    assert FieldNameEnd(fmt, 1, false) == |fmt|;
  }
}
