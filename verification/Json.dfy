/** The CPython-compatible JSON printer of lib/json.js, and a decoder written from RFC 8259.

    Values are read back up to the order of keys, which `Same` takes out at every depth.  Keys
    print in the order of their UTF-16 units, which is compared with CPython's.
 */
module Json {
  import opened JsText
  import opened Permutations

  /** The integers a JavaScript number holds exactly; `String` writes them as plain digits. */
  type SafeInteger = n: int | -0x1f_ffff_ffff_ffff <= n <= 0x1f_ffff_ffff_ffff

  datatype Entry<+V> = Entry(key: Text, value: V)

  datatype Json =
    | Undefined
    | Null
    | Bool(b: bool)
    | Number(n: SafeInteger)
    | String(s: Text)
    | Array(items: seq<Json>)
    | Object(entries: seq<Entry<Json>>)

  const TAB: Unit := 0x09
  const NEWLINE: Unit := 0x0a
  const RETURN: Unit := 0x0d
  const SPACE: Unit := 0x20
  const QUOTE: Unit := 0x22
  const COMMA: Unit := 0x2c
  const MINUS: Unit := 0x2d
  const COLON: Unit := 0x3a
  const BACKSLASH: Unit := 0x5c

  // Strings.

  function HexDigit(d: nat): Unit
    requires d < 16
  {
    if d < 10 then 0x30 + d else 0x57 + d
  }

  function Hex4(u: Unit): Text {
    [HexDigit(u / 0x1000), HexDigit(u / 0x100 % 16), HexDigit(u / 16 % 16), HexDigit(u % 16)]
  }

  /** One code unit in a string literal. */
  function EscapeUnit(u: Unit): Text {
    match u
    case 0x08 => [BACKSLASH, 0x62]
    case 0x09 => [BACKSLASH, 0x74]
    case 0x0a => [BACKSLASH, 0x6e]
    case 0x0c => [BACKSLASH, 0x66]
    case 0x0d => [BACKSLASH, 0x72]
    case 0x22 => [BACKSLASH, QUOTE]
    case 0x5c => [BACKSLASH, BACKSLASH]
    case _ => if u < 0x20 || u > 0x7e then [BACKSLASH, 0x75] + Hex4(u) else [u]
  }

  /** The lower-case hexadecimal digits. */
  predicate IsHexDigit(u: Unit) { 0x30 <= u <= 0x39 || 0x61 <= u <= 0x66 }

  /** CPython's choice of escapes: two characters for seven units, a hexadecimal one for the others outside printable
      ASCII, and none for the rest. */
  lemma EscapesExactly(u: Unit)
    ensures u in {0x08, 0x09, 0x0a, 0x0c, 0x0d, 0x22, 0x5c} ==> |EscapeUnit(u)| == 2 && EscapeUnit(u)[0] == BACKSLASH
    ensures u !in {0x08, 0x09, 0x0a, 0x0c, 0x0d, 0x22, 0x5c} && !(0x20 <= u <= 0x7e) ==>
              && |EscapeUnit(u)| == 6 && EscapeUnit(u)[..2] == [BACKSLASH, 0x75]
              && forall i :: 2 <= i < 6 ==> IsHexDigit(EscapeUnit(u)[i])
    ensures 0x20 <= u <= 0x7e && u !in {0x22, 0x5c} ==> EscapeUnit(u) == [u]
  {
  }

  function EscapeAll(s: Text): Text {
    if s == [] then [] else EscapeUnit(s[0]) + EscapeAll(s[1..])
  }

  function Quoted(s: Text): Text { [QUOTE] + EscapeAll(s) + [QUOTE] }

  /** `toString(16)`. */
  function ToHex(n: nat): Text {
    if n < 16 then [HexDigit(n)] else ToHex(n / 16) + [HexDigit(n % 16)]
  }

  function PadStart(s: Text, width: nat): Text
    decreases width - |s|
  {
    if |s| >= width then s else PadStart([0x30] + s, width)
  }

  lemma PaddedHex(u: Unit)
    ensures PadStart(ToHex(u), 4) == Hex4(u)
  {
    assert HexDigit(0) == 0x30;
    hide HexDigit, PadStart, ToHex;
    assert u / 16 / 16 == u / 0x100 && u / 0x100 / 16 == u / 0x1000;
    HexStep(u);
    HexStep(u / 16);
    HexStep(u / 0x100);
    HexStep(u / 0x1000);
    if u < 0x10 {
      PadShort(ToHex(u));
    } else if u < 0x100 {
      assert u / 16 % 16 == u / 16;
      PadShort(ToHex(u));
    } else if u < 0x1000 {
      assert u / 0x100 % 16 == u / 0x100;
      PadShort(ToHex(u));
    } else {
      PadNone(ToHex(u));
    }
  }

  lemma HexStep(n: nat)
    ensures ToHex(n) == if n < 16 then [HexDigit(n)] else ToHex(n / 16) + [HexDigit(n % 16)]
  {
  }

  lemma PadNone(s: Text)
    requires |s| == 4
    ensures PadStart(s, 4) == s
  {
  }

  lemma PadShort(s: Text)
    requires 1 <= |s| <= 3
    ensures PadStart(s, 4) == (if |s| == 1 then [0x30, 0x30, 0x30] else if |s| == 2 then [0x30, 0x30] else [0x30]) + s
  {
    var one := [0x30] + s;
    var two := [0x30] + one;
    assert PadStart(s, 4) == PadStart(one, 4);
    if |s| < 3 {
      assert PadStart(one, 4) == PadStart(two, 4);
    }
    if |s| < 2 {
      assert PadStart(two, 4) == PadStart([0x30] + two, 4);
    }
  }

  predicate IsHigh(u: Unit) { 0xd800 <= u <= 0xdbff }

  predicate IsLow(u: Unit) { 0xdc00 <= u <= 0xdfff }

  /** `codePointAt(i)`: a surrogate pair reads as one code point, a lone surrogate as itself. */
  function CodePointAt(s: Text, i: nat): (code: nat)
    requires i < |s|
    ensures code < 0x11_0000
    ensures code > 0xffff <==> i + 1 < |s| && IsHigh(s[i]) && IsLow(s[i + 1])
    ensures code <= 0xffff ==> code == s[i]
  {
    if i + 1 < |s| && IsHigh(s[i]) && IsLow(s[i + 1])
    then 0x10000 + (s[i] as int - 0xd800) * 0x400 + (s[i + 1] as int - 0xdc00)
    else s[i]
  }

  lemma {:induction false} EscapeSplits(a: Text, b: Text)
    ensures EscapeAll(a + b) == EscapeAll(a) + EscapeAll(b)
  {
    if a == [] {
      assert a + b == b;
    } else {
      assert (a + b)[1..] == a[1..] + b;
      EscapeSplits(a[1..], b);
    }
  }

  /** Escaping by code point is escaping every UTF-16 unit by itself, lone surrogates included. */
  lemma CodePointEscapes(s: Text, i: nat)
    requires i < |s|
    ensures var next := i + if CodePointAt(s, i) > 0xffff then 2 else 1;
            next <= |s| && EscapeAll(s[..next]) == EscapeAll(s[..i]) + EscapeCodePoint(CodePointAt(s, i))
  {
    hide EscapeUnit;
    var next := i + if CodePointAt(s, i) > 0xffff then 2 else 1;
    assert s[..next] == s[..i] + s[i..next];
    EscapeSplits(s[..i], s[i..next]);
    if next == i + 2 {
      assert s[i..next][1..] == [s[i + 1]] && s[i..next][1..][1..] == [];
      assert EscapeAll([s[i + 1]]) == EscapeUnit(s[i + 1]);
      PairValue(s[i], s[i + 1]);
    } else {
      assert s[i..next][1..] == [];
    }
  }

  lemma PairValue(high: Unit, low: Unit)
    requires IsHigh(high) && IsLow(low)
    ensures var offset := (high as int - 0xd800) * 0x400 + (low as int - 0xdc00);
            0xd800 + offset / 0x400 == high && 0xdc00 + offset % 0x400 == low
  {
  }

  function EscapeCodePoint(code: nat): Text
    requires code < 0x11_0000
  {
    if code > 0xffff then
      EscapeUnit(0xd800 + (code - 0x10000) / 0x400) + EscapeUnit(0xdc00 + (code - 0x10000) % 0x400)
    else EscapeUnit(code)
  }

  /** The loop goes by code point; it writes what escaping unit by unit writes. */
  method EncodeString(value: Text) returns (out: Text)
    ensures out == Quoted(value)
  {
    hide EscapeAll, EscapeCodePoint, EscapeUnit;
    out := [QUOTE];
    var i := 0;
    NothingEscaped();
    while i < |value|
      invariant i <= |value| && out == [QUOTE] + EscapeAll(value[..i])
    {
      var code := CodePointAt(value, i);
      CodePointEscapes(value, i);
      var piece := EncodeCodePoint(code);
      out := out + piece;
      i := i + if code > 0xffff then 2 else 1;
    }
    assert value[..i] == value;
    out := out + [QUOTE];
  }

  lemma NothingEscaped()
    ensures EscapeAll([]) == []
  {
  }

  /** The body of the loop: the two halves of an astral code point get an escape each. */
  method EncodeCodePoint(code: nat) returns (piece: Text)
    requires code < 0x11_0000
    ensures piece == EscapeCodePoint(code)
  {
    match code {
      case 0x08 => return [BACKSLASH, 0x62];
      case 0x09 => return [BACKSLASH, 0x74];
      case 0x0a => return [BACKSLASH, 0x6e];
      case 0x0c => return [BACKSLASH, 0x66];
      case 0x0d => return [BACKSLASH, 0x72];
      case 0x22 => return [BACKSLASH, QUOTE];
      case 0x5c => return [BACKSLASH, BACKSLASH];
      case _ =>
    }
    if code < 0x20 || code > 0x7e {
      if code > 0xffff {
        var offset := code - 0x10000;
        var high: Unit, low: Unit := 0xd800 + offset / 0x400, 0xdc00 + offset % 0x400;
        PaddedHex(high);
        PaddedHex(low);
        piece := [BACKSLASH, 0x75] + PadStart(ToHex(high), 4) + ([BACKSLASH, 0x75] + PadStart(ToHex(low), 4));
      } else {
        PaddedHex(code);
        piece := [BACKSLASH, 0x75] + PadStart(ToHex(code), 4);
      }
    } else {
      piece := [code];
    }
  }

  // Numbers.

  function Digits(n: nat): Text {
    if n < 10 then [0x30 + n] else Digits(n / 10) + [0x30 + n % 10]
  }

  function NumberText(n: SafeInteger): Text {
    if n < 0 then [MINUS] + Digits(-n) else Digits(n)
  }

  /** No number starts with a zero but zero itself. */
  lemma {:induction false} NoLeadingZero(n: nat)
    ensures Digits(n) != [] && (Digits(n)[0] == 0x30 <==> n == 0)
  {
    if n >= 10 {
      NoLeadingZero(n / 10);
    }
  }

  // Objects print in the order of their keys.

  function Insert<V>(sorted: seq<Entry<V>>, e: Entry<V>): seq<Entry<V>> {
    if sorted == [] || !Less(sorted[0].key, e.key) then [e] + sorted
    else [sorted[0]] + Insert(sorted[1..], e)
  }

  function Sort<V>(entries: seq<Entry<V>>): seq<Entry<V>> {
    if entries == [] then [] else Insert(Sort(entries[1..]), entries[0])
  }

  // The printer.

  function Spaces(n: nat): Text { if n == 0 then [] else [SPACE] + Spaces(n - 1) }

  function Join(parts: seq<Text>, separator: Text): Text {
    if parts == [] then []
    else if |parts| == 1 then parts[0]
    else parts[0] + separator + Join(parts[1..], separator)
  }

  function Prefixed(prefix: Text, parts: seq<Text>): seq<Text> {
    if parts == [] then [] else [prefix + parts[0]] + Prefixed(prefix, parts[1..])
  }

  /** The text between two brackets, on one line or on one line per part. */
  function Bracketed(open: Unit, parts: seq<Text>, close: Unit, indent: nat, level: nat): Text
    requires parts != []
  {
    if indent == 0 then [open] + Join(parts, [COMMA]) + [close]
    else [open, NEWLINE] + Join(Prefixed(Spaces(indent * (level + 1)), parts), [COMMA, NEWLINE])
         + [NEWLINE] + Spaces(indent * level) + [close]
  }

  function Pair(indent: nat, e: Entry<Text>): Text {
    Quoted(e.key) + (if indent == 0 then [COLON] else [COLON, SPACE]) + e.value
  }

  function Pairs(indent: nat, entries: seq<Entry<Text>>): seq<Text> {
    if entries == [] then [] else [Pair(indent, entries[0])] + Pairs(indent, entries[1..])
  }

  function Deeper(indent: nat, level: nat): nat { if indent == 0 then level else level + 1 }

  /** `pyJsonDumps`.  Sorting looks at keys only, so members are rendered before they are sorted. */
  function Dumps(v: Json, indent: nat, level: nat): Text
    decreases v
  {
    match v
    case Undefined => [0x6e, 0x75, 0x6c, 0x6c]
    case Null => [0x6e, 0x75, 0x6c, 0x6c]
    case Bool(b) => if b then [0x74, 0x72, 0x75, 0x65] else [0x66, 0x61, 0x6c, 0x73, 0x65]
    case Number(n) => NumberText(n)
    case String(s) => Quoted(s)
    case Array(items) =>
      if items == [] then [0x5b, 0x5d]
      else Bracketed(0x5b, DumpItems(items, indent, Deeper(indent, level)), 0x5d, indent, level)
    case Object(entries) =>
      var members := Sort(DumpMembers(entries, indent, Deeper(indent, level)));
      if members == [] then [0x7b, 0x7d]
      else Bracketed(0x7b, Pairs(indent, members), 0x7d, indent, level)
  }

  function DumpItems(items: seq<Json>, indent: nat, level: nat): (texts: seq<Text>)
    ensures |texts| == |items|
    decreases items
  {
    if items == [] then [] else [Dumps(items[0], indent, level)] + DumpItems(items[1..], indent, level)
  }

  /** Members that are undefined are dropped. */
  function DumpMembers(entries: seq<Entry<Json>>, indent: nat, level: nat): seq<Entry<Text>>
    decreases entries
  {
    if entries == [] then []
    else if entries[0].value.Undefined? then DumpMembers(entries[1..], indent, level)
    else [Entry(entries[0].key, Dumps(entries[0].value, indent, level))] + DumpMembers(entries[1..], indent, level)
  }

  /** What the printed text means: undefined members are gone, keys are in order. */
  function Normal(v: Json): Json
    decreases v
  {
    match v
    case Undefined => Null
    case Array(items) => Array(NormalItems(items))
    case Object(entries) => Object(Sort(NormalMembers(entries)))
    case _ => v
  }

  function NormalItems(items: seq<Json>): (r: seq<Json>)
    ensures |r| == |items|
    decreases items
  {
    if items == [] then [] else [Normal(items[0])] + NormalItems(items[1..])
  }

  function NormalMembers(entries: seq<Entry<Json>>): seq<Entry<Json>>
    decreases entries
  {
    if entries == [] then []
    else if entries[0].value.Undefined? then NormalMembers(entries[1..])
    else [Entry(entries[0].key, Normal(entries[0].value))] + NormalMembers(entries[1..])
  }

  // The decoder.

  datatype Parsed<+T> = Fail | Ok(value: T, rest: Text) {
    predicate IsFailure() { Fail? }
    function PropagateFailure<U>(): Parsed<U> requires Fail? { Fail }
    function Extract(): (T, Text) requires Ok? { (value, rest) }
  }

  predicate IsSpace(u: Unit) { u == SPACE || u == TAB || u == NEWLINE || u == RETURN }

  function SkipSpace(s: Text): (r: Text)
    ensures |r| <= |s|
  {
    if s != [] && IsSpace(s[0]) then SkipSpace(s[1..]) else s
  }

  function HexValue(u: Unit): (d: int)
    ensures -1 <= d < 16
  {
    if 0x30 <= u <= 0x39 then u - 0x30
    else if 0x61 <= u <= 0x66 then u - 0x57
    else if 0x41 <= u <= 0x46 then u - 0x37
    else -1
  }

  /** RFC 8259, section 7: the character after a backslash, and how much it uses up. */
  function Unescape(s: Text): (p: Parsed<Unit>)
    ensures p.Ok? ==> |p.rest| < |s|
  {
    if s == [] then Fail
    else match s[0]
      case 0x22 => Ok(QUOTE, s[1..])
      case 0x5c => Ok(BACKSLASH, s[1..])
      case 0x2f => Ok(0x2f, s[1..])
      case 0x62 => Ok(0x08, s[1..])
      case 0x66 => Ok(0x0c, s[1..])
      case 0x6e => Ok(NEWLINE, s[1..])
      case 0x72 => Ok(RETURN, s[1..])
      case 0x74 => Ok(TAB, s[1..])
      case 0x75 =>
        if |s| < 5 || HexValue(s[1]) < 0 || HexValue(s[2]) < 0 || HexValue(s[3]) < 0 || HexValue(s[4]) < 0 then Fail
        else Ok(HexValue(s[1]) * 0x1000 + HexValue(s[2]) * 0x100 + HexValue(s[3]) * 16 + HexValue(s[4]), s[5..])
      case _ => Fail
  }

  /** The characters up to the closing quotation mark; control characters must be escaped. */
  function ParseString(s: Text): (p: Parsed<Text>)
    ensures p.Ok? ==> |p.rest| < |s|
    decreases |s|
  {
    if s == [] || s[0] < 0x20 then Fail
    else if s[0] == QUOTE then Ok([], s[1..])
    else
      var (unit, rest) :- if s[0] == BACKSLASH then Unescape(s[1..]) else Ok(s[0], s[1..]);
      var (units, rest') :- ParseString(rest);
      Ok([unit] + units, rest')
  }

  predicate IsDigit(u: Unit) { 0x30 <= u <= 0x39 }

  function LeadingDigits(s: Text): (r: Text)
    ensures |r| <= |s| && forall u <- r :: IsDigit(u)
  {
    if s != [] && IsDigit(s[0]) then [s[0]] + LeadingDigits(s[1..]) else []
  }

  function DigitsValue(digits: Text): int {
    if digits == [] then 0
    else DigitsValue(digits[..|digits| - 1]) * 10 + (digits[|digits| - 1] as int - 0x30)
  }

  /** Integers only: the printer never writes a fraction or an exponent. */
  function ParseNumber(s: Text): (p: Parsed<Json>)
    ensures p.Ok? ==> |p.rest| < |s|
  {
    var negative := s != [] && s[0] == MINUS;
    var t := if negative then s[1..] else s;
    var digits := LeadingDigits(t);
    if digits == [] || (|digits| > 1 && digits[0] == 0x30) then Fail
    else
      var n := if negative then -DigitsValue(digits) else DigitsValue(digits);
      if -0x1f_ffff_ffff_ffff <= n <= 0x1f_ffff_ffff_ffff then Ok(Number(n), t[|digits|..]) else Fail
  }

  function ParseValue(s: Text): (p: Parsed<Json>)
    ensures p.Ok? ==> |p.rest| < |s|
    decreases |s|, 1
  {
    var t := SkipSpace(s);
    if t == [] then Fail
    else match t[0]
      case 0x6e => ParseLiteral([0x6e, 0x75, 0x6c, 0x6c], Null, t)
      case 0x74 => ParseLiteral([0x74, 0x72, 0x75, 0x65], Bool(true), t)
      case 0x66 => ParseLiteral([0x66, 0x61, 0x6c, 0x73, 0x65], Bool(false), t)
      case 0x22 =>
        var (units, rest) :- ParseString(t[1..]);
        Ok(String(units), rest)
      case 0x5b =>
        var (items, rest) :- ParseArray(t[1..]);
        Ok(Array(items), rest)
      case 0x7b =>
        var (entries, rest) :- ParseObject(t[1..]);
        Ok(Object(entries), rest)
      case _ => ParseNumber(t)
  }

  function ParseLiteral(word: Text, v: Json, t: Text): (p: Parsed<Json>)
    requires word != []
    ensures p.Ok? ==> |p.rest| < |t|
  {
    if word <= t then Ok(v, t[|word|..]) else Fail
  }

  function ParseArray(s: Text): (p: Parsed<seq<Json>>)
    ensures p.Ok? ==> |p.rest| < |s|
    decreases |s|, 3
  {
    var t := SkipSpace(s);
    if t != [] && t[0] == 0x5d then Ok([], t[1..]) else ParseItems(s)
  }

  function ParseObject(s: Text): (p: Parsed<seq<Entry<Json>>>)
    ensures p.Ok? ==> |p.rest| < |s|
    decreases |s|, 3
  {
    var t := SkipSpace(s);
    if t != [] && t[0] == 0x7d then Ok([], t[1..]) else ParseMembers(s)
  }

  /** One value or more, up to the closing bracket. */
  function ParseItems(s: Text): (p: Parsed<seq<Json>>)
    ensures p.Ok? ==> |p.rest| < |s|
    decreases |s|, 2
  {
    var (item, rest) :- ParseValue(s);
    var t := SkipSpace(rest);
    if t == [] then Fail
    else if t[0] == 0x5d then Ok([item], t[1..])
    else if t[0] == COMMA then
      var (items, rest') :- ParseItems(t[1..]);
      Ok([item] + items, rest')
    else Fail
  }

  /** One member or more, up to the closing brace. */
  function ParseMembers(s: Text): (p: Parsed<seq<Entry<Json>>>)
    ensures p.Ok? ==> |p.rest| < |s|
    decreases |s|, 2
  {
    var (member, rest) :- ParseMember(s);
    var t := SkipSpace(rest);
    if t == [] then Fail
    else if t[0] == 0x7d then Ok([member], t[1..])
    else if t[0] == COMMA then
      var (members, rest') :- ParseMembers(t[1..]);
      Ok([member] + members, rest')
    else Fail
  }

  function ParseMember(s: Text): (p: Parsed<Entry<Json>>)
    ensures p.Ok? ==> |p.rest| < |s|
    decreases |s|, 1
  {
    var t := SkipSpace(s);
    if t == [] || t[0] != QUOTE then Fail
    else
      var (key, rest) :- ParseString(t[1..]);
      var u := SkipSpace(rest);
      if u == [] || u[0] != COLON then Fail
      else
        var (value, rest') :- ParseValue(u[1..]);
        Ok(Entry(key, value), rest')
  }

  /** A whole document. */
  function Parse(s: Text): Parsed<Json> {
    var (v, rest) :- ParseValue(s);
    if SkipSpace(rest) == [] then Ok(v, []) else Fail
  }

  // Every piece of printed text, read back in front of anything that may follow it.

  /** What may follow a value: anything but another digit. */
  ghost predicate Follows(rest: Text) { rest == [] || !IsDigit(rest[0]) }

  ghost predicate Denotes(text: Text, v: Json) {
    forall rest :: Follows(rest) ==> ParseValue(text + rest) == Ok(v, rest)
  }

  lemma UnescapeEscape(u: Unit, rest: Text)
    ensures var e := EscapeUnit(u);
            if |e| == 1 then e == [u] && 0x20 <= u && u != QUOTE && u != BACKSLASH
            else e[0] == BACKSLASH && Unescape((e + rest)[1..]) == Ok(u, rest)
  {
    var e := EscapeUnit(u);
    if |e| == 2 {
      assert (e + rest)[1..] == [e[1]] + rest;
      assert ([e[1]] + rest)[1..] == rest;
    } else if |e| == 6 {
      var t := (e + rest)[1..];
      HexValues(u);
      assert t[5..] == rest;
      assert [t[1], t[2], t[3], t[4]] == Hex4(u);
    }
  }

  lemma HexValues(u: Unit)
    ensures forall i :: 0 <= i < 4 ==> HexValue(Hex4(u)[i]) >= 0
    ensures HexValue(Hex4(u)[0]) * 0x1000 + HexValue(Hex4(u)[1]) * 0x100 + HexValue(Hex4(u)[2]) * 16
            + HexValue(Hex4(u)[3]) == u
  {
    HexDigitValue(u / 0x1000);
    HexDigitValue(u / 0x100 % 16);
    HexDigitValue(u / 16 % 16);
    HexDigitValue(u % 16);
    hide HexDigit, HexValue;
    assert u / 0x100 == u / 0x1000 * 16 + u / 0x100 % 16;
    assert u / 16 == u / 0x100 * 16 + u / 16 % 16;
  }

  lemma HexDigitValue(d: nat)
    requires d < 16
    ensures HexValue(HexDigit(d)) == d
  {
  }

  /** Strings come back exactly: RFC 8259, section 7, undoes the escapes. */
  lemma {:induction false} StringsReadBack(s: Text, rest: Text)
    ensures ParseString(EscapeAll(s) + ([QUOTE] + rest)) == Ok(s, rest)
  {
    hide *;
    if s == [] {
      EmptyStringReadsBack(rest);
    } else {
      StringsReadBack(s[1..], rest);
      var more := EscapeAll(s[1..]) + ([QUOTE] + rest);
      ParseOneUnit(s[0], more, s[1..], rest);
      EscapeStep(s, [QUOTE] + rest);
      assert [s[0]] + s[1..] == s;
    }
  }

  lemma EmptyStringReadsBack(rest: Text)
    ensures ParseString(EscapeAll([]) + ([QUOTE] + rest)) == Ok([], rest)
  {
    assert EscapeAll([]) + ([QUOTE] + rest) == [QUOTE] + rest;
    assert ([QUOTE] + rest)[1..] == rest;
  }

  lemma EscapeStep(s: Text, tail: Text)
    requires s != []
    ensures EscapeAll(s) + tail == EscapeUnit(s[0]) + (EscapeAll(s[1..]) + tail)
  {
    hide EscapeUnit;
  }

  lemma ParseOneUnit(u: Unit, more: Text, units: Text, rest: Text)
    requires ParseString(more) == Ok(units, rest)
    ensures ParseString(EscapeUnit(u) + more) == Ok([u] + units, rest)
  {
    UnescapeEscape(u, more);
    var all := EscapeUnit(u) + more;
    hide EscapeUnit, Unescape;
    if |EscapeUnit(u)| == 1 {
      assert all[1..] == more;
    }
  }

  lemma {:induction false} DigitsAreDigits(n: nat)
    ensures Digits(n) != [] && forall u <- Digits(n) :: IsDigit(u)
    ensures DigitsValue(Digits(n)) == n
    ensures n > 0 ==> Digits(n)[0] != 0x30
    ensures n < 10 ==> |Digits(n)| == 1
  {
    if n >= 10 {
      DigitsAreDigits(n / 10);
      var front := Digits(n / 10);
      assert Digits(n)[..|front|] == front;
    }
  }

  lemma {:induction false} LeadingDigitsOf(digits: Text, rest: Text)
    requires (forall u <- digits :: IsDigit(u)) && Follows(rest)
    ensures LeadingDigits(digits + rest) == digits
  {
    if digits == [] {
      assert digits + rest == rest;
    } else {
      assert (digits + rest)[1..] == digits[1..] + rest;
      LeadingDigitsOf(digits[1..], rest);
    }
  }

  lemma NumberReadsBack(n: SafeInteger, rest: Text)
    requires Follows(rest)
    ensures ParseNumber(NumberText(n) + rest) == Ok(Number(n), rest)
    ensures var u := (NumberText(n) + rest)[0]; u == MINUS || IsDigit(u)
  {
    hide Digits, DigitsValue, LeadingDigits, Follows;
    if n < 0 {
      DigitsReadBack(-n, rest);
      var digits := Digits(-n);
      assert NumberText(n) + rest == [MINUS] + (digits + rest);
      assert ([MINUS] + (digits + rest))[1..] == digits + rest;
    } else {
      DigitsReadBack(n, rest);
    }
  }

  lemma DigitsReadBack(n: nat, rest: Text)
    requires Follows(rest)
    ensures var digits := Digits(n);
            && digits != [] && LeadingDigits(digits + rest) == digits && DigitsValue(digits) == n
            && (|digits| > 1 ==> digits[0] != 0x30) && (digits + rest)[|digits|..] == rest
            && IsDigit(digits[0])
  {
    DigitsAreDigits(n);
    LeadingDigitsOf(Digits(n), rest);
  }

  /** The first character decides how a value is read. */
  lemma ValueAt(t: Text)
    requires t != [] && !IsSpace(t[0])
    ensures SkipSpace(t) == t
    ensures t[0] == MINUS || IsDigit(t[0]) ==> ParseValue(t) == ParseNumber(t)
    ensures t[0] == QUOTE && ParseString(t[1..]).Ok? ==>
              var p := ParseString(t[1..]); ParseValue(t) == Ok(String(p.value), p.rest)
    ensures t[0] == 0x5b && ParseArray(t[1..]).Ok? ==>
              var p := ParseArray(t[1..]); ParseValue(t) == Ok(Array(p.value), p.rest)
    ensures t[0] == 0x7b && ParseObject(t[1..]).Ok? ==>
              var p := ParseObject(t[1..]); ParseValue(t) == Ok(Object(p.value), p.rest)
  {
    hide ParseNumber, ParseString, ParseArray, ParseObject;
  }

  lemma NumbersDenote(n: SafeInteger)
    ensures Denotes(NumberText(n), Number(n))
  {
    hide NumberText, ParseNumber, ParseValue;
    forall rest | Follows(rest) ensures ParseValue(NumberText(n) + rest) == Ok(Number(n), rest) {
      NumberReadsBack(n, rest);
      ValueAt(NumberText(n) + rest);
    }
  }

  lemma StringsDenote(s: Text)
    ensures Denotes(Quoted(s), String(s))
  {
    hide EscapeAll, ParseString, ParseValue;
    forall rest | Follows(rest) ensures ParseValue(Quoted(s) + rest) == Ok(String(s), rest) {
      QuotedSplits(s, rest);
      StringsReadBack(s, rest);
      ValueAt(Quoted(s) + rest);
    }
  }

  lemma QuotedSplits(s: Text, rest: Text)
    ensures (Quoted(s) + rest)[0] == QUOTE && (Quoted(s) + rest)[1..] == EscapeAll(s) + ([QUOTE] + rest)
  {
    hide EscapeAll;
  }

  lemma LiteralDenotes(word: Text, v: Json)
    requires word != [] && !IsSpace(word[0])
    requires forall t {:trigger ParseLiteral(word, v, t)} ::
               word <= t && SkipSpace(t) == t ==> ParseValue(t) == ParseLiteral(word, v, t)
    ensures Denotes(word, v)
  {
    hide ParseValue;
    forall rest | Follows(rest) ensures ParseValue(word + rest) == Ok(v, rest) {
      assert (word + rest)[|word|..] == rest;
      assert SkipSpace(word + rest) == word + rest;
      assert ParseLiteral(word, v, word + rest) == Ok(v, rest);
    }
  }

  lemma LiteralsDenote()
    ensures Denotes([0x6e, 0x75, 0x6c, 0x6c], Null)
    ensures Denotes([0x74, 0x72, 0x75, 0x65], Bool(true)) && Denotes([0x66, 0x61, 0x6c, 0x73, 0x65], Bool(false))
  {
    hide Denotes, ParseLiteral;
    LiteralDenotes([0x6e, 0x75, 0x6c, 0x6c], Null);
    LiteralDenotes([0x74, 0x72, 0x75, 0x65], Bool(true));
    LiteralDenotes([0x66, 0x61, 0x6c, 0x73, 0x65], Bool(false));
  }

  lemma EmptyDenotes()
    ensures Denotes([0x5b, 0x5d], Array([])) && Denotes([0x7b, 0x7d], Object([]))
  {
    hide ParseValue, ParseItems, ParseMembers;
    forall rest | Follows(rest)
      ensures ParseValue([0x5b, 0x5d] + rest) == Ok(Array([]), rest)
      ensures ParseValue([0x7b, 0x7d] + rest) == Ok(Object([]), rest)
    {
      assert ([0x5b, 0x5d] + rest)[1..] == [0x5d] + rest && ([0x5d] + rest)[1..] == rest;
      assert ([0x7b, 0x7d] + rest)[1..] == [0x7d] + rest && ([0x7d] + rest)[1..] == rest;
      ValueAt([0x5b, 0x5d] + rest);
      ValueAt([0x7b, 0x7d] + rest);
    }
  }

  ghost predicate AllSpace(s: Text) { forall i :: 0 <= i < |s| ==> IsSpace(s[i]) }

  lemma {:induction false} SkipAllSpace(space: Text, s: Text)
    requires AllSpace(space)
    ensures SkipSpace(space + s) == SkipSpace(s)
  {
    if space == [] {
      assert space + s == s;
    } else {
      assert (space + s)[1..] == space[1..] + s;
      SkipAllSpace(space[1..], s);
    }
  }

  // Arrays and objects.

  /** The white space before an item or a closing bracket. */
  function Break(indent: nat, level: nat): Text {
    if indent == 0 then [] else [NEWLINE] + Spaces(indent * level)
  }

  /** What follows the opening bracket, item by item. */
  function Body(parts: seq<Text>, close: Unit, indent: nat, level: nat): Text
    requires parts != []
  {
    Break(indent, level + 1) + parts[0]
    + if |parts| == 1 then Break(indent, level) + [close] else [COMMA] + Body(parts[1..], close, indent, level)
  }

  lemma BracketedIsBody(open: Unit, parts: seq<Text>, close: Unit, indent: nat, level: nat)
    requires parts != []
    ensures Bracketed(open, parts, close, indent, level) == [open] + Body(parts, close, indent, level)
  {
    hide Body, Join, Spaces, Prefixed;
    if indent == 0 {
      BodyOnOneLine(parts, close, level);
    } else {
      BodyOnLines(parts, close, indent, level);
      LinesOpen(open, Join(Prefixed(Spaces(indent * (level + 1)), parts), [COMMA, NEWLINE]),
                Spaces(indent * level), close);
    }
  }

  lemma LinesOpen(open: Unit, j: Text, pad: Text, close: Unit)
    ensures [open, NEWLINE] + j + [NEWLINE] + pad + [close] == [open] + ([NEWLINE] + j + ([NEWLINE] + pad + [close]))
  {
  }

  lemma {:induction false} BodyOnOneLine(parts: seq<Text>, close: Unit, level: nat)
    requires parts != []
    ensures Join(parts, [COMMA]) + [close] == Body(parts, close, 0, level)
  {
    if |parts| > 1 {
      BodyOnOneLine(parts[1..], close, level);
      var j, b := Join(parts[1..], [COMMA]), Body(parts[1..], close, 0, level);
      assert parts[0] + [COMMA] + j + [close] == parts[0] + ([COMMA] + (j + [close]));
    }
  }

  lemma {:induction false} BodyOnLines(parts: seq<Text>, close: Unit, indent: nat, level: nat)
    requires parts != [] && indent > 0
    ensures [NEWLINE] + Join(Prefixed(Spaces(indent * (level + 1)), parts), [COMMA, NEWLINE])
            + (Break(indent, level) + [close]) == Body(parts, close, indent, level)
  {
    hide *;
    var pad := Spaces(indent * (level + 1));
    PrefixedStep(pad, parts);
    JoinStep(Prefixed(pad, parts), [COMMA, NEWLINE]);
    BodyStep(parts, close, indent, level);
    BreakIs(indent, level + 1);
    if |parts| == 1 {
      assert [NEWLINE] + (pad + parts[0]) == [NEWLINE] + pad + parts[0];
    } else {
      BodyOnLines(parts[1..], close, indent, level);
      LinesRegroup(pad, parts[0], Join(Prefixed(pad, parts[1..]), [COMMA, NEWLINE]), Break(indent, level) + [close]);
    }
  }

  lemma PrefixedStep(prefix: Text, parts: seq<Text>)
    requires parts != []
    ensures var all := Prefixed(prefix, parts);
            && all != [] && all[0] == prefix + parts[0] && all[1..] == Prefixed(prefix, parts[1..])
            && (|all| == 1 <==> |parts| == 1)
  {
    if |parts| > 1 {
      assert Prefixed(prefix, parts[1..]) != [];
    }
  }

  lemma JoinStep(parts: seq<Text>, separator: Text)
    requires parts != []
    ensures Join(parts, separator)
         == if |parts| == 1 then parts[0] else parts[0] + separator + Join(parts[1..], separator)
  {
  }

  lemma BodyStep(parts: seq<Text>, close: Unit, indent: nat, level: nat)
    requires parts != []
    ensures Body(parts, close, indent, level)
         == Break(indent, level + 1) + parts[0]
            + if |parts| == 1 then Break(indent, level) + [close] else [COMMA] + Body(parts[1..], close, indent, level)
  {
  }

  lemma BreakIs(indent: nat, level: nat)
    ensures Break(indent, level) == if indent == 0 then [] else [NEWLINE] + Spaces(indent * level)
    ensures AllSpace(Break(indent, level))
  {
    SpacesAreSpace(indent * level);
    hide Spaces;
  }

  lemma {:induction false} SpacesAreSpace(n: nat)
    ensures AllSpace(Spaces(n))
  {
    if n > 0 {
      SpacesAreSpace(n - 1);
    }
  }

  lemma LinesRegroup(pad: Text, part: Text, j: Text, end: Text)
    ensures [NEWLINE] + (pad + part + [COMMA, NEWLINE] + j) + end
         == ([NEWLINE] + pad) + part + ([COMMA] + ([NEWLINE] + j + end))
  {
  }

  lemma {:induction false} ItemsReadBack(parts: seq<Text>, values: seq<Json>, indent: nat, level: nat, rest: Text)
    requires |parts| == |values| > 0 && forall i :: 0 <= i < |parts| ==> Denotes(parts[i], values[i])
    ensures ParseItems(Body(parts, 0x5d, indent, level) + rest) == Ok(values, rest)
  {
    hide *;
    BodyStep(parts, 0x5d, indent, level);
    BreakIs(indent, level + 1);
    BreakIs(indent, level);
    if |parts| == 1 {
      assert Denotes(parts[0], values[0]);
      LastItem(Break(indent, level + 1), parts[0], values[0], Break(indent, level), rest);
      assert values == [values[0]];
    } else {
      var more := Body(parts[1..], 0x5d, indent, level);
      ItemsReadBack(parts[1..], values[1..], indent, level, rest);
      assert Denotes(parts[0], values[0]);
      NextItem(Break(indent, level + 1), parts[0], values[0], more, values[1..], rest);
      assert values == [values[0]] + values[1..];
    }
  }

  lemma LastItem(before: Text, part: Text, value: Json, after: Text, rest: Text)
    requires AllSpace(before) && AllSpace(after) && Denotes(part, value)
    ensures ParseItems(before + part + (after + [0x5d]) + rest) == Ok([value], rest)
  {
    var tail := after + ([0x5d] + rest);
    assert before + part + (after + [0x5d]) + rest == before + (part + tail);
    ValueAfterSpace(before, part, value, tail);
    SkipAllSpace(after, [0x5d] + rest);
    assert SkipSpace([0x5d] + rest) == [0x5d] + rest && ([0x5d] + rest)[1..] == rest;
    hide ParseValue, SkipSpace;
  }

  lemma NextItem(before: Text, part: Text, value: Json, more: Text, values: seq<Json>, rest: Text)
    requires AllSpace(before) && Denotes(part, value) && ParseItems(more + rest) == Ok(values, rest)
    ensures ParseItems(before + part + ([COMMA] + more) + rest) == Ok([value] + values, rest)
  {
    hide AllSpace, Denotes, ParseValue, SkipSpace;
    var tail := [COMMA] + (more + rest);
    assert before + part + ([COMMA] + more) + rest == before + (part + tail);
    CommaAt(more + rest);
    ValueAfterSpace(before, part, value, tail);
  }

  lemma CommaAt(t: Text)
    ensures SkipSpace([COMMA] + t) == [COMMA] + t && ([COMMA] + t)[1..] == t && Follows([COMMA] + t)
  {
  }

  lemma ValueAfterSpace(space: Text, part: Text, value: Json, tail: Text)
    requires AllSpace(space) && Denotes(part, value) && Follows(tail)
    ensures ParseValue(space + (part + tail)) == Ok(value, tail)
  {
    SkipAllSpace(space, part + tail);
    assert ParseValue(part + tail) == Ok(value, tail);
  }

  ghost predicate MemberDenotes(text: Text, e: Entry<Json>) {
    forall rest :: Follows(rest) ==> ParseMember(text + rest) == Ok(e, rest)
  }

  lemma PairDenotes(indent: nat, e: Entry<Text>, v: Json)
    requires Denotes(e.value, v)
    ensures MemberDenotes(Pair(indent, e), Entry(e.key, v))
  {
    hide Denotes, EscapeAll, ParseString, ParseValue;
    forall rest | Follows(rest) ensures ParseMember(Pair(indent, e) + rest) == Ok(Entry(e.key, v), rest) {
      var space: Text := if indent == 0 then [] else [SPACE];
      var tail := [COLON] + (space + (e.value + rest));
      assert Pair(indent, e) + rest == Quoted(e.key) + tail;
      QuotedSplits(e.key, tail);
      StringsReadBack(e.key, tail);
      ValueAfterSpace(space, e.value, v, rest);
      MemberAt(Quoted(e.key) + tail, e.key, tail);
    }
  }

  lemma MemberAt(t: Text, key: Text, tail: Text)
    requires t != [] && t[0] == QUOTE && ParseString(t[1..]) == Ok(key, tail)
    requires tail != [] && tail[0] == COLON && ParseValue(tail[1..]).Ok?
    ensures var p := ParseValue(tail[1..]); ParseMember(t) == Ok(Entry(key, p.value), p.rest)
  {
    assert SkipSpace(t) == t && SkipSpace(tail) == tail;
    hide ParseString, ParseValue;
  }

  lemma {:induction false} MembersReadBack(parts: seq<Text>, members: seq<Entry<Json>>, indent: nat, level: nat,
                                           rest: Text)
    requires |parts| == |members| > 0 && forall i :: 0 <= i < |parts| ==> MemberDenotes(parts[i], members[i])
    ensures ParseMembers(Body(parts, 0x7d, indent, level) + rest) == Ok(members, rest)
  {
    hide *;
    BodyStep(parts, 0x7d, indent, level);
    BreakIs(indent, level + 1);
    BreakIs(indent, level);
    if |parts| == 1 {
      assert MemberDenotes(parts[0], members[0]);
      LastMember(Break(indent, level + 1), parts[0], members[0], Break(indent, level), rest);
      assert members == [members[0]];
    } else {
      var more := Body(parts[1..], 0x7d, indent, level);
      MembersReadBack(parts[1..], members[1..], indent, level, rest);
      assert MemberDenotes(parts[0], members[0]);
      NextMember(Break(indent, level + 1), parts[0], members[0], more, members[1..], rest);
      assert members == [members[0]] + members[1..];
    }
  }

  lemma LastMember(before: Text, part: Text, member: Entry<Json>, after: Text, rest: Text)
    requires AllSpace(before) && AllSpace(after) && MemberDenotes(part, member)
    ensures ParseMembers(before + part + (after + [0x7d]) + rest) == Ok([member], rest)
  {
    var tail := after + ([0x7d] + rest);
    assert before + part + (after + [0x7d]) + rest == before + (part + tail);
    MemberAfterSpace(before, part, member, tail);
    SkipAllSpace(after, [0x7d] + rest);
    assert SkipSpace([0x7d] + rest) == [0x7d] + rest && ([0x7d] + rest)[1..] == rest;
    hide ParseMember, SkipSpace;
  }

  lemma NextMember(before: Text, part: Text, member: Entry<Json>, more: Text, members: seq<Entry<Json>>, rest: Text)
    requires AllSpace(before) && MemberDenotes(part, member) && ParseMembers(more + rest) == Ok(members, rest)
    ensures ParseMembers(before + part + ([COMMA] + more) + rest) == Ok([member] + members, rest)
  {
    hide AllSpace, MemberDenotes, ParseMember, SkipSpace;
    var tail := [COMMA] + (more + rest);
    assert before + part + ([COMMA] + more) + rest == before + (part + tail);
    CommaAt(more + rest);
    MemberAfterSpace(before, part, member, tail);
  }

  lemma MemberAfterSpace(space: Text, part: Text, member: Entry<Json>, tail: Text)
    requires AllSpace(space) && MemberDenotes(part, member) && Follows(tail)
    ensures ParseMember(space + (part + tail)) == Ok(member, tail)
  {
    SkipAllSpace(space, part + tail);
    assert ParseMember(part + tail) == Ok(member, tail);
    hide ParseString, ParseValue;
  }

  /** A closing bracket can start neither an item nor a member. */
  lemma {:induction false} ItemIsNotClosing(s: Text)
    requires ParseItems(s).Ok? || ParseMembers(s).Ok?
    ensures SkipSpace(s) != [] && SkipSpace(s)[0] != 0x5d && SkipSpace(s)[0] != 0x7d
  {
    hide SkipSpace, ParseValue, ParseMember;
    if ParseItems(s).Ok? {
      ValueIsNotClosing(s);
    } else {
      MemberIsQuoted(s);
    }
  }

  lemma {:induction false} ValueIsNotClosing(s: Text)
    requires ParseValue(s).Ok?
    ensures SkipSpace(s) != [] && SkipSpace(s)[0] != 0x5d && SkipSpace(s)[0] != 0x7d
  {
    hide SkipSpace, ParseString, ParseArray, ParseObject, ParseLiteral;
  }

  lemma {:induction false} MemberIsQuoted(s: Text)
    requires ParseMember(s).Ok?
    ensures SkipSpace(s) != [] && SkipSpace(s)[0] == QUOTE
  {
    hide SkipSpace, ParseString, ParseValue;
  }

  lemma ArrayDenotes(parts: seq<Text>, values: seq<Json>, indent: nat, level: nat)
    requires |parts| == |values| > 0 && forall i :: 0 <= i < |parts| ==> Denotes(parts[i], values[i])
    ensures Denotes(Bracketed(0x5b, parts, 0x5d, indent, level), Array(values))
  {
    hide Bracketed, ParseValue, Body, Follows;
    forall rest | Follows(rest)
      ensures ParseValue(Bracketed(0x5b, parts, 0x5d, indent, level) + rest) == Ok(Array(values), rest)
    {
      ArrayReadsBack(parts, values, indent, level, rest);
    }
  }

  lemma ArrayReadsBack(parts: seq<Text>, values: seq<Json>, indent: nat, level: nat, rest: Text)
    requires |parts| == |values| > 0 && forall i :: 0 <= i < |parts| ==> Denotes(parts[i], values[i])
    ensures ParseValue(Bracketed(0x5b, parts, 0x5d, indent, level) + rest) == Ok(Array(values), rest)
  {
    hide *;
    BracketedIsBody(0x5b, parts, 0x5d, indent, level);
    var body := Body(parts, 0x5d, indent, level);
    ItemsReadBack(parts, values, indent, level, rest);
    ItemIsNotClosing(body + rest);
    OpenArray(body + rest, values, rest);
    assert [0x5b] + body + rest == [0x5b] + (body + rest);
  }

  lemma OpenArray(s: Text, values: seq<Json>, rest: Text)
    requires ParseItems(s) == Ok(values, rest) && SkipSpace(s) != [] && SkipSpace(s)[0] != 0x5d
    ensures ParseValue([0x5b] + s) == Ok(Array(values), rest)
  {
    hide ParseItems, SkipSpace, ParseValue;
    assert ([0x5b] + s)[1..] == s;
    ValueAt([0x5b] + s);
  }

  lemma ObjectDenotes(parts: seq<Text>, members: seq<Entry<Json>>, indent: nat, level: nat)
    requires |parts| == |members| > 0 && forall i :: 0 <= i < |parts| ==> MemberDenotes(parts[i], members[i])
    ensures Denotes(Bracketed(0x7b, parts, 0x7d, indent, level), Object(members))
  {
    hide Bracketed, ParseValue, Body, MemberDenotes;
    forall rest | Follows(rest)
      ensures ParseValue(Bracketed(0x7b, parts, 0x7d, indent, level) + rest) == Ok(Object(members), rest)
    {
      ObjectReadsBack(parts, members, indent, level, rest);
    }
  }

  lemma ObjectReadsBack(parts: seq<Text>, members: seq<Entry<Json>>, indent: nat, level: nat, rest: Text)
    requires |parts| == |members| > 0 && forall i :: 0 <= i < |parts| ==> MemberDenotes(parts[i], members[i])
    ensures ParseValue(Bracketed(0x7b, parts, 0x7d, indent, level) + rest) == Ok(Object(members), rest)
  {
    hide *;
    BracketedIsBody(0x7b, parts, 0x7d, indent, level);
    var body := Body(parts, 0x7d, indent, level);
    MembersReadBack(parts, members, indent, level, rest);
    ItemIsNotClosing(body + rest);
    OpenObject(body + rest, members, rest);
    assert [0x7b] + body + rest == [0x7b] + (body + rest);
  }

  lemma OpenObject(s: Text, members: seq<Entry<Json>>, rest: Text)
    requires ParseMembers(s) == Ok(members, rest) && SkipSpace(s) != [] && SkipSpace(s)[0] != 0x7d
    ensures ParseValue([0x7b] + s) == Ok(Object(members), rest)
  {
    hide ParseMembers, SkipSpace, ParseValue;
    assert ([0x7b] + s)[1..] == s;
    ValueAt([0x7b] + s);
  }

  // Sorting texts and sorting values is the same sorting.

  ghost predicate Related(texts: seq<Entry<Text>>, values: seq<Entry<Json>>) {
    |texts| == |values|
    && forall i :: 0 <= i < |texts| ==> texts[i].key == values[i].key && Denotes(texts[i].value, values[i].value)
  }

  lemma {:induction false} InsertRelated(texts: seq<Entry<Text>>, values: seq<Entry<Json>>,
                                         e: Entry<Text>, v: Entry<Json>)
    requires Related(texts, values) && e.key == v.key && Denotes(e.value, v.value)
    ensures Related(Insert(texts, e), Insert(values, v))
  {
    hide Denotes, Less;
    if texts != [] && Less(texts[0].key, e.key) {
      InsertRelated(texts[1..], values[1..], e, v);
    }
  }

  lemma {:induction false} SortRelated(texts: seq<Entry<Text>>, values: seq<Entry<Json>>)
    requires Related(texts, values)
    ensures Related(Sort(texts), Sort(values))
  {
    hide Denotes, Insert;
    if texts != [] {
      SortRelated(texts[1..], values[1..]);
      InsertRelated(Sort(texts[1..]), Sort(values[1..]), texts[0], values[0]);
    }
  }

  lemma {:induction false} PairsDenote(indent: nat, texts: seq<Entry<Text>>, values: seq<Entry<Json>>)
    requires Related(texts, values)
    ensures var pairs := Pairs(indent, texts);
            |pairs| == |values| && forall i :: 0 <= i < |pairs| ==> MemberDenotes(pairs[i], values[i])
  {
    hide Denotes, MemberDenotes, Pair;
    if texts != [] {
      PairsDenote(indent, texts[1..], values[1..]);
      PairDenotes(indent, texts[0], values[0].value);
      assert values[0] == Entry(texts[0].key, values[0].value);
    }
  }

  /** Every value reads back as its normal form, at every indentation, in front of whatever may follow. */
  lemma {:induction false} DumpsDenotes(v: Json, indent: nat, level: nat)
    ensures Denotes(Dumps(v, indent, level), Normal(v))
    decreases v
  {
    hide Denotes, Bracketed, Sort, Related, Pairs, NumberText, Quoted;
    match v {
      case Undefined => LiteralsDenote();
      case Null => LiteralsDenote();
      case Bool(_) => LiteralsDenote();
      case Number(n) => NumbersDenote(n);
      case String(s) => StringsDenote(s);
      case Array(items) =>
        EmptyDenotes();
        ItemsDenote(items, indent, Deeper(indent, level));
        if items != [] {
          ArrayDenotes(DumpItems(items, indent, Deeper(indent, level)), NormalItems(items), indent, level);
        }
      case Object(entries) =>
        EmptyDenotes();
        MembersRelate(entries, indent, Deeper(indent, level));
        SortRelated(DumpMembers(entries, indent, Deeper(indent, level)), NormalMembers(entries));
        SortedDenotes(Sort(DumpMembers(entries, indent, Deeper(indent, level))), Sort(NormalMembers(entries)),
                      indent, level);
    }
  }

  lemma SortedDenotes(texts: seq<Entry<Text>>, values: seq<Entry<Json>>, indent: nat, level: nat)
    requires Related(texts, values)
    ensures texts == [] <==> values == []
    ensures texts != [] ==> Pairs(indent, texts) != []
                            && Denotes(Bracketed(0x7b, Pairs(indent, texts), 0x7d, indent, level), Object(values))
  {
    hide Denotes, Bracketed;
    if texts != [] {
      PairsDenote(indent, texts, values);
      ObjectDenotes(Pairs(indent, texts), values, indent, level);
    }
  }

  lemma {:induction false} ItemsDenote(items: seq<Json>, indent: nat, level: nat)
    ensures forall i :: 0 <= i < |items| ==> Denotes(DumpItems(items, indent, level)[i], NormalItems(items)[i])
    decreases items
  {
    hide Denotes, Dumps, Normal;
    if items != [] {
      DumpsDenotes(items[0], indent, level);
      ItemsDenote(items[1..], indent, level);
    }
  }

  lemma {:induction false} MembersRelate(entries: seq<Entry<Json>>, indent: nat, level: nat)
    ensures Related(DumpMembers(entries, indent, level), NormalMembers(entries))
    decreases entries
  {
    hide Denotes, Dumps, Normal;
    if entries != [] {
      MembersRelate(entries[1..], indent, level);
      DumpsDenotes(entries[0].value, indent, level);
    }
  }

  lemma NormalReadsBack(v: Json, indent: nat)
    ensures Parse(Dumps(v, indent, 0)) == Ok(Normal(v), [])
  {
    DumpsDenotes(v, indent, 0);
    hide Dumps, Normal, ParseValue;
    assert Dumps(v, indent, 0) + [] == Dumps(v, indent, 0);
  }

  // The order in which keys were inserted leaves no trace.

  ghost predicate DistinctKeys<V>(entries: seq<Entry<V>>) {
    forall i, j :: 0 <= i < j < |entries| ==> entries[i].key != entries[j].key
  }

  lemma {:induction false} InsertsCommute<V>(sorted: seq<Entry<V>>, a: Entry<V>, b: Entry<V>)
    requires a.key != b.key
    ensures Insert(Insert(sorted, a), b) == Insert(Insert(sorted, b), a)
  {
    LessIsTotal(a.key, b.key);
    if sorted != [] {
      var s := sorted[0];
      LessIsTotal(s.key, a.key);
      LessIsTotal(s.key, b.key);
      if Less(s.key, a.key) && Less(a.key, b.key) { LessIsTransitive(s.key, a.key, b.key); }
      if Less(s.key, b.key) && Less(b.key, a.key) { LessIsTransitive(s.key, b.key, a.key); }
      hide Less;
      InsertsCommute(sorted[1..], a, b);
    }
  }

  /** Any entry may be inserted last. */
  lemma {:induction false} SortTakesOut<V>(entries: seq<Entry<V>>, i: nat)
    requires i < |entries| && DistinctKeys(entries)
    ensures Sort(entries) == Insert(Sort(entries[..i] + entries[i + 1..]), entries[i])
  {
    hide Insert;
    if i == 0 {
      assert entries[..0] + entries[1..] == entries[1..];
    } else {
      SortTakesOut(entries[1..], i - 1);
      var others := entries[..i] + entries[i + 1..];
      assert others[1..] == entries[1..][..i - 1] + entries[1..][i..];
      InsertsCommute(Sort(others[1..]), entries[0], entries[i]);
    }
  }

  lemma {:induction false} SortForgetsOrder<V>(one: seq<Entry<V>>, two: seq<Entry<V>>)
    requires multiset(one) == multiset(two) && DistinctKeys(one) && DistinctKeys(two)
    ensures Sort(one) == Sort(two)
  {
    hide Insert;
    if one == [] {
      NothingLeft(two);
    } else {
      var i := TakeOut(one, two);
      SortForgetsOrder(one[1..], two[..i] + two[i + 1..]);
      SortTakesOut(two, i);
    }
  }

  function Defined(entries: seq<Entry<Json>>): seq<Entry<Json>> {
    if entries == [] then []
    else (if entries[0].value.Undefined? then [] else [entries[0]]) + Defined(entries[1..])
  }

  /** Filtering, sorting and then rendering, in the order of the source, gives the same members. */
  lemma {:induction false} SortBeforeRendering(entries: seq<Entry<Json>>, indent: nat, level: nat)
    ensures DumpMembers(Sort(Defined(entries)), indent, level) == Sort(DumpMembers(entries, indent, level))
  {
    DefinedIsDefined(entries, indent, level);
    SortRenders(Defined(entries), indent, level);
  }

  lemma {:induction false} DefinedIsDefined(entries: seq<Entry<Json>>, indent: nat, level: nat)
    ensures AllDefined(Defined(entries))
    ensures DumpMembers(Defined(entries), indent, level) == DumpMembers(entries, indent, level)
  {
    hide Dumps;
    if entries != [] {
      DefinedIsDefined(entries[1..], indent, level);
      assert [] + Defined(entries[1..]) == Defined(entries[1..]);
      assert ([entries[0]] + Defined(entries[1..]))[1..] == Defined(entries[1..]);
    }
  }

  ghost predicate AllDefined(entries: seq<Entry<Json>>) {
    forall i :: 0 <= i < |entries| ==> !entries[i].value.Undefined?
  }

  lemma {:induction false} SortRenders(entries: seq<Entry<Json>>, indent: nat, level: nat)
    requires AllDefined(entries)
    ensures DumpMembers(Sort(entries), indent, level) == Sort(DumpMembers(entries, indent, level))
    ensures AllDefined(Sort(entries))
  {
    hide Insert, Dumps;
    if entries != [] {
      SortRenders(entries[1..], indent, level);
      InsertRenders(Sort(entries[1..]), entries[0], indent, level);
    }
  }

  lemma {:induction false} InsertRenders(sorted: seq<Entry<Json>>, e: Entry<Json>, indent: nat, level: nat)
    requires AllDefined(sorted) && !e.value.Undefined?
    ensures DumpMembers(Insert(sorted, e), indent, level)
         == Insert(DumpMembers(sorted, indent, level), Entry(e.key, Dumps(e.value, indent, level)))
    ensures AllDefined(Insert(sorted, e))
  {
    hide Dumps, Less;
    if sorted != [] && Less(sorted[0].key, e.key) {
      InsertRenders(sorted[1..], e, indent, level);
      var more := Insert(sorted[1..], e);
      assert ([sorted[0]] + more)[1..] == more;
    } else {
      assert ([e] + sorted)[1..] == sorted;
    }
  }

  // Printing sees the normal form, and nothing but the normal form.

  ghost predicate Ordered<V>(entries: seq<Entry<V>>) {
    forall i :: 0 < i < |entries| ==> !Less(entries[i].key, entries[i - 1].key)
  }

  lemma {:induction false} InsertOrders<V>(sorted: seq<Entry<V>>, e: Entry<V>)
    requires Ordered(sorted)
    ensures Ordered(Insert(sorted, e))
    ensures var r := Insert(sorted, e); r != [] && (r[0] == e || (sorted != [] && r[0] == sorted[0]))
  {
    if sorted == [] || !Less(sorted[0].key, e.key) {
      hide Less;
    } else {
      LessIsTotal(sorted[0].key, e.key);
      hide Less;
      InsertOrders(sorted[1..], e);
      var r := Insert(sorted[1..], e);
      assert forall i :: 0 < i < |sorted[1..]| ==> sorted[1..][i - 1] == sorted[i];
    }
  }

  lemma {:induction false} SortOrders<V>(entries: seq<Entry<V>>)
    ensures Ordered(Sort(entries))
  {
    hide Insert;
    if entries != [] {
      SortOrders(entries[1..]);
      InsertOrders(Sort(entries[1..]), entries[0]);
    }
  }

  lemma {:induction false} SortIsIdempotent<V>(entries: seq<Entry<V>>)
    requires Ordered(entries)
    ensures Sort(entries) == entries
  {
    hide Less;
    if entries != [] {
      assert forall i :: 0 < i < |entries[1..]| ==> entries[1..][i - 1] == entries[i];
      SortIsIdempotent(entries[1..]);
    }
  }

  lemma {:induction false} DumpsNormal(v: Json, indent: nat, level: nat)
    ensures Dumps(Normal(v), indent, level) == Dumps(v, indent, level)
    decreases v
  {
    hide Sort, Bracketed, Pairs;
    match v {
      case Array(items) => ItemsNormal(items, indent, Deeper(indent, level));
      case Object(entries) =>
        var deeper := Deeper(indent, level);
        MembersNormal(entries, indent, deeper);
        SortRenders(NormalMembers(entries), indent, deeper);
        SortOrders(DumpMembers(entries, indent, deeper));
        SortIsIdempotent(Sort(DumpMembers(entries, indent, deeper)));
      case _ =>
    }
  }

  lemma {:induction false} ItemsNormal(items: seq<Json>, indent: nat, level: nat)
    ensures DumpItems(NormalItems(items), indent, level) == DumpItems(items, indent, level)
    decreases items
  {
    hide Dumps, Normal;
    if items != [] {
      DumpsNormal(items[0], indent, level);
      ItemsNormal(items[1..], indent, level);
      assert NormalItems(items)[1..] == NormalItems(items[1..]);
    }
  }

  lemma {:induction false} MembersNormal(entries: seq<Entry<Json>>, indent: nat, level: nat)
    ensures DumpMembers(NormalMembers(entries), indent, level) == DumpMembers(entries, indent, level)
    ensures AllDefined(NormalMembers(entries))
    decreases entries
  {
    hide Dumps;
    if entries != [] {
      MembersNormal(entries[1..], indent, level);
      DumpsNormal(entries[0].value, indent, level);
      if !entries[0].value.Undefined? {
        assert NormalMembers(entries)[1..] == NormalMembers(entries[1..]);
      }
    }
  }

  /** Two values print alike exactly if they have one normal form. */
  lemma PrintsAlikeExactlyWhenNormallyEqual(v: Json, w: Json, indent: nat)
    ensures Dumps(v, indent, 0) == Dumps(w, indent, 0) <==> Normal(v) == Normal(w)
  {
    hide Dumps, Normal, Parse;
    NormalReadsBack(v, indent);
    NormalReadsBack(w, indent);
    DumpsNormal(v, indent, 0);
    DumpsNormal(w, indent, 0);
  }

  // Values that differ in key order only.

  ghost predicate IsDefined(e: Entry<Json>) { !e.value.Undefined? }

  /** The same value, but for the order of keys at any depth.  Undefined counts as absent in an object, and as null
      elsewhere. */
  ghost predicate Same(v: Json, w: Json)
    decreases v
  {
    match v
    case Undefined => w.Undefined? || w.Null?
    case Null => w.Undefined? || w.Null?
    case Array(items) =>
      w.Array? && |items| == |w.items| && forall i :: 0 <= i < |items| ==> Same(items[i], w.items[i])
    case Object(entries) => w.Object? && SameObjects(entries, w.entries)
    case _ => v == w
  }

  /** Every defined member of one has its like in the other. */
  ghost predicate SameObjects(a: seq<Entry<Json>>, b: seq<Entry<Json>>)
    decreases a
  {
    && (forall i :: 0 <= i < |a| && IsDefined(a[i]) ==> exists j :: 0 <= j < |b| && SameMember(a[i], b[j]))
    && (forall j :: 0 <= j < |b| && IsDefined(b[j]) ==> exists i :: 0 <= i < |a| && SameMember(a[i], b[j]))
  }

  ghost predicate SameMember(e: Entry<Json>, f: Entry<Json>)
    decreases e
  {
    IsDefined(e) && IsDefined(f) && e.key == f.key && Same(e.value, f.value)
  }

  /** No object has a key twice, at any depth: so it is with the values of JavaScript. */
  ghost predicate Proper(v: Json)
    decreases v
  {
    match v
    case Array(items) => forall i :: 0 <= i < |items| ==> Proper(items[i])
    case Object(entries) => DistinctKeys(entries) && AllProper(entries)
    case _ => true
  }

  ghost predicate AllProper(entries: seq<Entry<Json>>)
    decreases entries
  {
    forall i :: 0 <= i < |entries| ==> Proper(entries[i].value)
  }

  lemma {:induction false} InsertKeepsAll<V>(sorted: seq<Entry<V>>, e: Entry<V>)
    ensures multiset(Insert(sorted, e)) == multiset(sorted) + multiset{e}
  {
    if sorted != [] && Less(sorted[0].key, e.key) {
      InsertKeepsAll(sorted[1..], e);
      assert sorted == [sorted[0]] + sorted[1..];
    }
    hide Less;
  }

  /** Sorting keeps every entry, as often as it is there. */
  lemma {:induction false} SortKeepsAll<V>(entries: seq<Entry<V>>)
    ensures multiset(Sort(entries)) == multiset(entries)
  {
    if entries != [] {
      SortKeepsAll(entries[1..]);
      InsertKeepsAll(Sort(entries[1..]), entries[0]);
      assert entries == [entries[0]] + entries[1..];
    }
    hide Insert;
  }

  lemma SortMembers<V>(entries: seq<Entry<V>>, e: Entry<V>)
    ensures e in Sort(entries) <==> e in entries
  {
    SortKeepsAll(entries);
    assert e in Sort(entries) <==> e in multiset(Sort(entries));
    assert e in entries <==> e in multiset(entries);
    hide Sort;
  }

  /** The normal form keeps exactly the defined members, each with its normal form. */
  lemma {:induction false} NormalMembersAt(entries: seq<Entry<Json>>, m: Entry<Json>)
    ensures m in NormalMembers(entries)
       <==> exists i :: 0 <= i < |entries| && IsDefined(entries[i])
                        && m == Entry(entries[i].key, Normal(entries[i].value))
  {
    hide Normal;
    if entries != [] {
      var rest := entries[1..];
      NormalMembersAt(rest, m);
      if i :| 0 <= i < |rest| && IsDefined(rest[i]) && m == Entry(rest[i].key, Normal(rest[i].value)) {
        assert rest[i] == entries[i + 1];
      }
      if i :| 0 <= i < |entries| && IsDefined(entries[i]) && m == Entry(entries[i].key, Normal(entries[i].value)) {
        assert i > 0 ==> rest[i - 1] == entries[i];
      }
    }
  }

  lemma NormalItemsAt(items: seq<Json>, i: nat)
    requires i < |items|
    ensures NormalItems(items)[i] == Normal(items[i])
  {
    hide Normal;
    if i > 0 {
      NormalItemsAt(items[1..], i - 1);
    }
  }

  /** Values with one normal form are the same. */
  lemma {:induction false} NormallyEqualIsSame(v: Json, w: Json)
    requires Normal(v) == Normal(w)
    ensures Same(v, w)
    decreases v
  {
    hide Sort, NormalMembers, NormalItems, SameObjects;
    match v {
      case Array(items) =>
        forall i | 0 <= i < |items| ensures Same(items[i], w.items[i]) {
          NormalItemsAt(items, i);
          NormalItemsAt(w.items, i);
          NormallyEqualIsSame(items[i], w.items[i]);
        }
      case Object(entries) => NormallyEqualObjects(entries, w.entries);
      case _ =>
    }
  }

  lemma {:induction false} NormallyEqualObjects(a: seq<Entry<Json>>, b: seq<Entry<Json>>)
    requires Sort(NormalMembers(a)) == Sort(NormalMembers(b))
    ensures SameObjects(a, b)
    decreases a
  {
    SameNormalMembers(a, b);
    hide Sort, NormalMembers, Normal, Same, SameMember, IsDefined;
    forall i | 0 <= i < |a| && IsDefined(a[i]) ensures exists j :: 0 <= j < |b| && SameMember(a[i], b[j]) {
      NormalTarget(a, i, Entry(a[i].key, Normal(a[i].value)));
      var j := NormalSource(b, Entry(a[i].key, Normal(a[i].value)));
      MatchIsSame(a[i], b[j]);
    }
    forall j | 0 <= j < |b| && IsDefined(b[j]) ensures exists i :: 0 <= i < |a| && SameMember(a[i], b[j]) {
      NormalTarget(b, j, Entry(b[j].key, Normal(b[j].value)));
      var i := NormalSource(a, Entry(b[j].key, Normal(b[j].value)));
      MatchIsSame(a[i], b[j]);
    }
  }

  lemma {:induction false} MatchIsSame(e: Entry<Json>, f: Entry<Json>)
    requires IsDefined(e) && IsDefined(f) && e.key == f.key && Normal(e.value) == Normal(f.value)
    ensures SameMember(e, f)
    decreases e
  {
    hide Normal, Same;
    NormallyEqualIsSame(e.value, f.value);
  }

  lemma SameNormalMembers(a: seq<Entry<Json>>, b: seq<Entry<Json>>)
    requires Sort(NormalMembers(a)) == Sort(NormalMembers(b))
    ensures forall m :: m in NormalMembers(a) <==> m in NormalMembers(b)
  {
    hide Sort, NormalMembers;
    forall m ensures m in NormalMembers(a) <==> m in NormalMembers(b) {
      SortMembers(NormalMembers(a), m);
      SortMembers(NormalMembers(b), m);
    }
  }

  lemma {:induction false} NormalKeys(entries: seq<Entry<Json>>)
    requires DistinctKeys(entries)
    ensures DistinctKeys(NormalMembers(entries))
  {
    hide Normal;
    if entries != [] {
      NormalKeys(entries[1..]);
      var more := NormalMembers(entries[1..]);
      forall j | 0 <= j < |more| ensures more[j].key != entries[0].key {
        NormalMembersAt(entries[1..], more[j]);
        var i :| 0 <= i < |entries[1..]| && more[j].key == entries[1..][i].key;
        assert entries[1..][i] == entries[i + 1];
      }
    }
  }

  lemma SameEntries<V>(one: seq<Entry<V>>, two: seq<Entry<V>>)
    requires DistinctKeys(one) && DistinctKeys(two) && forall e :: e in one <==> e in two
    ensures multiset(one) == multiset(two)
  {
    SameElements(one, two);
  }

  lemma NormalSource(entries: seq<Entry<Json>>, m: Entry<Json>) returns (i: nat)
    requires m in NormalMembers(entries)
    ensures i < |entries| && IsDefined(entries[i]) && m == Entry(entries[i].key, Normal(entries[i].value))
  {
    hide NormalMembers, Normal;
    NormalMembersAt(entries, m);
    i :| 0 <= i < |entries| && IsDefined(entries[i]) && m == Entry(entries[i].key, Normal(entries[i].value));
  }

  lemma NormalTarget(entries: seq<Entry<Json>>, i: nat, m: Entry<Json>)
    requires i < |entries| && IsDefined(entries[i]) && m == Entry(entries[i].key, Normal(entries[i].value))
    ensures m in NormalMembers(entries)
  {
    hide NormalMembers, Normal;
    NormalMembersAt(entries, m);
  }

  /** Two defined members with one key and one normal form. */
  ghost predicate Match(e: Entry<Json>, f: Entry<Json>) {
    IsDefined(e) && IsDefined(f) && e.key == f.key && Normal(e.value) == Normal(f.value)
  }

  ghost predicate HasMatch(e: Entry<Json>, others: seq<Entry<Json>>) {
    exists j :: 0 <= j < |others| && Match(e, others[j])
  }

  lemma MatchedAreKept(a: seq<Entry<Json>>, b: seq<Entry<Json>>, m: Entry<Json>)
    requires forall i :: 0 <= i < |a| && IsDefined(a[i]) ==> HasMatch(a[i], b)
    ensures m in NormalMembers(a) ==> m in NormalMembers(b)
  {
    hide NormalMembers, Normal;
    if m in NormalMembers(a) {
      var i := NormalSource(a, m);
      var j :| 0 <= j < |b| && Match(a[i], b[j]);
      NormalTarget(b, j, m);
    }
  }

  lemma MatchedSortAlike(a: seq<Entry<Json>>, b: seq<Entry<Json>>)
    requires DistinctKeys(a) && DistinctKeys(b)
    requires forall i :: 0 <= i < |a| && IsDefined(a[i]) ==> HasMatch(a[i], b)
    requires forall j :: 0 <= j < |b| && IsDefined(b[j]) ==> HasMatch(b[j], a)
    ensures Sort(NormalMembers(a)) == Sort(NormalMembers(b))
  {
    hide *;
    forall m ensures m in NormalMembers(a) <==> m in NormalMembers(b) {
      MatchedAreKept(a, b, m);
      MatchedAreKept(b, a, m);
    }
    NormalKeys(a);
    NormalKeys(b);
    SameEntries(NormalMembers(a), NormalMembers(b));
    SortForgetsOrder(NormalMembers(a), NormalMembers(b));
  }

  /** Values that are the same have one normal form. */
  lemma {:induction false} SameIsNormallyEqual(v: Json, w: Json)
    requires Same(v, w) && Proper(v) && Proper(w)
    ensures Normal(v) == Normal(w)
    decreases v
  {
    hide Sort, NormalMembers, NormalItems, DistinctKeys, SameObjects, AllProper;
    match v {
      case Array(items) => SameItemsNormally(items, w.items);
      case Object(entries) => SameObjectsNormally(entries, w.entries);
      case _ =>
    }
  }

  lemma {:induction false} SameItemsNormally(a: seq<Json>, b: seq<Json>)
    requires |a| == |b| && forall i :: 0 <= i < |a| ==> Same(a[i], b[i]) && Proper(a[i]) && Proper(b[i])
    ensures NormalItems(a) == NormalItems(b)
    decreases a
  {
    hide Same, Proper, Normal;
    if a != [] {
      SameIsNormallyEqual(a[0], b[0]);
      SameItemsNormally(a[1..], b[1..]);
    }
  }

  lemma {:induction false} SameObjectsNormally(a: seq<Entry<Json>>, b: seq<Entry<Json>>)
    requires SameObjects(a, b) && DistinctKeys(a) && DistinctKeys(b) && AllProper(a) && AllProper(b)
    ensures Sort(NormalMembers(a)) == Sort(NormalMembers(b))
    decreases a
  {
    hide Sort, NormalMembers, DistinctKeys, Normal, Same, Proper, SameMember, Match, IsDefined;
    forall i | 0 <= i < |a| && IsDefined(a[i]) ensures HasMatch(a[i], b) {
      var j :| 0 <= j < |b| && SameMember(a[i], b[j]);
      SameIsMatch(a[i], b[j]);
    }
    forall j | 0 <= j < |b| && IsDefined(b[j]) ensures HasMatch(b[j], a) {
      var i :| 0 <= i < |a| && SameMember(a[i], b[j]);
      SameIsMatch(a[i], b[j]);
    }
    MatchedSortAlike(a, b);
  }

  lemma {:induction false} SameIsMatch(e: Entry<Json>, f: Entry<Json>)
    requires SameMember(e, f) && Proper(e.value) && Proper(f.value)
    ensures Match(e, f) && Match(f, e)
    decreases e
  {
    hide Same, Proper, Normal;
    SameIsNormallyEqual(e.value, f.value);
  }

  lemma {:induction false} InsertKeepsKeysDistinct<V>(sorted: seq<Entry<V>>, e: Entry<V>)
    requires DistinctKeys(sorted) && forall i :: 0 <= i < |sorted| ==> sorted[i].key != e.key
    ensures DistinctKeys(Insert(sorted, e))
  {
    if sorted != [] && Less(sorted[0].key, e.key) {
      InsertKeepsKeysDistinct(sorted[1..], e);
      InsertKeepsAll(sorted[1..], e);
      var more := Insert(sorted[1..], e);
      forall j | 0 <= j < |more| ensures more[j].key != sorted[0].key {
        assert more[j] in multiset(more);
        assert more[j] == e || more[j] in sorted[1..];
      }
    }
    hide Less;
  }

  lemma {:induction false} SortKeepsKeysDistinct<V>(entries: seq<Entry<V>>)
    requires DistinctKeys(entries)
    ensures DistinctKeys(Sort(entries))
  {
    if entries != [] {
      var sorted := Sort(entries[1..]);
      SortKeepsKeysDistinct(entries[1..]);
      forall i | 0 <= i < |sorted| ensures sorted[i].key != entries[0].key {
        SortMembers(entries[1..], sorted[i]);
        assert sorted[i] in entries[1..];
      }
      InsertKeepsKeysDistinct(sorted, entries[0]);
    }
    hide Insert;
  }

  lemma {:induction false} NormalIsProper(v: Json)
    requires Proper(v)
    ensures Proper(Normal(v))
    decreases v
  {
    hide Sort;
    match v {
      case Array(items) =>
        forall i | 0 <= i < |items| ensures Proper(NormalItems(items)[i]) {
          NormalItemsAt(items, i);
          NormalIsProper(items[i]);
        }
      case Object(entries) =>
        NormalKeys(entries);
        SortKeepsKeysDistinct(NormalMembers(entries));
        var sorted := Sort(NormalMembers(entries));
        forall k | 0 <= k < |sorted| ensures Proper(sorted[k].value) {
          SortMembers(NormalMembers(entries), sorted[k]);
          assert sorted[k] in sorted;
          NormalMembersAt(entries, sorted[k]);
          var i :| 0 <= i < |entries| && sorted[k] == Entry(entries[i].key, Normal(entries[i].value));
          NormalIsProper(entries[i].value);
        }
      case _ =>
    }
  }

  /** The normal form is the value, but for key order. */
  lemma NormalIsSame(v: Json)
    ensures Same(v, Normal(v)) && (Proper(v) ==> Proper(Normal(v)))
  {
    hide *;
    DumpsNormal(v, 0, 0);
    PrintsAlikeExactlyWhenNormallyEqual(v, Normal(v), 0);
    NormallyEqualIsSame(v, Normal(v));
    if Proper(v) {
      NormalIsProper(v);
    }
  }

  /** Printed at any level, in front of whatever may follow, a value reads back as the same value. */
  lemma ReadsBackAnywhere(v: Json, indent: nat, level: nat, rest: Text)
    requires Follows(rest)
    ensures var p := ParseValue(Dumps(v, indent, level) + rest);
            p.Ok? && p.rest == rest && Same(v, p.value) && (Proper(v) ==> Proper(p.value))
  {
    hide Dumps, Normal, ParseValue, Same, Proper, Follows;
    DumpsDenotes(v, indent, level);
    NormalIsSame(v);
  }

  /** The round trip, for every value and every indentation: what is read is the value, but for key order. */
  lemma RoundTrip(v: Json, indent: nat)
    ensures var p := Parse(Dumps(v, indent, 0));
            p == Ok(Normal(v), []) && Same(v, p.value) && (Proper(v) ==> Proper(p.value))
  {
    hide *;
    NormalReadsBack(v, indent);
    NormalIsSame(v);
  }

  /** Whatever order keys were inserted in, at any depth, the text is the same, at every indentation and level. */
  lemma InsertionOrderIsInvisible(v: Json, w: Json, indent: nat, level: nat)
    requires Proper(v) && Proper(w) && Same(v, w)
    ensures Dumps(v, indent, level) == Dumps(w, indent, level)
  {
    hide *;
    SameIsNormallyEqual(v, w);
    DumpsNormal(v, indent, level);
    DumpsNormal(w, indent, level);
  }

  /** Two values print alike exactly if they are the same but for key order. */
  lemma PrintsAlikeExactlyWhenSame(v: Json, w: Json, indent: nat)
    requires Proper(v) && Proper(w)
    ensures Dumps(v, indent, 0) == Dumps(w, indent, 0) <==> Same(v, w)
  {
    hide *;
    PrintsAlikeExactlyWhenNormallyEqual(v, w, indent);
    if Same(v, w) {
      InsertionOrderIsInvisible(v, w, indent, 0);
    } else if Normal(v) == Normal(w) {
      NormallyEqualIsSame(v, w);
    }
  }

  // The output is printable ASCII and line feeds.

  ghost predicate Plain(t: Text) {
    forall i :: 0 <= i < |t| ==> t[i] == NEWLINE || 0x20 <= t[i] <= 0x7e
  }

  lemma {:induction false} EscapesArePlain(s: Text)
    ensures Plain(Quoted(s))
  {
    hide EscapeUnit;
    if s == [] {
      assert Quoted(s) == [QUOTE, QUOTE];
    } else {
      EscapesArePlain(s[1..]);
      EscapeIsPlain(s[0]);
      assert Quoted(s) == [QUOTE] + EscapeUnit(s[0]) + Quoted(s[1..])[1..];
    }
  }

  lemma EscapeIsPlain(u: Unit)
    ensures Plain(EscapeUnit(u))
  {
  }

  lemma {:induction false} DigitsArePlain(n: nat)
    ensures Plain(Digits(n))
  {
    if n >= 10 {
      DigitsArePlain(n / 10);
    }
  }

  lemma {:induction false} SpacesArePlain(n: nat)
    ensures Plain(Spaces(n))
  {
    if n > 0 {
      SpacesArePlain(n - 1);
    }
  }

  ghost predicate AllPlain(parts: seq<Text>) { forall i :: 0 <= i < |parts| ==> Plain(parts[i]) }

  lemma {:induction false} BodyIsPlain(parts: seq<Text>, close: Unit, indent: nat, level: nat)
    requires parts != [] && AllPlain(parts) && 0x20 <= close <= 0x7e
    ensures Plain(Body(parts, close, indent, level))
  {
    hide Plain, Body;
    BodyStep(parts, close, indent, level);
    BreakIsPlain(indent, level);
    BreakIsPlain(indent, level + 1);
    if |parts| == 1 {
      PlainConcat(Break(indent, level), [close]);
      PlainConcat(Break(indent, level + 1), parts[0]);
      PlainConcat(Break(indent, level + 1) + parts[0], Break(indent, level) + [close]);
    } else {
      BodyIsPlain(parts[1..], close, indent, level);
      PlainConcat([COMMA], Body(parts[1..], close, indent, level));
      PlainConcat(Break(indent, level + 1), parts[0]);
      PlainConcat(Break(indent, level + 1) + parts[0], [COMMA] + Body(parts[1..], close, indent, level));
    }
  }

  lemma BreakIsPlain(indent: nat, level: nat)
    ensures Plain(Break(indent, level))
    ensures forall u: Unit {:trigger Plain([u])} :: 0x20 <= u <= 0x7e ==> Plain([u])
  {
    SpacesArePlain(indent * level);
    hide Spaces;
  }

  lemma PlainConcat(a: Text, b: Text)
    requires Plain(a) && Plain(b)
    ensures Plain(a + b)
  {
  }

  lemma BracketedIsPlain(open: Unit, parts: seq<Text>, close: Unit, indent: nat, level: nat)
    requires parts != [] && AllPlain(parts) && 0x20 <= open <= 0x7e && 0x20 <= close <= 0x7e
    ensures Plain(Bracketed(open, parts, close, indent, level))
  {
    BracketedIsBody(open, parts, close, indent, level);
    BodyIsPlain(parts, close, indent, level);
    hide Bracketed, Body;
  }

  ghost predicate PlainMembers(members: seq<Entry<Text>>) {
    forall i :: 0 <= i < |members| ==> Plain(members[i].value)
  }

  lemma {:induction false} InsertIsPlain(members: seq<Entry<Text>>, e: Entry<Text>)
    requires PlainMembers(members) && Plain(e.value)
    ensures PlainMembers(Insert(members, e))
  {
    hide Plain, Less;
    if members != [] && Less(members[0].key, e.key) {
      InsertIsPlain(members[1..], e);
    }
  }

  lemma {:induction false} SortIsPlain(members: seq<Entry<Text>>)
    requires PlainMembers(members)
    ensures PlainMembers(Sort(members))
  {
    hide Plain, Insert;
    if members != [] {
      SortIsPlain(members[1..]);
      InsertIsPlain(Sort(members[1..]), members[0]);
    }
  }

  lemma {:induction false} PairsArePlain(indent: nat, members: seq<Entry<Text>>)
    requires PlainMembers(members)
    ensures |Pairs(indent, members)| == |members| && AllPlain(Pairs(indent, members))
  {
    hide Plain, Pair;
    if members != [] {
      PairsArePlain(indent, members[1..]);
      PairIsPlain(indent, members[0]);
    }
  }

  lemma PairIsPlain(indent: nat, e: Entry<Text>)
    requires Plain(e.value)
    ensures Plain(Pair(indent, e))
  {
    EscapesArePlain(e.key);
    hide Quoted;
  }

  /** Whatever the strings hold, the text is pure ASCII. */
  lemma {:induction false} OutputIsPlain(v: Json, indent: nat, level: nat)
    ensures Plain(Dumps(v, indent, level))
    decreases v
  {
    hide Bracketed, Sort, Pairs, Quoted, Digits, Plain;
    ConstantsArePlain();
    match v {
      case Number(n) => NumberIsPlain(n);
      case String(s) => EscapesArePlain(s);
      case Array(items) =>
        ItemsArePlain(items, indent, Deeper(indent, level));
        if items != [] {
          BracketedIsPlain(0x5b, DumpItems(items, indent, Deeper(indent, level)), 0x5d, indent, level);
        }
      case Object(entries) =>
        MembersArePlain(entries, indent, Deeper(indent, level));
        var members := Sort(DumpMembers(entries, indent, Deeper(indent, level)));
        SortIsPlain(DumpMembers(entries, indent, Deeper(indent, level)));
        PairsArePlain(indent, members);
        if members != [] {
          BracketedIsPlain(0x7b, Pairs(indent, members), 0x7d, indent, level);
        }
      case _ =>
    }
  }

  lemma ConstantsArePlain()
    ensures Plain([0x6e, 0x75, 0x6c, 0x6c]) && Plain([0x74, 0x72, 0x75, 0x65])
    ensures Plain([0x66, 0x61, 0x6c, 0x73, 0x65]) && Plain([0x5b, 0x5d]) && Plain([0x7b, 0x7d])
  {
  }

  lemma NumberIsPlain(n: SafeInteger)
    ensures Plain(NumberText(n))
  {
    DigitsArePlain(if n < 0 then -n else n);
    hide Digits;
  }

  lemma {:induction false} ItemsArePlain(items: seq<Json>, indent: nat, level: nat)
    ensures AllPlain(DumpItems(items, indent, level))
    decreases items
  {
    hide Plain, Dumps;
    if items != [] {
      OutputIsPlain(items[0], indent, level);
      ItemsArePlain(items[1..], indent, level);
    }
  }

  lemma {:induction false} MembersArePlain(entries: seq<Entry<Json>>, indent: nat, level: nat)
    ensures PlainMembers(DumpMembers(entries, indent, level))
    decreases entries
  {
    hide Plain, Dumps;
    if entries != [] {
      OutputIsPlain(entries[0].value, indent, level);
      MembersArePlain(entries[1..], indent, level);
    }
  }

  // Keys sort by UTF-16 unit; CPython sorts them by code point.

  type Point = c: int | 0 <= c < 0x11_0000

  /** The code points of a string, a lone surrogate being one by itself. */
  function Points(s: Text): seq<Point> {
    if s == [] then [] else [CodePointAt(s, 0)] + Points(s[Width(s)..])
  }

  /** The number of units of the first code point. */
  function Width(s: Text): (n: nat)
    requires s != []
    ensures 1 <= n <= |s|
  {
    if CodePointAt(s, 0) > 0xffff then 2 else 1
  }

  predicate PointLess(a: seq<Point>, b: seq<Point>) {
    b != [] && (a == [] || a[0] < b[0] || (a[0] == b[0] && PointLess(a[1..], b[1..])))
  }

  function HighOf(c: Point): int
    requires c >= 0x1_0000
  {
    0xd800 + (c - 0x1_0000) / 0x400
  }

  /** `a` starts with an astral code point and `b` with one that is less but has a greater unit: one of U+E000 to
      U+FFFF, a lone surrogate above the high one, or the high one itself and then one of U+E000 to U+FFFF. */
  predicate Overtakes(a: seq<Point>, b: seq<Point>) {
    && a != [] && b != [] && b[0] < 0x1_0000 <= a[0]
    && (b[0] > HighOf(a[0]) || (b[0] == HighOf(a[0]) && |b| > 1 && 0xe000 <= b[1] < 0x1_0000))
  }

  /** It is so at the first difference, one way or the other. */
  predicate Straddles(a: seq<Point>, b: seq<Point>) {
    && a != [] && b != []
    && if a[0] == b[0] then Straddles(a[1..], b[1..]) else Overtakes(a, b) || Overtakes(b, a)
  }

  /** The first code point is in its units. */
  lemma {:induction false} FirstUnits(s: Text)
    requires s != []
    ensures var c := CodePointAt(s, 0);
            if c < 0x1_0000 then s == [c] + s[Width(s)..]
            else s == [HighOf(c), 0xdc00 + c % 0x400] + s[Width(s)..] && IsHigh(s[0]) && IsLow(s[1])
  {
    var c := CodePointAt(s, 0);
    if c >= 0x1_0000 {
      PairValue(s[0], s[1]);
    }
  }

  lemma {:induction false} CommonPrefix(p: Text, a: Text, b: Text)
    ensures Less(p + a, p + b) <==> Less(a, b)
  {
    if p == [] {
      assert p + a == a && p + b == b;
    } else {
      assert (p + a)[1..] == p[1..] + a && (p + b)[1..] == p[1..] + b;
      CommonPrefix(p[1..], a, b);
    }
  }

  lemma {:induction false} SameFirst(s: Text, t: Text)
    requires s != [] && t != [] && CodePointAt(s, 0) == CodePointAt(t, 0)
    ensures Less(s, t) <==> Less(s[Width(s)..], t[Width(t)..])
    ensures s[Width(s)..] == t[Width(t)..] ==> s == t
  {
    var c := CodePointAt(s, 0);
    FirstUnits(s);
    FirstUnits(t);
    CommonPrefix(if c < 0x1_0000 then [c] else [HighOf(c), 0xdc00 + c % 0x400], s[Width(s)..], t[Width(t)..]);
    hide Less, CodePointAt;
  }

  /** With a lesser first code point a string is less, unless the other one overtakes it. */
  lemma {:induction false} DifferentFirst(s: Text, t: Text)
    requires s != [] && t != [] && CodePointAt(s, 0) < CodePointAt(t, 0)
    ensures Less(s, t) <==> !Overtakes(Points(t), Points(s))
    ensures !Overtakes(Points(s), Points(t))
  {
    var c, d := CodePointAt(s, 0), CodePointAt(t, 0);
    FirstUnits(s);
    FirstUnits(t);
    assert Points(s)[0] == c && Points(t)[0] == d;
    if s[0] == t[0] {
      SecondUnits(s, t);
    }
    hide CodePointAt, Points;
  }

  lemma {:induction false} SecondUnits(s: Text, t: Text)
    requires s != [] && t != [] && CodePointAt(s, 0) < CodePointAt(t, 0) && s[0] == t[0]
    ensures Less(s, t) <==> !Overtakes(Points(t), Points(s))
  {
    var c, d := CodePointAt(s, 0), CodePointAt(t, 0);
    HeadOfPoints(s);
    HeadOfPoints(t);
    FirstUnits(s);
    FirstUnits(t);
    assert Less(s, t) <==> Less(s[1..], t[1..]);
    if s[1..] != [] {
      assert s[1..][0] == s[1] && t[1..][0] == t[1];
      if c < 0x1_0000 {
        HeadOfPoints(s[1..]);
      }
    }
    hide Points;
  }

  /** The key order is the one of CPython except in exactly that case, where it is the reverse. */
  lemma {:induction false} KeyOrderIsCPythons(s: Text, t: Text)
    requires s != t
    ensures Less(s, t) <==> (PointLess(Points(s), Points(t)) <==> !Straddles(Points(s), Points(t)))
  {
    hide Less, CodePointAt, Overtakes;
    if s == [] || t == [] {
      EmptyIsLess(s, t);
    } else {
      HeadOfPoints(s);
      HeadOfPoints(t);
      var c, d := CodePointAt(s, 0), CodePointAt(t, 0);
      if c == d {
        SameFirst(s, t);
        KeyOrderIsCPythons(s[Width(s)..], t[Width(t)..]);
      } else if c < d {
        DifferentFirst(s, t);
      } else {
        DifferentFirst(t, s);
        LessIsTotal(s, t);
      }
    }
  }

  lemma {:induction false} HeadOfPoints(s: Text)
    requires s != []
    ensures Points(s) != [] && Points(s)[0] == CodePointAt(s, 0) && Points(s)[1..] == Points(s[Width(s)..])
  {
    hide CodePointAt;
  }

  lemma {:induction false} EmptyIsLess(s: Text, t: Text)
    requires s != t && (s == [] || t == [])
    ensures Less(s, t) <==> s == []
    ensures PointLess(Points(s), Points(t)) <==> s == []
  {
    hide CodePointAt;
  }

  /** Such keys exist: U+FF00 precedes U+10000, but is printed after it. */
  lemma KeyOrderDiffers()
    ensures var a, b := [0xff00], [0xd800, 0xdc00];
            Points(a) == [0xff00] && Points(b) == [0x1_0000] && PointLess(Points(a), Points(b)) && Less(b, a)
  {
    var a, b := [0xff00], [0xd800, 0xdc00];
    assert Points(a[1..]) == [] && Points(b[2..]) == [];
  }
}
