/** How the JSON printer of lib/json.js lays its text out: what indentation adds to the compact text. */
module JsonLayout {
  import opened JsText
  import opened Json

  predicate Opens(u: Unit) { u == 0x5b || u == 0x7b }

  predicate Closes(u: Unit) { u == 0x5d || u == 0x7d }

  /** A new line and its indentation; nothing if there is none. */
  function NewLine(indent: nat, depth: nat): Text {
    if indent == 0 then [] else [NEWLINE] + seq(indent * depth, _ => SPACE)
  }

  /** Lays a JSON text out anew, character by character: blanks between tokens go; a new line follows every opening
      bracket that is not closed at once, and every comma, and precedes every other closing bracket, indented by the
      number of open brackets; a blank follows every colon.  Strings are copied. */
  function Layout(t: Text, indent: nat, depth: nat): Text
    decreases |t|
  {
    if t == [] then []
    else
      var c, rest := t[0], t[1..];
      if c == QUOTE then [c] + InString(rest, indent, depth)
      else if c == SPACE || c == NEWLINE then Layout(rest, indent, depth)
      else if Opens(c) && rest != [] && Closes(rest[0]) then [c, rest[0]] + Layout(rest[1..], indent, depth)
      else if Opens(c) then [c] + NewLine(indent, depth + 1) + Layout(rest, indent, depth + 1)
      else if Closes(c) then
        var outer := if depth == 0 then 0 else depth - 1;
        NewLine(indent, outer) + [c] + Layout(rest, indent, outer)
      else if c == COMMA then [c] + NewLine(indent, depth) + Layout(rest, indent, depth)
      else if c == COLON then [c] + (if indent == 0 then [] else [SPACE]) + Layout(rest, indent, depth)
      else [c] + Layout(rest, indent, depth)
  }

  /** Up to the closing quote; a backslash takes the next character with it. */
  function InString(t: Text, indent: nat, depth: nat): Text
    decreases |t|
  {
    if t == [] then []
    else if t[0] == BACKSLASH && |t| > 1 then t[..2] + InString(t[2..], indent, depth)
    else if t[0] == QUOTE then [QUOTE] + Layout(t[1..], indent, depth)
    else [t[0]] + InString(t[1..], indent, depth)
  }

  /** In front of anything, `compact` is laid out as `text`. */
  ghost predicate Lays(compact: Text, text: Text, indent: nat, depth: nat) {
    && compact != [] && !Closes(compact[0])
    && forall rest :: Layout(compact + rest, indent, depth) == text + Layout(rest, indent, depth)
  }

  // Tokens.

  ghost predicate IsAtom(t: Text) {
    forall u :: u in t ==> u !in {QUOTE, SPACE, NEWLINE, COMMA, COLON} && !Opens(u) && !Closes(u)
  }

  lemma {:induction false} AtomStays(t: Text, rest: Text, indent: nat, depth: nat)
    requires IsAtom(t)
    ensures Layout(t + rest, indent, depth) == t + Layout(rest, indent, depth)
  {
    if t == [] {
      assert t + rest == rest && [] + Layout(rest, indent, depth) == Layout(rest, indent, depth);
    } else {
      var c := t[0];
      assert c in t && (t + rest)[0] == c && (t + rest)[1..] == t[1..] + rest;
      assert forall u :: u in t[1..] ==> u in t;
      AtomStays(t[1..], rest, indent, depth);
      assert [c] + (t[1..] + Layout(rest, indent, depth)) == t + Layout(rest, indent, depth);
    }
  }

  lemma AtomLays(t: Text, indent: nat, depth: nat)
    requires IsAtom(t) && t != []
    ensures Lays(t, t, indent, depth)
  {
    assert t[0] in t;
    hide Layout;
    forall rest ensures Layout(t + rest, indent, depth) == t + Layout(rest, indent, depth) {
      AtomStays(t, rest, indent, depth);
    }
  }

  lemma {:induction false} DigitsAreAtoms(n: nat)
    ensures IsAtom(Digits(n)) && Digits(n) != []
  {
    if n >= 10 {
      DigitsAreAtoms(n / 10);
    }
  }

  lemma NumberLays(n: SafeInteger, indent: nat, depth: nat)
    ensures Lays(NumberText(n), NumberText(n), indent, depth)
  {
    DigitsAreAtoms(if n < 0 then -n else n);
    hide Digits;
    assert IsAtom(NumberText(n));
    AtomLays(NumberText(n), indent, depth);
    hide Lays;
  }

  lemma LiteralsLay(indent: nat, depth: nat)
    ensures Lays([0x6e, 0x75, 0x6c, 0x6c], [0x6e, 0x75, 0x6c, 0x6c], indent, depth)
    ensures Lays([0x74, 0x72, 0x75, 0x65], [0x74, 0x72, 0x75, 0x65], indent, depth)
    ensures Lays([0x66, 0x61, 0x6c, 0x73, 0x65], [0x66, 0x61, 0x6c, 0x73, 0x65], indent, depth)
  {
    AtomLays([0x6e, 0x75, 0x6c, 0x6c], indent, depth);
    AtomLays([0x74, 0x72, 0x75, 0x65], indent, depth);
    AtomLays([0x66, 0x61, 0x6c, 0x73, 0x65], indent, depth);
    hide Lays;
  }

  lemma EmptyLays(open: Unit, close: Unit, indent: nat, depth: nat)
    requires Opens(open) && Closes(close)
    ensures Lays([open, close], [open, close], indent, depth)
  {
    forall rest ensures Layout([open, close] + rest, indent, depth) == [open, close] + Layout(rest, indent, depth) {
      var t := [open, close] + rest;
      assert t[0] == open && t[1..] == [close] + rest && ([close] + rest)[1..] == rest;
    }
  }

  lemma CopyUnit(u: Unit, more: Text, indent: nat, depth: nat)
    requires u != QUOTE && u != BACKSLASH
    ensures InString([u] + more, indent, depth) == [u] + InString(more, indent, depth)
  {
    assert ([u] + more)[1..] == more;
  }

  lemma CopyEscape(u: Unit, more: Text, indent: nat, depth: nat)
    ensures InString([BACKSLASH, u] + more, indent, depth) == [BACKSLASH, u] + InString(more, indent, depth)
  {
    var t := [BACKSLASH, u] + more;
    assert t[..2] == [BACKSLASH, u] && t[2..] == more;
  }

  lemma CopyHex(a: Unit, b: Unit, c: Unit, d: Unit, more: Text, indent: nat, depth: nat)
    requires IsHexDigit(a) && IsHexDigit(b) && IsHexDigit(c) && IsHexDigit(d)
    ensures InString([a, b, c, d] + more, indent, depth) == [a, b, c, d] + InString(more, indent, depth)
  {
    hide InString;
    CopyTwo(a, b, [c, d] + more, indent, depth);
    CopyTwo(c, d, more, indent, depth);
    Regroup([a, b], [c, d], more);
    Regroup([a, b], [c, d], InString(more, indent, depth));
    assert [a, b] + [c, d] == [a, b, c, d];
  }

  lemma CopyTwo(a: Unit, b: Unit, more: Text, indent: nat, depth: nat)
    requires IsHexDigit(a) && IsHexDigit(b)
    ensures InString([a, b] + more, indent, depth) == [a, b] + InString(more, indent, depth)
  {
    hide InString;
    CopyUnit(a, [b] + more, indent, depth);
    CopyUnit(b, more, indent, depth);
    Regroup([a], [b], more);
    Regroup([a], [b], InString(more, indent, depth));
    assert [a] + [b] == [a, b];
  }

  lemma EscapeStays(u: Unit, more: Text, indent: nat, depth: nat)
    ensures InString(EscapeUnit(u) + more, indent, depth) == EscapeUnit(u) + InString(more, indent, depth)
  {
    EscapesExactly(u);
    var e := EscapeUnit(u);
    hide EscapeUnit, InString;
    if |e| == 2 {
      assert e == [BACKSLASH, e[1]];
      CopyEscape(e[1], more, indent, depth);
    } else if |e| == 6 {
      var hex := [e[2], e[3], e[4], e[5]];
      assert e == [BACKSLASH, 0x75] + hex;
      assert e + more == [BACKSLASH, 0x75] + (hex + more);
      CopyEscape(0x75, hex + more, indent, depth);
      CopyHex(e[2], e[3], e[4], e[5], more, indent, depth);
      assert [BACKSLASH, 0x75] + (hex + InString(more, indent, depth)) == e + InString(more, indent, depth);
    } else {
      CopyUnit(u, more, indent, depth);
    }
  }

  lemma {:induction false} StringStays(s: Text, rest: Text, indent: nat, depth: nat)
    ensures InString(EscapeAll(s) + ([QUOTE] + rest), indent, depth)
            == EscapeAll(s) + ([QUOTE] + Layout(rest, indent, depth))
  {
    hide EscapeUnit;
    if s == [] {
      CloseString(rest, indent, depth);
    } else {
      Regroup(EscapeUnit(s[0]), EscapeAll(s[1..]), [QUOTE] + rest);
      Regroup(EscapeUnit(s[0]), EscapeAll(s[1..]), [QUOTE] + Layout(rest, indent, depth));
      EscapeStays(s[0], EscapeAll(s[1..]) + ([QUOTE] + rest), indent, depth);
      StringStays(s[1..], rest, indent, depth);
    }
    hide InString, Layout;
  }

  lemma Regroup(a: Text, b: Text, c: Text)
    ensures (a + b) + c == a + (b + c)
  {
  }

  lemma CloseString(rest: Text, indent: nat, depth: nat)
    ensures InString([] + ([QUOTE] + rest), indent, depth) == [] + ([QUOTE] + Layout(rest, indent, depth))
  {
    assert [] + ([QUOTE] + rest) == [QUOTE] + rest && ([QUOTE] + rest)[1..] == rest;
    hide Layout;
  }

  lemma QuotedStays(s: Text, rest: Text, indent: nat, depth: nat)
    ensures Layout(Quoted(s) + rest, indent, depth) == Quoted(s) + Layout(rest, indent, depth)
  {
    RegroupQuoted(EscapeAll(s), rest);
    RegroupQuoted(EscapeAll(s), Layout(rest, indent, depth));
    StringStays(s, rest, indent, depth);
    OpenString(EscapeAll(s) + ([QUOTE] + rest), indent, depth);
    hide EscapeAll, InString, Layout;
  }

  lemma RegroupQuoted(body: Text, rest: Text)
    ensures [QUOTE] + body + [QUOTE] + rest == [QUOTE] + (body + ([QUOTE] + rest))
  {
  }

  lemma OpenString(body: Text, indent: nat, depth: nat)
    ensures Layout([QUOTE] + body, indent, depth) == [QUOTE] + InString(body, indent, depth)
  {
    assert ([QUOTE] + body)[1..] == body;
    hide InString;
  }

  lemma StringLays(s: Text, indent: nat, depth: nat)
    ensures Lays(Quoted(s), Quoted(s), indent, depth)
  {
    assert Quoted(s)[0] == QUOTE;
    hide Quoted, Layout;
    forall rest ensures Layout(Quoted(s) + rest, indent, depth) == Quoted(s) + Layout(rest, indent, depth) {
      QuotedStays(s, rest, indent, depth);
    }
  }

  // Arrays and objects.

  lemma {:induction false} SpacesAreBlanks(n: nat)
    ensures Spaces(n) == seq(n, _ => SPACE)
  {
    if n > 0 {
      SpacesAreBlanks(n - 1);
      assert seq(n, _ => SPACE) == [SPACE] + seq(n - 1, _ => SPACE);
    }
  }

  lemma BreakIsNewLine(indent: nat, level: nat)
    ensures Break(indent, level) == NewLine(indent, level)
  {
    SpacesAreBlanks(indent * level);
  }

  lemma CloseLays(close: Unit, rest: Text, indent: nat, level: nat)
    requires Closes(close)
    ensures Layout([close] + rest, indent, level + 1) == Break(indent, level) + [close] + Layout(rest, indent, level)
  {
    BreakIsNewLine(indent, level);
    assert ([close] + rest)[1..] == rest;
    hide Break, NewLine;
  }

  lemma CommaLays(rest: Text, indent: nat, level: nat)
    ensures Layout([COMMA] + rest, indent, level) == [COMMA] + Break(indent, level) + Layout(rest, indent, level)
  {
    BreakIsNewLine(indent, level);
    assert ([COMMA] + rest)[1..] == rest;
    hide Break, NewLine;
  }

  ghost predicate AllLay(compact: seq<Text>, texts: seq<Text>, indent: nat, depth: nat) {
    |compact| == |texts| && forall i :: 0 <= i < |compact| ==> Lays(compact[i], texts[i], indent, depth)
  }

  lemma OneMore(part: Text, text: Text, more: Text, indent: nat, depth: nat)
    requires Lays(part, text, indent, depth)
    ensures Layout(part + more, indent, depth) == text + Layout(more, indent, depth)
  {
  }

  /** The parts between two brackets, behind the new line in front of the first. */
  lemma {:induction false} BodyLays(compact: seq<Text>, texts: seq<Text>, close: Unit, indent: nat, l: nat, level: nat,
                                    rest: Text)
    requires compact != [] && AllLay(compact, texts, indent, level + 1) && Closes(close)
    ensures Break(indent, level + 1) + Layout(Body(compact, close, 0, l) + rest, indent, level + 1)
            == Body(texts, close, indent, level) + Layout(rest, indent, level)
  {
    BodyStep(compact, close, 0, l);
    BodyStep(texts, close, indent, level);
    BreakIs(0, l);
    BreakIs(0, l + 1);
    assert Lays(compact[0], texts[0], indent, level + 1);
    hide *;
    var before, end := Break(indent, level + 1), Layout(rest, indent, level);
    if |compact| == 1 {
      LastCompact(compact[0], close, rest);
      OneMore(compact[0], texts[0], [close] + rest, indent, level + 1);
      CloseLays(close, rest, indent, level);
      LastPart(before, texts[0], Break(indent, level) + [close], end);
    } else {
      var more := Body(compact[1..], close, 0, l);
      NextCompact(compact[0], more, rest);
      OneMore(compact[0], texts[0], [COMMA] + (more + rest), indent, level + 1);
      CommaLays(more + rest, indent, level + 1);
      AllLayTail(compact, texts, indent, level + 1);
      BodyLays(compact[1..], texts[1..], close, indent, l, level, rest);
      NextPart(before, texts[0], Layout(more + rest, indent, level + 1), Body(texts[1..], close, indent, level), end);
    }
  }

  lemma LastCompact(part: Text, close: Unit, rest: Text)
    ensures [] + part + ([] + [close]) + rest == part + ([close] + rest)
  {
  }

  lemma NextCompact(part: Text, more: Text, rest: Text)
    ensures [] + part + ([COMMA] + more) + rest == part + ([COMMA] + (more + rest))
  {
  }

  lemma LastPart(before: Text, text: Text, close: Text, end: Text)
    ensures before + (text + (close + end)) == before + text + close + end
  {
  }

  lemma NextPart(before: Text, text: Text, tail: Text, body: Text, end: Text)
    requires before + tail == body + end
    ensures before + (text + ([COMMA] + before + tail)) == before + text + ([COMMA] + body) + end
  {
    assert before + (text + ([COMMA] + before + tail)) == before + text + ([COMMA] + (before + tail));
    assert before + text + ([COMMA] + (body + end)) == before + text + ([COMMA] + body) + end;
  }

  lemma AllLayTail(compact: seq<Text>, texts: seq<Text>, indent: nat, depth: nat)
    requires compact != [] && AllLay(compact, texts, indent, depth)
    ensures AllLay(compact[1..], texts[1..], indent, depth)
  {
    hide Lays;
  }

  lemma OpenLays(open: Unit, body: Text, indent: nat, level: nat)
    requires Opens(open) && body != [] && !Closes(body[0])
    ensures Layout([open] + body, indent, level) == [open] + Break(indent, level + 1) + Layout(body, indent, level + 1)
  {
    BreakIsNewLine(indent, level + 1);
    assert ([open] + body)[1..] == body;
    hide Break, NewLine;
  }

  lemma BracketedLays(open: Unit, compact: seq<Text>, texts: seq<Text>, close: Unit, indent: nat, l: nat, level: nat)
    requires compact != [] && AllLay(compact, texts, indent, level + 1) && Opens(open) && Closes(close)
    ensures Lays(Bracketed(open, compact, close, 0, l), Bracketed(open, texts, close, indent, level), indent, level)
  {
    BracketedIsBody(open, compact, close, 0, l);
    BracketedIsBody(open, texts, close, indent, level);
    BodyStep(compact, close, 0, l);
    BreakIs(0, l + 1);
    assert Lays(compact[0], texts[0], indent, level + 1);
    var body := Body(compact, close, 0, l);
    assert body[0] == compact[0][0];
    hide *;
    var text := Body(texts, close, indent, level);
    forall rest
      ensures Layout([open] + body + rest, indent, level) == [open] + text + Layout(rest, indent, level)
    {
      BracketStays(open, compact, texts, close, indent, l, level, rest);
    }
    LaysByRest([open] + body, [open] + text, indent, level);
  }

  lemma LaysByRest(compact: Text, text: Text, indent: nat, depth: nat)
    requires compact != [] && !Closes(compact[0])
    requires forall rest :: Layout(compact + rest, indent, depth) == text + Layout(rest, indent, depth)
    ensures Lays(compact, text, indent, depth)
  {
    hide Layout;
  }

  lemma BracketStays(open: Unit, compact: seq<Text>, texts: seq<Text>, close: Unit, indent: nat, l: nat, level: nat,
                     rest: Text)
    requires compact != [] && AllLay(compact, texts, indent, level + 1) && Opens(open) && Closes(close)
    requires var body := Body(compact, close, 0, l); body != [] && !Closes(body[0])
    ensures texts != []
    ensures Layout([open] + Body(compact, close, 0, l) + rest, indent, level)
            == [open] + Body(texts, close, indent, level) + Layout(rest, indent, level)
  {
    assert texts != [];
    hide *;
    var body := Body(compact, close, 0, l);
    RegroupBracket(open, body, rest);
    OpenLays(open, body + rest, indent, level);
    BodyLays(compact, texts, close, indent, l, level, rest);
    OpenedBody(open, Break(indent, level + 1), Layout(body + rest, indent, level + 1),
               Body(texts, close, indent, level), Layout(rest, indent, level));
  }

  lemma RegroupBracket(open: Unit, body: Text, rest: Text)
    requires body != []
    ensures [open] + body + rest == [open] + (body + rest) && body + rest != [] && (body + rest)[0] == body[0]
  {
  }

  lemma OpenedBody(open: Unit, before: Text, tail: Text, body: Text, end: Text)
    requires before + tail == body + end
    ensures [open] + before + tail == [open] + body + end
  {
    assert [open] + before + tail == [open] + (before + tail);
    assert [open] + (body + end) == [open] + body + end;
  }

  lemma ColonLays(rest: Text, indent: nat, depth: nat)
    ensures Layout([COLON] + rest, indent, depth)
            == (if indent == 0 then [COLON] else [COLON, SPACE]) + Layout(rest, indent, depth)
  {
    assert ([COLON] + rest)[1..] == rest;
    hide NewLine;
  }

  lemma PairLays(key: Text, compact: Text, text: Text, indent: nat, depth: nat)
    requires Lays(compact, text, indent, depth)
    ensures Lays(Pair(0, Entry(key, compact)), Pair(indent, Entry(key, text)), indent, depth)
  {
    assert Pair(0, Entry(key, compact))[0] == QUOTE;
    hide Quoted, Layout, Lays;
    forall rest
      ensures Layout(Pair(0, Entry(key, compact)) + rest, indent, depth)
              == Pair(indent, Entry(key, text)) + Layout(rest, indent, depth)
    {
      PairStays(key, compact, text, indent, depth, rest);
    }
    LaysByRest(Pair(0, Entry(key, compact)), Pair(indent, Entry(key, text)), indent, depth);
  }

  lemma PairStays(key: Text, compact: Text, text: Text, indent: nat, depth: nat, rest: Text)
    requires Lays(compact, text, indent, depth)
    ensures Layout(Pair(0, Entry(key, compact)) + rest, indent, depth)
            == Pair(indent, Entry(key, text)) + Layout(rest, indent, depth)
  {
    hide Quoted, Layout, Lays;
    RegroupPair(Quoted(key), [COLON], compact, rest);
    QuotedStays(key, [COLON] + (compact + rest), indent, depth);
    ColonLays(compact + rest, indent, depth);
    OneMore(compact, text, rest, indent, depth);
    RegroupPair(Quoted(key), if indent == 0 then [COLON] else [COLON, SPACE], text, Layout(rest, indent, depth));
  }

  lemma RegroupPair(key: Text, colon: Text, value: Text, rest: Text)
    ensures key + colon + value + rest == key + (colon + (value + rest))
  {
  }

  ghost predicate MembersLay(compact: seq<Entry<Text>>, texts: seq<Entry<Text>>, indent: nat, depth: nat) {
    |compact| == |texts|
    && forall i :: 0 <= i < |compact| ==>
         compact[i].key == texts[i].key && Lays(compact[i].value, texts[i].value, indent, depth)
  }

  lemma {:induction false} InsertLays(compact: seq<Entry<Text>>, texts: seq<Entry<Text>>, e: Entry<Text>,
                                      f: Entry<Text>, indent: nat, depth: nat)
    requires MembersLay(compact, texts, indent, depth) && e.key == f.key && Lays(e.value, f.value, indent, depth)
    ensures MembersLay(Insert(compact, e), Insert(texts, f), indent, depth)
  {
    hide Lays, Less;
    if compact != [] && Less(compact[0].key, e.key) {
      var c, t := compact[1..], texts[1..];
      InsertLays(c, t, e, f, indent, depth);
      assert Insert(compact, e) == [compact[0]] + Insert(c, e) && Insert(texts, f) == [texts[0]] + Insert(t, f);
      hide Insert;
    }
  }

  lemma {:induction false} SortLays(compact: seq<Entry<Text>>, texts: seq<Entry<Text>>, indent: nat, depth: nat)
    requires MembersLay(compact, texts, indent, depth)
    ensures MembersLay(Sort(compact), Sort(texts), indent, depth)
  {
    hide Lays, Insert;
    if compact != [] {
      SortLays(compact[1..], texts[1..], indent, depth);
      InsertLays(Sort(compact[1..]), Sort(texts[1..]), compact[0], texts[0], indent, depth);
    }
  }

  lemma {:induction false} PairsLay(compact: seq<Entry<Text>>, texts: seq<Entry<Text>>, indent: nat, depth: nat)
    requires MembersLay(compact, texts, indent, depth)
    ensures AllLay(Pairs(0, compact), Pairs(indent, texts), indent, depth)
    ensures |Pairs(0, compact)| == |compact|
  {
    hide Lays, Pair;
    if compact != [] {
      PairsLay(compact[1..], texts[1..], indent, depth);
      PairLays(compact[0].key, compact[0].value, texts[0].value, indent, depth);
      assert compact[0] == Entry(compact[0].key, compact[0].value) && texts[0] == Entry(texts[0].key, texts[0].value);
    }
  }

  // Values.

  /** Without indentation the level does not matter. */
  lemma {:induction false} LevelIsInvisible(v: Json, l: nat, m: nat)
    ensures Dumps(v, 0, l) == Dumps(v, 0, m)
    decreases v
  {
    hide Sort, Pairs, Join;
    match v {
      case Array(items) => ItemsAreLevel(items, l, m);
      case Object(entries) => MembersAreLevel(entries, l, m);
      case _ =>
    }
  }

  lemma {:induction false} ItemsAreLevel(items: seq<Json>, l: nat, m: nat)
    ensures DumpItems(items, 0, l) == DumpItems(items, 0, m)
    decreases items
  {
    hide Dumps;
    if items != [] {
      LevelIsInvisible(items[0], l, m);
      ItemsAreLevel(items[1..], l, m);
    }
  }

  lemma {:induction false} MembersAreLevel(entries: seq<Entry<Json>>, l: nat, m: nat)
    ensures DumpMembers(entries, 0, l) == DumpMembers(entries, 0, m)
    decreases entries
  {
    hide Dumps;
    if entries != [] {
      LevelIsInvisible(entries[0].value, l, m);
      MembersAreLevel(entries[1..], l, m);
    }
  }

  lemma {:induction false} ValueLays(v: Json, indent: nat, l: nat, level: nat)
    ensures Lays(Dumps(v, 0, l), Dumps(v, indent, level), indent, level)
    decreases v
  {
    hide Lays, Bracketed, Sort, Pairs, NumberText, Quoted, AllLay, MembersLay;
    match v {
      case Undefined => LiteralsLay(indent, level);
      case Null => LiteralsLay(indent, level);
      case Bool(_) => LiteralsLay(indent, level);
      case Number(n) => NumberLays(n, indent, level);
      case String(s) => StringLays(s, indent, level);
      case Array(items) =>
        EmptyLays(0x5b, 0x5d, indent, level);
        ItemsLay(items, indent, l, level + 1);
        ItemsAreLevel(items, level, level + 1);
        if items != [] {
          BracketedLays(0x5b, DumpItems(items, 0, l), DumpItems(items, indent, level + 1), 0x5d, indent, l, level);
        }
      case Object(entries) =>
        EmptyLays(0x7b, 0x7d, indent, level);
        DumpedMembersLay(entries, indent, l, level + 1);
        MembersAreLevel(entries, level, level + 1);
        SortLays(DumpMembers(entries, 0, l), DumpMembers(entries, indent, level + 1), indent, level + 1);
        ObjectLays(Sort(DumpMembers(entries, 0, l)), Sort(DumpMembers(entries, indent, level + 1)), indent, l, level);
    }
  }

  lemma ObjectLays(compact: seq<Entry<Text>>, texts: seq<Entry<Text>>, indent: nat, l: nat, level: nat)
    requires MembersLay(compact, texts, indent, level + 1)
    ensures compact == [] <==> texts == []
    ensures compact != [] ==>
              && Pairs(0, compact) != [] && Pairs(indent, texts) != []
              && Lays(Bracketed(0x7b, Pairs(0, compact), 0x7d, 0, l),
                      Bracketed(0x7b, Pairs(indent, texts), 0x7d, indent, level), indent, level)
  {
    hide Lays, Bracketed;
    PairsLay(compact, texts, indent, level + 1);
    if compact != [] {
      BracketedLays(0x7b, Pairs(0, compact), Pairs(indent, texts), 0x7d, indent, l, level);
    }
  }

  lemma {:induction false} ItemsLay(items: seq<Json>, indent: nat, l: nat, level: nat)
    ensures AllLay(DumpItems(items, 0, l), DumpItems(items, indent, level), indent, level)
    decreases items
  {
    hide Lays, Dumps;
    if items != [] {
      ValueLays(items[0], indent, l, level);
      ItemsLay(items[1..], indent, l, level);
    }
  }

  lemma {:induction false} DumpedMembersLay(entries: seq<Entry<Json>>, indent: nat, l: nat, level: nat)
    ensures MembersLay(DumpMembers(entries, 0, l), DumpMembers(entries, indent, level), indent, level)
    decreases entries
  {
    hide Lays, Dumps;
    if entries != [] {
      DumpedMembersLay(entries[1..], indent, l, level);
      ValueLays(entries[0].value, indent, l, level);
    }
  }

  /** The text is the compact text laid out; without indentation, it is compact. */
  lemma IndentationExactly(v: Json, indent: nat, level: nat)
    ensures Dumps(v, indent, level) == Layout(Dumps(v, 0, 0), indent, level)
  {
    ValueLays(v, indent, 0, level);
    hide Dumps;
    var compact := Dumps(v, 0, 0);
    assert compact + [] == compact;
    assert Layout([], indent, level) == [];
  }
}
