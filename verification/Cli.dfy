/** The argument parser of lib/cli.js. */
module Cli {

  import opened Wrappers

  datatype Value = Bool(b: bool) | Int(n: int) | Str(s: string) | List(items: seq<string>)

  datatype Kind = BoolKind | StrKind | IntKind | ListKind

  datatype Spec = Spec(kind: Kind, default: Option<Value>, defaultByCommand: map<string, Value>)

  type Specs = map<string, Spec>

  type Options = map<string, Value>

  datatype Error = Unrecognized(flag: string) | ExpectedValue(flag: string) | InvalidInt(flag: string, text: string)
    | ExpectedValues(flag: string)

  datatype Parsed = Ok(command: Option<string>, options: Options, positionals: seq<string>) | Err(error: Error)

  predicate Dashed(token: string) { token != "" && token[0] == '-' }

  // Values.

  predicate IsDigit(c: char) { '0' <= c <= '9' }

  /** What `Number.parseInt` skips in front: ECMAScript's white space and line terminators. */
  predicate IsBlank(c: char) {
    '\t' <= c <= '\r' || c == ' ' || c == '\U{00A0}' || c == '\U{1680}' || '\U{2000}' <= c <= '\U{200A}'
    || c == '\U{2028}' || c == '\U{2029}' || c == '\U{202F}' || c == '\U{205F}' || c == '\U{3000}' || c == '\U{FEFF}'
  }

  function LeadingDigits(s: string): string {
    if s != "" && IsDigit(s[0]) then [s[0]] + LeadingDigits(s[1..]) else ""
  }

  function Decimal(digits: string): int {
    if digits == "" then 0
    else Decimal(digits[..|digits| - 1]) * 10 + (digits[|digits| - 1] as int - '0' as int)
  }

  /** `Number.parseInt(text, 10)`: an optional sign and the digits after it; what follows is ignored. */
  function ParseInt(s: string): Option<int> {
    if s != "" && IsBlank(s[0]) then ParseInt(s[1..])
    else
      var signed := s != "" && (s[0] == '-' || s[0] == '+');
      var digits := LeadingDigits(if signed then s[1..] else s);
      if digits == "" then None else Some(if signed && s[0] == '-' then -Decimal(digits) else Decimal(digits))
  }

  /** `text.split(",")`. */
  function Split(s: string): seq<string> {
    if s == "" then [""]
    else
      var rest := Split(s[1..]);
      if s[0] == ',' then [""] + rest else if rest == [] then [[s[0]]] else [[s[0]] + rest[0]] + rest[1..]
  }

  function NonEmpty(parts: seq<string>): seq<string> {
    if parts == [] then [] else (if parts[0] == "" then [] else [parts[0]]) + NonEmpty(parts[1..])
  }

  function Items(values: seq<string>): seq<string> {
    if values == [] then [] else NonEmpty(Split(values[0])) + Items(values[1..])
  }

  // The parser.

  function DefaultFor(spec: Spec, leading: Option<string>): Option<Value> {
    if leading.Some? && leading.value in spec.defaultByCommand then Some(spec.defaultByCommand[leading.value])
    else spec.default
  }

  function Defaults(specs: Specs, leading: Option<string>): Options {
    map flag | flag in specs && DefaultFor(specs[flag], leading).Some? :: DefaultFor(specs[flag], leading).value
  }

  function Leading(argv: seq<string>): Option<string> {
    if argv != [] && argv[0] != "" && !Dashed(argv[0]) then Some(argv[0]) else None
  }

  /** The tokens before the next flag. */
  function Run(tokens: seq<string>): seq<string> {
    if tokens == [] || Dashed(tokens[0]) then [] else [tokens[0]] + Run(tokens[1..])
  }

  lemma {:induction false} RunIsPrefix(tokens: seq<string>)
    ensures |Run(tokens)| <= |tokens| && Run(tokens) == tokens[..|Run(tokens)|]
    ensures |Run(tokens)| < |tokens| ==> Dashed(tokens[|Run(tokens)|])
    ensures forall i :: 0 <= i < |Run(tokens)| ==> !Dashed(tokens[i])
  {
    if tokens != [] && !Dashed(tokens[0]) {
      RunIsPrefix(tokens[1..]);
    }
  }

  datatype Step = Next(options: Options, positionals: seq<string>, used: nat) | Fail(error: Error)

  /** One pass of the loop in front of `tokens`. */
  function StepOver(specs: Specs, tokens: seq<string>, options: Options, positionals: seq<string>): Step
    requires tokens != []
  {
    var token := tokens[0];
    if token !in specs then
      if Dashed(token) && token != "-" then Fail(Unrecognized(token)) else Next(options, positionals + [token], 1)
    else if specs[token].kind.BoolKind? then Next(options[token := Bool(true)], positionals, 1)
    else if |tokens| == 1 then Fail(ExpectedValue(token))
    else if specs[token].kind.IntKind? then
      var parsed := ParseInt(tokens[1]);
      if parsed.None? then Fail(InvalidInt(token, tokens[1]))
      else Next(options[token := Int(parsed.value)], positionals, 2)
    else if specs[token].kind.ListKind? then
      var values := Run(tokens[1..]);
      if values == [] then Fail(ExpectedValues(token))
      else Next(options[token := List(Items(values))], positionals, 1 + |values|)
    else Next(options[token := Str(tokens[1])], positionals, 2)
  }

  lemma StepUses(specs: Specs, tokens: seq<string>, options: Options, positionals: seq<string>)
    requires tokens != []
    ensures var step := StepOver(specs, tokens, options, positionals); step.Next? ==> 1 <= step.used <= |tokens|
  {
    RunIsPrefix(tokens[1..]);
  }

  function ParseFrom(specs: Specs, tokens: seq<string>, options: Options, positionals: seq<string>): Parsed
    decreases |tokens|
  {
    if tokens == [] then
      Ok(if positionals == [] then None else Some(positionals[0]), options,
         if positionals == [] then [] else positionals[1..])
    else
      StepUses(specs, tokens, options, positionals);
      match StepOver(specs, tokens, options, positionals)
      case Fail(error) => Err(error)
      case Next(options', positionals', used) => ParseFrom(specs, tokens[used..], options', positionals')
  }

  function Parse(specs: Specs, argv: seq<string>): Parsed {
    ParseFrom(specs, argv, Defaults(specs, Leading(argv)), [])
  }

  class ArgumentParser {
    var specs: Specs

    constructor ()
      ensures specs == map[]
    {
      specs := map[];
    }

    method AddOption(flag: string, spec: Spec)
      modifies this
      ensures specs == old(specs)[flag := spec]
    {
      specs := specs[flag := spec];
    }

    method ParseArguments(argv: seq<string>) returns (r: Parsed)
      ensures r == Parse(specs, argv)
    {
      hide Defaults, ParseInt, Items, Run, ParseFrom, Dashed;
      var options := Defaults(specs, Leading(argv));
      var positionals: seq<string> := [];
      var index := 0;
      assert argv[0..] == argv;
      while index < |argv|
        invariant index <= |argv|
        invariant ParseFrom(specs, argv[index..], options, positionals) == Parse(specs, argv)
        decreases |argv| - index
      {
        ParseStep(specs, argv, index, options, positionals);
        var token := argv[index];
        if token !in specs {
          if Dashed(token) && token != "-" {
            return Err(Unrecognized(token));
          }
          positionals := positionals + [token];
          index := index + 1;
          continue;
        }
        var spec := specs[token];
        if spec.kind.BoolKind? {
          options := options[token := Bool(true)];
          index := index + 1;
          continue;
        }
        if index + 1 == |argv| {
          return Err(ExpectedValue(token));
        }
        var value := argv[index + 1];
        if spec.kind.IntKind? {
          var parsed := ParseInt(value);
          if parsed.None? {
            return Err(InvalidInt(token, value));
          }
          options := options[token := Int(parsed.value)];
          index := index + 2;
          continue;
        }
        if spec.kind.ListKind? {
          var values := ValuesFrom(argv, index + 1);
          if |values| == 0 {
            return Err(ExpectedValues(token));
          }
          options := options[token := List(Items(values))];
          index := index + 1 + |values|;
          continue;
        }
        options := options[token := Str(value)];
        index := index + 2;
      }
      ParseDone(specs, argv, index, options, positionals);
      if |positionals| == 0 {
        return Ok(None, options, []);
      }
      return Ok(Some(positionals[0]), options, positionals[1..]);
    }

    method ValuesFrom(argv: seq<string>, first: nat) returns (values: seq<string>)
      requires first <= |argv|
      ensures values == Run(argv[first..])
    {
      values := [];
      var cursor := first;
      while cursor < |argv| && !Dashed(argv[cursor])
        invariant first <= cursor <= |argv|
        invariant Run(argv[first..]) == values + Run(argv[cursor..])
      {
        assert argv[cursor..][1..] == argv[cursor + 1..];
        assert values + ([argv[cursor]] + Run(argv[cursor + 1..])) == values + [argv[cursor]] + Run(argv[cursor + 1..]);
        values := values + [argv[cursor]];
        cursor := cursor + 1;
      }
      assert values + [] == values;
    }
  }

  lemma ParseStep(specs: Specs, argv: seq<string>, index: nat, options: Options, positionals: seq<string>)
    requires index < |argv|
    ensures argv[index..] != [] && argv[index..][0] == argv[index] && argv[index..][1..] == argv[index + 1..]
    ensures index + 1 < |argv| ==> argv[index..][1] == argv[index + 1]
    ensures var step := StepOver(specs, argv[index..], options, positionals);
            if step.Fail? then ParseFrom(specs, argv[index..], options, positionals) == Err(step.error)
            else 1 <= step.used <= |argv| - index
                 && ParseFrom(specs, argv[index..], options, positionals)
                    == ParseFrom(specs, argv[index + step.used..], step.options, step.positionals)
  {
    StepUses(specs, argv[index..], options, positionals);
    var step := StepOver(specs, argv[index..], options, positionals);
    if step.Next? {
      assert argv[index..][step.used..] == argv[index + step.used..];
    }
    hide StepOver;
  }

  lemma ParseDone(specs: Specs, argv: seq<string>, index: nat, options: Options, positionals: seq<string>)
    requires index == |argv|
    ensures ParseFrom(specs, argv[index..], options, positionals)
            == if positionals == [] then Ok(None, options, []) else Ok(Some(positionals[0]), options, positionals[1..])
  {
    assert argv[index..] == [];
    hide StepOver;
  }

  // Rendering: what a caller writes on the command line.

  function Digits(n: nat): string {
    if n < 10 then [('0' as int + n) as char] else Digits(n / 10) + [('0' as int + n % 10) as char]
  }

  function IntText(n: int): string {
    if n < 0 then "-" + Digits(-n) else Digits(n)
  }

  function Join(items: seq<string>): string {
    if items == [] then "" else if |items| == 1 then items[0] else items[0] + "," + Join(items[1..])
  }

  function JoinAll(groups: seq<seq<string>>): seq<string> {
    if groups == [] then [] else [Join(groups[0])] + JoinAll(groups[1..])
  }

  function Flatten(groups: seq<seq<string>>): seq<string> {
    if groups == [] then [] else groups[0] + Flatten(groups[1..])
  }

  /** One written option; a list comes in comma-separated groups. */
  datatype Written =
    | Switch(flag: string)
    | Number(flag: string, n: int)
    | Word(flag: string, s: string)
    | Several(flag: string, groups: seq<seq<string>>)
  {
    function Meant(): Value {
      match this
      case Switch(_) => Bool(true)
      case Number(_, n) => Int(n)
      case Word(_, s) => Str(s)
      case Several(_, groups) => List(Flatten(groups))
    }

    function Tokens(): seq<string> {
      [flag] + match this
               case Switch(_) => []
               case Number(_, n) => [IntText(n)]
               case Word(_, s) => [s]
               case Several(_, groups) => JoinAll(groups)
    }

    predicate Fits(specs: Specs) {
      Dashed(flag) && flag in specs &&
      match this
      case Switch(_) => specs[flag].kind.BoolKind?
      case Number(_, n) => specs[flag].kind.IntKind?
      case Word(_, s) => specs[flag].kind.StrKind?
      case Several(_, groups) => specs[flag].kind.ListKind? && groups != [] && forall g <- groups :: IsGroup(g)
    }
  }

  predicate IsItem(item: string) { item != "" && ',' !in item }

  predicate IsGroup(group: seq<string>) { group != [] && !Dashed(group[0]) && forall item <- group :: IsItem(item) }

  function TokensOf(written: seq<Written>): seq<string> {
    if written == [] then [] else written[0].Tokens() + TokensOf(written[1..])
  }

  predicate AllFit(specs: Specs, written: seq<Written>) { forall w <- written :: w.Fits(specs) }

  /** The options after the writings, later ones winning. */
  function Overridden(options: Options, written: seq<Written>): Options
    decreases written
  {
    if written == [] then options else Overridden(options[written[0].flag := written[0].Meant()], written[1..])
  }

  predicate IsCommand(specs: Specs, command: string) { command != "" && !Dashed(command) && command !in specs }

  lemma {:induction false} DigitsReadBack(n: nat)
    ensures Digits(n) != "" && IsDigit(Digits(n)[0]) && (forall c <- Digits(n) :: IsDigit(c)) && Decimal(Digits(n)) == n
  {
    if n >= 10 {
      DigitsReadBack(n / 10);
      assert Digits(n)[..|Digits(n)| - 1] == Digits(n / 10);
    } else {
      assert Digits(n)[..0] == "";
    }
  }

  lemma {:induction false} LeadingDigitsOfDigits(s: string)
    requires forall c <- s :: IsDigit(c)
    ensures LeadingDigits(s) == s
  {
    if s != "" {
      LeadingDigitsOfDigits(s[1..]);
    }
  }

  lemma IntReadsBack(n: int)
    ensures ParseInt(IntText(n)) == Some(n)
  {
    var digits := Digits(if n < 0 then -n else n);
    DigitsReadBack(if n < 0 then -n else n);
    LeadingDigitsOfDigits(digits);
    assert ("-" + digits)[1..] == digits;
    hide Digits, Decimal, LeadingDigits;
  }

  lemma {:induction false} SplitOfItem(item: string)
    requires ',' !in item
    ensures Split(item) == [item]
  {
    if item != "" {
      assert item[0] in item;
      assert forall c :: c in item[1..] ==> c in item;
      SplitOfItem(item[1..]);
      assert [item[0]] + item[1..] == item;
    }
  }

  lemma {:induction false} SplitAtComma(item: string, rest: string)
    requires ',' !in item
    ensures Split(item + "," + rest) == [item] + Split(rest)
  {
    var s := item + "," + rest;
    if item == "" {
      assert s[1..] == rest;
      assert s[0] == ',';
    } else {
      assert item[0] in item;
      assert forall c :: c in item[1..] ==> c in item;
      SplitAtComma(item[1..], rest);
      assert s[0] == item[0] && s[1..] == item[1..] + "," + rest;
      assert [item[0]] + item[1..] == item;
    }
  }

  lemma {:induction false} JoinedSplits(group: seq<string>)
    requires group != [] && forall item <- group :: IsItem(item)
    ensures Split(Join(group)) == group && NonEmpty(group) == group
  {
    assert group[0] in group && IsItem(group[0]);
    if |group| == 1 {
      SplitOfItem(group[0]);
      assert group == [group[0]];
    } else {
      SplitAtComma(group[0], Join(group[1..]));
      JoinedSplits(group[1..]);
    }
  }

  lemma GroupIsNotDashed(group: seq<string>)
    requires IsGroup(group)
    ensures !Dashed(Join(group))
  {
    assert IsItem(group[0]);
  }

  lemma {:induction false} GroupsReadBack(groups: seq<seq<string>>)
    requires forall g <- groups :: IsGroup(g)
    ensures Items(JoinAll(groups)) == Flatten(groups)
    ensures forall token <- JoinAll(groups) :: !Dashed(token)
  {
    if groups != [] {
      GroupsReadBack(groups[1..]);
      assert groups[0] in groups && IsGroup(groups[0]);
      JoinedSplits(groups[0]);
      GroupIsNotDashed(groups[0]);
      assert JoinAll(groups)[1..] == JoinAll(groups[1..]);
    }
    hide Join, Split, NonEmpty;
  }

  lemma {:induction false} RunOfValues(values: seq<string>, tail: seq<string>)
    requires forall token <- values :: !Dashed(token)
    requires tail == [] || Dashed(tail[0])
    ensures Run(values + tail) == values
  {
    if values == [] {
      assert values + tail == tail;
    } else {
      RunOfValues(values[1..], tail);
      assert (values + tail)[1..] == values[1..] + tail;
    }
  }

  lemma StepOverWritten(specs: Specs, w: Written, tail: seq<string>, options: Options, positionals: seq<string>)
    requires w.Fits(specs)
    requires w.Several? ==> tail == [] || Dashed(tail[0])
    ensures StepOver(specs, w.Tokens() + tail, options, positionals)
            == Next(options[w.flag := w.Meant()], positionals, |w.Tokens()|)
  {
    hide StepOver;
    match w
    case Switch(flag) => StepOverSwitch(specs, flag, tail, options, positionals);
    case Number(flag, n) => StepOverNumber(specs, flag, n, tail, options, positionals);
    case Word(flag, s) => StepOverWord(specs, flag, s, tail, options, positionals);
    case Several(flag, groups) => StepOverSeveral(specs, flag, groups, tail, options, positionals);
  }

  lemma StepOverSwitch(specs: Specs, flag: string, tail: seq<string>, options: Options, positionals: seq<string>)
    requires flag in specs && specs[flag].kind.BoolKind?
    ensures StepOver(specs, ([flag] + []) + tail, options, positionals)
            == Next(options[flag := Bool(true)], positionals, 1)
  {
    hide ParseInt, Run, Items;
    var tokens := ([flag] + []) + tail;
    assert tokens[0] == flag;
  }

  lemma StepOverNumber(specs: Specs, flag: string, n: int, tail: seq<string>, options: Options,
                       positionals: seq<string>)
    requires flag in specs && specs[flag].kind.IntKind?
    ensures StepOver(specs, ([flag] + [IntText(n)]) + tail, options, positionals)
            == Next(options[flag := Int(n)], positionals, 2)
  {
    hide ParseInt, IntText, Run, Items;
    IntReadsBack(n);
    var tokens := ([flag] + [IntText(n)]) + tail;
    assert tokens[0] == flag && tokens[1] == IntText(n) && |tokens| > 1;
  }

  lemma StepOverWord(specs: Specs, flag: string, s: string, tail: seq<string>, options: Options,
                     positionals: seq<string>)
    requires flag in specs && specs[flag].kind.StrKind?
    ensures StepOver(specs, ([flag] + [s]) + tail, options, positionals)
            == Next(options[flag := Str(s)], positionals, 2)
  {
    hide ParseInt, Run, Items;
    var tokens := ([flag] + [s]) + tail;
    assert tokens[0] == flag && tokens[1] == s && |tokens| > 1;
  }

  lemma StepOverSeveral(specs: Specs, flag: string, groups: seq<seq<string>>, tail: seq<string>, options: Options,
                        positionals: seq<string>)
    requires flag in specs && specs[flag].kind.ListKind?
    requires groups != [] && forall g <- groups :: IsGroup(g)
    requires tail == [] || Dashed(tail[0])
    ensures StepOver(specs, ([flag] + JoinAll(groups)) + tail, options, positionals)
            == Next(options[flag := List(Flatten(groups))], positionals, |[flag] + JoinAll(groups)|)
  {
    hide ParseInt, Run, Items, Flatten, IsGroup, StepOver, Join, Dashed;
    var values := JoinAll(groups);
    var tokens := ([flag] + values) + tail;
    GroupsReadBack(groups);
    RunOfValues(values, tail);
    assert |values| > 0;
    hide JoinAll;
    TakeFirst(flag, values, tail);
    StepOverList(specs, tokens, options, positionals);
  }

  lemma TakeFirst<T>(x: T, s: seq<T>, t: seq<T>)
    ensures ([x] + s + t)[0] == x && ([x] + s + t)[1..] == s + t
  {
  }

  lemma Regroup<T>(a: seq<T>, b: seq<T>, c: seq<T>)
    ensures (a + b) + c == a + (b + c)
  {
  }

  lemma StepOverList(specs: Specs, tokens: seq<string>, options: Options, positionals: seq<string>)
    requires |tokens| > 1 && tokens[0] in specs && specs[tokens[0]].kind.ListKind? && Run(tokens[1..]) != []
    ensures StepOver(specs, tokens, options, positionals)
            == Next(options[tokens[0] := List(Items(Run(tokens[1..])))], positionals, 1 + |Run(tokens[1..])|)
  {
    hide ParseInt, Run, Items, Dashed;
  }

  lemma ParseWritten(specs: Specs, w: Written, tail: seq<string>, options: Options, positionals: seq<string>)
    requires w.Fits(specs)
    requires w.Several? ==> tail == [] || Dashed(tail[0])
    ensures ParseFrom(specs, w.Tokens() + tail, options, positionals)
            == ParseFrom(specs, tail, options[w.flag := w.Meant()], positionals)
  {
    hide StepOver, Dashed, Written.Fits;
    StepOverWritten(specs, w, tail, options, positionals);
    var tokens := w.Tokens() + tail;
    hide Written.Tokens, Written.Meant;
    assert tokens[|w.Tokens()|..] == tail;
    assert w.Tokens() != [];
  }

  lemma TailIsFlag(specs: Specs, written: seq<Written>, tail: seq<string>)
    requires AllFit(specs, written) && written != []
    ensures TokensOf(written) + tail == written[0].Tokens() + (TokensOf(written[1..]) + tail)
    ensures var more := TokensOf(written[1..]) + tail;
            if written[1..] == [] then more == tail else more != [] && Dashed(more[0])
  {
    hide Written.Tokens, Dashed;
    Regroup(written[0].Tokens(), TokensOf(written[1..]), tail);
    if written[1..] == [] {
      EmptyFirst(tail);
    } else {
      TokensStart(specs, written[1..], tail);
    }
  }

  lemma EmptyFirst<T>(s: seq<T>)
    ensures [] + s == s
  {
  }

  lemma TokensStart(specs: Specs, written: seq<Written>, tail: seq<string>)
    requires AllFit(specs, written) && written != []
    ensures var tokens := TokensOf(written) + tail; tokens != [] && Dashed(tokens[0])
  {
    hide Dashed;
    assert written[0].Fits(specs);
    assert TokensOf(written)[0] == written[0].flag;
  }

  lemma {:induction false} WrittenReadBack(specs: Specs, written: seq<Written>, tail: seq<string>, options: Options,
                                           positionals: seq<string>)
    requires AllFit(specs, written)
    requires tail == [] || Dashed(tail[0]) || written == [] || !written[|written| - 1].Several?
    ensures ParseFrom(specs, TokensOf(written) + tail, options, positionals)
            == ParseFrom(specs, tail, Overridden(options, written), positionals)
  {
    if written == [] {
      assert TokensOf(written) + tail == tail;
    } else {
      var w, more := written[0], TokensOf(written[1..]) + tail;
      TailIsFlag(specs, written, tail);
      assert w.Fits(specs);
      ParseWritten(specs, w, more, options, positionals);
      WrittenReadBack(specs, written[1..], tail, options[w.flag := w.Meant()], positionals);
    }
    hide ParseFrom, TokensOf, Written.Tokens, Written.Meant, Written.Fits;
  }

  lemma StepOverCommand(specs: Specs, command: string, tokens: seq<string>, options: Options)
    requires IsCommand(specs, command) && tokens != [] && tokens[0] == command
    ensures StepOver(specs, tokens, options, []) == Next(options, [] + [command], 1)
  {
    hide Dashed, ParseInt, Items, Run;
  }

  lemma CommandReadBack(specs: Specs, command: string, after: seq<Written>, options: Options)
    requires IsCommand(specs, command) && AllFit(specs, after)
    ensures ParseFrom(specs, [command] + TokensOf(after), options, [])
            == Ok(Some(command), Overridden(options, after), [])
  {
    hide TokensOf, Overridden, Dashed, StepOver;
    var tokens := [command] + TokensOf(after);
    assert tokens[1..] == TokensOf(after) + [];
    EmptyFirst([command]);
    StepOverCommand(specs, command, tokens, options);
    WrittenReadBack(specs, after, [], options, [command]);
  }

  lemma {:induction false} TokensInTurn(first: seq<Written>, second: seq<Written>)
    ensures TokensOf(first + second) == TokensOf(first) + TokensOf(second)
  {
    if first == [] {
      EmptyFirst(second);
      EmptyFirst(TokensOf(second));
    } else {
      TokensInTurn(first[1..], second);
      TailOfConcat(first, second);
      Regroup(first[0].Tokens(), TokensOf(first[1..]), TokensOf(second));
    }
    hide Written.Tokens;
  }

  lemma TailOfConcat<T>(first: seq<T>, second: seq<T>)
    requires first != []
    ensures (first + second)[0] == first[0] && (first + second)[1..] == first[1..] + second
  {
  }

  lemma {:induction false} ItemsInTurn(first: seq<string>, second: seq<string>)
    ensures Items(first + second) == Items(first) + Items(second)
  {
    if first == [] {
      EmptyFirst(second);
      EmptyFirst(Items(second));
    } else {
      ItemsInTurn(first[1..], second);
      TailOfConcat(first, second);
      Regroup(NonEmpty(Split(first[0])), Items(first[1..]), Items(second));
    }
    hide Split, NonEmpty;
  }

  /** A list also takes a command that follows it. */
  lemma StepOverSwallowed(specs: Specs, flag: string, groups: seq<seq<string>>, command: string, rest: seq<string>,
                          options: Options, positionals: seq<string>)
    requires Several(flag, groups).Fits(specs) && !Dashed(command)
    requires rest == [] || Dashed(rest[0])
    ensures StepOver(specs, ([flag] + (JoinAll(groups) + [command])) + rest, options, positionals)
            == Next(options[flag := List(Flatten(groups) + Items([command]))], positionals, 2 + |JoinAll(groups)|)
  {
    hide ParseInt, Run, Items, Flatten, StepOver, Join, Dashed;
    var values := JoinAll(groups) + [command];
    GroupsReadBack(groups);
    hide JoinAll;
    ItemsInTurn(JoinAll(groups), [command]);
    assert forall token :: token in values ==> token in JoinAll(groups) || token == command;
    RunOfValues(values, rest);
    TakeFirst(flag, values, rest);
    StepOverList(specs, ([flag] + values) + rest, options, positionals);
  }

  lemma ParseSwallowed(specs: Specs, w: Written, command: string, after: seq<Written>, options: Options)
    requires w.Several? && w.Fits(specs) && !Dashed(command) && AllFit(specs, after)
    ensures ParseFrom(specs, w.Tokens() + ([command] + TokensOf(after)), options, [])
            == Ok(None, Overridden(options[w.flag := List(Flatten(w.groups) + Items([command]))], after), [])
  {
    hide StepOver, Dashed, TokensOf, Overridden, Items, Flatten, JoinAll;
    var rest := TokensOf(after);
    var tokens := ([w.flag] + (JoinAll(w.groups) + [command])) + rest;
    SwallowedTokens(w.flag, JoinAll(w.groups), command, rest);
    RestIsFlag(specs, after);
    StepOverSwallowed(specs, w.flag, w.groups, command, rest, options, []);
    WrittenReadBack(specs, after, [], options[w.flag := List(Flatten(w.groups) + Items([command]))], []);
  }

  lemma SwallowedTokens<T>(flag: T, values: seq<T>, command: T, rest: seq<T>)
    ensures ([flag] + values) + ([command] + rest) == ([flag] + (values + [command])) + rest
    ensures (([flag] + (values + [command])) + rest)[2 + |values|..] == rest == rest + []
  {
  }

  lemma RestIsFlag(specs: Specs, after: seq<Written>)
    requires AllFit(specs, after)
    ensures TokensOf(after) == [] || Dashed(TokensOf(after)[0])
  {
    hide Dashed;
    if after != [] {
      TokensStart(specs, after, []);
    }
  }

  predicate TakesNext(before: seq<Written>) { before != [] && before[|before| - 1].Several? }

  /** The option values when the last of `before`, a list, takes the command too. */
  function Swallowing(options: Options, before: seq<Written>, command: string): Options
    requires TakesNext(before)
  {
    var last := before[|before| - 1];
    Overridden(options, before)[last.flag := List(Flatten(last.groups) + Items([command]))]
  }

  /** A command and written options come back as the command, its defaults, and exactly the writings over them: the
      command's own defaults where it comes first, the general ones elsewhere.  Only a list directly in front of the
      command takes it, with the items that its commas separate as further values. */
  lemma ArgumentsReadBack(specs: Specs, before: seq<Written>, command: string, after: seq<Written>)
    requires IsCommand(specs, command) && AllFit(specs, before) && AllFit(specs, after)
    ensures Parse(specs, TokensOf(before) + [command] + TokensOf(after))
            == if TakesNext(before) then
                 Ok(None, Overridden(Swallowing(Defaults(specs, None), before, command), after), [])
               else
                 Ok(Some(command),
                    Overridden(Defaults(specs, if before == [] then Some(command) else None), before + after), [])
  {
    var tail := [command] + TokensOf(after);
    var argv := TokensOf(before) + tail;
    hide Defaults, Overridden, ParseFrom, Dashed, TokensOf, Items, Flatten;
    Regroup(TokensOf(before), [command], TokensOf(after));
    LeadingOfRendering(specs, before, command, TokensOf(after));
    var options := Defaults(specs, if before == [] then Some(command) else None);
    if TakesNext(before) {
      SwallowedReadBack(specs, before, command, after, options);
    } else {
      WrittenReadBack(specs, before, tail, options, []);
      CommandReadBack(specs, command, after, Overridden(options, before));
      OverriddenInTurn(options, before, after);
    }
  }

  lemma SwallowedReadBack(specs: Specs, before: seq<Written>, command: string, after: seq<Written>, options: Options)
    requires !Dashed(command) && AllFit(specs, before) && AllFit(specs, after) && TakesNext(before)
    ensures ParseFrom(specs, TokensOf(before) + ([command] + TokensOf(after)), options, [])
            == Ok(None, Overridden(Swallowing(options, before, command), after), [])
  {
    var init, last := before[..|before| - 1], before[|before| - 1];
    var rest := [command] + TokensOf(after);
    assert before == init + [last];
    TokensInTurn(init, [last]);
    LastTokens(last);
    Regroup(TokensOf(init), last.Tokens(), rest);
    OverriddenInTurn(options, init, [last]);
    OneOverridden(Overridden(options, init), last, List(Flatten(last.groups) + Items([command])));
    assert last.Fits(specs) && (last.Tokens() + rest)[0] == last.flag;
    hide Overridden, ParseFrom, Dashed, TokensOf, Written.Tokens, Items, Flatten;
    WrittenReadBack(specs, init, last.Tokens() + rest, options, []);
    ParseSwallowed(specs, last, command, after, Overridden(options, init));
  }

  lemma LastTokens(last: Written)
    ensures TokensOf([last]) == last.Tokens()
  {
    assert TokensOf([last][1..]) == [];
    hide Written.Tokens;
  }

  lemma OneOverridden(options: Options, last: Written, value: Value)
    ensures Overridden(options, [last])[last.flag := value] == options[last.flag := value]
  {
    assert Overridden(options[last.flag := last.Meant()], [last][1..]) == options[last.flag := last.Meant()];
  }

  /** So the command comes back exactly if no list stands directly in front of it. */
  lemma CommandComesBackExactly(specs: Specs, before: seq<Written>, command: string, after: seq<Written>)
    requires IsCommand(specs, command) && AllFit(specs, before) && AllFit(specs, after)
    ensures var parsed := Parse(specs, TokensOf(before) + [command] + TokensOf(after));
            parsed.Ok? && (parsed.command == Some(command) <==> !TakesNext(before))
  {
    ArgumentsReadBack(specs, before, command, after);
    hide *;
  }

  lemma LeadingOfRendering(specs: Specs, before: seq<Written>, command: string, rest: seq<string>)
    requires IsCommand(specs, command) && AllFit(specs, before)
    ensures Leading(TokensOf(before) + ([command] + rest)) == if before == [] then Some(command) else None
  {
    hide Dashed;
    if before == [] {
      EmptyFirst([command] + rest);
    } else {
      TokensStart(specs, before, [command] + rest);
    }
  }

  lemma {:induction false} OverriddenInTurn(options: Options, first: seq<Written>, second: seq<Written>)
    ensures Overridden(Overridden(options, first), second) == Overridden(options, first + second)
    decreases first
  {
    if first == [] {
      assert first + second == second;
    } else {
      OverriddenInTurn(options[first[0].flag := first[0].Meant()], first[1..], second);
      assert (first + second)[1..] == first[1..] + second;
    }
  }

  // What values are read as.

  /** The parts between the commas: none holds one, and with the commas they are the text. */
  lemma {:induction false} SplitExactly(s: string)
    ensures Split(s) != [] && Join(Split(s)) == s && forall part <- Split(s) :: ',' !in part
  {
    if s != "" {
      var rest := Split(s[1..]);
      SplitExactly(s[1..]);
      assert s == [s[0]] + s[1..];
      if s[0] == ',' {
        assert ([""] + rest)[1..] == rest;
        assert "" + "," + s[1..] == s;
      } else {
        JoinHead(s[0], rest);
        assert ',' !in rest[0];
      }
    }
  }

  lemma JoinHead(c: char, rest: seq<string>)
    requires rest != []
    ensures Join([[c] + rest[0]] + rest[1..]) == [c] + Join(rest)
  {
    var parts := [[c] + rest[0]] + rest[1..];
    assert parts[0] == [c] + rest[0] && parts[1..] == rest[1..] && |parts| == |rest|;
    if |rest| > 1 {
      assert [c] + rest[0] + "," + Join(rest[1..]) == [c] + (rest[0] + "," + Join(rest[1..]));
    }
  }

  /** Some value has the item between its commas. */
  ghost predicate Holds(values: seq<string>, item: string) {
    exists value :: value in values && item in Split(value)
  }

  /** A list holds the parts of its values without the empty ones. */
  lemma {:induction false} ItemsExactly(values: seq<string>, item: string)
    ensures item in Items(values) <==> item != "" && Holds(values, item)
  {
    if values != [] {
      ItemsExactly(values[1..], item);
      NonEmptyExactly(Split(values[0]), item);
      HoldsInTurn(values, item);
      hide Holds;
    }
    hide Split, NonEmpty;
  }

  lemma HoldsInTurn(values: seq<string>, item: string)
    requires values != []
    ensures Holds(values, item) <==> item in Split(values[0]) || Holds(values[1..], item)
  {
    hide Split;
    assert values == [values[0]] + values[1..];
    assert forall value :: value in values <==> value == values[0] || value in values[1..];
  }

  lemma {:induction false} NonEmptyExactly(parts: seq<string>, item: string)
    ensures item in NonEmpty(parts) <==> item != "" && item in parts
  {
    if parts != [] {
      NonEmptyExactly(parts[1..], item);
      assert parts == [parts[0]] + parts[1..];
    }
  }

  /** Blanks in front of an integer, a plus sign, and whatever follows its digits do not matter. */
  lemma {:induction false} IntExactly(blanks: string, n: int, tail: string)
    requires (forall c <- blanks :: IsBlank(c)) && (tail == "" || !IsDigit(tail[0]))
    ensures ParseInt(blanks + (IntText(n) + tail)) == Some(n)
    ensures n >= 0 ==> ParseInt(blanks + ("+" + IntText(n) + tail)) == Some(n)
    decreases |blanks|
  {
    if blanks == "" {
      EmptyFirst(IntText(n) + tail);
      EmptyFirst("+" + IntText(n) + tail);
      IntWithTail(n, tail);
    } else {
      IntExactly(blanks[1..], n, tail);
      assert IsBlank(blanks[0]);
      TailOfConcat(blanks, IntText(n) + tail);
      TailOfConcat(blanks, "+" + IntText(n) + tail);
    }
    hide IntText, IsBlank;
  }

  lemma IntWithTail(n: int, tail: string)
    requires tail == "" || !IsDigit(tail[0])
    ensures ParseInt(IntText(n) + tail) == Some(n)
    ensures n >= 0 ==> ParseInt("+" + IntText(n) + tail) == Some(n)
  {
    var digits := Digits(if n < 0 then -n else n);
    DigitsReadBack(if n < 0 then -n else n);
    DigitsWithTail(digits, tail);
    hide Digits, Decimal, LeadingDigits, ParseInt;
    if n < 0 {
      SignedInt('-', digits, tail);
    } else {
      SignedInt('+', digits, tail);
      UnsignedInt(digits, tail);
    }
  }

  lemma SignedInt(sign: char, digits: string, tail: string)
    requires (sign == '-' || sign == '+') && digits != "" && LeadingDigits(digits + tail) == digits
    ensures ParseInt([sign] + digits + tail) == Some(if sign == '-' then -Decimal(digits) else Decimal(digits))
  {
    var s := [sign] + digits + tail;
    assert s[0] == sign && s[1..] == digits + tail;
    hide Decimal, LeadingDigits;
  }

  lemma UnsignedInt(digits: string, tail: string)
    requires digits != "" && IsDigit(digits[0]) && LeadingDigits(digits + tail) == digits
    ensures ParseInt(digits + tail) == Some(Decimal(digits))
  {
    assert (digits + tail)[0] == digits[0];
    hide Decimal, LeadingDigits;
  }

  lemma {:induction false} DigitsWithTail(digits: string, tail: string)
    requires (forall c <- digits :: IsDigit(c)) && (tail == "" || !IsDigit(tail[0]))
    ensures LeadingDigits(digits + tail) == digits
  {
    if digits == "" {
      EmptyFirst(tail);
    } else {
      DigitsWithTail(digits[1..], tail);
      TailOfConcat(digits, tail);
    }
  }

  // What is refused, and what is left over.

  /** Behind written options, a token with a dash that declares nothing is refused, and so is a flag without a value of
      its kind. */
  lemma RefusedExactly(specs: Specs, written: seq<Written>, token: string, rest: seq<string>, options: Options,
                       positionals: seq<string>)
    requires AllFit(specs, written) && Dashed(token) && token != "-"
    ensures var parsed := ParseFrom(specs, TokensOf(written) + ([token] + rest), options, positionals);
            && (token !in specs ==> parsed == Err(Unrecognized(token)))
            && (token in specs ==>
                  var kind := specs[token].kind;
                  && (kind != BoolKind && rest == [] ==> parsed == Err(ExpectedValue(token)))
                  && (kind == IntKind && rest != [] && ParseInt(rest[0]).None? ==>
                        parsed == Err(InvalidInt(token, rest[0])))
                  && (kind == ListKind && rest != [] && Dashed(rest[0]) ==> parsed == Err(ExpectedValues(token))))
  {
    var tail := [token] + rest;
    assert tail[0] == token && tail[1..] == rest && (rest != [] ==> tail[1] == rest[0]);
    WrittenReadBack(specs, written, tail, options, positionals);
    hide Dashed, ParseInt, Items, TokensOf, Overridden, Written.Fits;
  }

  predicate IsWord(specs: Specs, word: string) { word !in specs && (word == "-" || !Dashed(word)) }

  /** Words that are no flags are the command and, in order, the rest; a single dash is such a word. */
  lemma WordsReadBack(specs: Specs, words: seq<string>)
    requires words != [] && forall word <- words :: IsWord(specs, word)
    ensures Parse(specs, words) == Ok(Some(words[0]), Defaults(specs, Leading(words)), words[1..])
  {
    hide Defaults, Leading, IsWord;
    WordsAreTaken(specs, words, Defaults(specs, Leading(words)), []);
    EmptyFirst(words);
  }

  lemma {:induction false} WordsAreTaken(specs: Specs, words: seq<string>, options: Options, positionals: seq<string>)
    requires positionals + words != [] && forall word <- words :: IsWord(specs, word)
    ensures var all := positionals + words;
            ParseFrom(specs, words, options, positionals) == Ok(Some(all[0]), options, all[1..])
  {
    if words == [] {
      assert positionals + words == positionals;
    } else {
      assert IsWord(specs, words[0]);
      StepOverFree(specs, words, options, positionals);
      Regroup(positionals, [words[0]], words[1..]);
      assert [words[0]] + words[1..] == words;
      WordsAreTaken(specs, words[1..], options, positionals + [words[0]]);
    }
    hide StepOver, IsWord;
  }

  lemma StepOverFree(specs: Specs, words: seq<string>, options: Options, positionals: seq<string>)
    requires words != [] && IsWord(specs, words[0])
    ensures StepOver(specs, words, options, positionals) == Next(options, positionals + [words[0]], 1)
  {
    hide Dashed, ParseInt, Items, Run;
  }

  /** A flag starts with the command's own default, else with the general one, if it has one. */
  lemma DefaultsExactly(specs: Specs, leading: Option<string>, flag: string)
    ensures Lookup(Defaults(specs, leading), flag)
            == if flag !in specs then None
               else if leading.Some? && leading.value in specs[flag].defaultByCommand then
                 Some(specs[flag].defaultByCommand[leading.value])
               else specs[flag].default
  {
  }

  // Order.

  /** The last writing of `flag`. */
  function LastOf(written: seq<Written>, flag: string): Option<Value> {
    if written == [] then None
    else if written[|written| - 1].flag == flag then Some(written[|written| - 1].Meant())
    else LastOf(written[..|written| - 1], flag)
  }

  function Lookup(options: Options, flag: string): Option<Value> {
    if flag in options then Some(options[flag]) else None
  }

  /** Every option is its last writing, or what it was. */
  lemma {:induction false} LastWritingWins(options: Options, written: seq<Written>, flag: string)
    ensures Lookup(Overridden(options, written), flag)
            == if LastOf(written, flag).Some? then LastOf(written, flag) else Lookup(options, flag)
  {
    if written != [] {
      var init, last := written[..|written| - 1], written[|written| - 1];
      assert init + [last] == written;
      OverriddenInTurn(options, init, [last]);
      LastWritingWins(options, init, flag);
      assert Overridden(Overridden(options, init), [last]) == Overridden(options, init)[last.flag := last.Meant()];
    }
  }

  predicate DistinctFlags(written: seq<Written>) {
    forall i, j | 0 <= i < j < |written| :: written[i].flag != written[j].flag
  }

  lemma {:induction false} LastOfDistinct(written: seq<Written>, i: nat)
    requires DistinctFlags(written) && i < |written|
    ensures LastOf(written, written[i].flag) == Some(written[i].Meant())
  {
    if i < |written| - 1 {
      LastOfDistinct(written[..|written| - 1], i);
    }
  }

  predicate IsWritten(written: seq<Written>, flag: string) { exists w :: w in written && w.flag == flag }

  lemma {:induction false} WrittenHasLast(written: seq<Written>, flag: string)
    ensures LastOf(written, flag).Some? <==> IsWritten(written, flag)
  {
    if written != [] {
      var init, last := written[..|written| - 1], written[|written| - 1];
      assert written == init + [last];
      WrittenHasLast(init, flag);
    }
  }

  lemma SameLast(one: seq<Written>, other: seq<Written>, flag: string)
    requires DistinctFlags(one) && DistinctFlags(other)
    requires forall w :: w in one <==> w in other
    ensures LastOf(one, flag) == LastOf(other, flag)
  {
    WrittenHasLast(one, flag);
    WrittenHasLast(other, flag);
    if w :| w in one && w.flag == flag {
      var i :| 0 <= i < |one| && one[i] == w;
      var j :| 0 <= j < |other| && other[j] == w;
      LastOfDistinct(one, i);
      LastOfDistinct(other, j);
    }
    hide LastOf;
  }

  /** With every flag written once, the order does not matter. */
  lemma OrderIsInvisible(specs: Specs, command: string, one: seq<Written>, other: seq<Written>)
    requires IsCommand(specs, command) && AllFit(specs, one)
    requires DistinctFlags(one) && DistinctFlags(other) && forall w :: w in one <==> w in other
    ensures Parse(specs, [command] + TokensOf(one)) == Parse(specs, [command] + TokensOf(other))
  {
    var options := Defaults(specs, Some(command));
    forall flag ensures Lookup(Overridden(options, one), flag) == Lookup(Overridden(options, other), flag) {
      SameLast(one, other, flag);
      LastWritingWins(options, one, flag);
      LastWritingWins(options, other, flag);
    }
    SameLookups(Overridden(options, one), Overridden(options, other));
    AfterCommand(specs, command, one);
    AfterCommand(specs, command, other);
    hide Parse, Defaults, Overridden, TokensOf, LastOf, Lookup;
  }

  lemma AfterCommand(specs: Specs, command: string, after: seq<Written>)
    requires IsCommand(specs, command) && AllFit(specs, after)
    ensures Parse(specs, [command] + TokensOf(after))
            == Ok(Some(command), Overridden(Defaults(specs, Some(command)), after), [])
  {
    hide Parse, Defaults, Overridden, IsCommand;
    ArgumentsReadBack(specs, [], command, after);
    assert TokensOf([]) == [];
    EmptyFirst([command]);
    EmptyFirst(after);
    hide TokensOf;
  }

  lemma SameLookups(one: Options, other: Options)
    requires forall flag :: Lookup(one, flag) == Lookup(other, flag)
    ensures one == other
  {
    forall flag ensures flag in one <==> flag in other {
      assert Lookup(one, flag) == Lookup(other, flag);
    }
    forall flag | flag in one ensures one[flag] == other[flag] {
      assert Lookup(one, flag) == Lookup(other, flag);
    }
  }

  /** Every flag whose default for the command differs from the general one is written. */
  predicate OwnDefaultsWritten(specs: Specs, command: string, written: seq<Written>) {
    forall flag :: flag in specs && DefaultFor(specs[flag], Some(command)) != DefaultFor(specs[flag], None) ==>
                     IsWritten(written, flag)
  }

  lemma DefaultLookup(specs: Specs, leading: Option<string>, flag: string)
    ensures Lookup(Defaults(specs, leading), flag)
            == if flag in specs then DefaultFor(specs[flag], leading) else None
  {
  }

  lemma SameOptionsExactly(specs: Specs, command: string, written: seq<Written>)
    ensures Overridden(Defaults(specs, None), written) == Overridden(Defaults(specs, Some(command)), written)
       <==> OwnDefaultsWritten(specs, command, written)
  {
    var general, own := Defaults(specs, None), Defaults(specs, Some(command));
    hide Defaults, Overridden, DefaultFor, LastOf, IsWritten, Lookup;
    forall flag
      ensures Lookup(Overridden(general, written), flag) == Lookup(Overridden(own, written), flag)
         <==> IsWritten(written, flag) || flag !in specs
              || DefaultFor(specs[flag], Some(command)) == DefaultFor(specs[flag], None)
    {
      LastWritingWins(general, written, flag);
      LastWritingWins(own, written, flag);
      WrittenHasLast(written, flag);
      DefaultLookup(specs, None, flag);
      DefaultLookup(specs, Some(command), flag);
    }
    if OwnDefaultsWritten(specs, command, written) {
      SameLookups(Overridden(general, written), Overridden(own, written));
    }
  }

  /** Command, own defaults and writings all come back exactly if the command comes first, or no list stands directly
      in front of it and every flag whose default for the command differs from the general one is written. */
  lemma OwnDefaultsApplyExactly(specs: Specs, before: seq<Written>, command: string, after: seq<Written>)
    requires IsCommand(specs, command) && AllFit(specs, before) && AllFit(specs, after)
    ensures Parse(specs, TokensOf(before) + [command] + TokensOf(after))
            == Ok(Some(command), Overridden(Defaults(specs, Some(command)), before + after), [])
       <==> before == [] || (!TakesNext(before) && OwnDefaultsWritten(specs, command, before + after))
  {
    ArgumentsReadBack(specs, before, command, after);
    SameOptionsExactly(specs, command, before + after);
    hide Parse, TokensOf, Overridden, Defaults, OwnDefaultsWritten, Swallowing, AllFit;
  }

  /** In `--all a run` the list takes the command. */
  lemma CommandMayBeTaken()
    ensures Parse(map["--all" := Spec(ListKind, None, map[])], ["--all", "a", "run"])
            == Ok(None, map["--all" := List(["a", "run"])], [])
  {
    var specs := map["--all" := Spec(ListKind, None, map[])];
    var tokens := ["--all", "a", "run"];
    assert tokens[1..] == ["a", "run"] && tokens[1..][1..] == ["run"] && tokens[1..][1..][1..] == [];
    assert Run(["run"]) == ["run"] && Run(["a", "run"]) == ["a", "run"];
    SplitOfItem("a");
    SplitOfItem("run");
    hide Split;
    assert NonEmpty(["a"]) == ["a"] && NonEmpty(["run"]) == ["run"] && Items(["run"]) == ["run"];
    assert ["a", "run"][1..] == ["run"] && Items(["a", "run"]) == ["a", "run"];
    assert Defaults(specs, None) == map[];
    StepOverList(specs, tokens, map[], []);
    hide StepOver, Run, Items;
    assert tokens[3..] == [];
    assert ParseFrom(specs, tokens[3..], map["--all" := List(["a", "run"])], [])
           == Ok(None, map["--all" := List(["a", "run"])], []);
  }

  /** Written before the command, an option takes the command's own defaults away. */
  lemma CommandDefaultsMayBeLost()
    ensures exists specs, w: Written, command ::
              IsCommand(specs, command) && w.Fits(specs) && !w.Several?
              && Parse(specs, [command] + w.Tokens()) != Parse(specs, w.Tokens() + [command])
  {
    var specs := map["--all" := Spec(BoolKind, None, map[]), "--out" := Spec(StrKind, None, map["run" := Str("logs")])];
    var w := Switch("--all");
    assert w.Fits(specs) && IsCommand(specs, "run");
    assert DefaultFor(specs["--out"], Some("run")) != DefaultFor(specs["--out"], None) && !IsWritten([w], "--out");
    LastTokens(w);
    AfterCommand(specs, "run", [w]);
    OwnDefaultsApplyExactly(specs, [w], "run", []);
    NothingBehind(w.Tokens() + ["run"], [w]);
    hide *;
  }

  lemma NothingBehind(tokens: seq<string>, written: seq<Written>)
    ensures tokens + TokensOf([]) == tokens && written + [] == written
  {
  }
}
