/** The `CALL gendb.name(...)` parser of pkg/lang/parser.go. A text is a sequence of Unicode characters. */
module CommandParser {
  import opened Strings

  datatype ParamDef = ParamDef(name: string, required: bool)

  datatype CommandDef = CommandDef(name: string, params: seq<ParamDef>)

  datatype Command = Command(name: string, args: map<string, string>)

  datatype ParseError =
    | NotACall | NoOpenParen | NoCloseParen | UnknownProcedure
    | PositionalAfterNamed | TooManyPositional
    | UnknownParameter | MissingParameter

  datatype Result<T> = Ok(value: T) | Err(error: ParseError)

  type Args = map<string, string>

  // ----- The registry (pkg/lang/registry.go) --------------------------------------------------

  function Optional(name: string): ParamDef {
    ParamDef(name, false)
  }

  const REGISTRY: map<string, CommandDef> := map[
    "generate_data" := CommandDef("generate_data",
      [Optional("include"), Optional("exclude"), Optional("rows"), Optional("seed"), Optional("scenario"),
       Optional("include_sample_data"), Optional("prompt")]),
    "return_generated" := CommandDef("return_generated",
      [Optional("include"), Optional("exclude"), Optional("scenario")]),
    "return_actual" := CommandDef("return_actual", [Optional("include"), Optional("exclude"), Optional("scenario")]),
    "sync" := CommandDef("sync", [Optional("table_name"), Optional("scenario")]),
    "drop_scenario" := CommandDef("drop_scenario", [ParamDef("scenario", true), Optional("schema")]),
    "create_scenario" := CommandDef("create_scenario", [ParamDef("name", true), Optional("prompt")]),
    "update_scenario" := CommandDef("update_scenario", [ParamDef("name", true), Optional("prompt")])
  ]

  /** The canonical name; `aliases` is the package variable `Aliases`, empty as shipped. */
  function Canonical(given: string, aliases: map<string, string>): string {
    if given in aliases then aliases[given] else given
  }

  // ----- splitArgs ----------------------------------------------------------------------------

  datatype QState = Plain | In(quote: char)

  function NextState(q: QState, ch: char): QState {
    if q == Plain && (ch == '\'' || ch == '"') then In(ch)
    else if q == In(ch) then Plain
    else q
  }

  /** The parts `splitArgs` still appends, with `cur` in its builder. */
  function Split(s: string, q: QState, cur: string): seq<string>
    decreases |s|
  {
    if s == "" then (if cur == "" then [] else [cur])
    else if s[0] == ',' && q == Plain then [cur] + Split(s[1..], Plain, "")
    else Split(s[1..], NextState(q, s[0]), cur + [s[0]])
  }

  method SplitArgs(s: string) returns (parts: seq<string>)
    ensures parts == Split(s, Plain, "")
  {
    parts := [];
    var current := "";
    var inQuote := false;
    var quoteChar := '\0';
    ghost var goal := Split(s, Plain, "");
    assert s[0..] == s;
    for i := 0 to |s|
      invariant inQuote ==> quoteChar == '\'' || quoteChar == '"'
      invariant goal == parts + Split(s[i..], if inQuote then In(quoteChar) else Plain, current)
    {
      var ch := s[i];
      if !inQuote && (ch == '\'' || ch == '"') {
        inQuote := true;
        quoteChar := ch;
        current := current + [ch];
      } else if inQuote && ch == quoteChar {
        inQuote := false;
        current := current + [ch];
      } else if ch == ',' && !inQuote {
        parts := parts + [current];
        current := "";
      } else {
        current := current + [ch];
      }
    }
    assert s[|s|..] == "";
    if |current| > 0 {
      parts := parts + [current];
    }
  }

  function StateAfter(s: string, q: QState): QState
    decreases |s|
  {
    if s == "" then q else StateAfter(s[1..], NextState(q, s[0]))
  }

  /** The text ends in a comma outside quotes. */
  predicate DanglingComma(s: string, q: QState) {
    s != "" && s[|s| - 1] == ',' && StateAfter(s[..|s| - 1], q) == Plain
  }

  lemma DanglingStep(s: string, q: QState)
    requires |s| > 1
    ensures DanglingComma(s, q) <==> DanglingComma(s[1..], NextState(q, s[0]))
  {
    assert s[1..][..|s| - 2] == s[..|s| - 1][1..];
  }

  function DroppedEnd(s: string, q: QState): string {
    if DanglingComma(s, q) then "," else ""
  }

  lemma CommaCase(cur: string, tail: string, rest: seq<string>, end: string)
    requires rest != [] && tail == Join(rest, ",") + end
    ensures cur + ("," + tail) == Join([cur] + rest, ",") + end
  {
    assert ([cur] + rest)[1..] == rest;
    Assoc(cur + ",", Join(rest, ","), end);
    Assoc(cur, ",", tail);
  }

  lemma SplitComma(s: string, cur: string)
    requires |s| > 1 && s[0] == ','
    requires s[1..] == Join(Split(s[1..], Plain, ""), ",") + DroppedEnd(s[1..], Plain)
    ensures cur + s == Join(Split(s, Plain, cur), ",") + DroppedEnd(s, Plain)
  {
    DanglingStep(s, Plain);
    SplitNonempty(s[1..], Plain, "");
    CommaCase(cur, s[1..], Split(s[1..], Plain, ""), DroppedEnd(s[1..], Plain));
    assert "," + s[1..] == s;
  }

  /** Joining the parts with commas gives the text back, up to one final unquoted comma. */
  lemma {:induction false} SplitLosesNothing(s: string, q: QState, cur: string)
    ensures cur + s == Join(Split(s, q, cur), ",") + DroppedEnd(s, q)
    decreases |s|
  {
    if |s| <= 1 {
    } else if s[0] == ',' && q == Plain {
      SplitLosesNothing(s[1..], Plain, "");
      assert "" + s[1..] == s[1..];
      SplitComma(s, cur);
    } else {
      DanglingStep(s, q);
      SplitLosesNothing(s[1..], NextState(q, s[0]), cur + [s[0]]);
      assert cur + s == cur + [s[0]] + s[1..];
    }
  }

  lemma {:induction false} SplitNonempty(s: string, q: QState, cur: string)
    requires s != "" || cur != ""
    ensures Split(s, q, cur) != []
    decreases |s|
  {
    if s != "" && !(s[0] == ',' && q == Plain) {
      SplitNonempty(s[1..], NextState(q, s[0]), cur + [s[0]]);
    }
  }

  // ----- parseNamedArg, unquoteValue ----------------------------------------------------------

  datatype NamedArg = NamedArg(key: string, value: string) | Unnamed

  function ParseNamedArg(part: string): NamedArg {
    var arrow := Index(part, "=>");
    if arrow >= 0 then NamedArg(TrimSpace(part[..arrow]), TrimSpace(part[arrow + 2..]))
    else
      var assign := Index(part, ":=");
      if assign >= 0 then NamedArg(TrimSpace(part[..assign]), TrimSpace(part[assign + 2..]))
      else Unnamed
  }

  function UnquoteValue(val: string): string {
    if |val| >= 2 && val[0] == '\'' && val[|val| - 1] == '\'' then val[1..|val| - 1]
    else if |val| >= 2 && val[0] == '"' && val[|val| - 1] == '"' then val[1..|val| - 1]
    else val
  }

  predicate IsNull(val: string) {
    EqualFold(val, "NULL")
  }

  /** Texts agree up to case exactly if their letters do one by one. */
  lemma FoldAt(a: string, b: string)
    ensures EqualFold(a, b) <==> |a| == |b| && forall i | 0 <= i < |a| :: Lower(a[i]) == Lower(b[i])
  {
    if |a| == |b| && forall i | 0 <= i < |a| :: Lower(a[i]) == Lower(b[i]) {
      assert ToLower(a) == ToLower(b);
    }
    if EqualFold(a, b) {
      forall i | 0 <= i < |a|
        ensures Lower(a[i]) == Lower(b[i])
      {
        assert ToLower(a)[i] == ToLower(b)[i];
      }
    }
  }

  lemma NullLetters(val: string)
    ensures IsNull(val) <==> |val| == 4 && val[0] in "nN" && val[1] in "uU" && val[2] in "lL" && val[3] in "lL"
  {
    FoldAt(val, "NULL");
  }

  // ----- parseCallArgs ------------------------------------------------------------------------

  function Put(args: Args, key: string, val: string): Args {
    if IsNull(val) then args else args[key := val]
  }

  /** What the loop of `parseCallArgs` does with the parts that are left. */
  function ArgsFrom(parts: seq<string>, params: seq<ParamDef>, positionalIdx: nat, seenNamed: bool,
                    args: Args): Result<Args>
    decreases |parts|
  {
    if parts == [] then Ok(args)
    else
      var part := TrimSpace(parts[0]);
      var rest := parts[1..];
      if part == "" then ArgsFrom(rest, params, positionalIdx, seenNamed, args)
      else match ParseNamedArg(part)
        case NamedArg(key, val) =>
          ArgsFrom(rest, params, positionalIdx, true, Put(args, ToLower(key), UnquoteValue(val)))
        case Unnamed =>
          if seenNamed then Err(PositionalAfterNamed)
          else if positionalIdx >= |params| then Err(TooManyPositional)
          else
            ArgsFrom(rest, params, positionalIdx + 1, false, Put(args, params[positionalIdx].name, UnquoteValue(part)))
  }

  function CallArgs(argsStr: string, params: seq<ParamDef>): Result<Args> {
    if argsStr == "" then Ok(map[]) else ArgsFrom(Split(argsStr, Plain, ""), params, 0, false, map[])
  }

  method ParseCallArgs(argsStr: string, params: seq<ParamDef>) returns (r: Result<Args>)
    ensures r == CallArgs(argsStr, params)
  {
    var args: Args := map[];
    if argsStr == "" {
      return Ok(args);
    }
    var parts := SplitArgs(argsStr);
    var positionalIdx := 0;
    var seenNamed := false;
    ghost var goal := ArgsFrom(parts, params, 0, false, map[]);
    assert parts[0..] == parts;
    for i := 0 to |parts|
      invariant 0 <= positionalIdx
      invariant goal == ArgsFrom(parts[i..], params, positionalIdx, seenNamed, args)
    {
      assert parts[i..][1..] == parts[i + 1..];
      var part := TrimSpace(parts[i]);
      if part == "" {
        continue;
      }
      match ParseNamedArg(part) {
        case NamedArg(key, raw) =>
          seenNamed := true;
          var val := UnquoteValue(raw);
          if !IsNull(val) {
            args := args[ToLower(key) := val];
          }
        case Unnamed =>
          if seenNamed {
            return Err(PositionalAfterNamed);
          }
          if positionalIdx >= |params| {
            return Err(TooManyPositional);
          }
          var val := UnquoteValue(part);
          if !IsNull(val) {
            args := args[params[positionalIdx].name := val];
          }
          positionalIdx := positionalIdx + 1;
      }
    }
    return Ok(args);
  }

  // ----- validateArgs -------------------------------------------------------------------------

  predicate Known(params: seq<ParamDef>, key: string) {
    exists p | p in params :: p.name == key
  }

  predicate RequiredGiven(params: seq<ParamDef>, args: Args) {
    forall p | p in params && p.required :: p.name in args
  }

  function Validation(params: seq<ParamDef>, args: Args): Result<()> {
    if exists k | k in args :: !Known(params, k) then Err(UnknownParameter)
    else if !RequiredGiven(params, args) then Err(MissingParameter)
    else Ok(())
  }

  /** The argument map is visited in any order. */
  method ValidateArgs(params: seq<ParamDef>, args: Args) returns (r: Result<()>)
    ensures r == Validation(params, args)
    ensures r.Ok? <==> (forall k | k in args :: exists p | p in params :: p.name == k)
                       && (forall p | p in params && p.required :: p.name in args)
    ensures r == Err(UnknownParameter) <==> exists k | k in args :: forall p | p in params :: p.name != k
    ensures r.Err? ==> r.error == UnknownParameter || r.error == MissingParameter
  {
    var known: set<string> := {};
    for i := 0 to |params|
      invariant forall k :: k in known <==> exists p | p in params[..i] :: p.name == k
    {
      assert params[..i + 1] == params[..i] + [params[i]];
      known := known + {params[i].name};
    }
    assert params[..|params|] == params;
    var keys := args.Keys;
    while keys != {}
      invariant keys <= args.Keys
      invariant forall k | k in args.Keys - keys :: Known(params, k)
      decreases |keys|
    {
      var k :| k in keys;
      if k !in known {
        assert !Known(params, k);
        return Err(UnknownParameter);
      }
      keys := keys - {k};
    }
    for i := 0 to |params|
      invariant forall j | 0 <= j < i && params[j].required :: params[j].name in args
    {
      if params[i].required && params[i].name !in args {
        return Err(MissingParameter);
      }
    }
    return Ok(());
  }

  // ----- Parse --------------------------------------------------------------------------------

  function TrimSemicolon(s: string): string {
    if s != "" && s[|s| - 1] == ';' then s[..|s| - 1] else s
  }

  const PREFIX := "call gendb."

  predicate HasPrefix(s: string) {
    |s| >= |PREFIX| && EqualFold(s[..|PREFIX|], PREFIX)
  }

  /** The eleven characters that make a statement a command. */
  lemma PrefixLetters(s: string)
    ensures HasPrefix(s) <==>
              |s| >= 11 && forall i | 0 <= i < 11 :: s[i] == "call gendb."[i] || s[i] == "CALL GENDB."[i]
  {
    if |s| >= 11 {
      var head := s[..11];
      FoldAt(head, PREFIX);
      forall i | 0 <= i < 11
        ensures Lower(head[i]) == Lower(PREFIX[i]) <==> s[i] == "call gendb."[i] || s[i] == "CALL GENDB."[i]
      {
        PrefixLetter(i, s[i]);
        assert head[i] == s[i];
      }
    }
  }

  lemma PrefixLetter(i: nat, c: char)
    requires i < 11
    ensures Lower(c) == Lower(PREFIX[i]) <==> c == "call gendb."[i] || c == "CALL GENDB."[i]
  {}

  predicate IsGenDBCommand(sql: string) {
    HasPrefix(TrimSpace(sql))
  }

  function Checked(name: string, def: CommandDef, args: Result<Args>): Result<Command> {
    match args
    case Err(e) => Err(e)
    case Ok(a) =>
      match Validation(def.params, a)
      case Err(e) => Err(e)
      case Ok(_) => Ok(Command(name, a))
  }

  /** From the procedure name and the text between the parentheses on. */
  function Resolved(given: string, argsStr: string, aliases: map<string, string>): Result<Command> {
    var name := Canonical(given, aliases);
    if name !in REGISTRY then Err(UnknownProcedure)
    else Checked(name, REGISTRY[name], CallArgs(argsStr, REGISTRY[name].params))
  }

  /** From what follows the prefix on. */
  function ParsedRest(rest: string, aliases: map<string, string>): Result<Command> {
    var paren := Index(rest, "(");
    if paren < 0 then Err(NoOpenParen)
    else if rest[|rest| - 1] != ')' then Err(NoCloseParen)
    else
      assert rest[paren..paren + 1] == "(" && rest[paren] == '(';
      Resolved(ToLower(TrimSpace(rest[..paren])), TrimSpace(rest[paren + 1..|rest| - 1]), aliases)
  }

  function ParsedCall(s: string, aliases: map<string, string>): Result<Command> {
    if !HasPrefix(s) then Err(NotACall) else ParsedRest(s[|PREFIX|..], aliases)
  }

  function Parsed(input: string, aliases: map<string, string>): Result<Command> {
    ParsedCall(TrimSpace(TrimSemicolon(TrimSpace(input))), aliases)
  }

  lemma {:induction false} ArgsFromErrors(parts: seq<string>, params: seq<ParamDef>, pos: nat, seen: bool, args: Args)
    ensures var r := ArgsFrom(parts, params, pos, seen, args);
            r.Err? ==> r.error == PositionalAfterNamed || r.error == TooManyPositional
    decreases |parts|
  {
    if parts != [] {
      var part := TrimSpace(parts[0]);
      var rest := parts[1..];
      if part == "" {
        ArgsFromErrors(rest, params, pos, seen, args);
      } else {
        match ParseNamedArg(part)
        case NamedArg(key, val) =>
          ArgsFromErrors(rest, params, pos, true, Put(args, ToLower(key), UnquoteValue(val)));
        case Unnamed =>
          if !seen && pos < |params| {
            ArgsFromErrors(rest, params, pos + 1, false, Put(args, params[pos].name, UnquoteValue(part)));
          }
      }
    }
  }

  /** A registered command with known parameters and all required ones. */
  predicate Executable(cmd: Command) {
    cmd.name in REGISTRY && Validation(REGISTRY[cmd.name].params, cmd.args) == Ok(())
  }

  method Resolve(given: string, argsStr: string, aliases: map<string, string>) returns (r: Result<Command>)
    ensures r == Resolved(given, argsStr, aliases)
    ensures r == Err(UnknownProcedure) <==> (if given in aliases then aliases[given] else given) !in REGISTRY
    ensures r.Ok? ==> r.value.name == Canonical(given, aliases) && Executable(r.value)
  {
    var procName := given;
    if procName in aliases {
      procName := aliases[procName];
    }
    if procName !in REGISTRY {
      return Err(UnknownProcedure);
    }
    var def := REGISTRY[procName];
    var args := ParseCallArgs(argsStr, def.params);
    ArgsFromErrors(Split(argsStr, Plain, ""), def.params, 0, false, map[]);
    if args.Err? {
      return Err(args.error);
    }
    var valid := ValidateArgs(def.params, args.value);
    if valid.Err? {
      return Err(valid.error);
    }
    return Ok(Command(procName, args.value));
  }

  lemma CallErrors(given: string, argsStr: string, aliases: map<string, string>)
    ensures Resolved(given, argsStr, aliases) !in {Err(NotACall), Err(NoOpenParen), Err(NoCloseParen)}
  {
    var name := Canonical(given, aliases);
    if name in REGISTRY {
      ArgsFromErrors(Split(argsStr, Plain, ""), REGISTRY[name].params, 0, false, map[]);
    }
  }

  predicate HasParen(rest: string) {
    exists k | 0 <= k < |rest| :: rest[k] == '('
  }

  lemma ParenFound(rest: string)
    ensures Index(rest, "(") >= 0 <==> HasParen(rest)
  {
    if k :| 0 <= k < |rest| && rest[k] == '(' {
      assert rest[k..k + 1] == "(";
      assert OccursAt(rest, "(", k);
    }
    if Index(rest, "(") >= 0 {
      var k := Index(rest, "(");
      assert rest[k..k + 1] == "(" && rest[k] == '(';
    }
  }

  /** What the texts look like that fail before their procedure is looked up. */
  lemma RestErrors(rest: string, aliases: map<string, string>)
    ensures var r := ParsedRest(rest, aliases);
            && r != Err(NotACall)
            && (r == Err(NoOpenParen) <==> !HasParen(rest))
            && (r == Err(NoCloseParen) <==> HasParen(rest) && rest[|rest| - 1] != ')')
  {
    ParenFound(rest);
    var paren := Index(rest, "(");
    if paren >= 0 && rest[|rest| - 1] == ')' {
      assert rest[paren..paren + 1] == "(" && rest[paren] == '(';
      CallErrors(ToLower(TrimSpace(rest[..paren])), TrimSpace(rest[paren + 1..|rest| - 1]), aliases);
    }
  }

  method ParseRest(rest: string, aliases: map<string, string>) returns (r: Result<Command>)
    ensures r == ParsedRest(rest, aliases)
    ensures r.Ok? ==> '(' in rest && rest[|rest| - 1] == ')' && Executable(r.value)
  {
    var parenIdx := Index(rest, "(");
    if parenIdx < 0 {
      return Err(NoOpenParen);
    }
    assert rest[parenIdx..parenIdx + 1] == "(" && rest[parenIdx] == '(';
    var procName := TrimSpace(rest[..parenIdx]);
    procName := ToLower(procName);
    if rest[|rest| - 1] != ')' {
      return Err(NoCloseParen);
    }
    var argsStr := TrimSpace(rest[parenIdx + 1..|rest| - 1]);
    r := Resolve(procName, argsStr, aliases);
  }

  method ParseCall(s: string, aliases: map<string, string>) returns (r: Result<Command>)
    ensures r == ParsedCall(s, aliases)
    ensures r == Err(NotACall) <==> !HasPrefix(s)
    ensures r == Err(NoOpenParen) <==> HasPrefix(s) && !HasParen(s[11..])
    ensures r == Err(NoCloseParen) <==> HasPrefix(s) && HasParen(s[11..]) && s[|s| - 1] != ')'
    ensures r.Ok? ==> HasPrefix(s) && '(' in s && s[|s| - 1] == ')' && Executable(r.value)
  {
    if !HasPrefix(s) {
      return Err(NotACall);
    }
    RestErrors(s[|PREFIX|..], aliases);
    r := ParseRest(s[|PREFIX|..], aliases);
  }

  method Parse(input: string, aliases: map<string, string>) returns (r: Result<Command>)
    ensures r == Parsed(input, aliases)
    ensures r.Ok? ==> Executable(r.value)
    ensures r.Ok? ==>
              && r.value.name in REGISTRY
              && (forall p | p in REGISTRY[r.value.name].params && p.required :: p.name in r.value.args)
              && forall k | k in r.value.args :: exists p | p in REGISTRY[r.value.name].params :: p.name == k
  {
    var s := TrimSpace(input);
    s := TrimSemicolon(s);
    s := TrimSpace(s);
    r := ParseCall(s, aliases);
  }

  /** The command is executable with exactly these arguments. */
  ghost predicate Takes(name: string, needed: set<string>, others: set<string>) {
    forall args: Args :: Executable(Command(name, args)) <==> needed <= args.Keys <= needed + others
  }

  predicate Given(params: seq<ParamDef>, needed: set<string>, others: set<string>) {
    && (forall p | p in params :: if p.required then p.name in needed else p.name in others)
    && (forall n | n in needed :: ParamDef(n, true) in params)
    && (forall n | n in others :: ParamDef(n, false) in params)
  }

  lemma TakesGiven(name: string, needed: set<string>, others: set<string>)
    requires name in REGISTRY && Given(REGISTRY[name].params, needed, others)
    ensures Takes(name, needed, others)
  {
    var params := REGISTRY[name].params;
    forall args: Args
      ensures Executable(Command(name, args)) <==> needed <= args.Keys <= needed + others
    {
      if needed <= args.Keys <= needed + others {
        forall k | k in args
          ensures Known(params, k)
        {
          assert ParamDef(k, true) in params || ParamDef(k, false) in params;
        }
      }
      if Executable(Command(name, args)) {
        assert forall k | k in args :: Known(params, k);
        forall n | n in needed
          ensures n in args
        {
          assert ParamDef(n, true) in params && ParamDef(n, true).required;
        }
      }
    }
  }

  lemma GivenTwo(params: seq<ParamDef>, n: string, required: bool, m: string)
    requires params == [ParamDef(n, required), ParamDef(m, false)]
    ensures if required then Given(params, {n}, {m}) else Given(params, {}, {n, m})
  {
    assert params[0] == ParamDef(n, required) && params[1] == ParamDef(m, false);
  }

  /** The arguments of the commands on scenarios. */
  lemma ScenarioArguments()
    ensures Takes("create_scenario", {"name"}, {"prompt"}) && Takes("update_scenario", {"name"}, {"prompt"})
    ensures Takes("drop_scenario", {"scenario"}, {"schema"}) && Takes("sync", {}, {"table_name", "scenario"})
  {
    GivenTwo(REGISTRY["create_scenario"].params, "name", true, "prompt");
    GivenTwo(REGISTRY["update_scenario"].params, "name", true, "prompt");
    GivenTwo(REGISTRY["drop_scenario"].params, "scenario", true, "schema");
    GivenTwo(REGISTRY["sync"].params, "table_name", false, "scenario");
    TakesGiven("create_scenario", {"name"}, {"prompt"});
    TakesGiven("update_scenario", {"name"}, {"prompt"});
    TakesGiven("drop_scenario", {"scenario"}, {"schema"});
    TakesGiven("sync", {}, {"table_name", "scenario"});
  }

  // ----- What the proxy intercepts ------------------------------------------------------------

  lemma {:induction false} TrimRightCuts(s: string)
    ensures TrimRight(s) <= s
    ensures forall k | 0 <= k < |s| && !IsWhite(s[k]) :: k < |TrimRight(s)|
    decreases |s|
  {
    if s != "" && IsWhite(s[|s| - 1]) {
      TrimRightCuts(s[..|s| - 1]);
    }
  }

  lemma {:induction false} TrimLeftSolid(s: string)
    ensures TrimLeft(s) != "" ==> !IsWhite(TrimLeft(s)[0])
  {
    if s != "" && IsWhite(s[0]) {
      TrimLeftSolid(s[1..]);
    }
  }

  lemma PrefixEndsInDot(s: string)
    requires HasPrefix(s)
    ensures s[|PREFIX| - 1] == '.'
  {
    assert ToLower(s[..|PREFIX|])[10] == PREFIX[10];
  }

  /** The proxy intercepts exactly the statements the parser takes for a call: an intercepted one never fails
      for not being a command, and no command passes by. */
  lemma InterceptedIffCall(sql: string, aliases: map<string, string>)
    ensures IsGenDBCommand(sql) <==> Parsed(sql, aliases) != Err(NotACall)
  {
    var u := TrimSpace(sql);
    var w := TrimSemicolon(u);
    var v := TrimSpace(w);
    TrimLeftSolid(sql);
    TrimRightCuts(TrimLeft(sql));
    assert w != "" ==> w[0] == u[0] && !IsWhite(u[0]);
    assert TrimLeft(w) == w;
    TrimRightCuts(w);
    if HasPrefix(u) {
      PrefixEndsInDot(u);
    }
    if HasPrefix(v) {
      assert v[..|PREFIX|] == u[..|PREFIX|];
      forall given, argsStr
        ensures Resolved(given, argsStr, aliases) != Err(NotACall)
      {
        CallErrors(given, argsStr, aliases);
      }
    }
  }
}
