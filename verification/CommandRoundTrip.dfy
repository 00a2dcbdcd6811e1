/** Printing a command and parsing it back (pkg/lang/parser.go): the parser against an evaluator that works on
    argument lists and never looks at text. */
module CommandRoundTrip {
  import opened Strings
  import opened CommandParser

  datatype Option<T> = None | Some(value: T)

  /** A value as written: between quotes of either kind, or bare. */
  datatype Written = Quoted(quote: char, text: string) | Bare(text: string)

  const NULL := Bare("NULL")

  /** An argument as written; `=>` or `:=` after a name. */
  datatype Arg =
    | Positional(value: Written)
    | Named(key: string, arrow: bool, value: Written)

  function ValueText(value: Written): string {
    match value case Quoted(q, t) => [q] + t + [q] case Bare(t) => t
  }

  function ArgText(arg: Arg): string {
    match arg
    case Positional(value) => ValueText(value)
    case Named(key, arrow, value) => key + ((if arrow then " => " else " := ") + ValueText(value))
  }

  function ArgTexts(args: seq<Arg>): seq<string> {
    if args == [] then [] else [ArgText(args[0])] + ArgTexts(args[1..])
  }

  function ArgsText(args: seq<Arg>): string {
    Join(ArgTexts(args), ", ")
  }

  // ----- What an argument list means ----------------------------------------------------------

  function PutValue(args: Args, key: string, value: string): Args {
    if IsNull(value) then args else args[key := value]
  }

  /** Positional arguments go to the parameters in order, named ones to their name; NULL sets nothing. */
  function Evaluate(list: seq<Arg>, params: seq<ParamDef>, positionalIdx: nat, seenNamed: bool,
                    args: Args): Result<Args>
    decreases |list|
  {
    if list == [] then Ok(args)
    else match list[0]
      case Named(key, _, value) =>
        Evaluate(list[1..], params, positionalIdx, true, PutValue(args, ToLower(key), value.text))
      case Positional(value) =>
        if seenNamed then Err(PositionalAfterNamed)
        else if positionalIdx >= |params| then Err(TooManyPositional)
        else
          Evaluate(list[1..], params, positionalIdx + 1, false, PutValue(args, params[positionalIdx].name, value.text))
  }

  /** Named arguments come last and there is a parameter for every positional one. */
  predicate WellPlaced(list: seq<Arg>, params: seq<ParamDef>, pos: nat, seen: bool) {
    && (forall i, j | 0 <= i < j < |list| && list[j].Positional? :: list[i].Positional?)
    && forall j | 0 <= j < |list| && list[j].Positional? :: !seen && pos + j < |params|
  }

  /** Argument `i` of the list gives parameter `k` a value other than NULL. */
  predicate Sets(list: seq<Arg>, params: seq<ParamDef>, pos: nat, i: nat, k: string)
    requires i < |list|
  {
    && !EqualFold(list[i].value.text, "NULL")
    && match list[i]
       case Named(key, _, _) => k == ToLower(key)
       case Positional(_) => pos + i < |params| && params[pos + i].name == k
  }

  predicate NoneSets(list: seq<Arg>, params: seq<ParamDef>, pos: nat, from: nat, k: string) {
    forall j | from <= j < |list| :: !Sets(list, params, pos, j, k)
  }

  predicate SetsLast(list: seq<Arg>, params: seq<ParamDef>, pos: nat, i: nat, k: string) {
    i < |list| && Sets(list, params, pos, i, k) && NoneSets(list, params, pos, i + 1, k)
  }

  /** What the list sets, in terms of the last argument for each parameter. */
  ghost predicate Assigns(list: seq<Arg>, params: seq<ParamDef>, pos: nat, before: Args, after: Args) {
    && (forall i: nat, k | SetsLast(list, params, pos, i, k) :: k in after && after[k] == list[i].value.text)
    && forall k | NoneSets(list, params, pos, 0, k) ::
         (k in after <==> k in before) && (k in before ==> after[k] == before[k])
  }

  lemma AssignsNext(list: seq<Arg>, params: seq<ParamDef>, pos: nat, pos': nat, before: Args, mid: Args, after: Args,
                    key: string)
    requires list != [] && pos' == (if list[0].Positional? then pos + 1 else pos)
    requires list[0].Named? ==> forall j | 0 <= j < |list| :: list[j].Named?
    requires key == if list[0].Named? then ToLower(list[0].key) else if pos < |params| then params[pos].name else ""
    requires list[0].Positional? ==> pos < |params|
    requires mid == PutValue(before, key, list[0].value.text) && Assigns(list[1..], params, pos', mid, after)
    ensures Assigns(list, params, pos, before, after)
  {
    var rest := list[1..];
    forall i: nat, k | i < |rest|
      ensures Sets(rest, params, pos', i, k) <==> Sets(list, params, pos, i + 1, k)
    {}
    assert forall k :: NoneSets(rest, params, pos', 0, k) <==> NoneSets(list, params, pos, 1, k);
    forall i: nat, k | SetsLast(list, params, pos, i, k)
      ensures k in after && after[k] == list[i].value.text
    {
      if i > 0 {
        assert SetsLast(rest, params, pos', i - 1, k);
      } else {
        assert NoneSets(rest, params, pos', 0, k);
      }
    }
    forall k | NoneSets(list, params, pos, 0, k)
      ensures (k in after <==> k in before) && (k in before ==> after[k] == before[k])
    {
      assert NoneSets(rest, params, pos', 0, k) && !Sets(list, params, pos, 0, k);
    }
  }

  lemma WellPlacedNext(list: seq<Arg>, params: seq<ParamDef>, pos: nat, seen: bool)
    requires list != []
    ensures list[0].Named? ==> (WellPlaced(list, params, pos, seen) <==> WellPlaced(list[1..], params, pos, true))
    ensures list[0].Positional? ==>
              (WellPlaced(list, params, pos, seen) <==>
               !seen && pos < |params| && WellPlaced(list[1..], params, pos + 1, false))
  {
    var rest := list[1..];
    assert forall i | 0 <= i < |rest| :: rest[i] == list[i + 1];
    assert forall i | 1 <= i < |list| :: list[i] == rest[i - 1];
  }

  /** A list has a meaning exactly if its named arguments come last and no positional one is too many; each
      parameter then gets the value other than NULL that was written last for it. */
  lemma {:induction false} EvaluateMeans(list: seq<Arg>, params: seq<ParamDef>, pos: nat, seen: bool, args: Args)
    ensures var r := Evaluate(list, params, pos, seen, args);
            (r.Ok? <==> WellPlaced(list, params, pos, seen))
            && (r.Ok? ==> Assigns(list, params, pos, args, r.value))
    decreases |list|
  {
    if list != [] {
      WellPlacedNext(list, params, pos, seen);
      match list[0]
      case Named(key, _, value) =>
        var mid := PutValue(args, ToLower(key), value.text);
        EvaluateMeans(list[1..], params, pos, true, mid);
        if WellPlaced(list, params, pos, seen) {
          var r := Evaluate(list[1..], params, pos, true, mid);
          AssignsNext(list, params, pos, pos, args, mid, r.value, ToLower(key));
        }
      case Positional(value) =>
        if !seen && pos < |params| {
          var mid := PutValue(args, params[pos].name, value.text);
          EvaluateMeans(list[1..], params, pos + 1, false, mid);
          if WellPlaced(list, params, pos, seen) {
            var r := Evaluate(list[1..], params, pos + 1, false, mid);
            AssignsNext(list, params, pos, pos + 1, args, mid, r.value, params[pos].name);
          }
        }
    }
  }

  // ----- The arguments in scope ---------------------------------------------------------------

  predicate KeyChar(c: char) {
    !IsWhite(c) && c != ',' && c != '\'' && c != '"' && c != '=' && c != ':'
  }

  predicate KeyOk(key: string) {
    key != "" && forall i | 0 <= i < |key| :: KeyChar(key[i])
  }

  /** Values free of their own quote, bare ones free of everything that means something to the parser. */
  predicate WrittenOk(value: Written) {
    match value
    case Quoted(q, t) => (q == '\'' || q == '"') && q !in t
    case Bare(t) => KeyOk(t)
  }

  predicate ArgOk(arg: Arg) {
    WrittenOk(arg.value) && (arg.Named? ==> KeyOk(arg.key))
  }

  /** The parser will look for a name in the right place: no arrow inside a positional value or a value
      after `:=`, no `:=` inside a positional value. */
  predicate Unambiguous(arg: Arg) {
    match arg
    case Positional(value) => value.Quoted? ==> !Contains(value.text, "=>") && !Contains(value.text, ":=")
    case Named(_, arrow, value) => value.Quoted? && !arrow ==> !Contains(value.text, "=>")
  }

  // ----- Splitting the printed list -----------------------------------------------------------

  /** The text leaves the splitter outside quotes, having met no comma there. */
  predicate Atomic(s: string, q: QState)
    decreases |s|
  {
    if s == "" then q == Plain
    else !(s[0] == ',' && q == Plain) && Atomic(s[1..], NextState(q, s[0]))
  }

  lemma {:induction false} SplitAtomic(a: string, tail: string, q: QState, cur: string)
    requires Atomic(a, q)
    ensures Split(a + tail, q, cur) == Split(tail, Plain, cur + a)
    decreases |a|
  {
    if a == "" {
      assert a + tail == tail && cur + a == cur;
    } else {
      assert (a + tail)[1..] == a[1..] + tail;
      assert cur + [a[0]] + a[1..] == cur + a;
      SplitAtomic(a[1..], tail, NextState(q, a[0]), cur + [a[0]]);
    }
  }

  lemma {:induction false} AtomicConcat(a: string, b: string, q: QState)
    requires Atomic(a, q) && Atomic(b, Plain)
    ensures Atomic(a + b, q)
    decreases |a|
  {
    if a == "" {
      assert a + b == b;
    } else {
      assert (a + b)[1..] == a[1..] + b;
      AtomicConcat(a[1..], b, NextState(q, a[0]));
    }
  }

  lemma {:induction false} AtomicPlain(a: string)
    requires forall i | 0 <= i < |a| :: a[i] != ',' && a[i] != '\'' && a[i] != '"'
    ensures Atomic(a, Plain)
    decreases |a|
  {
    if a != "" {
      AtomicPlain(a[1..]);
    }
  }

  lemma {:induction false} AtomicInside(v: string, q: char)
    requires (q == '\'' || q == '"') && q !in v
    ensures Atomic(v + [q], In(q))
    decreases |v|
  {
    if v == "" {
      assert v + [q] == [q];
    } else {
      assert (v + [q])[1..] == v[1..] + [q];
      AtomicInside(v[1..], q);
    }
  }

  lemma ValueAtomic(value: Written)
    requires WrittenOk(value)
    ensures Atomic(ValueText(value), Plain)
  {
    match value
    case Bare(t) =>
      assert forall i | 0 <= i < |t| :: KeyChar(t[i]);
      AtomicPlain(t);
    case Quoted(q, t) =>
      AtomicInside(t, q);
      assert [q] + t + [q] == [q] + (t + [q]);
      assert ([q] + (t + [q]))[1..] == t + [q];
  }

  lemma ArgAtomic(arg: Arg)
    requires ArgOk(arg)
    ensures Atomic(ArgText(arg), Plain)
  {
    ValueAtomic(arg.value);
    if arg.Named? {
      var op := if arg.arrow then " => " else " := ";
      AtomicPlain(op);
      AtomicPlain(arg.key);
      AtomicConcat(op, ValueText(arg.value), Plain);
      AtomicConcat(arg.key, op + ValueText(arg.value), Plain);
    }
  }

  /** Every part but the first keeps the space after its comma. */
  function Parts(args: seq<Arg>, pad: string): seq<string> {
    if args == [] then [] else [pad + ArgText(args[0])] + Parts(args[1..], " ")
  }

  lemma {:induction false} SplitArgsText(args: seq<Arg>, pad: string)
    requires args != [] && forall a | a in args :: ArgOk(a)
    ensures Split(ArgsText(args), Plain, pad) == Parts(args, pad)
    decreases |args|
  {
    ArgAtomic(args[0]);
    if |args| == 1 {
      SplitLastArg(args[0], pad);
      assert args[1..] == [] && ArgTexts([]) == [] && Parts([], " ") == [];
      assert ArgTexts(args) == [ArgText(args[0])] && Parts(args, pad) == [pad + ArgText(args[0])];
    } else {
      SplitFirstArg(args, pad);
      SplitArgsText(args[1..], " ");
    }
  }

  lemma SplitLastArg(arg: Arg, pad: string)
    requires ArgOk(arg) && Atomic(ArgText(arg), Plain)
    ensures Split(ArgText(arg), Plain, pad) == [pad + ArgText(arg)]
  {
    SplitAtomic(ArgText(arg), "", Plain, pad);
    assert ArgText(arg) + "" == ArgText(arg);
    ArgNonempty(arg);
  }

  lemma SplitFirstArg(args: seq<Arg>, pad: string)
    requires |args| > 1 && Atomic(ArgText(args[0]), Plain)
    ensures Split(ArgsText(args), Plain, pad) == [pad + ArgText(args[0])] + Split(ArgsText(args[1..]), Plain, " ")
  {
    var t, rest := ArgText(args[0]), ArgsText(args[1..]);
    assert ArgTexts(args)[1..] == ArgTexts(args[1..]);
    assert ArgsText(args) == t + ", " + rest == t + (", " + rest);
    SplitAtomic(t, ", " + rest, Plain, pad);
    assert (", " + rest)[1..] == " " + rest;
    assert (" " + rest)[1..] == rest && "" + [' '] == " ";
  }

  lemma ArgNonempty(arg: Arg)
    requires ArgOk(arg)
    ensures ArgText(arg) != ""
  {}

  // ----- Reading one part ---------------------------------------------------------------------

  lemma ArgTrimmed(arg: Arg)
    requires ArgOk(arg)
    ensures Trimmed(ArgText(arg))
  {
    var t, v := ArgText(arg), ValueText(arg.value);
    assert arg.value.Bare? ==> KeyChar(v[0]) && KeyChar(v[|v| - 1]);
    assert v != "" && !IsWhite(v[|v| - 1]) && !IsWhite(v[0]);
    if arg.Named? {
      assert t[|t| - 1] == v[|v| - 1];
      assert t[0] == arg.key[0];
    }
  }

  lemma TrimPart(pad: string, arg: Arg)
    requires ArgOk(arg) && (pad == "" || pad == " ")
    ensures TrimSpace(pad + ArgText(arg)) == ArgText(arg)
  {
    ArgTrimmed(arg);
    TrimSpacePad(pad, ArgText(arg), "");
    assert pad + ArgText(arg) + "" == pad + ArgText(arg);
  }

  /** A two-character pattern read character by character. */
  lemma OccursTwo(s: string, pat: string, i: nat)
    requires |pat| == 2
    ensures OccursAt(s, pat, i) <==> i + 2 <= |s| && s[i] == pat[0] && s[i + 1] == pat[1]
  {
    if i + 2 <= |s| {
      assert s[i..i + 2] == [s[i], s[i + 1]];
      assert pat == [pat[0], pat[1]];
    }
  }

  predicate Operator(pat: string) {
    pat == "=>" || pat == ":="
  }

  /** No operator in the text, and none that could begin with its last character. */
  predicate OperatorEnds(pre: string, pat: string) {
    pre == "" || (pre[|pre| - 1] != '=' && pre[|pre| - 1] != ':' && !Contains(pre, pat))
  }

  lemma OccursInside(value: Written, pat: string, pre: string, i: nat)
    requires WrittenOk(value) && Operator(pat) && OperatorEnds(pre, pat) && OccursAt(pre + ValueText(value), pat, i)
    ensures value.Quoted? && i > |pre| && OccursAt(value.text, pat, i - |pre| - 1)
  {
    var v := ValueText(value);
    OccursTwo(pre + v, pat, i);
    if i < |pre| {
      OccursTwo(pre, pat, i);
    } else {
      var j := i - |pre|;
      assert value.Bare? ==> KeyChar(v[j]);
      assert v[j] == pat[0] && v[j + 1] == pat[1];
      if value.Quoted? {
        assert forall k | 0 < k <= |value.text| :: v[k] == value.text[k - 1];
        OccursTwo(value.text, pat, j - 1);
      }
    }
  }

  lemma OccursThere(value: Written, pat: string, pre: string, i: nat)
    requires value.Quoted? && |pat| == 2 && OccursAt(value.text, pat, i)
    ensures OccursAt(pre + ValueText(value), pat, |pre| + 1 + i)
  {
    var s := pre + ValueText(value);
    assert s == pre + [value.quote] + value.text + [value.quote];
    assert s[|pre| + 1 + i..|pre| + 1 + i + 2] == value.text[i..i + 2];
  }

  /** The operators occur in a quoted value only inside it, and in a bare one nowhere. */
  lemma ValueContains(value: Written, pat: string, pre: string)
    requires WrittenOk(value) && Operator(pat) && OperatorEnds(pre, pat)
    ensures Contains(pre + ValueText(value), pat) <==> value.Quoted? && Contains(value.text, pat)
  {
    var s := pre + ValueText(value);
    if Contains(s, pat) {
      var i: nat :| i <= |s| && OccursAt(s, pat, i);
      OccursInside(value, pat, pre, i);
    }
    if value.Quoted? && Contains(value.text, pat) {
      var i: nat :| i <= |value.text| && OccursAt(value.text, pat, i);
      OccursThere(value, pat, pre, i);
    }
  }

  /** Reading an unambiguous positional argument. */
  lemma ReadPositional(value: Written)
    requires WrittenOk(value) && Unambiguous(Positional(value))
    ensures ParseNamedArg(ValueText(value)) == Unnamed
  {
    ValueContains(value, "=>", "");
    ValueContains(value, ":=", "");
    assert "" + ValueText(value) == ValueText(value);
  }

  /** The first operator of a named argument stands right after the name and a space. */
  lemma OperatorIndex(key: string, op: string, rest: string)
    requires KeyOk(key) && (op == "=>" || op == ":=")
    ensures Index(key + (" " + op + " " + rest), op) == |key| + 1
  {
    var s := key + (" " + op + " " + rest);
    assert s[|key|] == ' ' && s[|key| + 1] == op[0] && s[|key| + 2] == op[1];
    OccursTwo(s, op, |key| + 1);
    forall k: nat | k < |key| + 1
      ensures !OccursAt(s, op, k)
    {
      OccursTwo(s, op, k);
      assert k < |key| ==> s[k] == key[k];
    }
    IndexIs(s, op, |key| + 1);
  }

  lemma CutNamed(key: string, op: string, v: string)
    requires KeyOk(key) && |op| == 2 && v != "" && Trimmed(v)
    ensures var s := key + (" " + op + " " + v);
            TrimSpace(s[..|key| + 1]) == key && TrimSpace(s[|key| + 3..]) == v
  {
    var s := key + (" " + op + " " + v);
    assert s[..|key| + 1] == "" + key + " ";
    assert s[|key| + 3..] == " " + v + "";
    TrimSpacePad("", key, " ");
    TrimSpacePad(" ", v, "");
  }

  lemma ReadNamed(key: string, arrow: bool, value: Written)
    requires ArgOk(Named(key, arrow, value)) && Unambiguous(Named(key, arrow, value))
    ensures ParseNamedArg(ArgText(Named(key, arrow, value))) == NamedArg(key, ValueText(value))
  {
    var op := if arrow then "=>" else ":=";
    var s, v := ArgText(Named(key, arrow, value)), ValueText(value);
    assert s == key + (" " + op + " " + v);
    OperatorIndex(key, op, v);
    ArgTrimmed(Positional(value));
    ArgNonempty(Positional(value));
    CutNamed(key, op, v);
    if !arrow {
      NoArrowBefore(key);
      ValueContains(value, "=>", key + " := ");
      assert s == key + " := " + v;
    }
  }

  lemma NoArrowBefore(key: string)
    requires KeyOk(key)
    ensures !Contains(key + " := ", "=>")
  {
    var s := key + " := ";
    forall i: nat | i <= |s|
      ensures !OccursAt(s, "=>", i)
    {
      OccursTwo(s, "=>", i);
      assert i < |key| ==> s[i] == key[i];
    }
  }

  predicate HasQuote(key: string) {
    '\'' in key || '"' in key
  }

  /** An ambiguous argument is read as a named one whose name holds a quote and whose value is not NULL. */
  lemma ReadAmbiguous(arg: Arg)
    requires ArgOk(arg) && !Unambiguous(arg)
    ensures var r := ParseNamedArg(ArgText(arg));
            r.NamedArg? && HasQuote(r.key) && !IsNull(UnquoteValue(r.value))
  {
    BeforeValue(arg);
    AmbiguousOperator(arg, Before(arg));
    ReadAtOperator(Before(arg), arg.value);
  }

  /** What stands before the value of an argument that may be ambiguous. */
  function Before(arg: Arg): string {
    if arg.Named? then arg.key + " := " else ""
  }

  lemma BeforeValue(arg: Arg)
    requires ArgOk(arg) && !Unambiguous(arg)
    ensures var pre := Before(arg);
            && ArgText(arg) == pre + ValueText(arg.value) && arg.value.quote !in pre
            && (arg.Named? ==> pre != "" && pre[|pre| - 1] == ' ' && !Contains(pre, "=>"))
  {
    if arg.Named? {
      assert ArgText(arg) == arg.key + " := " + ValueText(arg.value);
      NoArrowBefore(arg.key);
      NoQuoteBefore(arg.key, arg.value.quote);
    } else {
      assert "" + ValueText(arg.value) == ValueText(arg.value);
    }
  }

  lemma NoQuoteBefore(key: string, q: char)
    requires KeyOk(key) && (q == '\'' || q == '"')
    ensures q !in key + " := "
  {
    var s := key + " := ";
    forall i | 0 <= i < |s|
      ensures s[i] != q
    {
      assert i < |key| ==> KeyChar(key[i]);
    }
  }

  lemma ReadAtOperator(pre: string, value: Written)
    requires value.Quoted? && WrittenOk(value) && value.quote !in pre
    requires pre == "" || (pre[|pre| - 1] == ' ' && !Contains(pre, "=>"))
    requires var t := pre + ValueText(value); Contains(t, "=>") || (pre == "" && Contains(t, ":="))
    ensures var r := ParseNamedArg(pre + ValueText(value));
            r.NamedArg? && HasQuote(r.key) && !IsNull(UnquoteValue(r.value))
  {
    var t := pre + ValueText(value);
    var arrow := Index(t, "=>");
    if arrow >= 0 {
      QuoteOnTheLeft(pre, value, "=>", arrow);
    } else {
      QuoteOnTheLeft(pre, value, ":=", Index(t, ":="));
    }
  }

  lemma AmbiguousOperator(arg: Arg, pre: string)
    requires ArgOk(arg) && !Unambiguous(arg)
    requires pre == "" || (pre[|pre| - 1] == ' ' && !Contains(pre, "=>"))
    requires arg.Positional? ==> pre == ""
    ensures var t := pre + ValueText(arg.value);
            Contains(t, "=>") || (arg.Positional? && Contains(t, ":="))
  {
    ValueContains(arg.value, "=>", pre);
    if arg.Positional? {
      ValueContains(arg.value, ":=", pre);
    }
  }

  lemma QuoteOnTheLeft(pre: string, value: Written, op: string, i: nat)
    requires value.Quoted? && WrittenOk(value) && value.quote !in pre && (op == "=>" || op == ":=")
    requires pre == "" || (pre[|pre| - 1] == ' ' && !Contains(pre, op))
    requires OccursAt(pre + ValueText(value), op, i)
    ensures var t := pre + ValueText(value);
            i + 2 <= |t| && HasQuote(TrimSpace(t[..i])) && !IsNull(UnquoteValue(TrimSpace(t[i + 2..])))
  {
    var t, q, v := pre + ValueText(value), value.quote, value.text;
    OccursTwo(t, op, i);
    if i < |pre| {
      OccursTwo(pre, op, i);
    }
    assert i > |pre|;
    assert t[|pre|] == q;
    TrimKeeps(t[..i], |pre|);
    var rest := t[i + 2..];
    assert rest[|rest| - 1] == q;
    assert forall k | 0 <= k < |rest| - 1 :: rest[k] == v[i + 2 + k - |pre| - 1];
    EndsInQuote(rest, q);
  }

  /** Trimming never removes a character that is not white space. */
  lemma {:induction false} TrimKeeps(s: string, k: nat)
    requires k < |s| && !IsWhite(s[k])
    ensures s[k] in TrimSpace(s)
    decreases |s|
  {
    if IsWhite(s[0]) {
      TrimKeeps(s[1..], k - 1);
    } else {
      TrimRightKeeps(s, k);
    }
  }

  lemma {:induction false} TrimRightKeeps(s: string, k: nat)
    requires k < |s| && !IsWhite(s[k])
    ensures s[k] in TrimRight(s)
    decreases |s|
  {
    if IsWhite(s[|s| - 1]) {
      TrimRightKeeps(s[..|s| - 1], k);
    }
  }

  lemma {:induction false} EndsInQuote(s: string, q: char)
    requires (q == '\'' || q == '"') && s != "" && s[|s| - 1] == q && forall k | 0 <= k < |s| - 1 :: s[k] != q
    ensures !IsNull(UnquoteValue(TrimSpace(s)))
    decreases |s|
  {
    if IsWhite(s[0]) {
      EndsInQuote(s[1..], q);
    } else {
      assert TrimSpace(s) == s && UnquoteValue(s) == s;
      assert ToLower(s)[|s| - 1] == q;
      assert "null" == ToLower("NULL");
    }
  }

  // ----- The argument list as a whole ---------------------------------------------------------

  predicate AllOk(list: seq<Arg>) {
    forall a | a in list :: ArgOk(a)
  }

  predicate AllUnambiguous(list: seq<Arg>) {
    forall a | a in list :: Unambiguous(a)
  }

  /** Quotes of either kind go, and a bare value stays. */
  lemma Unquoted(value: Written)
    requires WrittenOk(value)
    ensures UnquoteValue(ValueText(value)) == value.text
  {
    var v := ValueText(value);
    if value.Quoted? {
      assert v[1..|v| - 1] == value.text;
    } else {
      assert KeyChar(v[0]);
    }
  }

  lemma PutText(args: Args, key: string, value: Written)
    requires WrittenOk(value)
    ensures Put(args, key, UnquoteValue(ValueText(value))) == PutValue(args, key, value.text)
  {
    Unquoted(value);
  }

  lemma ReadFirst(list: seq<Arg>, pad: string, params: seq<ParamDef>, pos: nat, seen: bool, args: Args)
    requires AllOk(list) && list != [] && (pad == "" || pad == " ")
    ensures var text := ArgText(list[0]);
            var rest := Parts(list[1..], " ");
            ArgsFrom(Parts(list, pad), params, pos, seen, args) ==
            match ParseNamedArg(text)
            case NamedArg(key, val) => ArgsFrom(rest, params, pos, true, Put(args, ToLower(key), UnquoteValue(val)))
            case Unnamed =>
              if seen then Err(PositionalAfterNamed)
              else if pos >= |params| then Err(TooManyPositional)
              else ArgsFrom(rest, params, pos + 1, false, Put(args, params[pos].name, UnquoteValue(text)))
  {
    TrimPart(pad, list[0]);
    ArgNonempty(list[0]);
    assert Parts(list, pad)[1..] == Parts(list[1..], " ");
  }

  /** Reading one unambiguous argument is evaluating it. */
  lemma ReadOne(list: seq<Arg>, pad: string, params: seq<ParamDef>, pos: nat, seen: bool, args: Args)
    requires AllOk(list) && list != [] && (pad == "" || pad == " ") && Unambiguous(list[0])
    ensures var rest := Parts(list[1..], " ");
            var value := list[0].value;
            ArgsFrom(Parts(list, pad), params, pos, seen, args) ==
            match list[0]
            case Named(key, _, _) => ArgsFrom(rest, params, pos, true, PutValue(args, ToLower(key), value.text))
            case Positional(_) =>
              if seen then Err(PositionalAfterNamed)
              else if pos >= |params| then Err(TooManyPositional)
              else ArgsFrom(rest, params, pos + 1, false, PutValue(args, params[pos].name, value.text))
  {
    var arg := list[0];
    var value := arg.value;
    assert ArgOk(arg) && WrittenOk(value);
    ReadFirst(list, pad, params, pos, seen, args);
    if arg.Named? {
      ReadNamed(arg.key, arg.arrow, value);
      PutText(args, ToLower(arg.key), value);
    } else {
      assert arg == Positional(value);
      ReadPositional(value);
      if pos < |params| {
        PutText(args, params[pos].name, value);
      }
    }
  }

  /** Reading the parts back is evaluating the list. */
  lemma {:induction false} ArgsAgree(list: seq<Arg>, pad: string, params: seq<ParamDef>, pos: nat, seen: bool,
                                     args: Args)
    requires AllOk(list) && AllUnambiguous(list) && (pad == "" || pad == " ")
    ensures ArgsFrom(Parts(list, pad), params, pos, seen, args) == Evaluate(list, params, pos, seen, args)
    decreases |list|
  {
    if list != [] {
      assert Unambiguous(list[0]);
      ReadOne(list, pad, params, pos, seen, args);
      match list[0]
      case Positional(value) =>
        if !seen && pos < |params| {
          ArgsAgree(list[1..], " ", params, pos + 1, false, PutValue(args, params[pos].name, value.text));
        }
      case Named(key, _, value) =>
        ArgsAgree(list[1..], " ", params, pos, true, PutValue(args, ToLower(key), value.text));
    }
  }

  lemma {:induction false} KeysGrow(parts: seq<string>, params: seq<ParamDef>, pos: nat, seen: bool, args: Args)
    ensures var r := ArgsFrom(parts, params, pos, seen, args); r.Ok? ==> args.Keys <= r.value.Keys
    decreases |parts|
  {
    if parts != [] {
      var part, rest := TrimSpace(parts[0]), parts[1..];
      if part == "" {
        KeysGrow(rest, params, pos, seen, args);
      } else {
        match ParseNamedArg(part)
        case NamedArg(key, val) => KeysGrow(rest, params, pos, true, Put(args, ToLower(key), UnquoteValue(val)));
        case Unnamed =>
          if !seen && pos < |params| {
            KeysGrow(rest, params, pos + 1, false, Put(args, params[pos].name, UnquoteValue(part)));
          }
      }
    }
  }

  predicate HasQuotedKey(args: Args) {
    exists k | k in args :: HasQuote(k)
  }

  lemma SpoiledHere(list: seq<Arg>, pad: string, params: seq<ParamDef>, pos: nat, seen: bool, args: Args)
    requires AllOk(list) && list != [] && (pad == "" || pad == " ") && !Unambiguous(list[0])
    ensures var r := ArgsFrom(Parts(list, pad), params, pos, seen, args); r.Err? || HasQuotedKey(r.value)
  {
    var arg := list[0];
    assert ArgOk(arg);
    ReadFirst(list, pad, params, pos, seen, args);
    ReadAmbiguous(arg);
    var r := ParseNamedArg(ArgText(arg));
    var key := ToLower(r.key);
    var i :| 0 <= i < |r.key| && (r.key[i] == '\'' || r.key[i] == '"');
    assert key[i] == r.key[i];
    var args' := Put(args, key, UnquoteValue(r.value));
    KeysGrow(Parts(list[1..], " "), params, pos, true, args');
    assert key in args';
  }

  /** One ambiguous argument is enough for an error or a name no procedure knows. */
  lemma {:induction false} ArgsSpoiled(list: seq<Arg>, pad: string, params: seq<ParamDef>, pos: nat, seen: bool,
                                       args: Args)
    requires AllOk(list) && !AllUnambiguous(list) && (pad == "" || pad == " ")
    ensures var r := ArgsFrom(Parts(list, pad), params, pos, seen, args); r.Err? || HasQuotedKey(r.value)
    decreases |list|
  {
    if !Unambiguous(list[0]) {
      SpoiledHere(list, pad, params, pos, seen, args);
    } else {
      ReadOne(list, pad, params, pos, seen, args);
      match list[0]
      case Positional(value) =>
        if !seen && pos < |params| {
          ArgsSpoiled(list[1..], " ", params, pos + 1, false, PutValue(args, params[pos].name, value.text));
        }
      case Named(key, _, value) =>
        ArgsSpoiled(list[1..], " ", params, pos, true, PutValue(args, ToLower(key), value.text));
    }
  }

  lemma ArgsTextParts(list: seq<Arg>, params: seq<ParamDef>)
    requires AllOk(list)
    ensures CallArgs(ArgsText(list), params) == ArgsFrom(Parts(list, ""), params, 0, false, map[])
  {
    if list != [] {
      SplitArgsText(list, "");
      assert Split("", Plain, "") == [];
    }
  }

  // ----- The whole command --------------------------------------------------------------------

  /** White space, the spelling of the prefix and the optional semicolon. */
  datatype Layout = Layout(lead: string, prefix: string, gap: string, padIn: string, padOut: string,
                           beforeSemicolon: string, semicolon: bool, tail: string)

  predicate LayoutOk(l: Layout) {
    && AllWhite(l.lead) && AllWhite(l.gap) && AllWhite(l.padIn) && AllWhite(l.padOut)
    && AllWhite(l.beforeSemicolon) && AllWhite(l.tail) && EqualFold(l.prefix, PREFIX)
  }

  predicate NameOk(name: string) {
    '(' !in name && Trimmed(name)
  }

  function Call(l: Layout, name: string, list: seq<Arg>): string {
    l.prefix + (name + l.gap + "(" + (l.padIn + ArgsText(list) + l.padOut) + ")")
  }

  function Print(l: Layout, name: string, list: seq<Arg>): string {
    l.lead + (Call(l, name, list) + (l.beforeSemicolon + (if l.semicolon then ";" else ""))) + l.tail
  }

  /** What a command means, without any text. */
  function Meaning(name: string, list: seq<Arg>, aliases: map<string, string>): Result<Command> {
    var canonical := Canonical(ToLower(name), aliases);
    if canonical !in REGISTRY then Err(UnknownProcedure)
    else
      var def := REGISTRY[canonical];
      Checked(canonical, def, Evaluate(list, def.params, 0, false, map[]))
  }

  lemma {:induction false} ArgsTextTrimmed(list: seq<Arg>)
    requires AllOk(list)
    ensures Trimmed(ArgsText(list)) && (list != [] ==> ArgsText(list) != "")
    decreases |list|
  {
    if list != [] {
      ArgTrimmed(list[0]);
      ArgNonempty(list[0]);
      if |list| == 1 {
        assert ArgTexts(list) == [ArgText(list[0])];
      } else {
        var t, rest := ArgText(list[0]), ArgsText(list[1..]);
        ArgsTextTrimmed(list[1..]);
        assert ArgTexts(list)[1..] == ArgTexts(list[1..]);
        assert ArgsText(list) == t + ", " + rest;
      }
    }
  }

  lemma StripSemicolon(lead: string, call: string, ws: string, tail: string)
    requires AllWhite(lead) && AllWhite(ws) && AllWhite(tail) && Trimmed(call) && call != ""
    ensures TrimSpace(TrimSemicolon(TrimSpace(lead + (call + (ws + ";")) + tail))) == call
  {
    var inner := call + (ws + ";");
    TrimSpacePad(lead, inner, tail);
    Assoc(call, ws, ";");
    assert inner[..|inner| - 1] == call + ws;
    TrimLeftPad("", call + ws);
    TrimRightPad(call, ws);
    assert "" + (call + ws) == call + ws;
  }

  lemma StripBlanks(lead: string, call: string, ws: string, tail: string)
    requires AllWhite(lead) && AllWhite(ws) && AllWhite(tail) && Trimmed(call)
    requires call != "" && call[|call| - 1] != ';'
    ensures TrimSpace(TrimSemicolon(TrimSpace(lead + (call + (ws + "")) + tail))) == call
  {
    assert ws + "" == ws;
    Assoc(lead, call, ws);
    Assoc(lead + call, ws, tail);
    TrimSpacePad(lead, call, ws + tail);
  }

  /** White space around the command and one semicolon are dropped. */
  lemma StripLayout(l: Layout, name: string, list: seq<Arg>)
    requires LayoutOk(l)
    ensures TrimSpace(TrimSemicolon(TrimSpace(Print(l, name, list)))) == Call(l, name, list)
  {
    PrefixEnds(l, name, list);
    if l.semicolon {
      StripSemicolon(l.lead, Call(l, name, list), l.beforeSemicolon, l.tail);
    } else {
      StripBlanks(l.lead, Call(l, name, list), l.beforeSemicolon, l.tail);
    }
  }

  lemma PrefixEnds(l: Layout, name: string, list: seq<Arg>)
    requires LayoutOk(l)
    ensures var call := Call(l, name, list);
            && |l.prefix| == |PREFIX| && Trimmed(call) && call[|call| - 1] == ')'
            && HasPrefix(call) && call[..|PREFIX|] == l.prefix
  {
    var call := Call(l, name, list);
    assert |l.prefix| == |ToLower(l.prefix)| == |ToLower(PREFIX)|;
    assert ToLower(l.prefix)[0] == ToLower(PREFIX)[0] == 'c';
    assert Lower(l.prefix[0]) == 'c';
    assert call[..|PREFIX|] == l.prefix;
  }

  lemma ReadCall(l: Layout, name: string, list: seq<Arg>)
    requires LayoutOk(l) && NameOk(name) && AllOk(list)
    ensures var rest := Call(l, name, list)[|PREFIX|..];
            var paren := Index(rest, "(");
            && paren == |name| + |l.gap| && paren < |rest| - 1 && rest[|rest| - 1] == ')'
            && TrimSpace(rest[..paren]) == name
            && TrimSpace(rest[paren + 1..|rest| - 1]) == ArgsText(list)
  {
    PrefixEnds(l, name, list);
    var inner := l.padIn + ArgsText(list) + l.padOut;
    var rest := name + l.gap + "(" + inner + ")";
    assert Call(l, name, list)[|PREFIX|..] == rest;
    var n := |name| + |l.gap|;
    forall k: nat | k < n
      ensures !OccursAt(rest, "(", k)
    {
      assert rest[k] != '(' by {
        assert k < |name| ==> rest[k] == name[k];
        assert k >= |name| ==> rest[k] == l.gap[k - |name|] && IsWhite(rest[k]);
      }
      assert rest[k..k + 1] == [rest[k]];
    }
    assert rest[n..n + 1] == "(";
    IndexIs(rest, "(", n);
    assert rest[..n] == "" + name + l.gap;
    TrimSpacePad("", name, l.gap);
    assert rest[n + 1..|rest| - 1] == inner;
    ArgsTextTrimmed(list);
    TrimSpacePad(l.padIn, ArgsText(list), l.padOut);
  }

  const NAMES: set<string> := {"include", "exclude", "rows", "seed", "scenario", "include_sample_data", "prompt",
                               "table_name", "schema", "name"}

  predicate Snake(name: string) {
    name != "" && forall i | 0 <= i < |name| :: 'a' <= name[i] <= 'z' || name[i] == '_'
  }

  lemma SnakeNames(name: string)
    requires name in NAMES
    ensures Snake(name)
  {}

  lemma PlainNames(name: string)
    requires Snake(name)
    ensures !HasQuote(name) && ToLower(name) == name && KeyOk(name)
  {}

  lemma NoQuotedParameter(name: string, p: ParamDef)
    requires name in REGISTRY && p in REGISTRY[name].params
    ensures !HasQuote(p.name)
  {
    SnakeNames(p.name);
    PlainNames(p.name);
  }

  /** An ambiguous argument leaves an error, or a name with a quote in it, which no procedure has. */
  lemma SpoiledIsRefused(canonical: string, list: seq<Arg>)
    requires canonical in REGISTRY && AllOk(list) && !AllUnambiguous(list)
    ensures Checked(canonical, REGISTRY[canonical], CallArgs(ArgsText(list), REGISTRY[canonical].params)).Err?
  {
    var params := REGISTRY[canonical].params;
    ArgsTextParts(list, params);
    ArgsSpoiled(list, "", params, 0, false, map[]);
    var r := CallArgs(ArgsText(list), params);
    if r.Ok? {
      var k :| k in r.value && HasQuote(k);
      forall p | p in params
        ensures p.name != k
      {
        NoQuotedParameter(canonical, p);
      }
      assert !Known(params, k);
    }
  }

  /** Main result. Any command in any layout, any spelling of the prefix, any argument list whose values are
      free of their own quotes: parsing its text is evaluating it, errors included, if no argument is
      ambiguous, and an error if one is. */
  lemma ParsePrinted(l: Layout, name: string, list: seq<Arg>, aliases: map<string, string>)
    requires LayoutOk(l) && NameOk(name) && AllOk(list)
    ensures AllUnambiguous(list) ==> Parsed(Print(l, name, list), aliases) == Meaning(name, list, aliases)
    ensures !AllUnambiguous(list) ==> Parsed(Print(l, name, list), aliases).Err?
  {
    StripLayout(l, name, list);
    PrefixEnds(l, name, list);
    ReadCall(l, name, list);
    var canonical := Canonical(ToLower(name), aliases);
    if canonical in REGISTRY {
      var params := REGISTRY[canonical].params;
      ArgsTextParts(list, params);
      if AllUnambiguous(list) {
        ArgsAgree(list, "", params, 0, false, map[]);
      } else {
        SpoiledIsRefused(canonical, list);
      }
    }
  }

  // ----- Round trips --------------------------------------------------------------------------

  /** One value per parameter, absent ones None. */
  function ArgMap(params: seq<ParamDef>, vals: seq<Option<Written>>): Args
    requires |vals| == |params|
  {
    if params == [] then map[]
    else
      var n := |params| - 1;
      PutOption(ArgMap(params[..n], vals[..n]), params[n].name, vals[n])
  }

  function PutOption(args: Args, key: string, value: Option<Written>): Args {
    match value case None => args case Some(v) => PutValue(args, key, v.text)
  }

  /** Positional up to the cut, NULL for the absent ones; named after it, absent ones left out. */
  function Notation(params: seq<ParamDef>, vals: seq<Option<Written>>, cut: nat, arrow: bool, from: nat): seq<Arg>
    requires |vals| == |params| && from <= |params|
    decreases |params| - from
  {
    if from == |params| then []
    else
      var rest := Notation(params, vals, cut, arrow, from + 1);
      if from < cut then [Positional(if vals[from].Some? then vals[from].value else NULL)] + rest
      else if vals[from].Some? then [Named(params[from].name, arrow, vals[from].value)] + rest
      else rest
  }

  predicate LowerNames(params: seq<ParamDef>) {
    forall i | 0 <= i < |params| :: Snake(params[i].name)
  }

  lemma ArgMapStep(params: seq<ParamDef>, vals: seq<Option<Written>>, i: nat)
    requires |vals| == |params| && i < |params|
    ensures ArgMap(params[..i + 1], vals[..i + 1]) == PutOption(ArgMap(params[..i], vals[..i]), params[i].name, vals[i])
  {
    assert params[..i + 1][..i] == params[..i] && vals[..i + 1][..i] == vals[..i];
  }

  lemma {:induction false} NamedPartMeans(params: seq<ParamDef>, vals: seq<Option<Written>>, cut: nat, arrow: bool,
                                          from: nat, pos: nat, seen: bool)
    requires |vals| == |params| && cut <= from <= |params| && LowerNames(params)
    ensures Evaluate(Notation(params, vals, cut, arrow, from), params, pos, seen, ArgMap(params[..from], vals[..from]))
         == Ok(ArgMap(params, vals))
    decreases |params| - from
  {
    if from == |params| {
      assert params[..from] == params && vals[..from] == vals;
    } else {
      ArgMapStep(params, vals, from);
      PlainNames(params[from].name);
      NamedPartMeans(params, vals, cut, arrow, from + 1, pos, seen || vals[from].Some?);
    }
  }

  lemma {:induction false} NotationMeans(params: seq<ParamDef>, vals: seq<Option<Written>>, cut: nat, arrow: bool,
                                         from: nat)
    requires |vals| == |params| && from <= cut <= |params| && LowerNames(params)
    ensures var before := ArgMap(params[..from], vals[..from]);
            Evaluate(Notation(params, vals, cut, arrow, from), params, from, false, before) == Ok(ArgMap(params, vals))
    decreases |params| - from
  {
    if from == cut {
      NamedPartMeans(params, vals, cut, arrow, from, from, false);
    } else {
      ArgMapStep(params, vals, from);
      NotationMeans(params, vals, cut, arrow, from + 1);
    }
  }

  lemma {:induction false} NotationOk(params: seq<ParamDef>, vals: seq<Option<Written>>, cut: nat, arrow: bool,
                                      from: nat)
    requires |vals| == |params| && from <= |params| && LowerNames(params)
    requires forall v | v in vals && v.Some? :: WrittenOk(v.value)
    ensures AllOk(Notation(params, vals, cut, arrow, from))
    decreases |params| - from
  {
    if from < |params| {
      NotationOk(params, vals, cut, arrow, from + 1);
      PlainNames(params[from].name);
    }
  }

  lemma RegistryLower(name: string)
    requires name in REGISTRY
    ensures LowerNames(REGISTRY[name].params)
  {
    forall i | 0 <= i < |REGISTRY[name].params|
      ensures Snake(REGISTRY[name].params[i].name)
    {
      SnakeNames(REGISTRY[name].params[i].name);
    }
  }

  /** Positional, named and mixed notation mean the same: wherever the cut, an unambiguous command parses to
      the one argument map of the values; an ambiguous one does not parse at all. */
  lemma NotationsAgree(l: Layout, name: string, vals: seq<Option<Written>>, cut: nat, arrow: bool,
                       aliases: map<string, string>)
    requires LayoutOk(l) && NameOk(name) && Canonical(ToLower(name), aliases) in REGISTRY
    requires |vals| == |REGISTRY[Canonical(ToLower(name), aliases)].params| && cut <= |vals|
    requires forall v | v in vals && v.Some? :: WrittenOk(v.value)
    ensures var canonical := Canonical(ToLower(name), aliases);
            var def := REGISTRY[canonical];
            var list := Notation(def.params, vals, cut, arrow, 0);
            if AllUnambiguous(list) then
              Parsed(Print(l, name, list), aliases) == Checked(canonical, def, Ok(ArgMap(def.params, vals)))
            else Parsed(Print(l, name, list), aliases).Err?
  {
    var canonical := Canonical(ToLower(name), aliases);
    var params := REGISTRY[canonical].params;
    RegistryLower(canonical);
    NotationOk(params, vals, cut, arrow, 0);
    NotationMeans(params, vals, cut, arrow, 0);
    assert params[..0] == [] && vals[..0] == [];
    ParsePrinted(l, name, Notation(params, vals, cut, arrow, 0), aliases);
  }

  /** Single quotes, unless the value holds one. */
  function InQuotes(v: string): Written {
    Quoted(if '\'' in v then '"' else '\'', v)
  }

  function NamedList(args: Args, keys: seq<string>): seq<Arg>
    requires forall k | k in keys :: k in args
  {
    if keys == [] then [] else [Named(keys[0], true, InQuotes(args[keys[0]]))] + NamedList(args, keys[1..])
  }

  /** The keys of a map, each once, in any order. */
  predicate Enumerates(keys: seq<string>, args: Args) {
    && (forall k | k in keys :: k in args)
    && (forall k | k in args :: k in keys)
    && (forall i, j | 0 <= i < j < |keys| :: keys[i] != keys[j])
  }

  predicate ValuesOk(args: Args) {
    forall k | k in args :: '\'' !in args[k] || '"' !in args[k]
  }

  lemma {:induction false} NamedListMeans(args: Args, keys: seq<string>, params: seq<ParamDef>, seen: bool, acc: Args)
    requires (forall k | k in keys :: k in args && Snake(k))
    ensures var r := Evaluate(NamedList(args, keys), params, 0, seen, acc);
            r.Ok? && forall k :: if k in keys && !IsNull(args[k]) then k in r.value && r.value[k] == args[k]
                                 else (k in r.value <==> k in acc) && (k in acc ==> r.value[k] == acc[k])
    decreases |keys|
  {
    if keys != [] {
      var k := keys[0];
      assert keys == [k] + keys[1..];
      PlainNames(k);
      NamedListMeans(args, keys[1..], params, true, PutValue(acc, k, args[k]));
    }
  }

  lemma {:induction false} NamedListOk(args: Args, keys: seq<string>)
    requires (forall k | k in keys :: k in args && Snake(k)) && ValuesOk(args)
    ensures AllOk(NamedList(args, keys)) && AllUnambiguous(NamedList(args, keys))
    decreases |keys|
  {
    if keys != [] {
      NamedListOk(args, keys[1..]);
      PlainNames(keys[0]);
    }
  }

  lemma RegisteredName(name: string)
    requires name in REGISTRY
    ensures NameOk(name) && ToLower(name) == name
  {
    assert Snake(name);
    PlainNames(name);
  }

  predicate NullFree(args: Args) {
    forall k | k in args :: !IsNull(args[k])
  }

  lemma KnownKeysSnake(name: string, args: Args)
    requires name in REGISTRY && Validation(REGISTRY[name].params, args) == Ok(())
    ensures forall k | k in args :: Snake(k)
  {
    forall k | k in args
      ensures Snake(k)
    {
      assert Known(REGISTRY[name].params, k);
      var p :| p in REGISTRY[name].params && p.name == k;
      SnakeNames(p.name);
    }
  }

  lemma NamedListGivesBack(args: Args, keys: seq<string>, params: seq<ParamDef>)
    requires Enumerates(keys, args) && forall k | k in args :: Snake(k)
    ensures var r := Evaluate(NamedList(args, keys), params, 0, false, map[]);
            r.Ok? && (r.value == args <==> NullFree(args))
  {
    NamedListMeans(args, keys, params, false, map[]);
    var r := Evaluate(NamedList(args, keys), params, 0, false, map[]);
    if k :| k in args && IsNull(args[k]) {
      assert k !in r.value;
    } else {
      assert r.value == args;
    }
  }

  /** Command round trip: for a registered command with known names, all required ones among them, and values
      free of one kind of quotes, printing it by name and parsing it gives it back exactly when none of its
      values spells NULL. */
  lemma CommandRoundTrips(l: Layout, cmd: Command, keys: seq<string>)
    requires LayoutOk(l) && cmd.name in REGISTRY && Enumerates(keys, cmd.args) && ValuesOk(cmd.args)
    requires Validation(REGISTRY[cmd.name].params, cmd.args) == Ok(())
    ensures Parsed(Print(l, cmd.name, NamedList(cmd.args, keys)), map[]) == Ok(cmd) <==> NullFree(cmd.args)
  {
    RegisteredName(cmd.name);
    KnownKeysSnake(cmd.name, cmd.args);
    NamedListOk(cmd.args, keys);
    NamedListGivesBack(cmd.args, keys, REGISTRY[cmd.name].params);
    ParsePrinted(l, cmd.name, NamedList(cmd.args, keys), map[]);
  }
}
