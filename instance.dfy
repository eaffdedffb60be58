/** The constructor-expression scanner of `Instance.newInstance`: a string such as
    `Name(arg,arg,...)` is split into a class name and a list of argument strings by a
    three-state character scanner with a nesting counter, and each argument is then
    classified as an `int` or not. The reflective class and constructor lookup that
    follows is not part of this model. */
module Instance {

  import opened Wrappers
  import opened JavaInt

  /** The scanner's `state`: 0 while reading the class name, 1 while reading arguments,
      2 after the closing parenthesis. */
  datatype ScanState = ClassName | Argument | Closed

  /** Everything the scanning loop updates besides the index: `state`, `nest`, the
      pending `token`, the `classname` once known, and `arglist`. */
  datatype Scanner = Scanner(state: ScanState, nest: nat, token: string, classname: string, args: seq<string>)

  const START: Scanner := Scanner(ClassName, 0, "", "", [])

  /** Once the class name has been ended by `(`, it is not empty. */
  predicate NamedWhenOpen(sc: Scanner) {
    sc.state != ClassName ==> sc.classname != []
  }

  /** The outcome of a successful scan. */
  datatype Parsed = Parsed(classname: string, args: seq<string>)

  /** One iteration of the scanning loop on character `c` at index `i`; `Err(i)` is the
      `IllegalArgumentException` that `syntaxError(s, i)` throws. */
  function Step(sc: Scanner, c: char, i: int): (r: Result<Scanner, int>)
    ensures r.Err? ==> r.error == i
    ensures sc.state == Closed ==> r.Err?
    ensures r.Ok? ==> r.value.args == sc.args || r.value.args == sc.args + [sc.token]
    ensures r.Ok? && NamedWhenOpen(sc) ==> NamedWhenOpen(r.value)
  {
    match sc.state
    case ClassName =>
      if c == '(' then
        if sc.token == [] then Err(i)
        else Ok(sc.(classname := sc.token, token := "", state := Argument))
      else if c == ')' || c == ',' then Err(i)
      else Ok(sc.(token := sc.token + [c]))
    case Argument =>
      if c == '(' then
        Ok(sc.(token := sc.token + [c], nest := sc.nest + 1))
      else if c == ')' then
        if sc.nest == 0 then
          if sc.token == [] && |sc.args| > 0 then Err(i)
          else if sc.token != [] then Ok(sc.(args := sc.args + [sc.token], state := Closed))
          else Ok(sc.(state := Closed))
        else Ok(sc.(token := sc.token + [c], nest := sc.nest - 1))
      else if c == ',' then
        if sc.nest == 0 then
          if sc.token == [] then Err(i)
          else Ok(sc.(args := sc.args + [sc.token], token := ""))
        else Ok(sc.(token := sc.token + [c]))
      else Ok(sc.(token := sc.token + [c]))
    case Closed => Err(i)
  }

  /** The loop run over the characters `t`, the first of which sits at index `pos`,
      stopping at the first syntax error. */
  function Scan(sc: Scanner, t: string, pos: int): (r: Result<Scanner, int>)
    ensures r.Err? ==> pos <= r.error < pos + |t|
    ensures r.Ok? && NamedWhenOpen(sc) ==> NamedWhenOpen(r.value)
    decreases |t|
  {
    if t == [] then Ok(sc)
    else
      match Step(sc, t[0], pos)
      case Err(e) => Err(e)
      case Ok(next) => Scan(next, t[1..], pos + 1)
  }

  /** The parsing part of `newInstance(s)`: the loop over all of `s`, then the final
      check that the class name was ended by a parenthesis (`syntaxError(s, i - 1)`). */
  function Parse(s: string): (r: Result<Parsed, int>)
    ensures r.Err? ==> -1 <= r.error < |s|
    ensures r.Err? && s != [] ==> 0 <= r.error
    ensures r.Ok? ==> r.value.classname != []
  {
    match Scan(START, s, 0)
    case Err(e) => Err(e)
    case Ok(sc) =>
      if sc.state == ClassName then Err(|s| - 1)
      else Ok(Parsed(sc.classname, sc.args))
  }

  /** The scanning loop as the source writes it, with its variables updated in place. */
  method ParseConstructorExpression(s: string) returns (r: Result<Parsed, int>)
    ensures r == Parse(s)
  {
    var state := ClassName;
    var nest: nat := 0;
    var i := 0;
    var token := "";
    var classname := "";
    var arglist: seq<string> := [];
    while i < |s|
      invariant 0 <= i <= |s|
      invariant Scan(START, s, 0) == Scan(Scanner(state, nest, token, classname, arglist), s[i..], i)
    {
      ghost var before := Scanner(state, nest, token, classname, arglist);
      assert s[i..][0] == s[i] && s[i..][1..] == s[i + 1..];
      var c := s[i];
      match state {
        case ClassName =>
          if c == '(' {
            if |token| == 0 {
              return Err(i);
            }
            classname := token;
            token := "";
            state := Argument;
          } else if c == ')' {
            return Err(i);
          } else if c == ',' {
            return Err(i);
          } else {
            token := token + [c];
          }
        case Argument =>
          if c == '(' {
            token := token + [c];
            nest := nest + 1;
          } else if c == ')' {
            if nest == 0 {
              if |token| == 0 && |arglist| > 0 {
                return Err(i);
              } else if |token| > 0 {
                arglist := arglist + [token];
              }
              state := Closed;
            } else {
              token := token + [c];
              nest := nest - 1;
            }
          } else if c == ',' {
            if nest == 0 {
              if |token| == 0 {
                return Err(i);
              }
              arglist := arglist + [token];
              token := "";
            } else {
              token := token + [c];
            }
          } else {
            token := token + [c];
          }
        case Closed =>
          return Err(i);
      }
      assert Step(before, c, i) == Ok(Scanner(state, nest, token, classname, arglist));
      i := i + 1;
    }
    if state == ClassName {
      return Err(i - 1);
    }
    return Ok(Parsed(classname, arglist));
  }

  /** The classification loop after the scan: each argument is read with `new Integer`,
      a failure leaving its slot `null` (`None`) and clearing `allAreInts`. */
  method ArgumentsAsInts(args: seq<string>) returns (intargs: array<Option<int>>, allAreInts: bool)
    ensures intargs.Length == |args|
    ensures forall k :: 0 <= k < |args| ==> intargs[k] == ParseInt(args[k])
    ensures allAreInts <==> forall k :: 0 <= k < |args| ==> ParseInt(args[k]).Some?
  {
    intargs := new Option<int>[|args|](_ => None);
    allAreInts := true;
    var i := 0;
    while i < |args|
      invariant 0 <= i <= |args|
      invariant forall k :: 0 <= k < i ==> intargs[k] == ParseInt(args[k])
      invariant allAreInts <==> forall k :: 0 <= k < i ==> ParseInt(args[k]).Some?
    {
      var v := ParseInt(args[i]);
      intargs[i] := v;
      if v.None? {
        allAreInts := false;
      }
      i := i + 1;
    }
  }

  // ---------------------------------------------------------------------------
  // Expressions and their rendering

  /** A class name as the scanner reads it: none of `(`, `)` and `,`. */
  predicate PlainName(t: string) {
    forall k :: 0 <= k < |t| ==> t[k] != '(' && t[k] != ')' && t[k] != ','
  }

  /** How a character changes the nesting depth. */
  function Delta(c: char): int {
    if c == '(' then 1 else if c == ')' then -1 else 0
  }

  /** The net nesting depth that `t` adds. */
  function Depth(t: string): int {
    if t == [] then 0 else Delta(t[0]) + Depth(t[1..])
  }

  /** Starting at depth `nest`, every `)` and `,` of `t` comes while some parenthesis is
      still open, so none of them ends an argument. */
  predicate Nested(nest: int, t: string) {
    forall k :: 0 <= k < |t| && (t[k] == ')' || t[k] == ',') ==> nest + Depth(t[..k]) > 0
  }

  /** An argument that scans back unchanged: non-empty, parentheses balanced, no comma
      at the top level. */
  predicate ValidArg(a: string) {
    a != [] && Nested(0, a) && Depth(a) == 0
  }

  predicate ValidArgs(args: seq<string>) {
    forall k :: 0 <= k < |args| ==> ValidArg(args[k])
  }

  /** The arguments separated by commas. */
  function Join(args: seq<string>): string {
    if args == [] then ""
    else if |args| == 1 then args[0]
    else args[0] + "," + Join(args[1..])
  }

  /** The expression `name(a1,...,an)`. */
  function Render(name: string, args: seq<string>): (e: string)
    ensures |e| == |name| + |Join(args)| + 2
    ensures e[..|name|] == name && e[|name|] == '(' && e[|e| - 1] == ')'
  {
    name + "(" + Join(args) + ")"
  }

  // ---------------------------------------------------------------------------
  // The scan over concatenated text

  lemma {:induction false} ScanAppend(sc: Scanner, a: string, b: string, pos: int)
    ensures Scan(sc, a + b, pos) ==
            match Scan(sc, a, pos)
            case Err(e) => Err(e)
            case Ok(mid) => Scan(mid, b, pos + |a|)
    decreases |a|
  {
    if a != [] {
      assert (a + b)[0] == a[0] && (a + b)[1..] == a[1..] + b;
      match Step(sc, a[0], pos)
      case Err(e) =>
      case Ok(next) => ScanAppend(next, a[1..], b, pos + 1);
    } else {
      assert a + b == b;
    }
  }

  /** A class name is accumulated into the token. */
  lemma {:induction false} ScanPlainName(sc: Scanner, t: string, pos: int)
    requires sc.state == ClassName && PlainName(t)
    ensures Scan(sc, t, pos) == Ok(sc.(token := sc.token + t))
    decreases |t|
  {
    if t == [] {
      assert sc.token + t == sc.token;
    } else {
      var next := sc.(token := sc.token + [t[0]]);
      assert Step(sc, t[0], pos) == Ok(next);
      ScanPlainName(next, t[1..], pos + 1);
      assert next.token + t[1..] == sc.token + t;
    }
  }

  /** Nested parentheses and commas stay inside the token; the depth follows them. */
  lemma {:induction false} ScanNested(sc: Scanner, t: string, pos: int)
    requires sc.state == Argument && Nested(sc.nest, t) && sc.nest + Depth(t) >= 0
    ensures Scan(sc, t, pos) == Ok(sc.(token := sc.token + t, nest := sc.nest + Depth(t)))
    decreases |t|
  {
    if t == [] {
      assert sc.token + t == sc.token;
    } else {
      var c := t[0];
      var rest := t[1..];
      if c == ')' || c == ',' {
        assert t[..0] == [];
      }
      var nest' := sc.nest + Delta(c);
      assert nest' >= 0;
      var next := sc.(token := sc.token + [c], nest := nest');
      assert Step(sc, c, pos) == Ok(next);
      forall k | 0 <= k < |rest| && (rest[k] == ')' || rest[k] == ',')
        ensures nest' + Depth(rest[..k]) > 0
      {
        assert t[..k + 1][0] == c && t[..k + 1][1..] == rest[..k];
        assert t[k + 1] == rest[k];
      }
      ScanNested(next, rest, pos + 1);
      assert next.token + rest == sc.token + t;
    }
  }

  /** One valid argument becomes the pending token. */
  lemma ScanOneArgument(sc: Scanner, a: string, pos: int)
    requires sc.state == Argument && sc.nest == 0 && sc.token == [] && ValidArg(a)
    ensures Scan(sc, a, pos) == Ok(sc.(token := a))
  {
    ScanNested(sc, a, pos);
    assert sc.token + a == a;
  }

  /** A top-level comma moves the pending token to the argument list. */
  lemma ScanComma(sc: Scanner, pos: int)
    requires sc.state == Argument && sc.nest == 0 && sc.token != []
    ensures Scan(sc, ",", pos) == Ok(sc.(args := sc.args + [sc.token], token := ""))
  {
    var next := sc.(args := sc.args + [sc.token], token := "");
    assert Step(sc, ',', pos) == Ok(next);
    assert ","[0] == ',' && ","[1..] == [];
  }

  /** After `(`, a list of valid arguments leaves the last one pending in the token and
      all the others in the list. */
  lemma {:induction false} ScanArguments(sc: Scanner, args: seq<string>, pos: int)
    requires sc.state == Argument && sc.nest == 0 && sc.token == []
    requires |args| > 0 && ValidArgs(args)
    ensures Scan(sc, Join(args), pos) == Ok(sc.(token := args[|args| - 1], args := sc.args + args[..|args| - 1]))
    decreases |args|
  {
    var a := args[0];
    assert ValidArg(a);
    ScanOneArgument(sc, a, pos);
    if |args| == 1 {
      assert Join(args) == a;
      assert sc.args + args[..0] == sc.args;
    } else {
      var rest := args[1..];
      assert ValidArgs(rest) by {
        forall k | 0 <= k < |rest| ensures ValidArg(rest[k]) {
          assert rest[k] == args[k + 1];
        }
      }
      var mid := sc.(token := a);
      var next := sc.(args := sc.args + [a], token := "");
      calc {
        Scan(sc, Join(args), pos);
        { assert Join(args) == a + ("," + Join(rest)); }
        Scan(sc, a + ("," + Join(rest)), pos);
        { ScanAppend(sc, a, "," + Join(rest), pos); }
        Scan(mid, "," + Join(rest), pos + |a|);
        { ScanAppend(mid, ",", Join(rest), pos + |a|); ScanComma(mid, pos + |a|); }
        Scan(next, Join(rest), pos + |a| + 1);
        { ScanArguments(next, rest, pos + |a| + 1); }
        Ok(next.(token := rest[|rest| - 1], args := next.args + rest[..|rest| - 1]));
        { assert next.args + rest[..|rest| - 1] == sc.args + args[..|args| - 1] by {
            assert args[..|args| - 1] == [a] + rest[..|rest| - 1];
          }
        }
        Ok(sc.(token := args[|args| - 1], args := sc.args + args[..|args| - 1]));
      }
    }
  }

  /** The scanner state after `name(`. */
  lemma ScanNameParen(name: string)
    requires name != [] && PlainName(name)
    ensures Scan(START, name + "(", 0) == Ok(Scanner(Argument, 0, "", name, []))
  {
    ScanAppend(START, name, "(", 0);
    ScanPlainName(START, name, 0);
    assert START.token + name == name;
    var named := START.(token := name);
    var afterParen := Scanner(Argument, 0, "", name, []);
    assert Step(named, '(', |name|) == Ok(afterParen);
    assert "("[0] == '(' && "("[1..] == [];
    assert Scan(named, "(", |name|) == Scan(afterParen, [], |name| + 1);
  }

  /** The scanner state after `name(` followed by a non-empty valid argument list. */
  lemma ScanOpened(name: string, args: seq<string>)
    requires name != [] && PlainName(name) && ValidArgs(args) && |args| > 0
    ensures Scan(START, name + "(" + Join(args), 0) ==
            Ok(Scanner(Argument, 0, args[|args| - 1], name, args[..|args| - 1]))
  {
    ScanNameParen(name);
    ScanAppend(START, name + "(", Join(args), 0);
    ScanArguments(Scanner(Argument, 0, "", name, []), args, |name| + 1);
    assert [] + args[..|args| - 1] == args[..|args| - 1];
  }

  // ---------------------------------------------------------------------------
  // Syntax errors

  /** Without any `(` the scanner never leaves the class name. */
  lemma {:induction false} NoParenStaysInClassName(sc: Scanner, t: string, pos: int)
    requires sc.state == ClassName && '(' !in t
    ensures Scan(sc, t, pos).Err? || Scan(sc, t, pos).value.state == ClassName
    decreases |t|
  {
    if t != [] {
      assert t[0] != '(' && '(' !in t[1..];
      match Step(sc, t[0], pos)
      case Err(e) =>
      case Ok(next) => NoParenStaysInClassName(next, t[1..], pos + 1);
    }
  }

  /** A string with no `(` at all, the empty string included, is a syntax error. */
  lemma NoParenIsError(s: string)
    requires '(' !in s
    ensures Parse(s).Err?
    ensures s == [] ==> Parse(s) == Err(-1)
  {
    NoParenStaysInClassName(START, s, 0);
  }

  /** `(` with no class name before it, and `)` or `,` before the first `(`, are syntax
      errors at that character. */
  lemma MisplacedBeforeClassNameIsError(name: string, c: char, rest: string)
    requires PlainName(name)
    requires c == ')' || c == ',' || (c == '(' && name == [])
    ensures Parse(name + [c] + rest) == Err(|name|)
  {
    ScanAppend(START, name + [c], rest, 0);
    ScanAppend(START, name, [c], 0);
    ScanPlainName(START, name, 0);
    assert START.token + name == name;
  }

  /** Nothing may follow the closing parenthesis. */
  lemma TrailingTextIsError(p: string, t: string)
    requires Scan(START, p, 0).Ok? && Scan(START, p, 0).value.state == Closed
    requires t != []
    ensures Parse(p + t) == Err(|p|)
  {
    ScanAppend(START, p, t, 0);
  }

  /** An empty argument is a syntax error: `name(,` and, after some arguments, `,,` or `,)`. */
  lemma EmptyArgumentIsError(name: string, args: seq<string>, c: char, rest: string)
    requires name != [] && PlainName(name) && ValidArgs(args)
    requires c == ',' || c == ')'
    ensures Parse(name + "(," + rest) == Err(|name| + 1)
    ensures |args| > 0 ==> Parse(name + "(" + Join(args) + "," + [c] + rest) == Err(|name| + 1 + |Join(args)| + 1)
  {
    ScanNameParen(name);
    assert name + "(," + rest == (name + "(") + ([','] + rest);
    ScanAppend(START, name + "(", [','] + rest, 0);
    if |args| > 0 {
      var p := name + "(" + Join(args);
      var last := args[|args| - 1];
      ScanOpened(name, args);
      var sc := Scanner(Argument, 0, last, name, args[..|args| - 1]);
      assert name + "(" + Join(args) + "," + [c] + rest == p + ([','] + ([c] + rest));
      ScanAppend(START, p, [','] + ([c] + rest), 0);
      assert ValidArg(last);
      var next := sc.(args := sc.args + [last], token := "");
      assert Step(sc, ',', |p|) == Ok(next);
      assert ([','] + ([c] + rest))[1..] == [c] + rest;
      assert Step(next, c, |p| + 1) == Err(|p| + 1);
    }
  }

  // ---------------------------------------------------------------------------
  // Round trip

  /** `name(a1,...,an)` parses back into its class name and its arguments; `name()`
      yields no arguments. */
  lemma ParseRender(name: string, args: seq<string>)
    requires name != [] && PlainName(name) && ValidArgs(args)
    ensures Scan(START, Render(name, args), 0) == Ok(Scanner(Closed, 0, if args == [] then "" else args[|args| - 1], name, args))
    ensures Parse(Render(name, args)) == Ok(Parsed(name, args))
  {
    ScanNameParen(name);
    var p := name + "(" + Join(args);
    ScanAppend(START, p, ")", 0);
    if args == [] {
      assert p == name + "(";
    } else {
      var last := args[|args| - 1];
      ScanOpened(name, args);
      assert ValidArg(last);
      assert args[..|args| - 1] + [last] == args;
    }
  }

  lemma {:induction false} JoinSnoc(args: seq<string>, a: string)
    requires args != []
    ensures Join(args + [a]) == Join(args) + "," + a
    decreases |args|
  {
    if |args| > 1 {
      assert (args + [a])[1..] == args[1..] + [a];
      JoinSnoc(args[1..], a);
    } else {
      assert args + [a] == [args[0], a];
    }
  }

  /** What the scanner has consumed, reassembled from its state. */
  function Consumed(sc: Scanner): string {
    match sc.state
    case ClassName => sc.token
    case Argument => sc.classname + "(" + (if sc.args == [] then sc.token else Join(sc.args) + "," + sc.token)
    case Closed => Render(sc.classname, sc.args)
  }

  lemma StepConsumes(sc: Scanner, c: char, i: int)
    requires Step(sc, c, i).Ok? && (sc.state == ClassName ==> sc.args == [])
    ensures Consumed(Step(sc, c, i).value) == Consumed(sc) + [c]
  {
    var next := Step(sc, c, i).value;
    match sc.state
    case ClassName =>
      if c == '(' {
        assert Consumed(next) == sc.token + "(" + "";
      }
    case Argument =>
      var pending := if sc.args == [] then sc.token else Join(sc.args) + "," + sc.token;
      assert Consumed(sc) == sc.classname + "(" + pending;
      if sc.nest == 0 && (c == ',' || c == ')') {
        if sc.token != [] && sc.args != [] {
          JoinSnoc(sc.args, sc.token);
        }
        if sc.token != [] && sc.args == [] {
          assert Join(sc.args + [sc.token]) == sc.token;
        }
        if c == ',' {
          assert Consumed(next) == sc.classname + "(" + (Join(sc.args + [sc.token]) + "," + "");
        }
      } else {
        assert next.token == sc.token + [c];
        assert next.args == sc.args;
        assert next.state == Argument;
      }
    case Closed =>
  }

  /** Everything the scanner reads is accounted for by its state. */
  lemma {:induction false} ScanConsumes(sc: Scanner, t: string, pos: int)
    requires Scan(sc, t, pos).Ok? && (sc.state == ClassName ==> sc.args == [])
    ensures Consumed(Scan(sc, t, pos).value) == Consumed(sc) + t
    decreases |t|
  {
    if t == [] {
      assert Consumed(sc) + t == Consumed(sc);
    } else {
      var next := Step(sc, t[0], pos).value;
      StepConsumes(sc, t[0], pos);
      ScanConsumes(next, t[1..], pos + 1);
      assert Consumed(sc) + [t[0]] + t[1..] == Consumed(sc) + t;
    }
  }

  // ---------------------------------------------------------------------------
  // An expression missing its closing parenthesis

  /** As written, a missing closing parenthesis is not an error: the pending argument
      is dropped and the others are kept. */
  lemma UnclosedDropsLastArgument(name: string, args: seq<string>)
    requires name != [] && PlainName(name) && ValidArgs(args)
    ensures Parse(name + "(") == Ok(Parsed(name, []))
    ensures |args| > 0 ==> Parse(name + "(" + Join(args)) == Ok(Parsed(name, args[..|args| - 1]))
  {
    ScanNameParen(name);
    if |args| > 0 {
      ScanOpened(name, args);
    }
  }

  /** For instance `A(b` is accepted as `A()`, which renders differently. */
  lemma UnclosedIsAccepted()
    ensures Parse("A(b") == Ok(Parsed("A", []))
    ensures Render("A", []) != "A(b"
  {
    assert ValidArg("b") by {
      assert "b"[..0] == [];
      assert Depth("b"[1..]) == 0;
    }
    assert PlainName("A");
    UnclosedDropsLastArgument("A", ["b"]);
    assert "A" + "(" + Join(["b"]) == "A(b";
    assert Render("A", [])[2] == ')';
  }

  /** The scan that also rejects an expression whose closing parenthesis is missing. */
  function ParseStrict(s: string): (r: Result<Parsed, int>)
    ensures r.Ok? ==> Parse(s) == r
  {
    match Scan(START, s, 0)
    case Err(e) => Err(e)
    case Ok(sc) =>
      if sc.state != Closed then Err(|s| - 1)
      else Ok(Parsed(sc.classname, sc.args))
  }

  /** The strict scan is an exact inverse of rendering: it reads back every valid
      expression, and whatever it accepts is the rendering of its result. */
  lemma ParseStrictInvertsRender(name: string, args: seq<string>, s: string)
    requires name != [] && PlainName(name) && ValidArgs(args)
    ensures ParseStrict(Render(name, args)) == Ok(Parsed(name, args))
    ensures ParseStrict(s).Ok? ==> Render(ParseStrict(s).value.classname, ParseStrict(s).value.args) == s
  {
    ParseRender(name, args);
    if ParseStrict(s).Ok? {
      ScanConsumes(START, s, 0);
      assert Consumed(START) + s == s;
    }
  }
}
