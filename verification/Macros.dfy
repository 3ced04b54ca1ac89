/**
 Emitting macros while the macro section of a binary is read: files start and end, and definitions
 inside interesting files become assignments and functions of the generated module.
 */
module Macros {
  import opened Options

  /** What reading the parameter list gives: names, a syntax error, or another exception. */
  datatype Params = Params(names: seq<string>) | BadSyntax | Broken

  datatype Cleaned = Cleaned(text: string, names: seq<string>)

  /** What the run is given: the interesting files, how parameter lists and expressions read, and
      the names that other modules define. */
  datatype Env = Env(
    interested: string -> bool, readParams: string -> Params, clean: string -> Option<Cleaned>, existing: string -> bool)

  /** An emitted macro, with the names its expression mentions. */
  datatype Macro = Macro(name: string, params: Option<seq<string>>, text: string, mentions: seq<string>, file: string, line: int)

  datatype Event = Define(line: int, data: string) | Undef | StartFile(name: string) | EndFile

  datatype State = State(scope: seq<string>, defining: int, defined: set<string>, output: seq<Macro>)

  // ----- One definition -----

  function IndexFrom(s: string, c: char, from: nat): (r: int)
    ensures -1 <= r < |s| && (r != -1 ==> from <= r && s[r] == c)
    ensures forall i :: from <= i < (if r == -1 then |s| else r) ==> s[i] != c
    decreases |s| - from
  {
    if from >= |s| then -1 else if s[from] == c then from else IndexFrom(s, c, from + 1)
  }

  datatype Parsed = Parsed(name: string, params: Option<string>, text: string)

  /** Splits a definition at its first space, or at the parentheses of a parameter list before it.
      Without any space the name loses its last character. */
  function Parse(data: string): Parsed {
    var firstSpace, openParen := IndexFrom(data, ' ', 0), IndexFrom(data, '(', 0);
    if openParen != -1 && openParen < firstSpace then
      var closeParen := IndexFrom(data, ')', openParen + 1);
      var params := if closeParen == -1 then "" else data[openParen..closeParen + 1];
      Parsed(data[..openParen], Some(params), data[closeParen + 1..])
    else if firstSpace == -1 then
      Parsed(if data == "" then "" else data[..|data| - 1], None, data)
    else
      Parsed(data[..firstSpace], None, data[firstSpace + 1..])
  }

  datatype Decision = Skip | Raise | Emit(macro: Macro)

  /** The macro's name is new, and what it mentions is defined or one of its parameters. */
  predicate IsNew(env: Env, defined: set<string>, m: Macro) {
    && m.name !in defined && !env.existing(m.name)
    && forall n <- m.mentions :: n in defined || (m.params.Some? && n in m.params.value)
  }

  /** What becomes of a definition in an interesting place. */
  function Decide(env: Env, defined: set<string>, file: string, line: int, data: string): (d: Decision)
    ensures d.Emit? ==> IsNew(env, defined, d.macro) && d.macro.file == file && d.macro.line == line
  {
    var p := Parse(data);
    match if p.params.None? then Params([]) else env.readParams(p.params.value)
    case BadSyntax => Skip
    case Broken => Raise
    case Params(names) =>
      var params := if p.params.None? then None else Some(names);
      if p.name in defined || env.existing(p.name) then Skip
      else if p.text == "" then Emit(Macro(p.name, params, "None", [], file, line))
      else
        match env.clean(p.text)
        case None => Skip
        case Some(c) =>
          if p.name == c.text || exists n <- c.names :: n !in defined && n !in names then Skip
          else Emit(Macro(p.name, params, c.text, c.names, file, line))
  }

  /** One callback; None when it raises. */
  function Next(env: Env, s: State, e: Event): Option<State> {
    match e
    case Define(line, data) =>
      if s.defining == 0 then Some(s)
      else
        (match Decide(env, s.defined, Top(s.scope), line, data)
         case Skip => Some(s)
         case Raise => None
         case Emit(m) => if s.scope == [] then None
                         else Some(s.(defined := s.defined + {m.name}, output := s.output + [m])))
    case Undef => Some(s)
    case StartFile(name) =>
      Some(s.(scope := s.scope + [name], defining := s.defining + if env.interested(name) then 1 else 0))
    case EndFile =>
      if s.scope == [] then None
      else
        var name := s.scope[|s.scope| - 1];
        Some(s.(scope := s.scope[..|s.scope| - 1], defining := s.defining - if env.interested(name) then 1 else 0))
  }

  function Top(scope: seq<string>): string {
    if scope == [] then "" else scope[|scope| - 1]
  }

  function Run(env: Env, s: State, es: seq<Event>): Option<State>
    decreases |es|
  {
    if es == [] then Some(s)
    else
      match Next(env, s, es[0])
      case None => None
      case Some(s') => Run(env, s', es[1..])
  }

  class MacroCallback {
    const env: Env
    var filescope: seq<string>
    var defining: int
    var defined: set<string>
    var output: seq<Macro>

    function Now(): State
      reads this
    {
      State(filescope, defining, defined, output)
    }

    constructor (env: Env, defined: set<string>)
      ensures this.env == env && Now() == State([], 0, defined, [])
    {
      this.env, this.defined := env, defined;
      filescope, defining, output := [], 0, [];
    }

    /** Whether a name in the expression is neither defined nor a parameter. */
    method Unbound(names: seq<string>, params: seq<string>) returns (r: bool)
      ensures r <==> exists n <- names :: n !in defined && n !in params
    {
      for i := 0 to |names|
        invariant forall n <- names[..i] :: n in defined || n in params
      {
        if names[i] !in defined && names[i] !in params {
          assert names[i] in names;
          return true;
        }
      }
      assert names[..|names|] == names;
      return false;
    }

    /** A definition; true if it raised, before anything was written unless no file was open. */
    method Define(line: int, data: string) returns (raised: bool)
      requires defining == Interesting(env, filescope)
      modifies this`defined, this`output
      ensures raised <==> Next(env, old(Now()), Event.Define(line, data)).None?
      ensures Now() == if raised then old(Now()) else Next(env, old(Now()), Event.Define(line, data)).value
    {
      if defining == 0 {
        return false;
      }
      var p := Parse(data);
      var params: Option<seq<string>> := None;
      if p.params.Some? {
        var args := env.readParams(p.params.value);
        if !args.Params? {
          return args.Broken?;
        }
        params := Some(args.names);
      }
      if p.name in defined || env.existing(p.name) {
        return false;
      }
      var text, mentions := "None", [];
      if p.text != "" {
        var c := env.clean(p.text);
        if c.None? || p.name == c.value.text {
          return false;
        }
        var unbound := Unbound(c.value.names, if params.Some? then params.value else []);
        if unbound {
          return false;
        }
        text, mentions := c.value.text, c.value.names;
      }
      defined := defined + {p.name};
      output := output + [Macro(p.name, params, text, mentions, filescope[|filescope| - 1], line)];
      return false;
    }

    method StartFile(name: string)
      modifies this`filescope, this`defining
      ensures Some(Now()) == Next(env, old(Now()), Event.StartFile(name))
    {
      filescope := filescope + [name];
      if env.interested(name) {
        defining := defining + 1;
      }
    }

    method EndFile() returns (raised: bool)
      modifies this`filescope, this`defining
      ensures raised <==> Next(env, old(Now()), Event.EndFile).None?
      ensures Now() == if raised then old(Now()) else Next(env, old(Now()), Event.EndFile).value
    {
      if filescope == [] {
        return true;
      }
      var name := filescope[|filescope| - 1];
      filescope := filescope[..|filescope| - 1];
      if env.interested(name) {
        defining := defining - 1;
      }
      return false;
    }
  }

  // ----- What every run keeps -----

  /** How many of the open files are interesting. */
  function Interesting(env: Env, scope: seq<string>): (n: nat)
    ensures n > 0 ==> scope != []
  {
    if scope == [] then 0
    else Interesting(env, scope[..|scope| - 1]) + if env.interested(scope[|scope| - 1]) then 1 else 0
  }

  function Names(ms: seq<Macro>): set<string> {
    set m <- ms :: m.name
  }

  predicate Distinct(ms: seq<Macro>) {
    forall i, j :: 0 <= i < j < |ms| ==> ms[i].name != ms[j].name
  }

  /** A consumer that takes the macros one after the other has every name bound that one mentions. */
  predicate Loads(ms: seq<Macro>, bound: set<string>)
    decreases |ms|
  {
    ms == []
    || (var m := ms[|ms| - 1];
        && Loads(ms[..|ms| - 1], bound)
        && forall n <- m.mentions :: n in bound + Names(ms[..|ms| - 1]) || (m.params.Some? && n in m.params.value))
  }

  ghost predicate Sound(env: Env, first: set<string>, s: State) {
    && s.defining == Interesting(env, s.scope)
    && s.defined == first + Names(s.output)
    && Distinct(s.output)
    && (forall m <- s.output :: m.name !in first && !env.existing(m.name))
    && Loads(s.output, first)
  }

  /** Every callback keeps this.  It raises exactly for the end of a file when none is open, and for a
      parameter list that cannot be read at all. */
  lemma NextSound(env: Env, first: set<string>, s: State, e: Event)
    requires Sound(env, first, s)
    ensures Next(env, s, e).Some? ==> Sound(env, first, Next(env, s, e).value) && s.output <= Next(env, s, e).value.output
    ensures Next(env, s, e).None? <==>
      (e.EndFile? && s.scope == []) || (e.Define? && s.defining != 0 && Decide(env, s.defined, Top(s.scope), e.line, e.data).Raise?)
  {
    match e
    case StartFile(name) =>
      StartSound(env, first, s, name);
    case EndFile =>
      EndSound(env, first, s);
    case Define(line, data) =>
      DefineSound(env, first, s, line, data);
    case Undef =>
  }

  lemma StartSound(env: Env, first: set<string>, s: State, name: string)
    requires Sound(env, first, s)
    ensures Next(env, s, StartFile(name)).Some?
    ensures Sound(env, first, Next(env, s, StartFile(name)).value) && s.output == Next(env, s, StartFile(name)).value.output
  {
    assert (s.scope + [name])[..|s.scope|] == s.scope;
  }

  lemma EndSound(env: Env, first: set<string>, s: State)
    requires Sound(env, first, s)
    ensures Next(env, s, EndFile).None? <==> s.scope == []
    ensures s.scope != [] ==> Sound(env, first, Next(env, s, EndFile).value) && s.output == Next(env, s, EndFile).value.output
  {
  }

  lemma DefineSound(env: Env, first: set<string>, s: State, line: int, data: string)
    requires Sound(env, first, s)
    ensures
      match Next(env, s, Define(line, data))
      case Some(s') => Sound(env, first, s') && s.output <= s'.output
        && (s.defining != 0 ==> !Decide(env, s.defined, Top(s.scope), line, data).Raise?)
      case None => s.defining != 0 && Decide(env, s.defined, Top(s.scope), line, data).Raise?
  {
    if s.defining != 0 {
      var d := Decide(env, s.defined, Top(s.scope), line, data);
      if d.Emit? {
        EmitSound(env, first, s, d.macro);
      }
    }
  }

  lemma EmitSound(env: Env, first: set<string>, s: State, m: Macro)
    requires Sound(env, first, s) && IsNew(env, s.defined, m)
    ensures Sound(env, first, s.(defined := s.defined + {m.name}, output := s.output + [m]))
  {
    OneMore(env, first, s.output, m);
    var out := s.output + [m];
    forall m' <- out ensures m'.name !in first && !env.existing(m'.name) {
      assert m' in s.output || m' == m;
    }
  }

  lemma OneMore(env: Env, first: set<string>, ms: seq<Macro>, m: Macro)
    requires Distinct(ms) && Loads(ms, first) && IsNew(env, first + Names(ms), m)
    ensures Distinct(ms + [m]) && Loads(ms + [m], first) && Names(ms + [m]) == Names(ms) + {m.name}
  {
    var out := ms + [m];
    assert out[..|out| - 1] == ms;
    assert forall i :: 0 <= i < |ms| ==> ms[i].name in Names(ms);
    NamesSnoc(ms, m);
  }

  lemma NamesSnoc(ms: seq<Macro>, m: Macro)
    ensures Names(ms + [m]) == Names(ms) + {m.name}
  {
    assert forall x <- ms :: x in ms + [m];
    assert m in ms + [m];
  }

  /** Over every run: the count is that of interesting open files, no name is emitted twice or
      clashes with one defined before, and the emitted macros load in order. */
  lemma {:induction false} RunSound(env: Env, first: set<string>, s: State, es: seq<Event>)
    requires Sound(env, first, s)
    ensures Run(env, s, es).Some? ==> Sound(env, first, Run(env, s, es).value) && s.output <= Run(env, s, es).value.output
    decreases |es|
  {
    if es != [] {
      NextSound(env, first, s, es[0]);
      if Next(env, s, es[0]).Some? {
        RunSound(env, first, Next(env, s, es[0]).value, es[1..]);
      }
    }
  }

  // ----- Nested files -----

  /** The contents of a file, or of a whole unit: definitions and files included. */
  datatype Items =
    | Done
    | Line(line: int, data: string, rest: Items)
    | Undefine(rest: Items)
    | Include(name: string, body: Items, rest: Items)

  function Events(t: Items): seq<Event> {
    match t
    case Done => []
    case Line(line, data, rest) => [Define(line, data)] + Events(rest)
    case Undefine(rest) => [Undef] + Events(rest)
    case Include(name, body, rest) => [StartFile(name)] + Events(body) + [EndFile] + Events(rest)
  }

  datatype Emitted = Emitted(defined: set<string>, output: seq<Macro>)

  /** The meaning of nested files without a counter: a definition is looked at when a file around
      it is interesting. */
  function Read(env: Env, t: Items, file: string, inside: bool, m: Emitted): Option<Emitted> {
    match t
    case Done => Some(m)
    case Undefine(rest) => Read(env, rest, file, inside, m)
    case Include(name, body, rest) =>
      (match Read(env, body, name, inside || env.interested(name), m)
       case None => None
       case Some(m') => Read(env, rest, file, inside, m'))
    case Line(line, data, rest) =>
      if !inside then Read(env, rest, file, inside, m)
      else
        match Decide(env, m.defined, file, line, data)
        case Skip => Read(env, rest, file, inside, m)
        case Raise => None
        case Emit(macro) => Read(env, rest, file, inside, Emitted(m.defined + {macro.name}, m.output + [macro]))
  }

  lemma {:induction false} RunAppend(env: Env, s: State, a: seq<Event>, b: seq<Event>)
    ensures Run(env, s, a + b) == match Run(env, s, a) case None => None case Some(s') => Run(env, s', b)
    decreases |a|
  {
    if a == [] {
      assert a + b == b;
    } else {
      assert (a + b)[0] == a[0] && (a + b)[1..] == a[1..] + b;
      if Next(env, s, a[0]).Some? {
        RunAppend(env, Next(env, s, a[0]).value, a[1..], b);
      }
    }
  }

  /** The state of the counting run after t, by the meaning of nested files. */
  function After(env: Env, s: State, t: Items): Option<State> {
    match Read(env, t, Top(s.scope), s.defining > 0, Emitted(s.defined, s.output))
    case None => None
    case Some(m) => Some(s.(defined := m.defined, output := m.output))
  }

  /** Counting gives nested files their meaning: it emits the same macros, and leaves the open files
      and the count as they were. */
  lemma {:induction false} CountingReads(env: Env, s: State, t: Items)
    requires s.defining == Interesting(env, s.scope)
    ensures Run(env, s, Events(t)) == After(env, s, t)
    decreases t
  {
    match t
    case Done =>
    case Undefine(rest) =>
      OneEvent(env, s, Undef, Events(rest));
      CountingReads(env, s, rest);
    case Line(line, data, rest) =>
      var e := Define(line, data);
      OneEvent(env, s, e, Events(rest));
      if Next(env, s, e).Some? {
        CountingReads(env, Next(env, s, e).value, rest);
      }
    case Include(name, body, rest) =>
      var s1 := Next(env, s, StartFile(name)).value;
      IncludeRuns(env, s, name, Events(body), Events(rest));
      Opened(env, s, name);
      CountingReads(env, s1, body);
      AfterInclude(env, s, name, body, rest);
      if After(env, s1, body).Some? {
        var s2 := After(env, s1, body).value;
        Closed(env, s, name, s2);
        CountingReads(env, Next(env, s2, EndFile).value, rest);
      }
  }

  /** The meaning of an included file, in terms of the states around it. */
  lemma AfterInclude(env: Env, s: State, name: string, body: Items, rest: Items)
    requires s.defining == Interesting(env, s.scope)
    ensures
      After(env, s, Include(name, body, rest)) ==
        match After(env, Next(env, s, StartFile(name)).value, body)
        case None => None
        case Some(s2) => After(env, s.(defined := s2.defined, output := s2.output), rest)
  {
    Opened(env, s, name);
  }

  lemma OneEvent(env: Env, s: State, e: Event, es: seq<Event>)
    ensures Run(env, s, [e] + es) == match Next(env, s, e) case None => None case Some(s') => Run(env, s', es)
  {
    assert ([e] + es)[1..] == es;
  }

  lemma IncludeRuns(env: Env, s: State, name: string, body: seq<Event>, rest: seq<Event>)
    ensures Run(env, s, [StartFile(name)] + body + [EndFile] + rest) ==
      match Run(env, Next(env, s, StartFile(name)).value, body)
      case None => None
      case Some(s2) => match Next(env, s2, EndFile) case None => None case Some(s3) => Run(env, s3, rest)
  {
    var s1 := Next(env, s, StartFile(name)).value;
    assert [StartFile(name)] + body + [EndFile] + rest == [StartFile(name)] + (body + ([EndFile] + rest));
    OneEvent(env, s, StartFile(name), body + ([EndFile] + rest));
    RunAppend(env, s1, body, [EndFile] + rest);
    if Run(env, s1, body).Some? {
      OneEvent(env, Run(env, s1, body).value, EndFile, rest);
    }
  }

  lemma Opened(env: Env, s: State, name: string)
    requires s.defining == Interesting(env, s.scope)
    ensures
      var s1 := Next(env, s, StartFile(name)).value;
      && s1.defining == Interesting(env, s1.scope) && Top(s1.scope) == name
      && (s1.defining > 0 <==> s.defining > 0 || env.interested(name))
  {
    assert (s.scope + [name])[..|s.scope|] == s.scope;
  }

  lemma Closed(env: Env, s: State, name: string, s2: State)
    requires s2.scope == s.scope + [name] && s2.defining == s.defining + if env.interested(name) then 1 else 0
    ensures Next(env, s2, EndFile) == Some(s.(defined := s2.defined, output := s2.output))
  {
    assert s2.scope[..|s.scope|] == s.scope;
  }

  // ----- How a definition is split -----

  predicate Without(s: string, c: char) { forall i :: 0 <= i < |s| ==> s[i] != c }

  lemma IndexPast(before: string, c: char, after: string, from: nat)
    requires from <= |before| && forall i :: from <= i < |before| ==> before[i] != c
    ensures IndexFrom(before + [c] + after, c, from) == |before|
  {
    var s, r := before + [c] + after, IndexFrom(before + [c] + after, c, from);
    assert s[|before|] == c;
    assert forall i :: from <= i < |before| ==> s[i] == before[i];
  }

  /** An object-like macro: a name, one space, and the body. */
  lemma ParseObject(name: string, body: string)
    requires Without(name, ' ') && Without(name, '(')
    ensures Parse(name + " " + body) == Parsed(name, None, body)
  {
    var data := name + " " + body;
    IndexPast(name, ' ', body, 0);
    var open := IndexFrom(data, '(', 0);
    assert open != -1 ==> open >= |name| by {
      assert forall i :: 0 <= i < |name| ==> data[i] == name[i];
    }
    assert data[..|name|] == name && data[|name| + 1..] == body;
  }

  /** A function-like macro: a name, the parameter list, one space, and the body, which keeps the
      space. */
  lemma ParseFunction(name: string, params: string, body: string)
    requires Without(name, ' ') && Without(name, '(') && Without(params, ')')
    ensures Parse(name + "(" + params + ")" + (" " + body)) == Parsed(name, Some("(" + params + ")"), " " + body)
  {
    var head, tail := name + "(" + params, ")" + (" " + body);
    var data := name + "(" + params + ")" + (" " + body);
    assert data == name + "(" + (params + tail);
    IndexPast(name, '(', params + tail, 0);
    forall i | |name| + 1 <= i < |head| ensures head[i] != ')' {
      assert head[i] == params[i - |name| - 1];
    }
    IndexPast(head, ')', " " + body, |name| + 1);
    SpaceComes(data, |name|, |head| + 1);
    assert data[..|name|] == name && data[|name|..|head| + 1] == "(" + params + ")";
    assert data[|head| + 1..] == " " + body;
  }

  lemma SpaceComes(data: string, k: nat, at: nat)
    requires k < at < |data| && data[at] == ' ' && forall i :: 0 <= i <= k ==> data[i] != ' '
    ensures IndexFrom(data, ' ', 0) > k
  {
    assert IndexFrom(data, ' ', 0) != -1;
  }

  predicate Contains(s: string, c: char, from: nat) {
    exists i :: from <= i < |s| && s[i] == c
  }

  /** For all data, when splitting loses nothing and adds nothing: without a parameter list, exactly
      when there is a space; with one, exactly when its parenthesis is closed. */
  lemma ParseExact(data: string)
    ensures
      var p, open := Parse(data), IndexFrom(data, '(', 0);
      if p.params.None? then p.name + " " + p.text == data <==> Contains(data, ' ', 0)
      else open != -1 && (Rejoins(p, data) <==> Contains(data, ')', open + 1))
  {
    if Parse(data).params.None? {
      ObjectSplit(data);
    } else {
      FunctionSplit(data, IndexFrom(data, '(', 0));
    }
  }

  lemma IndexFinds(s: string, c: char, from: nat)
    ensures IndexFrom(s, c, from) != -1 <==> Contains(s, c, from)
  {
    var r := IndexFrom(s, c, from);
    if r != -1 {
      assert from <= r < |s| && s[r] == c;
    }
  }

  lemma ObjectSplit(data: string)
    requires Parse(data).params.None?
    ensures Parse(data).name + " " + Parse(data).text == data <==> Contains(data, ' ', 0)
  {
    var p, space := Parse(data), IndexFrom(data, ' ', 0);
    var joined := p.name + " " + p.text;
    IndexFinds(data, ' ', 0);
    if space == -1 {
      assert |joined| == |p.name| + 1 + |p.text| > |data|;
    } else {
      assert joined == data[..space] + [data[space]] + data[space + 1..] == data;
    }
  }

  predicate Rejoins(p: Parsed, data: string) {
    p.params.Some? && p.params.value != "" && p.name + p.params.value + p.text == data
  }

  lemma FunctionSplit(data: string, open: int)
    requires Parse(data).params.Some? && open == IndexFrom(data, '(', 0) && open != -1
    ensures Rejoins(Parse(data), data) <==> Contains(data, ')', open + 1)
  {
    var close := IndexFrom(data, ')', open + 1);
    IndexFinds(data, ')', open + 1);
    ParseParts(data, open, close);
    if close != -1 {
      ThreeParts(data, open, close + 1);
    }
  }

  lemma ParseParts(data: string, open: int, close: int)
    requires Parse(data).params.Some? && open == IndexFrom(data, '(', 0) && open != -1
    requires close == IndexFrom(data, ')', open + 1)
    ensures Parse(data).name == data[..open] && Parse(data).text == data[close + 1..]
    ensures Parse(data).params == Some(if close == -1 then "" else data[open..close + 1])
  {
  }

  lemma ThreeParts(s: string, a: nat, b: nat)
    requires a <= b <= |s|
    ensures s[..a] + s[a..b] + s[b..] == s
  {
  }

  /** So a definition without a space never makes its own name known: over every callback the name is
      defined after it only if it was before. */
  lemma SpacelessNotDefined(env: Env, s: State, line: int, name: string)
    requires name != "" && Without(name, ' ') && Next(env, s, Define(line, name)).Some?
    ensures name in Next(env, s, Define(line, name)).value.defined <==> name in s.defined
  {
    assert !Contains(name, ' ', 0);
    IndexFinds(name, ' ', 0);
    assert |Parse(name).name| == |name| - 1;
  }

  // ----- Which definitions are emitted -----

  /** The body is empty, or cleans to a text other than the name that mentions only names that are
      defined, and parameters. */
  predicate Usable(env: Env, defined: set<string>, name: string, params: seq<string>, body: string) {
    body == "" ||
    match env.clean(body)
    case None => false
    case Some(c) => c.text != name && forall n <- c.names :: n in defined || n in params
  }

  function TextFor(env: Env, body: string): string {
    if body == "" || env.clean(body).None? then "None" else env.clean(body).value.text
  }

  function MentionsOf(env: Env, body: string): seq<string> {
    if body == "" || env.clean(body).None? then [] else env.clean(body).value.names
  }

  /** Whatever the data: a macro is emitted exactly if its parameter list reads, its name is new, and
      its body is usable; a parameter list that cannot be read at all raises. */
  lemma DecideExact(env: Env, defined: set<string>, file: string, line: int, data: string)
    ensures
      var (p, d) := (Parse(data), Decide(env, defined, file, line, data));
      var params := if p.params.None? then Params([]) else env.readParams(p.params.value);
      && (d.Raise? <==> params.Broken?)
      && (d.Emit? <==>
            params.Params? && p.name !in defined && !env.existing(p.name)
            && Usable(env, defined, p.name, params.names, p.text))
      && (d.Emit? ==> d.macro == Macro(p.name, if p.params.None? then None else Some(params.names),
                                       TextFor(env, p.text), MentionsOf(env, p.text), file, line))
  {
    var p := Parse(data);
    if p.text != "" && env.clean(p.text).Some? {
      var c := env.clean(p.text).value;
      assert (forall n <- c.names :: n in defined || n in []) <==> !exists n <- c.names :: n !in defined && n !in [];
    }
  }

  /** The callback for a definition in an interesting file. */
  ghost predicate InPlace(env: Env, s: State) {
    s.defining == Interesting(env, s.scope) && s.defining > 0
  }

  /** `name body`: the macro is written, as an assignment, exactly if its name is new and its body is
      usable without parameters; otherwise nothing changes. */
  lemma ObjectEmitted(env: Env, s: State, line: int, name: string, body: string)
    requires InPlace(env, s) && Without(name, ' ') && Without(name, '(')
    ensures
      var m := Macro(name, None, TextFor(env, body), MentionsOf(env, body), s.scope[|s.scope| - 1], line);
      Next(env, s, Define(line, name + " " + body)) == Some(
        if name !in s.defined && !env.existing(name) && Usable(env, s.defined, name, [], body)
        then s.(defined := s.defined + {name}, output := s.output + [m]) else s)
  {
    ParseObject(name, body);
    DecideExact(env, s.defined, Top(s.scope), line, name + " " + body);
  }

  /** `name(params) body`: the same as a function, with the parameters that the list reads as. */
  lemma FunctionEmitted(env: Env, s: State, line: int, name: string, params: string, body: string, names: seq<string>)
    requires InPlace(env, s) && Without(name, ' ') && Without(name, '(') && Without(params, ')')
    requires env.readParams("(" + params + ")") == Params(names)
    ensures
      var m := Macro(name, Some(names), TextFor(env, " " + body), MentionsOf(env, " " + body), s.scope[|s.scope| - 1], line);
      Next(env, s, Define(line, name + "(" + params + ")" + (" " + body))) == Some(
        if name !in s.defined && !env.existing(name) && Usable(env, s.defined, name, names, " " + body)
        then s.(defined := s.defined + {name}, output := s.output + [m]) else s)
  {
    ParseFunction(name, params, body);
    DecideExact(env, s.defined, Top(s.scope), line, name + "(" + params + ")" + (" " + body));
  }

  /** A parameter list with a syntax error is passed over, and one that is broken otherwise raises. */
  lemma ParamsRefused(env: Env, s: State, line: int, name: string, params: string, body: string)
    requires InPlace(env, s) && Without(name, ' ') && Without(name, '(') && Without(params, ')')
    requires !env.readParams("(" + params + ")").Params?
    ensures Next(env, s, Define(line, name + "(" + params + ")" + (" " + body)))
         == if env.readParams("(" + params + ")").Broken? then None else Some(s)
  {
    ParseFunction(name, params, body);
    DecideExact(env, s.defined, Top(s.scope), line, name + "(" + params + ")" + (" " + body));
  }

  /** A new function-like macro whose body mentions nothing but its parameters is always emitted, such
      as `SQ(x) ((x)*(x))`. */
  lemma ParametersSuffice(env: Env, s: State, line: int, name: string, params: string, body: string,
                          names: seq<string>, c: Cleaned)
    requires InPlace(env, s) && Without(name, ' ') && Without(name, '(') && Without(params, ')')
    requires env.readParams("(" + params + ")") == Params(names) && env.clean(" " + body) == Some(c)
    requires name !in s.defined && !env.existing(name) && c.text != name && forall n <- c.names :: n in names
    ensures Next(env, s, Define(line, name + "(" + params + ")" + (" " + body))) == Some(
      s.(defined := s.defined + {name},
         output := s.output + [Macro(name, Some(names), c.text, c.names, s.scope[|s.scope| - 1], line)]))
  {
    FunctionEmitted(env, s, line, name, params, body, names);
  }
}
