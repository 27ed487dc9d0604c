/** The command language of user/sh.c: tokens, the grammar as a function on token lists, printing,
    and the proof that printing followed by parsing is the identity. */
module ShellSpec {
  const MAXARGS := 10

  datatype Mode = Read | Truncate | Append

  /** The parsed command; T is the type of arguments and file names. */
  datatype Cmd<T> =
    | Exec(args: seq<T>)
    | Redir(cmd: Cmd<T>, file: T, mode: Mode)
    | Pipe(left: Cmd<T>, right: Cmd<T>)
    | List(left: Cmd<T>, right: Cmd<T>)
    | Back(cmd: Cmd<T>)

  /** '+' stands for >>. */
  datatype Token = Sym(c: char) | Word(w: string)

  // ---- tokens ----------------------------------------------------------------------------

  predicate Space(c: char) { c == ' ' || c == '\t' || c == '\r' || c == '\n' || c == 11 as char }
  predicate Symbol(c: char) { c == '<' || c == '|' || c == '>' || c == '&' || c == ';' || c == '(' || c == ')' }
  predicate WordChar(c: char) { !Space(c) && !Symbol(c) }

  /** The length of the word at the beginning of s. */
  function WordLen(s: string): (n: nat)
    ensures n <= |s| && (forall k :: 0 <= k < n ==> WordChar(s[k])) && (n < |s| ==> !WordChar(s[n]))
  {
    if s == "" || !WordChar(s[0]) then 0 else 1 + WordLen(s[1..])
  }

  function Lex(s: string): seq<Token> {
    if s == "" then []
    else if Space(s[0]) then Lex(s[1..])
    else if s[0] == '>' && |s| > 1 && s[1] == '>' then [Sym('+')] + Lex(s[2..])
    else if Symbol(s[0]) then [Sym(s[0])] + Lex(s[1..])
    else [Word(s[..WordLen(s)])] + Lex(s[WordLen(s)..])
  }

  // ---- the grammar -----------------------------------------------------------------------

  datatype Result = Fail | Ok(cmd: Cmd<string>, rest: seq<Token>)

  predicate At(ts: seq<Token>, c: char) { ts != [] && ts[0] == Sym(c) }

  predicate AtRedir(ts: seq<Token>) { At(ts, '<') || At(ts, '>') || At(ts, '+') }

  /** peek for "|)&;". */
  predicate AtEnd(ts: seq<Token>) { At(ts, '|') || At(ts, ')') || At(ts, '&') || At(ts, ';') }

  function ModeOf(c: char): Mode { if c == '<' then Read else if c == '>' then Truncate else Append }

  /** The execcmd inside gets one more argument. */
  function AddArg<T>(cmd: Cmd<T>, a: T): Cmd<T> {
    match cmd
    case Exec(args) => Exec(args + [a])
    case Redir(c, f, m) => Redir(AddArg(c, a), f, m)
    case _ => cmd
  }

  function ParseRedirs(cmd: Cmd<string>, ts: seq<Token>): (r: Result)
    ensures r.Ok? ==> |r.rest| <= |ts| && !AtRedir(r.rest)
    decreases |ts|
  {
    if !AtRedir(ts) then Ok(cmd, ts)
    else if |ts| > 1 && ts[1].Word? then ParseRedirs(Redir(cmd, ts[1].w, ModeOf(ts[0].c)), ts[2..])
    else Fail
  }

  /** The loop of parseexec, argc arguments having been read. */
  function ParseArgs(cmd: Cmd<string>, argc: nat, ts: seq<Token>): (r: Result)
    ensures r.Ok? ==> |r.rest| <= |ts|
    decreases |ts|
  {
    if ts == [] || AtEnd(ts) then Ok(cmd, ts)
    else if ts[0].Sym? || argc + 1 >= MAXARGS then Fail
    else
      var r := ParseRedirs(AddArg(cmd, ts[0].w), ts[1..]);
      if r.Ok? then ParseArgs(r.cmd, argc + 1, r.rest) else Fail
  }

  function ParseExec(ts: seq<Token>): (r: Result)
    ensures r.Ok? ==> |r.rest| <= |ts|
    decreases |ts|, 1
  {
    if At(ts, '(') then ParseBlock(ts)
    else
      var r := ParseRedirs(Exec([]), ts);
      if r.Ok? then ParseArgs(r.cmd, 0, r.rest) else Fail
  }

  function ParseBlock(ts: seq<Token>): (r: Result)
    requires At(ts, '(')
    ensures r.Ok? ==> |r.rest| <= |ts|
    decreases |ts|, 0
  {
    var r := ParseLine(ts[1..]);
    if r.Ok? && At(r.rest, ')') then ParseRedirs(r.cmd, r.rest[1..]) else Fail
  }

  function ParsePipe(ts: seq<Token>): (r: Result)
    ensures r.Ok? ==> |r.rest| <= |ts|
    decreases |ts|, 2
  {
    var l := ParseExec(ts);
    if l.Ok? && At(l.rest, '|') then
      var r := ParsePipe(l.rest[1..]);
      if r.Ok? then Ok(Pipe(l.cmd, r.cmd), r.rest) else Fail
    else l
  }

  function Backs(cmd: Cmd<string>, ts: seq<Token>): (r: Result)
    ensures r.Ok? && |r.rest| <= |ts|
    decreases |ts|
  {
    if At(ts, '&') then Backs(Back(cmd), ts[1..]) else Ok(cmd, ts)
  }

  /** parseline up to the semicolon. */
  function ParseBacked(ts: seq<Token>): (r: Result)
    ensures r.Ok? ==> |r.rest| <= |ts|
    decreases |ts|, 3
  {
    var p := ParsePipe(ts);
    if p.Ok? then Backs(p.cmd, p.rest) else Fail
  }

  function ParseLine(ts: seq<Token>): (r: Result)
    ensures r.Ok? ==> |r.rest| <= |ts|
    decreases |ts|, 4
  {
    var l := ParseBacked(ts);
    if l.Ok? && At(l.rest, ';') then
      var r := ParseLine(l.rest[1..]);
      if r.Ok? then Ok(List(l.cmd, r.cmd), r.rest) else Fail
    else l
  }

  /** parsecmd: the whole line, nothing left over. */
  function Parse(s: string): Result {
    var r := ParseLine(Lex(s));
    if r.Ok? && r.rest == [] then r else Fail
  }

  // ---- printing --------------------------------------------------------------------------

  function Words(args: seq<string>): seq<Token> {
    if args == [] then [] else [Word(args[0])] + Words(args[1..])
  }

  /** The command inside all redirections, and the tokens of the redirections. */
  function Core(c: Cmd<string>): Cmd<string> { if c.Redir? then Core(c.cmd) else c }

  function SymOf(m: Mode): Token { match m case Read => Sym('<') case Truncate => Sym('>') case Append => Sym('+') }

  function Redirs(c: Cmd<string>): seq<Token> {
    if c.Redir? then Redirs(c.cmd) + [SymOf(c.mode), Word(c.file)] else []
  }

  function PrintExec(c: Cmd<string>): seq<Token>
    decreases c, 1
  {
    CoreSmaller(c);
    (if Core(c).Exec? then Words(Core(c).args) else [Sym('(')] + PrintCompound(Core(c)) + [Sym(')')]) + Redirs(c)
  }

  lemma {:induction false} CoreSmaller(c: Cmd<string>)
    ensures Core(c) == c || Core(c) < c
  {
    if c.Redir? { CoreSmaller(c.cmd); }
  }

  function PrintPipe(c: Cmd<string>): seq<Token>
    decreases c, 2
  {
    if c.Pipe? then PrintExec(c.left) + ([Sym('|')] + PrintPipe(c.right)) else PrintExec(c)
  }

  function PrintBack(c: Cmd<string>): seq<Token>
    decreases c, 3
  {
    if c.Back? then PrintBack(c.cmd) + [Sym('&')] else PrintPipe(c)
  }

  function PrintLine(c: Cmd<string>): seq<Token>
    decreases c, 4
  {
    if c.List? then PrintBack(c.left) + ([Sym(';')] + PrintLine(c.right)) else PrintBack(c)
  }

  /** PrintLine of a pipe, list or background command, for use between parentheses. */
  function PrintCompound(c: Cmd<string>): seq<Token>
    decreases c, 0
  {
    match c
    case Pipe(l, r) => PrintExec(l) + ([Sym('|')] + PrintPipe(r))
    case List(l, r) => PrintBack(l) + ([Sym(';')] + PrintLine(r))
    case Back(x) => PrintBack(x) + [Sym('&')]
    case _ => []
  }

  function ShowToken(t: Token): string { if t.Word? then t.w + " " else if t.c == '+' then ">> " else [t.c] + " " }

  function Show(ts: seq<Token>): string { if ts == [] then "" else ShowToken(ts[0]) + Show(ts[1..]) }

  // ---- printing and then parsing ---------------------------------------------------------

  /** A word that a line can hold: neither blanks and symbols nor the NUL that ends the line. */
  predicate CleanWord(w: string) { w != "" && forall k :: 0 <= k < |w| ==> WordChar(w[k]) && w[k] != 0 as char }

  predicate CleanToken(t: Token) { if t.Word? then CleanWord(t.w) else Symbol(t.c) || t.c == '+' }

  predicate CleanTokens(ts: seq<Token>) { forall i :: 0 <= i < |ts| ==> CleanToken(ts[i]) }

  /** At most MAXARGS - 1 arguments, and words without blanks and symbols. */
  predicate Clean(c: Cmd<string>) {
    match c
    case Exec(args) => |args| < MAXARGS && forall i :: 0 <= i < |args| ==> CleanWord(args[i])
    case Redir(x, f, _) => Clean(x) && CleanWord(f)
    case Pipe(l, r) => Clean(l) && Clean(r)
    case List(l, r) => Clean(l) && Clean(r)
    case Back(x) => Clean(x)
  }

  lemma {:induction false} WordLenOf(w: string, s: string)
    requires forall k :: 0 <= k < |w| ==> WordChar(w[k])
    ensures WordLen(w + " " + s) == |w|
  {
    if w != "" {
      assert (w + " " + s)[1..] == w[1..] + " " + s;
      WordLenOf(w[1..], s);
    }
  }

  lemma LexToken(t: Token, s: string)
    requires CleanToken(t)
    ensures Lex(ShowToken(t) + s) == [t] + Lex(s)
  {
    var x := ShowToken(t) + s;
    if t.Word? {
      WordLenOf(t.w, s);
      assert x == t.w + " " + s && x[0] == t.w[0];
      assert x[..|t.w|] == t.w && x[|t.w|..] == " " + s;
      assert (" " + s)[1..] == s;
    } else if t.c == '+' {
      assert ">> " == ">>" + " ";
      Regroup(">>", " ", s);
      assert x[2..] == " " + s && (" " + s)[1..] == s;
    } else {
      assert x[1..] == " " + s && (" " + s)[1..] == s && x[1] == ' ';
    }
  }

  lemma {:induction false} LexShow(ts: seq<Token>)
    requires CleanTokens(ts)
    ensures Lex(Show(ts)) == ts
  {
    if ts != [] {
      LexShow(ts[1..]);
      LexToken(ts[0], Show(ts[1..]));
    }
  }

  /** The printed line is a C string. */
  lemma {:induction false} ShowHasNoNul(ts: seq<Token>)
    requires CleanTokens(ts)
    ensures 0 as char !in Show(ts)
  {
    if ts != [] {
      ShowHasNoNul(ts[1..]);
      assert CleanToken(ts[0]);
    }
  }

  /** What may come after a command of the given level. */
  predicate AfterLine(ts: seq<Token>) { ts == [] || At(ts, ')') }
  predicate AfterBack(ts: seq<Token>) { AfterLine(ts) || At(ts, ';') || At(ts, '&') }
  predicate AfterExec(ts: seq<Token>) { AfterBack(ts) || At(ts, '|') }

  function Wrap(c: Cmd<string>, core: Cmd<string>): Cmd<string> {
    if c.Redir? then Redir(Wrap(c.cmd, core), c.file, c.mode) else core
  }

  lemma {:induction false} WrapCore(c: Cmd<string>)
    ensures Wrap(c, Core(c)) == c
  {
    if c.Redir? { WrapCore(c.cmd); }
  }

  /** The redirections of c, parsed around core. */
  lemma {:induction false} RedirsBack(c: Cmd<string>, core: Cmd<string>, rest: seq<Token>)
    ensures ParseRedirs(core, Redirs(c) + rest) == ParseRedirs(Wrap(c, core), rest)
  {
    if c.Redir? {
      var tail := [SymOf(c.mode), Word(c.file)] + rest;
      assert Redirs(c) + rest == Redirs(c.cmd) + tail;
      RedirsBack(c.cmd, core, tail);
      assert tail[2..] == rest;
    } else {
      assert Redirs(c) + rest == rest;
    }
  }

  lemma OneArg(cmd: Cmd<string>, argc: nat, w: string, more: seq<Token>)
    requires argc + 1 < MAXARGS
    ensures ParseArgs(cmd, argc, [Word(w)] + more) ==
              var r := ParseRedirs(AddArg(cmd, w), more); if r.Ok? then ParseArgs(r.cmd, argc + 1, r.rest) else Fail
  {
    var ts := [Word(w)] + more;
    assert ts[0] == Word(w) && ts[1..] == more;
  }

  lemma WordsCons(todo: seq<string>, tail: seq<Token>)
    requires todo != []
    ensures Words(todo) + tail == [Word(todo[0])] + (Words(todo[1..]) + tail)
            && (Words(todo) + tail)[0] == Word(todo[0])
  {
    Regroup([Word(todo[0])], Words(todo[1..]), tail);
  }

  lemma Regroup<T>(a: seq<T>, b: seq<T>, c: seq<T>)
    ensures a + b + c == a + (b + c)
  {
  }

  lemma LastArg(done: seq<string>, w: string, c: Cmd<string>, rest: seq<Token>)
    requires |done| + 1 < MAXARGS && AfterExec(rest)
    ensures ParseArgs(Exec(done), |done|, [Word(w)] + (Redirs(c) + rest)) == Ok(Wrap(c, Exec(done + [w])), rest)
  {
    OneArg(Exec(done), |done|, w, Redirs(c) + rest);
    RedirsBack(c, Exec(done + [w]), rest);
  }

  /** The arguments in todo and then the redirections of c. */
  lemma {:induction false} ArgsBack(done: seq<string>, todo: seq<string>, c: Cmd<string>, rest: seq<Token>)
    requires todo != [] && |done| + |todo| < MAXARGS && AfterExec(rest)
    ensures ParseArgs(Exec(done), |done|, Words(todo) + (Redirs(c) + rest)) == Ok(Wrap(c, Exec(done + todo)), rest)
    decreases |todo|
  {
    var tail := Redirs(c) + rest;
    WordsCons(todo, tail);
    if |todo| == 1 {
      assert Words(todo[1..]) + tail == tail && todo == [todo[0]];
      LastArg(done, todo[0], c, rest);
    } else {
      var more := Words(todo[1..]) + tail;
      WordsCons(todo[1..], tail);
      OneArg(Exec(done), |done|, todo[0], more);
      ArgsBack(done + [todo[0]], todo[1..], c, rest);
      assert done + [todo[0]] + todo[1..] == done + todo;
    }
  }

  lemma OnlyRedirsBack(c: Cmd<string>, rest: seq<Token>)
    requires AfterExec(rest)
    ensures ParseExec(Redirs(c) + rest) == Ok(Wrap(c, Exec([])), rest)
  {
    RedirsBack(c, Exec([]), rest);
    RedirsHead(c);
    assert !At(Redirs(c) + rest, '(');
  }

  lemma SimpleBack(c: Cmd<string>, args: seq<string>, rest: seq<Token>)
    requires |args| < MAXARGS && AfterExec(rest)
    ensures ParseExec(Words(args) + (Redirs(c) + rest)) == Ok(Wrap(c, Exec(args)), rest)
  {
    if args == [] {
      OnlyRedirsBack(c, rest);
      assert Words(args) + (Redirs(c) + rest) == Redirs(c) + rest;
    } else {
      WordsCons(args, Redirs(c) + rest);
      ArgsBack([], args, c, rest);
      assert [] + args == args;
    }
  }

  lemma {:induction false} ExecBack(c: Cmd<string>, rest: seq<Token>)
    requires Clean(c) && AfterExec(rest)
    ensures ParseExec(PrintExec(c) + rest) == Ok(c, rest)
    decreases c, 2
  {
    CoreSmaller(c);
    CleanCore(c);
    WrapCore(c);
    var core, tail := Core(c), Redirs(c) + rest;
    if core.Exec? {
      Regroup(Words(core.args), Redirs(c), rest);
      SimpleBack(c, core.args, rest);
    } else {
      assert PrintExec(c) + rest == [Sym('(')] + (PrintCompound(core) + ([Sym(')')] + tail)) by {
        Regroup([Sym('(')] + PrintCompound(core) + [Sym(')')], Redirs(c), rest);
        Regroup([Sym('(')] + PrintCompound(core), [Sym(')')], tail);
        Regroup([Sym('(')], PrintCompound(core), [Sym(')')] + tail);
      }
      CompoundBack(core, [Sym(')')] + tail);
      BlockBack(core, PrintCompound(core), tail);
      RedirsBack(c, core, rest);
    }
  }

  lemma BlockBack(core: Cmd<string>, inner: seq<Token>, tail: seq<Token>)
    requires ParseLine(inner + ([Sym(')')] + tail)) == Ok(core, [Sym(')')] + tail)
    ensures ParseExec([Sym('(')] + (inner + ([Sym(')')] + tail))) == ParseRedirs(core, tail)
  {
    var ts := [Sym('(')] + (inner + ([Sym(')')] + tail));
    assert ts[1..] == inner + ([Sym(')')] + tail) && ([Sym(')')] + tail)[1..] == tail;
  }

  lemma {:induction false} RedirsHead(c: Cmd<string>)
    ensures Redirs(c) == [] || AtRedir(Redirs(c))
  {
    if c.Redir? { RedirsHead(c.cmd); }
  }

  lemma {:induction false} CleanCore(c: Cmd<string>)
    requires Clean(c)
    ensures Clean(Core(c)) && !Core(c).Redir?
  {
    if c.Redir? { CleanCore(c.cmd); }
  }

  lemma {:induction false} PipeBack(c: Cmd<string>, rest: seq<Token>)
    requires Clean(c) && AfterBack(rest)
    ensures ParsePipe(PrintPipe(c) + rest) == Ok(c, rest)
    decreases c, 3
  {
    if c.Pipe? { PartsBack(c, rest); } else { ExecBack(c, rest); }
  }

  lemma {:induction false} PartsBack(c: Cmd<string>, rest: seq<Token>)
    requires c.Pipe? && Clean(c) && AfterBack(rest)
    ensures ParsePipe(PrintCompound(c) + rest) == Ok(c, rest)
    decreases c, 0
  {
    var tail := [Sym('|')] + (PrintPipe(c.right) + rest);
    assert PrintCompound(c) + rest == PrintExec(c.left) + tail;
    ExecBack(c.left, tail);
    assert tail[1..] == PrintPipe(c.right) + rest;
    PipeBack(c.right, rest);
  }

  lemma {:induction false} BackBack(c: Cmd<string>, rest: seq<Token>)
    requires Clean(c) && AfterBack(rest)
    ensures ParseBacked(PrintBack(c) + rest) == Backs(c, rest)
    decreases c, 4
  {
    if c.Back? {
      var tail := [Sym('&')] + rest;
      assert PrintBack(c) + rest == PrintBack(c.cmd) + tail;
      BackBack(c.cmd, tail);
      assert tail[1..] == rest;
    } else {
      PipeBack(c, rest);
    }
  }

  lemma {:induction false} LineBack(c: Cmd<string>, rest: seq<Token>)
    requires Clean(c) && AfterLine(rest)
    ensures ParseLine(PrintLine(c) + rest) == Ok(c, rest)
    decreases c, 5
  {
    if c.List? { CompoundBack(c, rest); } else { BackBack(c, rest); }
  }

  lemma {:induction false} CompoundBack(c: Cmd<string>, rest: seq<Token>)
    requires !c.Exec? && !c.Redir? && Clean(c) && AfterLine(rest)
    ensures ParseLine(PrintCompound(c) + rest) == Ok(c, rest)
    decreases c, 1
  {
    match c
    case Pipe(l, r) =>
      PartsBack(c, rest);
    case List(l, r) =>
      var tail := [Sym(';')] + (PrintLine(r) + rest);
      assert PrintCompound(c) + rest == PrintBack(l) + tail;
      BackBack(l, tail);
      assert tail[1..] == PrintLine(r) + rest;
      LineBack(r, rest);
    case Back(x) =>
      var tail := [Sym('&')] + rest;
      assert PrintCompound(c) + rest == PrintBack(x) + tail;
      BackBack(x, tail);
      assert tail[1..] == rest;
  }

  // the tokens of a clean command are clean

  lemma {:induction false} RedirsClean(c: Cmd<string>)
    requires Clean(c)
    ensures CleanTokens(Redirs(c))
  {
    if c.Redir? { RedirsClean(c.cmd); }
  }

  lemma {:induction false} WordsClean(args: seq<string>)
    requires forall i :: 0 <= i < |args| ==> CleanWord(args[i])
    ensures CleanTokens(Words(args))
  {
    if args != [] { WordsClean(args[1..]); }
  }

  lemma {:induction false} ExecClean(c: Cmd<string>)
    requires Clean(c)
    ensures CleanTokens(PrintExec(c))
    decreases c, 1
  {
    CoreSmaller(c);
    CleanCore(c);
    RedirsClean(c);
    if Core(c).Exec? { WordsClean(Core(c).args); } else { CompoundClean(Core(c)); }
  }

  lemma {:induction false} PipeClean(c: Cmd<string>)
    requires Clean(c)
    ensures CleanTokens(PrintPipe(c))
    decreases c, 2
  {
    if c.Pipe? { CompoundClean(c); } else { ExecClean(c); }
  }

  lemma {:induction false} BackClean(c: Cmd<string>)
    requires Clean(c)
    ensures CleanTokens(PrintBack(c))
    decreases c, 3
  {
    if c.Back? { BackClean(c.cmd); } else { PipeClean(c); }
  }

  lemma {:induction false} LineClean(c: Cmd<string>)
    requires Clean(c)
    ensures CleanTokens(PrintLine(c))
    decreases c, 4
  {
    if c.List? { CompoundClean(c); } else { BackClean(c); }
  }

  lemma {:induction false} CompoundClean(c: Cmd<string>)
    requires Clean(c) && !c.Exec? && !c.Redir?
    ensures CleanTokens(PrintCompound(c))
    decreases c, 0
  {
    match c
    case Pipe(l, r) =>
      ExecClean(l);
      PipeClean(r);
    case List(l, r) =>
      BackClean(l);
      LineClean(r);
    case Back(x) =>
      BackClean(x);
  }

  /** Every command tree with clean words and few enough arguments comes back from its print. */
  lemma RoundTrip(c: Cmd<string>)
    requires Clean(c)
    ensures Parse(Show(PrintLine(c))) == Ok(c, []) && 0 as char !in Show(PrintLine(c))
  {
    LineClean(c);
    ShowHasNoNul(PrintLine(c));
    LexShow(PrintLine(c));
    LineBack(c, []);
    assert PrintLine(c) + [] == PrintLine(c);
  }

  // ---- what parsing can give -------------------------------------------------------------

  /** The tokens of a line without NUL are clean. */
  lemma {:induction false} LexClean(s: string)
    requires 0 as char !in s
    ensures CleanTokens(Lex(s))
    decreases |s|
  {
    if s != "" {
      if Space(s[0]) {
        LexClean(s[1..]);
      } else if s[0] == '>' && |s| > 1 && s[1] == '>' {
        LexClean(s[2..]);
      } else if Symbol(s[0]) {
        LexClean(s[1..]);
      } else {
        var n := WordLen(s);
        assert CleanWord(s[..n]);
        LexClean(s[n..]);
      }
    }
  }

  /** The arguments of the command inside all redirections. */
  function Count(c: Cmd<string>): nat {
    match c
    case Exec(args) => |args|
    case Redir(x, _, _) => Count(x)
    case _ => 0
  }

  predicate Gives(r: Result) { r.Ok? ==> Clean(r.cmd) && CleanTokens(r.rest) }

  lemma {:induction false} AddArgClean(c: Cmd<string>, w: string)
    requires Clean(c) && CleanWord(w) && Count(c) + 1 < MAXARGS
    ensures Clean(AddArg(c, w)) && Count(AddArg(c, w)) <= Count(c) + 1
  {
    if c.Redir? { AddArgClean(c.cmd, w); }
  }

  lemma {:induction false} RedirsGive(c: Cmd<string>, ts: seq<Token>)
    requires Clean(c) && CleanTokens(ts)
    ensures Gives(ParseRedirs(c, ts)) && (ParseRedirs(c, ts).Ok? ==> Count(ParseRedirs(c, ts).cmd) == Count(c))
    decreases |ts|
  {
    if AtRedir(ts) && |ts| > 1 && ts[1].Word? {
      assert CleanToken(ts[1]);
      RedirsGive(Redir(c, ts[1].w, ModeOf(ts[0].c)), ts[2..]);
    }
  }

  lemma {:induction false} ArgsGive(c: Cmd<string>, argc: nat, ts: seq<Token>)
    requires Clean(c) && CleanTokens(ts) && Count(c) <= argc
    ensures Gives(ParseArgs(c, argc, ts))
    decreases |ts|
  {
    if ts != [] && !AtEnd(ts) && ts[0].Word? && argc + 1 < MAXARGS {
      assert CleanToken(ts[0]);
      AddArgClean(c, ts[0].w);
      RedirsGive(AddArg(c, ts[0].w), ts[1..]);
      var r := ParseRedirs(AddArg(c, ts[0].w), ts[1..]);
      if r.Ok? { ArgsGive(r.cmd, argc + 1, r.rest); }
    }
  }

  lemma {:induction false} ExecGives(ts: seq<Token>)
    requires CleanTokens(ts)
    ensures Gives(ParseExec(ts))
    decreases |ts|, 1
  {
    if At(ts, '(') {
      LineGives(ts[1..]);
      var r := ParseLine(ts[1..]);
      if r.Ok? && At(r.rest, ')') { RedirsGive(r.cmd, r.rest[1..]); }
    } else {
      RedirsGive(Exec([]), ts);
      var r := ParseRedirs(Exec([]), ts);
      if r.Ok? { ArgsGive(r.cmd, 0, r.rest); }
    }
  }

  lemma {:induction false} PipeGives(ts: seq<Token>)
    requires CleanTokens(ts)
    ensures Gives(ParsePipe(ts))
    decreases |ts|, 2
  {
    ExecGives(ts);
    var l := ParseExec(ts);
    if l.Ok? && At(l.rest, '|') { PipeGives(l.rest[1..]); }
  }

  lemma {:induction false} BacksGive(c: Cmd<string>, ts: seq<Token>)
    requires Clean(c) && CleanTokens(ts)
    ensures Gives(Backs(c, ts))
    decreases |ts|
  {
    if At(ts, '&') { BacksGive(Back(c), ts[1..]); }
  }

  lemma {:induction false} LineGives(ts: seq<Token>)
    requires CleanTokens(ts)
    ensures Gives(ParseLine(ts))
    decreases |ts|, 3
  {
    PipeGives(ts);
    var p := ParsePipe(ts);
    if p.Ok? {
      BacksGive(p.cmd, p.rest);
      var l := Backs(p.cmd, p.rest);
      if At(l.rest, ';') { LineGives(l.rest[1..]); }
    }
  }

  /** The trees that parsecmd can return are exactly the clean ones. */
  lemma ParsesExactly(c: Cmd<string>)
    ensures Clean(c) <==> exists s: string :: 0 as char !in s && Parse(s) == Ok(c, [])
  {
    if Clean(c) {
      RoundTrip(c);
    }
    forall s: string | 0 as char !in s && Parse(s) == Ok(c, []) ensures Clean(c) {
      LexClean(s);
      LineGives(Lex(s));
    }
  }
}
