/** The recursive-descent parser of user/sh.c on its input buffer: a cursor that every routine
    moves on, arguments as positions in the buffer, and the NULs written at their ends. */
module Shell {
  import opened Common
  import opened ShellSpec
  import ShellGrammar

  /** A word of the buffer: from q up to, not including, eq. */
  datatype Span = Span(q: int, eq: int)

  /** sp is a whole word of s. */
  predicate IsWord(s: string, sp: Span) {
    && 0 <= sp.q < sp.eq <= |s| && (forall k :: sp.q <= k < sp.eq ==> WordChar(s[k]))
    && (sp.eq < |s| ==> !WordChar(s[sp.eq]))
  }

  /** The words of a command are words of s. */
  predicate Words(s: string, c: Cmd<Span>) {
    match c
    case Exec(args) => forall i :: 0 <= i < |args| ==> IsWord(s, args[i])
    case Redir(x, f, _) => Words(s, x) && IsWord(s, f)
    case Pipe(l, r) => Words(s, l) && Words(s, r)
    case List(l, r) => Words(s, l) && Words(s, r)
    case Back(x) => Words(s, x)
  }

  function Texts(s: string, args: seq<Span>): (r: seq<string>)
    requires forall i :: 0 <= i < |args| ==> IsWord(s, args[i])
    ensures |r| == |args|
  {
    if args == [] then [] else
    var last := args[|args| - 1];
    assert IsWord(s, last);
    Texts(s, args[..|args| - 1]) + [s[last.q..last.eq]]
  }

  /** The command with the words that its positions stand for. */
  function Text(s: string, c: Cmd<Span>): Cmd<string>
    requires Words(s, c)
  {
    match c
    case Exec(args) => Exec(Texts(s, args))
    case Redir(x, f, m) => Redir(Text(s, x), s[f.q..f.eq], m)
    case Pipe(l, r) => Pipe(Text(s, l), Text(s, r))
    case List(l, r) => List(Text(s, l), Text(s, r))
    case Back(x) => Back(Text(s, x))
  }

  lemma {:induction false} TextAddArg(s: string, c: Cmd<Span>, a: Span)
    requires Words(s, c) && IsWord(s, a)
    ensures Words(s, AddArg(c, a)) && Text(s, AddArg(c, a)) == AddArg(Text(s, c), s[a.q..a.eq])
  {
    match c
    case Exec(args) => assert (args + [a])[..|args|] == args;
    case Redir(x, _, _) => TextAddArg(s, x, a);
    case _ =>
  }

  // ---- gettoken and peek -----------------------------------------------------------------

  /** Skipping blanks. */
  method Skip(s: string, i: int) returns (j: int)
    requires 0 <= i <= |s|
    ensures i <= j <= |s| && (j < |s| ==> !Space(s[j])) && Lex(s[i..]) == Lex(s[j..])
  {
    j := i;
    while j < |s| && Space(s[j])
      invariant i <= j <= |s| && Lex(s[i..]) == Lex(s[j..])
    {
      assert s[j..][1..] == s[j + 1..];
      j := j + 1;
    }
  }

  /** gettoken: 0 at the end, 'a' for a word, '+' for >>, the symbol itself otherwise. */
  method GetToken(s: string, i: int) returns (tok: char, q: int, eq: int, j: int)
    requires 0 <= i <= |s| && 0 as char !in s
    ensures i <= j <= |s|
    ensures tok == 0 as char ==> Lex(s[i..]) == [] && j == |s|
    ensures tok == 'a' ==> IsWord(s, Span(q, eq)) && i <= q && eq <= j && Lex(s[i..]) == [Word(s[q..eq])] + Lex(s[j..])
    ensures tok != 0 as char && tok != 'a' ==>
              i < j && (Symbol(tok) || tok == '+') && Lex(s[i..]) == [Sym(tok)] + Lex(s[j..])
  {
    q := Skip(s, i);
    tok, eq := Scan(s, q);
    j := Skip(s, eq);
  }

  /** The switch of gettoken, behind the blanks. */
  method Scan(s: string, q: int) returns (tok: char, j: int)
    requires 0 <= q <= |s| && 0 as char !in s && (q < |s| ==> !Space(s[q]))
    ensures q <= j <= |s| && (tok == 0 as char <==> q == |s|)
    ensures tok == 'a' ==> IsWord(s, Span(q, j)) && Lex(s[q..]) == [Word(s[q..j])] + Lex(s[j..])
    ensures tok != 0 as char && tok != 'a' ==>
              q < j && (Symbol(tok) || tok == '+') && Lex(s[q..]) == [Sym(tok)] + Lex(s[j..])
  {
    j := q;
    if j == |s| {
      tok := 0 as char;
    } else if s[j] == '>' {
      tok := '>';
      SymbolIs(s, q);
      j := j + 1;
      if j < |s| && s[j] == '>' {
        tok := '+';
        j := j + 1;
      }
    } else if Symbol(s[j]) {
      tok := s[j];
      SymbolIs(s, q);
      j := j + 1;
    } else {
      tok := 'a';
      while j < |s| && !Space(s[j]) && !Symbol(s[j])
        invariant q <= j <= |s| && forall k :: q <= k < j ==> WordChar(s[k])
      {
        j := j + 1;
      }
      WordIs(s, q, j);
    }
  }

  lemma SymbolIs(s: string, q: int)
    requires 0 <= q < |s| && Symbol(s[q]) && !Space(s[q])
    ensures if s[q] == '>' && q + 1 < |s| && s[q + 1] == '>' then Lex(s[q..]) == [Sym('+')] + Lex(s[q + 2..])
            else Lex(s[q..]) == [Sym(s[q])] + Lex(s[q + 1..])
  {
    var t := s[q..];
    assert t[0] == s[q] && t[1..] == s[q + 1..];
    if q + 1 < |s| { assert t[1] == s[q + 1] && t[2..] == s[q + 2..]; }
  }

  lemma WordIs(s: string, q: int, j: int)
    requires 0 <= q < j <= |s| && (forall k :: q <= k < j ==> WordChar(s[k])) && (j < |s| ==> !WordChar(s[j]))
    ensures Lex(s[q..]) == [Word(s[q..j])] + Lex(s[j..])
  {
    var t := s[q..];
    var n := WordLen(t);
    assert forall k :: 0 <= k < |t| ==> t[k] == s[q + k];
    assert n < |t| ==> s[q + n] == t[n];
    assert j < |s| ==> t[j - q] == s[j];
    assert n == j - q;
    assert t[..n] == s[q..j] && t[n..] == s[j..];
  }

  /** peek: whether the next token begins with one of the characters in toks. */
  method Peek(s: string, i: int, toks: string) returns (b: bool, j: int)
    requires 0 <= i <= |s| && 0 as char !in s
    ensures i <= j <= |s| && (j < |s| ==> !Space(s[j])) && Lex(s[i..]) == Lex(s[j..])
    ensures b <==> j < |s| && s[j] in toks
  {
    j := Skip(s, i);
    b := j < |s| && s[j] in toks;
  }

  /** What the character under the cursor says about the next token. */
  lemma Head(s: string, j: int)
    requires 0 <= j <= |s| && (j < |s| ==> !Space(s[j]))
    ensures Lex(s[j..]) == [] <==> j == |s|
    ensures j < |s| && !Symbol(s[j]) ==> Lex(s[j..])[0].Word?
    ensures j < |s| && Symbol(s[j]) ==> Lex(s[j..])[0] == Sym(s[j]) || (s[j] == '>' && Lex(s[j..])[0] == Sym('+'))
  {
  }

  // ---- the parser ------------------------------------------------------------------------

  predicate Input(s: string, i: int) { 0 <= i <= |s| && 0 as char !in s }

  /** From position i the routine has read cmd up to j, which is what the grammar says; or it has
      panicked, and the grammar fails as well. */
  predicate Agrees(s: string, i: int, ok: bool, cmd: Cmd<Span>, j: int, r: Result) {
    if ok then i <= j <= |s| && 0 <= i && Words(s, cmd) && r == Ok(Text(s, cmd), Lex(s[j..])) else r == Fail
  }

  /** parseredirs */
  method ParseRedirs(s: string, i: int, cmd0: Cmd<Span>) returns (ok: bool, cmd: Cmd<Span>, j: int)
    requires Input(s, i) && Words(s, cmd0)
    ensures Agrees(s, i, ok, cmd, j, ShellSpec.ParseRedirs(Text(s, cmd0), Lex(s[i..])))
  {
    cmd, j := cmd0, i;
    while true
      invariant i <= j <= |s| && Words(s, cmd)
      invariant ShellSpec.ParseRedirs(Text(s, cmd0), Lex(s[i..])) == ShellSpec.ParseRedirs(Text(s, cmd), Lex(s[j..]))
      decreases |s| - j
    {
      var more, j1 := Peek(s, j, "<>");
      Head(s, j1);
      if !more { return true, cmd, j1; }
      var tok, _, _, j2 := GetToken(s, j1);
      var word, q, eq, j3 := GetToken(s, j2);
      if word != 'a' { return false, cmd, j3; }
      RedirStep(Text(s, cmd), tok, s[q..eq], Lex(s[j3..]));
      cmd := Redir(cmd, Span(q, eq), if tok == '<' then Read else if tok == '>' then Truncate else Append);
      j := j3;
    }
  }

  lemma RedirStep(cmd: Cmd<string>, tok: char, w: string, rest: seq<Token>)
    requires tok == '<' || tok == '>' || tok == '+'
    ensures ShellSpec.ParseRedirs(cmd, [Sym(tok)] + ([Word(w)] + rest))
            == ShellSpec.ParseRedirs(Redir(cmd, w, ModeOf(tok)), rest)
  {
    var ts := [Sym(tok)] + ([Word(w)] + rest);
    assert ts[1] == Word(w) && ts[2..] == rest;
  }

  /** parseline */
  method ParseLine(s: string, i: int) returns (ok: bool, cmd: Cmd<Span>, j: int)
    requires Input(s, i)
    ensures Agrees(s, i, ok, cmd, j, ShellSpec.ParseLine(Lex(s[i..])))
    decreases |s| - i, 4
  {
    ok, cmd, j := ParseBacked(s, i);
    if !ok { return; }
    var more, j1 := Peek(s, j, ";");
    Head(s, j1);
    j := j1;
    if more {
      var _, _, _, j2 := GetToken(s, j);
      ghost var rest := Lex(s[j2..]);
      assert ([Sym(';')] + rest)[1..] == rest;
      var right;
      ok, right, j := ParseLine(s, j2);
      if !ok { return; }
      cmd := List(cmd, right);
    }
  }

  /** parseline up to the semicolon */
  method ParseBacked(s: string, i: int) returns (ok: bool, cmd: Cmd<Span>, j: int)
    requires Input(s, i)
    ensures Agrees(s, i, ok, cmd, j, ShellSpec.ParseBacked(Lex(s[i..])))
    decreases |s| - i, 3
  {
    ok, cmd, j := ParsePipe(s, i);
    if !ok { return; }
    ghost var p := ShellSpec.ParsePipe(Lex(s[i..]));
    while true
      invariant i <= j <= |s| && Words(s, cmd)
      invariant Backs(p.cmd, p.rest) == Backs(Text(s, cmd), Lex(s[j..]))
      decreases |s| - j
    {
      var more, j1 := Peek(s, j, "&");
      Head(s, j1);
      j := j1;
      if !more { break; }
      var _, _, _, j2 := GetToken(s, j);
      ghost var rest := Lex(s[j2..]);
      assert ([Sym('&')] + rest)[1..] == rest;
      cmd := Back(cmd);
      j := j2;
    }
  }

  /** parsepipe */
  method ParsePipe(s: string, i: int) returns (ok: bool, cmd: Cmd<Span>, j: int)
    requires Input(s, i)
    ensures Agrees(s, i, ok, cmd, j, ShellSpec.ParsePipe(Lex(s[i..])))
    decreases |s| - i, 2
  {
    ok, cmd, j := ParseExec(s, i);
    if !ok { return; }
    var more, j1 := Peek(s, j, "|");
    Head(s, j1);
    j := j1;
    if more {
      var _, _, _, j2 := GetToken(s, j);
      ghost var rest := Lex(s[j2..]);
      assert ([Sym('|')] + rest)[1..] == rest;
      var right;
      ok, right, j := ParsePipe(s, j2);
      if !ok { return; }
      cmd := Pipe(cmd, right);
    }
  }

  /** parseblock */
  method ParseBlock(s: string, i: int) returns (ok: bool, cmd: Cmd<Span>, j: int)
    requires Input(s, i) && At(Lex(s[i..]), '(')
    ensures Agrees(s, i, ok, cmd, j, ShellSpec.ParseBlock(Lex(s[i..])))
    decreases |s| - i, 0
  {
    var open, j0 := Peek(s, i, "(");
    Head(s, j0);
    if !open {
      assert false;
    }
    var _, _, _, j1 := GetToken(s, j0);
    ghost var inner := Lex(s[j1..]);
    assert ([Sym('(')] + inner)[1..] == inner;
    ok, cmd, j := ParseLine(s, j1);
    if !ok { return; }
    var close, j2 := Peek(s, j, ")");
    Head(s, j2);
    if !close { return false, cmd, j2; }
    var _, _, _, j3 := GetToken(s, j2);
    ghost var rest := Lex(s[j3..]);
    assert ([Sym(')')] + rest)[1..] == rest;
    ok, cmd, j := ParseRedirs(s, j3, cmd);
  }

  /** parseexec */
  method ParseExec(s: string, i: int) returns (ok: bool, cmd: Cmd<Span>, j: int)
    requires Input(s, i)
    ensures Agrees(s, i, ok, cmd, j, ShellSpec.ParseExec(Lex(s[i..])))
    decreases |s| - i, 1
  {
    var block, j0 := Peek(s, i, "(");
    Head(s, j0);
    if block {
      ok, cmd, j := ParseBlock(s, j0);
      return;
    }
    ok, cmd, j := ParseRedirs(s, j0, Exec([]));
    if !ok { return; }
    ok, cmd, j := ParseArgs(s, j, cmd);
  }

  /** The two exits at the top of the loop of parseexec, and the next token otherwise. */
  method NextArg(s: string, i: int) returns (end: bool, tok: char, q: int, eq: int, j: int)
    requires Input(s, i)
    ensures i <= j <= |s| && (end <==> Lex(s[i..]) == [] || AtEnd(Lex(s[i..]))) && (end ==> Lex(s[j..]) == Lex(s[i..]))
    ensures !end && tok != 'a' ==> Lex(s[i..])[0].Sym?
    ensures !end && tok == 'a' ==>
              i < j && IsWord(s, Span(q, eq)) && eq <= j && Lex(s[i..]) == [Word(s[q..eq])] + Lex(s[j..])
  {
    var stop, j1 := Peek(s, i, "|)&;");
    Head(s, j1);
    if stop { return true, ' ', 0, 0, j1; }
    tok, q, eq, j := GetToken(s, j1);
    end := tok == 0 as char;
  }

  /** r is what the loop of parseexec makes of the rest of the line. */
  ghost predicate Awaits(s: string, i: int, cmd: Cmd<Span>, argc: nat, r: Result)
    requires Input(s, i) && Words(s, cmd)
  {
    forall n {:trigger Open(n)} :: Open(n) ==> r == ShellSpec.ParseArgs(Text(s, cmd), argc, Lex(s[i..]))
  }

  /** One turn of that loop: an argument with the redirections behind it, or an exit. */
  method ArgTurn(s: string, i: int, cmd0: Cmd<Span>, argc: nat, ghost r: Result)
    returns (more: bool, ok: bool, cmd: Cmd<Span>, j: int)
    requires Input(s, i) && Words(s, cmd0) && argc < MAXARGS && Awaits(s, i, cmd0, argc, r)
    ensures more ==> i < j <= |s| && Words(s, cmd) && argc + 1 < MAXARGS && Awaits(s, j, cmd, argc + 1, r)
    ensures !more ==> Agrees(s, i, ok, cmd, j, r)
  {
    assert Open(0);
    var end, tok, q, eq, j2 := NextArg(s, i);
    if end { return false, true, cmd0, j2; }
    if tok != 'a' { return false, false, cmd0, j2; }
    if argc + 1 >= MAXARGS { return false, false, cmd0, j2; }
    OneArg(Text(s, cmd0), argc, s[q..eq], Lex(s[j2..]));
    ok, cmd, j := OneMore(s, j2, cmd0, Span(q, eq));
    more := ok;
  }

  /** The loop of parseexec. */
  method ParseArgs(s: string, i: int, cmd0: Cmd<Span>) returns (ok: bool, cmd: Cmd<Span>, j: int)
    requires Input(s, i) && Words(s, cmd0)
    ensures Agrees(s, i, ok, cmd, j, ShellSpec.ParseArgs(Text(s, cmd0), 0, Lex(s[i..])))
  {
    var argc := 0;
    cmd, j := cmd0, i;
    ghost var r := ShellSpec.ParseArgs(Text(s, cmd0), 0, Lex(s[i..]));
    while true
      invariant i <= j <= |s| && Words(s, cmd) && 0 <= argc < MAXARGS && Awaits(s, j, cmd, argc, r)
      decreases |s| - j
    {
      var more;
      more, ok, cmd, j := ArgTurn(s, j, cmd, argc, r);
      if !more { return; }
      argc := argc + 1;
    }
  }

  /** One more argument, and the redirections behind it. */
  method OneMore(s: string, i: int, cmd0: Cmd<Span>, a: Span) returns (ok: bool, cmd: Cmd<Span>, j: int)
    requires Input(s, i) && Words(s, cmd0) && IsWord(s, a)
    ensures Agrees(s, i, ok, cmd, j, ShellSpec.ParseRedirs(AddArg(Text(s, cmd0), s[a.q..a.eq]), Lex(s[i..])))
  {
    TextAddArg(s, cmd0, a);
    ok, cmd, j := ParseRedirs(s, i, AddArg(cmd0, a));
  }

  // ---- nulterminate ----------------------------------------------------------------------

  function ArgEnds(args: seq<Span>): set<int> {
    if args == [] then {} else ArgEnds(args[..|args| - 1]) + {args[|args| - 1].eq}
  }

  /** The positions that get a NUL. */
  function Ends(c: Cmd<Span>): set<int> {
    match c
    case Exec(args) => ArgEnds(args)
    case Redir(x, f, _) => Ends(x) + {f.eq}
    case Pipe(l, r) => Ends(l) + Ends(r)
    case List(l, r) => Ends(l) + Ends(r)
    case Back(x) => Ends(x)
  }

  lemma {:induction false} ArgEndsIn(s: string, args: seq<Span>)
    requires forall i :: 0 <= i < |args| ==> IsWord(s, args[i])
    ensures forall k :: k in ArgEnds(args) ==> 0 <= k <= |s| && (k < |s| ==> !WordChar(s[k]))
    ensures forall i :: 0 <= i < |args| ==> args[i].eq in ArgEnds(args)
  {
    if args != [] {
      ArgEndsIn(s, args[..|args| - 1]);
      assert IsWord(s, args[|args| - 1]);
    }
  }

  /** No NUL goes into a word. */
  lemma {:induction false} EndsIn(s: string, c: Cmd<Span>)
    requires Words(s, c)
    ensures forall k :: k in Ends(c) ==> 0 <= k <= |s| && (k < |s| ==> !WordChar(s[k]))
  {
    match c
    case Exec(args) => ArgEndsIn(s, args);
    case Redir(x, f, _) => EndsIn(s, x);
    case Pipe(l, r) => EndsIn(s, l); EndsIn(s, r);
    case List(l, r) => EndsIn(s, l); EndsIn(s, r);
    case Back(x) => EndsIn(s, x);
  }

  /** nulterminate writes a NUL at the end of every word of the command, and nowhere else. */
  method Nulterminate(buf: array<char>, c: Cmd<Span>, ghost s: string)
    requires buf.Length == |s| + 1 && Words(s, c)
    modifies buf
    ensures forall k :: 0 <= k < buf.Length ==> buf[k] == if k in Ends(c) then 0 as char else old(buf[k])
    decreases c
  {
    match c
    case Exec(args) =>
      ArgEndsIn(s, args);
      var i := 0;
      while i < |args|
        invariant 0 <= i <= |args|
        invariant forall k :: 0 <= k < buf.Length ==>
                  buf[k] == if k in ArgEnds(args[..i]) then 0 as char else old(buf[k])
      {
        assert IsWord(s, args[i]) && args[..i + 1][..i] == args[..i];
        buf[args[i].eq] := 0 as char;
        i := i + 1;
      }
      assert args[..|args|] == args;
    case Redir(x, f, _) =>
      Nulterminate(buf, x, s);
      buf[f.eq] := 0 as char;
    case Pipe(l, r) =>
      Nulterminate(buf, l, s);
      Nulterminate(buf, r, s);
    case List(l, r) =>
      Nulterminate(buf, l, s);
      Nulterminate(buf, r, s);
    case Back(x) =>
      Nulterminate(buf, x, s);
  }

  /** The C string that begins at q. */
  function CString(b: seq<char>, q: int): string
    requires 0 <= q <= |b|
    decreases |b| - q
  {
    if q == |b| || b[q] == 0 as char then "" else [b[q]] + CString(b, q + 1)
  }

  lemma {:induction false} CStringIs(b: seq<char>, q: int, eq: int)
    requires 0 <= q <= eq < |b| && b[eq] == 0 as char && forall k :: q <= k < eq ==> b[k] != 0 as char
    ensures CString(b, q) == b[q..eq]
    decreases eq - q
  {
    if q < eq {
      CStringIs(b, q + 1, eq);
      assert b[q..eq] == [b[q]] + b[q + 1..eq];
    }
  }

  /** Every argument and file name of c, read as a C string in b, is the word of s at its place. */
  predicate ReadsBack(b: seq<char>, s: string, c: Cmd<Span>)
    requires Words(s, c) && |b| == |s| + 1
  {
    match c
    case Exec(args) => forall i :: 0 <= i < |args| ==>
      IsWord(s, args[i]) && CString(b, args[i].q) == s[args[i].q..args[i].eq]
    case Redir(x, f, _) => ReadsBack(b, s, x) && CString(b, f.q) == s[f.q..f.eq]
    case Pipe(l, r) => ReadsBack(b, s, l) && ReadsBack(b, s, r)
    case List(l, r) => ReadsBack(b, s, l) && ReadsBack(b, s, r)
    case Back(x) => ReadsBack(b, s, x)
  }

  /** b is s and its NUL, with more NULs at some ends. */
  ghost predicate Ended(b: seq<char>, s: string, ends: set<int>) {
    && |b| == |s| + 1 && b[|s|] == 0 as char && 0 as char !in s
    && (forall k :: 0 <= k < |s| ==> b[k] == if k in ends then 0 as char else s[k])
    && (forall k :: k in ends && 0 <= k < |s| ==> !WordChar(s[k]))
  }

  lemma WordReadsBack(b: seq<char>, s: string, ends: set<int>, sp: Span)
    requires Ended(b, s, ends) && IsWord(s, sp) && sp.eq in ends
    ensures CString(b, sp.q) == s[sp.q..sp.eq]
  {
    forall k | sp.q <= k < sp.eq ensures b[k] == s[k] != 0 as char {
      assert WordChar(s[k]) && s[k] in s;
    }
    CStringIs(b, sp.q, sp.eq);
    assert b[sp.q..sp.eq] == s[sp.q..sp.eq];
  }

  lemma {:induction false} AllReadBack(b: seq<char>, s: string, ends: set<int>, c: Cmd<Span>)
    requires Ended(b, s, ends) && Words(s, c) && Ends(c) <= ends
    ensures ReadsBack(b, s, c)
  {
    match c
    case Exec(args) =>
      ArgEndsIn(s, args);
      forall i | 0 <= i < |args| ensures IsWord(s, args[i]) && CString(b, args[i].q) == s[args[i].q..args[i].eq] {
        WordReadsBack(b, s, ends, args[i]);
      }
    case Redir(x, f, _) =>
      AllReadBack(b, s, ends, x);
      WordReadsBack(b, s, ends, f);
    case Pipe(l, r) =>
      AllReadBack(b, s, ends, l);
      AllReadBack(b, s, ends, r);
    case List(l, r) =>
      AllReadBack(b, s, ends, l);
      AllReadBack(b, s, ends, r);
    case Back(x) =>
      AllReadBack(b, s, ends, x);
  }

  /** parsecmd on a buffer that holds the line s: it accepts exactly the lines of the grammar, with
      their trees, and afterwards every word can be read as a C string in the buffer. In
      particular the print of a tree gives back the tree. */
  method ParseCmd(buf: array<char>, ghost s: string) returns (ok: bool, cmd: Cmd<Span>)
    requires buf[..] == s + [0 as char] && 0 as char !in s
    modifies buf
    ensures ok <==> Parse(s).Ok?
    ensures ok <==> ShellGrammar.Accepts(s)
    ensures ok ==> Words(s, cmd) && Parse(s) == Ok(Text(s, cmd), []) && buf.Length == |s| + 1
                   && ReadsBack(buf[..], s, cmd) && ShellGrammar.IsLine(Text(s, cmd), Lex(s))
    ensures forall t: Cmd<string> {:trigger PrintLine(t)} :: Clean(t) && s == Show(PrintLine(t)) ==>
            ok && Text(s, cmd) == t
  {
    ShellGrammar.AcceptsExactly(s);
    forall t: Cmd<string> {:trigger PrintLine(t)} | Clean(t) && s == Show(PrintLine(t)) ensures Parse(s) == Ok(t, []) {
      RoundTrip(t);
    }
    var line := buf[..buf.Length - 1];
    assert line == s && line[0..] == line;
    var j;
    ok, cmd, j := ParseLine(line, 0);
    if !ok { return; }
    var _, j1 := Peek(line, j, "");
    Head(line, j1);
    if j1 != |line| { return false, cmd; }
    EndsIn(s, cmd);
    ghost var before := buf[..];
    Nulterminate(buf, cmd, s);
    assert Ended(buf[..], s, Ends(cmd)) by {
      assert forall k :: 0 <= k < |s| ==> before[k] == s[k];
    }
    AllReadBack(buf[..], s, Ends(cmd), cmd);
  }
}
