/** What the command language of user/sh.c is, apart from any parser: how a line falls into tokens,
    which token lists are commands, and which tree each of them stands for. The parser accepts
    exactly these, with exactly these trees. */
module ShellGrammar {
  import opened ShellSpec

  // ---- tokens ----------------------------------------------------------------------------

  /** The line without its blanks. */
  function NoBlanks(s: string): string {
    if s == "" then "" else NoBlanks(s[..|s| - 1]) + if Space(s[|s| - 1]) then "" else [s[|s| - 1]]
  }

  /** The characters of the tokens. */
  function Chars(ts: seq<Token>): string {
    if ts == [] then ""
    else (if ts[0].Word? then ts[0].w else if ts[0].c == '+' then ">>" else [ts[0].c]) + Chars(ts[1..])
  }

  lemma {:induction false} NoBlanksConcat(a: string, b: string)
    ensures NoBlanks(a + b) == NoBlanks(a) + NoBlanks(b)
  {
    if b == "" {
      assert a + b == a;
    } else {
      NoBlanksConcat(a, b[..|b| - 1]);
      assert (a + b)[..|a + b| - 1] == a + b[..|b| - 1];
    }
  }

  lemma {:induction false} NoBlanksWord(w: string)
    requires forall k :: 0 <= k < |w| ==> !Space(w[k])
    ensures NoBlanks(w) == w
  {
    if w != "" {
      NoBlanksWord(w[..|w| - 1]);
      assert w == w[..|w| - 1] + [w[|w| - 1]];
    }
  }

  /** What one turn of Lex takes from the line. */
  function Take(s: string): (n: nat)
    requires s != ""
    ensures 1 <= n <= |s|
  {
    if Space(s[0]) then 1
    else if s[0] == '>' && |s| > 1 && s[1] == '>' then 2
    else if Symbol(s[0]) then 1
    else WordLen(s)
  }

  lemma LexTurn(s: string)
    requires s != ""
    ensures Space(s[0]) ==> Lex(s) == Lex(s[1..])
    ensures !Space(s[0]) ==> Lex(s) != [] && Lex(s)[1..] == Lex(s[Take(s)..])
    ensures !Space(s[0]) ==> forall k :: 0 <= k < Take(s) ==> !Space(s[k])
    ensures !Space(s[0]) ==>
              s[..Take(s)] == var t := Lex(s)[0]; if t.Word? then t.w else if t.c == '+' then ">>" else [t.c]
  {
  }

  /** No character is lost, added or moved. */
  lemma {:induction false} LexChars(s: string)
    ensures Chars(Lex(s)) == NoBlanks(s)
    decreases |s|
  {
    if s != "" {
      var n := Take(s);
      LexTurn(s);
      LexChars(s[n..]);
      assert s == s[..n] + s[n..];
      NoBlanksConcat(s[..n], s[n..]);
      if Space(s[0]) {
        assert s[..1] == [s[0]] && NoBlanks([s[0]]) == "" by { assert [s[0]][..0] == ""; }
      } else {
        NoBlanksWord(s[..n]);
      }
    }
  }

  /** Where a line can be cut without cutting a token in two. */
  predicate Between(a: string, b: string) {
    a != "" && b != "" ==> !(WordChar(a[|a| - 1]) && WordChar(b[0])) && !(a[|a| - 1] == '>' && b[0] == '>')
  }

  lemma {:induction false} WordLenCut(a: string, b: string)
    requires Between(a, b)
    ensures WordLen(a) < |a| ==> WordLen(a + b) == WordLen(a)
    ensures WordLen(a) == |a| && a != "" ==> WordLen(a + b) == |a|
  {
    if a != "" {
      assert (a + b)[0] == a[0];
      if WordChar(a[0]) {
        assert (a + b)[1..] == a[1..] + b;
        WordLenCut(a[1..], b);
      }
    }
    if a != "" && WordLen(a) == |a| && b != "" {
      assert WordChar(a[|a| - 1]) && (a + b)[|a|] == b[0];
    }
  }

  /** A line is read piece by piece. With the four lemmas on single tokens this says what Lex is. */
  lemma {:induction false} LexCut(a: string, b: string)
    requires Between(a, b)
    ensures Lex(a + b) == Lex(a) + Lex(b)
    decreases |a|
  {
    if a == "" {
      assert a + b == b;
    } else {
      var n := Take(a);
      assert (a + b)[n..] == a[n..] + b && (a + b)[0] == a[0];
      LexCut(a[n..], b);
      if !Space(a[0]) {
        if Symbol(a[0]) {
          assert |a + b| > 1 && |a| == 1 ==> (a + b)[1] == b[0];
          assert |a| > 1 ==> (a + b)[1] == a[1];
        } else {
          WordLenCut(a, b);
          assert (a + b)[..n] == a[..n];
        }
        Regroup([Lex(a)[0]], Lex(a[n..]), Lex(b));
      }
    }
  }

  lemma LexBlank(c: char)
    requires Space(c)
    ensures Lex([c]) == []
  {
  }

  lemma LexSymbol(c: char)
    requires Symbol(c)
    ensures Lex([c]) == [Sym(c)]
  {
    assert [c][1..] == "";
  }

  lemma LexAppend()
    ensures Lex(">>") == [Sym('+')]
  {
    assert ">>"[2..] == "";
  }

  lemma LexWord(w: string)
    requires w != "" && forall k :: 0 <= k < |w| ==> WordChar(w[k])
    ensures Lex(w) == [Word(w)]
  {
    assert WordLen(w) == |w| && w[..|w|] == w && w[|w|..] == "";
  }

  // ---- the grammar without a parser ------------------------------------------------------

  predicate Redirection(t: Token) { t == Sym('<') || t == Sym('>') || t == Sym('+') }

  datatype File = File(name: string, mode: Mode)

  /** The words that do not directly follow a redirection symbol, in order. */
  function ArgsOf(ts: seq<Token>): seq<string> {
    if ts == [] then []
    else
      var n := |ts| - 1;
      ArgsOf(ts[..n]) + if ts[n].Word? && !(n > 0 && Redirection(ts[n - 1])) then [ts[n].w] else []
  }

  /** The words that do, in order, each with the mode that its symbol stands for. */
  function FilesOf(ts: seq<Token>): seq<File> {
    if ts == [] then []
    else
      var n := |ts| - 1;
      FilesOf(ts[..n])
      + if ts[n].Word? && n > 0 && Redirection(ts[n - 1]) then [File(ts[n].w, ModeFor(ts[n - 1]))] else []
  }

  function ModeFor(t: Token): Mode { if t == Sym('<') then Read else if t == Sym('>') then Truncate else Append }

  /** Words and redirections with their files, and nothing else. */
  predicate Simple(ts: seq<Token>) {
    forall i {:trigger Fine(ts, i)} :: 0 <= i < |ts| ==> Fine(ts, i)
  }

  predicate Fine(ts: seq<Token>, i: int)
    requires 0 <= i < |ts|
  {
    ts[i].Word? || (Redirection(ts[i]) && i + 1 < |ts| && ts[i + 1].Word?)
  }

  /** The redirections, the first one innermost, around cmd. */
  function Around(cmd: Cmd<string>, files: seq<File>): Cmd<string> {
    if files == [] then cmd
    else Redir(Around(cmd, files[..|files| - 1]), files[|files| - 1].name, files[|files| - 1].mode)
  }

  predicate IsSimple(c: Cmd<string>, ts: seq<Token>) {
    Simple(ts) && |ArgsOf(ts)| < 10 && c == Around(Exec(ArgsOf(ts)), FilesOf(ts))
  }

  /** d in parentheses, the closing one at i, and redirections. */
  ghost predicate BlockAt(c: Cmd<string>, ts: seq<Token>, i: nat, d: Cmd<string>)
    decreases |ts|, 0
  {
    && 1 <= i < |ts| && ts[0] == Sym('(') && ts[i] == Sym(')') && IsLine(d, ts[1..i])
    && Simple(ts[i + 1..]) && ArgsOf(ts[i + 1..]) == [] && c == Around(d, FilesOf(ts[i + 1..]))
  }

  ghost predicate IsBlock(c: Cmd<string>, ts: seq<Token>)
    decreases |ts|, 1
  {
    exists i: nat, d :: BlockAt(c, ts, i, d)
  }

  ghost predicate IsExec(c: Cmd<string>, ts: seq<Token>)
    decreases |ts|, 2
  {
    IsSimple(c, ts) || IsBlock(c, ts)
  }

  ghost predicate IsPipe(c: Cmd<string>, ts: seq<Token>)
    decreases |ts|, 3
  {
    || IsExec(c, ts)
    || (c.Pipe? && exists i: nat ::
          i < |ts| && ts[i] == Sym('|') && IsExec(c.left, ts[..i]) && IsPipe(c.right, ts[i + 1..]))
  }

  ghost predicate IsBacked(c: Cmd<string>, ts: seq<Token>)
    decreases |ts|, 4
  {
    || IsPipe(c, ts)
    || (c.Back? && |ts| > 0 && ts[|ts| - 1] == Sym('&') && IsBacked(c.cmd, ts[..|ts| - 1]))
  }

  ghost predicate IsLine(c: Cmd<string>, ts: seq<Token>)
    decreases |ts|, 5
  {
    || IsBacked(c, ts)
    || (c.List? && exists i: nat ::
          i < |ts| && ts[i] == Sym(';') && IsBacked(c.left, ts[..i]) && IsLine(c.right, ts[i + 1..]))
  }

  // ---- simple commands -------------------------------------------------------------------

  predicate Closed(a: seq<Token>) { a != [] ==> !Redirection(a[|a| - 1]) }

  lemma LastOfConcat(a: seq<Token>, b: seq<Token>)
    requires Closed(a) && b != []
    ensures (a + b)[..|a + b| - 1] == a + b[..|b| - 1] && (a + b)[|a + b| - 1] == b[|b| - 1]
    ensures |a + b| > 1 && Redirection((a + b)[|a + b| - 2]) <==> |b| > 1 && Redirection(b[|b| - 2])
    ensures |b| > 1 ==> (a + b)[|a + b| - 2] == b[|b| - 2]
  {
  }

  lemma {:induction false} ArgsConcat(a: seq<Token>, b: seq<Token>)
    requires Closed(a)
    ensures ArgsOf(a + b) == ArgsOf(a) + ArgsOf(b)
  {
    if b == [] {
      assert a + b == a;
    } else {
      ArgsConcat(a, b[..|b| - 1]);
      LastOfConcat(a, b);
    }
  }

  lemma {:induction false} FilesConcat(a: seq<Token>, b: seq<Token>)
    requires Closed(a)
    ensures FilesOf(a + b) == FilesOf(a) + FilesOf(b)
  {
    if b == [] {
      assert a + b == a;
    } else {
      FilesConcat(a, b[..|b| - 1]);
      LastOfConcat(a, b);
    }
  }

  lemma ConsWord(w: string, ts: seq<Token>)
    ensures ArgsOf([Word(w)] + ts) == [w] + ArgsOf(ts) && FilesOf([Word(w)] + ts) == FilesOf(ts)
  {
    ArgsConcat([Word(w)], ts);
    FilesConcat([Word(w)], ts);
    assert [Word(w)][..0] == [];
    assert ArgsOf([Word(w)]) == [w] && FilesOf([Word(w)]) == [];
  }

  lemma ConsRedir(t: Token, w: string, ts: seq<Token>)
    requires Redirection(t)
    ensures ArgsOf([t, Word(w)] + ts) == ArgsOf(ts) && FilesOf([t, Word(w)] + ts) == [File(w, ModeFor(t))] + FilesOf(ts)
  {
    ArgsConcat([t, Word(w)], ts);
    FilesConcat([t, Word(w)], ts);
    assert [t][..0] == [];
    assert ArgsOf([t]) == [] && FilesOf([t]) == [];
    assert [t, Word(w)][..1] == [t];
  }

  lemma {:induction false} AroundArg(args: seq<string>, fs: seq<File>, w: string)
    ensures AddArg(Around(Exec(args), fs), w) == Around(Exec(args + [w]), fs)
  {
    if fs != [] { AroundArg(args, fs[..|fs| - 1], w); }
  }

  lemma AroundMore(cmd: Cmd<string>, fs: seq<File>, f: File)
    ensures Around(cmd, fs + [f]) == Redir(Around(cmd, fs), f.name, f.mode)
  {
    assert (fs + [f])[..|fs|] == fs;
  }

  /** The files of the redirections, from the inside out. */
  function RedirFiles(c: Cmd<string>): seq<File> {
    if c.Redir? then RedirFiles(c.cmd) + [File(c.file, c.mode)] else []
  }

  /** What Around builds. */
  lemma {:induction false} AroundParts(args: seq<string>, fs: seq<File>)
    ensures Core(Around(Exec(args), fs)) == Exec(args) && RedirFiles(Around(Exec(args), fs)) == fs
  {
    if fs != [] {
      AroundParts(args, fs[..|fs| - 1]);
      assert fs[..|fs| - 1] + [fs[|fs| - 1]] == fs;
    }
  }

  /** parseredirs and then the loop of parseexec. */
  function Loops(cmd: Cmd<string>, argc: nat, ts: seq<Token>): Result {
    var r := ParseRedirs(cmd, ts);
    if r.Ok? then ParseArgs(r.cmd, argc, r.rest) else Fail
  }

  lemma LoopsRedir(cmd: Cmd<string>, argc: nat, t: Token, w: string, more: seq<Token>)
    requires Redirection(t)
    ensures Loops(cmd, argc, [t, Word(w)] + more) == Loops(Redir(cmd, w, ModeFor(t)), argc, more)
    ensures ParseRedirs(cmd, [t, Word(w)] + more) == ParseRedirs(Redir(cmd, w, ModeFor(t)), more)
  {
    var ts := [t, Word(w)] + more;
    assert ts[0] == t && ts[1] == Word(w) && ts[2..] == more;
  }

  lemma LoopsWord(cmd: Cmd<string>, argc: nat, w: string, more: seq<Token>)
    ensures Loops(cmd, argc, [Word(w)] + more) == if argc + 1 < 10 then Loops(AddArg(cmd, w), argc + 1, more) else Fail
  {
    var ts := [Word(w)] + more;
    assert ts[0] == Word(w) && ts[1..] == more;
  }

  lemma LoopsEnd(cmd: Cmd<string>, argc: nat, ts: seq<Token>)
    requires ts == [] || AtEnd(ts)
    ensures Loops(cmd, argc, ts) == Ok(cmd, ts)
  {
  }

  /** What the loops can begin with if they succeed. */
  lemma LoopsBegin(cmd: Cmd<string>, argc: nat, ts: seq<Token>)
    requires Loops(cmd, argc, ts).Ok? && ts != [] && !AtEnd(ts)
    ensures ts[0].Word? || (Redirection(ts[0]) && |ts| > 1 && ts[1].Word?)
  {
  }

  /** The first word or redirection of a simple command, and the rest. */
  lemma SimpleCons(ts: seq<Token>) returns (more: seq<Token>)
    requires Simple(ts) && ts != []
    ensures |more| < |ts| && Simple(more)
    ensures ts[0].Word? ==> ts == [Word(ts[0].w)] + more
    ensures !ts[0].Word? ==> Redirection(ts[0]) && |ts| > 1 && ts[1].Word? && ts == [ts[0], Word(ts[1].w)] + more
  {
    assert Fine(ts, 0);
    var k := if ts[0].Word? then 1 else 2;
    more := ts[k..];
    forall i | 0 <= i < |more| ensures Fine(more, i) {
      assert Fine(ts, i + k) && more[i] == ts[i + k];
    }
  }

  lemma ConsSimple(a: seq<Token>, more: seq<Token>)
    requires Simple(a) && Simple(more)
    ensures Simple(a + more)
  {
    forall i | 0 <= i < |a + more| ensures Fine(a + more, i) {
      assert if i < |a| then Fine(a, i) else Fine(more, i - |a|);
    }
  }

  lemma GlueWord(w: string, used: seq<Token>, rest: seq<Token>)
    requires Simple(used)
    ensures Simple([Word(w)] + used) && |ArgsOf([Word(w)] + used)| == 1 + |ArgsOf(used)|
    ensures [Word(w)] + (used + rest) == [Word(w)] + used + rest
  {
    ConsWord(w, used);
    assert Simple([Word(w)]);
    ConsSimple([Word(w)], used);
  }

  lemma GlueRedir(t: Token, w: string, used: seq<Token>, rest: seq<Token>)
    requires Simple(used) && Redirection(t)
    ensures Simple([t, Word(w)] + used) && ArgsOf([t, Word(w)] + used) == ArgsOf(used)
    ensures [t, Word(w)] + (used + rest) == [t, Word(w)] + used + rest
  {
    ConsRedir(t, w, used);
    assert Fine([t, Word(w)], 0) && Fine([t, Word(w)], 1);
    ConsSimple([t, Word(w)], used);
  }

  /** The loops on the tokens of a simple command. */
  lemma {:induction false} SimpleRuns(args: seq<string>, fs: seq<File>, ts: seq<Token>, rest: seq<Token>)
    requires Simple(ts) && AfterExec(rest) && |args| + |ArgsOf(ts)| < 10
    ensures Loops(Around(Exec(args), fs), |args|, ts + rest)
            == Ok(Around(Exec(args + ArgsOf(ts)), fs + FilesOf(ts)), rest)
    decreases |ts|
  {
    if ts == [] {
      assert ts + rest == rest && args + [] == args && fs + [] == fs;
      LoopsEnd(Around(Exec(args), fs), |args|, rest);
    } else {
      var more := SimpleCons(ts);
      if ts[0].Word? {
        WordRuns(args, fs, ts[0].w, more, rest);
        SimpleRuns(args + [ts[0].w], fs, more, rest);
      } else {
        RedirRuns(args, fs, ts[0], ts[1].w, more, rest);
        SimpleRuns(args, fs + [File(ts[1].w, ModeFor(ts[0]))], more, rest);
      }
    }
  }

  lemma WordRuns(args: seq<string>, fs: seq<File>, w: string, more: seq<Token>, rest: seq<Token>)
    ensures var ts := [Word(w)] + more;
            && ArgsOf(ts) == [w] + ArgsOf(more) && FilesOf(ts) == FilesOf(more)
            && args + ArgsOf(ts) == args + [w] + ArgsOf(more)
            && (|args| + 1 < 10 ==> Loops(Around(Exec(args), fs), |args|, ts + rest)
                                    == Loops(Around(Exec(args + [w]), fs), |args + [w]|, more + rest))
            && (|args| + 1 >= 10 ==> Loops(Around(Exec(args), fs), |args|, ts + rest).Fail?)
  {
    ConsWord(w, more);
    AroundArg(args, fs, w);
    LoopsWord(Around(Exec(args), fs), |args|, w, more + rest);
    Regroup([Word(w)], more, rest);
    Regroup(args, [w], ArgsOf(more));
  }

  lemma RedirRuns(args: seq<string>, fs: seq<File>, t: Token, w: string, more: seq<Token>, rest: seq<Token>)
    requires Redirection(t)
    ensures var ts, f := [t, Word(w)] + more, File(w, ModeFor(t));
            && ArgsOf(ts) == ArgsOf(more) && FilesOf(ts) == [f] + FilesOf(more)
            && fs + FilesOf(ts) == fs + [f] + FilesOf(more)
            && Loops(Around(Exec(args), fs), |args|, ts + rest)
               == Loops(Around(Exec(args), fs + [f]), |args|, more + rest)
  {
    ConsRedir(t, w, more);
    AroundMore(Exec(args), fs, File(w, ModeFor(t)));
    LoopsRedir(Around(Exec(args), fs), |args|, t, w, more + rest);
    Regroup([t, Word(w)], more, rest);
    Regroup(fs, [File(w, ModeFor(t))], FilesOf(more));
  }

  lemma WordRan(args: seq<string>, fs: seq<File>, ts: seq<Token>)
    requires ts != [] && ts[0].Word? && Loops(Around(Exec(args), fs), |args|, ts).Ok?
    ensures ts == [Word(ts[0].w)] + ts[1..] && |args| + 1 < 10
    ensures Loops(Around(Exec(args + [ts[0].w]), fs), |args + [ts[0].w]|, ts[1..]).Ok?
  {
    assert ts == [Word(ts[0].w)] + ts[1..];
    LoopsWord(Around(Exec(args), fs), |args|, ts[0].w, ts[1..]);
    AroundArg(args, fs, ts[0].w);
  }

  lemma RedirRan(args: seq<string>, fs: seq<File>, ts: seq<Token>)
    requires |ts| > 1 && Redirection(ts[0]) && ts[1].Word? && Loops(Around(Exec(args), fs), |args|, ts).Ok?
    ensures ts == [ts[0], Word(ts[1].w)] + ts[2..]
    ensures Loops(Around(Exec(args), fs + [File(ts[1].w, ModeFor(ts[0]))]), |args|, ts[2..]).Ok?
  {
    assert ts == [ts[0], Word(ts[1].w)] + ts[2..];
    LoopsRedir(Around(Exec(args), fs), |args|, ts[0], ts[1].w, ts[2..]);
    AroundMore(Exec(args), fs, File(ts[1].w, ModeFor(ts[0])));
  }

  /** And the other way round: what the loops accept is a simple command. */
  lemma {:induction false} SimpleRan(args: seq<string>, fs: seq<File>, ts: seq<Token>)
    returns (used: seq<Token>, rest: seq<Token>)
    requires |args| < 10 && Loops(Around(Exec(args), fs), |args|, ts).Ok?
    ensures ts == used + rest && Simple(used) && |args| + |ArgsOf(used)| < 10 && (rest == [] || AtEnd(rest))
    decreases |ts|
  {
    if ts == [] || AtEnd(ts) {
      used, rest := [], ts;
      assert ts == [] + ts;
    } else {
      LoopsBegin(Around(Exec(args), fs), |args|, ts);
      if ts[0].Word? {
        WordRan(args, fs, ts);
        used, rest := SimpleRan(args + [ts[0].w], fs, ts[1..]);
        GlueWord(ts[0].w, used, rest);
        used := [Word(ts[0].w)] + used;
      } else {
        var t, w := ts[0], ts[1].w;
        RedirRan(args, fs, ts);
        used, rest := SimpleRan(args, fs + [File(w, ModeFor(t))], ts[2..]);
        GlueRedir(t, w, used, rest);
        used := [t, Word(w)] + used;
      }
    }
  }

  /** The redirections behind a block. */
  lemma {:induction false} RedirsRun(cmd: Cmd<string>, fs: seq<File>, ts: seq<Token>, rest: seq<Token>)
    requires Simple(ts) && ArgsOf(ts) == [] && !AtRedir(rest)
    ensures ParseRedirs(Around(cmd, fs), ts + rest) == Ok(Around(cmd, fs + FilesOf(ts)), rest)
    decreases |ts|
  {
    if ts == [] {
      assert ts + rest == rest && fs + [] == fs;
    } else {
      var more := SimpleCons(ts);
      if ts[0].Word? {
        ConsWord(ts[0].w, more);
      } else {
        BlockRedir(cmd, fs, ts[0], ts[1].w, more, rest);
        RedirsRun(cmd, fs + [File(ts[1].w, ModeFor(ts[0]))], more, rest);
      }
    }
  }

  lemma BlockRedir(cmd: Cmd<string>, fs: seq<File>, t: Token, w: string, more: seq<Token>, rest: seq<Token>)
    requires Redirection(t)
    ensures var ts, f := [t, Word(w)] + more, File(w, ModeFor(t));
            && ArgsOf(ts) == ArgsOf(more) && FilesOf(ts) == [f] + FilesOf(more)
            && fs + FilesOf(ts) == fs + [f] + FilesOf(more)
            && ParseRedirs(Around(cmd, fs), ts + rest) == ParseRedirs(Around(cmd, fs + [f]), more + rest)
  {
    ConsRedir(t, w, more);
    AroundMore(cmd, fs, File(w, ModeFor(t)));
    LoopsRedir(Around(cmd, fs), 0, t, w, more + rest);
    Regroup([t, Word(w)], more, rest);
    Regroup(fs, [File(w, ModeFor(t))], FilesOf(more));
  }

  lemma {:induction false} RedirsRan(cmd: Cmd<string>, fs: seq<File>, ts: seq<Token>)
    returns (used: seq<Token>, rest: seq<Token>)
    requires ParseRedirs(Around(cmd, fs), ts).Ok?
    ensures ts == used + rest && Simple(used) && ArgsOf(used) == [] && !AtRedir(rest)
    decreases |ts|
  {
    if AtRedir(ts) {
      var t, w := ts[0], ts[1].w;
      assert ts == [t, Word(w)] + ts[2..];
      LoopsRedir(Around(cmd, fs), 0, t, w, ts[2..]);
      AroundMore(cmd, fs, File(w, ModeFor(t)));
      used, rest := RedirsRan(cmd, fs + [File(w, ModeFor(t))], ts[2..]);
      GlueRedir(t, w, used, rest);
      used := [t, Word(w)] + used;
    } else {
      used, rest := [], ts;
      assert ts == [] + ts;
    }
  }

  // ---- the parser reads what the grammar derives -----------------------------------------

  lemma {:induction false} ExecReads(c: Cmd<string>, ts: seq<Token>, rest: seq<Token>)
    requires IsExec(c, ts) && AfterExec(rest)
    ensures ParseExec(ts + rest) == Ok(c, rest)
    decreases |ts|, 1
  {
    if IsSimple(c, ts) {
      SimpleReads(c, ts, rest);
    } else {
      assert IsBlock(c, ts);
      var i: nat, d :| BlockAt(c, ts, i, d);
      LineReads(d, ts[1..i], [Sym(')')] + (ts[i + 1..] + rest));
      BlockReads(c, ts, i, d, rest);
    }
  }

  lemma BlockReads(c: Cmd<string>, ts: seq<Token>, i: nat, d: Cmd<string>, rest: seq<Token>)
    requires BlockAt(c, ts, i, d) && AfterExec(rest)
    requires ParseLine(ts[1..i] + ([Sym(')')] + (ts[i + 1..] + rest))) == Ok(d, [Sym(')')] + (ts[i + 1..] + rest))
    ensures ParseExec(ts + rest) == Ok(c, rest)
  {
    var inner, files := ts[1..i], ts[i + 1..];
    assert ts + rest == [Sym('(')] + (inner + ([Sym(')')] + (files + rest)));
    BlockBack(d, inner, files + rest);
    RedirsRun(d, [], files, rest);
    assert Around(d, []) == d && [] + FilesOf(files) == FilesOf(files);
  }

  lemma SimpleReads(c: Cmd<string>, ts: seq<Token>, rest: seq<Token>)
    requires IsSimple(c, ts) && AfterExec(rest)
    ensures ParseExec(ts + rest) == Ok(c, rest)
  {
    assert ts != [] ==> Fine(ts, 0);
    assert !At(ts + rest, '(') by { if ts == [] { assert ts + rest == rest; } }
    SimpleRuns([], [], ts, rest);
    assert Around(Exec([]), []) == Exec([]) && [] + ArgsOf(ts) == ArgsOf(ts) && [] + FilesOf(ts) == FilesOf(ts);
  }

  lemma CutAt(ts: seq<Token>, i: nat, rest: seq<Token>)
    requires i < |ts|
    ensures ts + rest == ts[..i] + ([ts[i]] + (ts[i + 1..] + rest))
  {
  }

  lemma PipeJoins(ts: seq<Token>, c: Cmd<string>, more: seq<Token>, rest: seq<Token>)
    requires c.Pipe? && ParseExec(ts) == Ok(c.left, [Sym('|')] + more) && ParsePipe(more) == Ok(c.right, rest)
    ensures ParsePipe(ts) == Ok(c, rest)
  {
    assert ([Sym('|')] + more)[1..] == more;
  }

  lemma LineJoins(ts: seq<Token>, c: Cmd<string>, more: seq<Token>, rest: seq<Token>)
    requires c.List? && ParseBacked(ts) == Backs(c.left, [Sym(';')] + more) && ParseLine(more) == Ok(c.right, rest)
    ensures ParseLine(ts) == Ok(c, rest)
  {
    assert ([Sym(';')] + more)[1..] == more;
  }

  lemma {:induction false} PipeReads(c: Cmd<string>, ts: seq<Token>, rest: seq<Token>)
    requires IsPipe(c, ts) && AfterBack(rest)
    ensures ParsePipe(ts + rest) == Ok(c, rest)
    decreases |ts|, 2
  {
    if IsExec(c, ts) {
      ExecReads(c, ts, rest);
    } else {
      var i: nat :| i < |ts| && ts[i] == Sym('|') && IsExec(c.left, ts[..i]) && IsPipe(c.right, ts[i + 1..]);
      CutAt(ts, i, rest);
      ExecReads(c.left, ts[..i], [Sym('|')] + (ts[i + 1..] + rest));
      PipeReads(c.right, ts[i + 1..], rest);
      PipeJoins(ts + rest, c, ts[i + 1..] + rest, rest);
    }
  }

  lemma {:induction false} BackedReads(c: Cmd<string>, ts: seq<Token>, rest: seq<Token>)
    requires IsBacked(c, ts) && AfterBack(rest)
    ensures ParseBacked(ts + rest) == Backs(c, rest)
    decreases |ts|, 3
  {
    if IsPipe(c, ts) {
      PipeReads(c, ts, rest);
    } else {
      var n, tail := |ts| - 1, [Sym('&')] + rest;
      assert ts + rest == ts[..n] + tail && tail[1..] == rest;
      BackedReads(c.cmd, ts[..n], tail);
    }
  }

  lemma {:induction false} LineReads(c: Cmd<string>, ts: seq<Token>, rest: seq<Token>)
    requires IsLine(c, ts) && AfterLine(rest)
    ensures ParseLine(ts + rest) == Ok(c, rest)
    decreases |ts|, 4
  {
    if IsBacked(c, ts) {
      BackedReads(c, ts, rest);
      assert Backs(c, rest) == Ok(c, rest);
    } else {
      var i: nat :| i < |ts| && ts[i] == Sym(';') && IsBacked(c.left, ts[..i]) && IsLine(c.right, ts[i + 1..]);
      CutAt(ts, i, rest);
      BackedReads(c.left, ts[..i], [Sym(';')] + (ts[i + 1..] + rest));
      LineReads(c.right, ts[i + 1..], rest);
      LineJoins(ts + rest, c, ts[i + 1..] + rest, rest);
    }
  }

  // ---- and nothing else ------------------------------------------------------------------

  /** The simple command that parseexec has read. */
  lemma SimpleRead(ts: seq<Token>) returns (used: seq<Token>, rest: seq<Token>)
    requires ParseExec(ts).Ok? && !At(ts, '(')
    ensures ts == used + rest && AfterExec(rest) && IsSimple(ParseExec(ts).cmd, used) && ParseExec(ts).rest == rest
  {
    assert Around(Exec([]), []) == Exec([]);
    used, rest := SimpleRan([], [], ts);
    SimpleReads(Around(Exec(ArgsOf(used)), FilesOf(used)), used, rest);
  }

  lemma {:induction false} ExecRead(ts: seq<Token>) returns (used: seq<Token>, rest: seq<Token>)
    requires ParseExec(ts).Ok?
    ensures ts == used + rest && IsExec(ParseExec(ts).cmd, used) && ParseExec(ts).rest == rest
    decreases |ts|, 1
  {
    if At(ts, '(') {
      var inner, more := LineRead(ts[1..]);
      used, rest := BlockRead(ts, inner, more);
    } else {
      used, rest := SimpleRead(ts);
    }
  }

  lemma BlockRead(ts: seq<Token>, inner: seq<Token>, more: seq<Token>) returns (used: seq<Token>, rest: seq<Token>)
    requires At(ts, '(') && ParseExec(ts).Ok? && ParseLine(ts[1..]).Ok?
    requires ts[1..] == inner + more && IsLine(ParseLine(ts[1..]).cmd, inner) && ParseLine(ts[1..]).rest == more
    ensures ts == used + rest && IsExec(ParseExec(ts).cmd, used) && ParseExec(ts).rest == rest
  {
    var d := ParseLine(ts[1..]).cmd;
    assert Around(d, []) == d && At(more, ')');
    var files;
    files, rest := RedirsRan(d, [], more[1..]);
    RedirsRun(d, [], files, rest);
    assert [] + FilesOf(files) == FilesOf(files);
    used := [Sym('(')] + inner + [Sym(')')] + files;
    BlockIs(Around(d, FilesOf(files)), d, inner, files);
    BlockSplits(ts, inner, more, files, rest);
  }

  lemma BlockSplits(ts: seq<Token>, inner: seq<Token>, more: seq<Token>, files: seq<Token>, rest: seq<Token>)
    requires At(ts, '(') && At(more, ')') && ts[1..] == inner + more && more[1..] == files + rest
    ensures ts == [Sym('(')] + inner + [Sym(')')] + files + rest
  {
    assert ts == [Sym('(')] + ts[1..] && more == [Sym(')')] + more[1..];
  }

  lemma BlockIs(c: Cmd<string>, d: Cmd<string>, inner: seq<Token>, files: seq<Token>)
    requires IsLine(d, inner) && Simple(files) && ArgsOf(files) == [] && c == Around(d, FilesOf(files))
    ensures IsBlock(c, [Sym('(')] + inner + [Sym(')')] + files)
  {
    var ts, i := [Sym('(')] + inner + [Sym(')')] + files, |inner| + 1;
    assert ts[1..i] == inner && ts[i + 1..] == files && ts[i] == Sym(')');
    assert BlockAt(c, ts, i, d);
  }

  lemma {:induction false} PipeRead(ts: seq<Token>) returns (used: seq<Token>, rest: seq<Token>)
    requires ParsePipe(ts).Ok?
    ensures ts == used + rest && IsPipe(ParsePipe(ts).cmd, used) && ParsePipe(ts).rest == rest
    decreases |ts|, 2
  {
    used, rest := ExecRead(ts);
    if At(rest, '|') {
      var left, right := used, rest[1..];
      used, rest := PipeRead(right);
      assert ts == left + [Sym('|')] + used + rest;
      used := left + [Sym('|')] + used;
      var i := |left|;
      assert used[..i] == left && used[i] == Sym('|') && used[i + 1..] == right[..|right| - |rest|];
    }
  }

  lemma {:induction false} BacksRead(c: Cmd<string>, pre: seq<Token>, ts: seq<Token>)
    returns (used: seq<Token>, rest: seq<Token>)
    requires IsBacked(c, pre)
    ensures pre + ts == used + rest && IsBacked(Backs(c, ts).cmd, used) && Backs(c, ts).rest == rest
    decreases |ts|
  {
    if At(ts, '&') {
      var more := pre + [Sym('&')];
      assert more[..|more| - 1] == pre && pre + ts == more + ts[1..];
      used, rest := BacksRead(Back(c), more, ts[1..]);
    } else {
      used, rest := pre, ts;
    }
  }

  lemma {:induction false} LineRead(ts: seq<Token>) returns (used: seq<Token>, rest: seq<Token>)
    requires ParseLine(ts).Ok?
    ensures ts == used + rest && IsLine(ParseLine(ts).cmd, used) && ParseLine(ts).rest == rest
    decreases |ts|, 4
  {
    used, rest := PipeRead(ts);
    used, rest := BacksRead(ParsePipe(ts).cmd, used, rest);
    if At(rest, ';') {
      var left, right := used, rest[1..];
      used, rest := LineRead(right);
      assert ts == left + [Sym(';')] + used + rest;
      used := left + [Sym(';')] + used;
      var i := |left|;
      assert used[..i] == left && used[i] == Sym(';') && used[i + 1..] == right[..|right| - |rest|];
    }
  }

  // ---- the theorems ----------------------------------------------------------------------

  /** parsecmd accepts exactly the lines of the grammar and gives each of them its tree; in
      particular no line has two. */
  lemma ParsesGrammar(s: string, c: Cmd<string>)
    ensures Parse(s) == Ok(c, []) <==> IsLine(c, Lex(s))
  {
    var ts := Lex(s);
    assert ts + [] == ts;
    if IsLine(c, ts) { LineReads(c, ts, []); }
    if Parse(s) == Ok(c, []) {
      var used, rest := LineRead(ts);
      assert used + [] == used;
    }
  }

  /** The line is a command. */
  ghost predicate Accepts(s: string) { exists t :: IsLine(t, Lex(s)) }

  lemma AcceptsExactly(s: string)
    ensures Accepts(s) <==> Parse(s).Ok?
    ensures Parse(s).Ok? ==> Parse(s).rest == [] && IsLine(Parse(s).cmd, Lex(s))
  {
    if Parse(s).Ok? { ParsesGrammar(s, Parse(s).cmd); }
    if t :| IsLine(t, Lex(s)) { ParsesGrammar(s, t); }
  }

  /** parseexec on a simple command: the arguments are the words that do not directly follow a
      redirection symbol, the files of the redirections, from the inside out, are the words that
      do, and fewer than ten arguments are accepted. */
  lemma SimpleExactly(ts: seq<Token>, c: Cmd<string>, rest: seq<Token>)
    requires !At(ts, '(') && AfterExec(rest)
    ensures ParseExec(ts) == Ok(c, rest) <==>
              exists used :: ts == used + rest && Simple(used) && |ArgsOf(used)| < 10
                             && IsTree(c, ArgsOf(used), FilesOf(used))
  {
    if ParseExec(ts) == Ok(c, rest) {
      var used, more := SimpleRead(ts);
      AroundParts(ArgsOf(used), FilesOf(used));
    }
    forall used | ts == used + rest && Simple(used) && |ArgsOf(used)| < 10 && IsTree(c, ArgsOf(used), FilesOf(used))
      ensures ParseExec(ts) == Ok(c, rest)
    {
      TreeIsAround(c, ArgsOf(used), FilesOf(used));
      SimpleReads(c, used, rest);
    }
  }

  /** A command with these arguments at its core, inside these redirections. */
  predicate IsTree(c: Cmd<string>, args: seq<string>, files: seq<File>) {
    Core(c) == Exec(args) && RedirFiles(c) == files
  }

  lemma {:induction false} TreeIsAround(c: Cmd<string>, args: seq<string>, files: seq<File>)
    requires IsTree(c, args, files)
    ensures c == Around(Exec(args), files)
  {
    if c.Redir? { TreeIsAround(c.cmd, args, RedirFiles(c.cmd)); }
  }
}
