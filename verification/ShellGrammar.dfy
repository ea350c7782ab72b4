/**
 The language of user/sh.c as a grammar, and what its sentences mean: the parser
 accepts exactly the lines whose tokens are a sentence, and gives its meaning.
 */
module ShellGrammar {
  import opened ShellSpec
  import opened ShellRoundTrip

  /** A token as the grammar sees it. */
  datatype Lex = Sign(kind: Kind) | Name(text: string)

  // ------------------------------------------------------------------
  // The grammar

  datatype To = To(mode: Mode, file: string)

  /** A word, and the redirections behind it. */
  datatype Arg = Arg(word: string, redirs: seq<To>)

  datatype Command = Simple(first: seq<To>, args: seq<Arg>) | Block(line: Sentence, redirs: seq<To>)

  /** Commands with bars between them. */
  datatype Pipeline = One(cmd: Command) | Bar(cmd: Command, rest: Pipeline)

  /** Pipelines, each with its ampersands, and semicolons between them. */
  datatype Sentence = Last(pipe: Pipeline, amps: nat) | Semi(pipe: Pipeline, amps: nat, rest: Sentence)

  function KindOf(m: Mode): (k: Kind) {
    match m case Read => Sym('<') case Trunc => Sym('>') case Add => Append
  }

  function SpellRedirs(rs: seq<To>): (ts: seq<Lex>) {
    if rs == [] then [] else [Sign(KindOf(rs[0].mode))] + ([Name(rs[0].file)] + SpellRedirs(rs[1..]))
  }

  function SpellArgs(args: seq<Arg>): (ts: seq<Lex>) {
    if args == [] then [] else [Name(args[0].word)] + (SpellRedirs(args[0].redirs) + SpellArgs(args[1..]))
  }

  function SpellCommand(c: Command): (ts: seq<Lex>) {
    match c
    case Simple(first, args) => SpellRedirs(first) + SpellArgs(args)
    case Block(line, redirs) => [Sign(Sym('('))] + (Spell(line) + ([Sign(Sym(')'))] + SpellRedirs(redirs)))
  }

  function SpellPipeline(x: Pipeline): (ts: seq<Lex>) {
    match x
    case One(c) => SpellCommand(c)
    case Bar(c, rest) => SpellCommand(c) + ([Sign(Sym('|'))] + SpellPipeline(rest))
  }

  function Amps(n: nat): (ts: seq<Lex>) { if n == 0 then [] else [Sign(Sym('&'))] + Amps(n - 1) }

  function Spell(l: Sentence): (ts: seq<Lex>) {
    match l
    case Last(x, n) => SpellPipeline(x) + Amps(n)
    case Semi(x, n, rest) => SpellPipeline(x) + (Amps(n) + ([Sign(Sym(';'))] + Spell(rest)))
  }

  // ------------------------------------------------------------------
  // What a sentence means

  function WordsOf(args: seq<Arg>): (ws: seq<string>)
    ensures |ws| == |args|
  {
    if args == [] then [] else [args[0].word] + WordsOf(args[1..])
  }

  function RedirsOf(args: seq<Arg>): (rs: seq<To>) {
    if args == [] then [] else args[0].redirs + RedirsOf(args[1..])
  }

  /** The first redirection is the innermost. */
  function Redirected(t: Tree, rs: seq<To>): (r: Tree)
    decreases |rs|
  {
    if rs == [] then t else Redirected(TRedirect(t, rs[0].mode, rs[0].file), rs[1..])
  }

  function InBack(t: Tree, n: nat): (r: Tree)
    decreases n
  {
    if n == 0 then t else InBack(TBack(t), n - 1)
  }

  function CommandMeans(c: Command): (t: Tree) {
    match c
    case Simple(first, args) => Redirected(TExec(WordsOf(args)), first + RedirsOf(args))
    case Block(line, redirs) => Redirected(Means(line), redirs)
  }

  function PipelineMeans(x: Pipeline): (t: Tree) {
    match x
    case One(c) => CommandMeans(c)
    case Bar(c, rest) => TPipe(CommandMeans(c), PipelineMeans(rest))
  }

  function Means(l: Sentence): (t: Tree) {
    match l
    case Last(x, n) => InBack(PipelineMeans(x), n)
    case Semi(x, n, rest) => TList(InBack(PipelineMeans(x), n), Means(rest))
  }

  /** No command has more than nine arguments. */
  ghost predicate CommandFits(c: Command) {
    match c
    case Simple(_, args) => |args| < MAXARGS
    case Block(line, _) => Fits(line)
  }

  ghost predicate PipelineFits(x: Pipeline) { CommandFits(x.cmd) && (x.Bar? ==> PipelineFits(x.rest)) }

  ghost predicate Fits(l: Sentence) { PipelineFits(l.pipe) && (l.Semi? ==> Fits(l.rest)) }

  // ------------------------------------------------------------------
  // The tokens of a line

  function LexOf(s: string, t: Token): (x: Lex)
    requires t.q <= t.eq <= |s|
  {
    if t.kind.Word? then Name(s[t.q..t.eq]) else Sign(t.kind)
  }

  function Tokens(s: string, p: nat): (ts: seq<Lex>)
    requires p <= |s|
    decreases |s| - p
  {
    var t := Tok(s, p);
    if t.kind.End? then [] else [LexOf(s, t)] + Tokens(s, t.next)
  }

  lemma {:induction false} SkipTwice(s: string, p: nat)
    requires p <= |s|
    ensures Skip(s, Skip(s, p)) == Skip(s, p)
  {
  }

  /** Space makes no difference. */
  lemma Spaced(s: string, p: nat)
    requires p <= |s|
    ensures Tok(s, Skip(s, p)) == Tok(s, p) && Tokens(s, Skip(s, p)) == Tokens(s, p)
  {
    SkipTwice(s, p);
  }

  ghost predicate Starts(ts: seq<Lex>, c: char) { ts != [] && ts[0] == Sign(Sym(c)) }

  /** peek sees a symbol exactly if it is the next token. */
  lemma Peeks(s: string, p: nat, c: char)
    requires p <= |s| && Symbol(c) && c != '>'
    ensures Next(s, Skip(s, p), c) <==> Starts(Tokens(s, p), c)
  {
    hide Tokens;
    TokensAt(s, p);
  }

  lemma TokensAt(s: string, p: nat)
    requires p <= |s|
    ensures var t := Tok(s, p); Tokens(s, p) == if t.kind.End? then [] else [LexOf(s, t)] + Tokens(s, t.next)
  {
  }

  ghost predicate Redirects(ts: seq<Lex>) {
    ts != [] && (ts[0] == Sign(Sym('<')) || ts[0] == Sign(Sym('>')) || ts[0] == Sign(Append))
  }

  lemma PeeksRedir(s: string, p: nat)
    requires p <= |s|
    ensures Next(s, Skip(s, p), '<') || Next(s, Skip(s, p), '>') <==> Redirects(Tokens(s, p))
  {
    hide Tokens;
    TokensAt(s, p);
  }

  /** The end of a command. */
  ghost predicate Follows(ts: seq<Lex>) {
    ts == [] || Starts(ts, '|') || Starts(ts, ')') || Starts(ts, '&') || Starts(ts, ';')
  }

  lemma PeeksStop(s: string, p: nat)
    requires p <= |s|
    ensures Stops(s, Skip(s, p)) || Tok(s, p).kind.End? <==> Follows(Tokens(s, p))
    ensures !Stops(s, Skip(s, p)) || !Tok(s, p).kind.End?
  {
    hide Tokens;
    TokensAt(s, p);
  }

  /** The first token of two texts that are the same. */
  lemma Heads(x: Lex, a: seq<Lex>, u: seq<Lex>, y: Lex, b: seq<Lex>)
    requires ([x] + a) + u == [y] + b
    ensures x == y && a + u == b
  {
    var l := ([x] + a) + u;
    assert l[0] == x && l[1..] == a + u && ([y] + b)[1..] == b;
  }

  // ------------------------------------------------------------------
  // Redirections and arguments

  function Files(s: string, rs: seq<Redir>): (r: seq<To>) {
    if rs == [] then [] else [To(rs[0].mode, TextAt(s, rs[0].file))] + Files(s, rs[1..])
  }

  lemma {:induction false} FilesThen(s: string, a: seq<Redir>, b: seq<Redir>)
    ensures Files(s, a + b) == Files(s, a) + Files(s, b)
    decreases |a|
  {
    if a == [] {
      assert a + b == b;
    } else {
      FilesThen(s, a[1..], b);
      assert (a + b)[1..] == a[1..] + b;
    }
  }

  lemma {:induction false} WrapMeans(s: string, c: Cmd, rs: seq<Redir>)
    ensures TreeOf(s, Wrap(c, rs)) == Redirected(TreeOf(s, c), Files(s, rs))
    decreases |rs|
  {
    if rs != [] {
      WrapMeans(s, Redirect(c, rs[0]), rs[1..]);
      assert Files(s, rs)[1..] == Files(s, rs[1..]);
    }
  }

  /** One redirection, read off the line. */
  lemma RedirStep(s: string, p: nat)
    requires p <= |s| && Redirects(Tokens(s, p))
    ensures var t := Tok(s, p);
            var f := Tok(s, t.next);
            && Tokens(s, p) == [Sign(KindOf(ModeOf(t.kind)))] + Tokens(s, t.next)
            && (f.kind.Word? ==> Tokens(s, t.next) == [Name(TextAt(s, Span(f.q, f.eq)))] + Tokens(s, f.next))
            && (f.kind.Word? <==> Tokens(s, t.next) != [] && Tokens(s, t.next)[0].Name?)
  {
    hide Tokens, Tok;
    var t := Tok(s, p);
    TokensAt(s, p);
    TokensAt(s, t.next);
  }

  lemma ModeBack(m: Mode)
    ensures ModeOf(KindOf(m)) == m
  {
  }

  lemma ParseRedirsStep(s: string, p: nat)
    requires p <= |s|
    ensures var r, t := ParseRedirs(s, p), Tok(s, p);
            var f := Tok(s, t.next);
            if !Redirects(Tokens(s, p)) then r == Ok([], Skip(s, p))
            else if !f.kind.Word? then r == Panic
            else
              var rest := ParseRedirs(s, f.next);
              r == if rest.Panic? then Panic
                   else Ok([Redir(ModeOf(t.kind), Span(f.q, f.eq))] + rest.value, rest.pos)
  {
    hide Tok, Skip, Tokens;
    PeeksRedir(s, p);
    Spaced(s, p);
  }

  lemma {:induction false} RedirsParse(s: string, p: nat, rs: seq<To>, u: seq<Lex>)
    requires p <= |s| && Tokens(s, p) == SpellRedirs(rs) + u && !Redirects(u)
    ensures var r := ParseRedirs(s, p); r.Ok? && Tokens(s, r.pos) == u && Files(s, r.value) == rs
    decreases |rs|
  {
    hide Tok, Skip, Tokens, ParseRedirs, TextAt;
    ParseRedirsStep(s, p);
    Spaced(s, p);
    if rs == [] {
      assert SpellRedirs(rs) + u == u;
    } else {
      var rest := SpellRedirs(rs[1..]);
      assert (SpellRedirs(rs) + u)[0] == Sign(KindOf(rs[0].mode));
      RedirStep(s, p);
      var t := Tok(s, p);
      var f := Tok(s, t.next);
      Heads(Sign(KindOf(rs[0].mode)), [Name(rs[0].file)] + rest, u, Sign(KindOf(ModeOf(t.kind))), Tokens(s, t.next));
      assert (([Name(rs[0].file)] + rest) + u)[0] == Name(rs[0].file);
      Heads(Name(rs[0].file), rest, u, Name(TextAt(s, Span(f.q, f.eq))), Tokens(s, f.next));
      RedirsParse(s, f.next, rs[1..], u);
      ModeBack(rs[0].mode);
      ModeBack(ModeOf(t.kind));
      var v := ParseRedirs(s, p).value;
      assert v[1..] == ParseRedirs(s, f.next).value;
    }
  }

  lemma {:induction false} RedirsSpelled(s: string, p: nat)
    requires p <= |s| && ParseRedirs(s, p).Ok?
    ensures var r := ParseRedirs(s, p);
            Tokens(s, p) == SpellRedirs(Files(s, r.value)) + Tokens(s, r.pos) && !Redirects(Tokens(s, r.pos))
    decreases |s| - p
  {
    hide Tok, Skip, Tokens, ParseRedirs, TextAt;
    ParseRedirsStep(s, p);
    Spaced(s, p);
    var r := ParseRedirs(s, p);
    if Redirects(Tokens(s, p)) {
      RedirStep(s, p);
      var t := Tok(s, p);
      var f := Tok(s, t.next);
      Advances(s, p);
      RedirsSpelled(s, f.next);
      var rest := ParseRedirs(s, f.next);
      assert r.value[1..] == rest.value;
      assert Files(s, r.value)[1..] == Files(s, rest.value);
    }
  }

  lemma Advances(s: string, p: nat)
    requires p <= |s| && Tokens(s, p) != []
    ensures p < Tok(s, p).next <= |s|
  {
  }

  lemma ParseArgsStep(s: string, p: nat, n: nat)
    requires p <= |s|
    ensures var r, t := ParseArgs(s, p, n), Tok(s, p);
            if Follows(Tokens(s, p)) then r.Ok? && r.value == Args([], []) && Tokens(s, r.pos) == Tokens(s, p)
            else if !t.kind.Word? || n + 1 >= MAXARGS || ParseRedirs(s, t.next).Panic? then r == Panic
            else
              var rs := ParseRedirs(s, t.next);
              var more := ParseArgs(s, rs.pos, n + 1);
              r == if more.Panic? then Panic
                   else Ok(Args([Span(t.q, t.eq)] + more.value.words, rs.value + more.value.redirs), more.pos)
  {
    hide Tok, Skip, Tokens, ParseRedirs, Stops;
    PeeksStop(s, p);
    Spaced(s, p);
    if Tok(s, p).kind.End? {
      AtEnd(s, p);
    }
  }

  lemma AtEnd(s: string, p: nat)
    requires p <= |s| && Tok(s, p).kind.End?
    ensures Tokens(s, p) == [] && Tokens(s, Tok(s, p).next) == []
  {
  }

  lemma WordStep(s: string, p: nat)
    requires p <= |s|
    ensures var t := Tok(s, p);
            && (t.kind.Word? <==> Tokens(s, p) != [] && Tokens(s, p)[0].Name?)
            && (t.kind.Word? ==> Tokens(s, p) == [Name(TextAt(s, Span(t.q, t.eq)))] + Tokens(s, t.next))
            && (t.kind.Word? ==> p < t.next)
  {
    hide Tokens, Tok;
    TokensAt(s, p);
  }

  lemma ArgsMore(a: Arg, more: seq<Arg>)
    ensures SpellArgs([a] + more) == [Name(a.word)] + (SpellRedirs(a.redirs) + SpellArgs(more))
    ensures WordsOf([a] + more) == [a.word] + WordsOf(more) && RedirsOf([a] + more) == a.redirs + RedirsOf(more)
  {
    assert ([a] + more)[1..] == more;
  }

  lemma TextsMore(s: string, w: Span, ws: seq<Span>)
    ensures Texts(s, [w] + ws) == [TextAt(s, w)] + Texts(s, ws)
  {
    assert ([w] + ws)[1..] == ws;
  }

  lemma NoArgs(s: string)
    ensures SpellArgs([]) == [] && Texts(s, []) == WordsOf([]) && Files(s, []) == RedirsOf([])
  {
  }

  lemma {:induction false} ArgsParse(s: string, p: nat, args: seq<Arg>, n: nat, u: seq<Lex>)
    requires p <= |s| && Tokens(s, p) == SpellArgs(args) + u && Follows(u) && n + |args| < MAXARGS
    ensures var r := ParseArgs(s, p, n);
            && r.Ok? && Tokens(s, r.pos) == u
            && Texts(s, r.value.words) == WordsOf(args) && Files(s, r.value.redirs) == RedirsOf(args)
    decreases |args|
  {
    hide Tok, Skip, Tokens, ParseRedirs, TextAt, ParseArgs, Texts, Files, SpellArgs, WordsOf, RedirsOf, SpellRedirs;
    ParseArgsStep(s, p, n);
    NoArgs(s);
    if args == [] {
      assert SpellArgs(args) + u == u;
    } else {
      var a, rest := args[0], args[1..];
      assert args == [a] + rest;
      ArgsMore(a, rest);
      assert (SpellArgs(args) + u)[0] == Name(a.word);
      WordStep(s, p);
      var t := Tok(s, p);
      var more := SpellArgs(rest);
      Heads(Name(a.word), SpellRedirs(a.redirs) + more, u, Name(TextAt(s, Span(t.q, t.eq))), Tokens(s, t.next));
      assert (SpellRedirs(a.redirs) + more) + u == SpellRedirs(a.redirs) + (more + u);
      SimpleStarts([], rest, u);
      RedirsParse(s, t.next, a.redirs, more + u);
      var rs := ParseRedirs(s, t.next);
      ArgsParse(s, rs.pos, rest, n + 1, u);
      var b := ParseArgs(s, rs.pos, n + 1);
      TextsMore(s, Span(t.q, t.eq), b.value.words);
      FilesThen(s, rs.value, b.value.redirs);
    }
  }

  lemma {:induction false} ArgsSpelled(s: string, p: nat, n: nat) returns (args: seq<Arg>)
    requires p <= |s| && ParseArgs(s, p, n).Ok? && n < MAXARGS
    ensures var r := ParseArgs(s, p, n);
            && n + |args| < MAXARGS && Tokens(s, p) == SpellArgs(args) + Tokens(s, r.pos) && Follows(Tokens(s, r.pos))
            && Texts(s, r.value.words) == WordsOf(args) && Files(s, r.value.redirs) == RedirsOf(args)
    decreases |s| - p
  {
    hide Tok, Skip, Tokens, ParseRedirs, TextAt, ParseArgs, Texts, Files, SpellArgs, WordsOf, RedirsOf, SpellRedirs;
    ParseArgsStep(s, p, n);
    if Follows(Tokens(s, p)) {
      args := [];
      NoArgs(s);
    } else {
      WordStep(s, p);
      var t := Tok(s, p);
      var rs := ParseRedirs(s, t.next);
      RedirsSpelled(s, t.next);
      var more := ArgsSpelled(s, rs.pos, n + 1);
      var r, rest := ParseArgs(s, p, n), ParseArgs(s, rs.pos, n + 1);
      var w := Span(t.q, t.eq);
      var a := Arg(TextAt(s, w), Files(s, rs.value));
      args := [a] + more;
      ArgsMore(a, more);
      TextsMore(s, w, rest.value.words);
      FilesThen(s, rs.value, rest.value.redirs);
      Regroup([Name(a.word)], SpellRedirs(a.redirs), SpellArgs(more), Tokens(s, r.pos));
    }
  }

  lemma Regroup(a: seq<Lex>, b: seq<Lex>, c: seq<Lex>, d: seq<Lex>)
    ensures (a + (b + c)) + d == a + (b + (c + d))
  {
  }

  // ------------------------------------------------------------------
  // Commands

  lemma ParseExecStep(s: string, p: nat)
    requires p <= |s|
    ensures var r, q := ParseExec(s, p), Skip(s, p);
            if Starts(Tokens(s, p), '(') then Next(s, q, '(') && r == ParseBlock(s, q)
            else
              var rs := ParseRedirs(s, q);
              r == if rs.Panic? then Panic
                   else
                     var args := ParseArgs(s, rs.pos, 0);
                     if args.Panic? then Panic
                     else Ok(Wrap(Exec(args.value.words), rs.value + args.value.redirs), args.pos)
  {
    hide Tok, Skip, Tokens, ParseRedirs, ParseArgs, ParseBlock, Wrap;
    Peeks(s, p, '(');
  }

  /** A symbol and what is behind it. */
  lemma SignStep(s: string, p: nat, c: char)
    requires p <= |s| && Starts(Tokens(s, p), c)
    ensures p < Tok(s, p).next && Tokens(s, p) == [Sign(Sym(c))] + Tokens(s, Tok(s, p).next)
  {
    hide Tok, Tokens;
    TokensAt(s, p);
    Advances(s, p);
  }

  lemma ParseBlockStep(s: string, p: nat)
    requires p <= |s| && Next(s, Skip(s, p), '(')
    ensures var r := ParseBlock(s, Skip(s, p));
            var body := ParseLine(s, Tok(s, p).next);
            if body.Panic? || !Starts(Tokens(s, body.pos), ')') then r == Panic
            else
              var rs := ParseRedirs(s, Tok(s, body.pos).next);
              r == if rs.Panic? then Panic else Ok(Wrap(body.value, rs.value), rs.pos)
  {
    hide Tok, Skip, Tokens, ParseRedirs, ParseLine, Wrap;
    Spaced(s, p);
    var body := ParseLine(s, Tok(s, p).next);
    if body.Ok? {
      Peeks(s, body.pos, ')');
      Spaced(s, body.pos);
    }
  }

  /** The parser reads the sentence l, and stops before u. */
  ghost predicate ReadsLine(s: string, p: nat, l: Sentence, u: seq<Lex>)
    requires p <= |s|
  {
    var r := ParseLine(s, p); r.Ok? && Tokens(s, r.pos) == u && TreeOf(s, r.value) == Means(l)
  }

  ghost predicate ReadsCommand(s: string, p: nat, c: Command, u: seq<Lex>)
    requires p <= |s|
  {
    var r := ParseExec(s, p); r.Ok? && Tokens(s, r.pos) == u && TreeOf(s, r.value) == CommandMeans(c)
  }

  ghost predicate ReadsPipeline(s: string, p: nat, x: Pipeline, u: seq<Lex>)
    requires p <= |s|
  {
    var r := ParsePipe(s, p); r.Ok? && Tokens(s, r.pos) == u && TreeOf(s, r.value) == PipelineMeans(x)
  }

  lemma {:induction false} SimpleParses(s: string, p: nat, first: seq<To>, args: seq<Arg>, u: seq<Lex>)
    requires p <= |s| && Tokens(s, p) == (SpellRedirs(first) + SpellArgs(args)) + u && Follows(u) && |args| < MAXARGS
    ensures ReadsCommand(s, p, Simple(first, args), u)
  {
    hide Tok, Skip, Tokens, ParseRedirs, ParseArgs, ParseBlock, Wrap, ParseExec, Redirected;
    assert (SpellRedirs(first) + SpellArgs(args)) + u == SpellRedirs(first) + (SpellArgs(args) + u);
    SimpleStarts(first, args, u);
    ParseExecStep(s, p);
    Spaced(s, p);
    var q := Skip(s, p);
    RedirsParse(s, q, first, SpellArgs(args) + u);
    var rs := ParseRedirs(s, q);
    ArgsParse(s, rs.pos, args, 0, u);
    var a := ParseArgs(s, rs.pos, 0);
    FilesThen(s, rs.value, a.value.redirs);
    WrapMeans(s, Exec(a.value.words), rs.value + a.value.redirs);
  }

  lemma {:induction false} SimpleStarts(first: seq<To>, args: seq<Arg>, u: seq<Lex>)
    requires Follows(u)
    ensures !Redirects(SpellArgs(args) + u) && !Starts(SpellRedirs(first) + (SpellArgs(args) + u), '(')
  {
    if args == [] {
      assert SpellArgs(args) + u == u;
    } else {
      assert (SpellArgs(args) + u)[0] == Name(args[0].word);
    }
    if first == [] {
      assert SpellRedirs(first) + (SpellArgs(args) + u) == SpellArgs(args) + u;
    } else {
      assert (SpellRedirs(first) + (SpellArgs(args) + u))[0] == Sign(KindOf(first[0].mode));
    }
  }

  lemma {:induction false} BlockParses(s: string, p: nat, line: Sentence, redirs: seq<To>, u: seq<Lex>)
    requires p <= |s| && Starts(Tokens(s, p), '(') && !Redirects(u)
    requires ReadsLine(s, Tok(s, p).next, line, [Sign(Sym(')'))] + (SpellRedirs(redirs) + u))
    ensures ReadsCommand(s, p, Block(line, redirs), u)
  {
    hide Tok, Skip, Tokens, ParseRedirs, ParseLine, ParseBlock, Wrap, ParseExec, SpellRedirs;
    ParseExecStep(s, p);
    ParseBlockStep(s, p);
    var body := ParseLine(s, Tok(s, p).next);
    SignStep(s, body.pos, ')');
    var e := Tok(s, body.pos).next;
    Heads(Sign(Sym(')')), [], SpellRedirs(redirs) + u, Sign(Sym(')')), Tokens(s, e));
    assert [] + (SpellRedirs(redirs) + u) == SpellRedirs(redirs) + u;
    RedirsParse(s, e, redirs, u);
    WrapMeans(s, body.value, ParseRedirs(s, e).value);
  }

  lemma {:induction false} CommandParses(s: string, p: nat, c: Command, u: seq<Lex>)
    requires p <= |s| && Tokens(s, p) == SpellCommand(c) + u && Follows(u) && CommandFits(c)
    ensures ReadsCommand(s, p, c, u)
    decreases c, 0
  {
    hide Tok, Tokens, ReadsCommand, ReadsLine, SpellRedirs, SpellArgs, Means;
    match c {
      case Simple(first, args) => SimpleParses(s, p, first, args, u);
      case Block(line, redirs) =>
        var inner := [Sign(Sym(')'))] + SpellRedirs(redirs);
        assert (SpellCommand(c) + u)[0] == Sign(Sym('('));
        SignStep(s, p, '(');
        Heads(Sign(Sym('(')), Spell(line) + inner, u, Sign(Sym('(')), Tokens(s, Tok(s, p).next));
        var rest := [Sign(Sym(')'))] + (SpellRedirs(redirs) + u);
        assert (Spell(line) + inner) + u == Spell(line) + rest;
        LineParses(s, Tok(s, p).next, line, rest);
        BlockParses(s, p, line, redirs, u);
    }
  }

  // ------------------------------------------------------------------
  // Pipelines and lines

  lemma ParsePipeStep(s: string, p: nat)
    requires p <= |s|
    ensures var r, left := ParsePipe(s, p), ParseExec(s, p);
            if left.Panic? then r == Panic
            else if !Starts(Tokens(s, left.pos), '|') then
              r.Ok? && r.value == left.value && Tokens(s, r.pos) == Tokens(s, left.pos)
            else
              var right := ParsePipe(s, Tok(s, left.pos).next);
              r == if right.Panic? then Panic else Ok(Pipe(left.value, right.value), right.pos)
  {
    hide Tok, Skip, Tokens, ParseExec;
    var left := ParseExec(s, p);
    if left.Ok? {
      Peeks(s, left.pos, '|');
      Spaced(s, left.pos);
    }
  }

  ghost predicate EndsPipe(ts: seq<Lex>) { ts == [] || Starts(ts, ')') || Starts(ts, '&') || Starts(ts, ';') }

  lemma {:induction false} PipelineParses(s: string, p: nat, x: Pipeline, u: seq<Lex>)
    requires p <= |s| && Tokens(s, p) == SpellPipeline(x) + u && EndsPipe(u) && PipelineFits(x)
    ensures ReadsPipeline(s, p, x, u)
    decreases x, 0
  {
    hide Tok, Tokens, ParseExec, ParsePipe, SpellCommand, CommandMeans, CommandFits;
    ParsePipeStep(s, p);
    match x {
      case One(c) => CommandParses(s, p, c, u);
      case Bar(c, rest) =>
        var v := [Sign(Sym('|'))] + (SpellPipeline(rest) + u);
        assert SpellPipeline(x) + u == SpellCommand(c) + v;
        CommandParses(s, p, c, v);
        var left := ParseExec(s, p);
        SignStep(s, left.pos, '|');
        var e := Tok(s, left.pos).next;
        Heads(Sign(Sym('|')), [], SpellPipeline(rest) + u, Sign(Sym('|')), Tokens(s, e));
        assert [] + (SpellPipeline(rest) + u) == SpellPipeline(rest) + u;
        PipelineParses(s, e, rest, u);
    }
  }

  lemma BacksStep(s: string, c: Cmd, p: nat)
    requires p <= |s|
    ensures var r := Backs(s, c, p);
            if Starts(Tokens(s, p), '&') then r == Backs(s, Back(c), Tok(s, p).next)
            else r == Ok(c, Skip(s, p)) && Tokens(s, r.pos) == Tokens(s, p)
  {
    hide Tok, Skip, Tokens;
    Peeks(s, p, '&');
    Spaced(s, p);
  }

  lemma {:induction false} BacksParse(s: string, c: Cmd, p: nat, n: nat, u: seq<Lex>)
    requires p <= |s| && Tokens(s, p) == Amps(n) + u && !Starts(u, '&')
    ensures var r := Backs(s, c, p); Tokens(s, r.pos) == u && TreeOf(s, r.value) == InBack(TreeOf(s, c), n)
    decreases n
  {
    hide Tok, Skip, Tokens, Backs;
    BacksStep(s, c, p);
    if n == 0 {
      assert Amps(n) + u == u;
    } else {
      assert (Amps(n) + u)[0] == Sign(Sym('&'));
      SignStep(s, p, '&');
      Heads(Sign(Sym('&')), Amps(n - 1), u, Sign(Sym('&')), Tokens(s, Tok(s, p).next));
      BacksParse(s, Back(c), Tok(s, p).next, n - 1, u);
    }
  }

  lemma {:induction false} BacksSpelled(s: string, c: Cmd, p: nat) returns (n: nat)
    requires p <= |s|
    ensures var r := Backs(s, c, p);
            && Tokens(s, p) == Amps(n) + Tokens(s, r.pos) && !Starts(Tokens(s, r.pos), '&')
            && TreeOf(s, r.value) == InBack(TreeOf(s, c), n)
    decreases |s| - p
  {
    hide Tok, Skip, Tokens, Backs;
    BacksStep(s, c, p);
    n := 0;
    if Starts(Tokens(s, p), '&') {
      SignStep(s, p, '&');
      n := BacksSpelled(s, Back(c), Tok(s, p).next);
      n := n + 1;
    }
  }

  lemma ParseLineStep(s: string, p: nat)
    requires p <= |s|
    ensures var r, first := ParseLine(s, p), ParsePipe(s, p);
            if first.Panic? then r == Panic
            else
              var b := Backs(s, first.value, first.pos);
              if !Starts(Tokens(s, b.pos), ';') then r == b
              else
                var rest := ParseLine(s, Tok(s, b.pos).next);
                r == if rest.Panic? then Panic else Ok(List(b.value, rest.value), rest.pos)
  {
    hide Tok, Tokens, ParsePipe, Backs;
    var first := ParsePipe(s, p);
    if first.Ok? {
      var b := Backs(s, first.value, first.pos);
      Peeks(s, b.pos, ';');
    }
  }

  ghost predicate EndsLine(ts: seq<Lex>) { ts == [] || Starts(ts, ')') }

  lemma AmpsStart(n: nat, u: seq<Lex>)
    requires EndsPipe(u)
    ensures EndsPipe(Amps(n) + u)
  {
    if n == 0 {
      assert Amps(n) + u == u;
    } else {
      assert (Amps(n) + u)[0] == Sign(Sym('&'));
    }
  }

  /** A pipeline with its ampersands. */
  lemma {:induction false} ItemParses(s: string, p: nat, x: Pipeline, n: nat, u: seq<Lex>)
    requires p <= |s| && Tokens(s, p) == SpellPipeline(x) + (Amps(n) + u) && PipelineFits(x)
    requires EndsPipe(u) && !Starts(u, '&')
    ensures var first := ParsePipe(s, p);
            && first.Ok?
            && var b := Backs(s, first.value, first.pos);
               Tokens(s, b.pos) == u && TreeOf(s, b.value) == InBack(PipelineMeans(x), n)
    decreases x, 1
  {
    hide Tok, Tokens, ParsePipe, Backs, SpellPipeline, Amps, PipelineMeans, PipelineFits, EndsPipe;
    AmpsStart(n, u);
    PipelineParses(s, p, x, Amps(n) + u);
    var first := ParsePipe(s, p);
    BacksParse(s, first.value, first.pos, n, u);
  }

  lemma {:induction false} LineParses(s: string, p: nat, l: Sentence, u: seq<Lex>)
    requires p <= |s| && Tokens(s, p) == Spell(l) + u && EndsLine(u) && Fits(l)
    ensures ReadsLine(s, p, l, u)
    decreases l, 0
  {
    hide Tok, Tokens, ParsePipe, ParseLine, Backs, SpellPipeline, PipelineMeans, PipelineFits, Amps, InBack;
    ParseLineStep(s, p);
    match l {
      case Last(x, n) =>
        assert (SpellPipeline(x) + Amps(n)) + u == SpellPipeline(x) + (Amps(n) + u);
        ItemParses(s, p, x, n, u);
      case Semi(x, n, rest) =>
        var v := [Sign(Sym(';'))] + (Spell(rest) + u);
        assert Spell(l) + u == SpellPipeline(x) + (Amps(n) + v);
        ItemParses(s, p, x, n, v);
        var first := ParsePipe(s, p);
        var b := Backs(s, first.value, first.pos);
        SignStep(s, b.pos, ';');
        var e := Tok(s, b.pos).next;
        Heads(Sign(Sym(';')), [], Spell(rest) + u, Sign(Sym(';')), Tokens(s, e));
        assert [] + (Spell(rest) + u) == Spell(rest) + u;
        LineParses(s, e, rest, u);
    }
  }

  // ------------------------------------------------------------------
  // What the parser accepts is a sentence

  lemma {:induction false} CommandSpelled(s: string, p: nat) returns (c: Command)
    requires p <= |s| && ParseExec(s, p).Ok?
    ensures CommandFits(c) && Tokens(s, p) == SpellCommand(c) + Tokens(s, ParseExec(s, p).pos)
    ensures ReadsCommand(s, p, c, Tokens(s, ParseExec(s, p).pos))
    decreases |s| - p, 1
  {
    hide Tok, Skip, Tokens, ParseRedirs, ParseArgs, ParseBlock, Wrap, ParseExec, SpellRedirs, SpellArgs, Files;
    ParseExecStep(s, p);
    if Starts(Tokens(s, p), '(') {
      c := BlockSpelled(s, p);
    } else {
      Spaced(s, p);
      var q := Skip(s, p);
      var rs := ParseRedirs(s, q);
      RedirsSpelled(s, q);
      var args := ArgsSpelled(s, rs.pos, 0);
      var a := ParseArgs(s, rs.pos, 0);
      c := Simple(Files(s, rs.value), args);
      FilesThen(s, rs.value, a.value.redirs);
      WrapMeans(s, Exec(a.value.words), rs.value + a.value.redirs);
      assert SpellRedirs(c.first) + (SpellArgs(args) + Tokens(s, a.pos))
        == (SpellRedirs(c.first) + SpellArgs(args)) + Tokens(s, a.pos);
    }
  }

  lemma {:induction false} BlockSpelled(s: string, p: nat) returns (c: Command)
    requires p <= |s| && Starts(Tokens(s, p), '(') && ParseExec(s, p).Ok?
    ensures CommandFits(c) && Tokens(s, p) == SpellCommand(c) + Tokens(s, ParseExec(s, p).pos)
    ensures ReadsCommand(s, p, c, Tokens(s, ParseExec(s, p).pos))
    decreases |s| - p, 0
  {
    hide Tok, Skip, Tokens, ParseRedirs, ParseLine, ParseBlock, Wrap, ParseExec, SpellRedirs, Files, Fits;
    ParseExecStep(s, p);
    ParseBlockStep(s, p);
    SignStep(s, p, '(');
    var m := Tok(s, p).next;
    var body := ParseLine(s, m);
    var line := LineSpelled(s, m);
    SignStep(s, body.pos, ')');
    var e := Tok(s, body.pos).next;
    var rs := ParseRedirs(s, e);
    RedirsSpelled(s, e);
    c := Block(line, Files(s, rs.value));
    WrapMeans(s, body.value, rs.value);
    BlockTokens(line, c.redirs, Tokens(s, rs.pos));
  }

  lemma BlockTokens(line: Sentence, redirs: seq<To>, u: seq<Lex>)
    ensures [Sign(Sym('('))] + (Spell(line) + ([Sign(Sym(')'))] + (SpellRedirs(redirs) + u)))
         == SpellCommand(Block(line, redirs)) + u
  {
    hide Spell, SpellRedirs;
  }

  lemma {:induction false} PipelineSpelled(s: string, p: nat) returns (x: Pipeline)
    requires p <= |s| && ParsePipe(s, p).Ok?
    ensures PipelineFits(x) && Tokens(s, p) == SpellPipeline(x) + Tokens(s, ParsePipe(s, p).pos)
    ensures ReadsPipeline(s, p, x, Tokens(s, ParsePipe(s, p).pos))
    decreases |s| - p, 2
  {
    hide Tok, Skip, Tokens, ParseExec, ParsePipe, SpellCommand, CommandMeans, CommandFits;
    ParsePipeStep(s, p);
    var left := ParseExec(s, p);
    var c := CommandSpelled(s, p);
    if Starts(Tokens(s, left.pos), '|') {
      SignStep(s, left.pos, '|');
      var rest := PipelineSpelled(s, Tok(s, left.pos).next);
      x := Bar(c, rest);
      var u := Tokens(s, ParsePipe(s, p).pos);
      assert SpellCommand(c) + ([Sign(Sym('|'))] + (SpellPipeline(rest) + u))
        == (SpellCommand(c) + ([Sign(Sym('|'))] + SpellPipeline(rest))) + u;
    } else {
      x := One(c);
    }
  }

  lemma {:induction false} LineSpelled(s: string, p: nat) returns (l: Sentence)
    requires p <= |s| && ParseLine(s, p).Ok?
    ensures Fits(l) && Tokens(s, p) == Spell(l) + Tokens(s, ParseLine(s, p).pos)
    ensures ReadsLine(s, p, l, Tokens(s, ParseLine(s, p).pos))
    decreases |s| - p, 3
  {
    hide Tok, Skip, Tokens, ParsePipe, ParseLine, Backs, SpellPipeline, PipelineMeans, PipelineFits, Amps, InBack;
    ParseLineStep(s, p);
    var first := ParsePipe(s, p);
    var x := PipelineSpelled(s, p);
    var n := BacksSpelled(s, first.value, first.pos);
    var b := Backs(s, first.value, first.pos);
    var u := Tokens(s, ParseLine(s, p).pos);
    if Starts(Tokens(s, b.pos), ';') {
      SignStep(s, b.pos, ';');
      var rest := LineSpelled(s, Tok(s, b.pos).next);
      l := Semi(x, n, rest);
      assert SpellPipeline(x) + (Amps(n) + ([Sign(Sym(';'))] + (Spell(rest) + u)))
        == (SpellPipeline(x) + (Amps(n) + ([Sign(Sym(';'))] + Spell(rest)))) + u;
    } else {
      l := Last(x, n);
      assert SpellPipeline(x) + (Amps(n) + u) == (SpellPipeline(x) + Amps(n)) + u;
    }
  }

  // ------------------------------------------------------------------
  // The language

  /** t is what a sentence with these tokens means. */
  ghost predicate IsMeaning(ts: seq<Lex>, t: Tree) {
    exists l :: Fits(l) && Spell(l) == ts && Means(l) == t
  }

  lemma Nothing(s: string, p: nat)
    requires p <= |s|
    ensures Tokens(s, p) == [] <==> Skip(s, p) == |s|
  {
    hide Skip;
  }

  /**
   parsecmd accepts a line exactly if its tokens are a sentence, and gives the
   command that the sentence means: a bar binds tighter than an ampersand, an
   ampersand tighter than a semicolon, and both bars and semicolons group to
   the right.
   */
  lemma ParsesLanguage(s: string, t: Tree)
    ensures ParseCmd(s).Ok? && TreeOf(s, ParseCmd(s).value) == t <==> IsMeaning(Tokens(s, 0), t)
  {
    hide Tokens, ParseLine, Skip, Fits, Spell, Means;
    if l :| Fits(l) && Spell(l) == Tokens(s, 0) && Means(l) == t {
      assert Spell(l) + [] == Spell(l);
      LineParses(s, 0, l, []);
      Nothing(s, ParseLine(s, 0).pos);
    }
    if ParseCmd(s).Ok? {
      var l := LineSpelled(s, 0);
      var pos := ParseLine(s, 0).pos;
      Nothing(s, pos);
      assert Spell(l) + [] == Spell(l);
    }
  }
}
