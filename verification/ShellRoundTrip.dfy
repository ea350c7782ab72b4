/**
 Printing a command fully parenthesised and parsing it gives the same command.
 */
module ShellRoundTrip {
  import opened ShellSpec

  /** A command by its texts. */
  datatype Tree =
    | TExec(words: seq<string>)
    | TRedirect(tree: Tree, mode: Mode, file: string)
    | TPipe(left: Tree, right: Tree)
    | TList(left: Tree, right: Tree)
    | TBack(tree: Tree)

  function TextAt(s: string, sp: Span): (w: string) {
    if sp.q <= sp.eq <= |s| then s[sp.q..sp.eq] else ""
  }

  function Texts(s: string, spans: seq<Span>): (ws: seq<string>)
    ensures |ws| == |spans|
  {
    if spans == [] then [] else [TextAt(s, spans[0])] + Texts(s, spans[1..])
  }

  /** The command with its texts read off the line. */
  function TreeOf(s: string, c: Cmd): (t: Tree) {
    match c
    case Exec(args) => TExec(Texts(s, args))
    case Redirect(d, r) => TRedirect(TreeOf(s, d), r.mode, TextAt(s, r.file))
    case Pipe(l, r) => TPipe(TreeOf(s, l), TreeOf(s, r))
    case List(l, r) => TList(TreeOf(s, l), TreeOf(s, r))
    case Back(d) => TBack(TreeOf(s, d))
  }

  ghost predicate PlainWord(w: string) { w != "" && forall i :: 0 <= i < |w| ==> Plain(w[i]) }

  ghost predicate PlainWords(ws: seq<string>) { forall i :: 0 <= i < |ws| ==> PlainWord(ws[i]) }

  /** Words are plain, and no command has more than nine arguments. */
  ghost predicate WellFormed(t: Tree) {
    match t
    case TExec(ws) => |ws| < MAXARGS && PlainWords(ws)
    case TRedirect(d, m, f) => WellFormed(d) && PlainWord(f)
    case TPipe(l, r) => WellFormed(l) && WellFormed(r)
    case TList(l, r) => WellFormed(l) && WellFormed(r)
    case TBack(d) => WellFormed(d)
  }

  function ShowWords(ws: seq<string>): (s: string) {
    if ws == [] then "" else if |ws| == 1 then ws[0] else ws[0] + (" " + ShowWords(ws[1..]))
  }

  function ShowMode(m: Mode): (s: string) {
    match m case Read => "<" case Trunc => ">" case Add => ">>"
  }

  function Group(t: Tree): (s: string)
    decreases t, 1
  {
    "(" + (Show(t) + ")")
  }

  function Show(t: Tree): (s: string)
    decreases t, 0
  {
    match t
    case TExec(ws) => ShowWords(ws)
    case TRedirect(d, m, f) => Group(d) + (ShowMode(m) + f)
    case TPipe(l, r) => Group(l) + ("|" + Group(r))
    case TList(l, r) => Group(l) + (";" + Group(r))
    case TBack(d) => Group(d) + "&"
  }

  // ------------------------------------------------------------------
  // Text in its place

  ghost predicate At(s: string, p: nat, t: string) { p + |t| <= |s| && s[p..p + |t|] == t }

  lemma AtBoth(s: string, p: nat, a: string, b: string)
    requires At(s, p, a + b)
    ensures At(s, p, a) && At(s, p + |a|, b)
  {
    assert s[p..p + |a|] == s[p..p + |a + b|][..|a|];
    assert s[p + |a|..p + |a| + |b|] == s[p..p + |a + b|][|a|..];
  }

  lemma AtChar(s: string, p: nat, t: string)
    requires At(s, p, t) && t != ""
    ensures p < |s| && s[p] == t[0]
  {
    assert s[p..p + |t|][0] == t[0];
  }

  /** The end of the line, or of a group. */
  ghost predicate Ends(s: string, p: nat) { p <= |s| && (p == |s| || s[p] == ')') }

  // ------------------------------------------------------------------
  // Words

  lemma WordToken(s: string, p: nat, w: string)
    requires At(s, p, w) && PlainWord(w) && (p + |w| < |s| ==> Space(s[p + |w|]) || Symbol(s[p + |w|]))
    ensures Tok(s, p) == Token(Word, p, p + |w|, Skip(s, p + |w|))
  {
    forall i | p <= i < p + |w| ensures Plain(s[i]) {
      assert s[i] == w[i - p];
    }
    assert Plain(s[p]);
    var q := WordEnd(s, p);
    assert q == p + |w|;
  }

  lemma FirstOfWords(s: string, p: nat, ws: seq<string>)
    requires At(s, p, ShowWords(ws)) && ws != [] && PlainWords(ws)
    ensures p < |s| && Plain(s[p])
  {
    AtChar(s, p, ShowWords(ws));
    assert ShowWords(ws)[0] == ws[0][0];
  }

  /** No redirection begins here. */
  lemma NoRedirs(s: string, p: nat)
    requires p <= |s| && (p < |s| ==> !Space(s[p]) && s[p] != '<' && s[p] != '>')
    ensures Skip(s, p) == p && ParseRedirs(s, p) == Ok([], p)
  {
  }

  lemma NoArgs(s: string, p: nat, n: nat)
    requires Ends(s, p)
    ensures ParseArgs(s, p, n) == Ok(Args([], []), p) && ParseRedirs(s, p) == Ok([], p)
  {
    NoRedirs(s, p);
  }

  /** A word and what follows it. */
  lemma WordThenSpace(s: string, p: nat, w: string, tail: seq<string>)
    requires At(s, p, w + (" " + ShowWords(tail))) && PlainWord(w) && tail != [] && PlainWords(tail)
    ensures At(s, p, w) && p < |s| && Plain(s[p]) && At(s, p + |w| + 1, ShowWords(tail)) && p + |w| + 1 <= |s|
    ensures Tok(s, p) == Token(Word, p, p + |w|, p + |w| + 1) && ParseRedirs(s, p + |w| + 1) == Ok([], p + |w| + 1)
  {
    hide At, ShowWords, ParseRedirs, Tok;
    var e := p + |w|;
    AtBoth(s, p, w, " " + ShowWords(tail));
    AtBoth(s, e, " ", ShowWords(tail));
    AtChar(s, e, " ");
    AtChar(s, p, w);
    WordToken(s, p, w);
    FirstOfWords(s, e + 1, tail);
    NoRedirs(s, e + 1);
    assert Skip(s, e) == Skip(s, e + 1);
  }

  lemma LastWord(s: string, p: nat, w: string)
    requires At(s, p, w) && PlainWord(w) && Ends(s, p + |w|)
    ensures p < |s| && Plain(s[p]) && Tok(s, p) == Token(Word, p, p + |w|, p + |w|)
  {
    AtChar(s, p, w);
    WordToken(s, p, w);
    NoRedirs(s, p + |w|);
  }

  lemma {:induction false} WordsParse(s: string, p: nat, ws: seq<string>, n: nat)
    requires At(s, p, ShowWords(ws)) && PlainWords(ws) && n + |ws| < MAXARGS && Ends(s, p + |ShowWords(ws)|)
    ensures ParseArgs(s, p, n).Ok? && ParseArgs(s, p, n).pos == p + |ShowWords(ws)|
    ensures var a := ParseArgs(s, p, n).value; Texts(s, a.words) == ws && a.redirs == []
    decreases |ws|
  {
    hide ParseArgs, ParseRedirs, Tok, At, Ends;
    if ws == [] {
      NoArgs(s, p, n);
    } else {
      var w, tail := ws[0], ws[1..];
      if |ws| == 1 {
        LastWord(s, p, w);
        NoArgs(s, p + |w|, n + 1);
        WordStep(s, p, n, w, p + |w|);
      } else {
        WordThenSpace(s, p, w, tail);
        assert p + |ShowWords(ws)| == (p + |w| + 1) + |ShowWords(tail)|;
        WordsParse(s, p + |w| + 1, tail, n + 1);
        WordStep(s, p, n, w, p + |w| + 1);
      }
      assert ws == [w] + tail;
    }
  }

  /** One word, then the rest. */
  lemma WordStep(s: string, p: nat, n: nat, w: string, next: nat)
    requires At(s, p, w) && p < |s| && Plain(s[p]) && Tok(s, p) == Token(Word, p, p + |w|, next) && next <= |s|
    requires n + 1 < MAXARGS && ParseRedirs(s, next) == Ok([], next) && ParseArgs(s, next, n + 1).Ok?
    ensures ParseArgs(s, p, n).Ok? && ParseArgs(s, p, n).pos == ParseArgs(s, next, n + 1).pos
    ensures var a, b := ParseArgs(s, p, n).value, ParseArgs(s, next, n + 1).value;
            Texts(s, a.words) == [w] + Texts(s, b.words) && a.redirs == b.redirs
  {
    assert Skip(s, p) == p && !Stops(s, p);
    var b := ParseArgs(s, next, n + 1).value;
    var a := ParseArgs(s, p, n).value;
    assert a.words == [Span(p, p + |w|)] + b.words && a.redirs == [] + b.redirs;
    assert a.words[1..] == b.words && TextAt(s, a.words[0]) == w;
  }

  // ------------------------------------------------------------------
  // Groups

  lemma ShowsGroup(t: Tree)
    requires !t.TExec?
    ensures Show(t) != "" && Show(t)[0] == '('
  {
    var d := if t.TRedirect? || t.TBack? then t.tree else t.left;
    assert Group(d)[0] == '(';
  }

  /** What a printed command begins with. */
  lemma ShowStart(s: string, p: nat, t: Tree)
    requires At(s, p, Show(t)) && WellFormed(t) && Ends(s, p + |Show(t)|)
    ensures p < |s| ==> !Space(s[p]) && (s[p] == '(' || s[p] == ')' || Plain(s[p]))
    ensures !t.TExec? ==> p < |s| && s[p] == '('
  {
    match t {
      case TExec(ws) =>
        if ws != [] {
          FirstOfWords(s, p, ws);
        }
      case _ =>
        ShowsGroup(t);
        AtChar(s, p, Show(t));
    }
  }

  lemma SymbolToken(s: string, p: nat)
    requires p < |s| && Symbol(s[p]) && (s[p] != '>' || p + 1 == |s| || s[p + 1] != '>')
    ensures Tok(s, p) == Token(Sym(s[p]), p, p + 1, Skip(s, p + 1)) && Skip(s, p) == p
  {
  }

  /** The command printed at p is what the parser reads there. */
  ghost predicate Parses(s: string, p: nat, t: Tree) {
    && p <= |s|
    && var r := ParseLine(s, p); r.Ok? && r.pos == p + |Show(t)| && TreeOf(s, r.value) == t
  }

  /** Where the parts of a group are. */
  lemma {:induction false} GroupParts(s: string, p: nat, t: Tree)
    requires At(s, p, Group(t))
    ensures Next(s, p, '(') && At(s, p + 1, Show(t)) && Ends(s, p + 1 + |Show(t)|) && Next(s, p + 1 + |Show(t)|, ')')
    ensures p + |Group(t)| == p + 2 + |Show(t)| <= |s|
  {
    AtBoth(s, p, "(", Show(t) + ")");
    AtChar(s, p, "(");
    AtBoth(s, p + 1, Show(t), ")");
    AtChar(s, p + 1 + |Show(t)|, ")");
  }

  /** A group parses as the command inside, up to its redirections. */
  lemma GroupBlock(s: string, p: nat, t: Tree)
    requires At(s, p, Group(t)) && WellFormed(t) && Parses(s, p + 1, t)
    requires p + |Group(t)| < |s| ==> !Space(s[p + |Group(t)|])
    requires p + |Group(t)| <= |s| && ParseRedirs(s, p + |Group(t)|).Ok?
    ensures Next(s, p, '(')
    ensures ParseBlock(s, p) == Ok(Wrap(ParseLine(s, p + 1).value, ParseRedirs(s, p + |Group(t)|).value),
                                   ParseRedirs(s, p + |Group(t)|).pos)
  {
    hide ParseLine, ParseRedirs, At, Show;
    GroupParts(s, p, t);
    ShowStart(s, p + 1, t);
    SymbolToken(s, p);
    SymbolToken(s, p + 1 + |Show(t)|);
  }

  /** The same where no redirection follows. */
  lemma GroupExec(s: string, p: nat, t: Tree)
    requires At(s, p, Group(t)) && WellFormed(t) && Parses(s, p + 1, t)
    requires var e := p + |Group(t)|; e < |s| ==> !Space(s[e]) && s[e] != '<' && s[e] != '>'
    ensures ParseExec(s, p) == Ok(ParseLine(s, p + 1).value, p + |Group(t)|)
  {
    hide ParseLine, ParseRedirs, ParseBlock, At, Show, Group;
    GroupParts(s, p, t);
    NoRedirs(s, p + |Group(t)|);
    GroupBlock(s, p, t);
  }

  lemma GroupPipe(s: string, p: nat, t: Tree)
    requires At(s, p, Group(t)) && WellFormed(t) && Parses(s, p + 1, t)
    requires var e := p + |Group(t)|; e < |s| ==> !Space(s[e]) && s[e] != '<' && s[e] != '>' && s[e] != '|'
    ensures ParsePipe(s, p) == Ok(ParseLine(s, p + 1).value, p + |Group(t)|)
  {
    hide ParseLine, ParseExec, At, Show, Group;
    GroupParts(s, p, t);
    GroupExec(s, p, t);
  }

  // ------------------------------------------------------------------
  // Every kind of command

  /** A pipeline not followed by & or ; is a line. */
  lemma LineOfPipe(s: string, p: nat, c: Cmd, e: nat)
    requires p <= |s| && ParsePipe(s, p) == Ok(c, e) && Ends(s, e)
    ensures ParseLine(s, p) == Ok(c, e)
  {
    hide ParsePipe;
  }

  lemma ExecParses(s: string, p: nat, ws: seq<string>)
    requires At(s, p, ShowWords(ws)) && WellFormed(TExec(ws)) && Ends(s, p + |ShowWords(ws)|)
    ensures Parses(s, p, TExec(ws))
  {
    hide ParseLine, ParseArgs, ParseRedirs, ShowWords, Texts, At;
    assert p <= |s| by {
      InLine(s, p, ShowWords(ws));
    }
    ExecPipe(s, p, ws);
    LineOfPipe(s, p, Exec(ParseArgs(s, p, 0).value.words), p + |ShowWords(ws)|);
  }

  lemma InLine(s: string, p: nat, t: string)
    requires At(s, p, t)
    ensures p + |t| <= |s|
  {
  }

  lemma ExecPipe(s: string, p: nat, ws: seq<string>)
    requires At(s, p, ShowWords(ws)) && WellFormed(TExec(ws)) && Ends(s, p + |ShowWords(ws)|)
    ensures p <= |s| && ParseArgs(s, p, 0).Ok? && Texts(s, ParseArgs(s, p, 0).value.words) == ws
    ensures ParsePipe(s, p) == Ok(Exec(ParseArgs(s, p, 0).value.words), p + |ShowWords(ws)|)
  {
    hide ParseArgs, ParseRedirs, ShowWords, Texts;
    WordsParse(s, p, ws, 0);
    if ws != [] {
      FirstOfWords(s, p, ws);
    } else {
      assert ShowWords(ws) == "" by {
        ShowNothing();
      }
    }
    NoRedirs(s, p);
    var words := ParseArgs(s, p, 0).value.words;
    assert Wrap(Exec(words), [] + []) == Exec(words);
    NoRedirs(s, p + |ShowWords(ws)|);
  }

  lemma ShowNothing()
    ensures ShowWords([]) == ""
  {
  }

  /** One redirection at e, and nothing after it. */
  lemma RedirParses(s: string, e: nat, m: Mode, f: string)
    requires At(s, e, ShowMode(m) + f) && PlainWord(f) && Ends(s, e + |ShowMode(m)| + |f|)
    ensures e < |s| && (s[e] == '<' || s[e] == '>')
    ensures var q := e + |ShowMode(m)|; ParseRedirs(s, e) == Ok([Redir(m, Span(q, q + |f|))], q + |f|)
    ensures At(s, e + |ShowMode(m)|, f)
  {
    hide At, Tok, ShowMode, Skip, WordEnd;
    var q := e + |ShowMode(m)|;
    AtBoth(s, e, ShowMode(m), f);
    ModeStart(m);
    AtChar(s, e, ShowMode(m));
    AtChar(s, q, f);
    ModeToken(s, e, m);
    LastWord(s, q, f);
    NoRedirs(s, q + |f|);
    var r := Redir(m, Span(q, q + |f|));
    assert [r] + [] == [r];
  }

  lemma ModeStart(m: Mode)
    ensures ShowMode(m) != "" && (ShowMode(m)[0] == '<' || ShowMode(m)[0] == '>')
  {
  }

  lemma ModeToken(s: string, e: nat, m: Mode)
    requires At(s, e, ShowMode(m)) && e + |ShowMode(m)| < |s| && Plain(s[e + |ShowMode(m)|])
    ensures Tok(s, e).next == e + |ShowMode(m)| && ModeOf(Tok(s, e).kind) == m && Skip(s, e) == e
  {
    AtChar(s, e, ShowMode(m));
    if m == Add {
      assert s[e..e + 2][1] == '>';
    }
  }

  lemma {:induction false} RedirectParses(s: string, p: nat, d: Tree, m: Mode, f: string)
    requires At(s, p, Show(TRedirect(d, m, f))) && WellFormed(TRedirect(d, m, f)) && Parses(s, p + 1, d)
    requires Ends(s, p + |Show(TRedirect(d, m, f))|)
    ensures Parses(s, p, TRedirect(d, m, f))
  {
    hide ParseLine, ParseRedirs, ParseBlock, Group, At, PlainWord, ShowMode;
    var e := p + |Group(d)|;
    ShowRedirect(d, m, f);
    AtBoth(s, p, Group(d), ShowMode(m) + f);
    RedirParses(s, e, m, f);
    GroupParts(s, p, d);
    GroupBlock(s, p, d);
    var q := e + |ShowMode(m)|;
    var c := Redirect(ParseLine(s, p + 1).value, Redir(m, Span(q, q + |f|)));
    WrapOne(ParseLine(s, p + 1).value, Redir(m, Span(q, q + |f|)));
    assert ParseExec(s, p) == Ok(c, q + |f|);
    PipeOfExec(s, p, c, q + |f|);
    LineOfPipe(s, p, c, q + |f|);
    AtText(s, q, f);
  }

  lemma ShowRedirect(d: Tree, m: Mode, f: string)
    ensures Show(TRedirect(d, m, f)) == Group(d) + (ShowMode(m) + f)
  {
  }

  lemma WrapOne(c: Cmd, r: Redir)
    ensures Wrap(c, [r]) == Redirect(c, r)
  {
    assert [r][1..] == [];
  }

  lemma AtText(s: string, q: nat, f: string)
    requires At(s, q, f)
    ensures TextAt(s, Span(q, q + |f|)) == f
  {
  }

  /** A command not followed by | is a pipeline. */
  lemma PipeOfExec(s: string, p: nat, c: Cmd, e: nat)
    requires p <= |s| && ParseExec(s, p) == Ok(c, e) && Ends(s, e)
    ensures ParsePipe(s, p) == Ok(c, e)
  {
    hide ParseExec;
  }

  /** The two groups of a pipeline or a list, and the symbol between. */
  lemma {:induction false} TwoGroups(s: string, p: nat, l: Tree, sym: string, r: Tree)
    requires At(s, p, Group(l) + (sym + Group(r))) && |sym| == 1 && Symbol(sym[0]) && sym[0] != '>'
    ensures var e := p + |Group(l)|;
            && At(s, p, Group(l)) && e < |s| && s[e] == sym[0] && At(s, e + 1, Group(r))
            && Tok(s, e).next == e + 1 && Skip(s, e) == e
  {
    hide At, Group, Tok;
    var e := p + |Group(l)|;
    TwoParts(s, p, Group(l), sym, Group(r));
    GroupParts(s, e + 1, r);
    SymbolToken(s, e);
  }

  lemma {:induction false} TwoParts(s: string, p: nat, a: string, sym: string, b: string)
    requires At(s, p, a + (sym + b)) && |sym| == 1
    ensures At(s, p, a) && p + |a| < |s| && s[p + |a|] == sym[0] && At(s, p + |a| + 1, b)
  {
    hide At;
    AtBoth(s, p, a, sym + b);
    AtBoth(s, p + |a|, sym, b);
    AtChar(s, p + |a|, sym);
  }

  lemma {:induction false} PipeParses(s: string, p: nat, l: Tree, r: Tree)
    requires At(s, p, Group(l) + ("|" + Group(r))) && WellFormed(l) && WellFormed(r) && Parses(s, p + 1, l)
    requires Ends(s, p + |Group(l)| + 1 + |Group(r)|) && Parses(s, p + |Group(l)| + 2, r)
    ensures Parses(s, p, TPipe(l, r))
  {
    hide ParseLine, ParseExec, Group, At, Tok;
    var e := p + |Group(l)|;
    TwoGroups(s, p, l, "|", r);
    GroupExec(s, p, l);
    GroupPipe(s, e + 1, r);
    var c := Pipe(ParseLine(s, p + 1).value, ParseLine(s, e + 2).value);
    assert ParsePipe(s, p) == Ok(c, e + 1 + |Group(r)|);
    LineOfPipe(s, p, c, e + 1 + |Group(r)|);
  }

  lemma {:induction false} ListParses(s: string, p: nat, l: Tree, r: Tree)
    requires At(s, p, Group(l) + (";" + Group(r))) && WellFormed(l) && WellFormed(r) && Parses(s, p + 1, l)
    requires Ends(s, p + |Group(l)| + 1 + |Group(r)|) && Parses(s, p + |Group(l)| + 2, r)
    ensures Parses(s, p, TList(l, r))
  {
    hide ParsePipe, Group, At, Tok, ParseLine, Skip, WellFormed;
    var e := p + |Group(l)|;
    TwoGroups(s, p, l, ";", r);
    GroupPipe(s, p, l);
    GroupPipe(s, e + 1, r);
    var c := ParseLine(s, e + 2).value;
    LineOfPipe(s, e + 1, c, e + 1 + |Group(r)|);
    ListLine(s, p, ParseLine(s, p + 1).value, e, c, e + 1 + |Group(r)|);
  }

  lemma ListLine(s: string, p: nat, a: Cmd, e: nat, b: Cmd, end: nat)
    requires p <= |s| && ParsePipe(s, p) == Ok(a, e) && p <= e < |s| && s[e] == ';' && Tok(s, e).next == e + 1
    requires ParseLine(s, e + 1) == Ok(b, end)
    ensures ParseLine(s, p) == Ok(List(a, b), end)
  {
    hide ParsePipe, Tok;
  }

  lemma {:induction false} BackParses(s: string, p: nat, d: Tree)
    requires At(s, p, Group(d) + "&") && WellFormed(d) && Parses(s, p + 1, d) && Ends(s, p + |Group(d)| + 1)
    ensures Parses(s, p, TBack(d))
  {
    hide ParsePipe, Group, At, ParseLine;
    var e := p + |Group(d)|;
    AtBoth(s, p, Group(d), "&");
    AtChar(s, e, "&");
    GroupPipe(s, p, d);
    SymbolToken(s, e);
    BackLine(s, p, ParseLine(s, p + 1).value, e);
  }

  lemma BackLine(s: string, p: nat, c: Cmd, e: nat)
    requires p <= |s| && ParsePipe(s, p) == Ok(c, e) && p <= e < |s| && s[e] == '&' && Tok(s, e).next == e + 1
    requires Ends(s, e + 1)
    ensures ParseLine(s, p) == Ok(Back(c), e + 1)
  {
    hide ParsePipe, Tok;
    assert Backs(s, Back(c), e + 1) == Ok(Back(c), e + 1);
    assert Backs(s, c, e) == Backs(s, Back(c), e + 1);
  }

  /** Wherever a printed command stands, the parser reads that command. */
  lemma {:induction false} RoundTripAt(s: string, p: nat, t: Tree)
    requires At(s, p, Show(t)) && WellFormed(t) && Ends(s, p + |Show(t)|)
    ensures Parses(s, p, t)
    decreases t, 0
  {
    hide Parses, At, Ends, Group, ShowMode;
    match t {
      case TExec(ws) => ExecParses(s, p, ws);
      case TRedirect(d, m, f) =>
        AtBoth(s, p, Group(d), ShowMode(m) + f);
        InGroup(s, p, d);
        RedirectParses(s, p, d, m, f);
      case TPipe(l, r) =>
        TwoParts(s, p, Group(l), "|", Group(r));
        InGroup(s, p, l);
        InGroup(s, p + |Group(l)| + 1, r);
        PipeParses(s, p, l, r);
      case TList(l, r) =>
        TwoParts(s, p, Group(l), ";", Group(r));
        InGroup(s, p, l);
        InGroup(s, p + |Group(l)| + 1, r);
        ListParses(s, p, l, r);
      case TBack(d) =>
        AtBoth(s, p, Group(d), "&");
        InGroup(s, p, d);
        BackParses(s, p, d);
    }
  }

  lemma {:induction false} InGroup(s: string, p: nat, t: Tree)
    requires At(s, p, Group(t)) && WellFormed(t)
    ensures Parses(s, p + 1, t)
    decreases t, 1
  {
    GroupParts(s, p, t);
    RoundTripAt(s, p + 1, t);
  }

  /** Parsing inverts printing. */
  lemma RoundTrip(t: Tree)
    requires WellFormed(t)
    ensures ParseCmd(Show(t)).Ok? && TreeOf(Show(t), ParseCmd(Show(t)).value) == t
  {
    var s := Show(t);
    assert s[0..|s|] == s;
    RoundTripAt(s, 0, t);
  }
}
