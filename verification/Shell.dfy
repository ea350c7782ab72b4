/**
 user/sh.c: the tokenizer and the parser with their loops, and nulterminate,
 which cuts the line into C strings in place.
 */
module Shell {
  import opened ShellSpec
  import ShellGrammar
  import ShellRoundTrip

  // ------------------------------------------------------------------
  // The tokenizer

  method SkipSpace(s: string, p: nat) returns (q: nat)
    requires p <= |s|
    ensures q == Skip(s, p)
  {
    q := p;
    while q < |s| && Space(s[q])
      invariant p <= q <= |s| && Skip(s, q) == Skip(s, p)
    {
      q := q + 1;
    }
  }

  /** gettoken: the kind of the next token, its text, and the cursor behind it. */
  method GetToken(s: string, p: nat) returns (t: Token)
    requires p <= |s|
    ensures t == Tok(s, p)
  {
    var q := SkipSpace(s, p);
    var kind, e := End, q;
    if q < |s| {
      var c := s[q];
      if c == '|' || c == '(' || c == ')' || c == ';' || c == '&' || c == '<' {
        kind, e := Sym(c), q + 1;
      } else if c == '>' {
        kind, e := Sym(c), q + 1;
        if e < |s| && s[e] == '>' {
          kind, e := Append, q + 2;
        }
      } else {
        kind := Word;
        while e < |s| && !Space(s[e]) && !Symbol(s[e])
          invariant q <= e <= |s| && WordEnd(s, e) == WordEnd(s, q)
        {
          e := e + 1;
        }
      }
    }
    var next := SkipSpace(s, e);
    t := Token(kind, q, e, next);
  }

  /** peek: whether one of the characters comes next; the cursor moves up to it. */
  method Peek(s: string, p: nat, toks: string) returns (found: bool, q: nat)
    requires p <= |s|
    ensures q == Skip(s, p) && (found <==> q < |s| && s[q] in toks)
  {
    q := SkipSpace(s, p);
    found := q < |s| && s[q] in toks;
  }

  // ------------------------------------------------------------------
  // The parser

  /** A command with the redirections that follow it. */
  function Redirected(s: string, c: Cmd, p: nat): (r: Result<Cmd>)
    requires p <= |s|
  {
    var rs := ParseRedirs(s, p);
    if rs.Panic? then Panic else Ok(Wrap(c, rs.value), rs.pos)
  }

  method ParseRedirections(s: string, c: Cmd, p: nat) returns (r: Result<Cmd>)
    requires p <= |s|
    ensures r == Redirected(s, c, p)
  {
    var cmd, pos := c, p;
    while true
      invariant p <= pos <= |s| && Redirected(s, cmd, pos) == Redirected(s, c, p)
      decreases |s| - pos
    {
      var more, q := Peek(s, pos, "<>");
      if !more {
        return Ok(cmd, q);
      }
      var tok := GetToken(s, q);
      var file := GetToken(s, tok.next);
      RedirStep(s, cmd, pos);
      if !file.kind.Word? {
        return Panic;
      }
      cmd := Redirect(cmd, Redir(ModeOf(tok.kind), Span(file.q, file.eq)));
      pos := file.next;
    }
  }

  lemma RedirStep(s: string, c: Cmd, p: nat)
    requires p <= |s| && (Next(s, Skip(s, p), '<') || Next(s, Skip(s, p), '>'))
    ensures var t := Tok(s, Skip(s, p));
            var f := Tok(s, t.next);
            Redirected(s, c, p) ==
            if f.kind.Word? then Redirected(s, Redirect(c, Redir(ModeOf(t.kind), Span(f.q, f.eq))), f.next) else Panic
  {
    var t := Tok(s, Skip(s, p));
    var f := Tok(s, t.next);
    var rest := ParseRedirs(s, f.next);
    if f.kind.Word? && rest.Ok? {
      var x := Redir(ModeOf(t.kind), Span(f.q, f.eq));
      assert ([x] + rest.value)[1..] == rest.value;
    }
  }

  /** Arguments and redirections so far, then those that follow. */
  function Argued(s: string, words: seq<Span>, rs: seq<Redir>, p: nat): (r: Result<Cmd>)
    requires p <= |s|
  {
    var more := ParseArgs(s, p, |words|);
    if more.Panic? then Panic else Ok(Wrap(Exec(words + more.value.words), rs + more.value.redirs), more.pos)
  }

  /** The arguments stored through the pointer parseexec keeps to its execcmd, under the redirections around it. */
  function Fill(c: Cmd, words: seq<Span>): (r: Cmd) {
    match c
    case Exec(_) => Exec(words)
    case Redirect(inner, r) => Redirect(Fill(inner, words), r)
    case _ => c
  }

  lemma {:induction false} FillUnderWrap(c: Cmd, words: seq<Span>, rs: seq<Redir>)
    ensures Fill(Wrap(c, rs), words) == Wrap(Fill(c, words), rs)
    decreases |rs|
  {
    if rs != [] {
      FillUnderWrap(Redirect(c, rs[0]), words, rs[1..]);
    }
  }

  lemma {:induction false} WrapTwice(c: Cmd, rs: seq<Redir>, more: seq<Redir>)
    ensures Wrap(Wrap(c, rs), more) == Wrap(c, rs + more)
    decreases |rs|
  {
    if rs == [] {
      assert rs + more == more;
    } else {
      WrapTwice(Redirect(c, rs[0]), rs[1..], more);
      assert (rs + more)[1..] == rs[1..] + more;
    }
  }

  /** parseexec. */
  method ParseExecCmd(s: string, p: nat) returns (r: Result<Cmd>)
    requires p <= |s|
    ensures r == ParseExec(s, p)
    decreases |s| - p, 1
  {
    hide Skip, Tok, ParseRedirs, ParseArgs, Argued, ParseBlock;
    var block, q := Peek(s, p, "(");
    if block {
      r := ParseBlockCmd(s, q);
      return;
    }
    var base := Exec([]);
    var ret := ParseRedirections(s, base, q);
    if ret.Panic? {
      return Panic;
    }
    ghost var redirs := ParseRedirs(s, q).value;
    var words := [];
    ArguedNone(s, redirs, ret.pos);
    while true
      invariant ret.Ok? && q <= ret.pos <= |s| && ret.value == Wrap(base, redirs)
      invariant Argued(s, words, redirs, ret.pos) == ParseExec(s, p)
      decreases |s| - ret.pos
    {
      FillUnderWrap(base, words, redirs);
      ArgsEnd(s, words, redirs, ret.pos);
      var stop, at := Peek(s, ret.pos, "|)&;");
      if stop {
        return Ok(Fill(ret.value, words), at);
      }
      var t := GetToken(s, at);
      if t.kind.End? {
        return Ok(Fill(ret.value, words), t.next);
      }
      if !t.kind.Word? || |words| + 1 >= MAXARGS {
        return Panic;
      }
      var more := ParseRedirections(s, ret.value, t.next);
      if more.Panic? {
        return Panic;
      }
      ghost var rs := ParseRedirs(s, t.next).value;
      ArgStep(s, words, redirs, ret.pos);
      WrapTwice(base, redirs, rs);
      words, redirs, ret := words + [Span(t.q, t.eq)], redirs + rs, more;
    }
  }

  lemma ArgsEnd(s: string, words: seq<Span>, rs: seq<Redir>, p: nat)
    requires p <= |s|
    ensures var q := Skip(s, p);
            var t := Tok(s, q);
            if Stops(s, q) then Argued(s, words, rs, p) == Ok(Wrap(Exec(words), rs), q)
            else if t.kind.End? then Argued(s, words, rs, p) == Ok(Wrap(Exec(words), rs), t.next)
            else
              !t.kind.Word? || |words| + 1 >= MAXARGS || ParseRedirs(s, t.next).Panic? ==>
                Argued(s, words, rs, p).Panic?
  {
    assert words + [] == words && rs + [] == rs;
  }

  lemma ArguedNone(s: string, rs: seq<Redir>, p: nat)
    requires p <= |s|
    ensures var a := ParseArgs(s, p, 0);
            Argued(s, [], rs, p) ==
              if a.Panic? then Panic else Ok(Wrap(Exec(a.value.words), rs + a.value.redirs), a.pos)
  {
    var a := ParseArgs(s, p, 0);
    if a.Ok? {
      assert [] + a.value.words == a.value.words;
    }
  }

  lemma ArgsStep(s: string, p: nat, n: nat)
    requires p <= |s| && !Stops(s, Skip(s, p)) && Tok(s, Skip(s, p)).kind.Word? && n + 1 < MAXARGS
    requires ParseRedirs(s, Tok(s, Skip(s, p)).next).Ok?
    ensures var t := Tok(s, Skip(s, p));
            var rs := ParseRedirs(s, t.next);
            var more := ParseArgs(s, rs.pos, n + 1);
            ParseArgs(s, p, n) ==
            if more.Panic? then Panic
            else Ok(Args([Span(t.q, t.eq)] + more.value.words, rs.value + more.value.redirs), more.pos)
  {
    hide Skip, Tok, Stops, ParseRedirs;
  }

  lemma ArgStep(s: string, words: seq<Span>, rs: seq<Redir>, p: nat)
    requires p <= |s| && !Stops(s, Skip(s, p)) && Tok(s, Skip(s, p)).kind.Word? && |words| + 1 < MAXARGS
    requires ParseRedirs(s, Tok(s, Skip(s, p)).next).Ok?
    ensures var t := Tok(s, Skip(s, p));
            var more := ParseRedirs(s, t.next);
            Argued(s, words, rs, p) == Argued(s, words + [Span(t.q, t.eq)], rs + more.value, more.pos)
  {
    hide Skip, Tok, Stops, ParseRedirs, ParseArgs;
    ArgsStep(s, p, |words|);
    var t := Tok(s, Skip(s, p));
    var more := ParseRedirs(s, t.next);
    var a := ParseArgs(s, more.pos, |words| + 1);
    if a.Ok? {
      assert words + ([Span(t.q, t.eq)] + a.value.words) == (words + [Span(t.q, t.eq)]) + a.value.words;
      assert rs + (more.value + a.value.redirs) == (rs + more.value) + a.value.redirs;
    }
  }

  /** parseblock. */
  method ParseBlockCmd(s: string, p: nat) returns (r: Result<Cmd>)
    requires p <= |s| && Next(s, p, '(')
    ensures r == ParseBlock(s, p)
    decreases |s| - p, 0
  {
    var open := GetToken(s, p);
    var body := ParseLineCmd(s, open.next);
    if body.Panic? {
      return Panic;
    }
    var closed, q := Peek(s, body.pos, ")");
    if !closed {
      return Panic;
    }
    var close := GetToken(s, q);
    r := ParseRedirections(s, body.value, close.next);
  }

  /** parsepipe. */
  method ParsePipeCmd(s: string, p: nat) returns (r: Result<Cmd>)
    requires p <= |s|
    ensures r == ParsePipe(s, p)
    decreases |s| - p, 2
  {
    var left := ParseExecCmd(s, p);
    if left.Panic? {
      return Panic;
    }
    var bar, q := Peek(s, left.pos, "|");
    if !bar {
      return Ok(left.value, q);
    }
    var t := GetToken(s, q);
    var right := ParsePipeCmd(s, t.next);
    r := if right.Panic? then Panic else Ok(Pipe(left.value, right.value), right.pos);
  }

  /** parseline. */
  method ParseLineCmd(s: string, p: nat) returns (r: Result<Cmd>)
    requires p <= |s|
    ensures r == ParseLine(s, p)
    decreases |s| - p, 3
  {
    var first := ParsePipeCmd(s, p);
    if first.Panic? {
      return Panic;
    }
    var cmd, pos := first.value, first.pos;
    var amp, q := Peek(s, pos, "&");
    while amp
      invariant first.pos <= pos <= |s| && q == Skip(s, pos) && (amp <==> Next(s, q, '&'))
      invariant Backs(s, cmd, pos) == Backs(s, first.value, first.pos)
      decreases |s| - pos
    {
      var t := GetToken(s, q);
      cmd, pos := Back(cmd), t.next;
      amp, q := Peek(s, pos, "&");
    }
    var semi;
    semi, q := Peek(s, q, ";");
    if !semi {
      return Ok(cmd, q);
    }
    var t := GetToken(s, q);
    var rest := ParseLineCmd(s, t.next);
    r := if rest.Panic? then Panic else Ok(List(cmd, rest.value), rest.pos);
  }

  // ------------------------------------------------------------------
  // Where the words of a command lie

  predicate Text(c: char) { !Space(c) && !Symbol(c) }

  /** A whole word of the line: not empty, all text, and bounded on both sides. */
  ghost predicate WordAt(s: string, w: Span) {
    && w.q < w.eq <= |s| && StartsAt(s, w.q)
    && (forall i :: w.q <= i < w.eq ==> Text(s[i]))
    && (w.eq < |s| ==> !Text(s[w.eq]))
  }

  /** No word goes on across this place. */
  ghost predicate StartsAt(s: string, p: nat) {
    p <= |s| && (0 < p < |s| && Text(s[p]) ==> !Text(s[p - 1]))
  }

  predicate In(i: int, w: Span) { w.q <= i < w.eq }

  /** The arguments and file names of a command. */
  ghost predicate Mentions(c: Cmd, w: Span) {
    match c
    case Exec(args) => w in args
    case Redirect(inner, r) => w == r.file || Mentions(inner, w)
    case Pipe(l, r) => Mentions(l, w) || Mentions(r, w)
    case List(l, r) => Mentions(l, w) || Mentions(r, w)
    case Back(inner) => Mentions(inner, w)
  }

  /** The text at i, if it is between p and e, is in some word of the list, of the redirections or of the command. */
  ghost predicate WordsCover(s: string, ws: seq<Span>, rs: seq<Redir>, p: nat, e: nat, i: nat) {
    p <= i < e <= |s| && Text(s[i]) ==>
      (exists j :: 0 <= j < |ws| && In(i, ws[j])) || exists j :: 0 <= j < |rs| && In(i, rs[j].file)
  }

  ghost predicate Covers(s: string, c: Cmd, p: nat, e: nat, i: nat) {
    p <= i < e <= |s| && Text(s[i]) ==> exists w :: Mentions(c, w) && In(i, w)
  }

  /** Between p and e, the words of the line are the words of the command, and no word goes on across e. */
  ghost predicate Reads(s: string, c: Cmd, p: nat, e: nat) {
    StartsAt(s, e) && (forall w :: Mentions(c, w) ==> WordAt(s, w)) && forall i :: Covers(s, c, p, e, i)
  }

  ghost predicate ReadsArgs(s: string, ws: seq<Span>, rs: seq<Redir>, p: nat, e: nat) {
    && StartsAt(s, e)
    && (forall i :: 0 <= i < |ws| ==> WordAt(s, ws[i])) && (forall i :: 0 <= i < |rs| ==> WordAt(s, rs[i].file))
    && forall i :: WordsCover(s, ws, rs, p, e, i)
  }

  // ------------------------------------------------------------------
  // Tokens

  lemma {:induction false} SkipGap(s: string, p: nat)
    requires p <= |s|
    ensures forall i :: p <= i < Skip(s, p) ==> Space(s[i])
    decreases |s| - p
  {
    if p < |s| && Space(s[p]) {
      SkipGap(s, p + 1);
    }
  }

  /** Nothing but space is passed over. */
  lemma SkipReads(s: string, p: nat)
    requires StartsAt(s, p)
    ensures StartsAt(s, Skip(s, p)) && forall i :: p <= i < Skip(s, p) ==> !Text(s[i])
  {
    SkipGap(s, p);
  }

  /** A token is passed over together with the space around it; its text is a whole word, if it is a word. */
  lemma TokenReads(s: string, p: nat)
    requires StartsAt(s, p)
    ensures var t := Tok(s, p);
            && StartsAt(s, t.next) && (t.kind.Word? ==> WordAt(s, Span(t.q, t.eq)))
            && forall i :: p <= i < t.next && Text(s[i]) ==> t.kind.Word? && t.q <= i < t.eq
  {
    hide WordEnd, Skip;
    var t, q := Tok(s, p), Skip(s, p);
    SkipReads(s, p);
    SkipGap(s, t.eq);
  }

  // ------------------------------------------------------------------
  // The parser

  lemma ReadsNone(s: string, p: nat, q: nat)
    requires StartsAt(s, q) && forall i :: p <= i < q ==> !Text(s[i])
    ensures ReadsArgs(s, [], [], p, q)
  {
  }

  /** Two stretches of arguments, one after the other. */
  lemma ReadsThen(s: string, ws: seq<Span>, rs: seq<Redir>, p: nat, m: nat, ws': seq<Span>, rs': seq<Redir>, e: nat)
    requires ReadsArgs(s, ws, rs, p, m) && ReadsArgs(s, ws', rs', m, e) && m <= e
    ensures ReadsArgs(s, ws + ws', rs + rs', p, e)
  {
    hide WordAt, StartsAt, In;
    var a, b := ws + ws', rs + rs';
    forall i: nat ensures WordsCover(s, a, b, p, e, i) {
      assert WordsCover(s, ws, rs, p, m, i) && WordsCover(s, ws', rs', m, e, i);
      if j :| 0 <= j < |ws| && In(i, ws[j]) {
        assert In(i, a[j]);
      } else if j :| 0 <= j < |rs| && In(i, rs[j].file) {
        assert In(i, b[j].file);
      } else if j :| 0 <= j < |ws'| && In(i, ws'[j]) {
        assert In(i, a[|ws| + j]);
      } else if j :| 0 <= j < |rs'| && In(i, rs'[j].file) {
        assert In(i, b[|rs| + j].file);
      }
    }
  }

  lemma TokenArg(s: string, p: nat)
    requires StartsAt(s, p) && Tok(s, p).kind.Word?
    ensures var t := Tok(s, p); ReadsArgs(s, [Span(t.q, t.eq)], [], p, t.next)
  {
    hide Tok;
    TokenReads(s, p);
    var t := Tok(s, p);
    forall i: nat ensures WordsCover(s, [Span(t.q, t.eq)], [], p, t.next, i) {
      assert t.q <= i < t.eq ==> In(i, [Span(t.q, t.eq)][0]);
    }
  }

  /** A redirection symbol and its file. */
  lemma TokenRedir(s: string, p: nat)
    requires StartsAt(s, p) && !Tok(s, p).kind.Word? && Tok(s, Tok(s, p).next).kind.Word?
    ensures var t := Tok(s, p);
            var f := Tok(s, t.next);
            ReadsArgs(s, [], [Redir(ModeOf(t.kind), Span(f.q, f.eq))], p, f.next)
  {
    hide Tok, ModeOf;
    var t := Tok(s, p);
    var f := Tok(s, t.next);
    var rs := [Redir(ModeOf(t.kind), Span(f.q, f.eq))];
    TokenReads(s, p);
    TokenReads(s, t.next);
    forall i: nat ensures WordsCover(s, [], rs, p, f.next, i) {
      assert f.q <= i < f.eq ==> In(i, rs[0].file);
    }
  }

  lemma {:induction false} RedirWords(s: string, p: nat)
    requires StartsAt(s, p) && ParseRedirs(s, p).Ok?
    ensures ReadsArgs(s, [], ParseRedirs(s, p).value, p, ParseRedirs(s, p).pos)
    decreases |s| - p
  {
    hide ReadsArgs, Tok, Skip, StartsAt;
    var q := Skip(s, p);
    SkipReads(s, p);
    ReadsNone(s, p, q);
    if Next(s, q, '<') || Next(s, q, '>') {
      var none: seq<Span>, r := [], ParseRedirs(s, p);
      var t := Tok(s, q);
      var f := Tok(s, t.next);
      var one, rest := [Redir(ModeOf(t.kind), Span(f.q, f.eq))], ParseRedirs(s, f.next).value;
      SymbolNext(s, q);
      TokenRedir(s, q);
      ReadsEnd(s, none, one, q, f.next);
      RedirWords(s, f.next);
      ReadsThen(s, none, one, q, f.next, none, rest, r.pos);
      ReadsThen(s, none, [], p, q, none + none, one + rest, r.pos);
      assert none + (none + none) == none && [] + (one + rest) == r.value;
    }
  }

  lemma ReadsEnd(s: string, ws: seq<Span>, rs: seq<Redir>, p: nat, e: nat)
    requires ReadsArgs(s, ws, rs, p, e)
    ensures StartsAt(s, e)
  {
  }

  lemma {:induction false} ArgWords(s: string, p: nat, n: nat)
    requires StartsAt(s, p) && ParseArgs(s, p, n).Ok?
    ensures var a := ParseArgs(s, p, n); ReadsArgs(s, a.value.words, a.value.redirs, p, a.pos)
    decreases |s| - p
  {
    hide ReadsArgs, Tok, Skip, StartsAt, ParseRedirs, Stops;
    var q := Skip(s, p);
    SkipReads(s, p);
    ReadsNone(s, p, q);
    var t := Tok(s, q);
    if !Stops(s, q) {
      TokenReads(s, q);
      if t.kind.End? {
        ReadsNone(s, p, t.next);
      } else {
        var rs := ParseRedirs(s, t.next);
        var more := ParseArgs(s, rs.pos, n + 1);
        var w := [Span(t.q, t.eq)];
        TokenArg(s, q);
        RedirWords(s, t.next);
        ReadsEnd(s, [], rs.value, t.next, rs.pos);
        ArgWords(s, rs.pos, n + 1);
        ReadsThen(s, [], rs.value, t.next, rs.pos, more.value.words, more.value.redirs, more.pos);
        ReadsThen(s, w, [], q, t.next, [] + more.value.words, rs.value + more.value.redirs, more.pos);
        ReadsThen(s, [], [], p, q, w + ([] + more.value.words), [] + (rs.value + more.value.redirs), more.pos);
        assert [] + (w + ([] + more.value.words)) == w + more.value.words;
        assert [] + ([] + (rs.value + more.value.redirs)) == rs.value + more.value.redirs;
      }
    }
  }

  lemma {:induction false} WrapMentions(c: Cmd, rs: seq<Redir>, w: Span)
    ensures Mentions(Wrap(c, rs), w) <==> Mentions(c, w) || exists j :: 0 <= j < |rs| && rs[j].file == w
    decreases |rs|
  {
    if rs != [] {
      WrapMentions(Redirect(c, rs[0]), rs[1..], w);
      assert forall j :: 0 <= j < |rs[1..]| ==> rs[1..][j] == rs[j + 1];
      if j :| 0 <= j < |rs| && rs[j].file == w && j > 0 {
        assert rs[1..][j - 1].file == w;
      }
    }
  }

  /** Redirections read behind a command belong to it. */
  lemma WrapReads(s: string, c: Cmd, p: nat, m: nat, rs: seq<Redir>, e: nat)
    requires Reads(s, c, p, m) && ReadsArgs(s, [], rs, m, e) && m <= e
    ensures Reads(s, Wrap(c, rs), p, e)
  {
    hide WordAt, StartsAt, In, Wrap, Mentions;
    forall w | Mentions(Wrap(c, rs), w) ensures WordAt(s, w) {
      WrapMentions(c, rs, w);
    }
    forall i: nat ensures Covers(s, Wrap(c, rs), p, e, i) {
      assert Covers(s, c, p, m, i) && WordsCover(s, [], rs, m, e, i);
      if w :| Mentions(c, w) && In(i, w) {
        WrapMentions(c, rs, w);
      } else if j :| 0 <= j < |rs| && In(i, rs[j].file) {
        WrapMentions(c, rs, rs[j].file);
      }
    }
  }

  /** A command of arguments and redirections. */
  lemma ExecReads(s: string, ws: seq<Span>, rs: seq<Redir>, p: nat, e: nat)
    requires ReadsArgs(s, ws, rs, p, e)
    ensures Reads(s, Wrap(Exec(ws), rs), p, e)
  {
    hide WordAt, StartsAt, In, Wrap;
    forall w | Mentions(Wrap(Exec(ws), rs), w) ensures WordAt(s, w) {
      WrapMentions(Exec(ws), rs, w);
    }
    forall i: nat ensures Covers(s, Wrap(Exec(ws), rs), p, e, i) {
      assert WordsCover(s, ws, rs, p, e, i);
      if j :| 0 <= j < |ws| && In(i, ws[j]) {
        WrapMentions(Exec(ws), rs, ws[j]);
      } else if j :| 0 <= j < |rs| && In(i, rs[j].file) {
        WrapMentions(Exec(ws), rs, rs[j].file);
      }
    }
  }

  /** More or less space and symbols around a command make no difference. */
  lemma ReadsAround(s: string, c: Cmd, p: nat, m: nat, m': nat, e: nat)
    requires Reads(s, c, m, m') && p <= m && m' <= e && StartsAt(s, e)
    requires forall i :: p <= i < m || m' <= i < e ==> i >= |s| || !Text(s[i])
    ensures Reads(s, c, p, e)
  {
    hide WordAt, In;
    forall i: nat ensures Covers(s, c, p, e, i) {
      assert Covers(s, c, m, m', i);
    }
  }

  /** Two commands, one after the other, under a constructor that mentions what both mention. */
  lemma ReadsBoth(s: string, a: Cmd, b: Cmd, c: Cmd, p: nat, m: nat, e: nat)
    requires Reads(s, a, p, m) && Reads(s, b, m, e) && m <= e && (c == Pipe(a, b) || c == List(a, b))
    ensures Reads(s, c, p, e)
  {
    hide WordAt, In, StartsAt;
    forall i: nat ensures Covers(s, c, p, e, i) {
      assert Covers(s, a, p, m, i) && Covers(s, b, m, e, i);
    }
  }

  lemma {:induction false} BackWords(s: string, c: Cmd, p: nat, m: nat)
    requires m <= |s| && Reads(s, c, p, m) && p <= m
    ensures var b := Backs(s, c, m); Reads(s, b.value, p, b.pos)
    decreases |s| - m
  {
    hide Reads, Tok, Skip, WordAt;
    var q := Skip(s, m);
    ReadsEnds(s, c, p, m);
    SkipReads(s, m);
    ReadsAround(s, c, p, p, m, q);
    if Next(s, q, '&') {
      var e := Tok(s, q).next;
      TokenReads(s, q);
      SymbolNext(s, q);
      ReadsAround(s, c, p, p, q, e);
      BackReads(s, c, p, e);
      BackWords(s, Back(c), p, e);
    }
  }

  lemma BackReads(s: string, c: Cmd, p: nat, e: nat)
    requires Reads(s, c, p, e)
    ensures Reads(s, Back(c), p, e)
  {
    forall i: nat ensures Covers(s, Back(c), p, e, i) {
      assert Covers(s, c, p, e, i);
    }
  }

  lemma ReadsEnds(s: string, c: Cmd, p: nat, e: nat)
    requires Reads(s, c, p, e)
    ensures StartsAt(s, e)
  {
  }

  /** At a symbol the next token is no word. */
  lemma SymbolNext(s: string, q: nat)
    requires q < |s| && Symbol(s[q])
    ensures !Tok(s, q).kind.Word? && q < Tok(s, q).next
  {
  }

  lemma {:induction false} ExecWords(s: string, p: nat)
    requires StartsAt(s, p) && ParseExec(s, p).Ok?
    ensures Reads(s, ParseExec(s, p).value, p, ParseExec(s, p).pos)
    decreases |s| - p, 1
  {
    hide Reads, ReadsArgs, Tok, Skip, ParseRedirs, ParseArgs, ParseBlock, Wrap, StartsAt;
    var q := Skip(s, p);
    SkipReads(s, p);
    var r := ParseExec(s, p);
    if Next(s, q, '(') {
      BlockWords(s, q);
    } else {
      var rs := ParseRedirs(s, q);
      var args := ParseArgs(s, rs.pos, 0);
      RedirWords(s, q);
      ReadsEnd(s, [], rs.value, q, rs.pos);
      ArgWords(s, rs.pos, 0);
      ReadsThen(s, [], rs.value, q, rs.pos, args.value.words, args.value.redirs, args.pos);
      assert [] + args.value.words == args.value.words;
      ExecReads(s, args.value.words, rs.value + args.value.redirs, q, args.pos);
    }
    ReadsEnds(s, r.value, q, r.pos);
    ReadsAround(s, r.value, p, q, r.pos, r.pos);
  }

  lemma {:induction false} BlockWords(s: string, p: nat)
    requires StartsAt(s, p) && Next(s, p, '(') && ParseBlock(s, p).Ok?
    ensures Reads(s, ParseBlock(s, p).value, p, ParseBlock(s, p).pos)
    decreases |s| - p, 0
  {
    hide Reads, ReadsArgs, Tok, Skip, ParseRedirs, ParseLine, Wrap, StartsAt;
    var m := Tok(s, p).next;
    TokenReads(s, p);
    SymbolNext(s, p);
    var body := ParseLine(s, m);
    var q := Skip(s, body.pos);
    var e := Tok(s, q).next;
    var rs := ParseRedirs(s, e);
    LineWords(s, m);
    ReadsEnds(s, body.value, m, body.pos);
    SkipReads(s, body.pos);
    TokenReads(s, q);
    SymbolNext(s, q);
    ReadsAround(s, body.value, p, m, body.pos, e);
    RedirWords(s, e);
    WrapReads(s, body.value, p, e, rs.value, rs.pos);
  }

  lemma {:induction false} PipeWords(s: string, p: nat)
    requires StartsAt(s, p) && ParsePipe(s, p).Ok?
    ensures Reads(s, ParsePipe(s, p).value, p, ParsePipe(s, p).pos)
    decreases |s| - p, 2
  {
    hide Reads, Tok, Skip, ParseExec, StartsAt;
    var left := ParseExec(s, p);
    var q := Skip(s, left.pos);
    ExecWords(s, p);
    ReadsEnds(s, left.value, p, left.pos);
    SkipReads(s, left.pos);
    ReadsAround(s, left.value, p, p, left.pos, q);
    if Next(s, q, '|') {
      var e := Tok(s, q).next;
      TokenReads(s, q);
      SymbolNext(s, q);
      ReadsAround(s, left.value, p, p, q, e);
      PipeWords(s, e);
      ReadsBoth(s, left.value, ParsePipe(s, e).value, ParsePipe(s, p).value, p, e, ParsePipe(s, p).pos);
    }
  }

  /** The command of a line mentions whole words of it, and all the words it has read. */
  lemma {:induction false} LineWords(s: string, p: nat)
    requires StartsAt(s, p) && ParseLine(s, p).Ok?
    ensures Reads(s, ParseLine(s, p).value, p, ParseLine(s, p).pos)
    decreases |s| - p, 3
  {
    hide Reads, Tok, Skip, ParsePipe, Backs, StartsAt;
    var first := ParsePipe(s, p);
    var b := Backs(s, first.value, first.pos);
    PipeWords(s, p);
    BackWords(s, first.value, p, first.pos);
    if Next(s, b.pos, ';') {
      var e := Tok(s, b.pos).next;
      ReadsEnds(s, b.value, p, b.pos);
      TokenReads(s, b.pos);
      SymbolNext(s, b.pos);
      ReadsAround(s, b.value, p, p, b.pos, e);
      LineWords(s, e);
      ReadsBoth(s, b.value, ParseLine(s, e).value, ParseLine(s, p).value, p, e, ParseLine(s, p).pos);
    }
  }

  /** Two words that share a place are the same word. */
  lemma SameWord(s: string, v: Span, w: Span, i: nat)
    requires WordAt(s, v) && WordAt(s, w) && In(i, v) && In(i, w)
    ensures v == w
  {
    assert v.q < w.q ==> In(w.q - 1, v);
    assert w.q < v.q ==> In(v.q - 1, w);
    assert v.eq < w.eq ==> In(v.eq, w);
    assert w.eq < v.eq ==> In(w.eq, v);
  }

  /** The arguments and file names of an accepted line are exactly its words: none is lost, none made up. */
  lemma WordsAreUsed(s: string, w: Span)
    requires ParseCmd(s).Ok?
    ensures Mentions(ParseCmd(s).value, w) <==> WordAt(s, w)
  {
    hide ParseLine, Skip, Mentions;
    var c := ParseLine(s, 0);
    LineWords(s, 0);
    if WordAt(s, w) {
      SkipReads(s, c.pos);
      assert Covers(s, c.value, 0, c.pos, w.q) && Text(s[w.q]);
      var v :| Mentions(c.value, v) && In(w.q, v);
      SameWord(s, v, w, w.q);
    }
  }

  // ------------------------------------------------------------------
  // nulterminate

  /** The positions nulterminate writes a NUL to. */
  ghost predicate Cut(c: Cmd, i: nat) { exists w :: Mentions(c, w) && w.eq == i }

  /** The buffer after nulterminate: NUL at the cuts, nothing else changed. */
  ghost predicate Terminated(c: Cmd, before: seq<char>, after: seq<char>) {
    && |after| == |before|
    && forall i :: 0 <= i < |before| ==> after[i] == if Cut(c, i) then '\0' else before[i]
  }

  method NulTerminate(c: Cmd, buf: array<char>)
    requires forall w :: Mentions(c, w) ==> w.eq < buf.Length
    modifies buf
    ensures Terminated(c, old(buf[..]), buf[..])
    decreases c
  {
    match c
    case Exec(args) =>
      for i := 0 to |args|
        invariant forall k :: 0 <= k < buf.Length ==>
          buf[k] == if exists j :: 0 <= j < i && args[j].eq == k then '\0' else old(buf[k])
      {
        assert Mentions(c, args[i]);
        buf[args[i].eq] := '\0';
      }
    case Redirect(inner, r) =>
      NulTerminate(inner, buf);
      assert Mentions(c, r.file);
      buf[r.file.eq] := '\0';
    case Pipe(l, r) =>
      NulTerminate(l, buf);
      NulTerminate(r, buf);
    case List(l, r) =>
      NulTerminate(l, buf);
      NulTerminate(r, buf);
    case Back(inner) =>
      NulTerminate(inner, buf);
  }

  /** The C string at q is w. */
  ghost predicate ReadsAs(buf: seq<char>, q: nat, w: string) {
    q + |w| < |buf| && buf[q..q + |w|] == w && buf[q + |w|] == '\0' && '\0' !in w
  }

  /** No NUL falls inside another word, so every argument and file name reads as it was typed. */
  lemma WordsSurvive(s: string, c: Cmd, after: seq<char>, w: Span)
    requires Line(s) && (forall w :: Mentions(c, w) ==> WordAt(s, w)) && Terminated(c, s + ['\0'], after)
    requires Mentions(c, w)
    ensures w.eq <= |s| && w.q <= w.eq && ReadsAs(after, w.q, s[w.q..w.eq])
  {
    var before := s + ['\0'];
    assert WordAt(s, w) && Cut(c, w.eq);
    forall i: nat | w.q <= i < w.eq
      ensures after[i] == s[i]
    {
      assert before[i] == s[i];
    }
    assert after[w.q..w.eq] == s[w.q..w.eq];
  }

  /**
   parsecmd: what the line means, if it is a sentence of the grammar, and its
   panic if not; and the line cut so that its words read as typed.
   */
  method ParseCommand(s: string, buf: array<char>) returns (r: Result<Cmd>)
    requires Line(s) && buf[..] == s + ['\0']
    modifies buf
    ensures var tokens := ShellGrammar.Tokens(s, 0);
            if r.Ok? then ShellGrammar.IsMeaning(tokens, ShellRoundTrip.TreeOf(s, r.value))
            else forall t :: !ShellGrammar.IsMeaning(tokens, t)
    ensures r == ParseCmd(s) && (r.Ok? ==> forall w :: Mentions(r.value, w) <==> WordAt(s, w))
    ensures r.Ok? ==> forall w :: Mentions(r.value, w) ==>
      w.q <= w.eq <= |s| && ReadsAs(buf[..], w.q, s[w.q..w.eq])
  {
    hide ShellGrammar.IsMeaning, ShellGrammar.Tokens, ShellRoundTrip.TreeOf, ParseLine;
    forall t ensures ParseCmd(s).Ok? && ShellRoundTrip.TreeOf(s, ParseCmd(s).value) == t <==>
                       ShellGrammar.IsMeaning(ShellGrammar.Tokens(s, 0), t)
    {
      ShellGrammar.ParsesLanguage(s, t);
    }
    var cmd := ParseLineCmd(s, 0);
    if cmd.Panic? {
      return Panic;
    }
    var _, q := Peek(s, cmd.pos, "");
    if q != |s| {
      return Panic;
    }
    forall w ensures Mentions(cmd.value, w) <==> WordAt(s, w) {
      WordsAreUsed(s, w);
    }
    NulTerminate(cmd.value, buf);
    forall w | Mentions(cmd.value, w)
      ensures w.q <= w.eq <= |s| && ReadsAs(buf[..], w.q, s[w.q..w.eq])
    {
      WordsSurvive(s, cmd.value, buf[..], w);
    }
    return cmd;
  }
}
