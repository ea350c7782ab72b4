/**
 The grammar of user/sh.c as functions: tokens, the recursive-descent parser
 over positions in the line.
 */
module ShellSpec {

  const MAXARGS: nat := 10

  predicate Space(c: char) { c == ' ' || c == '\t' || c == '\r' || c == '\n' || c == '\U{0B}' }

  predicate Symbol(c: char) { c == '<' || c == '|' || c == '>' || c == '&' || c == ';' || c == '(' || c == ')' }

  predicate Plain(c: char) { !Space(c) && !Symbol(c) && c != '\0' }

  /** A line of text: no NUL before its end. */
  ghost predicate Line(s: string) { forall i :: 0 <= i < |s| ==> s[i] != '\0' }

  // ------------------------------------------------------------------
  // Tokens

  function Skip(s: string, p: nat): (q: nat)
    requires p <= |s|
    ensures p <= q <= |s| && (q < |s| ==> !Space(s[q])) && (p < |s| && !Space(s[p]) ==> q == p)
    decreases |s| - p
  {
    if p < |s| && Space(s[p]) then Skip(s, p + 1) else p
  }

  function WordEnd(s: string, p: nat): (q: nat)
    requires p <= |s|
    ensures p <= q <= |s| && (p < |s| && !Space(s[p]) && !Symbol(s[p]) ==> p < q)
    ensures q < |s| ==> Space(s[q]) || Symbol(s[q])
    ensures forall i :: p <= i < q ==> !Space(s[i]) && !Symbol(s[i])
    decreases |s| - p
  {
    if p < |s| && !Space(s[p]) && !Symbol(s[p]) then WordEnd(s, p + 1) else p
  }

  datatype Kind = End | Sym(c: char) | Append | Word

  /** A token, where its text lies, and where the next one begins. */
  datatype Token = Token(kind: Kind, q: nat, eq: nat, next: nat)

  function Tok(s: string, p: nat): (t: Token)
    requires p <= |s|
    ensures p <= t.q <= t.eq <= t.next <= |s| && (t.kind.End? <==> t.q == |s|) && (t.q < |s| ==> t.q < t.eq)
    ensures t.q < |s| ==> !Space(s[t.q]) && (t.kind.Word? <==> !Symbol(s[t.q]))
    ensures t.kind.Word? ==> t.eq == WordEnd(s, t.q)
  {
    var q := Skip(s, p);
    if q == |s| then Token(End, q, q, q)
    else
      var c := s[q];
      if c == '>' && q + 1 < |s| && s[q + 1] == '>' then Token(Append, q, q + 2, Skip(s, q + 2))
      else if Symbol(c) then Token(Sym(c), q, q + 1, Skip(s, q + 1))
      else var e := WordEnd(s, q); Token(Word, q, e, Skip(s, e))
  }

  /** peek: the next character that is not space is c. */
  predicate Next(s: string, q: nat, c: char) { q < |s| && s[q] == c }

  // ------------------------------------------------------------------
  // Commands

  /** The text of an argument or a file name, by position. */
  datatype Span = Span(q: nat, eq: nat)
  datatype Mode = Read | Trunc | Add
  datatype Redir = Redir(mode: Mode, file: Span)

  datatype Cmd =
    | Exec(args: seq<Span>)
    | Redirect(cmd: Cmd, redir: Redir)
    | Pipe(left: Cmd, right: Cmd)
    | List(left: Cmd, right: Cmd)
    | Back(cmd: Cmd)

  /** What a parse function gives: a value and the cursor, or the parser's panic. */
  datatype Result<T> = Ok(value: T, pos: nat) | Panic

  function ModeOf(k: Kind): (m: Mode) {
    if k == Append then Add else if k == Sym('>') then Trunc else Read
  }

  function ParseRedirs(s: string, p: nat): (r: Result<seq<Redir>>)
    requires p <= |s|
    ensures r.Ok? ==> p <= r.pos <= |s| && (r.pos < |s| ==> !Space(s[r.pos]) && s[r.pos] != '<' && s[r.pos] != '>')
    decreases |s| - p
  {
    var q := Skip(s, p);
    if !Next(s, q, '<') && !Next(s, q, '>') then Ok([], q)
    else
      var t := Tok(s, q);
      var f := Tok(s, t.next);
      if !f.kind.Word? then Panic
      else
        var rest := ParseRedirs(s, f.next);
        if rest.Panic? then Panic else Ok([Redir(ModeOf(t.kind), Span(f.q, f.eq))] + rest.value, rest.pos)
  }

  datatype Args = Args(words: seq<Span>, redirs: seq<Redir>)

  predicate Stops(s: string, q: nat) { Next(s, q, '|') || Next(s, q, ')') || Next(s, q, '&') || Next(s, q, ';') }

  /** The loop of parseexec, with n arguments so far. */
  function ParseArgs(s: string, p: nat, n: nat): (r: Result<Args>)
    requires p <= |s|
    ensures r.Ok? ==> p <= r.pos <= |s|
    decreases |s| - p
  {
    var q := Skip(s, p);
    if Stops(s, q) then Ok(Args([], []), q)
    else
      var t := Tok(s, q);
      if t.kind.End? then Ok(Args([], []), t.next)
      else if !t.kind.Word? || n + 1 >= MAXARGS then Panic
      else
        var rs := ParseRedirs(s, t.next);
        if rs.Panic? then Panic
        else
          var more := ParseArgs(s, rs.pos, n + 1);
          if more.Panic? then Panic
          else Ok(Args([Span(t.q, t.eq)] + more.value.words, rs.value + more.value.redirs), more.pos)
  }

  /** Redirections wrap a command from the inside out. */
  function Wrap(c: Cmd, rs: seq<Redir>): (r: Cmd)
    decreases |rs|
  {
    if rs == [] then c else Wrap(Redirect(c, rs[0]), rs[1..])
  }

  function ParseExec(s: string, p: nat): (r: Result<Cmd>)
    requires p <= |s|
    ensures r.Ok? ==> p <= r.pos <= |s|
    decreases |s| - p, 1
  {
    var q := Skip(s, p);
    if Next(s, q, '(') then ParseBlock(s, q)
    else
      var rs := ParseRedirs(s, q);
      if rs.Panic? then Panic
      else
        var args := ParseArgs(s, rs.pos, 0);
        if args.Panic? then Panic else Ok(Wrap(Exec(args.value.words), rs.value + args.value.redirs), args.pos)
  }

  function ParseBlock(s: string, p: nat): (r: Result<Cmd>)
    requires p <= |s| && Next(s, p, '(')
    ensures r.Ok? ==> p < r.pos <= |s|
    decreases |s| - p, 0
  {
    var body := ParseLine(s, Tok(s, p).next);
    if body.Panic? then Panic
    else
      var q := Skip(s, body.pos);
      if !Next(s, q, ')') then Panic
      else
        var rs := ParseRedirs(s, Tok(s, q).next);
        if rs.Panic? then Panic else Ok(Wrap(body.value, rs.value), rs.pos)
  }

  function ParsePipe(s: string, p: nat): (r: Result<Cmd>)
    requires p <= |s|
    ensures r.Ok? ==> p <= r.pos <= |s|
    decreases |s| - p, 2
  {
    var left := ParseExec(s, p);
    if left.Panic? then Panic
    else
      var q := Skip(s, left.pos);
      if !Next(s, q, '|') then Ok(left.value, q)
      else
        var right := ParsePipe(s, Tok(s, q).next);
        if right.Panic? then Panic else Ok(Pipe(left.value, right.value), right.pos)
  }

  /** One Back for each & that follows. */
  function Backs(s: string, c: Cmd, p: nat): (r: Result<Cmd>)
    requires p <= |s|
    ensures r.Ok? && p <= r.pos <= |s| && (r.pos < |s| ==> !Space(s[r.pos]))
    decreases |s| - p
  {
    var q := Skip(s, p);
    if Next(s, q, '&') then Backs(s, Back(c), Tok(s, q).next) else Ok(c, q)
  }

  function ParseLine(s: string, p: nat): (r: Result<Cmd>)
    requires p <= |s|
    ensures r.Ok? ==> p <= r.pos <= |s|
    decreases |s| - p, 3
  {
    var first := ParsePipe(s, p);
    if first.Panic? then Panic
    else
      var b := Backs(s, first.value, first.pos);
      if !Next(s, b.pos, ';') then b
      else
        var rest := ParseLine(s, Tok(s, b.pos).next);
        if rest.Panic? then Panic else Ok(List(b.value, rest.value), rest.pos)
  }

  /** parsecmd: nothing but space may be left over. */
  function ParseCmd(s: string): (r: Result<Cmd>) {
    var c := ParseLine(s, 0);
    if c.Panic? || Skip(s, c.pos) != |s| then Panic else c
  }
}
