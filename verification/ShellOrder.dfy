/**
 The order of the words of a command (user/sh.c): what stands on the left in the
 line stands on the left, or further inside, in the command.
 */
module ShellOrder {
  import opened ShellSpec
  import opened Shell

  ghost predicate Ascending(ws: seq<Span>) {
    forall i, j :: 0 <= i < j < |ws| ==> ws[i].eq <= ws[j].q
  }

  ghost predicate FilesAscend(rs: seq<Redir>) {
    forall i, j :: 0 <= i < j < |rs| ==> rs[i].file.eq <= rs[j].file.q
  }

  /** Every word of the one command ends before any word of the other. */
  ghost predicate Precedes(a: Cmd, b: Cmd) {
    forall v, w :: Mentions(a, v) && Mentions(b, w) ==> v.eq <= w.q
  }

  /** A redirection stands behind the one it wraps, and behind all of a group that it wraps. */
  ghost predicate Behind(c: Cmd, r: Redir) {
    match c
    case Exec(_) => true
    case Redirect(_, inner) => inner.file.eq <= r.file.q
    case _ => forall w :: Mentions(c, w) ==> w.eq <= r.file.q
  }

  /**
   Arguments from left to right, redirections from the inside out, and all of a
   left side before all of its right side.
   */
  ghost predicate Ordered(c: Cmd) {
    match c
    case Exec(args) => Ascending(args)
    case Redirect(inner, r) => Ordered(inner) && Behind(inner, r)
    case Pipe(l, r) => Ordered(l) && Ordered(r) && Precedes(l, r)
    case List(l, r) => Ordered(l) && Ordered(r) && Precedes(l, r)
    case Back(inner) => Ordered(inner)
  }

  /** All words of the command lie between p and e. */
  ghost predicate Between(c: Cmd, p: nat, e: nat) {
    forall w :: Mentions(c, w) ==> p <= w.q && w.eq <= e
  }

  ghost predicate Placed(c: Cmd, p: nat, e: nat) { Ordered(c) && Between(c, p, e) }

  ghost predicate WordsBetween(ws: seq<Span>, p: nat, e: nat) {
    Ascending(ws) && forall i :: 0 <= i < |ws| ==> p <= ws[i].q && ws[i].eq <= e
  }

  ghost predicate FilesBetween(rs: seq<Redir>, p: nat, e: nat) {
    FilesAscend(rs) && forall i :: 0 <= i < |rs| ==> p <= rs[i].file.q && rs[i].file.eq <= e
  }

  // ------------------------------------------------------------------
  // Lists

  lemma WordsThen(ws: seq<Span>, p: nat, m: nat, ws': seq<Span>, e: nat)
    requires WordsBetween(ws, p, m) && WordsBetween(ws', m, e) && p <= m <= e
    ensures WordsBetween(ws + ws', p, e)
  {
  }

  lemma FilesThen(rs: seq<Redir>, p: nat, m: nat, rs': seq<Redir>, e: nat)
    requires FilesBetween(rs, p, m) && FilesBetween(rs', m, e) && p <= m <= e
    ensures FilesBetween(rs + rs', p, e)
  {
  }

  lemma {:induction false} RedirOrder(s: string, p: nat)
    requires p <= |s| && ParseRedirs(s, p).Ok?
    ensures FilesBetween(ParseRedirs(s, p).value, p, ParseRedirs(s, p).pos)
    decreases |s| - p
  {
    hide Tok, Skip, FilesBetween;
    var q := Skip(s, p);
    NoFiles(p, q);
    if Next(s, q, '<') || Next(s, q, '>') {
      var t := Tok(s, q);
      var f := Tok(s, t.next);
      var one := [Redir(ModeOf(t.kind), Span(f.q, f.eq))];
      OneFile(one[0], p, f.next);
      RedirOrder(s, f.next);
      FilesThen(one, p, f.next, ParseRedirs(s, f.next).value, ParseRedirs(s, p).pos);
    }
  }

  lemma NoFiles(p: nat, e: nat)
    ensures FilesBetween([], p, e) && WordsBetween([], p, e)
  {
  }

  lemma OneFile(r: Redir, p: nat, e: nat)
    requires p <= r.file.q && r.file.eq <= e
    ensures FilesBetween([r], p, e)
  {
  }

  lemma OneWord(w: Span, p: nat, e: nat)
    requires p <= w.q && w.eq <= e
    ensures WordsBetween([w], p, e)
  {
  }

  lemma {:induction false} ArgOrder(s: string, p: nat, n: nat)
    requires p <= |s| && ParseArgs(s, p, n).Ok?
    ensures var a := ParseArgs(s, p, n); WordsBetween(a.value.words, p, a.pos) && FilesBetween(a.value.redirs, p, a.pos)
    decreases |s| - p
  {
    hide Tok, Skip, FilesBetween, WordsBetween, ParseRedirs, Stops;
    var q, r := Skip(s, p), ParseArgs(s, p, n);
    NoFiles(p, r.pos);
    if !Stops(s, q) && !Tok(s, q).kind.End? {
      var t := Tok(s, q);
      var rs := ParseRedirs(s, t.next);
      var more := ParseArgs(s, rs.pos, n + 1);
      var w := Span(t.q, t.eq);
      OneWord(w, p, rs.pos);
      NoFiles(p, t.next);
      RedirOrder(s, t.next);
      ArgOrder(s, rs.pos, n + 1);
      WordsThen([w], p, rs.pos, more.value.words, more.pos);
      FilesThen([], p, t.next, rs.value, rs.pos);
      assert [] + rs.value == rs.value;
      FilesThen(rs.value, p, rs.pos, more.value.redirs, more.pos);
    }
  }

  /** Wrapping redirections round a command keeps the order, if they are behind it. */
  lemma {:induction false} WrapOrder(c: Cmd, rs: seq<Redir>)
    requires Ordered(c) && FilesAscend(rs) && (rs != [] ==> Behind(c, rs[0]))
    ensures Ordered(Wrap(c, rs))
    decreases |rs|
  {
    if rs != [] {
      WrapOrder(Redirect(c, rs[0]), rs[1..]);
    }
  }

  lemma WrapBetween(c: Cmd, rs: seq<Redir>, p: nat, e: nat)
    requires Between(c, p, e) && FilesBetween(rs, p, e)
    ensures Between(Wrap(c, rs), p, e)
  {
    hide Wrap, Mentions;
    forall w | Mentions(Wrap(c, rs), w) ensures p <= w.q && w.eq <= e {
      WrapMentions(c, rs, w);
    }
  }

  // ------------------------------------------------------------------
  // The parser

  lemma ExecPlaced(ws: seq<Span>, rs: seq<Redir>, p: nat, e: nat)
    requires WordsBetween(ws, p, e) && FilesBetween(rs, p, e)
    ensures Placed(Wrap(Exec(ws), rs), p, e)
  {
    hide Wrap;
    WrapOrder(Exec(ws), rs);
    assert Between(Exec(ws), p, e);
    WrapBetween(Exec(ws), rs, p, e);
  }

  /** A group and the redirections behind it. */
  lemma GroupPlaced(c: Cmd, rs: seq<Redir>, p: nat, m: nat, e: nat)
    requires Placed(c, p, m) && FilesBetween(rs, m, e) && p <= m <= e
    ensures Placed(Wrap(c, rs), p, e)
  {
    hide Wrap;
    if rs != [] {
      AllBehind(c, rs[0], p, m);
    }
    WrapOrder(c, rs);
    Widened(c, p, m, p, e);
    WrapBetween(c, rs, p, e);
  }

  lemma AllBehind(c: Cmd, r: Redir, p: nat, m: nat)
    requires Between(c, p, m) && m <= r.file.q
    ensures Behind(c, r)
  {
    assert c.Redirect? ==> Mentions(c, c.redir.file);
  }

  lemma Widened(c: Cmd, p: nat, m: nat, p': nat, e: nat)
    requires Between(c, p, m) && p' <= p && m <= e
    ensures Between(c, p', e)
  {
  }

  lemma BothPlaced(a: Cmd, b: Cmd, p: nat, m: nat, e: nat)
    requires Placed(a, p, m) && Placed(b, m, e) && p <= m <= e
    ensures Placed(Pipe(a, b), p, e) && Placed(List(a, b), p, e)
  {
    hide Mentions, Ordered;
    assert Precedes(a, b);
    BothOrdered(a, b);
    forall w | Mentions(Pipe(a, b), w) || Mentions(List(a, b), w) ensures p <= w.q && w.eq <= e {
      BothMention(a, b, w);
    }
  }

  lemma BothOrdered(a: Cmd, b: Cmd)
    requires Ordered(a) && Ordered(b) && Precedes(a, b)
    ensures Ordered(Pipe(a, b)) && Ordered(List(a, b))
  {
  }

  lemma BothMention(a: Cmd, b: Cmd, w: Span)
    ensures Mentions(Pipe(a, b), w) <==> Mentions(a, w) || Mentions(b, w)
    ensures Mentions(List(a, b), w) <==> Mentions(a, w) || Mentions(b, w)
  {
  }

  lemma {:induction false} BackOrder(s: string, c: Cmd, p: nat, m: nat)
    requires p <= m <= |s| && Placed(c, p, m)
    ensures Placed(Backs(s, c, m).value, p, Backs(s, c, m).pos)
    decreases |s| - m
  {
    hide Tok, Skip, Placed;
    var q := Skip(s, m);
    PlacedMore(c, p, m, q);
    if Next(s, q, '&') {
      SymbolNext(s, q);
      PlacedMore(c, p, m, Tok(s, q).next);
      BackPlaced(c, p, Tok(s, q).next);
      BackOrder(s, Back(c), p, Tok(s, q).next);
    }
  }

  lemma PlacedMore(c: Cmd, p: nat, m: nat, e: nat)
    requires Placed(c, p, m) && m <= e
    ensures Placed(c, p, e)
  {
    Widened(c, p, m, p, e);
  }

  lemma BackPlaced(c: Cmd, p: nat, e: nat)
    requires Placed(c, p, e)
    ensures Placed(Back(c), p, e)
  {
    forall w | Mentions(Back(c), w) ensures p <= w.q && w.eq <= e {
      assert Mentions(c, w);
    }
  }

  lemma {:induction false} ExecOrder(s: string, p: nat)
    requires p <= |s| && ParseExec(s, p).Ok?
    ensures Placed(ParseExec(s, p).value, p, ParseExec(s, p).pos)
    decreases |s| - p, 1
  {
    hide Placed, Tok, Skip, ParseRedirs, ParseArgs, ParseBlock, Wrap, FilesBetween, WordsBetween;
    var q := Skip(s, p);
    var r := ParseExec(s, p);
    if Next(s, q, '(') {
      BlockOrder(s, q);
      PlacedFrom(r.value, p, q, r.pos);
    } else {
      var rs := ParseRedirs(s, q);
      var args := ParseArgs(s, rs.pos, 0);
      RedirOrder(s, q);
      ArgOrder(s, rs.pos, 0);
      FilesThen(rs.value, q, rs.pos, args.value.redirs, args.pos);
      NoFiles(q, rs.pos);
      WordsThen([], q, rs.pos, args.value.words, args.pos);
      assert [] + args.value.words == args.value.words;
      ExecPlaced(args.value.words, rs.value + args.value.redirs, q, args.pos);
      PlacedFrom(r.value, p, q, r.pos);
    }
  }

  lemma PlacedFrom(c: Cmd, p: nat, q: nat, e: nat)
    requires Placed(c, q, e) && p <= q
    ensures Placed(c, p, e)
  {
    Widened(c, q, e, p, e);
  }

  lemma {:induction false} BlockOrder(s: string, p: nat)
    requires p <= |s| && Next(s, p, '(') && ParseBlock(s, p).Ok?
    ensures Placed(ParseBlock(s, p).value, p, ParseBlock(s, p).pos)
    decreases |s| - p, 0
  {
    hide Placed, Tok, Skip, ParseRedirs, ParseLine, Wrap, FilesBetween;
    var m := Tok(s, p).next;
    SymbolNext(s, p);
    var body := ParseLine(s, m);
    var e := Tok(s, Skip(s, body.pos)).next;
    var rs := ParseRedirs(s, e);
    LineOrder(s, m);
    PlacedMore(body.value, m, body.pos, e);
    PlacedFrom(body.value, p, m, e);
    RedirOrder(s, e);
    GroupPlaced(body.value, rs.value, p, e, rs.pos);
  }

  lemma {:induction false} PipeOrder(s: string, p: nat)
    requires p <= |s| && ParsePipe(s, p).Ok?
    ensures Placed(ParsePipe(s, p).value, p, ParsePipe(s, p).pos)
    decreases |s| - p, 2
  {
    hide Placed, Tok, Skip, ParseExec;
    var left := ParseExec(s, p);
    var q := Skip(s, left.pos);
    ExecOrder(s, p);
    PlacedMore(left.value, p, left.pos, q);
    if Next(s, q, '|') {
      SymbolNext(s, q);
      var m := Tok(s, q).next;
      PlacedMore(left.value, p, left.pos, m);
      PipeOrder(s, m);
      BothPlaced(left.value, ParsePipe(s, m).value, p, m, ParsePipe(s, m).pos);
    }
  }

  lemma {:induction false} LineOrder(s: string, p: nat)
    requires p <= |s| && ParseLine(s, p).Ok?
    ensures Placed(ParseLine(s, p).value, p, ParseLine(s, p).pos)
    decreases |s| - p, 3
  {
    hide Placed, Tok, Skip, ParsePipe, Backs;
    var first := ParsePipe(s, p);
    var b := Backs(s, first.value, first.pos);
    PipeOrder(s, p);
    BackOrder(s, first.value, p, first.pos);
    if Next(s, b.pos, ';') {
      SymbolNext(s, b.pos);
      var m := Tok(s, b.pos).next;
      PlacedMore(b.value, p, b.pos, m);
      LineOrder(s, m);
      BothPlaced(b.value, ParseLine(s, m).value, p, m, ParseLine(s, m).pos);
    }
  }

  /** An accepted line keeps its words in order. */
  lemma WordsInOrder(s: string)
    requires ParseCmd(s).Ok?
    ensures Ordered(ParseCmd(s).value)
  {
    hide ParseLine, Ordered;
    LineOrder(s, 0);
  }
}
