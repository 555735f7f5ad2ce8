// In the shell's parser, >> means what > means.
module ShAppend {
  import opened ShSpec

  // Where position p of the text is once the > at g has become >>
  function Shift(g: nat, p: nat): (r: nat) {
    if p <= g then p else p + 1
  }

  // u is t with the > at g, which stands alone, written twice.
  ghost predicate Doubled(t: string, u: string, g: nat) {
    && g < |t| && t[g] == '>' && |u| == |t| + 1 && u[g + 1] == '>'
    && (g + 1 < |t| ==> t[g + 1] != '>') && (0 < g ==> t[g - 1] != '>')
    && forall k | 0 <= k < |t| :: u[Shift(g, k)] == t[k]
  }

  function MoveSpan(g: nat, s: Span): (r: Span) {
    Span(Shift(g, s.q), Shift(g, s.eq))
  }

  function MoveSpans(g: nat, ss: seq<Span>): (r: seq<Span>)
    ensures |r| == |ss| && forall i | 0 <= i < |ss| :: r[i] == MoveSpan(g, ss[i])
  {
    seq(|ss|, i requires 0 <= i < |ss| => MoveSpan(g, ss[i]))
  }

  function MoveRedirs(g: nat, rs: seq<Redirection>): (r: seq<Redirection>)
    ensures |r| == |rs| && forall i | 0 <= i < |rs| :: r[i] == Redirection(MoveSpan(g, rs[i].file), rs[i].mode)
  {
    seq(|rs|, i requires 0 <= i < |rs| => Redirection(MoveSpan(g, rs[i].file), rs[i].mode))
  }

  function Move(g: nat, c: Cmd<Span>): (r: Cmd<Span>) {
    match c
    case Exec(args) => Exec(MoveSpans(g, args))
    case Redir(d, file, mode) => Redir(Move(g, d), MoveSpan(g, file), mode)
    case Pipe(l, r) => Pipe(Move(g, l), Move(g, r))
    case List(l, r) => List(Move(g, l), Move(g, r))
    case Back(d) => Back(Move(g, d))
  }

  function MoveParse(g: nat, r: Parse): (m: Parse) {
    match r
    case Ok(c, p) => Ok(Move(g, c), Shift(g, p))
    case Panic(_) => r
  }

  // ---- tokens --------------------------------------------------------------------------

  lemma {:induction false} SkipMoves(t: string, u: string, g: nat, p: nat)
    requires Doubled(t, u, g) && p <= |t|
    ensures Skip(u, Shift(g, p)) == Shift(g, Skip(t, p)) && At(u, Shift(g, p)) == At(t, p)
    decreases |t| - p
  {
    if p < |t| && White(t[p]) {
      SkipMoves(t, u, g, p + 1);
    }
  }

  lemma {:induction false} WordEndMoves(t: string, u: string, g: nat, p: nat)
    requires Doubled(t, u, g) && p <= |t|
    ensures WordEnd(u, Shift(g, p)) == Shift(g, WordEnd(t, p))
    decreases |t| - p
  {
    if p < |t| && !White(t[p]) && !Symbol(t[p]) {
      WordEndMoves(t, u, g, p + 1);
    }
  }

  // The same token at the moved place, except that > becomes >>
  ghost predicate TokenMoves(g: nat, k: Tok, m: Tok) {
    && m.q == Shift(g, k.q) && m.eq == Shift(g, k.eq) && m.next == Shift(g, k.next)
    && (m.kind == k.kind || (k.kind == '>' && m.kind == '+'))
  }

  lemma GetTokenMoves(t: string, u: string, g: nat, p: nat)
    requires Doubled(t, u, g) && p <= |t|
    ensures TokenMoves(g, GetToken(t, p), GetToken(u, Shift(g, p)))
  {
    SkipMoves(t, u, g, p);
    TokenSkips(t, p);
    TokenSkips(u, Shift(g, p));
    TokenAtMoves(t, u, g, Skip(t, p));
  }

  // The same for a token with no white space before it
  lemma TokenAtMoves(t: string, u: string, g: nat, q: nat)
    requires Doubled(t, u, g) && q <= |t| && Skip(t, q) == q && Skip(u, Shift(g, q)) == Shift(g, q)
    ensures TokenMoves(g, GetToken(t, q), GetToken(u, Shift(g, q)))
  {
    EndMoves(t, u, g, q);
    TokenEnds(t, q);
    TokenEnds(u, Shift(g, q));
    SkipMoves(t, u, g, GetToken(t, q).eq);
  }

  lemma EndMoves(t: string, u: string, g: nat, q: nat)
    requires Doubled(t, u, g) && q <= |t| && Skip(t, q) == q && Skip(u, Shift(g, q)) == Shift(g, q)
    ensures var k, m := GetToken(t, q), GetToken(u, Shift(g, q));
      && m.q == Shift(g, k.q) && m.eq == Shift(g, k.eq) && (m.kind == k.kind || (k.kind == '>' && m.kind == '+'))
  {
    assert At(u, Shift(g, q)) == At(t, q);
    if At(t, q) == '>' {
      GreaterMoves(t, u, g, q);
    } else {
      WordEndMoves(t, u, g, q);
    }
  }

  lemma GreaterMoves(t: string, u: string, g: nat, q: nat)
    requires Doubled(t, u, g) && q < |t| && t[q] == '>'
    ensures var k, m := GetToken(t, q), GetToken(u, Shift(g, q));
      && m.q == Shift(g, k.q) && m.eq == Shift(g, k.eq) && (m.kind == k.kind || (k.kind == '>' && m.kind == '+'))
  {
    assert u[Shift(g, q)] == '>' && Skip(t, q) == q && Skip(u, Shift(g, q)) == Shift(g, q);
    if q != g {
      AfterMoves(t, u, g, q);
    }
  }

  // What comes after a character other than the doubled >
  lemma AfterMoves(t: string, u: string, g: nat, q: nat)
    requires Doubled(t, u, g) && q < |t| && q != g
    ensures Shift(g, q + 1) == Shift(g, q) + 1 && At(u, Shift(g, q) + 1) == At(t, q + 1)
    ensures t[q] == '>' && At(t, q + 1) == '>' ==> Shift(g, q + 2) == Shift(g, q) + 2
  {
  }

  lemma PeekMoves(t: string, u: string, g: nat, p: nat, toks: string)
    requires Doubled(t, u, g) && p <= |t|
    ensures Peek(u, Shift(g, p), toks) == Peek(t, p, toks) && Skip(u, Shift(g, p)) == Shift(g, Skip(t, p))
  {
    SkipMoves(t, u, g, p);
    SkipMoves(t, u, g, Skip(t, p));
  }

  // peek, and the position after the token it saw
  lemma StepMoves(t: string, u: string, g: nat, p: nat, toks: string)
    requires Doubled(t, u, g) && p <= |t|
    ensures Peek(u, Shift(g, p), toks) == Peek(t, p, toks) && Skip(u, Shift(g, p)) == Shift(g, Skip(t, p))
    ensures GetToken(u, Skip(u, Shift(g, p))).next == Shift(g, GetToken(t, Skip(t, p)).next)
    ensures Peek(t, p, toks) ==> p < GetToken(t, Skip(t, p)).next
  {
    PeekMoves(t, u, g, p, toks);
    GetTokenMoves(t, u, g, Skip(t, p));
  }

  // ---- the grammar ---------------------------------------------------------------------

  lemma {:induction false} WrapMoves(g: nat, c: Cmd<Span>, rs: seq<Redirection>)
    ensures Move(g, Wrap(c, rs)) == Wrap(Move(g, c), MoveRedirs(g, rs))
    decreases |rs|
  {
    if rs != [] {
      var n := |rs| - 1;
      WrapMoves(g, c, rs[..n]);
      assert MoveRedirs(g, rs)[..n] == MoveRedirs(g, rs[..n]);
    }
  }

  function MoveResult(g: nat, r: Redirs): (m: Redirs) {
    match r
    case RedirsOk(rs, p) => RedirsOk(MoveRedirs(g, rs), Shift(g, p))
    case RedirsPanic => r
  }

  lemma RedirectionMoves(t: string, u: string, g: nat, p: nat)
    requires Doubled(t, u, g) && p <= |t|
    ensures var r := OneRedirection(t, p);
      OneRedirection(u, Shift(g, p)) == (r.0, Redirection(MoveSpan(g, r.1.file), r.1.mode), Shift(g, r.2))
  {
    SkipMoves(t, u, g, p);
    GetTokenMoves(t, u, g, Skip(t, p));
    GetTokenMoves(t, u, g, GetToken(t, Skip(t, p)).next);
  }

  lemma {:induction false} RedirsMove(t: string, u: string, g: nat, p: nat, rs: seq<Redirection>)
    requires Doubled(t, u, g) && p <= |t|
    ensures ParseRedirs(u, Shift(g, p), MoveRedirs(g, rs)) == MoveResult(g, ParseRedirs(t, p, rs))
    decreases |t| - p
  {
    PeekMoves(t, u, g, p, "<>");
    RedirsTurn(t, p, rs);
    RedirsTurn(u, Shift(g, p), MoveRedirs(g, rs));
    RedirectionMoves(t, u, g, p);
    var r := OneRedirection(t, p);
    if Peek(t, p, "<>") && r.0 {
      RedirsMove(t, u, g, r.2, rs + [r.1]);
      assert MoveRedirs(g, rs + [r.1]) == MoveRedirs(g, rs) + [Redirection(MoveSpan(g, r.1.file), r.1.mode)];
    }
  }

  lemma {:induction false} ArgsMove(t: string, u: string, g: nat, p: nat, args: seq<Span>, rs: seq<Redirection>)
    requires Doubled(t, u, g) && p <= |t|
    ensures ParseArgs(u, Shift(g, p), MoveSpans(g, args), MoveRedirs(g, rs)) == MoveParse(g, ParseArgs(t, p, args, rs))
    decreases |t| - p
  {
    PeekMoves(t, u, g, p, "|)&;");
    WrapMoves(g, Exec(args), rs);
    if !Peek(t, p, "|)&;") {
      GetTokenMoves(t, u, g, Skip(t, p));
      var tok := GetToken(t, Skip(t, p));
      if tok.kind == 'a' && |args| + 1 < MAXARGS {
        RedirsMove(t, u, g, tok.next, rs);
        var r := ParseRedirs(t, tok.next, rs);
        if r.RedirsOk? {
          var s := Span(tok.q, tok.eq);
          SpanAdded(g, args, s);
          ArgsMove(t, u, g, r.pos, args + [s], r.rs);
        }
      }
    }
  }

  lemma SpanAdded(g: nat, args: seq<Span>, s: Span)
    ensures MoveSpans(g, args + [s]) == MoveSpans(g, args) + [MoveSpan(g, s)]
  {
  }

  lemma {:induction false} BacksMove(t: string, u: string, g: nat, p: nat, c: Cmd<Span>)
    requires Doubled(t, u, g) && p <= |t|
    ensures var b := Backs(t, p, c); Backs(u, Shift(g, p), Move(g, c)) == (Move(g, b.0), Shift(g, b.1))
    decreases |t| - p
  {
    StepMoves(t, u, g, p, "&");
    if Peek(t, p, "&") {
      BacksMove(t, u, g, GetToken(t, Skip(t, p)).next, Back(c));
    }
  }

  lemma {:induction false} BlockMoves(t: string, u: string, g: nat, p: nat)
    requires Doubled(t, u, g) && p <= |t|
    ensures ParseBlock(u, Shift(g, p)) == MoveParse(g, ParseBlock(t, p))
    decreases |t| - p, 0
  {
    StepMoves(t, u, g, p, "(");
    if Peek(t, p, "(") {
      var p0 := GetToken(t, Skip(t, p)).next;
      LineMoves(t, u, g, p0);
      var r := ParseLine(t, p0);
      if r.Ok? {
        BlockEnds(t, u, g, r.pos, r.cmd);
      }
    }
  }

  // What follows the line inside a block
  lemma BlockEnds(t: string, u: string, g: nat, p1: nat, c: Cmd<Span>)
    requires Doubled(t, u, g) && p1 <= |t|
    ensures Peek(u, Shift(g, p1), ")") == Peek(t, p1, ")")
    ensures var p2 := GetToken(t, Skip(t, p1)).next; var r := ParseRedirs(t, p2, []);
      && GetToken(u, Skip(u, Shift(g, p1))).next == Shift(g, p2)
      && ParseRedirs(u, Shift(g, p2), []) == MoveResult(g, r)
      && (r.RedirsOk? ==> Move(g, Wrap(c, r.rs)) == Wrap(Move(g, c), MoveRedirs(g, r.rs)))
  {
    StepMoves(t, u, g, p1, ")");
    var p2 := GetToken(t, Skip(t, p1)).next;
    RedirsMove(t, u, g, p2, []);
    assert MoveRedirs(g, []) == [];
    var r := ParseRedirs(t, p2, []);
    if r.RedirsOk? {
      WrapMoves(g, c, r.rs);
    }
  }

  lemma {:induction false} ExecMoves(t: string, u: string, g: nat, p: nat)
    requires Doubled(t, u, g) && p <= |t|
    ensures ParseExec(u, Shift(g, p)) == MoveParse(g, ParseExec(t, p))
    decreases |t| - p, 1
  {
    PeekMoves(t, u, g, p, "(");
    if Peek(t, p, "(") {
      BlockMoves(t, u, g, Skip(t, p));
    } else {
      RedirsMove(t, u, g, Skip(t, p), []);
      assert MoveRedirs(g, []) == [] && MoveSpans(g, []) == [];
      var r := ParseRedirs(t, Skip(t, p), []);
      if r.RedirsOk? {
        ArgsMove(t, u, g, r.pos, [], r.rs);
      }
    }
  }

  lemma JoinedMoves(t: string, u: string, g: nat, bar: string, c: Cmd<Span>, p: nat, d: Parse)
    requires Doubled(t, u, g) && p <= |t|
    ensures Joined(u, bar, Move(g, c), Shift(g, p), MoveParse(g, d)) == MoveParse(g, Joined(t, bar, c, p, d))
  {
    PeekMoves(t, u, g, p, bar);
  }

  lemma {:induction false} PipeMoves(t: string, u: string, g: nat, p: nat)
    requires Doubled(t, u, g) && p <= |t|
    ensures ParsePipe(u, Shift(g, p)) == MoveParse(g, ParsePipe(t, p))
    decreases |t| - p, 2
  {
    ExecMoves(t, u, g, p);
    PipeTurn(t, p);
    PipeTurn(u, Shift(g, p));
    var r := ParseExec(t, p);
    if r.Ok? {
      StepMoves(t, u, g, r.pos, "|");
      var p1 := GetToken(t, Skip(t, r.pos)).next;
      if Peek(t, r.pos, "|") {
        PipeMoves(t, u, g, p1);
      }
      JoinedMoves(t, u, g, "|", r.cmd, r.pos, ParsePipe(t, p1));
    }
  }

  lemma {:induction false} LineMoves(t: string, u: string, g: nat, p: nat)
    requires Doubled(t, u, g) && p <= |t|
    ensures ParseLine(u, Shift(g, p)) == MoveParse(g, ParseLine(t, p))
    decreases |t| - p, 3
  {
    PipeMoves(t, u, g, p);
    LineTurn(t, p);
    LineTurn(u, Shift(g, p));
    var r := ParsePipe(t, p);
    if r.Ok? {
      BacksMove(t, u, g, r.pos, r.cmd);
      var b := Backs(t, r.pos, r.cmd);
      StepMoves(t, u, g, b.1, ";");
      var p1 := GetToken(t, Skip(t, b.1)).next;
      if Peek(t, b.1, ";") {
        LineMoves(t, u, g, p1);
      }
      JoinedMoves(t, u, g, ";", b.0, b.1, ParseLine(t, p1));
    }
  }

  // ---- the words -----------------------------------------------------------------------

  // No word contains the >.
  lemma ReadMoves(t: string, u: string, g: nat, s: Span)
    requires Doubled(t, u, g) && SpanOk(t, s)
    ensures Read(u, MoveSpan(g, s)) == Read(t, s)
  {
    var m := MoveSpan(g, s);
    assert s.eq <= g || g < s.q by {
      assert Symbol(t[g]);
    }
    forall k | 0 <= k < s.eq - s.q ensures u[m.q..m.eq][k] == t[s.q..s.eq][k] {
      assert u[Shift(g, s.q + k)] == t[s.q + k];
    }
    assert u[m.q..m.eq] == t[s.q..s.eq];
  }

  lemma {:induction false} TreeMoves(t: string, u: string, g: nat, c: Cmd<Span>)
    requires Doubled(t, u, g) && TreeOk(t, c)
    ensures Tree(u, Move(g, c)) == Tree(t, c)
  {
    match c
    case Exec(args) =>
      forall i | 0 <= i < |args| ensures Words(u, MoveSpans(g, args))[i] == Words(t, args)[i] {
        ReadMoves(t, u, g, args[i]);
      }
      assert Words(u, MoveSpans(g, args)) == Words(t, args);
    case Redir(d, file, _) =>
      TreeMoves(t, u, g, d);
      ReadMoves(t, u, g, file);
    case Pipe(l, r) =>
      TreeMoves(t, u, g, l);
      TreeMoves(t, u, g, r);
    case List(l, r) =>
      TreeMoves(t, u, g, l);
      TreeMoves(t, u, g, r);
    case Back(d) =>
      TreeMoves(t, u, g, d);
  }

  // ---- the result ----------------------------------------------------------------------

  // What a text parses to: the panic, or the tree with its words
  datatype Meaning = Fails(msg: string) | Means(tree: Cmd<string>)

  function MeaningOf(t: string): (m: Meaning) {
    match ParseCmd(t)
    case Panic(msg) => Fails(msg)
    case Ok(c, _) => Means(Tree(t, c))
  }

  lemma CmdMoves(t: string, u: string, g: nat)
    requires Doubled(t, u, g)
    ensures MeaningOf(u) == MeaningOf(t)
  {
    LineMoves(t, u, g, 0);
    var r := ParseLine(t, 0);
    if r.Ok? {
      SkipMoves(t, u, g, r.pos);
      LineOk(t, 0);
      TreeMoves(t, u, g, r.cmd);
    }
  }

  // A > that stands alone may be written >>: every text keeps its tree, words and modes, or its panic.
  lemma AppendIsWrite(a: string, b: string)
    requires (a != "" ==> a[|a| - 1] != '>') && (b != "" ==> b[0] != '>')
    ensures MeaningOf(a + ">>" + b) == MeaningOf(a + ">" + b)
  {
    var t, u := a + ">" + b, a + ">>" + b;
    assert Doubled(t, u, |a|) by {
      assert t[|a|] == '>' && u[|a| + 1] == '>';
      forall k | 0 <= k < |t| ensures u[Shift(|a|, k)] == t[k] {
        if k > |a| {
          assert t[k] == b[k - |a| - 1] && u[k + 1] == b[k - |a| - 1];
        }
      }
    }
    CmdMoves(t, u, |a|);
  }
}
