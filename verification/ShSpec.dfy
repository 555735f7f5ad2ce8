// What sh.c's parser computes, as functions of the text and a position in it.
module ShSpec {
  const MAXARGS: nat := 10
  const NUL: char := '\0'

  // A word is the span from q to eq of the text.
  datatype Span = Span(q: nat, eq: nat)

  datatype Mode = RDONLY | WRONLY_CREATE

  datatype Cmd<W> =
    | Exec(args: seq<W>)
    | Redir(cmd: Cmd<W>, file: W, mode: Mode)   // fd is 0 for reading and 1 for writing
    | Pipe(left: Cmd<W>, right: Cmd<W>)
    | List(left: Cmd<W>, right: Cmd<W>)
    | Back(cmd: Cmd<W>)

  datatype Parse = Ok(cmd: Cmd<Span>, pos: nat) | Panic(msg: string)

  predicate White(c: char) {
    c == ' ' || c == '\t' || c == '\r' || c == '\n' || c as int == 11
  }

  predicate Symbol(c: char) {
    c == '<' || c == '|' || c == '>' || c == '&' || c == ';' || c == '(' || c == ')'
  }

  // *s; the text ends with a NUL.
  function At(t: string, p: nat): (c: char) {
    if p < |t| then t[p] else NUL
  }

  function Skip(t: string, p: nat): (r: nat)
    requires p <= |t|
    ensures p <= r <= |t| && !(r < |t| && White(t[r])) && (!(p < |t| && White(t[p])) ==> r == p)
    decreases |t| - p
  {
    if p < |t| && White(t[p]) then Skip(t, p + 1) else p
  }

  function WordEnd(t: string, p: nat): (r: nat)
    requires p <= |t|
    ensures p <= r <= |t| && (r < |t| ==> White(t[r]) || Symbol(t[r]))
    ensures forall k | p <= k < r :: !White(t[k]) && !Symbol(t[k])
    decreases |t| - p
  {
    if p < |t| && !White(t[p]) && !Symbol(t[p]) then WordEnd(t, p + 1) else p
  }

  // ---- tokens --------------------------------------------------------------------------

  datatype Tok = Tok(kind: char, q: nat, eq: nat, next: nat)

  function GetToken(t: string, p: nat): (k: Tok)
    requires p <= |t|
    ensures p <= k.q <= k.eq <= k.next <= |t| && (k.kind != NUL ==> k.q < k.eq)
  {
    var q := Skip(t, p);
    var c := At(t, q);
    if c == NUL then Tok(NUL, q, q, Skip(t, q))
    else if c == '>' then
      if At(t, q + 1) == '>' then Tok('+', q, q + 2, Skip(t, q + 2)) else Tok('>', q, q + 1, Skip(t, q + 1))
    else if Symbol(c) then Tok(c, q, q + 1, Skip(t, q + 1))
    else Tok('a', q, WordEnd(t, q), Skip(t, WordEnd(t, q)))
  }

  // peek also moves the position to Skip(t, p).
  predicate Peek(t: string, p: nat, toks: string)
    requires p <= |t|
  {
    At(t, Skip(t, p)) != NUL && At(t, Skip(t, p)) in toks
  }

  // ---- the grammar ---------------------------------------------------------------------

  datatype Redirection = Redirection(file: Span, mode: Mode)

  datatype Redirs = RedirsOk(rs: seq<Redirection>, pos: nat) | RedirsPanic

  // redircmd around redircmd around cmd
  function Wrap(cmd: Cmd<Span>, rs: seq<Redirection>): (r: Cmd<Span>) {
    if rs == [] then cmd
    else Redir(Wrap(cmd, rs[..|rs| - 1]), rs[|rs| - 1].file, rs[|rs| - 1].mode)
  }

  function ParseRedirs(t: string, p: nat, rs: seq<Redirection>): (r: Redirs)
    requires p <= |t|
    ensures r.RedirsOk? ==> p <= r.pos <= |t|
    decreases |t| - p
  {
    if !Peek(t, p, "<>") then RedirsOk(rs, Skip(t, p))
    else
      var tok := GetToken(t, Skip(t, p));
      var f := GetToken(t, tok.next);
      if f.kind != 'a' then RedirsPanic
      else ParseRedirs(t, f.next,
        rs + [Redirection(Span(f.q, f.eq), if tok.kind == '<' then RDONLY else WRONLY_CREATE)])
  }

  function ParseArgs(t: string, p: nat, args: seq<Span>, rs: seq<Redirection>): (r: Parse)
    requires p <= |t|
    ensures r.Ok? ==> p <= r.pos <= |t|
    decreases |t| - p
  {
    if Peek(t, p, "|)&;") then Ok(Wrap(Exec(args), rs), Skip(t, p))
    else
      var tok := GetToken(t, Skip(t, p));
      if tok.kind == NUL then Ok(Wrap(Exec(args), rs), tok.next)
      else if tok.kind != 'a' then Panic("syntax")
      else if |args| + 1 >= MAXARGS then Panic("too many args")
      else
        match ParseRedirs(t, tok.next, rs)
        case RedirsPanic => Panic("missing file for redirection")
        case RedirsOk(rs1, p1) => ParseArgs(t, p1, args + [Span(tok.q, tok.eq)], rs1)
  }

  function ParseBlock(t: string, p: nat): (r: Parse)
    requires p <= |t|
    ensures r.Ok? ==> p <= r.pos <= |t|
    decreases |t| - p, 0
  {
    if !Peek(t, p, "(") then Panic("parseblock")
    else
      match ParseLine(t, GetToken(t, Skip(t, p)).next)
      case Panic(m) => Panic(m)
      case Ok(c, p1) =>
        if !Peek(t, p1, ")") then Panic("syntax - missing )")
        else
          match ParseRedirs(t, GetToken(t, Skip(t, p1)).next, [])
          case RedirsPanic => Panic("missing file for redirection")
          case RedirsOk(rs, p2) => Ok(Wrap(c, rs), p2)
  }

  function ParseExec(t: string, p: nat): (r: Parse)
    requires p <= |t|
    ensures r.Ok? ==> p <= r.pos <= |t|
    decreases |t| - p, 1
  {
    if Peek(t, p, "(") then ParseBlock(t, Skip(t, p))
    else
      match ParseRedirs(t, Skip(t, p), [])
      case RedirsPanic => Panic("missing file for redirection")
      case RedirsOk(rs, p1) => ParseArgs(t, p1, [], rs)
  }

  function ParsePipe(t: string, p: nat): (r: Parse)
    requires p <= |t|
    ensures r.Ok? ==> p <= r.pos <= |t|
    decreases |t| - p, 2
  {
    match ParseExec(t, p)
    case Panic(m) => Panic(m)
    case Ok(c, p1) =>
      if !Peek(t, p1, "|") then Ok(c, Skip(t, p1))
      else
        match ParsePipe(t, GetToken(t, Skip(t, p1)).next)
        case Panic(m) => Panic(m)
        case Ok(d, p2) => Ok(Pipe(c, d), p2)
  }

  function Backs(t: string, p: nat, c: Cmd<Span>): (r: (Cmd<Span>, nat))
    requires p <= |t|
    ensures p <= r.1 <= |t|
    decreases |t| - p
  {
    if Peek(t, p, "&") then Backs(t, GetToken(t, Skip(t, p)).next, Back(c)) else (c, Skip(t, p))
  }

  function ParseLine(t: string, p: nat): (r: Parse)
    requires p <= |t|
    ensures r.Ok? ==> p <= r.pos <= |t|
    decreases |t| - p, 3
  {
    match ParsePipe(t, p)
    case Panic(m) => Panic(m)
    case Ok(c, p1) =>
      var b := Backs(t, p1, c);
      if !Peek(t, b.1, ";") then Ok(b.0, Skip(t, b.1))
      else
        match ParseLine(t, GetToken(t, Skip(t, b.1)).next)
        case Panic(m) => Panic(m)
        case Ok(d, p2) => Ok(List(b.0, d), p2)
  }

  function ParseCmd(t: string): (r: Parse) {
    match ParseLine(t, 0)
    case Panic(m) => Panic(m)
    case Ok(c, p) => if Skip(t, p) != |t| then Panic("syntax") else Ok(c, |t|)
  }

  // The tree with its words read from the text
  function Read(t: string, s: Span): (w: string) {
    if s.q <= s.eq <= |t| then t[s.q..s.eq] else ""
  }

  function Words(t: string, ss: seq<Span>): (ws: seq<string>)
    ensures |ws| == |ss| && forall i | 0 <= i < |ss| :: ws[i] == Read(t, ss[i])
  {
    seq(|ss|, i requires 0 <= i < |ss| => Read(t, ss[i]))
  }

  function Tree(t: string, c: Cmd<Span>): (r: Cmd<string>) {
    match c
    case Exec(args) => Exec(Words(t, args))
    case Redir(d, file, mode) => Redir(Tree(t, d), Read(t, file), mode)
    case Pipe(l, r) => Pipe(Tree(t, l), Tree(t, r))
    case List(l, r) => List(Tree(t, l), Tree(t, r))
    case Back(d) => Back(Tree(t, d))
  }

  // ---- turns of the grammar --------------------------------------------------------------

  lemma TokenSkips(t: string, p: nat)
    requires p <= |t|
    ensures GetToken(t, p) == GetToken(t, Skip(t, p)) && Skip(t, Skip(t, p)) == Skip(t, p)
  {
  }

  lemma TokenEnds(t: string, p: nat)
    requires p <= |t|
    ensures GetToken(t, p).next == Skip(t, GetToken(t, p).eq)
  {
  }

  // One redirection: its operator and its file
  function OneRedirection(t: string, p: nat): (r: (bool, Redirection, nat))
    requires p <= |t|
    ensures p <= r.2 <= |t| && (Peek(t, p, "<>") ==> p < r.2)
  {
    var tok := GetToken(t, Skip(t, p));
    var f := GetToken(t, tok.next);
    (f.kind == 'a', Redirection(Span(f.q, f.eq), if tok.kind == '<' then RDONLY else WRONLY_CREATE), f.next)
  }

  lemma RedirsTurn(t: string, p: nat, rs: seq<Redirection>)
    requires p <= |t|
    ensures !Peek(t, p, "<>") ==> ParseRedirs(t, p, rs) == RedirsOk(rs, Skip(t, p))
    ensures Peek(t, p, "<>") ==> var r := OneRedirection(t, p);
      ParseRedirs(t, p, rs) == if r.0 then ParseRedirs(t, r.2, rs + [r.1]) else RedirsPanic
  {
  }

  // What a pipe or a list makes of its left side c, which ends at p, and of the rest d
  function Joined(t: string, bar: string, c: Cmd<Span>, p: nat, d: Parse): (r: Parse)
    requires p <= |t|
  {
    if !Peek(t, p, bar) then Ok(c, Skip(t, p))
    else if d.Panic? then d
    else Ok(if bar == "|" then Pipe(c, d.cmd) else List(c, d.cmd), d.pos)
  }

  lemma PipeTurn(t: string, p: nat)
    requires p <= |t|
    ensures var r := ParseExec(t, p);
      ParsePipe(t, p) ==
      if r.Panic? then r else Joined(t, "|", r.cmd, r.pos, ParsePipe(t, GetToken(t, Skip(t, r.pos)).next))
  {
  }

  lemma LineTurn(t: string, p: nat)
    requires p <= |t|
    ensures var r := ParsePipe(t, p);
      && (r.Panic? ==> ParseLine(t, p) == r)
      && (r.Ok? ==> var b := Backs(t, r.pos, r.cmd);
        ParseLine(t, p) == Joined(t, ";", b.0, b.1, ParseLine(t, GetToken(t, Skip(t, b.1)).next)))
  {
  }

  // ---- spans of the tree ---------------------------------------------------------------------

  // A span is a word that ends where the word characters end.
  ghost predicate SpanOk(t: string, s: Span) {
    && s.q < s.eq <= |t| && (forall k | s.q <= k < s.eq :: !White(t[k]) && !Symbol(t[k]))
    && (s.eq < |t| ==> White(t[s.eq]) || Symbol(t[s.eq]))
  }

  ghost predicate SpansOk(t: string, ss: seq<Span>) {
    forall i | 0 <= i < |ss| :: SpanOk(t, ss[i])
  }

  ghost predicate RedirsSpans(t: string, rs: seq<Redirection>) {
    forall i | 0 <= i < |rs| :: SpanOk(t, rs[i].file)
  }

  ghost predicate TreeOk(t: string, c: Cmd<Span>) {
    match c
    case Exec(args) => SpansOk(t, args) && |args| < MAXARGS
    case Redir(d, file, _) => TreeOk(t, d) && SpanOk(t, file)
    case Pipe(l, r) => TreeOk(t, l) && TreeOk(t, r)
    case List(l, r) => TreeOk(t, l) && TreeOk(t, r)
    case Back(d) => TreeOk(t, d)
  }

  lemma TokenSpan(t: string, p: nat)
    requires p <= |t| && GetToken(t, p).kind == 'a'
    ensures SpanOk(t, Span(GetToken(t, p).q, GetToken(t, p).eq))
  {
  }

  lemma {:induction false} RedirsOkSpans(t: string, p: nat, rs: seq<Redirection>)
    requires p <= |t| && RedirsSpans(t, rs) && ParseRedirs(t, p, rs).RedirsOk?
    ensures RedirsSpans(t, ParseRedirs(t, p, rs).rs)
    decreases |t| - p
  {
    if Peek(t, p, "<>") {
      var tok := GetToken(t, Skip(t, p));
      var f := GetToken(t, tok.next);
      TokenSpan(t, tok.next);
      RedirsOkSpans(t, f.next, rs + [Redirection(Span(f.q, f.eq), if tok.kind == '<' then RDONLY else WRONLY_CREATE)]);
    }
  }

  lemma {:induction false} WrapOk(t: string, c: Cmd<Span>, rs: seq<Redirection>)
    requires TreeOk(t, c) && RedirsSpans(t, rs)
    ensures TreeOk(t, Wrap(c, rs))
  {
    if rs != [] {
      WrapOk(t, c, rs[..|rs| - 1]);
    }
  }

  lemma {:induction false} ArgsOk(t: string, p: nat, args: seq<Span>, rs: seq<Redirection>)
    requires p <= |t| && SpansOk(t, args) && RedirsSpans(t, rs) && |args| < MAXARGS && ParseArgs(t, p, args, rs).Ok?
    ensures TreeOk(t, ParseArgs(t, p, args, rs).cmd)
    decreases |t| - p
  {
    WrapOk(t, Exec(args), rs);
    if !Peek(t, p, "|)&;") {
      var tok := GetToken(t, Skip(t, p));
      if tok.kind == 'a' {
        TokenSpan(t, Skip(t, p));
        RedirsOkSpans(t, tok.next, rs);
        var r := ParseRedirs(t, tok.next, rs);
        ArgsOk(t, r.pos, args + [Span(tok.q, tok.eq)], r.rs);
      }
    }
  }

  lemma {:induction false} BacksOk(t: string, p: nat, c: Cmd<Span>)
    requires p <= |t| && TreeOk(t, c)
    ensures TreeOk(t, Backs(t, p, c).0)
    decreases |t| - p
  {
    if Peek(t, p, "&") {
      BacksOk(t, GetToken(t, Skip(t, p)).next, Back(c));
    }
  }

  lemma {:induction false} BlockOk(t: string, p: nat)
    requires p <= |t| && ParseBlock(t, p).Ok?
    ensures TreeOk(t, ParseBlock(t, p).cmd)
    decreases |t| - p, 0
  {
    var p0 := GetToken(t, Skip(t, p)).next;
    LineOk(t, p0);
    var r := ParseLine(t, p0);
    var p1 := GetToken(t, Skip(t, r.pos)).next;
    RedirsOkSpans(t, p1, []);
    WrapOk(t, r.cmd, ParseRedirs(t, p1, []).rs);
  }

  lemma {:induction false} ExecOk(t: string, p: nat)
    requires p <= |t| && ParseExec(t, p).Ok?
    ensures TreeOk(t, ParseExec(t, p).cmd)
    decreases |t| - p, 1
  {
    if Peek(t, p, "(") {
      BlockOk(t, Skip(t, p));
    } else {
      RedirsOkSpans(t, Skip(t, p), []);
      var r := ParseRedirs(t, Skip(t, p), []);
      ArgsOk(t, r.pos, [], r.rs);
    }
  }

  lemma {:induction false} PipeOk(t: string, p: nat)
    requires p <= |t| && ParsePipe(t, p).Ok?
    ensures TreeOk(t, ParsePipe(t, p).cmd)
    decreases |t| - p, 2
  {
    ExecOk(t, p);
    var p1 := ParseExec(t, p).pos;
    if Peek(t, p1, "|") {
      PipeOk(t, GetToken(t, Skip(t, p1)).next);
    }
  }

  // Every word of a parsed tree is a maximal run of word characters.
  lemma {:induction false} LineOk(t: string, p: nat)
    requires p <= |t| && ParseLine(t, p).Ok?
    ensures TreeOk(t, ParseLine(t, p).cmd)
    decreases |t| - p, 3
  {
    PipeOk(t, p);
    var r := ParsePipe(t, p);
    BacksOk(t, r.pos, r.cmd);
    var b := Backs(t, r.pos, r.cmd);
    if Peek(t, b.1, ";") {
      LineOk(t, GetToken(t, Skip(t, b.1)).next);
    }
  }

  // ---- NUL-termination ------------------------------------------------------------------------

  // The C string at q
  function CString(b: string, q: nat): (s: string)
    requires q <= |b|
    decreases |b| - q
  {
    if q == |b| || b[q] == NUL then "" else [b[q]] + CString(b, q + 1)
  }

  // b is the text with NULs stored only where words end.
  ghost predicate Terminated(t: string, b: string) {
    && |b| == |t| + 1 && b[|t|] == NUL
    && forall k | 0 <= k < |t| :: b[k] == t[k] || (b[k] == NUL && (White(t[k]) || Symbol(t[k])))
  }

  // Every word ends with a NUL in b.
  ghost predicate AllEnded(b: string, c: Cmd<Span>) {
    match c
    case Exec(args) => forall i | 0 <= i < |args| :: args[i].eq < |b| && b[args[i].eq] == NUL
    case Redir(d, file, _) => AllEnded(b, d) && file.eq < |b| && b[file.eq] == NUL
    case Pipe(l, r) => AllEnded(b, l) && AllEnded(b, r)
    case List(l, r) => AllEnded(b, l) && AllEnded(b, r)
    case Back(d) => AllEnded(b, d)
  }

  lemma {:induction false} CStringIs(t: string, b: string, s: Span, k: nat)
    requires NUL !in t && SpanOk(t, s) && Terminated(t, b) && s.q <= k <= s.eq && b[s.eq] == NUL
    ensures CString(b, k) == t[k..s.eq]
    decreases s.eq - k
  {
    if k < s.eq {
      CStringIs(t, b, s, k + 1);
      assert b[k] == t[k] && t[k] in t;
      assert t[k..s.eq] == [t[k]] + t[k + 1..s.eq];
    }
  }

  // The words that the program sees: C strings in the buffer
  function CWords(b: string, ss: seq<Span>): (ws: seq<string>)
    ensures |ws| == |ss| && forall i | 0 <= i < |ss| :: ws[i] == if ss[i].q <= |b| then CString(b, ss[i].q) else ""
  {
    seq(|ss|, i requires 0 <= i < |ss| => if ss[i].q <= |b| then CString(b, ss[i].q) else "")
  }

  function CTree(b: string, c: Cmd<Span>): (r: Cmd<string>) {
    match c
    case Exec(args) => Exec(CWords(b, args))
    case Redir(d, file, mode) => Redir(CTree(b, d), if file.q <= |b| then CString(b, file.q) else "", mode)
    case Pipe(l, r) => Pipe(CTree(b, l), CTree(b, r))
    case List(l, r) => List(CTree(b, l), CTree(b, r))
    case Back(d) => Back(CTree(b, d))
  }

  // Once every word has its NUL, the C strings of the tree are its words.
  lemma {:induction false} TreeTerminated(t: string, b: string, c: Cmd<Span>)
    requires NUL !in t && TreeOk(t, c) && Terminated(t, b) && AllEnded(b, c)
    ensures CTree(b, c) == Tree(t, c)
  {
    match c
    case Exec(args) =>
      forall i | 0 <= i < |args| ensures CWords(b, args)[i] == Words(t, args)[i] {
        CStringIs(t, b, args[i], args[i].q);
      }
      assert CWords(b, args) == Words(t, args);
    case Redir(d, file, _) =>
      TreeTerminated(t, b, d);
      CStringIs(t, b, file, file.q);
    case Pipe(l, r) =>
      TreeTerminated(t, b, l);
      TreeTerminated(t, b, r);
    case List(l, r) =>
      TreeTerminated(t, b, l);
      TreeTerminated(t, b, r);
    case Back(d) =>
      TreeTerminated(t, b, d);
  }

  // Further NULs take none away.
  lemma {:induction false} StillEnded(b: string, b1: string, c: Cmd<Span>)
    requires |b1| == |b| && AllEnded(b, c) && forall k | 0 <= k < |b| && b[k] == NUL :: b1[k] == NUL
    ensures AllEnded(b1, c)
  {
    match c
    case Exec(_) =>
    case Redir(d, _, _) => StillEnded(b, b1, d);
    case Pipe(l, r) => StillEnded(b, b1, l); StillEnded(b, b1, r);
    case List(l, r) => StillEnded(b, b1, l); StillEnded(b, b1, r);
    case Back(d) => StillEnded(b, b1, d);
  }
}
