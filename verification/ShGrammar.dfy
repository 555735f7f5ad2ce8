// The shell's grammar by itself. A text is a list of lexemes; a tree of productions stands for the
// lexemes it derives and means a command. A text parses exactly if a tree derives its lexemes.
module ShGrammar {
  import opened ShSpec

  // A word, or the operator <, >, |, &, ;, ( or ). Op('+') is >>.
  datatype Lexeme = Name(w: string) | Op(c: char)

  function LexemeOf(t: string, k: Tok): (x: Lexeme) {
    if k.kind == 'a' then Name(Read(t, Span(k.q, k.eq))) else Op(k.kind)
  }

  function Lexemes(t: string, p: nat): (ls: seq<Lexeme>)
    requires p <= |t|
    decreases |t| - p
  {
    var k := GetToken(t, p);
    if k.kind == NUL then [] else [LexemeOf(t, k)] + Lexemes(t, k.next)
  }

  // ---- productions ---------------------------------------------------------------------

  // What a simple command is made of, in any order
  datatype Item = Arg(w: string) | To(op: char, file: string)

  datatype Atom = Simple(items: seq<Item>) | Block(inner: Chain, redirs: seq<Item>)

  datatype Piped = Last(atom: Atom) | Bar(atom: Atom, rest: Piped)

  // A pipeline, its ampersands and, after a semicolon, the rest
  datatype Chain = End(pipe: Piped, amps: nat) | Semi(pipe: Piped, amps: nat, rest: Chain)

  function FlatItem(i: Item): (ls: seq<Lexeme>) {
    match i
    case Arg(w) => [Name(w)]
    case To(op, file) => [Op(op), Name(file)]
  }

  function FlatItems(items: seq<Item>): (ls: seq<Lexeme>) {
    if items == [] then [] else FlatItem(items[0]) + FlatItems(items[1..])
  }

  function Amps(n: nat): (ls: seq<Lexeme>) {
    seq(n, _ => Op('&'))
  }

  function FlatAtom(a: Atom): (ls: seq<Lexeme>) {
    match a
    case Simple(items) => FlatItems(items)
    case Block(inner, redirs) => [Op('(')] + FlatChain(inner) + [Op(')')] + FlatItems(redirs)
  }

  function FlatPiped(x: Piped): (ls: seq<Lexeme>) {
    match x
    case Last(a) => FlatAtom(a)
    case Bar(a, rest) => FlatAtom(a) + [Op('|')] + FlatPiped(rest)
  }

  function FlatChain(x: Chain): (ls: seq<Lexeme>) {
    match x
    case End(pipe, amps) => FlatPiped(pipe) + Amps(amps)
    case Semi(pipe, amps, rest) => FlatPiped(pipe) + Amps(amps) + [Op(';')] + FlatChain(rest)
  }

  // ---- what they mean ------------------------------------------------------------------

  datatype Target = Target(file: string, mode: Mode)

  function ArgsOf(items: seq<Item>): (ws: seq<string>) {
    if items == [] then [] else (if items[0].Arg? then [items[0].w] else []) + ArgsOf(items[1..])
  }

  function TargetOf(i: Item): (x: Target)
    requires i.To?
  {
    Target(i.file, if i.op == '<' then RDONLY else WRONLY_CREATE)
  }

  function TargetsOf(items: seq<Item>): (ts: seq<Target>) {
    if items == [] then [] else (if items[0].To? then [TargetOf(items[0])] else []) + TargetsOf(items[1..])
  }

  // The first redirection is the innermost.
  function Around(c: Cmd<string>, ts: seq<Target>): (r: Cmd<string>)
    decreases ts
  {
    if ts == [] then c else Around(Redir(c, ts[0].file, ts[0].mode), ts[1..])
  }

  function BackTimes<W>(n: nat, c: Cmd<W>): (r: Cmd<W>) {
    if n == 0 then c else BackTimes(n - 1, Back(c))
  }

  function AtomMeans(a: Atom): (c: Cmd<string>) {
    match a
    case Simple(items) => Around(Exec(ArgsOf(items)), TargetsOf(items))
    case Block(inner, redirs) => Around(ChainMeans(inner), TargetsOf(redirs))
  }

  function PipedMeans(x: Piped): (c: Cmd<string>) {
    match x
    case Last(a) => AtomMeans(a)
    case Bar(a, rest) => Pipe(AtomMeans(a), PipedMeans(rest))
  }

  function ChainMeans(x: Chain): (c: Cmd<string>) {
    match x
    case End(pipe, amps) => BackTimes(amps, PipedMeans(pipe))
    case Semi(pipe, amps, rest) => List(BackTimes(amps, PipedMeans(pipe)), ChainMeans(rest))
  }

  // The operators are redirections, and there are fewer than MAXARGS arguments.
  predicate FitsItems(items: seq<Item>) {
    && |ArgsOf(items)| < MAXARGS
    && forall i | 0 <= i < |items| && items[i].To? :: items[i].op in "<>+"
  }

  predicate FitsAtom(a: Atom) {
    match a
    case Simple(items) => FitsItems(items)
    case Block(inner, redirs) => FitsChain(inner) && FitsItems(redirs) && ArgsOf(redirs) == []
  }

  predicate FitsPiped(x: Piped) {
    match x
    case Last(a) => FitsAtom(a)
    case Bar(a, rest) => FitsAtom(a) && FitsPiped(rest)
  }

  predicate FitsChain(x: Chain) {
    FitsPiped(x.pipe) && (x.Semi? ==> FitsChain(x.rest))
  }

  // ---- lexemes of the text -------------------------------------------------------------

  // The next character to be peeked at is one of these operators.
  predicate Starts(ls: seq<Lexeme>, toks: string) {
    ls != [] && ls[0].Op? && (if ls[0].c == '+' then '>' else ls[0].c) in toks
  }

  predicate Follow(ls: seq<Lexeme>, toks: string) {
    ls == [] || Starts(ls, toks)
  }

  lemma First(t: string, p: nat)
    requires NUL !in t && p <= |t|
    ensures var k, ls := GetToken(t, p), Lexemes(t, p);
      && (ls == [] <==> k.kind == NUL) && (ls == [] <==> Skip(t, p) == |t|) && (ls == [] ==> k.next == |t|)
      && (ls != [] ==> p < k.next && ls[0] == LexemeOf(t, k) && ls[1..] == Lexemes(t, k.next))
    ensures Lexemes(t, Skip(t, p)) == Lexemes(t, p) && GetToken(t, Skip(t, p)) == GetToken(t, p)
  {
    TokenSkips(t, p);
    var q := Skip(t, p);
    assert q < |t| ==> t[q] in t;
  }

  lemma PeekIs(t: string, p: nat, toks: string)
    requires NUL !in t && p <= |t| && forall c | c in toks :: Symbol(c)
    ensures Peek(t, p, toks) <==> Starts(Lexemes(t, p), toks)
  {
    First(t, p);
    var q := Skip(t, p);
    assert q < |t| ==> t[q] in t;
  }

  // ---- redirections --------------------------------------------------------------------

  // What the redirections rs of the text are
  function Targets(t: string, rs: seq<Redirection>): (ts: seq<Target>)
    ensures |ts| == |rs| && forall i | 0 <= i < |rs| :: ts[i] == Target(Read(t, rs[i].file), rs[i].mode)
  {
    seq(|rs|, i requires 0 <= i < |rs| => Target(Read(t, rs[i].file), rs[i].mode))
  }

  lemma {:induction false} AroundLast(c: Cmd<string>, ts: seq<Target>, x: Target)
    ensures Around(c, ts + [x]) == Redir(Around(c, ts), x.file, x.mode)
    decreases ts
  {
    if ts != [] {
      AroundLast(Redir(c, ts[0].file, ts[0].mode), ts[1..], x);
      assert (ts + [x])[1..] == ts[1..] + [x];
    }
  }

  lemma {:induction false} WrapMeans(t: string, c: Cmd<Span>, rs: seq<Redirection>)
    ensures Tree(t, Wrap(c, rs)) == Around(Tree(t, c), Targets(t, rs))
    decreases |rs|
  {
    if rs != [] {
      var n := |rs| - 1;
      WrapMeans(t, c, rs[..n]);
      AroundLast(Tree(t, c), Targets(t, rs[..n]), Targets(t, rs)[n]);
      assert Targets(t, rs) == Targets(t, rs[..n]) + [Targets(t, rs)[n]];
    }
  }

  lemma FlatNext(items: seq<Item>, rest: seq<Lexeme>)
    requires items != []
    ensures FlatItems(items) + rest == FlatItem(items[0]) + (FlatItems(items[1..]) + rest)
    ensures items[0].To? ==> ArgsOf(items) == ArgsOf(items[1..]) &&
                             TargetsOf(items) == [TargetOf(items[0])] + TargetsOf(items[1..])
    ensures items[0].Arg? ==> ArgsOf(items) == [items[0].w] + ArgsOf(items[1..]) &&
                              TargetsOf(items) == TargetsOf(items[1..])
    ensures items == [items[0]] + items[1..]
  {
  }

  // A redirection in the text
  lemma OneTarget(t: string, p: nat, op: char, file: string, rest: seq<Lexeme>)
    requires NUL !in t && p <= |t| && op in "<>+" && Lexemes(t, p) == [Op(op), Name(file)] + rest
    ensures var r := OneRedirection(t, p);
      && Peek(t, p, "<>") && r.0 && Lexemes(t, r.2) == rest
      && Target(Read(t, r.1.file), r.1.mode) == TargetOf(To(op, file))
  {
    PeekIs(t, p, "<>");
    First(t, p);
    var k := GetToken(t, p);
    assert Lexemes(t, k.next) == Lexemes(t, p)[1..] == [Name(file)] + rest;
    First(t, k.next);
    assert ([Name(file)] + rest)[1..] == rest;
  }

  lemma TargetsNext(t: string, rs: seq<Redirection>, x: Redirection)
    ensures Targets(t, rs + [x]) == Targets(t, rs) + [Target(Read(t, x.file), x.mode)]
  {
  }

  lemma Assoc<T>(a: seq<T>, b: seq<T>, c: seq<T>)
    ensures a + b + c == a + (b + c)
  {
  }

  lemma Middle<T>(a: seq<T>, m: seq<T>, b: seq<T>, rest: seq<T>)
    ensures a + m + b + rest == a + (m + (b + rest))
  {
  }

  lemma FitsNext(items: seq<Item>)
    requires items != [] && FitsItems(items)
    ensures FitsItems(items[1..]) && (items[0].To? ==> items[0].op in "<>+")
  {
    FlatNext(items, []);
  }

  lemma RedirsStop(t: string, p: nat, rs: seq<Redirection>)
    requires NUL !in t && p <= |t| && !Starts(Lexemes(t, p), "<>")
    ensures ParseRedirs(t, p, rs) == RedirsOk(rs, Skip(t, p)) && Lexemes(t, Skip(t, p)) == Lexemes(t, p)
  {
    PeekIs(t, p, "<>");
    First(t, p);
  }

  lemma {:induction false} RedirsBack(t: string, p: nat, rs: seq<Redirection>, items: seq<Item>, rest: seq<Lexeme>)
    requires NUL !in t && p <= |t| && FitsItems(items) && ArgsOf(items) == []
    requires Lexemes(t, p) == FlatItems(items) + rest && !Starts(rest, "<>")
    ensures var r := ParseRedirs(t, p, rs);
      r.RedirsOk? && Lexemes(t, r.pos) == rest && Targets(t, r.rs) == Targets(t, rs) + TargetsOf(items)
    decreases |items|
  {
    if items == [] {
      assert FlatItems(items) + rest == rest;
      RedirsStop(t, p, rs);
    } else {
      FlatNext(items, rest);
      FitsNext(items);
      OneTarget(t, p, items[0].op, items[0].file, FlatItems(items[1..]) + rest);
      RedirsTurn(t, p, rs);
      var r := OneRedirection(t, p);
      TargetsNext(t, rs, r.1);
      Assoc(Targets(t, rs), [TargetOf(items[0])], TargetsOf(items[1..]));
      RedirsBack(t, r.2, rs + [r.1], items[1..], rest);
    }
  }

  lemma {:induction false} RedirsSound(t: string, p: nat, rs: seq<Redirection>) returns (items: seq<Item>)
    requires NUL !in t && p <= |t| && ParseRedirs(t, p, rs).RedirsOk?
    ensures var r := ParseRedirs(t, p, rs);
      && FitsItems(items) && ArgsOf(items) == [] && Lexemes(t, p) == FlatItems(items) + Lexemes(t, r.pos)
      && Targets(t, r.rs) == Targets(t, rs) + TargetsOf(items)
    decreases |t| - p
  {
    RedirsTurn(t, p, rs);
    if Peek(t, p, "<>") {
      var r := OneRedirection(t, p);
      var x := TargetSound(t, p);
      var tail := RedirsSound(t, r.2, rs + [r.1]);
      items := [x] + tail;
      var q := ParseRedirs(t, p, rs);
      ItemsMore(x, tail, Lexemes(t, p), Lexemes(t, r.2), Lexemes(t, q.pos));
      TargetsNext(t, rs, r.1);
      Assoc(Targets(t, rs), [TargetOf(x)], TargetsOf(tail));
    } else {
      items := [];
      First(t, p);
      assert FlatItems(items) + Lexemes(t, p) == Lexemes(t, p);
    }
  }

  lemma ItemsMore(x: Item, tail: seq<Item>, ls: seq<Lexeme>, ls1: seq<Lexeme>, rest: seq<Lexeme>)
    requires ls == FlatItem(x) + ls1 && ls1 == FlatItems(tail) + rest && FitsItems(tail)
    requires if x.To? then x.op in "<>+" else |ArgsOf(tail)| + 1 < MAXARGS
    ensures ls == FlatItems([x] + tail) + rest && FitsItems([x] + tail)
    ensures x.To? ==> ArgsOf([x] + tail) == ArgsOf(tail) && TargetsOf([x] + tail) == [TargetOf(x)] + TargetsOf(tail)
  {
    FlatNext([x] + tail, rest);
    FitsMore(x, tail);
  }

  lemma FitsMore(x: Item, tail: seq<Item>)
    requires FitsItems(tail) && (if x.To? then x.op in "<>+" else |ArgsOf(tail)| + 1 < MAXARGS)
    ensures FitsItems([x] + tail)
  {
    FlatNext([x] + tail, []);
  }

  lemma TargetSound(t: string, p: nat) returns (x: Item)
    requires NUL !in t && p <= |t| && Peek(t, p, "<>") && OneRedirection(t, p).0
    ensures var r := OneRedirection(t, p);
      && x.To? && x.op in "<>+" && Target(Read(t, r.1.file), r.1.mode) == TargetOf(x)
      && Lexemes(t, p) == FlatItem(x) + Lexemes(t, r.2)
  {
    PeekIs(t, p, "<>");
    First(t, p);
    var k := GetToken(t, p);
    First(t, k.next);
    var f := GetToken(t, k.next);
    x := To(k.kind, Read(t, Span(f.q, f.eq)));
    var ls := Lexemes(t, p);
    assert ls == [ls[0]] + ls[1..] && ls[1..] == [ls[1..][0]] + ls[1..][1..];
  }

  // ---- simple commands -------------------------------------------------------------------

  // parseexec from a parseredirs on
  function Rest(t: string, p: nat, args: seq<Span>, rs: seq<Redirection>): (r: Parse)
    requires p <= |t|
  {
    match ParseRedirs(t, p, rs)
    case RedirsPanic => Panic("missing file for redirection")
    case RedirsOk(rs1, p1) => ParseArgs(t, p1, args, rs1)
  }

  // It goes on with a redirection,
  lemma RestTarget(t: string, p: nat, args: seq<Span>, rs: seq<Redirection>)
    requires p <= |t| && Peek(t, p, "<>")
    ensures var r := OneRedirection(t, p);
      if r.0 then Rest(t, p, args, rs) == Rest(t, r.2, args, rs + [r.1]) else Rest(t, p, args, rs).Panic?
  {
    RedirsTurn(t, p, rs);
  }

  // or with an argument, or it ends.
  lemma RestArg(t: string, p: nat, args: seq<Span>, rs: seq<Redirection>)
    requires NUL !in t && p <= |t| && !Starts(Lexemes(t, p), "<>")
    ensures var k, r := GetToken(t, p), Rest(t, p, args, rs);
      if Follow(Lexemes(t, p), "|)&;") then r.Ok? && r.cmd == Wrap(Exec(args), rs) && Lexemes(t, r.pos) == Lexemes(t, p)
      else if k.kind != 'a' || |args| + 1 >= MAXARGS then r.Panic?
      else r == Rest(t, k.next, args + [Span(k.q, k.eq)], rs)
  {
    RedirsStop(t, p, rs);
    var p1 := Skip(t, p);
    First(t, p);
    First(t, p1);
    PeekIs(t, p1, "|)&;");
    assert Rest(t, p, args, rs) == ParseArgs(t, p1, args, rs);
    ArgsTurn(t, p1, args, rs);
  }

  lemma ArgsTurn(t: string, p: nat, args: seq<Span>, rs: seq<Redirection>)
    requires NUL !in t && p <= |t| && Skip(t, p) == p
    ensures var k, r := GetToken(t, p), ParseArgs(t, p, args, rs);
      if Peek(t, p, "|)&;") then r == Ok(Wrap(Exec(args), rs), p)
      else if k.kind == NUL then r == Ok(Wrap(Exec(args), rs), k.next)
      else if k.kind != 'a' || |args| + 1 >= MAXARGS then r.Panic?
      else r == Rest(t, k.next, args + [Span(k.q, k.eq)], rs)
  {
  }

  ghost predicate ParsedAs(t: string, r: Parse, c: Cmd<string>, rest: seq<Lexeme>) {
    r.Ok? && r.pos <= |t| && Tree(t, r.cmd) == c && Lexemes(t, r.pos) == rest
  }

  // The command made of what has been read so far and of the items still to come
  function Simply(t: string, args: seq<Span>, rs: seq<Redirection>, items: seq<Item>): (c: Cmd<string>) {
    Around(Exec(Words(t, args) + ArgsOf(items)), Targets(t, rs) + TargetsOf(items))
  }

  lemma SimplyEnd(t: string, args: seq<Span>, rs: seq<Redirection>)
    ensures Tree(t, Wrap(Exec(args), rs)) == Simply(t, args, rs, [])
  {
    WrapMeans(t, Exec(args), rs);
    assert Words(t, args) + [] == Words(t, args) && Targets(t, rs) + [] == Targets(t, rs);
  }

  lemma SimplyTarget(t: string, args: seq<Span>, rs: seq<Redirection>, x: Redirection, items: seq<Item>)
    requires items != [] && items[0].To? && Target(Read(t, x.file), x.mode) == TargetOf(items[0])
    ensures Simply(t, args, rs + [x], items[1..]) == Simply(t, args, rs, items)
  {
    FlatNext(items, []);
    TargetsNext(t, rs, x);
    Assoc(Targets(t, rs), [TargetOf(items[0])], TargetsOf(items[1..]));
  }

  lemma SimplyArg(t: string, args: seq<Span>, w: Span, rs: seq<Redirection>, items: seq<Item>)
    requires items != [] && items[0] == Arg(Read(t, w))
    ensures Simply(t, args + [w], rs, items[1..]) == Simply(t, args, rs, items)
  {
    FlatNext(items, []);
    assert Words(t, args + [w]) == Words(t, args) + [Read(t, w)];
    Assoc(Words(t, args), [Read(t, w)], ArgsOf(items[1..]));
  }

  lemma {:induction false} SimpleBack(t: string, p: nat, args: seq<Span>, rs: seq<Redirection>, items: seq<Item>,
                                      rest: seq<Lexeme>)
    requires NUL !in t && p <= |t| && FitsItems(items) && |args| + |ArgsOf(items)| < MAXARGS
    requires Lexemes(t, p) == FlatItems(items) + rest && Follow(rest, "|)&;")
    ensures ParsedAs(t, Rest(t, p, args, rs), Simply(t, args, rs, items), rest)
    decreases |items|
  {
    if items == [] {
      assert FlatItems(items) + rest == rest;
      RestArg(t, p, args, rs);
      SimplyEnd(t, args, rs);
    } else {
      var tail := FlatItems(items[1..]) + rest;
      FlatNext(items, rest);
      FitsNext(items);
      if items[0].To? {
        OneTarget(t, p, items[0].op, items[0].file, tail);
        RestTarget(t, p, args, rs);
        var r := OneRedirection(t, p);
        SimpleBack(t, r.2, args, rs + [r.1], items[1..], rest);
        SimplyTarget(t, args, rs, r.1, items);
      } else {
        var k := NameAhead(t, p, items[0].w, tail);
        RestArg(t, p, args, rs);
        SimpleBack(t, k.next, args + [Span(k.q, k.eq)], rs, items[1..], rest);
        SimplyArg(t, args, Span(k.q, k.eq), rs, items);
      }
    }
  }

  lemma NameAhead(t: string, p: nat, w: string, tail: seq<Lexeme>) returns (k: Tok)
    requires NUL !in t && p <= |t| && Lexemes(t, p) == [Name(w)] + tail
    ensures k == GetToken(t, p) && k.kind == 'a' && Read(t, Span(k.q, k.eq)) == w && Lexemes(t, k.next) == tail
    ensures !Follow(Lexemes(t, p), "|)&;") && !Starts(Lexemes(t, p), "<>")
  {
    First(t, p);
    k := GetToken(t, p);
    assert Lexemes(t, p)[1..] == tail;
  }

  lemma {:induction false} SimpleSound(t: string, p: nat, args: seq<Span>, rs: seq<Redirection>)
    returns (items: seq<Item>)
    requires NUL !in t && p <= |t| && Rest(t, p, args, rs).Ok? && |args| < MAXARGS
    ensures var r := Rest(t, p, args, rs);
      && FitsItems(items) && |args| + |ArgsOf(items)| < MAXARGS && Lexemes(t, p) == FlatItems(items) + Lexemes(t, r.pos)
      && Tree(t, r.cmd) == Simply(t, args, rs, items)
    decreases |t| - p, 1
  {
    PeekIs(t, p, "<>");
    First(t, p);
    var e := Rest(t, p, args, rs).pos;
    if Peek(t, p, "<>") {
      RestTarget(t, p, args, rs);
      var r := OneRedirection(t, p);
      var x := TargetSound(t, p);
      var tail := SimpleSound(t, r.2, args, rs + [r.1]);
      items := [x] + tail;
      FlatNext(items, Lexemes(t, e));
      FitsMore(x, tail);
      SimplyTarget(t, args, rs, r.1, items);
    } else {
      RestArg(t, p, args, rs);
      if Follow(Lexemes(t, p), "|)&;") {
        items := [];
        SimplyEnd(t, args, rs);
        assert FlatItems(items) + Lexemes(t, p) == Lexemes(t, p);
      } else {
        items := ArgSound(t, p, args, rs);
      }
    }
  }

  lemma {:induction false} ArgSound(t: string, p: nat, args: seq<Span>, rs: seq<Redirection>)
    returns (items: seq<Item>)
    requires NUL !in t && p <= |t| && Rest(t, p, args, rs).Ok? && |args| < MAXARGS
    requires !Starts(Lexemes(t, p), "<>") && !Follow(Lexemes(t, p), "|)&;")
    ensures var r := Rest(t, p, args, rs);
      && FitsItems(items) && |args| + |ArgsOf(items)| < MAXARGS && Lexemes(t, p) == FlatItems(items) + Lexemes(t, r.pos)
      && Tree(t, r.cmd) == Simply(t, args, rs, items)
    decreases |t| - p, 0
  {
    RestArg(t, p, args, rs);
    First(t, p);
    var k, ls := GetToken(t, p), Lexemes(t, p);
    var w := Span(k.q, k.eq);
    var tail := SimpleSound(t, k.next, args + [w], rs);
    items := [Arg(Read(t, w))] + tail;
    assert ls == [ls[0]] + ls[1..];
    FlatNext(items, Lexemes(t, Rest(t, p, args, rs).pos));
    FitsMore(items[0], tail);
    SimplyArg(t, args, w, rs, items);
  }

  // ---- blocks, pipes and lists --------------------------------------------------------------

  // An operator other than a redirection
  predicate Single(op: string) {
    |op| == 1 && Symbol(op[0]) && op[0] != '<' && op[0] != '>'
  }

  lemma SingleIs(op: string, c: char)
    requires Single(op)
    ensures c in op <==> c == op[0]
    ensures forall d | d in op :: Symbol(d)
  {
  }

  lemma OpAhead(t: string, p: nat, op: string, tail: seq<Lexeme>)
    requires NUL !in t && p <= |t| && Single(op) && Lexemes(t, p) == [Op(op[0])] + tail
    ensures var p1 := GetToken(t, Skip(t, p)).next; Peek(t, p, op) && p < p1 && Lexemes(t, p1) == tail
  {
    var ls := Lexemes(t, p);
    assert ls[0] == Op(op[0]) && ls[1..] == tail;
    SingleIs(op, op[0]);
    PeekIs(t, p, op);
    First(t, p);
  }

  lemma OpSeen(t: string, p: nat, op: string)
    requires NUL !in t && p <= |t| && Single(op) && Peek(t, p, op)
    ensures var p1 := GetToken(t, Skip(t, p)).next; p < p1 && Lexemes(t, p) == [Op(op[0])] + Lexemes(t, p1)
  {
    PeekIs(t, p, op);
    First(t, p);
    var ls := Lexemes(t, p);
    SingleIs(op, if ls[0].c == '+' then '>' else ls[0].c);
    assert ls == [ls[0]] + ls[1..];
  }

  lemma NotBlock(items: seq<Item>, rest: seq<Lexeme>)
    requires FitsItems(items) && Follow(rest, "|)&;")
    ensures !Starts(FlatItems(items) + rest, "(")
  {
    if items == [] {
      assert FlatItems(items) + rest == rest;
    } else {
      FlatNext(items, rest);
      FitsNext(items);
    }
  }

  lemma {:induction false} AtomBack(t: string, p: nat, a: Atom, rest: seq<Lexeme>)
    requires NUL !in t && p <= |t| && FitsAtom(a) && Lexemes(t, p) == FlatAtom(a) + rest && Follow(rest, "|)&;")
    ensures ParsedAs(t, ParseExec(t, p), AtomMeans(a), rest)
    decreases a, 0
  {
    PeekIs(t, p, "(");
    First(t, p);
    match a
    case Simple(items) =>
      NotBlock(items, rest);
      SimpleBack(t, Skip(t, p), [], [], items, rest);
      assert Words(t, []) + ArgsOf(items) == ArgsOf(items) && Targets(t, []) + TargetsOf(items) == TargetsOf(items);
    case Block(inner, redirs) =>
      var tail := FlatItems(redirs) + rest;
      FlatBlock(inner, redirs, rest);
      OpAhead(t, Skip(t, p), "(", FlatChain(inner) + ([Op(')')] + tail));
      var p1 := GetToken(t, Skip(t, p)).next;
      ChainBack(t, p1, inner, [Op(')')] + tail);
      BlockBack(t, Skip(t, p), p1, inner, redirs, rest);
  }

  lemma FlatBlock(inner: Chain, redirs: seq<Item>, rest: seq<Lexeme>)
    ensures FlatAtom(Block(inner, redirs)) + rest ==
            [Op('(')] + (FlatChain(inner) + ([Op(')')] + (FlatItems(redirs) + rest)))
  {
    Assoc([Op('(')] + FlatChain(inner) + [Op(')')], FlatItems(redirs), rest);
    Middle([Op('(')], FlatChain(inner), [Op(')')], FlatItems(redirs) + rest);
  }

  lemma Follows(rest: seq<Lexeme>)
    ensures Follow(rest, ")") ==> Follow(rest, ")&;") && !Starts(rest, "&") && !Starts(rest, ";")
    ensures Follow(rest, ")&;") ==> Follow(rest, "|)&;") && !Starts(rest, "|")
    ensures Follow(rest, "|)&;") ==> !Starts(rest, "<>")
  {
  }

  // The closing parenthesis and the redirections of a block
  lemma BlockBack(t: string, p: nat, p1: nat, inner: Chain, redirs: seq<Item>, rest: seq<Lexeme>)
    requires NUL !in t && p <= |t| && Peek(t, p, "(") && p1 == GetToken(t, Skip(t, p)).next
    requires ParsedAs(t, ParseLine(t, p1), ChainMeans(inner), [Op(')')] + (FlatItems(redirs) + rest))
    requires FitsItems(redirs) && ArgsOf(redirs) == [] && Follow(rest, "|)&;")
    ensures ParsedAs(t, ParseBlock(t, p), Around(ChainMeans(inner), TargetsOf(redirs)), rest)
  {
    var r := ParseLine(t, p1);
    Follows(rest);
    OpAhead(t, r.pos, ")", FlatItems(redirs) + rest);
    var p2 := GetToken(t, Skip(t, r.pos)).next;
    RedirsBack(t, p2, [], redirs, rest);
    var rs := ParseRedirs(t, p2, []).rs;
    WrapMeans(t, r.cmd, rs);
    assert Targets(t, rs) == TargetsOf(redirs);
  }

  // A pipe or a list without a right side
  lemma NotJoined(t: string, bar: string, c: Cmd<Span>, p: nat, d: Parse)
    requires NUL !in t && p <= |t| && Single(bar) && !Starts(Lexemes(t, p), bar)
    ensures ParsedAs(t, Joined(t, bar, c, p, d), Tree(t, c), Lexemes(t, p))
  {
    SingleIs(bar, bar[0]);
    PeekIs(t, p, bar);
    First(t, p);
  }

  // and with one
  lemma JoinedAs(t: string, bar: string, c: Cmd<Span>, p: nat, d: Parse, m: Cmd<string>, rest: seq<Lexeme>)
    requires NUL !in t && p <= |t| && Peek(t, p, bar) && ParsedAs(t, d, m, rest)
    ensures bar == "|" ==> ParsedAs(t, Joined(t, bar, c, p, d), Pipe(Tree(t, c), m), rest)
    ensures bar == ";" ==> ParsedAs(t, Joined(t, bar, c, p, d), List(Tree(t, c), m), rest)
  {
  }

  lemma {:induction false} PipedBack(t: string, p: nat, x: Piped, rest: seq<Lexeme>)
    requires NUL !in t && p <= |t| && FitsPiped(x) && Lexemes(t, p) == FlatPiped(x) + rest && Follow(rest, ")&;")
    ensures ParsedAs(t, ParsePipe(t, p), PipedMeans(x), rest)
    decreases x, 1
  {
    PipeTurn(t, p);
    match x
    case Last(a) =>
      Follows(rest);
      AtomBack(t, p, a, rest);
      var r := ParseExec(t, p);
      NotJoined(t, "|", r.cmd, r.pos, ParsePipe(t, GetToken(t, Skip(t, r.pos)).next));
    case Bar(a, more) =>
      var tail := FlatPiped(more) + rest;
      Middle(FlatAtom(a), [Op('|')], FlatPiped(more), rest);
      AtomBack(t, p, a, [Op('|')] + tail);
      var r := ParseExec(t, p);
      BarBack(t, r.pos, r.cmd, more, rest);
  }

  lemma {:induction false} BarBack(t: string, p: nat, c: Cmd<Span>, more: Piped, rest: seq<Lexeme>)
    requires NUL !in t && p <= |t| && FitsPiped(more) && Follow(rest, ")&;")
    requires Lexemes(t, p) == [Op('|')] + (FlatPiped(more) + rest)
    ensures var d := ParsePipe(t, GetToken(t, Skip(t, p)).next);
      ParsedAs(t, Joined(t, "|", c, p, d), Pipe(Tree(t, c), PipedMeans(more)), rest)
    decreases more, 2
  {
    OpAhead(t, p, "|", FlatPiped(more) + rest);
    var p1 := GetToken(t, Skip(t, p)).next;
    PipedBack(t, p1, more, rest);
    JoinedAs(t, "|", c, p, ParsePipe(t, p1), PipedMeans(more), rest);
  }

  lemma AmpsNext(n: nat, rest: seq<Lexeme>)
    requires n > 0
    ensures Amps(n) + rest == [Op('&')] + (Amps(n - 1) + rest)
  {
    assert Amps(n) == [Op('&')] + Amps(n - 1);
  }

  lemma BacksTurn(t: string, p: nat, c: Cmd<Span>)
    requires NUL !in t && p <= |t|
    ensures var p1 := GetToken(t, Skip(t, p)).next;
      if Starts(Lexemes(t, p), "&")
      then Backs(t, p, c) == Backs(t, p1, Back(c)) && p < p1 && Lexemes(t, p) == [Op('&')] + Lexemes(t, p1)
      else Backs(t, p, c) == (c, Skip(t, p)) && Lexemes(t, Skip(t, p)) == Lexemes(t, p)
  {
    PeekIs(t, p, "&");
    First(t, p);
    if Peek(t, p, "&") {
      OpSeen(t, p, "&");
    }
  }

  lemma {:induction false} BacksTree(t: string, n: nat, c: Cmd<Span>)
    ensures Tree(t, BackTimes(n, c)) == BackTimes(n, Tree(t, c))
    decreases n
  {
    if n > 0 {
      BacksTree(t, n - 1, Back(c));
    }
  }

  lemma {:induction false} AmpsBack(t: string, p: nat, n: nat, c: Cmd<Span>, rest: seq<Lexeme>) returns (e: nat)
    requires NUL !in t && p <= |t| && Lexemes(t, p) == Amps(n) + rest && !Starts(rest, "&")
    ensures Backs(t, p, c) == (BackTimes(n, c), e) && e <= |t| && Lexemes(t, e) == rest
    decreases n
  {
    if n == 0 {
      NoAmps(rest);
      BacksTurn(t, p, c);
      e := Skip(t, p);
    } else {
      AmpsNext(n, rest);
      var p1 := OneAmp(t, p, c, Amps(n - 1) + rest);
      e := AmpsBack(t, p1, n - 1, Back(c), rest);
    }
  }

  lemma OneAmp(t: string, p: nat, c: Cmd<Span>, tail: seq<Lexeme>) returns (p1: nat)
    requires NUL !in t && p <= |t| && Lexemes(t, p) == [Op('&')] + tail
    ensures p < p1 <= |t| && Backs(t, p, c) == Backs(t, p1, Back(c)) && Lexemes(t, p1) == tail
  {
    p1 := GetToken(t, Skip(t, p)).next;
    OpAhead(t, p, "&", tail);
    BacksTurn(t, p, c);
  }

  // What comes after a pipeline
  function Tail(x: Chain, rest: seq<Lexeme>): (ls: seq<Lexeme>) {
    if x.End? then rest else [Op(';')] + (FlatChain(x.rest) + rest)
  }

  lemma FlatTail(x: Chain, rest: seq<Lexeme>)
    ensures FlatChain(x) + rest == FlatPiped(x.pipe) + (Amps(x.amps) + Tail(x, rest))
    ensures Follow(rest, ")") ==> Follow(Amps(x.amps) + Tail(x, rest), ")&;") && !Starts(Tail(x, rest), "&")
  {
    var a, b := FlatPiped(x.pipe), Amps(x.amps);
    match x
    case End(_, _) =>
      Assoc(a, b, rest);
    case Semi(_, _, more) =>
      Middle(a + b, [Op(';')], FlatChain(more), rest);
      Assoc(a, b, Tail(x, rest));
  }

  lemma {:induction false} ChainBack(t: string, p: nat, x: Chain, rest: seq<Lexeme>)
    requires NUL !in t && p <= |t| && FitsChain(x) && Lexemes(t, p) == FlatChain(x) + rest && Follow(rest, ")")
    ensures ParsedAs(t, ParseLine(t, p), ChainMeans(x), rest)
    decreases x, 1
  {
    FlatTail(x, rest);
    PipedBack(t, p, x.pipe, Amps(x.amps) + Tail(x, rest));
    var r := ParsePipe(t, p);
    var e := AmpsBack(t, r.pos, x.amps, r.cmd, Tail(x, rest));
    BacksTree(t, x.amps, r.cmd);
    LineTurn(t, p);
    ChainEnds(t, e, BackTimes(x.amps, r.cmd), x, rest);
  }

  // What comes after the ampersands
  lemma {:induction false} ChainEnds(t: string, p: nat, c: Cmd<Span>, x: Chain, rest: seq<Lexeme>)
    requires NUL !in t && p <= |t| && FitsChain(x) && Lexemes(t, p) == Tail(x, rest) && Follow(rest, ")")
    requires Tree(t, c) == BackTimes(x.amps, PipedMeans(x.pipe))
    ensures ParsedAs(t, Joined(t, ";", c, p, ParseLine(t, GetToken(t, Skip(t, p)).next)), ChainMeans(x), rest)
    decreases x, 0
  {
    var p1 := GetToken(t, Skip(t, p)).next;
    match x
    case End(_, _) =>
      Follows(rest);
      NotJoined(t, ";", c, p, ParseLine(t, p1));
    case Semi(_, _, more) =>
      OpAhead(t, p, ";", FlatChain(more) + rest);
      ChainBack(t, p1, more, rest);
      JoinedAs(t, ";", c, p, ParseLine(t, p1), ChainMeans(more), rest);
  }

  // ---- the other way -------------------------------------------------------------------------

  lemma {:induction false} AtomSound(t: string, p: nat) returns (a: Atom)
    requires NUL !in t && p <= |t| && ParseExec(t, p).Ok?
    ensures var r := ParseExec(t, p);
      FitsAtom(a) && Lexemes(t, p) == FlatAtom(a) + Lexemes(t, r.pos) && Tree(t, r.cmd) == AtomMeans(a)
    decreases |t| - p, 0
  {
    First(t, p);
    if Peek(t, p, "(") {
      OpSeen(t, p, "(");
      var p1 := GetToken(t, Skip(t, p)).next;
      var inner := ChainSound(t, p1);
      a := BlockSound(t, Skip(t, p), p1, inner);
    } else {
      assert ParseExec(t, p) == Rest(t, Skip(t, p), [], []);
      var items := SimpleSound(t, Skip(t, p), [], []);
      a := Simple(items);
      assert Words(t, []) + ArgsOf(items) == ArgsOf(items) && Targets(t, []) + TargetsOf(items) == TargetsOf(items);
    }
  }

  lemma BlockSound(t: string, p: nat, p1: nat, inner: Chain) returns (a: Atom)
    requires NUL !in t && p <= |t| && ParseBlock(t, p).Ok? && p1 == GetToken(t, Skip(t, p)).next && Skip(t, p) == p
    requires Lexemes(t, p) == [Op('(')] + Lexemes(t, p1) && ParseLine(t, p1).Ok? && FitsChain(inner)
    requires Lexemes(t, p1) == FlatChain(inner) + Lexemes(t, ParseLine(t, p1).pos)
    requires Tree(t, ParseLine(t, p1).cmd) == ChainMeans(inner)
    ensures var r := ParseBlock(t, p);
      FitsAtom(a) && Lexemes(t, p) == FlatAtom(a) + Lexemes(t, r.pos) && Tree(t, r.cmd) == AtomMeans(a)
  {
    var r := ParseLine(t, p1);
    OpSeen(t, r.pos, ")");
    var p2 := GetToken(t, Skip(t, r.pos)).next;
    var redirs := RedirsSound(t, p2, []);
    var rs := ParseRedirs(t, p2, []);
    WrapMeans(t, r.cmd, rs.rs);
    assert Targets(t, rs.rs) == TargetsOf(redirs);
    a := Block(inner, redirs);
    FlatBlock(inner, redirs, Lexemes(t, rs.pos));
  }

  lemma {:induction false} PipedSound(t: string, p: nat) returns (x: Piped)
    requires NUL !in t && p <= |t| && ParsePipe(t, p).Ok?
    ensures var r := ParsePipe(t, p);
      FitsPiped(x) && Lexemes(t, p) == FlatPiped(x) + Lexemes(t, r.pos) && Tree(t, r.cmd) == PipedMeans(x)
    decreases |t| - p, 1
  {
    PipeTurn(t, p);
    var a := AtomSound(t, p);
    var p1 := ParseExec(t, p).pos;
    First(t, p1);
    if Peek(t, p1, "|") {
      OpSeen(t, p1, "|");
      var more := PipedSound(t, GetToken(t, Skip(t, p1)).next);
      x := Bar(a, more);
      Middle(FlatAtom(a), [Op('|')], FlatPiped(more), Lexemes(t, ParsePipe(t, p).pos));
    } else {
      x := Last(a);
    }
  }

  lemma {:induction false} AmpsSound(t: string, p: nat, c: Cmd<Span>) returns (n: nat, e: nat)
    requires NUL !in t && p <= |t|
    ensures Backs(t, p, c) == (BackTimes(n, c), e) && e <= |t| && Lexemes(t, p) == Amps(n) + Lexemes(t, e)
    decreases |t| - p
  {
    BacksTurn(t, p, c);
    var ls := Lexemes(t, p);
    if Starts(ls, "&") {
      assert ls == [Op('&')] + ls[1..];
      var p1 := OneAmp(t, p, c, ls[1..]);
      var m;
      m, e := AmpsSound(t, p1, Back(c));
      n := m + 1;
      AmpsNext(n, Lexemes(t, e));
    } else {
      n, e := 0, Skip(t, p);
      NoAmps(ls);
    }
  }

  lemma NoAmps(rest: seq<Lexeme>)
    ensures Amps(0) + rest == rest
  {
  }

  lemma {:induction false} ChainSound(t: string, p: nat) returns (x: Chain)
    requires NUL !in t && p <= |t| && ParseLine(t, p).Ok?
    ensures var r := ParseLine(t, p);
      FitsChain(x) && Lexemes(t, p) == FlatChain(x) + Lexemes(t, r.pos) && Tree(t, r.cmd) == ChainMeans(x)
    decreases |t| - p, 2
  {
    LineTurn(t, p);
    var pipe := PipedSound(t, p);
    var r := ParsePipe(t, p);
    var n, e := AmpsSound(t, r.pos, r.cmd);
    BacksTree(t, n, r.cmd);
    var p1 := GetToken(t, Skip(t, e)).next;
    if Peek(t, e, ";") {
      OpSeen(t, e, ";");
      var more := ChainSound(t, p1);
      x := Semi(pipe, n, more);
    } else {
      x := End(pipe, n);
    }
    EndSound(t, e, BackTimes(n, r.cmd), x, ParseLine(t, p1));
    FlatTail(x, Lexemes(t, ParseLine(t, p).pos));
  }

  // What comes after the ampersands
  lemma EndSound(t: string, p: nat, c: Cmd<Span>, x: Chain, d: Parse)
    requires NUL !in t && p <= |t| && Tree(t, c) == BackTimes(x.amps, PipedMeans(x.pipe))
    requires Peek(t, p, ";") <==> x.Semi?
    requires x.Semi? ==> d.Ok? && d.pos <= |t| && Tree(t, d.cmd) == ChainMeans(x.rest)
    requires x.Semi? ==> Lexemes(t, p) == [Op(';')] + (FlatChain(x.rest) + Lexemes(t, d.pos))
    ensures var r := Joined(t, ";", c, p, d);
      r.Ok? && r.pos <= |t| && Tree(t, r.cmd) == ChainMeans(x) && Lexemes(t, p) == Tail(x, Lexemes(t, r.pos))
  {
    First(t, p);
  }

  // ---- the theorem ---------------------------------------------------------------------------

  // x derives the text.
  ghost predicate Derives(x: Chain, t: string) {
    FitsChain(x) && FlatChain(x) == Lexemes(t, 0)
  }

  // A text parses exactly if a tree of productions derives it, and to what that tree means.
  lemma Grammar(t: string)
    requires NUL !in t
    ensures ParseCmd(t).Ok? <==> exists x :: Derives(x, t)
    ensures forall x | Derives(x, t) :: Tree(t, ParseCmd(t).cmd) == ChainMeans(x)
  {
    forall x | Derives(x, t) ensures ParseCmd(t).Ok? && Tree(t, ParseCmd(t).cmd) == ChainMeans(x) {
      assert FlatChain(x) + [] == FlatChain(x);
      ChainBack(t, 0, x, []);
      First(t, ParseLine(t, 0).pos);
    }
    if ParseCmd(t).Ok? {
      var x := ChainSound(t, 0);
      First(t, ParseLine(t, 0).pos);
      assert FlatChain(x) + [] == FlatChain(x);
      assert Derives(x, t);
    }
  }

  // ---- texts of lexemes ----------------------------------------------------------------------

  predicate Blank(c: char) {
    c == ' ' || c == '\t' || c == '\r' || c == '\n' || c as int == 11
  }

  predicate Operator(c: char) {
    c == '<' || c == '|' || c == '>' || c == '&' || c == ';' || c == '(' || c == ')'
  }

  predicate Proper(w: string) {
    w != "" && forall k | 0 <= k < |w| :: !Blank(w[k]) && !Operator(w[k]) && w[k] != NUL
  }

  predicate Lexical(x: Lexeme) {
    match x
    case Name(w) => Proper(w)
    case Op(c) => Operator(c) || c == '+'
  }

  function Text(x: Lexeme): (s: string) {
    match x
    case Name(w) => w
    case Op(c) => if c == '+' then ">>" else [c]
  }

  // Two words, and > before another >, must not touch.
  predicate Apart(x: Lexeme, y: Lexeme) {
    if x.Name? then y.Name? else x.c == '>' && y.Op? && (y.c == '>' || y.c == '+')
  }

  // White space before, between and after the lexemes
  predicate Spaced(ls: seq<Lexeme>, gaps: seq<string>) {
    && |gaps| == |ls| + 1 && (forall k | 0 <= k < |gaps[0]| :: Blank(gaps[0][k]))
    && (ls != [] ==> Spaced(ls[1..], gaps[1..]) && (|ls| > 1 && Apart(ls[0], ls[1]) ==> gaps[1] != ""))
  }

  predicate AllLexical(ls: seq<Lexeme>) {
    forall i | 0 <= i < |ls| :: Lexical(ls[i])
  }

  function Render(ls: seq<Lexeme>, gaps: seq<string>): (t: string)
    requires |gaps| == |ls| + 1
  {
    if ls == [] then gaps[0] else gaps[0] + (Text(ls[0]) + Render(ls[1..], gaps[1..]))
  }

  // What the text starts with
  lemma RenderFirst(ls: seq<Lexeme>, gaps: seq<string>)
    requires Spaced(ls, gaps) && AllLexical(ls)
    ensures var t := Render(ls, gaps);
      if gaps[0] != "" then t != "" && t[0] == gaps[0][0] && Blank(t[0])
      else if ls == [] then t == ""
      else t != "" && Text(ls[0]) != "" && t[0] == Text(ls[0])[0]
  {
    if ls != [] {
      assert Lexical(ls[0]) && Text(ls[0]) != "";
    }
  }

  // What may follow a lexeme
  lemma Separated(ls: seq<Lexeme>, gaps: seq<string>)
    requires Spaced(ls, gaps) && AllLexical(ls) && ls != []
    ensures var tail := Render(ls[1..], gaps[1..]);
      && (tail != "" && ls[0].Name? ==> Blank(tail[0]) || Operator(tail[0]))
      && (tail != "" && ls[0] == Op('>') ==> tail[0] != '>')
  {
    RenderFirst(ls[1..], gaps[1..]);
    if |ls| > 1 {
      assert Lexical(ls[1]) && ls[1..][0] == ls[1];
    }
  }

  lemma {:induction false} SkipGap(t: string, p: nat, q: nat)
    requires p <= q <= |t| && (forall k | p <= k < q :: Blank(t[k])) && (q < |t| ==> !Blank(t[q]))
    ensures Skip(t, p) == q
    decreases q - p
  {
    if p < q {
      SkipGap(t, p + 1, q);
    }
  }

  lemma {:induction false} WordEndAt(t: string, p: nat, e: nat)
    requires p <= e <= |t| && (forall k | p <= k < e :: !Blank(t[k]) && !Operator(t[k]))
    requires e < |t| ==> Blank(t[e]) || Operator(t[e])
    ensures WordEnd(t, p) == e
    decreases e - p
  {
    if p < e {
      WordEndAt(t, p + 1, e);
    }
  }

  // A part of the text
  lemma Part(t: string, p: nat, a: string, b: string)
    requires p <= |t| && t[p..] == a + b
    ensures p + |a| <= |t| && t[p..p + |a|] == a && t[p + |a|..] == b
    ensures if b == "" then p + |a| == |t| else p + |a| < |t| && t[p + |a|] == b[0]
  {
    assert t[p..][..|a|] == a && t[p..][|a|..] == b;
  }

  lemma PartAt(t: string, p: nat, a: string, k: nat)
    requires p <= k < p + |a| <= |t| && t[p..p + |a|] == a
    ensures t[k] == a[k - p]
  {
    assert t[p..p + |a|][k - p] == t[k];
  }

  // A lexeme at q, with what follows it
  ghost predicate TokenIs(t: string, q: nat, x: Lexeme) {
    q < |t| && !Blank(t[q]) && GetToken(t, q).kind != NUL && GetToken(t, q).eq == q + |Text(x)| &&
    LexemeOf(t, GetToken(t, q)) == x
  }

  lemma NameAt(t: string, q: nat, w: string, tail: string)
    requires q <= |t| && Proper(w) && t[q..] == w + tail && (tail != "" ==> Blank(tail[0]) || Operator(tail[0]))
    ensures TokenIs(t, q, Name(w))
  {
    Part(t, q, w, tail);
    forall k | q <= k < q + |w| ensures !Blank(t[k]) && !Operator(t[k]) && t[k] != NUL {
      PartAt(t, q, w, k);
    }
    WordEndAt(t, q, q + |w|);
  }

  lemma OpAt(t: string, q: nat, c: char, tail: string)
    requires q <= |t| && (Operator(c) || c == '+') && t[q..] == Text(Op(c)) + tail
    requires tail != "" && c == '>' ==> tail[0] != '>'
    ensures TokenIs(t, q, Op(c))
  {
    var s := Text(Op(c));
    Part(t, q, s, tail);
    PartAt(t, q, s, q);
    if c == '+' {
      PartAt(t, q, s, q + 1);
    }
  }

  // A text made of lexemes has these lexemes, whatever the white space between them.
  lemma {:induction false} LexBack(t: string, p: nat, ls: seq<Lexeme>, gaps: seq<string>)
    requires p <= |t| && Spaced(ls, gaps) && AllLexical(ls) && t[p..] == Render(ls, gaps)
    ensures Lexemes(t, p) == ls
    decreases |ls|
  {
    if ls == [] {
      LexEnd(t, p, gaps[0]);
    } else {
      var e := LexHead(t, p, ls, gaps);
      LexBack(t, e, ls[1..], gaps[1..]);
    }
  }

  lemma LexEnd(t: string, p: nat, g: string)
    requires p <= |t| && t[p..] == g && forall k | 0 <= k < |g| :: Blank(g[k])
    ensures Lexemes(t, p) == []
  {
    assert g == g + "";
    Part(t, p, g, "");
    GapAt(t, p, g);
  }

  lemma LexHead(t: string, p: nat, ls: seq<Lexeme>, gaps: seq<string>) returns (e: nat)
    requires p <= |t| && Spaced(ls, gaps) && AllLexical(ls) && t[p..] == Render(ls, gaps) && ls != []
    ensures e <= |t| && Lexemes(t, p) == [ls[0]] + Lexemes(t, e) && t[e..] == Render(ls[1..], gaps[1..])
    ensures AllLexical(ls[1..]) && ls == [ls[0]] + ls[1..]
  {
    Separated(ls, gaps);
    e := LexemeAt(t, p, gaps[0], ls[0], Render(ls[1..], gaps[1..]));
  }

  lemma TokenHere(t: string, q: nat, x: Lexeme, tail: string)
    requires q <= |t| && t[q..] == Text(x) + tail && Lexical(x)
    requires tail != "" && x.Name? ==> Blank(tail[0]) || Operator(tail[0])
    requires tail != "" && x == Op('>') ==> tail[0] != '>'
    ensures TokenIs(t, q, x)
  {
    match x
    case Name(w) => NameAt(t, q, w, tail);
    case Op(c) => OpAt(t, q, c, tail);
  }

  // White space g, the lexeme x, and the rest of the text
  lemma LexemeAt(t: string, p: nat, g: string, x: Lexeme, tail: string) returns (e: nat)
    requires p <= |t| && t[p..] == g + (Text(x) + tail) && Lexical(x) && forall k | 0 <= k < |g| :: Blank(g[k])
    requires tail != "" && x.Name? ==> Blank(tail[0]) || Operator(tail[0])
    requires tail != "" && x == Op('>') ==> tail[0] != '>'
    ensures e <= |t| && Lexemes(t, p) == [x] + Lexemes(t, e) && t[e..] == tail
  {
    var q;
    q, e := Parts(t, p, g, Text(x), tail);
    TokenHere(t, q, x, tail);
    GapAt(t, p, g);
    LexedAt(t, q, x, e);
    LexNext(t, p, q, x, e);
  }

  lemma Parts(t: string, p: nat, a: string, b: string, c: string) returns (q: nat, e: nat)
    requires p <= |t| && t[p..] == a + (b + c)
    ensures q == p + |a| && e == q + |b| <= |t| && t[p..q] == a && t[q..] == b + c && t[e..] == c
  {
    Part(t, p, a, b + c);
    q := p + |a|;
    Part(t, q, b, c);
    e := q + |b|;
  }

  lemma GapAt(t: string, p: nat, g: string)
    requires p + |g| <= |t| && t[p..p + |g|] == g && (forall k | 0 <= k < |g| :: Blank(g[k]))
    requires p + |g| < |t| ==> !Blank(t[p + |g|])
    ensures Skip(t, p) == p + |g|
  {
    forall k | p <= k < p + |g| ensures Blank(t[k]) {
      PartAt(t, p, g, k);
    }
    SkipGap(t, p, p + |g|);
  }

  lemma LexNext(t: string, p: nat, q: nat, x: Lexeme, e: nat)
    requires p <= |t| && Skip(t, p) == q && e <= |t| && Lexemes(t, q) == [x] + Lexemes(t, Skip(t, e))
    ensures Lexemes(t, p) == [x] + Lexemes(t, e)
  {
    LexSkip(t, p);
    LexSkip(t, e);
  }

  lemma LexedAt(t: string, q: nat, x: Lexeme, e: nat)
    requires q <= |t| && TokenIs(t, q, x) && e == q + |Text(x)| <= |t|
    ensures Lexemes(t, q) == [x] + Lexemes(t, Skip(t, e))
  {
    TokenLexed(t, q, GetToken(t, q));
  }

  lemma TokenLexed(t: string, q: nat, k: Tok)
    requires q <= |t| && k == GetToken(t, q) && k.kind != NUL
    ensures Lexemes(t, q) == [LexemeOf(t, k)] + Lexemes(t, Skip(t, k.eq))
  {
    TokenEnds(t, q);
    LexFirst(t, q, k);
  }

  lemma LexFirst(t: string, p: nat, k: Tok)
    requires p <= |t| && k == GetToken(t, p) && k.kind != NUL
    ensures Lexemes(t, p) == [LexemeOf(t, k)] + Lexemes(t, k.next)
  {
  }

  lemma LexSkip(t: string, p: nat)
    requires p <= |t|
    ensures Lexemes(t, Skip(t, p)) == Lexemes(t, p)
  {
    TokenSkips(t, p);
  }

  lemma {:induction false} NoNul(ls: seq<Lexeme>, gaps: seq<string>)
    requires Spaced(ls, gaps) && AllLexical(ls)
    ensures NUL !in Render(ls, gaps)
    decreases |ls|
  {
    assert NUL !in gaps[0];
    if ls != [] {
      assert Lexical(ls[0]);
      assert NUL !in Text(ls[0]);
      NoNul(ls[1..], gaps[1..]);
    }
  }

  // ---- the round trips -------------------------------------------------------------------------

  // Every tree of productions, written with any white space, parses to what it means: words and
  // redirections in any order, pipes and lists with and without parentheses.
  lemma Rendered(x: Chain, gaps: seq<string>)
    requires FitsChain(x) && AllLexical(FlatChain(x)) && Spaced(FlatChain(x), gaps)
    ensures var t := Render(FlatChain(x), gaps); ParseCmd(t).Ok? && Tree(t, ParseCmd(t).cmd) == ChainMeans(x)
  {
    var t := Render(FlatChain(x), gaps);
    NoNul(FlatChain(x), gaps);
    LexBack(t, 0, FlatChain(x), gaps);
    assert Derives(x, t);
    Grammar(t);
  }

  // Every command has a tree: what is not a list of words goes into parentheses.
  function Alone(a: Atom): (x: Chain) {
    End(Last(a), 0)
  }

  function ArgItems(ws: seq<string>): (items: seq<Item>) {
    if ws == [] then [] else [Arg(ws[0])] + ArgItems(ws[1..])
  }

  function ChainOf(c: Cmd<string>): (x: Chain) {
    match c
    case Exec(args) => Alone(Simple(ArgItems(args)))
    case Redir(d, file, mode) => Alone(Block(ChainOf(d), [To(if mode == RDONLY then '<' else '>', file)]))
    case Pipe(l, r) => End(Bar(Block(ChainOf(l), []), Last(Block(ChainOf(r), []))), 0)
    case List(l, r) => Semi(Last(Block(ChainOf(l), [])), 0, Alone(Block(ChainOf(r), [])))
    case Back(d) => End(Last(Block(ChainOf(d), [])), 1)
  }

  predicate Printable(c: Cmd<string>) {
    match c
    case Exec(args) => |args| < MAXARGS && forall i | 0 <= i < |args| :: Proper(args[i])
    case Redir(d, file, _) => Printable(d) && Proper(file)
    case Pipe(l, r) => Printable(l) && Printable(r)
    case List(l, r) => Printable(l) && Printable(r)
    case Back(d) => Printable(d)
  }

  lemma {:induction false} ArgItemsMean(ws: seq<string>)
    ensures ArgsOf(ArgItems(ws)) == ws && TargetsOf(ArgItems(ws)) == []
    ensures forall i | 0 <= i < |ArgItems(ws)| :: ArgItems(ws)[i].Arg?
    ensures |FlatItems(ArgItems(ws))| == |ws| && forall i | 0 <= i < |ws| :: FlatItems(ArgItems(ws))[i] == Name(ws[i])
    decreases |ws|
  {
    if ws != [] {
      ArgItemsMean(ws[1..]);
      FlatNext(ArgItems(ws), []);
      assert ArgItems(ws)[1..] == ArgItems(ws[1..]);
    }
  }

  lemma LexicalBoth(a: seq<Lexeme>, b: seq<Lexeme>)
    requires AllLexical(a) && AllLexical(b)
    ensures AllLexical(a + b)
  {
  }

  lemma AloneMeans(a: Atom)
    requires FitsAtom(a) && AllLexical(FlatAtom(a))
    ensures FitsChain(Alone(a)) && ChainMeans(Alone(a)) == AtomMeans(a) && FlatChain(Alone(a)) == FlatAtom(a)
  {
  }

  lemma AloneFlat(a: Atom)
    ensures FlatChain(Alone(a)) == FlatAtom(a) && (FitsAtom(a) ==> FitsChain(Alone(a)))
  {
  }

  // The command of x in parentheses, with nothing or one redirection behind it
  lemma BlockAlone(x: Chain)
    requires FitsChain(x) && AllLexical(FlatChain(x))
    ensures var a := Block(x, []); FitsAtom(a) && AtomMeans(a) == ChainMeans(x) && AllLexical(FlatAtom(a))
  {
    FlatBlock(x, [], []);
    LexicalBoth(FlatChain(x), [Op(')')]);
    LexicalBoth([Op('(')], FlatChain(x) + [Op(')')]);
  }

  lemma BlockTo(x: Chain, i: Item)
    requires FitsChain(x) && AllLexical(FlatChain(x)) && i.To? && i.op in "<>+" && Proper(i.file)
    ensures var a := Block(x, [i]);
      && FitsAtom(a) && AllLexical(FlatAtom(a))
      && AtomMeans(a) == Redir(ChainMeans(x), i.file, TargetOf(i).mode)
  {
    FlatNext([i], []);
    assert FitsItems([i]) && TargetsOf([i]) == [TargetOf(i)] && ArgsOf([i]) == [];
    assert Around(Redir(ChainMeans(x), i.file, TargetOf(i).mode), []) == Redir(ChainMeans(x), i.file, TargetOf(i).mode);
    LexicalBoth([Op('(')], FlatChain(x));
    LexicalBoth([Op('(')] + FlatChain(x), [Op(')')]);
    LexicalBoth([Op('(')] + FlatChain(x) + [Op(')')], FlatItems([i]));
  }

  lemma {:induction false} ChainOfMeans(c: Cmd<string>)
    requires Printable(c)
    ensures ChainMeans(ChainOf(c)) == c && FitsChain(ChainOf(c)) && AllLexical(FlatChain(ChainOf(c)))
    decreases c
  {
    match c
    case Exec(args) =>
      ArgItemsMean(args);
      AloneMeans(Simple(ArgItems(args)));
    case Redir(d, file, mode) =>
      ChainOfMeans(d);
      var i := To(if mode == RDONLY then '<' else '>', file);
      BlockTo(ChainOf(d), i);
      AloneMeans(Block(ChainOf(d), [i]));
    case Pipe(l, r) =>
      ChainOfMeans(l);
      ChainOfMeans(r);
      PipeAlone(ChainOf(l), ChainOf(r));
    case List(l, r) =>
      ChainOfMeans(l);
      ChainOfMeans(r);
      ListAlone(ChainOf(l), ChainOf(r));
    case Back(d) =>
      ChainOfMeans(d);
      BackAlone(ChainOf(d));
  }

  lemma PipeAlone(l: Chain, r: Chain)
    requires FitsChain(l) && AllLexical(FlatChain(l)) && FitsChain(r) && AllLexical(FlatChain(r))
    ensures var x := End(Bar(Block(l, []), Last(Block(r, []))), 0);
      ChainMeans(x) == Pipe(ChainMeans(l), ChainMeans(r)) && FitsChain(x) && AllLexical(FlatChain(x))
  {
    BlockAlone(l);
    BlockAlone(r);
    LexicalBoth(FlatAtom(Block(l, [])), [Op('|')]);
    LexicalBoth(FlatAtom(Block(l, [])) + [Op('|')], FlatAtom(Block(r, [])));
    var p := Bar(Block(l, []), Last(Block(r, [])));
    assert PipedMeans(p.rest) == ChainMeans(r) && FlatPiped(p.rest) == FlatAtom(Block(r, []));
    assert FlatPiped(p) + Amps(0) == FlatPiped(p);
  }

  lemma ListAlone(l: Chain, r: Chain)
    requires FitsChain(l) && AllLexical(FlatChain(l)) && FitsChain(r) && AllLexical(FlatChain(r))
    ensures var x := Semi(Last(Block(l, [])), 0, Alone(Block(r, [])));
      ChainMeans(x) == List(ChainMeans(l), ChainMeans(r)) && FitsChain(x) && AllLexical(FlatChain(x))
  {
    BlockAlone(l);
    BlockAlone(r);
    AloneMeans(Block(r, []));
    LexicalBoth(FlatAtom(Block(l, [])), [Op(';')]);
    LexicalBoth(FlatAtom(Block(l, [])) + [Op(';')], FlatAtom(Block(r, [])));
    assert FlatAtom(Block(l, [])) + Amps(0) == FlatAtom(Block(l, []));
  }

  lemma BackAlone(d: Chain)
    requires FitsChain(d) && AllLexical(FlatChain(d))
    ensures var x := End(Last(Block(d, [])), 1);
      ChainMeans(x) == Back(ChainMeans(d)) && FitsChain(x) && AllLexical(FlatChain(x))
  {
    BlockAlone(d);
    LexicalBoth(FlatAtom(Block(d, [])), Amps(1));
    assert BackTimes(0, Back(ChainMeans(d))) == Back(ChainMeans(d));
  }

  // The round trip: every command of proper words has texts, and each parses to the command.
  lemma RoundTrip(c: Cmd<string>, gaps: seq<string>)
    requires Printable(c) && Spaced(FlatChain(ChainOf(c)), gaps)
    ensures var t := Render(FlatChain(ChainOf(c)), gaps); ParseCmd(t).Ok? && Tree(t, ParseCmd(t).cmd) == c
  {
    ChainOfMeans(c);
    Rendered(ChainOf(c), gaps);
  }

  // ---- too many words --------------------------------------------------------------------------

  function Names(ws: seq<string>): (ls: seq<Lexeme>) {
    seq(|ws|, i requires 0 <= i < |ws| => Name(ws[i]))
  }

  lemma {:induction false} NamesOnly(items: seq<Item>)
    requires forall i | 0 <= i < |FlatItems(items)| :: FlatItems(items)[i].Name?
    ensures |FlatItems(items)| == |ArgsOf(items)|
    decreases |items|
  {
    if items != [] {
      FlatNext(items, []);
      var tail := FlatItems(items[1..]);
      assert FlatItems(items) == FlatItem(items[0]) + tail;
      forall i | 0 <= i < |tail| ensures tail[i].Name? {
        assert tail[i] == FlatItems(items)[|FlatItem(items[0])| + i];
      }
      assert FlatItems(items)[0].Name?;
      NamesOnly(items[1..]);
    }
  }

  lemma AmpsIn(n: nat)
    ensures n > 0 ==> Op('&') in Amps(n)
  {
    if n > 0 {
      assert Amps(n)[0] == Op('&');
    }
  }

  // Words alone are a simple command.
  lemma PlainOnly(x: Chain, ls: seq<Lexeme>)
    requires FitsChain(x) && FlatChain(x) == ls && forall i | 0 <= i < |ls| :: ls[i].Name?
    ensures |ls| < MAXARGS
  {
    assert Op(';') !in ls && Op('&') !in ls && Op('|') !in ls && Op('(') !in ls;
    assert x.Semi? ==> Op(';') in FlatChain(x);
    AmpsIn(x.amps);
    assert x.amps > 0 ==> Op('&') in FlatChain(x);
    assert FlatPiped(x.pipe) == ls;
    assert x.pipe.Bar? ==> Op('|') in FlatPiped(x.pipe);
    assert x.pipe.atom.Block? ==> Op('(') in FlatAtom(x.pipe.atom);
    assert FlatItems(x.pipe.atom.items) == ls;
    assert FitsPiped(x.pipe) && FitsAtom(x.pipe.atom);
    NamesOnly(x.pipe.atom.items);
  }

  lemma NamesDerived(ws: seq<string>, t: string)
    requires |ws| < MAXARGS && Lexemes(t, 0) == Names(ws)
    ensures Derives(Alone(Simple(ArgItems(ws))), t)
  {
    var items := ArgItems(ws);
    ArgItemsMean(ws);
    assert FlatItems(items) == Names(ws);
    assert FitsAtom(Simple(items)) && FlatAtom(Simple(items)) == Names(ws);
    AloneFlat(Simple(items));
  }

  // A list of plain words parses exactly if there are fewer than MAXARGS of them.
  lemma ArgLimit(ws: seq<string>, gaps: seq<string>)
    requires (forall i | 0 <= i < |ws| :: Proper(ws[i])) && Spaced(Names(ws), gaps)
    ensures ParseCmd(Render(Names(ws), gaps)).Ok? <==> |ws| < MAXARGS
  {
    var t := Render(Names(ws), gaps);
    NoNul(Names(ws), gaps);
    LexBack(t, 0, Names(ws), gaps);
    Grammar(t);
    if |ws| < MAXARGS {
      NamesDerived(ws, t);
    } else if ParseCmd(t).Ok? {
      var x :| Derives(x, t);
      PlainOnly(x, Names(ws));
    }
  }
}
