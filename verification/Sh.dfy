// sh.c's parser: a cursor that moves through the text, loops over tokens, and
// NUL-termination of the words in place.
module Sh {
  import opened ShSpec
  import S = ShSpec
  import G = ShGrammar

  class Parser {
    const t: string
    var s: nat      // *ps

    constructor (t: string)
      ensures this.t == t && s == 0
    {
      this.t := t;
      s := 0;
    }

    method SkipWhite()
      requires s <= |t|
      modifies this
      ensures s == S.Skip(t, old(s))
    {
      while s < |t| && White(t[s])
        invariant s <= |t| && S.Skip(t, s) == S.Skip(t, old(s))
      {
        s := s + 1;
      }
    }

    // gettoken
    method GetToken() returns (ret: char, q: nat, eq: nat)
      requires s <= |t|
      modifies this
      ensures Tok(ret, q, eq, s) == S.GetToken(t, old(s)) && s <= |t|
    {
      SkipWhite();
      q, ret := s, At(t, s);
      if ret == NUL {
      } else if ret == '|' || ret == '(' || ret == ')' || ret == ';' || ret == '&' || ret == '<' {
        s := s + 1;
      } else if ret == '>' {
        s := s + 1;
        if At(t, s) == '>' {
          ret := '+';
          s := s + 1;
        }
      } else {
        ret := 'a';
        while s < |t| && !White(t[s]) && !Symbol(t[s])
          invariant q <= s <= |t| && WordEnd(t, s) == WordEnd(t, q)
        {
          s := s + 1;
        }
      }
      eq := s;
      SkipWhite();
    }

    // peek
    method Peek(toks: string) returns (b: bool)
      requires s <= |t|
      modifies this
      ensures s == S.Skip(t, old(s)) && b == S.Peek(t, old(s), toks)
    {
      SkipWhite();
      b := At(t, s) != NUL && At(t, s) in toks;
    }

    // parseredirs; false for a panic. rs are the redirections around the command so far.
    method ParseRedirs(rs0: seq<Redirection>) returns (ok: bool, rs: seq<Redirection>)
      requires s <= |t|
      modifies this
      ensures s <= |t| && ok == S.ParseRedirs(t, old(s), rs0).RedirsOk?
      ensures ok ==> RedirsOk(rs, s) == S.ParseRedirs(t, old(s), rs0)
    {
      rs := rs0;
      var more := Peek("<>");
      while more
        invariant s <= |t| && S.Skip(t, s) == s && more == S.Peek(t, s, "<>")
        invariant S.ParseRedirs(t, s, rs) == S.ParseRedirs(t, old(s), rs0)
        decreases |t| - s
      {
        var tok, _, _ := GetToken();
        var kind, q, eq := GetToken();
        if kind != 'a' {
          return false, rs;
        }
        rs := rs + [Redirection(Span(q, eq), if tok == '<' then RDONLY else WRONLY_CREATE)];
        more := Peek("<>");
      }
      ok := true;
    }

    method ParseBlock() returns (ok: bool, cmd: Cmd<Span>)
      requires s <= |t|
      modifies this
      ensures s <= |t| && ok == S.ParseBlock(t, old(s)).Ok? && (ok ==> S.ParseBlock(t, old(s)) == Ok(cmd, s))
      decreases |t| - s, 0
    {
      var b := Peek("(");
      if !b {
        return false, Exec([]);
      }
      var _, _, _ := GetToken();
      ok, cmd := ParseLine();
      if !ok {
        return;
      }
      b := Peek(")");
      if !b {
        return false, cmd;
      }
      var _, _, _ := GetToken();
      var rs;
      ok, rs := ParseRedirs([]);
      cmd := Wrap(cmd, rs);
    }

    method ParseExec() returns (ok: bool, cmd: Cmd<Span>)
      requires s <= |t|
      modifies this
      ensures s <= |t| && ok == S.ParseExec(t, old(s)).Ok? && (ok ==> S.ParseExec(t, old(s)) == Ok(cmd, s))
      decreases |t| - s, 1
    {
      var block := Peek("(");
      if block {
        ok, cmd := ParseBlock();
        return;
      }
      cmd := Exec([]);
      var rs;
      ok, rs := ParseRedirs([]);
      if ok {
        ok, cmd := ParseArgs(rs);
      }
    }

    // One turn of parseexec's loop
    method NextArg(args0: seq<Span>, rs0: seq<Redirection>)
      returns (ok: bool, end: bool, args: seq<Span>, rs: seq<Redirection>)
      requires s <= |t| && !S.Peek(t, s, "|)&;") && S.Skip(t, s) == s
      modifies this
      ensures s <= |t| && (!ok ==> S.ParseArgs(t, old(s), args0, rs0).Panic?)
      ensures ok && end ==> args == args0 && rs == rs0
      ensures ok && end ==> S.ParseArgs(t, old(s), args, rs) == Ok(Wrap(Exec(args), rs), s)
      ensures ok && !end ==> s > old(s) && S.ParseArgs(t, old(s), args0, rs0) == S.ParseArgs(t, s, args, rs)
    {
      args, rs, end := args0, rs0, false;
      var tok, q, eq := GetToken();
      if tok == NUL {
        return true, true, args, rs;
      }
      if tok != 'a' {
        return false, end, args, rs;
      }
      args := args + [Span(q, eq)];
      if |args| >= MAXARGS {
        return false, end, args, rs;
      }
      ok, rs := ParseRedirs(rs);
    }

    // The loop of parseexec
    method ParseArgs(rs0: seq<Redirection>) returns (ok: bool, cmd: Cmd<Span>)
      requires s <= |t|
      modifies this
      ensures s <= |t| && ok == S.ParseArgs(t, old(s), [], rs0).Ok?
      ensures ok ==> S.ParseArgs(t, old(s), [], rs0) == Ok(cmd, s)
    {
      var args, rs: seq<Redirection> := [], rs0;
      cmd := Exec([]);
      var end := Peek("|)&;");
      while !end
        invariant s <= |t| &&
          (S.ParseArgs(t, old(s), [], rs0) == if end then Ok(Wrap(Exec(args), rs), s) else S.ParseArgs(t, s, args, rs))
        invariant !end ==> S.Skip(t, s) == s && !S.Peek(t, s, "|)&;")
        decreases |t| - s, !end
      {
        ok, end, args, rs := NextArg(args, rs);
        if !ok {
          return;
        }
        if !end {
          end := Peek("|)&;");
        }
      }
      ok, cmd := true, Wrap(Exec(args), rs);
    }

    method ParsePipe() returns (ok: bool, cmd: Cmd<Span>)
      requires s <= |t|
      modifies this
      ensures s <= |t| && ok == S.ParsePipe(t, old(s)).Ok? && (ok ==> S.ParsePipe(t, old(s)) == Ok(cmd, s))
      decreases |t| - s, 2
    {
      ok, cmd := ParseExec();
      if !ok {
        return;
      }
      var bar := Peek("|");
      if bar {
        var _, _, _ := GetToken();
        var right;
        ok, right := ParsePipe();
        cmd := Pipe(cmd, right);
      }
    }

    method ParseLine() returns (ok: bool, cmd: Cmd<Span>)
      requires s <= |t|
      modifies this
      ensures s <= |t| && ok == S.ParseLine(t, old(s)).Ok? && (ok ==> S.ParseLine(t, old(s)) == Ok(cmd, s))
      decreases |t| - s, 3
    {
      ok, cmd := ParsePipe();
      if !ok {
        return;
      }
      cmd := ParseBacks(cmd);
      var semi := Peek(";");
      if semi {
        var _, _, _ := GetToken();
        var right;
        ok, right := ParseLine();
        cmd := List(cmd, right);
      }
    }

    // The loop of parseline
    method ParseBacks(cmd0: Cmd<Span>) returns (cmd: Cmd<Span>)
      requires s <= |t|
      modifies this
      ensures s <= |t| && (cmd, s) == Backs(t, old(s), cmd0)
    {
      cmd := cmd0;
      var back := Peek("&");
      while back
        invariant s <= |t| && S.Skip(t, s) == s && back == S.Peek(t, s, "&")
        invariant Backs(t, s, cmd) == Backs(t, old(s), cmd0)
        decreases |t| - s, back
      {
        var _, _, _ := GetToken();
        cmd := Back(cmd);
        back := Peek("&");
      }
    }
  }

  // nulterminate
  method Nulterminate(buf: array<char>, cmd: Cmd<Span>, ghost t: string)
    requires |t| < buf.Length && Terminated(t, buf[..|t| + 1]) && TreeOk(t, cmd)
    modifies buf
    ensures Terminated(t, buf[..|t| + 1]) && AllEnded(buf[..|t| + 1], cmd)
    ensures forall k | 0 <= k < buf.Length && old(buf[k]) == NUL :: buf[k] == NUL
    decreases cmd
  {
    match cmd
    case Exec(args) =>
      var i := 0;
      while i < |args|
        invariant 0 <= i <= |args| && Terminated(t, buf[..|t| + 1])
        invariant forall j | 0 <= j < i :: buf[args[j].eq] == NUL
        invariant forall k | 0 <= k < buf.Length && old(buf[k]) == NUL :: buf[k] == NUL
      {
        PutNul(buf, args[i], t);
        i := i + 1;
      }
    case Redir(d, file, _) =>
      Nulterminate(buf, d, t);
      ghost var b := buf[..|t| + 1];
      PutNul(buf, file, t);
      StillEnded(b, buf[..|t| + 1], d);
    case Pipe(l, r) =>
      Nulterminate(buf, l, t);
      ghost var b := buf[..|t| + 1];
      Nulterminate(buf, r, t);
      StillEnded(b, buf[..|t| + 1], l);
    case List(l, r) =>
      Nulterminate(buf, l, t);
      ghost var b := buf[..|t| + 1];
      Nulterminate(buf, r, t);
      StillEnded(b, buf[..|t| + 1], l);
    case Back(d) =>
      Nulterminate(buf, d, t);
  }

  // *eq = 0
  method PutNul(buf: array<char>, w: Span, ghost t: string)
    requires |t| < buf.Length && Terminated(t, buf[..|t| + 1]) && SpanOk(t, w)
    modifies buf
    ensures Terminated(t, buf[..|t| + 1]) && buf[w.eq] == NUL
    ensures forall k | 0 <= k < buf.Length && k != w.eq :: buf[k] == old(buf[k])
  {
    buf[w.eq] := NUL;
  }

  // parsecmd: the tree, whose words are then the C strings in the buffer; false for a panic. It
  // is the command that the grammar gives the text.
  method Parsecmd(buf: array<char>, ghost t: string) returns (ok: bool, cmd: Cmd<Span>)
    requires NUL !in t && |t| < buf.Length && buf[..|t|] == t && buf[|t|] == NUL
    modifies buf
    ensures ok <==> ParseCmd(t).Ok?
    ensures ok ==> ParseCmd(t) == Ok(cmd, |t|) && CTree(buf[..|t| + 1], cmd) == Tree(t, cmd)
    ensures ok <==> exists x :: G.Derives(x, t)
    ensures forall x | G.Derives(x, t) :: CTree(buf[..|t| + 1], cmd) == G.ChainMeans(x)
    ensures !ok ==> buf[..] == old(buf[..])
  {
    G.Grammar(t);
    var n := 0;
    while buf[n] != NUL      // strlen
      invariant 0 <= n <= |t|
      decreases |t| - n
    {
      assert buf[n] == buf[..|t|][n];
      n := n + 1;
    }
    var p := new Parser(buf[..n]);
    ok, cmd := p.ParseLine();
    if !ok {
      return;
    }
    var _ := p.Peek("");
    if p.s != n {
      return false, cmd;
    }
    LineOk(t, 0);
    Nulterminate(buf, cmd, t);
    TreeTerminated(t, buf[..|t| + 1], cmd);
  }
}
