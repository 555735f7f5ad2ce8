// grep.c's matcher against a declarative reading of its patterns.
module Grep {
  // ---- what a pattern means --------------------------------------------------------------

  datatype Item = One(c: char) | Star(c: char)

  datatype Regex = Regex(items: seq<Item>, ends: bool)   // ends: only at the end of the text

  // c* before anything else; $ ends the text only in last place; every other character,
  // a leading * and misplaced ^ and $ among them, stands for itself.
  function Items(re: string): (x: Regex) {
    if re == "" then Regex([], false)
    else if |re| > 1 && re[1] == '*' then
      var x := Items(re[2..]);
      Regex([Star(re[0])] + x.items, x.ends)
    else if re == "$" then Regex([], true)
    else
      var x := Items(re[1..]);
      Regex([One(re[0])] + x.items, x.ends)
  }

  predicate Hit(c: char, x: char) {
    c == '.' || c == x
  }

  // The piece s of the text fits the item.
  predicate Fits(it: Item, s: string) {
    match it
    case One(c) => |s| == 1 && Hit(c, s[0])
    case Star(c) => forall k | 0 <= k < |s| :: Hit(c, s[k])
  }

  function Concat(pieces: seq<string>): (s: string) {
    if pieces == [] then "" else pieces[0] + Concat(pieces[1..])
  }

  // s is cut into pieces, one for each item.
  ghost predicate Cut(items: seq<Item>, pieces: seq<string>, s: string) {
    |pieces| == |items| && Concat(pieces) == s && forall k | 0 <= k < |items| :: Fits(items[k], pieces[k])
  }

  ghost predicate InLanguage(items: seq<Item>, s: string) {
    exists pieces :: Cut(items, pieces, s)
  }

  // The text from i to j is in the pattern's language, and reaches the end if it has to.
  ghost predicate Found(x: Regex, text: string, i: nat, j: nat) {
    i <= j <= |text| && InLanguage(x.items, text[i..j]) && (x.ends ==> j == |text|)
  }

  ghost predicate FoundAt(x: Regex, text: string, i: nat) {
    exists j :: Found(x, text, i, j)
  }

  ghost predicate Meaning(re: string, text: string) {
    if re != "" && re[0] == '^' then FoundAt(Items(re[1..]), text, 0)
    else exists i :: FoundAt(Items(re), text, i)
  }

  // ---- the matcher ------------------------------------------------------------------------

  predicate MatchHere(re: string, text: string)
    decreases |re|, 0, 0
  {
    if re == "" then true
    else if |re| > 1 && re[1] == '*' then MatchStar(re[0], re[2..], text)
    else if re == "$" then text == ""
    else text != "" && Hit(re[0], text[0]) && MatchHere(re[1..], text[1..])
  }

  predicate MatchStar(c: char, re: string, text: string)
    decreases |re|, 1, |text|
  {
    MatchHere(re, text) || (text != "" && Hit(c, text[0]) && MatchStar(c, re, text[1..]))
  }

  method Matchhere(re: string, text: string) returns (r: bool)
    ensures r == MatchHere(re, text)
    decreases |re|, 0
  {
    if re == "" {
      return true;
    }
    if |re| > 1 && re[1] == '*' {
      r := Matchstar(re[0], re[2..], text);
      return;
    }
    if re[0] == '$' && |re| == 1 {
      return text == "";
    }
    if text != "" && (re[0] == '.' || re[0] == text[0]) {
      r := Matchhere(re[1..], text[1..]);
      return;
    }
    r := false;
  }

  method Matchstar(c: char, re: string, text: string) returns (r: bool)
    ensures r == MatchStar(c, re, text)
    decreases |re|, 1
  {
    var i := 0;
    while true
      invariant 0 <= i <= |text| && MatchStar(c, re, text) == MatchStar(c, re, text[i..])
      decreases |text| - i
    {
      r := Matchhere(re, text[i..]);
      if r {
        return;
      }
      if i == |text| || !(text[i] == c || c == '.') {
        return;
      }
      assert text[i..][1..] == text[i + 1..];
      i := i + 1;
    }
  }

  // match: 1 exactly when the pattern means some part of the text
  method Match(re: string, text: string) returns (r: bool)
    ensures r <==> Meaning(re, text)
  {
    if re != "" && re[0] == '^' {
      r := Matchhere(re[1..], text);
      HereMeans(re[1..], text, 0);
      assert text[0..] == text;
      return;
    }
    var i := 0;
    while true
      invariant 0 <= i <= |text| && forall k | 0 <= k < i :: !FoundAt(Items(re), text, k)
      decreases |text| - i
    {
      r := Matchhere(re, text[i..]);
      HereMeans(re, text, i);
      if r {
        return;
      }
      if i == |text| {
        return;
      }
      i := i + 1;
    }
  }

  // ---- the two agree ------------------------------------------------------------------------

  // Some prefix of the text, all of it if ends is set, is in the language.
  ghost predicate Prefix(items: seq<Item>, ends: bool, text: string) {
    exists j | 0 <= j <= |text| :: InLanguage(items, text[..j]) && (ends ==> j == |text|)
  }

  lemma PrefixNone(text: string)
    ensures Prefix([], false, text) && (Prefix([], true, text) <==> text == "")
  {
    assert Cut([], [], text[..0]);
    assert text == "" ==> text[..|text|] == "";
  }

  // s is a followed by b, with a fitting the first item.
  ghost predicate Split(it: Item, items: seq<Item>, s: string, a: string, b: string) {
    s == a + b && Fits(it, a) && InLanguage(items, b)
  }

  lemma SplitIn(it: Item, items: seq<Item>, s: string, a: string, b: string)
    requires Split(it, items, s, a, b)
    ensures InLanguage([it] + items, s)
  {
    var rest :| Cut(items, rest, b);
    var pieces := [a] + rest;
    assert pieces[1..] == rest;
    assert Cut([it] + items, pieces, s);
  }

  lemma InSplit(it: Item, items: seq<Item>, s: string) returns (a: string, b: string)
    requires InLanguage([it] + items, s)
    ensures Split(it, items, s, a, b)
  {
    var all := [it] + items;
    var pieces :| Cut(all, pieces, s);
    var rest := pieces[1..];
    a, b := pieces[0], Concat(rest);
    assert Fits(all[0], pieces[0]);
    forall i | 0 <= i < |items| ensures Fits(items[i], rest[i]) {
      assert Fits(all[i + 1], pieces[i + 1]);
    }
    assert Cut(items, rest, b);
  }

  lemma PrefixOne(c: char, items: seq<Item>, ends: bool, text: string)
    ensures Prefix([One(c)] + items, ends, text) <==> text != "" && Hit(c, text[0]) && Prefix(items, ends, text[1..])
  {
    if Prefix([One(c)] + items, ends, text) {
      var j :| 0 <= j <= |text| && InLanguage([One(c)] + items, text[..j]) && (ends ==> j == |text|);
      var a, b := InSplit(One(c), items, text[..j]);
      assert a[0] == text[..j][0] && b == text[..j][1..];
      assert text[..j][1..] == text[1..][..j - 1];
    }
    if text != "" && Hit(c, text[0]) && Prefix(items, ends, text[1..]) {
      var j :| 0 <= j <= |text[1..]| && InLanguage(items, text[1..][..j]) && (ends ==> j == |text[1..]|);
      assert text[..j + 1] == [text[0]] + text[1..][..j];
      SplitIn(One(c), items, text[..j + 1], [text[0]], text[1..][..j]);
    }
  }

  lemma StarFrom(c: char, items: seq<Item>, s: string)
    requires InLanguage([Star(c)] + items, s)
    ensures InLanguage(items, s) || (s != "" && Hit(c, s[0]) && InLanguage([Star(c)] + items, s[1..]))
  {
    var a, b := InSplit(Star(c), items, s);
    if a == "" {
      assert s == b;
    } else {
      var a1 := a[1..];
      assert s[1..] == a1 + b && s[0] == a[0];
      SplitIn(Star(c), items, s[1..], a1, b);
    }
  }

  lemma StarNone(c: char, items: seq<Item>, s: string)
    requires InLanguage(items, s)
    ensures InLanguage([Star(c)] + items, s)
  {
    assert s == "" + s;
    SplitIn(Star(c), items, s, "", s);
  }

  lemma StarMore(c: char, items: seq<Item>, s: string)
    requires s != "" && Hit(c, s[0]) && InLanguage([Star(c)] + items, s[1..])
    ensures InLanguage([Star(c)] + items, s)
  {
    var a, b := InSplit(Star(c), items, s[1..]);
    assert s == ([s[0]] + a) + b;
    SplitIn(Star(c), items, s, [s[0]] + a, b);
  }

  lemma StarIn(c: char, items: seq<Item>, s: string)
    ensures InLanguage([Star(c)] + items, s) <==>
      InLanguage(items, s) || (s != "" && Hit(c, s[0]) && InLanguage([Star(c)] + items, s[1..]))
  {
    if InLanguage([Star(c)] + items, s) {
      StarFrom(c, items, s);
    }
    if InLanguage(items, s) {
      StarNone(c, items, s);
    }
    if s != "" && Hit(c, s[0]) && InLanguage([Star(c)] + items, s[1..]) {
      StarMore(c, items, s);
    }
  }

  lemma PrefixStar(c: char, items: seq<Item>, ends: bool, text: string)
    ensures Prefix([Star(c)] + items, ends, text) <==>
      Prefix(items, ends, text) || (text != "" && Hit(c, text[0]) && Prefix([Star(c)] + items, ends, text[1..]))
  {
    var all := [Star(c)] + items;
    if Prefix(all, ends, text) {
      var j :| 0 <= j <= |text| && InLanguage(all, text[..j]) && (ends ==> j == |text|);
      StarIn(c, items, text[..j]);
      if !InLanguage(items, text[..j]) {
        assert text[..j][1..] == text[1..][..j - 1];
      }
    }
    if Prefix(items, ends, text) {
      var j :| 0 <= j <= |text| && InLanguage(items, text[..j]) && (ends ==> j == |text|);
      StarIn(c, items, text[..j]);
    }
    if text != "" && Hit(c, text[0]) && Prefix(all, ends, text[1..]) {
      var j :| 0 <= j <= |text[1..]| && InLanguage(all, text[1..][..j]) && (ends ==> j == |text[1..]|);
      assert text[..j + 1][1..] == text[1..][..j] && text[..j + 1][0] == text[0];
      StarIn(c, items, text[..j + 1]);
    }
  }

  lemma {:induction false} HereIs(re: string, text: string)
    ensures MatchHere(re, text) <==> Prefix(Items(re).items, Items(re).ends, text)
    decreases |re|, 0, 0
  {
    if re == "" || re == "$" {
      PrefixNone(text);
    } else if |re| > 1 && re[1] == '*' {
      StarIs(re[0], re[2..], text);
    } else {
      var x := Items(re[1..]);
      PrefixOne(re[0], x.items, x.ends, text);
      if text != "" {
        HereIs(re[1..], text[1..]);
      }
    }
  }

  lemma {:induction false} StarIs(c: char, re: string, text: string)
    ensures MatchStar(c, re, text) <==> Prefix([Star(c)] + Items(re).items, Items(re).ends, text)
    decreases |re|, 1, |text|
  {
    HereIs(re, text);
    PrefixStar(c, Items(re).items, Items(re).ends, text);
    if text != "" {
      StarIs(c, re, text[1..]);
    }
  }

  lemma HereMeans(re: string, text: string, i: nat)
    requires i <= |text|
    ensures MatchHere(re, text[i..]) <==> FoundAt(Items(re), text, i)
  {
    var x := Items(re);
    HereIs(re, text[i..]);
    if FoundAt(x, text, i) {
      var j: nat :| Found(x, text, i, j);
      assert text[i..][..j - i] == text[i..j];
    }
    if Prefix(x.items, x.ends, text[i..]) {
      var j :| 0 <= j <= |text[i..]| && InLanguage(x.items, text[i..][..j]) && (x.ends ==> j == |text[i..]|);
      assert text[i..][..j] == text[i..i + j];
      assert Found(x, text, i, i + j);
    }
  }
}
