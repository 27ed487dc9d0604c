/** The matcher of user/grep.c against the language that a pattern denotes. Strings are sequences
    without the terminating NUL. */
module Regex {
  // ---- what a pattern means --------------------------------------------------------------

  datatype Item = One(c: char) | Star(c: char)

  predicate Fits(c: char, x: char) { c == '.' || c == x }

  /** The items of a pattern without ^. A final $ that is not starred is no item. */
  function Items(re: string): seq<Item> {
    if re == "" || re == "$" then []
    else if |re| > 1 && re[1] == '*' then [Star(re[0])] + Items(re[2..])
    else [One(re[0])] + Items(re[1..])
  }

  /** The pattern ends in a $ that stands for the end of the text. */
  predicate ToEnd(re: string) {
    if re == "" then false
    else if re == "$" then true
    else if |re| > 1 && re[1] == '*' then ToEnd(re[2..])
    else ToEnd(re[1..])
  }

  predicate InItem(it: Item, t: string) {
    match it
    case One(c) => |t| == 1 && Fits(c, t[0])
    case Star(c) => forall i :: 0 <= i < |t| ==> Fits(c, t[i])
  }

  function Joined(pieces: seq<string>): string {
    if pieces == [] then "" else pieces[0] + Joined(pieces[1..])
  }

  predicate Splits(items: seq<Item>, t: string, pieces: seq<string>) {
    |pieces| == |items| && Joined(pieces) == t && forall i :: 0 <= i < |items| ==> InItem(items[i], pieces[i])
  }

  /** t consists of one piece for each item. */
  ghost predicate InLang(items: seq<Item>, t: string) { exists pieces :: Splits(items, t, pieces) }

  /** The part of text from i to j matches re, which has no ^. */
  ghost predicate Spans(re: string, text: string, i: int, j: int) {
    0 <= i <= j <= |text| && InLang(Items(re), text[i..j]) && (ToEnd(re) ==> j == |text|)
  }

  ghost predicate Here(re: string, text: string, i: int) { exists j :: Spans(re, text, i, j) }

  /** Some part of text, at its beginning after ^, is in the language of re. */
  ghost predicate Matches(re: string, text: string) {
    if re != "" && re[0] == '^' then exists j :: Spans(re[1..], text, 0, j) else exists i, j :: Spans(re, text, i, j)
  }

  // ---- one item at a time ----------------------------------------------------------------

  lemma FirstItem(items: seq<Item>, t: string)
    requires items != []
    ensures InLang(items, t) <==> exists k :: 0 <= k <= |t| && InItem(items[0], t[..k]) && InLang(items[1..], t[k..])
  {
    if InLang(items, t) {
      var pieces :| Splits(items, t, pieces);
      var k := |pieces[0]|;
      assert t[..k] == pieces[0] && t[k..] == Joined(pieces[1..]);
      assert Splits(items[1..], t[k..], pieces[1..]);
    }
    if k :| 0 <= k <= |t| && InItem(items[0], t[..k]) && InLang(items[1..], t[k..]) {
      var pieces :| Splits(items[1..], t[k..], pieces);
      assert t[..k] + t[k..] == t;
      assert Splits(items, t, [t[..k]] + pieces);
    }
  }

  lemma NoItems(t: string)
    ensures InLang([], t) <==> t == ""
  {
    assert t == "" ==> Splits([], t, []);
  }

  lemma HereEmpty(text: string, i: int)
    requires 0 <= i <= |text|
    ensures Here("", text, i)
  {
    NoItems(text[i..i]);
    assert Spans("", text, i, i);
  }

  lemma HereEnd(text: string, i: int)
    requires 0 <= i <= |text|
    ensures Here("$", text, i) <==> i == |text|
  {
    NoItems(text[i..|text|]);
    assert i == |text| ==> Spans("$", text, i, i);
  }

  predicate Plain(re: string) { re != "" && re != "$" && !(|re| > 1 && re[1] == '*') }

  lemma HereOne(re: string, text: string, i: int)
    requires Plain(re) && 0 <= i <= |text|
    ensures Here(re, text, i) <==> i < |text| && Fits(re[0], text[i]) && Here(re[1..], text, i + 1)
  {
    var items := Items(re);
    assert items[1..] == Items(re[1..]);
    if j :| Spans(re, text, i, j) {
      var t := text[i..j];
      FirstItem(items, t);
      assert t[..1] == [text[i]] && t[1..] == text[i + 1..j];
      assert Spans(re[1..], text, i + 1, j);
    }
    if i < |text| && Fits(re[0], text[i]) && Here(re[1..], text, i + 1) {
      var j :| Spans(re[1..], text, i + 1, j);
      var t := text[i..j];
      assert t[..1] == [text[i]] && t[1..] == text[i + 1..j];
      FirstItem(items, t);
      assert Spans(re, text, i, j);
    }
  }

  /** text from i to k fits the starred character. */
  predicate Run(c: char, text: string, i: int, k: int) {
    0 <= i <= k <= |text| && forall x :: i <= x < k ==> Fits(c, text[x])
  }

  lemma HereStar(re: string, text: string, i: int)
    requires |re| > 1 && re[1] == '*' && 0 <= i <= |text|
    ensures Here(re, text, i) <==> exists k :: Run(re[0], text, i, k) && Here(re[2..], text, k)
  {
    var items := Items(re);
    assert items[1..] == Items(re[2..]);
    if j :| Spans(re, text, i, j) {
      var t := text[i..j];
      FirstItem(items, t);
      var n :| 0 <= n <= |t| && InItem(items[0], t[..n]) && InLang(items[1..], t[n..]);
      assert t[n..] == text[i + n..j];
      forall x | i <= x < i + n ensures Fits(re[0], text[x]) { assert text[x] == t[..n][x - i]; }
      assert Spans(re[2..], text, i + n, j);
      assert Run(re[0], text, i, i + n);
    }
    if k :| Run(re[0], text, i, k) && Here(re[2..], text, k) {
      var j :| Spans(re[2..], text, k, j);
      var t := text[i..j];
      assert t[k - i..] == text[k..j];
      assert InItem(items[0], t[..k - i]);
      FirstItem(items, t);
      assert Spans(re, text, i, j);
    }
  }

  // ---- the matcher -----------------------------------------------------------------------

  /** matchhere */
  method MatchHere(re: string, text: string, i: nat) returns (r: bool)
    requires i <= |text|
    ensures r <==> Here(re, text, i)
    decreases |re|, 0
  {
    if re == "" {
      HereEmpty(text, i);
      return true;
    }
    if |re| > 1 && re[1] == '*' {
      HereStar(re, text, i);
      r := MatchStar(re[0], re[2..], text, i);
      return;
    }
    if re == "$" {
      HereEnd(text, i);
      return i == |text|;
    }
    HereOne(re, text, i);
    if i < |text| && (re[0] == '.' || re[0] == text[i]) {
      r := MatchHere(re[1..], text, i + 1);
      return;
    }
    return false;
  }

  /** matchstar */
  method MatchStar(c: char, re: string, text: string, i: nat) returns (r: bool)
    requires i <= |text|
    ensures r <==> exists k :: Run(c, text, i, k) && Here(re, text, k)
    decreases |re|, 1
  {
    var k := i;
    while true
      invariant Run(c, text, i, k)
      invariant forall x :: i <= x < k ==> !Here(re, text, x)
      decreases |text| - k
    {
      var found := MatchHere(re, text, k);
      if found { return true; }
      if k == |text| || !(text[k] == c || c == '.') { return false; }
      k := k + 1;
    }
  }

  /** match */
  method Match(re: string, text: string) returns (r: bool)
    ensures r <==> Matches(re, text)
  {
    if re != "" && re[0] == '^' {
      r := MatchHere(re[1..], text, 0);
      return;
    }
    var i := 0;
    while true
      invariant 0 <= i <= |text|
      invariant forall x :: 0 <= x < i ==> !Here(re, text, x)
      decreases |text| - i
    {
      var found := MatchHere(re, text, i);
      if found { return true; }
      if i == |text| { break; }
      i := i + 1;
    }
    forall x, j | Spans(re, text, x, j) ensures false { assert Here(re, text, x); }
    return false;
  }

  // ---- what that comes to for simple patterns --------------------------------------------

  predicate Literal(re: string) { forall i :: 0 <= i < |re| ==> re[i] !in {'.', '*', '^', '$'} }

  predicate Occurs(w: string, text: string, i: int) { 0 <= i && i + |w| <= |text| && text[i..i + |w|] == w }

  /** A pattern of ordinary characters, and one with $ behind them, at position i. */
  lemma {:induction false} HereLiteral(re: string, text: string, i: int)
    requires Literal(re) && 0 <= i <= |text|
    ensures Here(re, text, i) <==> Occurs(re, text, i)
    ensures Here(re + "$", text, i) <==> Occurs(re, text, i) && i + |re| == |text|
    decreases |re|
  {
    if re == "" {
      HereEmpty(text, i);
      HereEnd(text, i);
      assert re + "$" == "$";
    } else {
      assert Plain(re) && Plain(re + "$") && (re + "$")[1..] == re[1..] + "$" && (re + "$")[0] == re[0];
      HereOne(re, text, i);
      HereOne(re + "$", text, i);
      if i < |text| {
        HereLiteral(re[1..], text, i + 1);
        OccursStep(re, text, i);
      }
    }
  }

  lemma OccursStep(w: string, text: string, i: int)
    requires w != "" && 0 <= i < |text|
    ensures Occurs(w, text, i) <==> text[i] == w[0] && Occurs(w[1..], text, i + 1)
  {
    if Occurs(w, text, i) {
      assert text[i] == text[i..i + |w|][0];
      assert text[i + 1..i + |w|] == text[i..i + |w|][1..];
    }
    if text[i] == w[0] && Occurs(w[1..], text, i + 1) {
      assert text[i..i + |w|] == [w[0]] + w[1..];
    }
  }

  lemma LiteralAnywhere(re: string, text: string)
    requires Literal(re)
    ensures Matches(re, text) <==> exists i :: Occurs(re, text, i)
  {
    MatchesHere(re, text);
    forall i | 0 <= i <= |text| ensures Here(re, text, i) <==> Occurs(re, text, i) { HereLiteral(re, text, i); }
  }

  lemma LiteralAtEnd(re: string, text: string)
    requires Literal(re)
    ensures Matches(re + "$", text) <==> Occurs(re, text, |text| - |re|)
  {
    MatchesHere(re + "$", text);
    forall i | 0 <= i <= |text| ensures Here(re + "$", text, i) <==> Occurs(re, text, i) && i == |text| - |re| {
      HereLiteral(re, text, i);
    }
  }

  lemma FromStart(re: string, text: string)
    ensures Matches("^" + re, text) <==> Here(re, text, 0)
  {
    assert ("^" + re)[1..] == re;
  }

  /** Ordinary characters are found wherever they occur; ^ and $ tie them to the two ends. */
  lemma LiteralMatches(re: string, text: string)
    requires Literal(re)
    ensures Matches(re, text) <==> exists i :: Occurs(re, text, i)
    ensures Matches("^" + re, text) <==> Occurs(re, text, 0)
    ensures Matches(re + "$", text) <==> Occurs(re, text, |text| - |re|)
    ensures Matches("^" + (re + "$"), text) <==> text == re
  {
    LiteralAnywhere(re, text);
    LiteralAtEnd(re, text);
    FromStart(re, text);
    FromStart(re + "$", text);
    HereLiteral(re, text, 0);
    assert |text| == |re| ==> text[0..|re|] == text;
  }

  lemma MatchesHere(re: string, text: string)
    requires re == "" || re[0] != '^'
    ensures Matches(re, text) <==> exists i :: 0 <= i <= |text| && Here(re, text, i)
  {
    if i, j :| Spans(re, text, i, j) { assert Here(re, text, i); }
  }

  /** . is any character, and c* any number of them. */
  lemma DotAndStar(c: char, text: string)
    ensures Matches(".", text) <==> text != ""
    ensures Matches("^.$", text) <==> |text| == 1
    ensures Matches("^" + [c, '*'] + "$", text) <==> c == '.' || forall i :: 0 <= i < |text| ==> text[i] == c
  {
    MatchesHere(".", text);
    forall i | 0 <= i <= |text| ensures Here(".", text, i) <==> i < |text| {
      HereOne(".", text, i);
      if i < |text| { HereEmpty(text, i + 1); }
    }
    assert text != "" ==> Here(".", text, 0);
    assert "^.$"[1..] == ".$" && ".$"[1..] == "$";
    assert Matches("^.$", text) <==> Here(".$", text, 0);
    HereOne(".$", text, 0);
    if text != "" { HereEnd(text, 1); }
    StarToEnd(c, text);
  }

  lemma StarToEnd(c: char, text: string)
    ensures Matches("^" + [c, '*'] + "$", text) <==> c == '.' || forall i :: 0 <= i < |text| ==> text[i] == c
  {
    var re := [c, '*'] + "$";
    assert ("^" + [c, '*'] + "$")[1..] == re && re[2..] == "$" && re[0] == c && re[1] == '*';
    assert Matches("^" + [c, '*'] + "$", text) <==> Here(re, text, 0);
    HereStar(re, text, 0);
    forall k | 0 <= k <= |text| ensures Here("$", text, k) <==> k == |text| { HereEnd(text, k); }
    assert Here("$", text, |text|);
  }
}
