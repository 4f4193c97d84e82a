/**
 grep's regular-expression matcher, against the languages its patterns denote.
 Patterns and texts are the characters before the terminating NUL.
 */
module Grep {
  // ---- the matcher --------------------------------------------------------

  predicate Fits(c: char, t: char) {
    c == '.' || c == t
  }

  function MatchHere(re: string, text: string): (r: bool)
    decreases |re|, 0
  {
    if re == [] then true
    else if |re| > 1 && re[1] == '*' then MatchStar(re[0], re[2..], text)
    else if re == "$" then text == []
    else text != [] && Fits(re[0], text[0]) && MatchHere(re[1..], text[1..])
  }

  function MatchStar(c: char, re: string, text: string): (r: bool)
    decreases |re|, |text| + 1
  {
    MatchHere(re, text) || (text != [] && Fits(c, text[0]) && MatchStar(c, re, text[1..]))
  }

  // ---- what patterns mean -------------------------------------------------

  /** One character, or any number of them, that fit c. */
  datatype Item = One(c: char) | Many(c: char)

  /** A sequence of items, perhaps to be matched up to the end of the text. */
  datatype Pattern = Pattern(items: seq<Item>, toEnd: bool)

  /** The pattern a string spells, after any leading ^. */
  function Spelled(re: string): (p: Pattern)
    decreases |re|
  {
    if re == [] then Pattern([], false)
    else if |re| > 1 && re[1] == '*' then Before(Many(re[0]), Spelled(re[2..]))
    else if re == "$" then Pattern([], true)
    else Before(One(re[0]), Spelled(re[1..]))
  }

  function Before(it: Item, p: Pattern): (r: Pattern) {
    Pattern([it] + p.items, p.toEnd)
  }

  /** The strings of one item. */
  predicate InItem(it: Item, w: string) {
    && (it.One? ==> |w| == 1)
    && forall i :: 0 <= i < |w| ==> Fits(it.c, w[i])
  }

  function Concat(ws: seq<string>): (s: string) {
    if ws == [] then [] else ws[0] + Concat(ws[1..])
  }

  ghost predicate Pieces(items: seq<Item>, ws: seq<string>) {
    |ws| == |items| && forall i :: 0 <= i < |ws| ==> InItem(items[i], ws[i])
  }

  /** The language of a sequence of items: concatenations of one string of each. */
  ghost predicate Lang(items: seq<Item>, s: string) {
    exists ws :: Pieces(items, ws) && Concat(ws) == s
  }

  /** Some prefix of the text is in the language; all of it, if the pattern goes to the end. */
  ghost predicate Accepts(p: Pattern, text: string) {
    exists n :: 0 <= n <= |text| && Lang(p.items, text[..n]) && (p.toEnd ==> n == |text|)
  }

  // ---- languages by their first item --------------------------------------

  lemma LangEmpty(s: string)
    ensures Lang([], s) <==> s == []
  {
    if s == [] { assert Pieces([], []) && Concat([]) == s; }
  }

  lemma LangSplit(it: Item, rest: seq<Item>, s: string) returns (k: nat)
    requires Lang([it] + rest, s)
    ensures k <= |s| && InItem(it, s[..k]) && Lang(rest, s[k..])
  {
    var ws :| Pieces([it] + rest, ws) && Concat(ws) == s;
    k := |ws[0]|;
    assert s[..k] == ws[0] && s[k..] == Concat(ws[1..]);
    assert ([it] + rest)[0] == it;
    assert Pieces(rest, ws[1..]) by {
      assert forall i :: 0 <= i < |rest| ==> rest[i] == ([it] + rest)[i + 1];
    }
  }

  lemma LangJoin(it: Item, rest: seq<Item>, s: string, k: nat)
    requires k <= |s| && InItem(it, s[..k]) && Lang(rest, s[k..])
    ensures Lang([it] + rest, s)
  {
    var ws :| Pieces(rest, ws) && Concat(ws) == s[k..];
    var all := [s[..k]] + ws;
    assert all[1..] == ws && Concat(all) == s[..k] + s[k..] == s;
    assert Pieces([it] + rest, all) by {
      assert forall i :: 0 < i < |all| ==> all[i] == ws[i - 1] && ([it] + rest)[i] == rest[i - 1];
    }
  }

  /** The item takes the first k characters and the pattern accepts the rest. */
  ghost predicate Takes(it: Item, p: Pattern, text: string, k: int) {
    0 <= k <= |text| && InItem(it, text[..k]) && Accepts(p, text[k..])
  }

  /** A text is accepted when its start is a string of the first item and the rest is accepted. */
  lemma AcceptsBefore(it: Item, p: Pattern, text: string)
    ensures Accepts(Before(it, p), text) <==> exists k :: Takes(it, p, text, k)
  {
    if Accepts(Before(it, p), text) {
      var n :| 0 <= n <= |text| && Lang(Before(it, p).items, text[..n]) && (p.toEnd ==> n == |text|);
      var k := LangSplit(it, p.items, text[..n]);
      AcceptsAfter(p, text, k, n);
      assert text[..n][..k] == text[..k];
      assert Takes(it, p, text, k);
    }
    if k :| Takes(it, p, text, k) {
      var n := AcceptedLength(p, text, k);
      assert text[..n][..k] == text[..k];
      LangJoin(it, p.items, text[..n], k);
    }
  }

  lemma AcceptsAfter(p: Pattern, text: string, k: nat, n: nat)
    requires k <= n <= |text| && Lang(p.items, text[..n][k..]) && (p.toEnd ==> n == |text|)
    ensures Accepts(p, text[k..])
  {
    assert text[..n][k..] == text[k..][..n - k];
  }

  lemma AcceptedLength(p: Pattern, text: string, k: nat) returns (n: nat)
    requires k <= |text| && Accepts(p, text[k..])
    ensures k <= n <= |text| && Lang(p.items, text[..n][k..]) && (p.toEnd ==> n == |text|)
  {
    var m :| 0 <= m <= |text[k..]| && Lang(p.items, text[k..][..m]) && (p.toEnd ==> m == |text[k..]|);
    n := k + m;
    assert text[..n][k..] == text[k..][..m];
  }

  lemma AcceptsNothing(toEnd: bool, text: string)
    ensures Accepts(Pattern([], toEnd), text) <==> (toEnd ==> text == [])
  {
    LangEmpty(text[..0]);
    LangEmpty(text[..|text|]);
    if !toEnd || text == [] { assert Lang([], text[..0]); }
  }

  // ---- the matcher is right -----------------------------------------------

  lemma TakesOneMore(c: char, p: Pattern, text: string, k: int)
    requires text != []
    ensures Takes(Many(c), p, text, k + 1) && k >= 0 <==> Fits(c, text[0]) && Takes(Many(c), p, text[1..], k)
  {
    if 0 <= k < |text| {
      assert text[k + 1..] == text[1..][k..];
      assert text[..k + 1] == [text[0]] + text[1..][..k];
      assert forall i :: 0 <= i < k ==> text[1..][..k][i] == text[..k + 1][i + 1];
      assert InItem(Many(c), text[..k + 1]) ==> Fits(c, text[..k + 1][0]);
    }
  }

  lemma TakesNone(c: char, p: Pattern, text: string)
    ensures Takes(Many(c), p, text, 0) <==> Accepts(p, text)
  {
    assert text[0..] == text;
  }

  /** c* then the rest of the pattern, by the number of characters c* takes. */
  lemma {:induction false} StarMeans(c: char, re: string, p: Pattern, text: string)
    requires p == Spelled(re)
    ensures MatchStar(c, re, text) <==> exists k :: Takes(Many(c), p, text, k)
    decreases |re|, |text| + 1
  {
    HereMeans(re, text);
    TakesNone(c, p, text);
    if text != [] {
      StarMeans(c, re, p, text[1..]);
      if MatchStar(c, re, text[1..]) && Fits(c, text[0]) {
        var k :| Takes(Many(c), p, text[1..], k);
        TakesOneMore(c, p, text, k);
      }
      if k :| Takes(Many(c), p, text, k) {
        if k > 0 { TakesOneMore(c, p, text, k - 1); }
      }
    }
  }

  lemma {:induction false} HereMeans(re: string, text: string)
    ensures MatchHere(re, text) <==> Accepts(Spelled(re), text)
    decreases |re|, 0
  {
    if re == [] {
      AcceptsNothing(false, text);
    } else if |re| > 1 && re[1] == '*' {
      var p := Spelled(re[2..]);
      StarMeans(re[0], re[2..], p, text);
      AcceptsBefore(Many(re[0]), p, text);
      assert Spelled(re) == Before(Many(re[0]), p);
    } else if re == "$" {
      AcceptsNothing(true, text);
    } else {
      var p := Spelled(re[1..]);
      AcceptsBefore(One(re[0]), p, text);
      assert forall k :: Takes(One(re[0]), p, text, k) ==> k == 1 && Fits(re[0], text[..1][0]);
      if text != [] {
        HereMeans(re[1..], text[1..]);
        assert text[..1] == [text[0]];
        assert Takes(One(re[0]), p, text, 1) <==> Fits(re[0], text[0]) && Accepts(p, text[1..]);
      }
    }
  }

  // ---- match --------------------------------------------------------------

  function Match(re: string, text: string): (r: bool) {
    if re != [] && re[0] == '^' then MatchHere(re[1..], text) else MatchSomewhere(re, text)
  }

  function MatchSomewhere(re: string, text: string): (r: bool)
    decreases |text|
  {
    MatchHere(re, text) || (text != [] && MatchSomewhere(re, text[1..]))
  }

  /** A piece of the text from i to n is in the pattern's language. */
  ghost predicate Occurs(p: Pattern, text: string, i: int, n: int) {
    0 <= i <= n <= |text| && Lang(p.items, text[i..n]) && (p.toEnd ==> n == |text|)
  }

  lemma AcceptsOccurs(p: Pattern, text: string)
    ensures Accepts(p, text) <==> exists n :: Occurs(p, text, 0, n)
  {
    if Accepts(p, text) {
      var n :| 0 <= n <= |text| && Lang(p.items, text[..n]) && (p.toEnd ==> n == |text|);
      assert Occurs(p, text, 0, n);
    }
    if n :| Occurs(p, text, 0, n) { assert text[0..n] == text[..n]; }
  }

  lemma OccursLater(p: Pattern, text: string, i: int, n: int)
    requires text != [] && i >= 0
    ensures Occurs(p, text[1..], i, n) <==> Occurs(p, text, i + 1, n + 1)
  {
    if 0 <= i <= n < |text| { assert text[1..][i..n] == text[i + 1..n + 1]; }
  }

  lemma {:induction false} SomewhereMeans(re: string, text: string)
    ensures MatchSomewhere(re, text) <==> exists i, n :: Occurs(Spelled(re), text, i, n)
    decreases |text|
  {
    var p := Spelled(re);
    HereMeans(re, text);
    AcceptsOccurs(p, text);
    if text != [] {
      SomewhereMeans(re, text[1..]);
      if i, n :| Occurs(p, text[1..], i, n) { OccursLater(p, text, i, n); }
      if i, n :| Occurs(p, text, i, n) {
        if i > 0 { OccursLater(p, text, i - 1, n - 1); }
      }
    } else {
      assert forall i, n :: Occurs(p, text, i, n) ==> i == 0;
    }
  }

  /**
   match finds a piece of the text in the pattern's language: any piece, or one
   at the start when the pattern begins with ^, or one at the end when it ends
   with an unstarred $.
   */
  lemma MatchMeans(re: string, text: string)
    ensures Match(re, text) <==>
      if re != [] && re[0] == '^' then exists n :: Occurs(Spelled(re[1..]), text, 0, n)
      else exists i, n :: Occurs(Spelled(re), text, i, n)
  {
    if re != [] && re[0] == '^' {
      HereMeans(re[1..], text);
      AcceptsOccurs(Spelled(re[1..]), text);
    } else {
      SomewhereMeans(re, text);
    }
  }

  /** Corner patterns: a leading star is itself, a starred $ is no anchor, a second star is itself. */
  lemma Corners()
    ensures Spelled("*") == Pattern([One('*')], false)
    ensures Spelled("$*") == Pattern([Many('$')], false)
    ensures Spelled("a**") == Pattern([Many('a'), One('*')], false)
    ensures Spelled("a$") == Pattern([One('a')], true) && Spelled("$a") == Pattern([One('$'), One('a')], false)
  {
    assert Spelled("") == Pattern([], false);
    assert "*"[1..] == "" && "$*"[2..] == "" && "a**"[2..] == "*" && "a$"[1..] == "$" && "$a"[1..] == "a"
      && "a"[1..] == "";
    assert Spelled("a") == Pattern([One('a')], false);
  }

  // ---- the loops ----------------------------------------------------------

  method MatchHereAt(re: string, text: string) returns (r: bool)
    ensures r <==> Accepts(Spelled(re), text)
    decreases |re|, 0
  {
    HereMeans(re, text);
    if re == [] { return true; }
    if |re| > 1 && re[1] == '*' {
      r := MatchStarAt(re[0], re[2..], text);
      StarMeans(re[0], re[2..], Spelled(re[2..]), text);
      return;
    }
    if re == "$" { return text == []; }
    if text != [] && (re[0] == '.' || re[0] == text[0]) {
      r := MatchHereAt(re[1..], text[1..]);
      HereMeans(re[1..], text[1..]);
      return;
    }
    return false;
  }

  method MatchStarAt(c: char, re: string, text: string) returns (r: bool)
    ensures r <==> exists k :: Takes(Many(c), Spelled(re), text, k)
    decreases |re|, |text| + 1
  {
    StarMeans(c, re, Spelled(re), text);
    var i := 0;
    assert text[0..] == text;
    while true
      invariant 0 <= i <= |text| && (MatchStar(c, re, text) <==> MatchStar(c, re, text[i..]))
      decreases |text| - i
    {
      r := MatchHereAt(re, text[i..]);
      HereMeans(re, text[i..]);
      if r { return; }
      if !(i < |text| && (text[i] == c || c == '.')) { break; }
      assert text[i..][1..] == text[i + 1..];
      i := i + 1;
    }
    return false;
  }

  method MatchAt(re: string, text: string) returns (r: bool)
    ensures r <==>
      if re != [] && re[0] == '^' then exists n :: Occurs(Spelled(re[1..]), text, 0, n)
      else exists i, n :: Occurs(Spelled(re), text, i, n)
  {
    MatchMeans(re, text);
    if re != [] && re[0] == '^' {
      r := MatchHereAt(re[1..], text);
      HereMeans(re[1..], text);
      return;
    }
    var i := 0;
    assert text[0..] == text;
    while true
      invariant 0 <= i <= |text| && (MatchSomewhere(re, text) <==> MatchSomewhere(re, text[i..]))
      decreases |text| - i
    {
      r := MatchHereAt(re, text[i..]);
      HereMeans(re, text[i..]);
      if r { return; }
      if i == |text| { break; }
      assert text[i..][1..] == text[i + 1..];
      i := i + 1;
    }
    return false;
  }
}
