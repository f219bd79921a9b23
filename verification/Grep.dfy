/**
  The backtracking matcher of grep.c against a declarative meaning of its patterns:
  a pattern is a sequence of items and it matches where the text can be cut into pieces,
  one for each item. Strings are given without their terminating NUL.
 */
module Grep {

  datatype Item = Lit(c: char) | Dot | Star(c: char) | StarDot

  /** A pattern after its leading ^ is taken off: its items, and whether it ends in $. */
  datatype Pattern = Pattern(items: seq<Item>, atEnd: bool)

  function StarItem(c: char): (it: Item)
  {
    if c == '.' then StarDot else Star(c)
  }

  function Parse(re: string): (p: Pattern)
  {
    if re == "" then Pattern([], false)
    else if |re| >= 2 && re[1] == '*' then
      var rest := Parse(re[2..]);
      rest.(items := [StarItem(re[0])] + rest.items)
    else if re == "$" then Pattern([], true)
    else
      var rest := Parse(re[1..]);
      rest.(items := [if re[0] == '.' then Dot else Lit(re[0])] + rest.items)
  }

  /** The strings an item stands for. */
  predicate Fits(it: Item, w: string)
  {
    match it
    case Lit(c) => w == [c]
    case Dot => |w| == 1
    case Star(c) => forall i :: 0 <= i < |w| ==> w[i] == c
    case StarDot => true
  }

  function Join(pieces: seq<string>): (w: string)
  {
    if pieces == [] then "" else pieces[0] + Join(pieces[1..])
  }

  ghost predicate Cut(items: seq<Item>, pieces: seq<string>, w: string)
  {
    |pieces| == |items| && Join(pieces) == w && forall i :: 0 <= i < |items| ==> Fits(items[i], pieces[i])
  }

  /** p matches text from its beginning, and up to its end if p ends in $. */
  ghost predicate MatchesHere(p: Pattern, text: string)
  {
    exists pieces, k :: 0 <= k <= |text| && Cut(p.items, pieces, text[..k]) && (p.atEnd ==> k == |text|)
  }

  ghost predicate MatchesSomewhere(re: string, text: string)
  {
    if re != "" && re[0] == '^' then MatchesHere(Parse(re[1..]), text)
    else exists i :: 0 <= i <= |text| && MatchesHere(Parse(re), text[i..])
  }

  // ---- the meaning, item by item ----

  lemma NoItems(atEnd: bool, text: string)
    ensures MatchesHere(Pattern([], atEnd), text) <==> (atEnd ==> text == "")
  {
    if atEnd ==> text == "" {
      assert Cut([], [], text[..0]);
    }
  }

  /** The first item takes some beginning of the text and the others match the rest. */
  ghost predicate FirstTakes(it: Item, rest: Pattern, text: string, j: int)
  {
    0 <= j <= |text| && Fits(it, text[..j]) && MatchesHere(rest, text[j..])
  }

  lemma FirstOfCut(it: Item, rest: Pattern, text: string, pieces: seq<string>, k: nat)
    requires k <= |text| && Cut([it] + rest.items, pieces, text[..k]) && (rest.atEnd ==> k == |text|)
    ensures FirstTakes(it, rest, text, |pieces[0]|)
  {
    var items := [it] + rest.items;
    var j, tail := |pieces[0]|, pieces[1..];
    assert text[..k] == pieces[0] + Join(tail);
    assert text[..j] == text[..k][..j];
    assert text[j..][..k - j] == text[..k][j..] == Join(tail);
    assert Fits(items[0], pieces[0]);
    forall i | 0 <= i < |rest.items| ensures Fits(rest.items[i], tail[i]) {
      assert Fits(items[i + 1], pieces[i + 1]);
    }
    assert Cut(rest.items, tail, text[j..][..k - j]);
  }

  lemma CutOfFirst(it: Item, rest: Pattern, text: string, j: nat)
    requires FirstTakes(it, rest, text, j)
    ensures MatchesHere(rest.(items := [it] + rest.items), text)
  {
    var pieces, k :| 0 <= k <= |text[j..]| && Cut(rest.items, pieces, text[j..][..k])
        && (rest.atEnd ==> k == |text[j..]|);
    var all := [text[..j]] + pieces;
    assert all[1..] == pieces;
    assert Join(all) == text[..j] + text[j..][..k] == text[..j + k];
    assert Cut([it] + rest.items, all, text[..j + k]);
  }

  lemma FirstItem(it: Item, rest: Pattern, text: string)
    ensures MatchesHere(rest.(items := [it] + rest.items), text) <==> exists j :: FirstTakes(it, rest, text, j)
  {
    var p := rest.(items := [it] + rest.items);
    if MatchesHere(p, text) {
      var pieces, k :| 0 <= k <= |text| && Cut(p.items, pieces, text[..k]) && (p.atEnd ==> k == |text|);
      FirstOfCut(it, rest, text, pieces, k);
    }
    if j :| FirstTakes(it, rest, text, j) {
      CutOfFirst(it, rest, text, j);
    }
  }

  // ---- what each character of a pattern means ----

  /** c stands for x. */
  predicate StandsFor(c: char, x: char)
  {
    c == '.' || c == x
  }

  /** The empty pattern matches anywhere, and a final $ only at the end. */
  lemma EndLaws(text: string)
    ensures MatchesHere(Parse(""), text)
    ensures MatchesHere(Parse("$"), text) <==> text == ""
  {
    NoItems(false, text);
    NoItems(true, text);
  }

  /** A character stands for one character of the text, a dot for any. */
  lemma CharLaw(c: char, re: string, text: string)
    requires (re == "" ==> c != '$') && (re != "" ==> re[0] != '*')
    ensures MatchesHere(Parse([c] + re), text) <==>
            text != "" && StandsFor(c, text[0]) && MatchesHere(Parse(re), text[1..])
  {
    var it, rest := if c == '.' then Dot else Lit(c), Parse(re);
    assert ([c] + re)[1..] == re && [c] + re != "$" && (re != "" ==> ([c] + re)[1] == re[0]);
    assert Parse([c] + re) == rest.(items := [it] + rest.items);
    FirstItem(it, rest, text);
    assert forall j :: FirstTakes(it, rest, text, j) ==> j == 1;
    if text != "" {
      assert text[..1] == [text[0]];
      assert FirstTakes(it, rest, text, 1) <==> StandsFor(c, text[0]) && MatchesHere(rest, text[1..]);
    }
  }

  /** A starred character stands for nothing, or for one character and then again for itself. */
  lemma StarLaw(c: char, re: string, text: string)
    ensures MatchesHere(Parse([c, '*'] + re), text) <==>
            || MatchesHere(Parse(re), text)
            || (text != "" && StandsFor(c, text[0]) && MatchesHere(Parse([c, '*'] + re), text[1..]))
  {
    var it, rest := StarItem(c), Parse(re);
    assert ([c, '*'] + re)[2..] == re && ([c, '*'] + re)[1] == '*';
    assert Parse([c, '*'] + re) == rest.(items := [it] + rest.items);
    FirstItem(it, rest, text);
    assert text[0..] == text && FirstTakes(it, rest, text, 0) == MatchesHere(rest, text);
    if text != "" {
      var tail := text[1..];
      FirstItem(it, rest, tail);
      forall j | 1 <= j <= |text|
        ensures FirstTakes(it, rest, text, j) <==> StandsFor(c, text[0]) && FirstTakes(it, rest, tail, j - 1)
      {
        StarTakes(c, rest, text, j);
      }
      if j :| FirstTakes(it, rest, tail, j) {
        if StandsFor(c, text[0]) { assert FirstTakes(it, rest, text, j + 1); }
      }
    }
  }

  lemma StarTakes(c: char, rest: Pattern, text: string, j: nat)
    requires 1 <= j <= |text|
    ensures FirstTakes(StarItem(c), rest, text, j) <==>
            StandsFor(c, text[0]) && FirstTakes(StarItem(c), rest, text[1..], j - 1)
  {
    var tail := text[1..];
    assert text[j..] == tail[j - 1..];
    assert text[..j] == [text[0]] + tail[..j - 1];
    var it, w, v := StarItem(c), text[..j], tail[..j - 1];
    assert Fits(it, w) <==> StandsFor(c, text[0]) && Fits(it, v) by {
      if it.Star? {
        assert forall i :: 1 <= i < |w| ==> w[i] == v[i - 1];
        assert forall i :: 0 <= i < |v| ==> v[i] == w[i + 1];
      }
    }
  }

  /** A caret binds to the beginning; without one the pattern is looked for everywhere. */
  lemma SearchLaws(re: string, text: string)
    ensures MatchesSomewhere(['^'] + re, text) <==> MatchesHere(Parse(re), text)
    ensures re == "" || re[0] != '^' ==>
              (MatchesSomewhere(re, text) <==>
               MatchesHere(Parse(re), text) || (text != "" && MatchesSomewhere(re, text[1..])))
  {
    assert (['^'] + re)[1..] == re;
    if re == "" || re[0] != '^' {
      assert text[0..] == text;
      if text != "" {
        forall i | 1 <= i <= |text| ensures text[i..] == text[1..][i - 1..] {}
        if i :| 0 <= i <= |text[1..]| && MatchesHere(Parse(re), text[1..][i..]) {
          assert text[i + 1..] == text[1..][i..];
        }
      }
    }
  }

  // ---- the matcher ----

  method MatchHere(re: string, text: string) returns (b: bool)
    ensures b <==> MatchesHere(Parse(re), text)
    decreases |re|, 0
  {
    if re == "" {
      NoItems(false, text);
      return true;
    }
    if |re| >= 2 && re[1] == '*' {
      b := MatchStar(re[0], re[2..], text);
      return;
    }
    if re[0] == '$' && |re| == 1 {
      assert re == "$";
      NoItems(true, text);
      return text == "";
    }
    var it := if re[0] == '.' then Dot else Lit(re[0]);
    FirstItem(it, Parse(re[1..]), text);
    assert forall j :: FirstTakes(it, Parse(re[1..]), text, j) ==> j == 1;
    if text != "" && (re[0] == '.' || re[0] == text[0]) {
      b := MatchHere(re[1..], text[1..]);
      assert b ==> FirstTakes(it, Parse(re[1..]), text, 1);
      return;
    }
    return false;
  }

  /** matchstar: c repeated any number of times, then re. */
  method MatchStar(c: char, re: string, text: string) returns (b: bool)
    ensures b <==> MatchesHere(Parse(re).(items := [StarItem(c)] + Parse(re).items), text)
    decreases |re|, 1
  {
    ghost var it, rest := StarItem(c), Parse(re);
    FirstItem(it, rest, text);
    var i := 0;
    while true
      invariant 0 <= i <= |text| && Fits(it, text[..i])
      invariant forall j :: FirstTakes(it, rest, text, j) ==> j >= i
      decreases |text| - i
    {
      b := MatchHere(re, text[i..]);
      if b {
        assert FirstTakes(it, rest, text, i);
        return;
      }
      if !(i < |text| && (text[i] == c || c == '.')) {
        forall j | i < j <= |text| ensures !Fits(it, text[..j]) {
          assert text[..j][i] == text[i];
        }
        return false;
      }
      i := i + 1;
    }
  }

  /** match: 1 exactly when the pattern matches somewhere in the text. */
  method Match(re: string, text: string) returns (b: bool)
    ensures b <==> MatchesSomewhere(re, text)
  {
    if re != "" && re[0] == '^' {
      b := MatchHere(re[1..], text);
      return;
    }
    var i := 0;
    while true
      invariant 0 <= i <= |text|
      invariant forall k :: 0 <= k < i ==> !MatchesHere(Parse(re), text[k..])
      decreases |text| - i
    {
      b := MatchHere(re, text[i..]);
      if b {
        return;
      }
      if i == |text| {
        return false;
      }
      i := i + 1;
    }
  }
}
