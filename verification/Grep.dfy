/** The regular expression matcher of `grep` (cmd/grep.c:75-109). Strings are without their
    terminating NUL. */
module Grep {

  // What a pattern means.

  /** One character, or any number of them; '.' stands for every character. */
  datatype Item = One(c: char) | Star(c: char)

  predicate Accepts(c: char, x: char) { c == '.' || c == x }

  ghost predicate Fits(item: Item, w: string) {
    match item
    case One(c) => |w| == 1 && Accepts(c, w[0])
    case Star(c) => forall i :: 0 <= i < |w| ==> Accepts(c, w[i])
  }

  /** The items of a pattern, and whether it ends in the anchor '$'. */
  datatype Pattern = Pattern(items: seq<Item>, end: bool)

  function Parse(re: string): Pattern {
    if re == [] then Pattern([], false)
    else if |re| > 1 && re[1] == '*' then var p := Parse(re[2..]); p.(items := [Star(re[0])] + p.items)
    else if re == "$" then Pattern([], true)
    else var p := Parse(re[1..]); p.(items := [One(re[0])] + p.items)
  }

  // How a pattern is written.

  function ShowItem(item: Item): string {
    match item
    case One(c) => [c]
    case Star(c) => [c, '*']
  }

  function Show(p: Pattern): string
    decreases |p.items|
  {
    if p.items == [] then if p.end then "$" else ""
    else ShowItem(p.items[0]) + Show(p.(items := p.items[1..]))
  }

  /** A single character is not followed by one written '*', and a last single '$' is the anchor. */
  predicate Canonical(p: Pattern) {
    && (forall i {:trigger p.items[i]} :: 0 <= i < |p.items| - 1 && p.items[i].One? ==> p.items[i + 1].c != '*')
    && (p.items != [] && p.items[|p.items| - 1] == One('$') ==> p.end)
  }

  /** `re` is how pattern `p` is written. */
  ghost predicate Writes(re: string, p: Pattern) {
    Canonical(p) && Show(p) == re
  }

  lemma ShowFirst(item: Item, p: Pattern)
    ensures Show(p.(items := [item] + p.items)) == ShowItem(item) + Show(p)
  {
    var q := p.(items := [item] + p.items);
    assert q.items[1..] == p.items && q.(items := q.items[1..]) == p;
  }

  lemma CanonicalFirst(item: Item, p: Pattern)
    requires Canonical(p) && (item.One? && p.items != [] ==> p.items[0].c != '*')
    requires item == One('$') && p.items == [] ==> p.end
    ensures Canonical(p.(items := [item] + p.items))
  {
  }

  lemma CanonicalRest(p: Pattern)
    requires Canonical(p) && p.items != []
    ensures Canonical(p.(items := p.items[1..]))
  {
    var q := p.(items := p.items[1..]);
    forall i | 0 <= i < |q.items| - 1 && q.items[i].One? ensures q.items[i + 1].c != '*' {
      assert q.items[i] == p.items[i + 1];
    }
  }

  /** Every string is how some pattern is written. */
  lemma {:induction false} ParseWrites(re: string)
    ensures Writes(re, Parse(re))
  {
    if re == [] {
    } else if |re| > 1 && re[1] == '*' {
      ParseWrites(re[2..]);
      ShowFirst(Star(re[0]), Parse(re[2..]));
      CanonicalFirst(Star(re[0]), Parse(re[2..]));
    } else if re != "$" {
      var p := Parse(re[1..]);
      ParseWrites(re[1..]);
      ShowFirst(One(re[0]), p);
      if p.items != [] { assert re[1..][0] == p.items[0].c; }
      CanonicalFirst(One(re[0]), p);
    }
  }

  /** And of no other. */
  lemma {:induction false} ShowParses(p: Pattern)
    requires Canonical(p)
    ensures Parse(Show(p)) == p
    decreases |p.items|
  {
    if p.items != [] {
      var q := p.(items := p.items[1..]);
      CanonicalRest(p);
      ShowParses(q);
      var re := Show(p);
      assert p.items == [p.items[0]] + q.items;
      match p.items[0]
      case Star(c) =>
        assert re[2..] == Show(q);
      case One(c) =>
        assert re[1..] == Show(q);
        if q.items != [] {
          assert q.items[0] == p.items[1];
          assert re[1] == q.items[0].c;
        } else {
          assert re == if p.end then [c, '$'] else [c];
        }
    }
  }

  lemma WritesOne(re: string, p: Pattern, q: Pattern)
    requires Writes(re, p) && Writes(re, q)
    ensures p == q
  {
    ShowParses(p);
    ShowParses(q);
  }

  /** A '$' put behind a pattern is the anchor; one that was the anchor becomes a character. */
  lemma {:induction false} Anchored(re: string)
    ensures var p := Parse(re);
            Parse(re + "$") == Pattern(if p.end then p.items + [One('$')] else p.items, true)
  {
    if re == [] {
      assert re + "$" == "$";
    } else if |re| > 1 && re[1] == '*' {
      Anchored(re[2..]);
      assert (re + "$")[2..] == re[2..] + "$";
    } else if re == "$" {
      assert (re + "$")[1..] == "$";
    } else {
      Anchored(re[1..]);
      assert (re + "$")[1..] == re[1..] + "$";
    }
  }

  function Flat(ws: seq<string>): string {
    if ws == [] then [] else ws[0] + Flat(ws[1..])
  }

  /** `text` begins with words for the items in turn, and ends there if the pattern says so. */
  ghost predicate Splits(p: Pattern, ws: seq<string>, post: string, text: string) {
    && |ws| == |p.items| && (forall i {:trigger ws[i]} :: 0 <= i < |ws| ==> Fits(p.items[i], ws[i]))
    && text == Flat(ws) + post && (p.end ==> post == [])
  }

  ghost predicate Begins(p: Pattern, text: string) {
    exists ws, post :: Splits(p, ws, post, text)
  }

  /** `text` begins with a match of the pattern written `re`. */
  ghost predicate Matches(re: string, text: string) {
    exists p :: Writes(re, p) && Begins(p, text)
  }

  lemma MatchesParsed(re: string, text: string)
    ensures Matches(re, text) <==> Begins(Parse(re), text)
  {
    ParseWrites(re);
    if Matches(re, text) {
      var p :| Writes(re, p) && Begins(p, text);
      WritesOne(re, p, Parse(re));
    }
  }

  /** A character matches itself, '.' any character, '$' the end, and a star a run of its character. */
  lemma BasicPatterns(c: char, text: string)
    ensures Matches([c], text) <==> if c == '$' then text == [] else text != [] && (c == '.' || text[0] == c)
    ensures Matches([c, '*', '$'], text) <==> forall i :: 0 <= i < |text| ==> c == '.' || text[i] == c
  {
    MatchesParsed([c], text);
    BeginsEmpty(true, text);
    if c != '$' {
      var p := Parse([]);
      assert [c][1..] == [] && p.(items := [One(c)] + p.items) == Pattern([One(c)], false) == Parse([c]);
      BeginsOne(c, p, text);
      if text != [] { BeginsEmpty(false, text[1..]); }
    }
    StarMatches([c, '*', '$'], text);
    assert [c, '*', '$'][2..] == "$";
    forall m | 0 <= m <= |text| ensures Matches("$", text[m ..]) <==> m == |text| {
      MatchesParsed("$", text[m ..]);
      BeginsEmpty(true, text[m ..]);
    }
    assert text[.. |text|] == text;
  }

  /** The meaning of a whole pattern: with '^' it matches at the beginning, otherwise anywhere. */
  ghost predicate Means(re: string, text: string) {
    if re != [] && re[0] == '^' then Matches(re[1..], text)
    else exists k :: 0 <= k <= |text| && Matches(re, text[k..])
  }

  // One item at a time.

  lemma BeginsEmpty(end: bool, text: string)
    ensures Begins(Pattern([], end), text) <==> (end ==> text == [])
  {
    if end ==> text == [] { assert Splits(Pattern([], end), [], text, text); }
  }

  lemma BeginsOne(c: char, p: Pattern, text: string)
    ensures Begins(p.(items := [One(c)] + p.items), text) <==> text != [] && Accepts(c, text[0]) && Begins(p, text[1..])
  {
    var q := p.(items := [One(c)] + p.items);
    if Begins(q, text) {
      var ws, post :| Splits(q, ws, post, text);
      SplitsTail(q, ws, post, text);
      assert Fits(q.items[0], ws[0]);
      assert text[1..] == Flat(ws[1..]) + post;
      assert Splits(Pattern(q.items[1..], q.end), ws[1..], post, text[1..]);
      assert q.items[1..] == p.items;
    }
    if text != [] && Accepts(c, text[0]) && Begins(p, text[1..]) {
      var ws, post :| Splits(p, ws, post, text[1..]);
      SplitsCons(One(c), p, [text[0]], ws, post, text[1..]);
      assert [text[0]] + text[1..] == text;
    }
  }

  lemma SplitsTail(p: Pattern, ws: seq<string>, post: string, text: string)
    requires Splits(p, ws, post, text) && ws != []
    ensures Splits(Pattern(p.items[1..], p.end), ws[1..], post, text[|ws[0]| ..]) && text == ws[0] + text[|ws[0]| ..]
  {
    assert text == ws[0] + (Flat(ws[1..]) + post);
    assert text[|ws[0]| ..] == Flat(ws[1..]) + post;
  }

  lemma SplitsCons(item: Item, p: Pattern, w: string, ws: seq<string>, post: string, text: string)
    requires Splits(p, ws, post, text) && Fits(item, w)
    ensures Splits(p.(items := [item] + p.items), [w] + ws, post, w + text)
    ensures Begins(p.(items := [item] + p.items), w + text)
  {
    assert ([w] + ws)[1..] == ws;
    assert w + (Flat(ws) + post) == w + Flat(ws) + post;
    assert Splits(p.(items := [item] + p.items), [w] + ws, post, w + text);
  }

  /** A star takes some run of its character, possibly none. */
  lemma BeginsStar(c: char, p: Pattern, text: string)
    ensures Begins(p.(items := [Star(c)] + p.items), text) <==>
            exists m :: 0 <= m <= |text| && Fits(Star(c), text[.. m]) && Begins(p, text[m ..])
  {
    var q := p.(items := [Star(c)] + p.items);
    if Begins(q, text) {
      var ws, post :| Splits(q, ws, post, text);
      SplitsTail(q, ws, post, text);
      var m := |ws[0]|;
      assert text[.. m] == ws[0] && Fits(q.items[0], ws[0]);
      assert q.items[1..] == p.items && Splits(p, ws[1..], post, text[m ..]);
    }
    if exists m :: 0 <= m <= |text| && Fits(Star(c), text[.. m]) && Begins(p, text[m ..]) {
      var m :| 0 <= m <= |text| && Fits(Star(c), text[.. m]) && Begins(p, text[m ..]);
      var ws, post :| Splits(p, ws, post, text[m ..]);
      SplitsCons(Star(c), p, text[.. m], ws, post, text[m ..]);
      assert text[.. m] + text[m ..] == text;
    }
  }

  // The code.

  /** `matchhere`: whether the pattern matches at the beginning of the text. */
  method MatchHere(re: string, text: string) returns (r: bool)
    ensures r <==> Matches(re, text)
    decreases |re|, 0, |text|
  {
    MatchesParsed(re, text);
    if re == [] {
      BeginsEmpty(false, text);
      return true;
    }
    if |re| > 1 && re[1] == '*' {
      r := MatchStar(re[0], re[2..], text);
      StarMatches(re, text);
      return;
    }
    if re == "$" {
      BeginsEmpty(true, text);
      return text == [];
    }
    BeginsOne(re[0], Parse(re[1..]), text);
    if text != [] && (re[0] == '.' || re[0] == text[0]) {
      MatchesParsed(re[1..], text[1..]);
      r := MatchHere(re[1..], text[1..]);
      return;
    }
    return false;
  }

  /** `matchstar`. */
  method MatchStar(c: char, re: string, text: string) returns (r: bool)
    ensures r <==> exists m :: 0 <= m <= |text| && Fits(Star(c), text[.. m]) && Matches(re, text[m ..])
    decreases |re| + 1, 1, |text|
  {
    var k := 0;
    while true
      invariant 0 <= k <= |text| && Fits(Star(c), text[.. k])
      invariant forall m :: 0 <= m < k ==> !Matches(re, text[m ..])
      decreases |text| - k
    {
      r := MatchHere(re, text[k ..]);
      if r { return; }
      if k == |text| || !(text[k] == c || c == '.') {
        StarStops(c, text, k);
        return;
      }
      k := k + 1;
    }
  }

  lemma StarMatches(re: string, text: string)
    requires |re| > 1 && re[1] == '*'
    ensures Matches(re, text) <==>
            exists m :: 0 <= m <= |text| && Fits(Star(re[0]), text[.. m]) && Matches(re[2..], text[m ..])
  {
    MatchesParsed(re, text);
    BeginsStar(re[0], Parse(re[2..]), text);
    forall m | 0 <= m <= |text| ensures Matches(re[2..], text[m ..]) <==> Begins(Parse(re[2..]), text[m ..]) {
      MatchesParsed(re[2..], text[m ..]);
    }
  }

  lemma StarStops(c: char, text: string, k: nat)
    requires k <= |text| && (k < |text| ==> !Accepts(c, text[k]))
    ensures forall m :: k < m <= |text| ==> !Fits(Star(c), text[.. m])
  {
    forall m | k < m <= |text| ensures !Fits(Star(c), text[.. m]) {
      assert text[.. m][k] == text[k];
    }
  }

  /** `match`: whether the text contains a match. */
  method Match(re: string, text: string) returns (r: bool)
    ensures r <==> Means(re, text)
  {
    if re != [] && re[0] == '^' {
      r := MatchHere(re[1..], text);
      return;
    }
    var k := 0;
    while true
      invariant 0 <= k <= |text|
      invariant forall m :: 0 <= m < k ==> !Matches(re, text[m ..])
      decreases |text| - k
    {
      r := MatchHere(re, text[k ..]);
      if r || k == |text| { return; }
      k := k + 1;
    }
  }
}
