/** The topic-pattern matcher of the generic MQTT scoop: a wildcard pattern is
    rewritten in place into a regular expression, which is then matched. */

/** The fragment of ECMAScript regular expressions the rewriting can produce. */
module Regex {
  import opened Wrappers

  datatype Class = Literal(c: char) | Dot | Except(c: char)

  datatype Quantifier = Once | ZeroOrMore | OneOrMore

  datatype Item = Begin | End | Repeat(cls: Class, quantifier: Quantifier)

  predicate IsSyntaxCharacter(c: char) {
    c in "^$\\.*+?()[]{}|"
  }

  /** The line terminators a narrow (byte) string can hold. */
  predicate IsLineTerminator(c: char) {
    c == '\n' || c == '\r'
  }

  predicate InClass(cls: Class, c: char) {
    match cls
    case Literal(d) => c == d
    case Dot => !IsLineTerminator(c)
    case Except(d) => c != d
  }

  /** The quantifier that follows an atom, and how many characters it takes. */
  function ParseQuantifier(r: string): (Quantifier, nat) {
    if r != [] && r[0] == '*' then (ZeroOrMore, 1)
    else if r != [] && r[0] == '+' then (OneOrMore, 1)
    else (Once, 0)
  }

  function Quantified(cls: Class, r: string): Option<seq<Item>>
    decreases |r|, 1
  {
    var (q, n) := ParseQuantifier(r);
    if n == 1 && |r| > 1 && r[1] == '?' then None  // a lazy quantifier
    else
      match Parse(r[n..])
      case None => None
      case Some(items) => Some([Repeat(cls, q)] + items)
  }

  /** The items of a regular expression; None when it is malformed or uses a
      construct outside the fragment. */
  function Parse(r: string): Option<seq<Item>>
    decreases |r|, 0
  {
    if r == [] then Some([])
    else if r[0] == '^' || r[0] == '$' then
      match Parse(r[1..])
      case None => None
      case Some(items) => Some([if r[0] == '^' then Begin else End] + items)
    else if r[0] == '\\' then
      if |r| > 1 && IsSyntaxCharacter(r[1]) then Quantified(Literal(r[1]), r[2..]) else None
    else if r[0] == '[' then
      if |r| > 3 && r[1] == '^' && !IsSyntaxCharacter(r[2]) && r[3] == ']'
      then Quantified(Except(r[2]), r[4..])
      else None
    else if r[0] == '.' then Quantified(Dot, r[1..])
    else if IsSyntaxCharacter(r[0]) then None
    else Quantified(Literal(r[0]), r[1..])
  }

  predicate CountFits(q: Quantifier, n: nat) {
    match q
    case Once => n == 1
    case ZeroOrMore => true
    case OneOrMore => n >= 1
  }

  /** Whether the items take t from position i to its end. */
  predicate Accepts(items: seq<Item>, t: string, i: nat)
    requires i <= |t|
    decreases |items|
  {
    if items == [] then i == |t|
    else
      match items[0]
      case Begin => i == 0 && Accepts(items[1..], t, i)
      case End => i == |t| && Accepts(items[1..], t, i)
      case Repeat(cls, q) =>
        exists k | i <= k <= |t| ::
          CountFits(q, k - i) && (forall j | i <= j < k :: InClass(cls, t[j])) && Accepts(items[1..], t, k)
  }

  /** std::regex_match; an ill-formed expression throws and the caller answers no. */
  predicate FullMatch(r: string, t: string) {
    match Parse(r)
    case None => false
    case Some(items) => Accepts(items, t, 0)
  }
}

module TopicPattern {
  import opened Regex
  import opened Wrappers

  // ------------------------------------------------------------ the rewriting

  predicate NeedsEscape(c: char) {
    c in ".[](){}^$|\\?*"
  }

  ghost function Escaped(p: string): string {
    if p == [] then [] else (if NeedsEscape(p[0]) then ['\\', p[0]] else [p[0]]) + Escaped(p[1..])
  }

  ghost function Replaced(s: string, wildcard: char, text: string): string {
    if s == [] then [] else (if s[0] == wildcard then text else [s[0]]) + Replaced(s[1..], wildcard, text)
  }

  /** Inserts a backslash before every special character, moving past both. */
  method EscapeSpecials(pattern: string) returns (r: string)
    ensures r == Escaped(pattern)
  {
    r := pattern;
    var i := 0;
    assert r[..0] + Escaped(r[0..]) == Escaped(pattern) by { assert r[0..] == pattern; }
    while i < |r|
      invariant 0 <= i <= |r|
      invariant r[..i] + Escaped(r[i..]) == Escaped(pattern)
      decreases |r| - i
    {
      EscapedStep(r, i);
      hide Escaped, NeedsEscape;
      var c := r[i];
      if NeedsEscape(c) {
        r := r[..i] + "\\" + r[i..];
        i := i + 1;
      }
      i := i + 1;
    }
    assert r[..i] == r;
  }

  lemma EscapedStep(r: string, i: nat)
    requires i < |r|
    ensures !NeedsEscape(r[i]) ==> r[..i + 1] + Escaped(r[i + 1..]) == r[..i] + Escaped(r[i..])
    ensures var u := r[..i] + "\\" + r[i..];
      NeedsEscape(r[i]) ==> u[..i + 2] + Escaped(u[i + 2..]) == r[..i] + Escaped(r[i..])
  {
    hide NeedsEscape;
    var u := r[..i] + "\\" + r[i..];
    assert r[i..][1..] == r[i + 1..] == u[i + 2..];
    assert u[..i + 2] == r[..i] + ['\\', r[i]];
    assert r[..i + 1] == r[..i] + [r[i]];
  }

  /** std::string::find; the length stands for npos. */
  method Find(s: string, c: char, from: nat) returns (pos: nat)
    requires from <= |s|
    ensures from <= pos <= |s| && c !in s[from..pos]
    ensures pos < |s| ==> s[pos] == c
  {
    pos := from;
    while pos < |s| && s[pos] != c
      invariant from <= pos <= |s| && c !in s[from..pos]
    {
      assert s[from..pos + 1] == s[from..pos] + [s[pos]];
      pos := pos + 1;
    }
  }

  /** Replaces every wildcard and continues behind the replacement. */
  method ReplaceWildcard(s: string, wildcard: char, text: string) returns (r: string)
    ensures r == Replaced(s, wildcard, text)
  {
    hide Replaced;
    r := s;
    var pos := Find(r, wildcard, 0);
    ReplacedSkip(r, 0, pos, wildcard, text);
    assert r[..0] + Replaced(r[0..], wildcard, text) == Replaced(s, wildcard, text) by {
      assert r[0..] == s;
    }
    while pos < |r|
      invariant 0 <= pos <= |r| && (pos < |r| ==> r[pos] == wildcard)
      invariant r[..pos] + Replaced(r[pos..], wildcard, text) == Replaced(s, wildcard, text)
      decreases |r| - pos
    {
      ReplacedHit(r, pos, wildcard, text);
      r := r[..pos] + text + r[pos + 1..];
      pos := pos + |text|;
      var next := Find(r, wildcard, pos);
      ReplacedSkip(r, pos, next, wildcard, text);
      pos := next;
    }
    ReplacedDone(r, wildcard, text);
  }

  lemma ReplacedDone(r: string, wildcard: char, text: string)
    ensures r[..|r|] + Replaced(r[|r|..], wildcard, text) == r
  {
  }

  lemma ReplacedHit(r: string, pos: nat, wildcard: char, text: string)
    requires pos < |r| && r[pos] == wildcard
    ensures var u, n := r[..pos] + text + r[pos + 1..], pos + |text|;
      u[..n] + Replaced(u[n..], wildcard, text) == r[..pos] + Replaced(r[pos..], wildcard, text)
  {
    var u, n := r[..pos] + text + r[pos + 1..], pos + |text|;
    assert r[pos..][1..] == r[pos + 1..] == u[n..];
    assert u[..n] == r[..pos] + text;
  }

  lemma ReplacedSkip(r: string, pos: nat, next: nat, wildcard: char, text: string)
    requires pos <= next <= |r| && wildcard !in r[pos..next]
    ensures r[..pos] + Replaced(r[pos..], wildcard, text) == r[..next] + Replaced(r[next..], wildcard, text)
  {
    hide Replaced;
    assert r[pos..] == r[pos..next] + r[next..];
    assert r[..next] == r[..pos] + r[pos..next];
    ReplacedPlain(r[pos..next], r[next..], wildcard, text);
  }

  lemma {:induction false} ReplacedPlain(a: string, b: string, wildcard: char, text: string)
    requires wildcard !in a
    ensures Replaced(a + b, wildcard, text) == a + Replaced(b, wildcard, text)
    decreases |a|
  {
    if a == [] {
      assert a + b == b;
    } else {
      assert (a + b)[1..] == a[1..] + b;
      ReplacedPlain(a[1..], b, wildcard, text);
    }
  }

  method Matches(pattern: string, topic: string) returns (b: bool)
    ensures b <==> PatternMatches(pattern, topic)
  {
    var regex := EscapeSpecials(pattern);
    regex := ReplaceWildcard(regex, '+', "[^/]+");
    regex := ReplaceWildcard(regex, '#', ".*");
    b := FullMatch("^" + regex + "$", topic);
    CompilationPreservesMeaning(pattern, topic);
  }

  // ------------------------------------------------------ what a pattern means

  /** Literals stand for themselves, + for a non-empty run without a slash and
      # for any run (of characters other than line terminators). */
  ghost predicate PatternMatches(p: string, t: string)
    decreases |p|
  {
    if p == [] then t == []
    else if p[0] == '+' then
      exists k :: 1 <= k <= |t| && '/' !in t[..k] && PatternMatches(p[1..], t[k..])
    else if p[0] == '#' then
      exists k :: 0 <= k <= |t| && SingleLine(t[..k]) && PatternMatches(p[1..], t[k..])
    else t != [] && t[0] == p[0] && PatternMatches(p[1..], t[1..])
  }

  ghost predicate SingleLine(t: string) {
    forall c | c in t :: !IsLineTerminator(c)
  }

  ghost function Compiled(p: string): string {
    Replaced(Replaced(Escaped(p), '+', "[^/]+"), '#', ".*")
  }

  ghost function Piece(c: char): string {
    if c == '+' then "[^/]+" else if c == '#' then ".*" else if NeedsEscape(c) then ['\\', c] else [c]
  }

  ghost function Pieces(p: string): string {
    if p == [] then [] else Piece(p[0]) + Pieces(p[1..])
  }

  ghost function ItemOf(c: char): Item {
    if c == '+' then Repeat(Except('/'), OneOrMore)
    else if c == '#' then Repeat(Dot, ZeroOrMore)
    else Repeat(Literal(c), Once)
  }

  ghost function Items(p: string): seq<Item> {
    if p == [] then [] else [ItemOf(p[0])] + Items(p[1..])
  }

  lemma {:induction false} ReplacedSplit(a: string, b: string, wildcard: char, text: string)
    ensures Replaced(a + b, wildcard, text) == Replaced(a, wildcard, text) + Replaced(b, wildcard, text)
    decreases |a|
  {
    if a == [] {
      assert a + b == b;
    } else {
      assert (a + b)[1..] == a[1..] + b;
      ReplacedSplit(a[1..], b, wildcard, text);
    }
  }

  ghost function EscapedCharacter(c: char): string {
    if NeedsEscape(c) then ['\\', c] else [c]
  }

  lemma CharacterPasses(c: char)
    ensures Replaced(Replaced(EscapedCharacter(c), '+', "[^/]+"), '#', ".*") == Piece(c)
  {
    var e := EscapedCharacter(c);
    hide Replaced;
    ReplacedShort('+', "[^/]+");
    ReplacedShort('#', ".*");
    if c == '+' {
      ReplacedPlain("[^/]+", [], '#', ".*");
      assert "[^/]+" + [] == "[^/]+";
    } else if c == '#' {
      ReplacedPlain("#", [], '+', "[^/]+");
      assert "#" + [] == "#";
    } else {
      ReplacedPlain(e, [], '+', "[^/]+");
      ReplacedPlain(e, [], '#', ".*");
      assert e + [] == e;
    }
  }

  lemma ReplacedShort(wildcard: char, text: string)
    ensures Replaced([], wildcard, text) == [] && Replaced([wildcard], wildcard, text) == text
  {
  }

  /** The three passes together rewrite character by character. */
  lemma {:induction false} PassesCompose(p: string)
    ensures Compiled(p) == Pieces(p)
    decreases |p|
  {
    if p != [] {
      var e, rest := EscapedCharacter(p[0]), Escaped(p[1..]);
      assert Escaped(p) == e + rest;
      PassesCompose(p[1..]);
      hide Replaced, Escaped;
      CharacterPasses(p[0]);
      ReplacedSplit(e, rest, '+', "[^/]+");
      ReplacedSplit(Replaced(e, '+', "[^/]+"), Replaced(rest, '+', "[^/]+"), '#', ".*");
    }
  }

  /** What follows a piece can never be read as its quantifier. */
  lemma NoStrayQuantifier(p: string)
    ensures var r := Pieces(p) + "$"; r != [] && r[0] !in "*+?"
  {
  }

  lemma QuantifiedParses(cls: Class, q: Quantifier, mark: string, rest: string, items: seq<Item>)
    requires (q == Once && mark == "") || (q == ZeroOrMore && mark == "*") || (q == OneOrMore && mark == "+")
    requires rest != [] && rest[0] !in "*+?" && Parse(rest) == Some(items)
    ensures Quantified(cls, mark + rest) == Some([Repeat(cls, q)] + items)
  {
    hide Parse;
    var r := mark + rest;
    assert r[|mark|..] == rest;
    assert ParseQuantifier(r) == (q, |mark|);
  }

  lemma PlusParses(rest: string)
    requires Quantified(Except('/'), "+" + rest).Some?
    ensures Parse("[^/]+" + rest) == Quantified(Except('/'), "+" + rest)
  {
    hide Quantified;
    assert ("[^/]+" + rest)[4..] == "+" + rest;
  }

  lemma HashParses(rest: string)
    requires Quantified(Dot, "*" + rest).Some?
    ensures Parse(".*" + rest) == Quantified(Dot, "*" + rest)
  {
    hide Quantified;
    assert (".*" + rest)[1..] == "*" + rest;
  }

  lemma LiteralParses(c: char, rest: string)
    requires c != '+' && c != '#'
    ensures Parse(Piece(c) + rest) == Quantified(Literal(c), "" + rest)
  {
    hide Quantified;
    assert (Piece(c) + rest)[|Piece(c)|..] == "" + rest;
  }

  lemma PieceParses(c: char, rest: string, items: seq<Item>)
    requires rest != [] && rest[0] !in "*+?" && Parse(rest) == Some(items)
    ensures Parse(Piece(c) + rest) == Some([ItemOf(c)] + items)
  {
    hide Parse, Quantified;
    if c == '+' {
      QuantifiedParses(Except('/'), OneOrMore, "+", rest, items);
      PlusParses(rest);
    } else if c == '#' {
      QuantifiedParses(Dot, ZeroOrMore, "*", rest, items);
      HashParses(rest);
    } else {
      QuantifiedParses(Literal(c), Once, "", rest, items);
      LiteralParses(c, rest);
    }
  }

  lemma {:induction false} PiecesParse(p: string)
    ensures Parse(Pieces(p) + "$") == Some(Items(p) + [End])
    decreases |p|
  {
    hide Parse, Piece, ItemOf;
    if p == [] {
      DollarParses();
    } else {
      var rest := Pieces(p[1..]) + "$";
      PiecesParse(p[1..]);
      NoStrayQuantifier(p[1..]);
      PieceParses(p[0], rest, Items(p[1..]) + [End]);
      assert Piece(p[0]) + rest == Pieces(p) + "$";
      assert [ItemOf(p[0])] + (Items(p[1..]) + [End]) == Items(p) + [End];
    }
  }

  lemma DollarParses()
    ensures Pieces([]) + "$" == "$" && Parse("$") == Some(Items([]) + [End])
  {
    assert "$"[1..] == [] && Parse([]) == Some([]);
    assert [End] + [] == Items([]) + [End];
  }

  lemma {:induction false} ItemsMeanPattern(p: string, t: string, i: nat)
    requires i <= |t|
    ensures Accepts(Items(p) + [End], t, i) <==> PatternMatches(p, t[i..])
    decreases |p|
  {
    var items := Items(p) + [End];
    if p == [] {
      assert items == [End] && items[1..] == [];
    } else {
      assert items == [ItemOf(p[0])] + (Items(p[1..]) + [End]);
      forall k | i <= k <= |t|
        ensures Accepts(Items(p[1..]) + [End], t, k) <==> PatternMatches(p[1..], t[k..])
      {
        ItemsMeanPattern(p[1..], t, k);
      }
      ItemMeansCharacter(p, Items(p[1..]) + [End], t, i);
    }
  }

  ghost predicate Takes(c: char, run: string) {
    CountFits(ItemOf(c).quantifier, |run|) && forall d | d in run :: InClass(ItemOf(c).cls, d)
  }

  /** One step of the regular expression is one step of the pattern. */
  lemma ItemMeansCharacter(p: string, rest: seq<Item>, t: string, i: nat)
    requires p != [] && i <= |t|
    requires forall k | i <= k <= |t| :: Accepts(rest, t, k) <==> PatternMatches(p[1..], t[k..])
    ensures Accepts([ItemOf(p[0])] + rest, t, i) <==> PatternMatches(p, t[i..])
  {
    hide PatternMatches, Takes, Accepts, ItemOf;
    var u := t[i..];
    if Accepts([ItemOf(p[0])] + rest, t, i) {
      var k := AcceptedRun(p[0], rest, t, i);
      assert u[..k - i] == t[i..k] && u[k - i..] == t[k..];
      PatternTakes(p, u, k - i);
    }
    if PatternMatches(p, u) {
      var n := PatternTook(p, u);
      assert u[..n] == t[i..i + n] && u[n..] == t[i + n..];
      AcceptsAfterRun(p[0], rest, t, i, i + n);
    }
  }

  lemma AcceptedRun(c: char, rest: seq<Item>, t: string, i: nat) returns (k: nat)
    requires i <= |t| && Accepts([ItemOf(c)] + rest, t, i)
    ensures i <= k <= |t| && Takes(c, t[i..k]) && Accepts(rest, t, k)
  {
    var items := [ItemOf(c)] + rest;
    assert items[1..] == rest;
    var cls, q := items[0].cls, items[0].quantifier;
    assert items[0] == Repeat(cls, q);
    k :| i <= k <= |t| && CountFits(q, k - i)
      && (forall j | i <= j < k :: InClass(cls, t[j])) && Accepts(items[1..], t, k);
  }

  lemma AcceptsAfterRun(c: char, rest: seq<Item>, t: string, i: nat, k: nat)
    requires i <= k <= |t| && Takes(c, t[i..k]) && Accepts(rest, t, k)
    ensures Accepts([ItemOf(c)] + rest, t, i)
  {
    var items := [ItemOf(c)] + rest;
    assert items[1..] == rest;
    forall j | i <= j < k
      ensures InClass(ItemOf(c).cls, t[j])
    {
      assert t[j] == t[i..k][j - i];
    }
  }

  lemma TakesMeans(c: char, run: string)
    ensures c == '+' ==> (Takes(c, run) <==> |run| >= 1 && '/' !in run)
    ensures c == '#' ==> (Takes(c, run) <==> SingleLine(run))
    ensures c != '+' && c != '#' ==> (Takes(c, run) <==> run == [c])
  {
    if |run| == 1 {
      assert run == [run[0]] && run[0] in run;
    }
  }

  lemma PatternTakes(p: string, u: string, n: nat)
    requires p != [] && n <= |u| && Takes(p[0], u[..n]) && PatternMatches(p[1..], u[n..])
    ensures PatternMatches(p, u)
  {
    hide PatternMatches, Takes, SingleLine;
    TakesMeans(p[0], u[..n]);
    if p[0] == '+' {
      PlusTakes(p, u, n);
    } else if p[0] == '#' {
      HashTakes(p, u, n);
    } else {
      LiteralTakes(p, u);
    }
  }

  lemma PlusTakes(p: string, u: string, n: nat)
    requires p != [] && p[0] == '+' && 1 <= n <= |u| && '/' !in u[..n] && PatternMatches(p[1..], u[n..])
    ensures PatternMatches(p, u)
  {
  }

  lemma HashTakes(p: string, u: string, n: nat)
    requires p != [] && p[0] == '#' && n <= |u| && SingleLine(u[..n]) && PatternMatches(p[1..], u[n..])
    ensures PatternMatches(p, u)
  {
  }

  lemma LiteralTakes(p: string, u: string)
    requires p != [] && p[0] != '+' && p[0] != '#' && u != [] && u[0] == p[0] && PatternMatches(p[1..], u[1..])
    ensures PatternMatches(p, u)
  {
  }

  lemma PatternTook(p: string, u: string) returns (n: nat)
    requires p != [] && PatternMatches(p, u)
    ensures n <= |u| && Takes(p[0], u[..n]) && PatternMatches(p[1..], u[n..])
  {
    if p[0] == '+' {
      n :| 1 <= n <= |u| && '/' !in u[..n] && PatternMatches(p[1..], u[n..]);
    } else if p[0] == '#' {
      n :| 0 <= n <= |u| && SingleLine(u[..n]) && PatternMatches(p[1..], u[n..]);
    } else {
      n := 1;
    }
  }

  /** Main result: for every pattern and every topic the compiled expression is
      well formed and accepts exactly what the pattern means. */
  lemma CompilationPreservesMeaning(p: string, t: string)
    ensures FullMatch("^" + Compiled(p) + "$", t) <==> PatternMatches(p, t)
  {
    PassesCompose(p);
    PiecesParse(p);
    var r := "^" + Compiled(p) + "$";
    assert r[1..] == Pieces(p) + "$";
    var items := [Begin] + (Items(p) + [End]);
    assert Parse(r) == Some(items) && items[1..] == Items(p) + [End];
    ItemsMeanPattern(p, t, 0);
    assert t[0..] == t;
  }
}

/** How the matcher relates to the wildcard rules of section 4.7.1 of MQTT 3.1.1,
    which are stated on the levels between slashes. */
module TopicLevels {
  import opened GetLine
  import opened Regex
  import opened TopicPattern

  /** Wildcards occupy a whole level and # is the last one. */
  ghost predicate ValidFilter(filter: seq<string>) {
    && filter != [] && SlashFree(filter)
    && forall i | 0 <= i < |filter| ::
         || filter[i] == "+"
         || (filter[i] == "#" && i == |filter| - 1)
         || ('+' !in filter[i] && '#' !in filter[i])
  }

  /** Section 4.7.1: # takes any number of levels, none included, and + exactly one. */
  ghost predicate Standard(filter: seq<string>, topic: seq<string>)
    decreases |filter|
  {
    if filter == [] then topic == []
    else if filter[0] == "#" then true
    else topic != [] && (filter[0] == "+" || filter[0] == topic[0]) && Standard(filter[1..], topic[1..])
  }

  /** What the code does: # takes at least one level (on one line), + a non-empty one. */
  ghost predicate Coded(filter: seq<string>, topic: seq<string>)
    decreases |filter|
  {
    if filter == [] then topic == []
    else if topic == [] then false
    else if filter[0] == "#" then SingleLine(Join(topic))
    else (if filter[0] == "+" then topic[0] != [] else filter[0] == topic[0])
         && Coded(filter[1..], topic[1..])
  }

  /** A run without a slash that stops at a slash or at the end is the first level. */
  lemma FirstLevel(topic: seq<string>, k: nat)
    requires topic != [] && SlashFree(topic)
    requires k <= |Join(topic)| && '/' !in Join(topic)[..k]
    requires k == |Join(topic)| || Join(topic)[k] == '/'
    ensures k == |topic[0]| && Join(topic)[..k] == topic[0]
    ensures k == |Join(topic)| <==> |topic| == 1
    ensures |topic| > 1 ==> Join(topic)[k..] == "/" + Join(topic[1..])
  {
    var t, n := Join(topic), |topic[0]|;
    assert t[..n] == topic[0];
    if |topic| > 1 {
      assert t[n] == '/' && t[n..] == "/" + Join(topic[1..]);
      InPrefix(t, k, n);
    }
    if k < |t| {
      InPrefix(t, n, k);
    }
  }

  lemma InPrefix(t: string, n: nat, j: nat)
    requires n <= |t| && j < |t|
    ensures j < n ==> t[j] in t[..n]
  {
    if j < n {
      assert t[..n][j] == t[j];
    }
  }

  lemma {:induction false} LiteralPrefix(l: string, r: string, t: string)
    requires '+' !in l && '#' !in l
    ensures PatternMatches(l + r, t) <==> l <= t && PatternMatches(r, t[|l|..])
    decreases |l|
  {
    if l == [] {
      assert l + r == r && t[0..] == t;
    } else {
      var p := l + r;
      assert p[0] == l[0] && l[0] in l && p[1..] == l[1..] + r;
      if t != [] {
        LiteralPrefix(l[1..], r, t[1..]);
        assert l <= t <==> l[0] == t[0] && l[1..] <= t[1..];
        if l <= t {
          assert t[1..][|l[1..]|..] == t[|l|..];
        }
      }
    }
  }

  /** A filter level that is not the last, read on a topic. */
  lemma PlusLevel(r: string, topic: seq<string>)
    requires topic != [] && SlashFree(topic) && (r == [] || r[0] == '/')
    ensures PatternMatches("+" + r, Join(topic))
       <==> topic[0] != [] && PatternMatches(r, Join(topic)[|topic[0]|..])
  {
    var p, t, n := "+" + r, Join(topic), |topic[0]|;
    assert p[1..] == r && t[..n] == topic[0];
    if PatternMatches(p, t) {
      var k :| 1 <= k <= |t| && '/' !in t[..k] && PatternMatches(p[1..], t[k..]);
      StopsAtSlash(r, t[k..]);
      FirstLevel(topic, k);
    }
    if topic[0] != [] && PatternMatches(r, t[n..]) {
      PlusTakes(p, t, n);
    }
  }

  lemma StopsAtSlash(r: string, t: string)
    requires (r == [] || r[0] == '/') && PatternMatches(r, t)
    ensures t == [] || t[0] == '/'
  {
  }

  lemma {:induction false} LevelsMatch(filter: seq<string>, topic: seq<string>)
    requires ValidFilter(filter) && topic != [] && SlashFree(topic)
    ensures PatternMatches(Join(filter), Join(topic)) <==> Coded(filter, topic)
    decreases |filter|
  {
    var f, t, n := filter[0], Join(topic), |topic[0]|;
    var r := if |filter| == 1 then "" else "/" + Join(filter[1..]);
    assert Join(filter) == f + r;
    if f == "#" {
      HashLevel(t);
    } else {
      RestMatches(filter, topic, r);
      if f == "+" {
        PlusLevel(r, topic);
      } else {
        LiteralPrefix(f, r, t);
        if f <= t && PatternMatches(r, t[|f|..]) {
          StopsAtSlash(r, t[|f|..]);
          assert t[..|f|] == f;
          FirstLevel(topic, |f|);
        }
        assert t[..n] == topic[0];
      }
    }
  }

  lemma HashLevel(t: string)
    ensures PatternMatches("#", t) <==> SingleLine(t)
  {
    assert "#"[1..] == [] && t[..|t|] == t;
    if PatternMatches("#", t) {
      var k :| 0 <= k <= |t| && SingleLine(t[..k]) && PatternMatches([], t[k..]);
    }
    if SingleLine(t) {
      HashTakes("#", t, |t|);
    }
  }

  /** The filter # takes every text on one line, and no other. */
  lemma HashTakesOneLine(t: string)
    ensures PatternMatches("#", t) <==> '\n' !in t && '\r' !in t
  {
    HashLevel(t);
    hide PatternMatches;
  }

  /** What remains behind the first level, when a further filter level follows or not. */
  lemma RestMatches(filter: seq<string>, topic: seq<string>, r: string)
    requires ValidFilter(filter) && filter[0] != "#" && topic != [] && SlashFree(topic)
    requires r == if |filter| == 1 then "" else "/" + Join(filter[1..])
    ensures PatternMatches(r, Join(topic)[|topic[0]|..]) <==> Coded(filter[1..], topic[1..])
    decreases |filter|, 0
  {
    var u := Join(topic)[|topic[0]|..];
    if |filter| == 1 {
      assert u == [] <==> topic[1..] == [];
    } else {
      assert r[1..] == Join(filter[1..]);
      if |topic| > 1 {
        assert u == "/" + Join(topic[1..]) && u[1..] == Join(topic[1..]);
        LevelsMatch(filter[1..], topic[1..]);
      }
    }
  }

  /** An empty level where the filter has +. */
  ghost predicate EmptyUnderPlus(filter: seq<string>, topic: seq<string>) {
    exists i :: 0 <= i < |filter| && i < |topic| && filter[i] == "+" && topic[i] == []
  }

  /** The three ways in which the code departs from the standard: the bare parent
      of a trailing #, an empty level under +, a line break under #. */
  ghost predicate Departs(filter: seq<string>, topic: seq<string>)
    requires filter != []
  {
    var n := |filter|;
    || (filter[n - 1] == "#" && |topic| == n - 1)
    || (filter[n - 1] == "#" && |topic| >= n && !SingleLine(Join(topic[n - 1..])))
    || EmptyUnderPlus(filter, topic)
  }

  lemma EmptyFirstOrLater(filter: seq<string>, topic: seq<string>)
    requires filter != [] && topic != []
    ensures EmptyUnderPlus(filter, topic)
       <==> (filter[0] == "+" && topic[0] == []) || EmptyUnderPlus(filter[1..], topic[1..])
  {
    var g, u := filter[1..], topic[1..];
    if EmptyUnderPlus(filter, topic) {
      var i :| 0 <= i < |filter| && i < |topic| && filter[i] == "+" && topic[i] == [];
      assert i > 0 ==> g[i - 1] == "+" && u[i - 1] == [];
    }
    if EmptyUnderPlus(g, u) {
      var i :| 0 <= i < |g| && i < |u| && g[i] == "+" && u[i] == [];
      assert filter[i + 1] == "+" && topic[i + 1] == [];
    }
  }

  lemma {:induction false} CodedIsStandard(filter: seq<string>, topic: seq<string>)
    requires ValidFilter(filter)
    ensures Coded(filter, topic) <==> Standard(filter, topic) && !Departs(filter, topic)
    decreases |filter|
  {
    if topic != [] {
      EmptyFirstOrLater(filter, topic);
      var g, u := filter[1..], topic[1..];
      if |filter| == 1 {
        assert topic[0..] == topic;
      } else {
        CodedIsStandard(g, u);
        hide EmptyUnderPlus, SingleLine, Join;
        assert |topic| >= |filter| ==> topic[|filter| - 1..] == u[|g| - 1..];
      }
    }
  }

  /** Main result: with wildcards on whole levels and # last, the code takes a
      topic exactly when section 4.7.1 does and none of the three departures
      applies. */
  lemma AgreesWithStandard(filter: seq<string>, topic: seq<string>)
    requires ValidFilter(filter) && topic != [] && SlashFree(topic)
    ensures PatternMatches(Join(filter), Join(topic))
       <==> Standard(filter, topic) && !Departs(filter, topic)
  {
    LevelsMatch(filter, topic);
    CodedIsStandard(filter, topic);
  }

  /** Each departure has its topic: "a/#" does not take "a", ... */
  lemma BareParentRefused()
    ensures Standard(["a", "#"], ["a"]) && !PatternMatches(Join(["a", "#"]), Join(["a"]))
  {
    assert ["a", "#"][1..] == ["#"];
    AgreesWithStandard(["a", "#"], ["a"]);
    hide PatternMatches, Join;
  }

  /** ... "+" does not take the empty level, ... */
  lemma EmptyLevelRefused()
    ensures Standard(["+"], [""]) && !PatternMatches(Join(["+"]), Join([""]))
  {
    AgreesWithStandard(["+"], [""]);
    hide PatternMatches, Join;
  }

  /** ... and "#" not a level that is a line break. */
  lemma LineBreakRefused()
    ensures Standard(["#"], ["\n"]) && !PatternMatches(Join(["#"]), Join(["\n"]))
  {
    assert ["\n"][0..] == ["\n"] && Join(["\n"]) == "\n";
    assert '\n' in "\n" && !SingleLine("\n");
    AgreesWithStandard(["#"], ["\n"]);
    hide PatternMatches, Join;
  }
}
