/** Statements as tokens: what the tokeniser makes of a text, and which texts spell which tokens
    (sql_parser/tokeniser.go). */
module Tokeniser {

  datatype Kind = Identifier | Keyword | Symbol | Comparison | Eof

  datatype Token = Token(kind: Kind, value: string)

  /** The character classes of Go's `unicode` package: spaces, letters or digits, upper case. */
  datatype Runes = Runes(space: char -> bool, word: char -> bool, upper: char -> char)

  predicate IsSymbol(c: char) {
    c in "(),;*"
  }

  predicate IsComparison(c: char) {
    c in "<>="
  }

  predicate Supported(u: Runes, c: char) {
    IsSymbol(c) || IsComparison(c) || u.word(c)
  }

  /** What is used of the classes: they are disjoint, and capitals are upper-case letters. */
  ghost predicate Proper(u: Runes) {
    && (forall c {:trigger u.space(c)} :: u.space(c) ==> !Supported(u, c))
    && (forall c {:trigger u.word(c)} :: u.word(c) ==> !IsSymbol(c) && !IsComparison(c))
    && (forall c {:trigger u.word(c)} {:trigger u.upper(c)} :: 'A' <= c <= 'Z' ==> u.word(c) && u.upper(c) == c)
  }

  const KEYWORDS: set<string> := {"CREATE", "TABLE", "PRIMARY", "KEY", "INSERT", "INTO", "VALUES", "SELECT", "FROM", "WHERE", "AND"}

  function Upper(u: Runes, s: string): string {
    seq(|s|, i requires 0 <= i < |s| => u.upper(s[i]))
  }

  function WordToken(u: Runes, s: string): Token {
    Token(if Upper(u, s) in KEYWORDS then Keyword else Identifier, s)
  }

  /** How many characters at the start belong to a class. */
  function Run(p: char -> bool, s: string): (n: nat)
    ensures n <= |s|
    ensures forall i :: 0 <= i < n ==> p(s[i])
    ensures n < |s| ==> !p(s[n])
  {
    if s == [] || !p(s[0]) then 0 else 1 + Run(p, s[1..])
  }

  lemma {:induction false} RunIs(p: char -> bool, s: string, n: nat)
    requires n <= |s| && (forall i :: 0 <= i < n ==> p(s[i])) && (n < |s| ==> !p(s[n]))
    ensures Run(p, s) == n
  {
    if n > 0 {
      RunIs(p, s[1..], n - 1);
    }
  }

  datatype Lexed = Lexed(token: Token, rest: string)

  function Unspaced(u: Runes, s: string): string {
    s[Run(u.space, s)..]
  }

  function First(u: Runes, t: string): Lexed {
    if t == [] then Lexed(Token(Eof, ""), t)
    else if IsSymbol(t[0]) then Lexed(Token(Symbol, [t[0]]), t[1..])
    else
      var comparing := IsComparison(t[0]);
      var n := Run(if comparing then IsComparison else u.word, t);
      Lexed(if comparing then Token(Comparison, t[..n]) else WordToken(u, t[..n]), t[n..])
  }

  function Next(u: Runes, s: string): Lexed {
    First(u, Unspaced(u, s))
  }

  /** Every character is a space or ends up in a token's value. */
  lemma NextSplits(u: Runes, s: string)
    ensures Unspaced(u, s) == Next(u, s).token.value + Next(u, s).rest
    ensures |Next(u, s).token.value| + |Next(u, s).rest| <= |s|
  {
  }

  /** A token other than the end consumes input if and only if the first character that is not
      a space is supported. */
  lemma ProgressIff(u: Runes, s: string)
    requires Next(u, s).token.kind != Eof
    ensures Unspaced(u, s) != []
    ensures Next(u, s).token.value != [] <==> Supported(u, Unspaced(u, s)[0])
  {
    var t := Unspaced(u, s);
    var words, marks := Run(u.word, t), Run(IsComparison, t);
    if words == 0 {
      assert !u.word(t[0]);
    } else {
      assert u.word(t[0]);
    }
    if marks == 0 {
      assert !IsComparison(t[0]);
    }
  }

  /** At an unsupported character the tokeniser stays where it is for ever. */
  lemma StuckStays(u: Runes, s: string)
    requires Next(u, s).token.kind != Eof && Next(u, s).token.value == []
    ensures Next(u, Next(u, s).rest) == Next(u, s)
  {
    hide Run;
    NextSplits(u, s);
    var t := Unspaced(u, s);
    assert Next(u, s).rest == t;
    assert !u.space(t[0]);
    RunIs(u.space, t, 0);
    assert Unspaced(u, t) == t;
  }

  // ----- what the first token of a text is -----

  predicate AllOf(p: char -> bool, s: string) {
    forall i :: 0 <= i < |s| ==> p(s[i])
  }

  /** The letters of a keyword, in upper or lower case. */
  ghost predicate SpellsKeyword(u: Runes, s: string) {
    exists k :: k in KEYWORDS && |k| == |s| && forall i :: 0 <= i < |s| ==> u.upper(s[i]) == k[i]
  }

  /** A character of `s` that does not belong to the token before it. */
  predicate Stops(p: char -> bool, s: string) {
    s != [] ==> !p(s[0])
  }

  /** Behind the spaces stands the longest run of operator characters or of letters and digits, or
      one symbol, or nothing; at any other character a name of no characters. */
  ghost predicate IsFirst(u: Runes, t: Token, rest: string) {
    match t.kind
    case Eof => t.value == "" && rest == ""
    case Symbol => |t.value| == 1 && IsSymbol(t.value[0])
    case Comparison => t.value != "" && AllOf(IsComparison, t.value) && Stops(IsComparison, rest)
    case Keyword => t.value != "" && AllOf(u.word, t.value) && Stops(u.word, rest) && SpellsKeyword(u, t.value)
    case Identifier =>
      if t.value == "" then rest != "" && !u.space(rest[0]) && !Supported(u, rest[0])
      else AllOf(u.word, t.value) && Stops(u.word, rest) && !SpellsKeyword(u, t.value)
  }

  ghost predicate StartsWithToken(u: Runes, text: string, t: Token, rest: string) {
    && |text| >= |t.value| + |rest|
    && var gap := |text| - |t.value| - |rest|;
       Blank(u, text[..gap]) && text[gap..] == t.value + rest
  }

  lemma KeywordIff(u: Runes, s: string)
    ensures Upper(u, s) in KEYWORDS <==> SpellsKeyword(u, s)
  {
    if SpellsKeyword(u, s) {
      var k :| k in KEYWORDS && |k| == |s| && forall i :: 0 <= i < |s| ==> u.upper(s[i]) == k[i];
      assert Upper(u, s) == k;
    }
    if Upper(u, s) in KEYWORDS {
      var k := Upper(u, s);
      assert |k| == |s| && forall i :: 0 <= i < |s| ==> u.upper(s[i]) == k[i];
    }
  }

  lemma FirstIff(u: Runes, s: string, t: Token, rest: string)
    requires Proper(u) && Stops(u.space, s)
    ensures First(u, s) == Lexed(t, rest) <==> s == t.value + rest && IsFirst(u, t, rest)
  {
    hide Run, Upper, SpellsKeyword;
    KeywordIff(u, t.value);
    NoEmptyKeyword(u);
    if s == t.value + rest && IsFirst(u, t, rest) {
      assert t.value != "" ==> s[0] == t.value[0];
      assert s[..|t.value|] == t.value && s[|t.value|..] == rest;
      if t.kind == Comparison {
        RunIs(IsComparison, s, |t.value|);
      } else if t.kind == Keyword || t.kind == Identifier {
        RunIs(u.word, s, |t.value|);
      }
    }
  }

  lemma NoEmptyKeyword(u: Runes)
    ensures !SpellsKeyword(u, "")
  {
  }

  lemma SpacesEnd(u: Runes, t: Token, rest: string)
    requires Proper(u) && IsFirst(u, t, rest)
    ensures Stops(u.space, t.value + rest)
  {
    hide SpellsKeyword;
  }

  /** The next token of any text is exactly that. */
  lemma NextIff(u: Runes, text: string, t: Token, rest: string)
    requires Proper(u)
    ensures Next(u, text) == Lexed(t, rest) <==> StartsWithToken(u, text, t, rest) && IsFirst(u, t, rest)
  {
    hide Run, First, IsFirst;
    var s := Unspaced(u, text);
    FirstIff(u, s, t, rest);
    if Next(u, text) == Lexed(t, rest) {
      assert text[|text| - |s|..] == s;
    }
    if StartsWithToken(u, text, t, rest) && IsFirst(u, t, rest) {
      SpacesEnd(u, t, rest);
      var gap := |text| - |t.value| - |rest|;
      forall i | 0 <= i < gap
        ensures u.space(text[i])
      {
        assert text[..gap][i] == text[i];
      }
      assert gap < |text| ==> text[gap] == (t.value + rest)[0];
      RunIs(u.space, text, gap);
    }
  }

  // ----- texts that spell tokens -----

  /** The text starts with these tokens. */
  ghost predicate Reads(u: Runes, text: string, tokens: seq<Token>)
    decreases |tokens|
  {
    tokens == [] || (Next(u, text).token == tokens[0] && Reads(u, Next(u, text).rest, tokens[1..]))
  }

  predicate IsWord(t: Token) {
    t.kind == Keyword || t.kind == Identifier
  }

  /** A token as it can be written. */
  predicate Spellable(u: Runes, t: Token) {
    match t.kind
    case Symbol => |t.value| == 1 && IsSymbol(t.value[0])
    case Comparison => t.value != [] && forall i :: 0 <= i < |t.value| ==> IsComparison(t.value[i])
    case Eof => false
    case _ => t.value != [] && (forall i :: 0 <= i < |t.value| ==> u.word(t.value[i])) && t == WordToken(u, t.value)
  }

  /** Two tokens that would run together. */
  predicate Cling(a: Token, b: Token) {
    (IsWord(a) && IsWord(b)) || (a.kind == Comparison && b.kind == Comparison)
  }

  predicate Blank(u: Runes, s: string) {
    forall i :: 0 <= i < |s| ==> u.space(s[i])
  }

  /** Any spaces before each token, and some where two would run together. */
  predicate Spaced(u: Runes, tokens: seq<Token>, gaps: seq<string>) {
    && |gaps| == |tokens|
    && (forall i :: 0 <= i < |gaps| ==> Blank(u, gaps[i]))
    && (forall i :: 0 < i < |gaps| && Cling(tokens[i - 1], tokens[i]) ==> gaps[i] != [])
  }

  function Text(tokens: seq<Token>, gaps: seq<string>, tail: string): string
    requires |gaps| == |tokens|
  {
    if tokens == [] then tail else gaps[0] + (tokens[0].value + Text(tokens[1..], gaps[1..], tail))
  }

  /** What stands after a token does not prolong it. */
  predicate Ends(u: Runes, t: Token, rest: string) {
    rest == [] || ((IsWord(t) ==> !u.word(rest[0])) && (t.kind == Comparison ==> !IsComparison(rest[0])))
  }

  lemma NextIs(u: Runes, gap: string, t: Token, rest: string)
    requires Proper(u) && Blank(u, gap) && Spellable(u, t) && Ends(u, t, rest)
    ensures Next(u, gap + (t.value + rest)) == Lexed(t, rest)
  {
    hide Run, Upper;
    var s, more := gap + (t.value + rest), t.value + rest;
    assert s[|gap|] == more[0] == t.value[0];
    RunIs(u.space, s, |gap|);
    assert Unspaced(u, s) == more;
    assert more[..|t.value|] == t.value && more[|t.value|..] == rest;
    if t.kind == Comparison {
      RunIs(IsComparison, more, |t.value|);
    } else if IsWord(t) {
      RunIs(u.word, more, |t.value|);
    }
  }

  /** What a spaced list of tokens starts with. */
  lemma StartsWith(u: Runes, tokens: seq<Token>, gaps: seq<string>, tail: string, before: Token)
    requires Proper(u) && tokens != [] && |gaps| == |tokens| && Blank(u, gaps[0])
    requires Spellable(u, tokens[0]) && Spellable(u, before) && (Cling(before, tokens[0]) ==> gaps[0] != [])
    ensures Ends(u, before, Text(tokens, gaps, tail))
  {
    hide Upper;
    var text := Text(tokens, gaps, tail);
    if gaps[0] != [] {
      assert text[0] == gaps[0][0];
    } else {
      assert text[0] == tokens[0].value[0];
    }
  }

  /** A text made of spellable tokens with any spacing reads as these tokens. */
  lemma {:induction false} TextReads(u: Runes, tokens: seq<Token>, gaps: seq<string>, tail: string)
    requires Proper(u) && (forall i :: 0 <= i < |tokens| ==> Spellable(u, tokens[i])) && Spaced(u, tokens, gaps)
    requires tokens != [] ==> Ends(u, tokens[|tokens| - 1], tail)
    ensures Reads(u, Text(tokens, gaps, tail), tokens)
    decreases |tokens|
  {
    hide Spellable, Ends, Blank, Next, Cling;
    if tokens != [] {
      var rest := Text(tokens[1..], gaps[1..], tail);
      if tokens[1..] != [] {
        StartsWith(u, tokens[1..], gaps[1..], tail, tokens[0]);
      }
      NextIs(u, gaps[0], tokens[0], rest);
      TextReads(u, tokens[1..], gaps[1..], tail);
    }
  }

  // ----- the tokeniser itself -----

  class Tokens {
    const u: Runes
    const input: string
    var pos: nat

    constructor (u: Runes, input: string)
      ensures this.u == u && this.input == input && pos == 0
    {
      this.u, this.input, pos := u, input, 0;
    }

    function Left(): string
      requires pos <= |input|
      reads this`pos
    {
      input[pos..]
    }

    method SkipRun(p: char -> bool)
      requires pos <= |input|
      modifies this`pos
      ensures pos == old(pos) + Run(p, old(Left())) <= |input|
    {
      hide Run;
      while pos < |input| && p(input[pos])
        invariant old(pos) <= pos <= |input| && forall i :: old(pos) <= i < pos ==> p(input[i])
      {
        pos := pos + 1;
      }
      ghost var n := pos - old(pos);
      assert forall i :: 0 <= i < n ==> old(Left())[i] == input[old(pos) + i];
      RunIs(p, old(Left()), n);
    }

    method FirstToken() returns (t: Token)
      requires pos <= |input|
      modifies this`pos
      ensures old(pos) <= pos <= |input| && Lexed(t, Left()) == First(u, old(Left()))
    {
      hide Run, Upper, IsComparison, IsSymbol;
      if pos >= |input| {
        return Token(Eof, "");
      }
      ghost var s := Left();
      var ch, start := input[pos], pos;
      if IsSymbol(ch) {
        pos := pos + 1;
        assert s[1..] == Left();
        return Token(Symbol, [ch]);
      }
      var comparing := IsComparison(ch);
      SkipRun(if comparing then IsComparison else u.word);
      assert s[..pos - start] == input[start..pos] && s[pos - start..] == Left();
      t := if comparing then Token(Comparison, input[start..pos]) else WordToken(u, input[start..pos]);
    }

    method NextToken() returns (t: Token)
      requires pos <= |input|
      modifies this`pos
      ensures old(pos) <= pos <= |input| && Lexed(t, Left()) == Next(u, old(Left()))
    {
      hide Run, First;
      SkipRun(u.space);
      assert Left() == Unspaced(u, old(Left()));
      t := FirstToken();
    }
  }
}
