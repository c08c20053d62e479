/** Removing the quotes from a command-line argument. */
module Unquote {

  /** The character at a place, or the NUL behind the end. */
  function At(s: string, i: nat): char {
    if i < |s| then s[i] else '\0'
  }

  predicate IsQuote(c: char) { c == '\'' || c == '"' }

  predicate IsSpace(c: char) { c == ' ' || c == '\t' || c == '\n' || c == '\r' || c == 11 as char || c == 12 as char }

  /** A backslash counts only in front of a quote. */
  predicate Escape(s: string, i: nat) {
    At(s, i) == '\\' && IsQuote(At(s, i + 1))
  }

  /** What unquote has still to write; quote is NUL outside of quotes. */
  function Rest(s: string, i: nat, quote: char): string
    decreases |s| - i
  {
    if i >= |s| || (quote == '\0' && IsSpace(s[i])) then ""
    else if quote != '\0' && s[i] == quote then Rest(s, i + 1, '\0')
    else if quote == '\0' && IsQuote(s[i]) then Rest(s, i + 1, s[i])
    else if Escape(s, i) then [At(s, i + 1)] + Rest(s, i + 2, quote)
    else [s[i]] + Rest(s, i + 1, quote)
  }

  ghost predicate NulFree(s: string) {
    forall i :: 0 <= i < |s| ==> s[i] != '\0'
  }

  lemma {:induction false} NoLonger(s: string, i: nat, quote: char)
    requires i <= |s|
    ensures |Rest(s, i, quote)| <= |s| - i
    decreases |s| - i
  {
    if i >= |s| || (quote == '\0' && IsSpace(s[i])) {
    } else if quote != '\0' && s[i] == quote {
      NoLonger(s, i + 1, '\0');
    } else if quote == '\0' && IsQuote(s[i]) {
      NoLonger(s, i + 1, s[i]);
    } else if Escape(s, i) {
      NoLonger(s, i + 2, quote);
    } else {
      NoLonger(s, i + 1, quote);
    }
  }

  method Put(dst: array<char>, n: nat, c: char)
    requires n < dst.Length
    modifies dst
    ensures dst[..n + 1] == old(dst[..n]) + [c]
  {
    dst[n] := c;
  }

  /** unquote: the buffer that unquoted_argv allocates is large enough for what is written and the NUL behind it. */
  method Unquote(src: string, dst: array<char>)
    requires NulFree(src) && dst.Length >= |src| + 1
    modifies dst
    ensures var r := Rest(src, 0, '\0');
            |r| <= |src| && dst[..|r|] == r && dst[|r|] == '\0'
  {
    var i, n, quote := 0, 0, '\0';
    ghost var r := Rest(src, 0, '\0');
    NoLonger(src, 0, '\0');
    while (quote != '\0' || !IsSpace(At(src, i))) && At(src, i) != '\0'
      invariant i <= |src| && n <= i && r == dst[..n] + Rest(src, i, quote)
      decreases |src| - i
    {
      NextStep(src, i, quote);
      hide *;
      if quote != '\0' && src[i] == quote {
        quote := '\0';
        i := i + 1;
      } else if quote == '\0' && IsQuote(src[i]) {
        quote := src[i];
        i := i + 1;
      } else if Escape(src, i) {
        i := i + 1;
        OneWritten(r, dst[..n], src[i], Rest(src, i + 1, quote));
        Put(dst, n, src[i]);
        n, i := n + 1, i + 1;
      } else {
        OneWritten(r, dst[..n], src[i], Rest(src, i + 1, quote));
        Put(dst, n, src[i]);
        n, i := n + 1, i + 1;
      }
    }
    NothingLeft(src, i, quote);
    hide *;
    ghost var written := dst[..n];
    Put(dst, n, '\0');
    assert dst[..n + 1][..n] == written && dst[..n + 1][n] == '\0';
  }

  lemma NothingLeft(s: string, i: nat, quote: char)
    requires NulFree(s) && i <= |s| && ((quote == '\0' && IsSpace(At(s, i))) || At(s, i) == '\0')
    ensures Rest(s, i, quote) == ""
  {
  }

  lemma NextStep(s: string, i: nat, quote: char)
    requires i < |s| && (quote != '\0' || !IsSpace(s[i]))
    ensures Rest(s, i, quote) ==
      if quote != '\0' && s[i] == quote then Rest(s, i + 1, '\0')
      else if quote == '\0' && IsQuote(s[i]) then Rest(s, i + 1, s[i])
      else if Escape(s, i) then [At(s, i + 1)] + Rest(s, i + 2, quote)
      else [s[i]] + Rest(s, i + 1, quote)
    ensures Escape(s, i) ==> i + 1 < |s| && At(s, i + 1) == s[i+1]
    ensures |Rest(s, i, quote)| <= |s| - i
  {
    NoLonger(s, i, quote);
  }

  lemma OneWritten(r: string, written: string, c: char, rest: string)
    requires r == written + ([c] + rest)
    ensures r == written + [c] + rest
  {
  }

  // ---------- what the quotes mean ----------

  /** A quote that opens or closes, a character that stands for itself, or a quote behind a backslash */
  datatype Token = Open(quote: char) | Close | Copy(c: char) | Escaped(c: char)

  /** How the tokens are written, when this quote is open; NUL stands for none. */
  function Spell(tokens: seq<Token>, quote: char): string {
    if tokens == [] then ""
    else
      match tokens[0]
      case Open(q) => [q] + Spell(tokens[1..], q)
      case Close => [quote] + Spell(tokens[1..], '\0')
      case Copy(c) => [c] + Spell(tokens[1..], quote)
      case Escaped(c) => ['\\', c] + Spell(tokens[1..], quote)
  }

  function Own(token: Token): string {
    match token
    case Copy(c) => [c]
    case Escaped(c) => [c]
    case _ => ""
  }

  function Means(tokens: seq<Token>): string {
    if tokens == [] then "" else Own(tokens[0]) + Means(tokens[1..])
  }

  /**
   * Outside quotes both kinds of quote open, and whitespace ends the argument; inside, only the same quote closes. A
   * backslash stands for itself unless it is written in front of a quote. What is left of the argument begins with
   * whitespace.
   */
  ghost predicate Regular(tokens: seq<Token>, quote: char, tail: string) {
    if tokens == [] then
      tail == "" || (quote == '\0' && (tail[0] == ' ' || '\t' <= tail[0] <= '\r'))
    else
      var rest := tokens[1..];
      match tokens[0]
      case Open(q) => quote == '\0' && (q == '\'' || q == '"') && Regular(rest, q, tail)
      case Close => quote != '\0' && Regular(rest, '\0', tail)
      case Copy(c) =>
        && c != '\0' && Regular(rest, quote, tail)
        && (quote != '\0' ==> c != quote)
        && (quote == '\0' ==> c != '\'' && c != '"' && c != ' ' && !('\t' <= c <= '\r'))
        && (c == '\\' ==> NoQuoteAhead(Spell(rest, quote) + tail))
      case Escaped(c) => (c == '\'' || c == '"') && Regular(rest, quote, tail)
  }

  predicate NoQuoteAhead(s: string) {
    s == "" || (s[0] != '\'' && s[0] != '"')
  }

  lemma {:induction false} RestShift(s: string, i: nat, j: nat, quote: char)
    requires i + j <= |s|
    ensures Rest(s, i + j, quote) == Rest(s[i..], j, quote)
    decreases |s| - i - j
  {
    if i + j < |s| && !(quote == '\0' && IsSpace(s[i + j])) {
      assert s[i..][j] == s[i + j] && At(s[i..], j + 1) == At(s, i + (j + 1));
      if quote != '\0' && s[i + j] == quote {
        RestShift(s, i, j + 1, '\0');
      } else if quote == '\0' && IsQuote(s[i + j]) {
        RestShift(s, i, j + 1, s[i + j]);
      } else if Escape(s, i + j) {
        RestShift(s, i, j + 2, quote);
      } else {
        RestShift(s, i, j + 1, quote);
      }
    }
  }

  /** The first character decides how the rest is read. */
  lemma FirstCharacter(c: char, t: string, quote: char)
    ensures Rest([c] + t, 0, quote) ==
      if quote == '\0' && IsSpace(c) then ""
      else if quote != '\0' && c == quote then Rest(t, 0, '\0')
      else if quote == '\0' && IsQuote(c) then Rest(t, 0, c)
      else if c == '\\' && t != "" && IsQuote(t[0]) then [t[0]] + Rest(t[1..], 0, quote)
      else [c] + Rest(t, 0, quote)
  {
    var s := [c] + t;
    assert s[1..] == t && (t != "" ==> s[2..] == t[1..]);
    RestShift(s, 1, 0, quote);
    RestShift(s, 1, 0, '\0');
    RestShift(s, 1, 0, c);
    if t != "" { RestShift(s, 2, 0, quote); }
    assert At(s, 1) == At(t, 0);
  }

  /** Whatever is written by these rules is read as it is meant: pieces in either kind of quote and pieces without
      quotes, one behind the other, up to the first whitespace outside quotes or the end. */
  lemma {:induction false} ReadsBack(tokens: seq<Token>, quote: char, tail: string)
    requires Regular(tokens, quote, tail) && (quote == '\0' || quote == '\'' || quote == '"')
    ensures Rest(Spell(tokens, quote) + tail, 0, quote) == Means(tokens)
  {
    if tokens != [] {
      FirstToken(tokens, quote, tail);
      ReadsBack(tokens[1..], OpenAfter(tokens[0], quote), tail);
      hide Rest, Spell;
    }
  }

  /** The quote that is open behind a token */
  function OpenAfter(token: Token, quote: char): char {
    match token
    case Open(q) => q
    case Close => '\0'
    case _ => quote
  }

  /** The first token is read as it is meant, and the rest from there on. */
  lemma FirstToken(tokens: seq<Token>, quote: char, tail: string)
    requires tokens != [] && Regular(tokens, quote, tail) && (quote == '\0' || quote == '\'' || quote == '"')
    ensures var rest := Rest(Spell(tokens[1..], OpenAfter(tokens[0], quote)) + tail, 0, OpenAfter(tokens[0], quote));
            Rest(Spell(tokens, quote) + tail, 0, quote) == Own(tokens[0]) + rest
  {
    var t := Spell(tokens[1..], OpenAfter(tokens[0], quote)) + tail;
    SpelledFirst(tokens, quote, tail);
    hide Rest, Spell;
    match tokens[0]
    case Open(q) => FirstCharacter(q, t, quote);
    case Close => FirstCharacter(quote, t, quote);
    case Copy(c) => FirstCharacter(c, t, quote);
    case Escaped(c) =>
      assert ([c] + t)[1..] == t;
      FirstCharacter('\\', [c] + t, quote);
  }

  lemma SpelledFirst(tokens: seq<Token>, quote: char, tail: string)
    requires tokens != []
    ensures var t := Spell(tokens[1..], OpenAfter(tokens[0], quote)) + tail;
            Spell(tokens, quote) + tail ==
              match tokens[0]
              case Open(q) => [q] + t
              case Close => [quote] + t
              case Copy(c) => [c] + t
              case Escaped(c) => ['\\'] + ([c] + t)
  {
  }

  /** Every argument is written by these rules, up to the whitespace that ends it. */
  lemma {:induction false} Tokenized(s: string, quote: char) returns (tokens: seq<Token>, tail: string)
    requires NulFree(s) && (quote == '\0' || quote == '\'' || quote == '"')
    ensures Regular(tokens, quote, tail) && s == Spell(tokens, quote) + tail
    decreases |s|
  {
    if s == "" || (quote == '\0' && (s[0] == ' ' || '\t' <= s[0] <= '\r')) {
      return [], s;
    }
    var first := Leading(s, quote);
    var more;
    more, tail := Tokenized(s[Length(first)..], OpenAfter(first, quote));
    tokens := [first] + more;
    LeadingRegular(s, quote, more, tail);
    hide *;
  }

  /** What an argument begins with */
  function Leading(s: string, quote: char): (first: Token)
    requires s != ""
    ensures Length(first) <= |s|
  {
    if quote != '\0' && s[0] == quote then Close
    else if quote == '\0' && (s[0] == '\'' || s[0] == '"') then Open(s[0])
    else if s[0] == '\\' && |s| > 1 && (s[1] == '\'' || s[1] == '"') then Escaped(s[1])
    else Copy(s[0])
  }

  function Length(token: Token): nat {
    if token.Escaped? then 2 else 1
  }

  lemma LeadingRegular(s: string, quote: char, more: seq<Token>, tail: string)
    requires NulFree(s) && s != "" && !(quote == '\0' && (s[0] == ' ' || '\t' <= s[0] <= '\r'))
    requires var first := Leading(s, quote);
             && Regular(more, OpenAfter(first, quote), tail)
             && s[Length(first)..] == Spell(more, OpenAfter(first, quote)) + tail
    ensures var tokens := [Leading(s, quote)] + more;
            Regular(tokens, quote, tail) && s == Spell(tokens, quote) + tail
  {
    var tokens := [Leading(s, quote)] + more;
    assert tokens[0] == Leading(s, quote) && tokens[1..] == more;
    SpelledFirst(tokens, quote, tail);
    hide Spell;
    assert s == s[..Length(tokens[0])] + s[Length(tokens[0])..];
  }

  /** unquoted_argv: the argument is read as it is meant. */
  method UnquotedArgument(argument: string) returns (dst: array<char>)
    requires NulFree(argument)
    ensures var r := Rest(argument, 0, '\0'); |r| < dst.Length && dst[..|r|] == r && dst[|r|] == '\0'
    ensures exists tokens, tail ::
      && Regular(tokens, '\0', tail) && argument == Spell(tokens, '\0') + tail
      && |Means(tokens)| < dst.Length && dst[..|Means(tokens)|] == Means(tokens) && dst[|Means(tokens)|] == '\0'
  {
    dst := new char[|argument| + 1];
    Unquote(argument, dst);
    ghost var tokens, tail := Tokenized(argument, '\0');
    ReadsBack(tokens, '\0', tail);
  }

  // ---------- quoting ----------

  /** Text without quotes, backslashes and whitespace needs none. */
  lemma {:induction false} BareText(s: string, tail: string)
    requires forall i :: 0 <= i < |s| ==>
      s[i] != '\0' && s[i] != '\'' && s[i] != '"' && s[i] != '\\' && s[i] != ' ' && !('\t' <= s[i] <= '\r')
    requires tail == "" || tail[0] == ' ' || '\t' <= tail[0] <= '\r'
    ensures Rest(s + tail, 0, '\0') == s
  {
    if s == "" {
      assert s + tail == tail;
    } else {
      BareText(s[1..], tail);
      assert s + tail == [s[0]] + (s[1..] + tail);
      FirstCharacter(s[0], s[1..] + tail, '\0');
    }
  }

  /** Pieces that are written one behind the other are joined. */
  lemma {:induction false} Joined(a: seq<Token>, b: seq<Token>)
    ensures Means(a + b) == Means(a) + Means(b)
  {
    if a == [] {
      assert a + b == b;
    } else {
      Joined(a[1..], b);
      assert (a + b)[0] == a[0] && (a + b)[1..] == a[1..] + b;
      Regrouped(Own(a[0]), Means(a[1..]), Means(b));
    }
  }

  function Spelled(c: char): string {
    if c == '\'' || c == '"' then ['\\', c] else [c]
  }

  function InsideToken(c: char): Token {
    if c == '\'' || c == '"' then Escaped(c) else Copy(c)
  }

  /** Every quote with a backslash in front of it */
  function WithBackslashes(s: string): string {
    if s == "" then "" else Spelled(s[0]) + WithBackslashes(s[1..])
  }

  function Quoted(s: string, quote: char): string {
    [quote] + WithBackslashes(s) + [quote]
  }

  function Inside(s: string): seq<Token> {
    if s == "" then [] else [InsideToken(s[0])] + Inside(s[1..])
  }

  lemma {:induction false} InsideQuotes(s: string, quote: char, more: seq<Token>)
    requires NulFree(s) && (quote == '\'' || quote == '"') && Regular(more, quote, "")
    requires s != "" && s[|s|-1] == '\\' ==> NoQuoteAhead(Spell(more, quote))
    ensures Regular(Inside(s) + more, quote, "") && Means(Inside(s) + more) == s + Means(more)
    ensures Spell(Inside(s) + more, quote) == WithBackslashes(s) + Spell(more, quote)
  {
    if s == "" {
      assert Inside(s) + more == more;
    } else {
      InsideQuotes(s[1..], quote, more);
      WrittenAhead(s[1..], Spell(more, quote));
      OneInside(s[0], quote, Inside(s[1..]) + more);
      InsideFirst(s, more);
      hide *;
      Regrouped(Spelled(s[0]), WithBackslashes(s[1..]), Spell(more, quote));
      Regrouped([s[0]], s[1..], Means(more));
    }
  }

  lemma Regrouped<T>(a: seq<T>, b: seq<T>, c: seq<T>)
    ensures a + (b + c) == a + b + c
  {
  }

  lemma InsideFirst(s: string, more: seq<Token>)
    requires s != ""
    ensures Inside(s) + more == [InsideToken(s[0])] + (Inside(s[1..]) + more) && s == [s[0]] + s[1..]
    ensures WithBackslashes(s) == Spelled(s[0]) + WithBackslashes(s[1..])
  {
    Regrouped([InsideToken(s[0])], Inside(s[1..]), more);
  }

  lemma WrittenAhead(s: string, after: string)
    ensures s != "" || NoQuoteAhead(after) ==> NoQuoteAhead(WithBackslashes(s) + after)
  {
  }

  lemma OneInside(c: char, quote: char, rest: seq<Token>)
    requires c != '\0' && (quote == '\'' || quote == '"') && Regular(rest, quote, "")
    requires c == '\\' ==> NoQuoteAhead(Spell(rest, quote))
    ensures var tokens := [InsideToken(c)] + rest;
            && Regular(tokens, quote, "") && Means(tokens) == [c] + Means(rest)
            && Spell(tokens, quote) == Spelled(c) + Spell(rest, quote)
  {
    var tokens := [InsideToken(c)] + rest;
    assert tokens[1..] == rest && Spell(rest, quote) + "" == Spell(rest, quote);
  }

  /** In either kind of quote, with both kinds escaped, a string comes back exactly when it does not end in a
      backslash. */
  lemma RoundTrip(s: string, quote: char)
    requires NulFree(s) && (quote == '\'' || quote == '"')
    ensures Rest(Quoted(s, quote), 0, '\0') == s <==> s == "" || s[|s|-1] != '\\'
  {
    hide *;
    if s == "" || s[|s|-1] != '\\' {
      ComesBack(s, quote);
    } else {
      EndLost(s, quote);
    }
  }

  lemma ComesBack(s: string, quote: char)
    requires NulFree(s) && (quote == '\'' || quote == '"') && (s == "" || s[|s|-1] != '\\')
    ensures Rest(Quoted(s, quote), 0, '\0') == s
  {
    OneToken(Close, quote);
    assert Quoted(s, quote) == [quote] + (WithBackslashes(s) + [quote]);
    hide Rest, Spell, Means, WithBackslashes;
    ReadQuoted(s, quote, [Close]);
  }

  lemma OneToken(token: Token, quote: char)
    ensures Means([token]) == Own(token)
    ensures token == Close ==> Spell([token], quote) == [quote] && Regular([token], quote, "") == (quote != '\0')
    ensures token == Escaped(quote) ==> Spell([token], quote) == ['\\', quote]
  {
    var tokens := [token];
    assert tokens[0] == token && tokens[1..] == [];
    assert Own(token) + "" == Own(token);
  }

  /** A backslash at the end escapes the closing quote. */
  lemma EndLost(s: string, quote: char)
    requires NulFree(s) && (quote == '\'' || quote == '"') && s != "" && s[|s|-1] == '\\'
    ensures Rest(Quoted(s, quote), 0, '\0') == s[..|s|-1] + [quote] != s
  {
    var t := s[..|s|-1];
    EndsInBackslash(t);
    assert s == t + ['\\'] && (t + [quote])[|s| - 1] == quote;
    OneToken(Escaped(quote), quote);
    hide Rest, Spell, Means, WithBackslashes;
    assert Quoted(s, quote) == [quote] + (WithBackslashes(t) + ['\\', quote]);
    ReadQuoted(t, quote, [Escaped(quote)]);
  }

  lemma ReadQuoted(s: string, quote: char, end: seq<Token>)
    requires NulFree(s) && (quote == '\'' || quote == '"') && Regular(end, quote, "")
    requires s != "" && s[|s|-1] == '\\' ==> NoQuoteAhead(Spell(end, quote))
    ensures Rest([quote] + (WithBackslashes(s) + Spell(end, quote)), 0, '\0') == s + Means(end)
  {
    InsideQuotes(s, quote, end);
    var tokens := [Open(quote)] + (Inside(s) + end);
    assert tokens[1..] == Inside(s) + end;
    assert Spell(tokens, '\0') + "" == [quote] + (WithBackslashes(s) + Spell(end, quote));
    ReadsBack(tokens, '\0', "");
  }

  lemma {:induction false} EndsInBackslash(t: string)
    ensures WithBackslashes(t + ['\\']) == WithBackslashes(t) + ['\\']
  {
    if t != "" {
      EndsInBackslash(t[1..]);
      assert (t + ['\\'])[1..] == t[1..] + ['\\'];
    } else {
      assert t + ['\\'] == ['\\'] && ['\\'][1..] == "";
    }
  }
}
