/** Histories of candidates, stored as short codes of the tokens that their dotted names are made of. */
module History {

  datatype AttributeAssignment = AttributeAssignment(name: string, value: string, time: int)

  datatype SmallAttributeAssignment = SmallAttributeAssignment(name: seq<int>, value: int, time: int)

  /** A Java cast to short */
  function ToShort(n: int): (s: int)
    ensures -32768 <= s < 32768
    ensures -32768 <= n < 32768 ==> s == n
  {
    (n + 32768) % 65536 - 32768
  }

  /** When a code was given out: the counter starts at zero and wraps around. */
  function Rank(code: int): (r: nat)
    ensures r < 65536
  {
    code % 65536
  }

  lemma RankOfShort(n: nat)
    requires n < 65536
    ensures Rank(ToShort(n)) == n && ToShort(ToShort(n) + 1) == ToShort(n + 1)
  {
  }

  // ---------- names ----------

  /** How many characters come before the first one that is c. */
  function IndexOf(s: string, c: char): (k: nat)
    ensures k <= |s| && (k < |s| ==> s[k] == c) && forall i :: 0 <= i < k ==> s[i] != c
  {
    if s == "" || s[0] == c then 0 else 1 + IndexOf(s[1..], c)
  }

  /** java.util.StringTokenizer with a dot as the delimiter */
  function Tokens(s: string): seq<string>
    decreases |s|
  {
    if s == "" then []
    else if s[0] == '.' then Tokens(s[1..])
    else var k := IndexOf(s, '.'); [s[..k]] + Tokens(s[k..])
  }

  function Join(ts: seq<string>): string {
    if ts == [] then "" else if |ts| == 1 then ts[0] else ts[0] + "." + Join(ts[1..])
  }

  /** What comes after the first hash sign, if there is one */
  function Stripped(path: string): string {
    var j := IndexOf(path, '#');
    if j < |path| then path[j+1..] else path
  }

  /** No component between dots is empty, except that the whole may be. */
  predicate Clean(s: string) {
    s != "" ==> s[0] != '.' && s[|s|-1] != '.' && forall i :: 0 <= i < |s| - 1 ==> s[i] != '.' || s[i + 1] != '.'
  }

  ghost predicate Components(ts: seq<string>) {
    forall k :: 0 <= k < |ts| ==> ts[k] != "" && '.' !in ts[k]
  }

  lemma {:induction false} TokensAreComponents(s: string)
    ensures Components(Tokens(s)) && |Join(Tokens(s))| <= |s|
    decreases |s|
  {
    if s != "" && s[0] == '.' {
      TokensAreComponents(s[1..]);
    } else if s != "" {
      var k := IndexOf(s, '.');
      if k < |s| {
        TokensAreComponents(s[k+1..]);
        assert s[k..][0] == '.' && s[k..][1..] == s[k+1..];
        assert Tokens(s[k..]) == Tokens(s[k+1..]);
      } else {
        assert s[k..] == "";
      }
      JoinMore(s[..k], Tokens(s[k..]));
    }
  }

  lemma JoinMore(t: string, ts: seq<string>)
    ensures Join([t] + ts) == if ts == [] then t else t + "." + Join(ts)
  {
    assert ([t] + ts)[1..] == ts;
  }

  lemma JoinFrom(ts: seq<string>, i: nat)
    requires i < |ts|
    ensures Join(ts[i..]) == if i + 1 < |ts| then ts[i] + "." + Join(ts[i+1..]) else ts[i]
    ensures i + 1 == |ts| ==> Join(ts[i+1..]) == ""
  {
    assert ts[i..] == [ts[i]] + ts[i+1..];
    JoinMore(ts[i], ts[i+1..]);
  }

  lemma {:induction false} JoinIsClean(ts: seq<string>)
    requires Components(ts)
    ensures Clean(Join(ts)) && (ts != [] ==> Join(ts) != "")
  {
    if |ts| > 1 {
      JoinIsClean(ts[1..]);
      CleanBoth(ts[0], Join(ts[1..]));
    } else if |ts| == 1 {
      assert forall i :: 0 <= i < |ts[0]| ==> ts[0][i] in ts[0];
    }
  }

  lemma CleanBoth(t: string, rest: string)
    requires t != "" && '.' !in t && rest != "" && Clean(rest)
    ensures Clean(t + "." + rest)
  {
    var s := t + "." + rest;
    assert forall i :: 0 <= i < |t| ==> s[i] == t[i] && t[i] in t;
    assert forall i :: 0 <= i < |rest| ==> s[|t| + 1 + i] == rest[i];
    forall i | 0 <= i < |s| - 1 ensures s[i] != '.' || s[i + 1] != '.' {
      if i > |t| {
        assert s[i] == rest[i - |t| - 1] && s[i + 1] == rest[i - |t|];
      } else if i == |t| {
        assert s[|t| + 1 + 0] == rest[0];
      }
    }
    assert s[|s|-1] == rest[|rest|-1];
  }

  lemma FirstToken(s: string)
    requires s != "" && s[0] != '.'
    ensures var k := IndexOf(s, '.');
            k > 0 && Tokens(s) == [s[..k]] + if k < |s| then Tokens(s[k+1..]) else []
  {
    hide *;
    UpToDot(s);
    TokensFrom(s, IndexOf(s, '.'));
  }

  lemma UpToDot(s: string)
    requires s != "" && s[0] != '.'
    ensures IndexOf(s, '.') > 0 && Tokens(s) == [s[..IndexOf(s, '.')]] + Tokens(s[IndexOf(s, '.')..])
  {
  }

  lemma TokensFrom(s: string, k: nat)
    requires k <= |s| && (k < |s| ==> s[k] == '.')
    ensures Tokens(s[k..]) == if k < |s| then Tokens(s[k+1..]) else []
  {
    if k < |s| {
      DotSkipped(s[k..]);
      Shifted(s, k);
    } else {
      assert s[k..] == "";
    }
  }

  lemma Shifted(s: string, k: nat)
    requires k < |s|
    ensures s[k..][1..] == s[k+1..]
  {
  }

  lemma DotSkipped(s: string)
    requires s != "" && s[0] == '.'
    ensures Tokens(s) == Tokens(s[1..])
  {
  }

  lemma AroundDot(s: string, k: nat)
    requires k < |s| && s[k] == '.'
    ensures s == s[..k] + "." + s[k+1..]
  {
  }

  lemma RestIsClean(s: string, k: nat)
    requires Clean(s) && k < |s| && s[k] == '.'
    ensures k + 1 < |s| && s[k+1] != '.' && Clean(s[k+1..])
  {
  }

  lemma {:induction false} CleanRoundTrip(s: string)
    requires Clean(s)
    ensures Join(Tokens(s)) == s && (s != "" ==> Tokens(s) != [])
    decreases |s|
  {
    if s != "" {
      var k := IndexOf(s, '.');
      FirstToken(s);
      if k < |s| {
        RestIsClean(s, k);
        hide Tokens, Join, Clean;
        CleanRoundTrip(s[k+1..]);
        JoinMore(s[..k], Tokens(s[k+1..]));
        AroundDot(s, k);
      } else {
        assert s[..k] == s;
      }
    }
  }

  /** The tokens are what stands between the dots, as far as there is something. */
  lemma {:induction false} TokensBoth(s: string, t: string)
    ensures Tokens(s + "." + t) == Tokens(s) + Tokens(t)
    ensures s != "" && '.' !in s ==> Tokens(s) == [s]
    decreases |s|
  {
    hide *;
    if s == "" {
      NothingFirst(t);
    } else if s[0] == '.' {
      TokensBoth(s[1..], t);
      DotFirst(s, t);
    } else {
      var k := IndexOf(s, '.');
      if k < |s| { TokensBoth(s[k+1..], t); }
      PieceFirst(s, t, if k < |s| then Tokens(s[k+1..]) else []);
    }
  }

  lemma NothingFirst(t: string)
    ensures Tokens("" + "." + t) == Tokens("") + Tokens(t)
  {
    var whole := "" + "." + t;
    assert whole[0] == '.' && whole[1..] == t;
    DotSkipped(whole);
    assert Tokens("") == [];
  }

  lemma DotFirst(s: string, t: string)
    requires s != "" && s[0] == '.'
    ensures Tokens(s + "." + t) == Tokens(s[1..] + "." + t) && Tokens(s) == Tokens(s[1..])
  {
    hide Tokens;
    WholeSlices(s, t, 0);
    DotSkipped(s);
    DotSkipped(s + "." + t);
  }

  /** The first piece is the same in both. */
  lemma PieceFirst(s: string, t: string, others: seq<string>)
    requires s != "" && s[0] != '.'
    requires var k := IndexOf(s, '.');
             if k < |s| then others == Tokens(s[k+1..]) && Tokens(s[k+1..] + "." + t) == others + Tokens(t)
             else others == []
    ensures Tokens(s) == [s[..IndexOf(s, '.')]] + others
    ensures Tokens(s + "." + t) == Tokens(s) + Tokens(t)
    ensures '.' !in s ==> Tokens(s) == [s]
  {
    var k, whole := IndexOf(s, '.'), s + "." + t;
    assert whole != "" && whole[0] == s[0] && k < |whole|;
    hide *;
    FirstToken(s);
    SameFirst(s, t);
    FirstToken(whole);
    WholeSlices(s, t, k);
    Assembled(s[..k], others, Tokens(t));
    Uncut(s, k);
  }

  lemma Assembled(first: string, others: seq<string>, last: seq<string>)
    ensures [first] + (others + last) == [first] + others + last
    ensures [first] + [] == [first] && [] + last == last
  {
  }

  lemma Uncut(s: string, k: nat)
    requires k <= |s| && (k < |s| ==> s[k] == '.')
    ensures '.' !in s ==> k == |s| && s[..k] == s
  {
  }

  lemma WholeSlices(s: string, t: string, k: nat)
    requires k <= |s|
    ensures (s + "." + t)[..k] == s[..k] && (k < |s| ==> s[k] in s)
    ensures (s + "." + t)[k+1..] == if k < |s| then s[k+1..] + "." + t else t
  {
  }

  lemma {:induction false} SameFirst(s: string, t: string)
    ensures IndexOf(s + "." + t, '.') == IndexOf(s, '.')
  {
    if s != "" && s[0] != '.' {
      SameFirst(s[1..], t);
      assert (s + "." + t)[1..] == s[1..] + "." + t;
    }
  }

  /** A name comes back exactly when it has no hash sign and no empty component. */
  lemma NameRoundTrip(name: string)
    ensures Join(Tokens(Stripped(name))) == name <==> '#' !in name && Clean(name)
  {
    TokensAreComponents(Stripped(name));
    if '#' in name {
      assert |Stripped(name)| < |name|;
    } else {
      assert IndexOf(name, '#') == |name|;
      JoinIsClean(Tokens(name));
      if Clean(name) { CleanRoundTrip(name); }
    }
  }

  /** With one hash sign or more, what stands behind the first one comes back exactly when it has no empty component. */
  lemma BehindHash(before: string, rest: string)
    requires '#' !in before
    ensures Join(Tokens(Stripped(before + "#" + rest))) == rest <==> Clean(rest)
  {
    var name := before + "#" + rest;
    assert name[|before|] == '#' && forall i :: 0 <= i < |before| ==> name[i] == before[i];
    assert IndexOf(name, '#') == |before| && name[|before|+1..] == rest;
    hide Tokens, Join, Clean, IndexOf;
    TokensAreComponents(rest);
    JoinIsClean(Tokens(rest));
    if Clean(rest) { CleanRoundTrip(rest); }
  }

  // ---------- what a name tells about its tokens ----------

  function Dots(s: string): nat {
    if s == "" then 0 else Dots(s[..|s|-1]) + if s[|s|-1] == '.' then 1 else 0
  }

  lemma {:induction false} DotsBoth(s: string, t: string)
    ensures Dots(s + t) == Dots(s) + Dots(t)
  {
    if t == "" {
      assert s + t == s;
    } else {
      var n := |t| - 1;
      DotsBoth(s, t[..n]);
      assert (s + t)[..|s| + n] == s + t[..n];
    }
  }

  lemma {:induction false} NoDots(s: string)
    ensures Dots(s) == 0 <==> '.' !in s
  {
    if s != "" { NoDots(s[..|s|-1]); }
  }

  function AllDots(ts: seq<string>): nat {
    if ts == [] then 0 else Dots(ts[0]) + AllDots(ts[1..])
  }

  /** A joined name has the dots of its pieces and one between any two. */
  lemma {:induction false} DotsOfJoin(ts: seq<string>)
    requires ts != []
    ensures Dots(Join(ts)) == AllDots(ts) + |ts| - 1
  {
    if |ts| > 1 {
      DotsOfJoin(ts[1..]);
      DotsBoth(ts[0] + ".", Join(ts[1..]));
      DotsBoth(ts[0], ".");
      assert Dots(".") == 1;
    }
  }

  lemma {:induction false} NoDotsAnywhere(ts: seq<string>)
    ensures AllDots(ts) == 0 <==> forall k :: 0 <= k < |ts| ==> '.' !in ts[k]
  {
    if ts != [] {
      NoDots(ts[0]);
      NoDotsAnywhere(ts[1..]);
      assert forall k :: 0 < k < |ts| ==> ts[k] == ts[1..][k - 1];
    }
  }

  /** So a name made of as many tokens, some of which are others, is another name: they cannot hide in one another. */
  lemma JoinDetermines(us: seq<string>, ts: seq<string>)
    requires |us| == |ts| && Join(us) == Join(ts) && forall k :: 0 <= k < |ts| ==> '.' !in ts[k]
    ensures us == ts
  {
    if ts != [] {
      DotsOfJoin(us);
      DotsOfJoin(ts);
      NoDotsAnywhere(us);
      NoDotsAnywhere(ts);
      SplitOnce(us, ts);
    }
  }

  lemma {:induction false} SplitOnce(us: seq<string>, ts: seq<string>)
    requires |us| == |ts| && Join(us) == Join(ts)
    requires forall k :: 0 <= k < |ts| ==> '.' !in us[k] && '.' !in ts[k]
    ensures us == ts
  {
    if |ts| > 1 {
      FirstPiece(us[0], Join(us[1..]), ts[0], Join(ts[1..]));
      SplitOnce(us[1..], ts[1..]);
      assert us == [us[0]] + us[1..] && ts == [ts[0]] + ts[1..];
    } else if |ts| == 1 {
      assert us == [us[0]] && ts == [ts[0]];
    }
  }

  lemma FirstPiece(u: string, x: string, t: string, y: string)
    requires '.' !in u && '.' !in t && u + "." + x == t + "." + y
    ensures u == t && x == y
  {
    var s := u + "." + x;
    assert s[|u|] == '.' && (t + "." + y)[|t|] == '.';
    assert forall i :: 0 <= i < |t| ==> s[i] == t[i] && t[i] in t;
    assert forall i :: 0 <= i < |u| ==> s[i] == u[i] && u[i] in u;
    assert u == s[..|u|] && t == s[..|t|] && x == s[|u|+1..] && y == s[|t|+1..];
  }

  // ---------- the dictionary ----------

  datatype Dictionary = Dictionary(tokens: map<string, int>, numbers: map<int, string>, counter: int) {

    /** The two maps undo each other, and the codes are those given out first. */
    ghost predicate Inverse() {
      && |tokens| <= 65536 && counter == ToShort(|tokens|)
      && (forall t :: t in tokens ==> tokens[t] in numbers && numbers[tokens[t]] == t)
      && (forall c :: c in numbers ==> -32768 <= c < 32768 && numbers[c] in tokens && tokens[numbers[c]] == c)
      && (forall c :: c in numbers ==> Rank(c) < |tokens|)
      && (forall n: nat :: n < |tokens| ==> ToShort(n) in numbers)
    }
  }

  const EMPTY := Dictionary(map[], map[], 0)

  /** CandidateHistory::getTokenShort, as far as it changes the maps */
  function Enter(d: Dictionary, tok: string): Dictionary {
    if tok in d.tokens then d
    else Dictionary(d.tokens[tok := d.counter], d.numbers[d.counter := tok], ToShort(d.counter + 1))
  }

  function EnterAll(d: Dictionary, toks: seq<string>): Dictionary {
    if toks == [] then d else Enter(EnterAll(d, toks[..|toks|-1]), toks[|toks|-1])
  }

  lemma {:induction false} EnterBoth(d: Dictionary, s: seq<string>, t: seq<string>)
    ensures EnterAll(d, s + t) == EnterAll(EnterAll(d, s), t)
  {
    if t == [] {
      assert s + t == s;
    } else {
      var n := |t| - 1;
      EnterBoth(d, s, t[..n]);
      assert (s + t)[..|s| + n] == s + t[..n];
    }
  }

  /** The tokens of e are those of d, with the same codes, and these. */
  ghost predicate Extends(d: Dictionary, toks: seq<string>, e: Dictionary) {
    && (forall t :: t in e.tokens <==> t in d.tokens || t in toks)
    && (forall t :: t in d.tokens ==> e.tokens[t] == d.tokens[t])
    && |e.tokens| >= |d.tokens|
  }

  lemma {:induction false} Entered(d: Dictionary, toks: seq<string>)
    ensures Extends(d, toks, EnterAll(d, toks))
  {
    if toks != [] {
      Entered(d, toks[..|toks|-1]);
      EnterSize(EnterAll(d, toks[..|toks|-1]), toks[|toks|-1]);
    }
  }

  lemma EnterSize(d: Dictionary, tok: string)
    ensures |Enter(d, tok).tokens| == |d.tokens| + if tok in d.tokens then 0 else 1
  {
    if tok !in d.tokens {
      assert Enter(d, tok).tokens.Keys == d.tokens.Keys + {tok};
    }
  }

  /** The maps stay inverse to each other while one history grows them. */
  lemma {:induction false} StaysInverse(d: Dictionary, toks: seq<string>)
    requires d.Inverse() && |EnterAll(d, toks).tokens| <= 65536
    ensures EnterAll(d, toks).Inverse()
  {
    Entered(d, toks);
    if toks != [] {
      var before, tok := EnterAll(d, toks[..|toks|-1]), toks[|toks|-1];
      EnterSize(before, tok);
      StaysInverse(d, toks[..|toks|-1]);
      if tok !in before.tokens {
        EnterInverse(before, tok);
      }
    }
  }

  lemma EnterInverse(d: Dictionary, tok: string)
    requires d.Inverse() && tok !in d.tokens && |d.tokens| < 65536
    ensures Enter(d, tok).Inverse()
  {
    var n, d' := |d.tokens|, Enter(d, tok);
    EnterSize(d, tok);
    RankOfShort(n);
    hide ToShort, Rank;
    assert d.counter !in d.numbers;
    forall k: nat | k < |d'.tokens| ensures ToShort(k) in d'.numbers {
      assert k == n || ToShort(k) in d.numbers;
    }
  }

  // ---------- sharing the maps ----------

  /** Another history on the same maps starts to count at zero again. */
  function Restarted(d: Dictionary): Dictionary {
    d.(counter := 0)
  }

  /** The code of a token stands for it. */
  ghost predicate Lives(d: Dictionary, t: string) {
    t in d.tokens && d.tokens[t] in d.numbers && d.numbers[d.tokens[t]] == t
  }

  ghost predicate Decodes(d: Dictionary, toks: seq<string>) {
    forall t :: t in toks ==> Lives(d, t)
  }

  /** Every token has a short code that stands for some token. */
  ghost predicate Coded(d: Dictionary) {
    forall t :: t in d.tokens ==> -32768 <= d.tokens[t] < 32768 && d.tokens[t] in d.numbers
  }

  /** How many of the tokens of a history are new to the maps. */
  ghost function Brought(d: Dictionary, toks: seq<string>): int {
    |EnterAll(Restarted(d), toks).tokens| - |d.tokens|
  }

  /** How many new tokens the history brings before this one. */
  ghost function Order(d: Dictionary, toks: seq<string>, t: string): int {
    if toks == [] then 0
    else
      var before := toks[..|toks|-1];
      if t in EnterAll(Restarted(d), before).tokens then Order(d, before, t) else Brought(d, before)
  }

  /** The old tokens keep their codes; after m new tokens, those codes still stand for them that came later than m. */
  ghost predicate OldTokens(d: Dictionary, e: Dictionary, m: int) {
    forall t :: t in d.tokens ==>
      t in e.tokens && e.tokens[t] == d.tokens[t] && (Lives(e, t) <==> Lives(d, t) && m <= Rank(d.tokens[t]))
  }

  /** The new tokens are numbered in order, and their codes stand for them until the counter comes around. */
  ghost predicate NewTokens(d: Dictionary, toks: seq<string>, e: Dictionary, m: int) {
    forall t :: t in e.tokens && t !in d.tokens ==>
      var n := Order(d, toks, t);
      0 <= n < m && e.tokens[t] == ToShort(n) && (Lives(e, t) <==> m <= n + 65536)
  }

  lemma {:induction false} OneHistory(d: Dictionary, toks: seq<string>)
    requires Coded(d)
    ensures var e, m := EnterAll(Restarted(d), toks), Brought(d, toks);
            m >= 0 && e.counter == ToShort(m) && Coded(e) && OldTokens(d, e, m) && NewTokens(d, toks, e, m)
  {
    hide ToShort, Rank;
    if toks == [] {
      assert ToShort(0) == 0;
    } else {
      var before, tok := toks[..|toks|-1], toks[|toks|-1];
      var b, m := EnterAll(Restarted(d), before), Brought(d, before);
      OneHistory(d, before);
      EnterSize(b, tok);
      hide EnterAll, Coded, OldTokens, NewTokens, Enter, Order;
      SameOrder(d, toks);
      if tok in b.tokens {
        Known(b, tok);
        NewTokensSame(d, before, toks, b, m);
      } else {
        CounterMore(b, tok, m);
        CodedMore(b, tok);
        OldTokensMore(d, b, tok, m);
        NewTokensMore(d, before, toks, b, tok, m);
      }
    }
  }

  lemma Known(d: Dictionary, tok: string)
    requires tok in d.tokens
    ensures Enter(d, tok) == d
  {
  }

  lemma SameOrder(d: Dictionary, toks: seq<string>)
    requires toks != []
    ensures var before := toks[..|toks|-1];
            && EnterAll(Restarted(d), toks) == Enter(EnterAll(Restarted(d), before), toks[|toks|-1])
            && forall t :: Order(d, toks, t) ==
                 if t in EnterAll(Restarted(d), before).tokens then Order(d, before, t) else Brought(d, before)
  {
    hide Brought, Enter;
  }

  lemma NewTokensSame(d: Dictionary, before: seq<string>, toks: seq<string>, b: Dictionary, m: int)
    requires NewTokens(d, before, b, m) && forall t :: t in b.tokens ==> Order(d, toks, t) == Order(d, before, t)
    ensures NewTokens(d, toks, b, m)
  {
    hide Order, Lives, ToShort;
  }

  lemma CounterMore(b: Dictionary, tok: string, m: nat)
    requires b.counter == ToShort(m) && tok !in b.tokens
    ensures Enter(b, tok).counter == ToShort(m + 1)
  {
  }

  lemma CodedMore(b: Dictionary, tok: string)
    requires Coded(b) && -32768 <= b.counter < 32768
    ensures Coded(Enter(b, tok))
  {
    hide ToShort;
  }

  /** When two codes are the same */
  lemma SameCode(c: int, n: nat, m: nat)
    requires -32768 <= c < 32768
    ensures c == ToShort(m) <==> Rank(c) == m % 65536
    ensures n <= m <= n + 65536 ==> (ToShort(n) == ToShort(m) <==> m == n || m == n + 65536)
  {
    CodeOfRank(c, m);
    CodesApart(n, m);
    hide *;
  }

  lemma CodeOfRank(c: int, m: nat)
    requires -32768 <= c < 32768
    ensures c == ToShort(m) <==> Rank(c) == m % 65536
  {
  }

  lemma CodesApart(n: nat, m: nat)
    ensures n <= m <= n + 65536 ==> (ToShort(n) == ToShort(m) <==> m == n || m == n + 65536)
  {
  }

  lemma OldTokensMore(d: Dictionary, b: Dictionary, tok: string, m: nat)
    requires OldTokens(d, b, m) && tok !in b.tokens && b.counter == ToShort(m) && Coded(d)
    ensures OldTokens(d, Enter(b, tok), m + 1)
  {
    forall t | t in d.tokens
      ensures var e := Enter(b, tok);
              && t in e.tokens && e.tokens[t] == d.tokens[t]
              && (Lives(e, t) <==> Lives(d, t) && m + 1 <= Rank(d.tokens[t]))
    {
      SameCode(d.tokens[t], 0, m);
      hide ToShort;
    }
  }

  lemma NewTokensMore(d: Dictionary, before: seq<string>, toks: seq<string>, b: Dictionary, tok: string, m: nat)
    requires NewTokens(d, before, b, m) && tok !in b.tokens && b.counter == ToShort(m)
    requires forall t :: Order(d, toks, t) == if t in b.tokens then Order(d, before, t) else m
    ensures NewTokens(d, toks, Enter(b, tok), m + 1)
  {
    hide Order;
    var e := Enter(b, tok);
    forall t | t in e.tokens && t !in d.tokens
      ensures var n := Order(d, toks, t);
              0 <= n < m + 1 && e.tokens[t] == ToShort(n) && (Lives(e, t) <==> m + 1 <= n + 65536)
    {
      SameCode(0, Order(d, toks, t), m);
      hide ToShort;
    }
  }

  // ---------- compressing and expanding ----------

  /** The tokens of an assignment in the order in which they are entered */
  function Stream(a: AttributeAssignment): seq<string> {
    Tokens(Stripped(a.name)) + [a.value]
  }

  function RowStream(row: seq<AttributeAssignment>): seq<string> {
    if row == [] then [] else RowStream(row[..|row|-1]) + Stream(row[|row|-1])
  }

  function AllStream(rows: seq<seq<AttributeAssignment>>): seq<string> {
    if rows == [] then [] else AllStream(rows[..|rows|-1]) + RowStream(rows[|rows|-1])
  }

  function Code(tokens: map<string, int>, t: string): int {
    if t in tokens then tokens[t] else 0
  }

  ghost function Codes(tokens: map<string, int>, ts: seq<string>): seq<int> {
    seq(|ts|, i requires 0 <= i < |ts| => Code(tokens, ts[i]))
  }

  ghost function Compressed(tokens: map<string, int>, a: AttributeAssignment): SmallAttributeAssignment {
    SmallAttributeAssignment(Codes(tokens, Tokens(Stripped(a.name))), Code(tokens, a.value), ToShort(a.time))
  }

  ghost function CompressedRow(tokens: map<string, int>, row: seq<AttributeAssignment>): seq<SmallAttributeAssignment> {
    seq(|row|, i requires 0 <= i < |row| => Compressed(tokens, row[i]))
  }

  ghost function CompressedAll(tokens: map<string, int>,
                               rows: seq<seq<AttributeAssignment>>): seq<seq<SmallAttributeAssignment>> {
    seq(|rows|, i requires 0 <= i < |rows| => CompressedRow(tokens, rows[i]))
  }

  /** CandidateHistory::getToken; no code is ever taken out of the map. */
  function Token(numbers: map<int, string>, c: int): string {
    if c in numbers then numbers[c] else "null"
  }

  ghost function TokensOf(numbers: map<int, string>, cs: seq<int>): seq<string> {
    seq(|cs|, i requires 0 <= i < |cs| => Token(numbers, cs[i]))
  }

  ghost function Expanded(numbers: map<int, string>, s: SmallAttributeAssignment): AttributeAssignment {
    AttributeAssignment(Join(TokensOf(numbers, s.name)), Token(numbers, s.value), s.time)
  }

  ghost function ExpandedRow(numbers: map<int, string>, row: seq<SmallAttributeAssignment>): seq<AttributeAssignment> {
    seq(|row|, i requires 0 <= i < |row| => Expanded(numbers, row[i]))
  }

  ghost function ExpandedAll(numbers: map<int, string>,
                             rows: seq<seq<SmallAttributeAssignment>>): seq<seq<AttributeAssignment>> {
    seq(|rows|, i requires 0 <= i < |rows| => ExpandedRow(numbers, rows[i]))
  }

  /** An assignment whose tokens can be decoded comes back exactly when its name is clean and its time is short. */
  lemma AssignmentRoundTrip(d: Dictionary, a: AttributeAssignment)
    requires Decodes(d, Stream(a))
    ensures Expanded(d.numbers, Compressed(d.tokens, a)) == a <==>
      '#' !in a.name && Clean(a.name) && -32768 <= a.time < 32768
  {
    var ts := Tokens(Stripped(a.name));
    forall i | 0 <= i < |ts| ensures Token(d.numbers, Code(d.tokens, ts[i])) == ts[i] {
      assert Stream(a)[i] == ts[i];
      assert Lives(d, ts[i]);
    }
    assert Stream(a)[|ts|] == a.value && Lives(d, a.value);
    assert TokensOf(d.numbers, Codes(d.tokens, ts)) == ts;
    NameRoundTrip(a.name);
    hide Tokens, Join, Clean;
    assert ToShort(a.time) == a.time <==> -32768 <= a.time < 32768;
  }

  ghost predicate Faithful(rows: seq<seq<AttributeAssignment>>) {
    forall i, j :: 0 <= i < |rows| && 0 <= j < |rows[i]| ==>
      '#' !in rows[i][j].name && Clean(rows[i][j].name) && -32768 <= rows[i][j].time < 32768
  }

  lemma {:induction false} NothingNew(d: Dictionary, toks: seq<string>)
    requires forall t :: t in toks ==> t in d.tokens
    ensures EnterAll(d, toks) == d
  {
    if toks != [] {
      NothingNew(d, toks[..|toks|-1]);
    }
  }

  /** Whether an assignment comes back after others have used the maps is decided by its tokens. */
  lemma BackIffDecoded(d: Dictionary, numbers: map<int, string>, a: AttributeAssignment)
    requires '#' !in a.name && Clean(a.name) && -32768 <= a.time < 32768
    ensures Expanded(numbers, Compressed(d.tokens, a)) == a <==>
      forall t :: t in Stream(a) ==> Token(numbers, Code(d.tokens, t)) == t
  {
    var ts := Tokens(Stripped(a.name));
    var us := TokensOf(numbers, Codes(d.tokens, ts));
    NameRoundTrip(a.name);
    TokensAreComponents(Stripped(a.name));
    hide Tokens, Join, Clean, Stripped;
    assert Join(ts) == a.name;
    assert forall k :: 0 <= k < |ts| ==> us[k] == Token(numbers, Code(d.tokens, ts[k]));
    if Join(us) == a.name { JoinDetermines(us, ts); }
    InThisStream(a, ts);
    if forall t :: t in Stream(a) ==> Token(numbers, Code(d.tokens, t)) == t { assert us == ts; }
  }

  lemma InThisStream(a: AttributeAssignment, ts: seq<string>)
    requires ts == Tokens(Stripped(a.name))
    ensures forall t :: t in Stream(a) <==> t in ts || t == a.value
  {
    hide Tokens, Stripped;
  }

  /** The codes in e of these tokens, which were given out when the dictionary was d, still stand for them. */
  ghost predicate StillDecodes(d: Dictionary, e: Dictionary, toks: seq<string>) {
    forall t :: t in toks ==> Token(e.numbers, Code(d.tokens, t)) == t
  }

  lemma RowsBackIff(d: Dictionary, e: Dictionary, rows: seq<seq<AttributeAssignment>>)
    requires Faithful(rows)
    ensures ExpandedAll(e.numbers, CompressedAll(d.tokens, rows)) == rows <==> StillDecodes(d, e, AllStream(rows))
  {
    var back := ExpandedAll(e.numbers, CompressedAll(d.tokens, rows));
    if back == rows {
      forall t | t in AllStream(rows) ensures Token(e.numbers, Code(d.tokens, t)) == t {
        var i, j := FromStream(rows, t);
        assert Expanded(e.numbers, Compressed(d.tokens, rows[i][j])) == back[i][j];
        hide Expanded, Compressed;
        BackIffDecoded(d, e.numbers, rows[i][j]);
      }
    }
    if StillDecodes(d, e, AllStream(rows)) {
      forall i | 0 <= i < |rows| ensures back[i] == rows[i] {
        forall j | 0 <= j < |rows[i]| ensures back[i][j] == rows[i][j] {
          InStream(rows, i, j);
          hide Stream, AllStream;
          BackIffDecoded(d, e.numbers, rows[i][j]);
        }
      }
    }
  }

  lemma {:induction false} FromStream(rows: seq<seq<AttributeAssignment>>, t: string) returns (i: nat, j: nat)
    requires t in AllStream(rows)
    ensures i < |rows| && j < |rows[i]| && t in Stream(rows[i][j])
  {
    var n := |rows| - 1;
    if t in AllStream(rows[..n]) {
      i, j := FromStream(rows[..n], t);
    } else {
      i := n;
      j := FromRowStream(rows[n], t);
    }
  }

  lemma {:induction false} FromRowStream(row: seq<AttributeAssignment>, t: string) returns (j: nat)
    requires t in RowStream(row)
    ensures j < |row| && t in Stream(row[j])
  {
    var n := |row| - 1;
    if t in RowStream(row[..n]) { j := FromRowStream(row[..n], t); } else { j := n; }
  }

  // ---------- any number of histories on the same maps ----------

  /** The dictionary after more histories have been built on the maps, one after the other. */
  function After(d: Dictionary, later: seq<seq<seq<AttributeAssignment>>>): Dictionary {
    var n := |later| - 1;
    if later == [] then d else EnterAll(Restarted(After(d, later[..n])), AllStream(later[n]))
  }

  /** How many new tokens the i-th of several histories on the same maps brings. */
  ghost function BroughtBy(hs: seq<seq<seq<AttributeAssignment>>>, i: nat): int
    requires i < |hs|
  {
    Brought(After(EMPTY, hs[..i]), AllStream(hs[i]))
  }

  /**
   * The i-th history does not take the code of this token away: it brings no more new tokens than the history that
   * the token comes from had brought before it. From its own history, fewer than 2^16 may come after it.
   */
  ghost predicate Spares(hs: seq<seq<seq<AttributeAssignment>>>, i: nat, t: string)
    requires i < |hs|
  {
    var d := After(EMPTY, hs[..i]);
    if t in d.tokens then BroughtBy(hs, i) <= Rank(d.tokens[t])
    else t in AllStream(hs[i]) ==> BroughtBy(hs, i) <= Order(d, AllStream(hs[i]), t) + 65536
  }

  lemma OneMore(hs: seq<seq<seq<AttributeAssignment>>>, i: nat)
    requires i < |hs|
    ensures After(EMPTY, hs[..i+1]) == EnterAll(Restarted(After(EMPTY, hs[..i])), AllStream(hs[i]))
  {
    assert hs[..i+1][..i] == hs[..i];
  }

  lemma Whole(hs: seq<seq<seq<AttributeAssignment>>>)
    ensures hs[..|hs|] == hs
  {
  }

  lemma {:induction false} AfterCoded(hs: seq<seq<seq<AttributeAssignment>>>, i: nat)
    requires i <= |hs|
    ensures Coded(After(EMPTY, hs[..i]))
  {
    if i > 0 {
      AfterCoded(hs, i - 1);
      OneMore(hs, i - 1);
      OneHistory(After(EMPTY, hs[..i-1]), AllStream(hs[i-1]));
      hide *;
    }
  }

  /** Tokens stay, with their codes. */
  lemma {:induction false} TokensStay(hs: seq<seq<seq<AttributeAssignment>>>, i: nat, j: nat)
    requires i <= j <= |hs|
    ensures forall t :: t in After(EMPTY, hs[..i]).tokens ==>
      t in After(EMPTY, hs[..j]).tokens && After(EMPTY, hs[..j]).tokens[t] == After(EMPTY, hs[..i]).tokens[t]
  {
    if i < j {
      TokensStay(hs, i, j - 1);
      OneMore(hs, j - 1);
      Entered(Restarted(After(EMPTY, hs[..j-1])), AllStream(hs[j-1]));
      hide After, EnterAll, AllStream;
    }
  }

  /** After any number of histories the code of a token stands for it exactly if every one of them has spared it. */
  lemma {:induction false} TokenKept(hs: seq<seq<seq<AttributeAssignment>>>, n: nat, t: string)
    requires n <= |hs| && t in After(EMPTY, hs[..n]).tokens
    ensures Lives(After(EMPTY, hs[..n]), t) <==> forall i :: 0 <= i < n ==> Spares(hs, i, t)
  {
    hide *;
    if n == 0 {
      NothingYet(hs, t);
    } else {
      var d := After(EMPTY, hs[..n-1]);
      var toks := AllStream(hs[n-1]);
      AfterCoded(hs, n - 1);
      OneMore(hs, n - 1);
      OneHistory(d, toks);
      LastSpares(hs, n - 1, t);
      if t in d.tokens {
        TokenKept(hs, n - 1, t);
      } else {
        forall i | 0 <= i < n - 1 ensures Spares(hs, i, t) {
          NotThereYet(hs, i, n - 1, t);
        }
      }
    }
  }

  lemma NothingYet(hs: seq<seq<seq<AttributeAssignment>>>, t: string)
    ensures t !in After(EMPTY, hs[..0]).tokens
  {
  }

  lemma LastSpares(hs: seq<seq<seq<AttributeAssignment>>>, n: nat, t: string)
    requires n < |hs| && t in After(EMPTY, hs[..n+1]).tokens
    requires After(EMPTY, hs[..n+1]) == EnterAll(Restarted(After(EMPTY, hs[..n])), AllStream(hs[n]))
    requires var d, toks := After(EMPTY, hs[..n]), AllStream(hs[n]);
             var e, m := EnterAll(Restarted(d), toks), Brought(d, toks);
             OldTokens(d, e, m) && NewTokens(d, toks, e, m)
    ensures var d, e := After(EMPTY, hs[..n]), After(EMPTY, hs[..n+1]);
            Lives(e, t) <==> (t in d.tokens ==> Lives(d, t)) && Spares(hs, n, t)
  {
    Entered(Restarted(After(EMPTY, hs[..n])), AllStream(hs[n]));
    hide After, EnterAll, AllStream, Order, Rank, ToShort, Brought, Lives;
  }

  /** A token that is still unknown later has not been brought. */
  lemma NotThereYet(hs: seq<seq<seq<AttributeAssignment>>>, i: nat, n: nat, t: string)
    requires i < n <= |hs| && t !in After(EMPTY, hs[..n]).tokens
    ensures t !in After(EMPTY, hs[..i]).tokens && t !in AllStream(hs[i]) && Spares(hs, i, t)
  {
    TokensStay(hs, i, n);
    TokensStay(hs, i + 1, n);
    OneMore(hs, i);
    Entered(Restarted(After(EMPTY, hs[..i])), AllStream(hs[i]));
    hide After, EnterAll, AllStream, Order, Rank, Brought;
  }

  /** The rows of the k-th history as they are read back after all of them have been built. */
  ghost predicate ComesBack(hs: seq<seq<seq<AttributeAssignment>>>, k: nat)
    requires k < |hs|
  {
    ExpandedAll(After(EMPTY, hs).numbers, CompressedAll(After(EMPTY, hs[..k+1]).tokens, hs[k])) == hs[k]
  }

  ghost predicate AllSpared(hs: seq<seq<seq<AttributeAssignment>>>, k: nat)
    requires k < |hs|
  {
    forall t, i :: t in AllStream(hs[k]) && 0 <= i < |hs| ==> Spares(hs, i, t)
  }

  /** Any of any number of histories on the same maps comes back exactly if all of them spare each of its tokens. */
  lemma HistoryKept(hs: seq<seq<seq<AttributeAssignment>>>, k: nat)
    requires k < |hs| && Faithful(hs[k])
    ensures ComesBack(hs, k) <==> AllSpared(hs, k)
  {
    hide *;
    var d, e, toks := After(EMPTY, hs[..k+1]), After(EMPTY, hs), AllStream(hs[k]);
    RowsBackIff(d, e, hs[k]);
    ComesBackMeans(hs, k);
    Whole(hs);
    TokensStay(hs, k + 1, |hs|);
    OneMore(hs, k);
    AllKnown(Restarted(After(EMPTY, hs[..k])), toks);
    forall t | t in toks ensures Lives(e, t) <==> forall i :: 0 <= i < |hs| ==> Spares(hs, i, t) {
      TokenKept(hs, |hs|, t);
    }
    AfterCoded(hs, |hs|);
    DecodesIffLives(d, e, toks);
    SparedMeans(hs, k, e);
  }

  lemma ComesBackMeans(hs: seq<seq<seq<AttributeAssignment>>>, k: nat)
    requires k < |hs|
    ensures ComesBack(hs, k) <==>
      ExpandedAll(After(EMPTY, hs).numbers, CompressedAll(After(EMPTY, hs[..k+1]).tokens, hs[k])) == hs[k]
  {
    hide ExpandedAll, CompressedAll, After;
  }

  lemma SparedMeans(hs: seq<seq<seq<AttributeAssignment>>>, k: nat, e: Dictionary)
    requires k < |hs|
    requires forall t :: t in AllStream(hs[k]) ==> (Lives(e, t) <==> forall i :: 0 <= i < |hs| ==> Spares(hs, i, t))
    ensures AllSpared(hs, k) <==> Decodes(e, AllStream(hs[k]))
  {
    hide Spares, AllStream, Lives;
  }

  lemma DecodesIffLives(d: Dictionary, e: Dictionary, toks: seq<string>)
    requires Coded(e) && forall t :: t in toks ==> t in d.tokens && t in e.tokens && e.tokens[t] == d.tokens[t]
    ensures StillDecodes(d, e, toks) <==> Decodes(e, toks)
  {
  }

  /** The first token of all has the code zero, and it is the first to be taken away. */
  lemma {:induction false} FirstCode(d: Dictionary, toks: seq<string>)
    requires toks != [] && toks[0] !in d.tokens && d.counter == 0 && Coded(d)
    ensures var e := EnterAll(Restarted(d), toks);
            Order(d, toks, toks[0]) == 0 && toks[0] in e.tokens && e.tokens[toks[0]] == 0
  {
    var n := |toks| - 1;
    OneHistory(d, toks);
    assert ToShort(0) == 0;
    AllKnown(Restarted(d), toks);
    AllKnown(Restarted(d), toks[..n]);
    hide ToShort;
    if n > 0 { FirstCode(d, toks[..n]); }
  }

  ghost predicate NothingNewIn(toks: seq<string>, later: seq<seq<seq<AttributeAssignment>>>) {
    forall k, t :: 0 <= k < |later| && t in AllStream(later[k]) ==> t in toks
  }

  /** The later histories bring nothing exactly if they have no token that the first one lacks. */
  lemma {:induction false} NothingBrought(hs: seq<seq<seq<AttributeAssignment>>>, n: nat)
    requires 0 < n <= |hs|
    ensures NothingNewIn(AllStream(hs[0]), hs[1..n]) <==> Quiet(hs, n)
    ensures Quiet(hs, n) ==> forall t :: t in After(EMPTY, hs[..n]).tokens <==> t in AllStream(hs[0])
  {
    hide *;
    if n == 1 {
      OneHistoryOnly(hs);
      QuietStart(hs);
    } else {
      NothingBrought(hs, n - 1);
      NewInLast(AllStream(hs[0]), hs, n - 1);
      QuietMore(hs, n - 1);
      if Quiet(hs, n - 1) { StillQuiet(hs, n - 1); }
    }
  }

  /** None but the first brings a new token. */
  ghost predicate Quiet(hs: seq<seq<seq<AttributeAssignment>>>, n: nat)
    requires n <= |hs|
  {
    forall i :: 1 <= i < n ==> BroughtBy(hs, i) <= 0
  }

  lemma QuietStart(hs: seq<seq<seq<AttributeAssignment>>>)
    requires hs != []
    ensures Quiet(hs, 1)
  {
  }

  lemma QuietMore(hs: seq<seq<seq<AttributeAssignment>>>, n: nat)
    requires 1 <= n < |hs|
    ensures Quiet(hs, n + 1) <==> Quiet(hs, n) && BroughtBy(hs, n) <= 0
  {
    hide BroughtBy;
  }

  lemma StillQuiet(hs: seq<seq<seq<AttributeAssignment>>>, n: nat)
    requires 1 <= n < |hs| && forall t :: t in After(EMPTY, hs[..n]).tokens <==> t in AllStream(hs[0])
    ensures BroughtBy(hs, n) <= 0 <==> forall t :: t in AllStream(hs[n]) ==> t in AllStream(hs[0])
    ensures BroughtBy(hs, n) <= 0 ==> forall t :: t in After(EMPTY, hs[..n+1]).tokens <==> t in AllStream(hs[0])
  {
    var d, toks := After(EMPTY, hs[..n]), AllStream(hs[n]);
    hide *;
    OneMore(hs, n);
    BroughtMeans(hs, n);
    NothingIsNew(d, toks);
  }

  lemma OneHistoryOnly(hs: seq<seq<seq<AttributeAssignment>>>)
    requires hs != []
    ensures After(EMPTY, hs[..1]) == EnterAll(EMPTY, AllStream(hs[0])) && NothingNewIn(AllStream(hs[0]), hs[1..1])
    ensures forall t :: t in After(EMPTY, hs[..1]).tokens <==> t in AllStream(hs[0])
  {
    OneMore(hs, 0);
    Entered(EMPTY, AllStream(hs[0]));
    assert hs[..0] == [];
    hide AllStream, EnterAll;
  }

  lemma BroughtMeans(hs: seq<seq<seq<AttributeAssignment>>>, i: nat)
    requires i < |hs|
    ensures BroughtBy(hs, i) == Brought(After(EMPTY, hs[..i]), AllStream(hs[i]))
  {
    hide After, AllStream, Brought;
  }

  lemma NothingIsNew(d: Dictionary, toks: seq<string>)
    ensures Brought(d, toks) <= 0 <==> forall t :: t in toks ==> t in d.tokens
    ensures Brought(d, toks) <= 0 ==> EnterAll(Restarted(d), toks).tokens == d.tokens
  {
    var e := EnterAll(Restarted(d), toks);
    Entered(Restarted(d), toks);
    if forall t :: t in toks ==> t in d.tokens {
      NothingNew(Restarted(d), toks);
    } else {
      var t :| t in toks && t !in d.tokens;
      hide EnterAll;
      SameSize(d.tokens.Keys, e.tokens.Keys, t);
    }
  }

  lemma SameSize<T>(s: set<T>, t: set<T>, x: T)
    requires s <= t && x in t && x !in s
    ensures |s| < |t|
  {
    assert |t - (s + {x})| >= 0 && t == (s + {x}) + (t - (s + {x}));
  }

  lemma NewInLast(toks: seq<string>, hs: seq<seq<seq<AttributeAssignment>>>, n: nat)
    requires 1 <= n < |hs|
    ensures NothingNewIn(toks, hs[1..n+1]) <==>
      NothingNewIn(toks, hs[1..n]) && forall t :: t in AllStream(hs[n]) ==> t in toks
  {
    hide AllStream;
    var before, later := hs[1..n], hs[1..n+1];
    assert forall k :: 0 <= k < n - 1 ==> later[k] == before[k];
    assert later[n - 1] == hs[n];
  }

  /**
   * The first of any number of histories on the same maps comes back exactly if it has no more than 2^16 tokens and
   * none of the others brings another one; and then all of them come back.
   */
  lemma HistoriesKept(hs: seq<seq<seq<AttributeAssignment>>>)
    requires hs != [] && Faithful(hs[0]) && AllStream(hs[0]) != []
    ensures ComesBack(hs, 0) <==> FitsAlone(hs[0]) && NothingNewIn(AllStream(hs[0]), hs[1..])
    ensures ComesBack(hs, 0) ==> forall k :: 0 <= k < |hs| && Faithful(hs[k]) ==> ComesBack(hs, k)
  {
    var toks := AllStream(hs[0]);
    hide *;
    HistoryKept(hs, 0);
    NothingBrought(hs, |hs|);
    assert hs[1..|hs|] == hs[1..];
    if AllSpared(hs, 0) { FirstSpared(hs); }
    if FitsAlone(hs[0]) && NothingNewIn(toks, hs[1..]) {
      forall k | 0 <= k < |hs| ensures AllSpared(hs, k) {
        QuietOnes(hs, k);
      }
      forall k | 0 <= k < |hs| && Faithful(hs[k]) ensures ComesBack(hs, k) { HistoryKept(hs, k); }
    }
  }

  /** No more than 2^16 different tokens */
  ghost predicate FitsAlone(rows: seq<seq<AttributeAssignment>>) {
    |set t | t in AllStream(rows)| <= 65536
  }

  lemma FirstSize(hs: seq<seq<seq<AttributeAssignment>>>)
    requires hs != []
    ensures FitsAlone(hs[0]) <==> BroughtBy(hs, 0) <= 65536
    ensures forall t :: t !in After(EMPTY, hs[..0]).tokens
  {
    OneHistoryOnly(hs);
    OneMore(hs, 0);
    var e := After(EMPTY, hs[..1]);
    assert e.tokens.Keys == set t | t in AllStream(hs[0]);
    assert After(EMPTY, hs[..0]) == EMPTY;
    hide After, AllStream, EnterAll;
  }

  /** What it takes to spare the token with the code zero */
  lemma FirstSpared(hs: seq<seq<seq<AttributeAssignment>>>)
    requires hs != [] && AllStream(hs[0]) != [] && AllSpared(hs, 0)
    ensures FitsAlone(hs[0]) && Quiet(hs, |hs|)
  {
    var toks := AllStream(hs[0]);
    FirstSize(hs);
    assert hs[..0] == [];
    FirstCode(EMPTY, toks);
    OneMore(hs, 0);
    hide AllStream, After, Order, EnterAll, BroughtBy;
    assert toks[0] in toks && Spares(hs, 0, toks[0]);
    assert Order(After(EMPTY, hs[..0]), toks, toks[0]) == 0 by { assert After(EMPTY, []) == EMPTY by { Nothing(); } }
    forall i | 1 <= i < |hs| ensures BroughtBy(hs, i) <= 0 {
      TokensStay(hs, 1, i);
      assert Spares(hs, i, toks[0]);
    }
  }

  lemma Nothing()
    ensures After(EMPTY, []) == EMPTY
  {
  }

  lemma QuietOnes(hs: seq<seq<seq<AttributeAssignment>>>, k: nat)
    requires k < |hs| && FitsAlone(hs[0]) && NothingNewIn(AllStream(hs[0]), hs[1..])
    requires Quiet(hs, |hs|)
    ensures AllSpared(hs, k)
  {
    forall t, i | t in AllStream(hs[k]) && 0 <= i < |hs| ensures Spares(hs, i, t) {
      QuietOne(hs, k, t, i);
    }
  }

  lemma QuietOne(hs: seq<seq<seq<AttributeAssignment>>>, k: nat, t: string, i: nat)
    requires k < |hs| && FitsAlone(hs[0]) && NothingNewIn(AllStream(hs[0]), hs[1..])
    requires i < |hs| && t in AllStream(hs[k]) && (i >= 1 ==> BroughtBy(hs, i) <= 0)
    ensures Spares(hs, i, t)
  {
    var toks := AllStream(hs[0]);
    hide After, AllStream, Order, EnterAll, Brought;
    assert k > 0 ==> hs[k] == hs[1..][k - 1];
    assert t in toks;
    FirstSize(hs);
    OneHistoryOnly(hs);
    OneMore(hs, 0);
    if i == 0 {
      AfterCoded(hs, 0);
      OneHistory(After(EMPTY, hs[..0]), toks);
    } else {
      TokensStay(hs, 1, i);
    }
  }

  /** A history on its own maps comes back exactly if it has no more than 2^16 different tokens. */
  lemma HistoryRoundTrip(rows: seq<seq<AttributeAssignment>>)
    requires Faithful(rows)
    ensures var d := EnterAll(EMPTY, AllStream(rows));
            ExpandedAll(d.numbers, CompressedAll(d.tokens, rows)) == rows <==> FitsAlone(rows)
  {
    OneHistoryOnly([rows]);
    assert [rows][..1] == [rows];
    hide EnterAll, ExpandedAll, CompressedAll, Faithful;
    if AllStream(rows) == [] {
      HistoryKept([rows], 0);
      assert FitsAlone(rows);
    } else {
      HistoriesKept([rows]);
      assert [rows][1..] == [];
    }
  }

  lemma {:induction false} InRowStream(row: seq<AttributeAssignment>, j: nat)
    requires j < |row|
    ensures forall t :: t in Stream(row[j]) ==> t in RowStream(row)
  {
    if j < |row| - 1 { InRowStream(row[..|row|-1], j); }
  }

  lemma {:induction false} InStream(rows: seq<seq<AttributeAssignment>>, i: nat, j: nat)
    requires i < |rows| && j < |rows[i]|
    ensures forall t :: t in Stream(rows[i][j]) ==> t in AllStream(rows)
  {
    if i < |rows| - 1 { InStream(rows[..|rows|-1], i, j); } else { InRowStream(rows[i], j); }
  }

  // ---------- the classes ----------

  /** The two hash maps, which several histories may share */
  class TokenMaps {
    var tokenkeys: map<string, int>
    var numberkeys: map<int, string>

    constructor ()
      ensures tokenkeys == map[] && numberkeys == map[]
    {
      tokenkeys, numberkeys := map[], map[];
    }
  }

  /** What has been compressed stays valid when the dictionary grows. */
  lemma CompressedKept(e: Dictionary, toks: seq<string>, e': Dictionary, a: AttributeAssignment)
    requires Extends(e, toks, e') && forall t :: t in Stream(a) ==> t in e.tokens
    ensures Compressed(e'.tokens, a) == Compressed(e.tokens, a)
  {
    hide Tokens, Stripped;
    var ts := Tokens(Stripped(a.name));
    assert Stream(a)[|ts|] == a.value;
    assert forall i :: 0 <= i < |ts| ==> Stream(a)[i] == ts[i];
    assert Codes(e'.tokens, ts) == Codes(e.tokens, ts);
  }

  lemma RowKept(e: Dictionary, toks: seq<string>, e': Dictionary, row: seq<AttributeAssignment>)
    requires Extends(e, toks, e') && forall t :: t in RowStream(row) ==> t in e.tokens
    ensures CompressedRow(e'.tokens, row) == CompressedRow(e.tokens, row)
  {
    hide Compressed, Extends;
    forall k | 0 <= k < |row| ensures Compressed(e'.tokens, row[k]) == Compressed(e.tokens, row[k]) {
      InRowStream(row, k);
      CompressedKept(e, toks, e', row[k]);
    }
  }

  lemma RowsKept(e: Dictionary, toks: seq<string>, e': Dictionary, rows: seq<seq<AttributeAssignment>>)
    requires Extends(e, toks, e') && forall t :: t in AllStream(rows) ==> t in e.tokens
    ensures CompressedAll(e'.tokens, rows) == CompressedAll(e.tokens, rows)
  {
    hide CompressedRow, Extends;
    forall k | 0 <= k < |rows| ensures CompressedRow(e'.tokens, rows[k]) == CompressedRow(e.tokens, rows[k]) {
      InAllStream(rows, k);
      RowKept(e, toks, e', rows[k]);
    }
  }

  lemma {:induction false} InAllStream(rows: seq<seq<AttributeAssignment>>, i: nat)
    requires i < |rows|
    ensures forall t :: t in RowStream(rows[i]) ==> t in AllStream(rows)
  {
    if i < |rows| - 1 { InAllStream(rows[..|rows|-1], i); }
  }

  lemma AllKnown(d: Dictionary, toks: seq<string>)
    ensures forall t :: t in toks ==> t in EnterAll(d, toks).tokens
  {
    Entered(d, toks);
  }

  class CandidateHistory {
    const maps: TokenMaps
    var counter: int
    var data: seq<seq<SmallAttributeAssignment>>

    ghost function State(): Dictionary
      reads this, maps
    {
      Dictionary(maps.tokenkeys, maps.numberkeys, counter)
    }

    /** Compress the rows with the dictionary in the maps, which may already hold tokens of other histories. */
    constructor (maps: TokenMaps, rows: seq<seq<AttributeAssignment>>)
      modifies maps
      ensures this.maps == maps
      ensures State() == EnterAll(Dictionary(old(maps.tokenkeys), old(maps.numberkeys), 0), AllStream(rows))
      ensures data == CompressedAll(maps.tokenkeys, rows)
    {
      this.maps, counter, data := maps, 0, [];
      new;
      ghost var d := State();
      for i := 0 to |rows|
        invariant this.maps == maps && State() == EnterAll(d, AllStream(rows[..i]))
        invariant data == CompressedAll(maps.tokenkeys, rows[..i])
      {
        NextRow(d, rows, i);
        var row := CompressRow(rows[i]);
        data := data + [row];
      }
      assert rows[..|rows|] == rows;
    }

    lemma NextRow(d: Dictionary, rows: seq<seq<AttributeAssignment>>, i: nat)
      requires i < |rows|
      ensures var e := EnterAll(d, AllStream(rows[..i]));
              var e' := EnterAll(e, RowStream(rows[i]));
              && e' == EnterAll(d, AllStream(rows[..i+1]))
              && CompressedAll(e'.tokens, rows[..i+1]) ==
                   CompressedAll(e.tokens, rows[..i]) + [CompressedRow(e'.tokens, rows[i])]
    {
      hide EnterAll, Extends, CompressedRow, RowStream;
      assert rows[..i+1][..i] == rows[..i];
      assert AllStream(rows[..i+1]) == AllStream(rows[..i]) + RowStream(rows[i]);
      hide AllStream;
      var e := EnterAll(d, AllStream(rows[..i]));
      var e' := EnterAll(e, RowStream(rows[i]));
      EnterBoth(d, AllStream(rows[..i]), RowStream(rows[i]));
      AllKnown(d, AllStream(rows[..i]));
      Entered(e, RowStream(rows[i]));
      RowsKept(e, RowStream(rows[i]), e', rows[..i]);
    }

    method CompressRow(row: seq<AttributeAssignment>) returns (small: seq<SmallAttributeAssignment>)
      modifies this`counter, maps
      ensures State() == EnterAll(old(State()), RowStream(row)) && small == CompressedRow(maps.tokenkeys, row)
    {
      small := [];
      ghost var d := State();
      for j := 0 to |row|
        invariant State() == EnterAll(d, RowStream(row[..j])) && small == CompressedRow(maps.tokenkeys, row[..j])
      {
        NextAssignment(d, row, j);
        var s := Compress(row[j]);
        small := small + [s];
      }
      assert row[..|row|] == row;
    }

    lemma NextAssignment(d: Dictionary, row: seq<AttributeAssignment>, j: nat)
      requires j < |row|
      ensures var e := EnterAll(d, RowStream(row[..j]));
              var e' := EnterAll(e, Stream(row[j]));
              && e' == EnterAll(d, RowStream(row[..j+1]))
              && CompressedRow(e'.tokens, row[..j+1]) ==
                   CompressedRow(e.tokens, row[..j]) + [Compressed(e'.tokens, row[j])]
    {
      hide EnterAll, Extends, Compressed, Stream;
      assert row[..j+1][..j] == row[..j];
      assert RowStream(row[..j+1]) == RowStream(row[..j]) + Stream(row[j]);
      hide RowStream;
      var e := EnterAll(d, RowStream(row[..j]));
      var e' := EnterAll(e, Stream(row[j]));
      EnterBoth(d, RowStream(row[..j]), Stream(row[j]));
      AllKnown(d, RowStream(row[..j]));
      Entered(e, Stream(row[j]));
      RowKept(e, Stream(row[j]), e', row[..j]);
    }

    /** SmallAttributeAssignment::SmallAttributeAssignment */
    method Compress(a: AttributeAssignment) returns (small: SmallAttributeAssignment)
      modifies this`counter, maps
      ensures State() == EnterAll(old(State()), Stream(a)) && small == Compressed(maps.tokenkeys, a)
    {
      ghost var d, ts := State(), Tokens(Stripped(a.name));
      var name := GetTokenPathShortArray(a.name);
      var value := GetTokenShort(a.value);
      small := SmallAttributeAssignment(name, value, ToShort(a.time));
      AllKnown(d, ts);
      EnterBoth(d, ts, [a.value]);
      assert [a.value][..0] == [];
      assert Codes(maps.tokenkeys, ts) == name;
    }

    method GetTokenShort(tok: string) returns (num: int)
      modifies this`counter, maps
      ensures State() == Enter(old(State()), tok) && num == Code(maps.tokenkeys, tok)
    {
      if tok in maps.tokenkeys {
        num := maps.tokenkeys[tok];
      } else {
        num := counter;
        counter := ToShort(counter + 1);
        maps.tokenkeys := maps.tokenkeys[tok := num];
        maps.numberkeys := maps.numberkeys[num := tok];
      }
    }

    lemma NextCode(d: Dictionary, v: seq<string>, i: nat)
      requires i < |v|
      ensures var e := EnterAll(d, v[..i]);
              var e' := Enter(e, v[i]);
              && e' == EnterAll(d, v[..i+1])
              && Codes(e'.tokens, v[..i+1]) == Codes(e.tokens, v[..i]) + [Code(e'.tokens, v[i])]
    {
      assert v[..i+1][..i] == v[..i];
      AllKnown(d, v[..i]);
      var e := EnterAll(d, v[..i]);
      assert EnterAll(d, v[..i+1]) == Enter(e, v[i]);
      hide EnterAll;
      assert forall k :: 0 <= k < i ==> v[..i][k] in e.tokens;
    }

    method GetTokenPathShortArray(path: string) returns (a: seq<int>)
      modifies this`counter, maps
      ensures State() == EnterAll(old(State()), Tokens(Stripped(path)))
      ensures a == Codes(maps.tokenkeys, Tokens(Stripped(path)))
    {
      var v := Tokens(Stripped(path));
      a := [];
      ghost var d := State();
      for i := 0 to |v|
        invariant State() == EnterAll(d, v[..i]) && a == Codes(maps.tokenkeys, v[..i])
      {
        NextCode(d, v, i);
        hide *;
        var num := GetTokenShort(v[i]);
        a := a + [num];
      }
      assert v[..|v|] == v;
    }

    method GetTokenPath(a: seq<int>) returns (buf: string)
      ensures buf == Join(TokensOf(maps.numberkeys, a))
    {
      ghost var ts := TokensOf(maps.numberkeys, a);
      buf := "";
      assert ts[0..] == ts;
      for i := 0 to |a|
        invariant Join(ts) == buf + Join(ts[i..])
      {
        JoinFrom(ts, i);
        assert Token(maps.numberkeys, a[i]) == ts[i];
        hide *;
        NextPiece(buf, ts[i], Join(ts[i+1..]));
        buf := buf + Token(maps.numberkeys, a[i]);
        if i + 1 < |a| {
          buf := buf + ".";
        }
      }
    }

    static lemma NextPiece(buf: string, t: string, rest: string)
      ensures buf + (t + "." + rest) == buf + t + "." + rest
      ensures rest == "" ==> buf + t == buf + t + rest
    {
    }

    /** CandidateHistory::getAttributeAssignment */
    method GetAttributeAssignment() returns (rows: seq<seq<AttributeAssignment>>)
      ensures rows == ExpandedAll(maps.numberkeys, data)
    {
      rows := [];
      for i := 0 to |data|
        invariant rows == ExpandedAll(maps.numberkeys, data[..i])
      {
        var row := [];
        for j := 0 to |data[i]|
          invariant row == ExpandedRow(maps.numberkeys, data[i][..j])
        {
          var name := GetTokenPath(data[i][j].name);
          row := row + [AttributeAssignment(name, Token(maps.numberkeys, data[i][j].value), data[i][j].time)];
        }
        assert data[i][..|data[i]|] == data[i];
        rows := rows + [row];
      }
      assert data[..|data|] == data;
    }
  }

  /** A history built on fresh maps and read back */
  method StoreAndReload(rows: seq<seq<AttributeAssignment>>) returns (back: seq<seq<AttributeAssignment>>)
    ensures Faithful(rows) ==> (back == rows <==> FitsAlone(rows))
  {
    var maps := new TokenMaps();
    var history := new CandidateHistory(maps, rows);
    back := history.GetAttributeAssignment();
    if Faithful(rows) { HistoryRoundTrip(rows); }
  }

  ghost predicate Holds(maps: TokenMaps, d: Dictionary)
    reads maps
  {
    maps.tokenkeys == d.tokens && maps.numberkeys == d.numbers
  }

  method Another(maps: TokenMaps, hs: seq<seq<seq<AttributeAssignment>>>, i: nat) returns (history: CandidateHistory)
    requires i < |hs| && Holds(maps, After(EMPTY, hs[..i]))
    modifies maps
    ensures fresh(history) && history.maps == maps && Holds(maps, After(EMPTY, hs[..i+1]))
    ensures history.data == CompressedAll(After(EMPTY, hs[..i+1]).tokens, hs[i])
  {
    OneMore(hs, i);
    hide After, EnterAll, AllStream, CompressedAll;
    history := new CandidateHistory(maps, hs[i]);
  }

  method BuildFrom(maps: TokenMaps, hs: seq<seq<seq<AttributeAssignment>>>, i: nat, j: nat)
    requires i <= j <= |hs| && Holds(maps, After(EMPTY, hs[..i]))
    modifies maps
    ensures Holds(maps, After(EMPTY, hs[..j]))
  {
    hide *;
    for k := i to j
      invariant Holds(maps, After(EMPTY, hs[..k]))
    {
      var _ := Another(maps, hs, k);
    }
  }

  /** Any number of histories built on the same maps, of which one is read back in the end */
  method ShareMaps(hs: seq<seq<seq<AttributeAssignment>>>, k: nat) returns (back: seq<seq<AttributeAssignment>>)
    requires k < |hs|
    ensures Faithful(hs[k]) ==> (back == hs[k] <==> AllSpared(hs, k))
  {
    var maps := new TokenMaps();
    assert hs[..0] == [] && Holds(maps, After(EMPTY, []));
    hide *;
    BuildFrom(maps, hs, 0, k);
    var history := Another(maps, hs, k);
    BuildFrom(maps, hs, k + 1, |hs|);
    back := history.GetAttributeAssignment();
    Whole(hs);
    HoldsMeans(maps, After(EMPTY, hs));
    ComesBackMeans(hs, k);
    if Faithful(hs[k]) { HistoryKept(hs, k); }
  }

  lemma HoldsMeans(maps: TokenMaps, d: Dictionary)
    requires Holds(maps, d)
    ensures maps.numberkeys == d.numbers
  {
  }

  /** Two histories of one assignment each: the first is read back as the second. */
  method MixedUp() returns (first: seq<seq<AttributeAssignment>>, second: seq<seq<AttributeAssignment>>,
                            back: seq<seq<AttributeAssignment>>)
    ensures first == [[AttributeAssignment("a", "b", 0)]] && second == [[AttributeAssignment("c", "d", 0)]]
    ensures back == second
  {
    first, second := [[AttributeAssignment("a", "b", 0)]], [[AttributeAssignment("c", "d", 0)]];
    var maps := new TokenMaps();
    SingleAssignment("a", "b");
    SingleAssignment("c", "d");
    SingleCompressed(map["a" := 0, "b" := 1], "a", "b");
    hide Tokens, Stripped, AllStream, EnterAll, Enter;
    EnterTwo(EMPTY, "a", "b");
    var history := new CandidateHistory(maps, first);
    assert maps.tokenkeys == map["a" := 0, "b" := 1];
    EnterTwo(Restarted(history.State()), "c", "d");
    var _ := new CandidateHistory(maps, second);
    assert maps.numberkeys[0] == "c" && maps.numberkeys[1] == "d";
    back := history.GetAttributeAssignment();
    ReadBack(maps.numberkeys);
  }

  lemma ReadBack(numbers: map<int, string>)
    requires 0 in numbers && 1 in numbers && numbers[0] == "c" && numbers[1] == "d"
    ensures ExpandedAll(numbers, [[SmallAttributeAssignment([0], 1, 0)]]) == [[AttributeAssignment("c", "d", 0)]]
  {
    var small := SmallAttributeAssignment([0], 1, 0);
    assert TokensOf(numbers, [0]) == ["c"];
    assert Join(["c"]) == "c";
    assert Expanded(numbers, small) == AttributeAssignment("c", "d", 0);
    assert ExpandedRow(numbers, [small]) == [Expanded(numbers, small)];
    assert ExpandedAll(numbers, [[small]]) == [ExpandedRow(numbers, [small])];
  }

  lemma SingleCompressed(tokens: map<string, int>, x: string, y: string)
    requires Tokens(Stripped(x)) == [x] && x in tokens && y in tokens && tokens[x] == 0 && tokens[y] == 1
    ensures CompressedAll(tokens, [[AttributeAssignment(x, y, 0)]]) == [[SmallAttributeAssignment([0], 1, 0)]]
  {
    var a, small := AttributeAssignment(x, y, 0), SmallAttributeAssignment([0], 1, 0);
    hide Tokens, Stripped;
    assert Codes(tokens, [x]) == [0];
    assert Compressed(tokens, a) == small;
    assert CompressedRow(tokens, [a]) == [Compressed(tokens, a)];
    assert CompressedAll(tokens, [[a]]) == [CompressedRow(tokens, [a])];
  }

  lemma SingleAssignment(x: string, y: string)
    requires |x| == 1 && x[0] != '.' && x[0] != '#'
    ensures Tokens(Stripped(x)) == [x] && AllStream([[AttributeAssignment(x, y, 0)]]) == [x, y]
  {
    var a := AttributeAssignment(x, y, 0);
    assert IndexOf(x, '#') == 1 && IndexOf(x, '.') == 1;
    assert x[..1] == x && x[1..] == "";
    assert Tokens(x) == [x] + Tokens("") == [x];
    assert Stream(a) == [x] + [y] == [x, y];
    hide Stream;
    assert [a][..0] == [] && [[a]][..0] == [];
    assert RowStream([a]) == Stream(a);
  }

  /** Two new tokens take the codes 0 and 1. */
  lemma EnterTwo(d: Dictionary, x: string, y: string)
    requires d.counter == 0 && x !in d.tokens && y !in d.tokens && x != y
    ensures var e := EnterAll(d, [x, y]);
            && e.counter == 2 && e.tokens == d.tokens[x := 0][y := 1] && e.numbers == d.numbers[0 := x][1 := y]
  {
    assert [x, y][..1] == [x] && [x][..0] == [];
    assert EnterAll(d, [x]) == Enter(d, x);
  }
}
