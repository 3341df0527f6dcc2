/** What the selector engine returns, said of names, class attributes and parents alone. */
module SelectorAnswers {
  import opened Wrappers
  import opened Selector

  // ---------- one element and one token ----------

  /** A digit, a letter or an underscore, by its ASCII code. */
  predicate InWord(s: string, i: int) {
    0 <= i < |s| && var code := s[i] as int; 48 <= code <= 57 || 65 <= code <= 90 || code == 95 || 97 <= code <= 122
  }

  /** w stands in s between two word boundaries. */
  predicate StandsIn(w: string, s: string) {
    exists p: nat | p <= |s| - |w| :: StandsAt(w, s, p)
  }

  predicate StandsAt(w: string, s: string, p: nat)
    requires p + |w| <= |s|
  {
    s[p..p + |w|] == w && InWord(s, p - 1) != InWord(s, p) && InWord(s, p + |w| - 1) != InWord(s, p + |w|)
  }

  predicate IsOtherCase(x: char, y: char) {
    'A' <= x <= 'Z' && y as int == x as int + 32
  }

  /** The same name but for the case of ASCII letters. */
  predicate SameLetters(a: string, b: string) {
    |a| == |b| && forall i | 0 <= i < |a| :: a[i] == b[i] || IsOtherCase(a[i], b[i]) || IsOtherCase(b[i], a[i])
  }

  /** Element e has the name and the class of the token; a missing tag and the star stand for any name. */
  predicate Fits(doc: Document, token: Token, e: nat)
    requires doc.Valid()
  {
    && 0 < e < |doc.name|
    && (token.tag == "*" || (token.ClassToken? && token.tag == "") || SameLetters(token.tag, doc.name[e]))
    && (token.ClassToken? ==> doc.className[e] != "" && StandsIn(token.word, doc.className[e]))
  }

  lemma InWordIsExact(s: string, i: nat)
    requires i < |s|
    ensures InWord(s, i) <==> IsWordChar(s[i])
  {
  }

  lemma BoundaryIsExact(s: string, p: nat)
    requires p <= |s|
    ensures Boundary(s, p) <==> InWord(s, p - 1) != InWord(s, p)
  {
    if p > 0 {
      InWordIsExact(s, p - 1);
    }
    if p < |s| {
      InWordIsExact(s, p);
    }
  }

  lemma StandsInIsExact(w: string, s: string)
    ensures ClassMatches(s, w) <==> s != "" && StandsIn(w, s)
  {
    forall p: nat | p <= |s| - |w|
      ensures MatchesAt(s, w, p) <==> StandsAt(w, s, p)
    {
      BoundaryIsExact(s, p);
      BoundaryIsExact(s, p + |w|);
    }
  }

  lemma SameLettersIsExact(a: string, b: string)
    ensures SameName(a, b) <==> SameLetters(a, b)
  {
    if |a| == |b| {
      forall i | 0 <= i < |a|
        ensures LowerChar(a[i]) == LowerChar(b[i]) <==>
                a[i] == b[i] || IsOtherCase(a[i], b[i]) || IsOtherCase(b[i], a[i])
      {
        SameLetterIsExact(a[i], b[i]);
      }
    }
  }

  lemma SameLetterIsExact(x: char, y: char)
    ensures LowerChar(x) == LowerChar(y) <==> x == y || IsOtherCase(x, y) || IsOtherCase(y, x)
  {
  }

  lemma FitsIsExact(doc: Document, token: Token, e: nat)
    requires doc.Valid() && e > 0
    ensures Matches(doc, token, e) <==> Fits(doc, token, e)
  {
    if e < |doc.name| {
      SameLettersIsExact(TagOf(token), doc.name[e]);
      if token.ClassToken? {
        StandsInIsExact(token.word, doc.className[e]);
      }
    }
  }

  // ---------- ancestors ----------

  /** From an element to its parent, and so on. */
  ghost predicate IsPath(doc: Document, path: seq<nat>)
    requires doc.Valid()
  {
    forall i | 0 <= i < |path| - 1 :: 0 < path[i] < |doc.parent| && doc.parent[path[i]] == path[i + 1]
  }

  ghost predicate IsAncestor(doc: Document, a: nat, e: nat)
    requires doc.Valid()
  {
    exists path :: |path| >= 2 && path[0] == e && path[|path| - 1] == a && IsPath(doc, path)
  }

  lemma BelowIsExact(doc: Document, e: nat, a: nat)
    requires doc.Valid()
    ensures IsBelow(doc, e, a) <==> IsAncestor(doc, a, e)
  {
    if IsBelow(doc, e, a) {
      var path := PathOf(doc, e, a);
    }
    if path :| |path| >= 2 && path[0] == e && path[|path| - 1] == a && IsPath(doc, path) {
      PathIsBelow(doc, path);
    }
  }

  lemma {:induction false} PathOf(doc: Document, e: nat, a: nat) returns (path: seq<nat>)
    requires doc.Valid() && IsBelow(doc, e, a)
    ensures |path| >= 2 && path[0] == e && path[|path| - 1] == a && IsPath(doc, path)
    decreases e
  {
    if doc.parent[e] == a {
      path := [e, a];
    } else {
      path := PathOf(doc, doc.parent[e], a);
      path := [e] + path;
    }
  }

  lemma {:induction false} PathIsBelow(doc: Document, path: seq<nat>)
    requires doc.Valid() && |path| >= 2 && IsPath(doc, path)
    ensures IsBelow(doc, path[0], path[|path| - 1])
    decreases |path|
  {
    assert 0 < path[0] < |doc.parent| && doc.parent[path[0]] == path[1];
    if |path| > 2 {
      forall i | 0 <= i < |path[1..]| - 1
        ensures 0 < path[1..][i] < |doc.parent| && doc.parent[path[1..][i]] == path[1..][i + 1]
      {
        assert path[1..][i] == path[i + 1] && path[1..][i + 1] == path[i + 2];
      }
      PathIsBelow(doc, path[1..]);
    }
  }

  lemma {:induction false} EveryElementIsInside(doc: Document, e: nat)
    requires doc.Valid() && 0 < e < |doc.parent|
    ensures IsBelow(doc, e, 0)
    decreases e
  {
    if doc.parent[e] != 0 {
      EveryElementIsInside(doc, doc.parent[e]);
    }
  }

  // ---------- what is returned ----------

  ghost predicate IsLevel(doc: Document, tokens: seq<Token>, c: seq<nat>, i: nat)
    requires doc.Valid() && i < |c| == |tokens|
  {
    Fits(doc, tokens[i], c[i]) && (i > 0 ==> IsAncestor(doc, c[i - 1], c[i]))
  }

  /** One element for each token, each with the name and class of its token and inside the one before. */
  ghost predicate IsNesting(doc: Document, tokens: seq<Token>, c: seq<nat>)
    requires doc.Valid()
  {
    |c| == |tokens| && forall i: nat | i < |c| :: IsLevel(doc, tokens, c, i)
  }

  lemma NestingIsExact(doc: Document, tokens: seq<Token>, c: seq<nat>)
    requires doc.Valid()
    ensures IsChain(doc, tokens, c) <==> IsNesting(doc, tokens, c)
  {
    if |c| == |tokens| {
      forall i: nat | i < |c|
        ensures IsLink(doc, tokens, c, i) <==> IsLevel(doc, tokens, c, i)
      {
        LevelIsExact(doc, tokens, c, i);
      }
    }
  }

  lemma LevelIsExact(doc: Document, tokens: seq<Token>, c: seq<nat>, i: nat)
    requires doc.Valid() && i < |c| == |tokens|
    ensures IsLink(doc, tokens, c, i) <==> IsLevel(doc, tokens, c, i)
  {
    if 0 < c[i] < |doc.parent| {
      FitsIsExact(doc, tokens[i], c[i]);
      EveryElementIsInside(doc, c[i]);
      if i > 0 {
        BelowIsExact(doc, c[i], c[i - 1]);
      }
    }
  }

  /** What the engine returns, in plain terms: e if some elements with the names and classes of the tokens
      are nested in the order of the tokens, down to e. */
  lemma ResultIsNested(doc: Document, tokens: seq<Token>, e: nat)
    requires doc.Valid() && tokens != []
    ensures e in Ends(AllChains(doc, tokens))
       <==> exists c :: IsNesting(doc, tokens, c) && c[|c| - 1] == e
  {
    ResultIsSelection(doc, tokens, e);
    SelectedByChain(doc, tokens, e);
    if c :| IsChain(doc, tokens, c) && End(c) == e {
      NestingIsExact(doc, tokens, c);
    }
    if c :| IsNesting(doc, tokens, c) && c[|c| - 1] == e {
      NestingIsExact(doc, tokens, c);
    }
  }

  /** A single token returns exactly the elements that fit it. */
  lemma OneTokenReturns(doc: Document, token: Token, e: nat)
    requires doc.Valid()
    ensures e in Ends(AllChains(doc, [token])) <==> Fits(doc, token, e)
  {
    ResultIsNested(doc, [token], e);
    if Fits(doc, token, e) {
      assert IsLevel(doc, [token], [e], 0);
      assert IsNesting(doc, [token], [e]);
    }
    if c :| IsNesting(doc, [token], c) && c[|c| - 1] == e {
      assert IsLevel(doc, [token], c, 0);
    }
  }

  /** In particular `.w` returns every element that has the class w, if that begins and ends with a word
      character. */
  lemma ClassIsReturned(doc: Document, w: string, e: nat)
    requires doc.Valid() && 0 < e < |doc.className|
    requires IsClassWord(w) && InWord(w, 0) && InWord(w, |w| - 1) && HasClassWord(doc.className[e], w)
    ensures e in Ends(AllChains(doc, [ClassToken("", w)]))
  {
    InWordIsExact(w, 0);
    InWordIsExact(w, |w| - 1);
    ClassIsNeverMissed(w);
    StandsInIsExact(w, doc.className[e]);
    OneTokenReturns(doc, ClassToken("", w), e);
  }

  // ---------- the engine ----------

  ghost predicate NothingNested(doc: Document, tokens: seq<Token>)
    requires doc.Valid()
  {
    forall c :: !IsNesting(doc, tokens, c)
  }

  lemma NothingIsSelected(doc: Document, tokens: seq<Token>)
    requires doc.Valid()
    ensures SelectsNothing(doc, tokens) <==> NothingNested(doc, tokens)
  {
    forall c | IsNesting(doc, tokens, c) ensures Selected(doc, tokens, End(c)) {
      NestingIsExact(doc, tokens, c);
      SelectedByChain(doc, tokens, End(c));
    }
    forall e: nat | Selected(doc, tokens, e) ensures !NothingNested(doc, tokens) {
      SelectedByChain(doc, tokens, e);
      var c :| IsChain(doc, tokens, c) && End(c) == e;
      NestingIsExact(doc, tokens, c);
    }
  }

  lemma {:induction false} StuckSomewhere(doc: Document, tokens: seq<Token>, n: nat)
    requires doc.Valid() && n <= |tokens|
    ensures StuckWithin(doc, tokens, n)
       <==> exists i: nat :: i < n && tokens[i].TagToken? && NothingNested(doc, tokens[..i])
    decreases n
  {
    if n > 0 {
      StuckSomewhere(doc, tokens, n - 1);
      NothingIsSelected(doc, tokens[..n - 1]);
    }
  }

  /** The engine, with what it returns: nothing at all if a tag token comes after tokens that nothing is
      nested in, and otherwise the last elements of all nestings. */
  method ElementsBySelector(doc: Document, tokens: seq<Token>) returns (r: Option<seq<nat>>)
    requires doc.Valid()
    ensures r == None <==> exists i: nat :: i < |tokens| && tokens[i].TagToken? && NothingNested(doc, tokens[..i])
    ensures r.Some? && tokens != [] ==>
              forall e :: e in r.value <==> exists c :: IsNesting(doc, tokens, c) && c[|c| - 1] == e
  {
    r := GetElementsBySelector(doc, tokens);
    StuckSomewhere(doc, tokens, |tokens|);
    if tokens != [] {
      forall e: nat
        ensures e in Ends(AllChains(doc, tokens)) <==> exists c :: IsNesting(doc, tokens, c) && c[|c| - 1] == e
      {
        ResultIsNested(doc, tokens, e);
      }
    }
  }
}
