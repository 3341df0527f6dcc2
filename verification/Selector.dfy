/** `document.getElementsBySelector` for selectors of tag and class tokens. */
module Selector {
  import opened Wrappers

  /** Node 0 is the document; the elements follow in document order, each after its parent. */
  datatype Document = Document(parent: seq<nat>, name: seq<string>, className: seq<string>)
  {
    ghost predicate Valid() {
      && 0 < |parent| == |name| == |className|
      && forall i | 0 < i < |parent| :: parent[i] < i
    }
  }

  /** A token without a dot, or with one: `tag.class`, where the tag may be missing. */
  datatype Token = TagToken(tag: string) | ClassToken(tag: string, word: string)

  // ---------- what a token asks of an element ----------

  function LowerChar(c: char): char {
    if 'A' <= c <= 'Z' then c - 'A' + 'a' else c
  }

  predicate SameName(a: string, b: string) {
    |a| == |b| && forall i | 0 <= i < |a| :: LowerChar(a[i]) == LowerChar(b[i])
  }

  /** `getElementsByTagName`: the star is any element, names of HTML elements ignore case. */
  predicate NameMatches(tag: string, name: string) {
    tag == "*" || SameName(tag, name)
  }

  predicate IsWordChar(c: char) {
    'a' <= c <= 'z' || 'A' <= c <= 'Z' || '0' <= c <= '9' || c == '_'
  }

  /** The regular expression `\b` at position p. */
  predicate Boundary(s: string, p: nat)
    requires p <= |s|
  {
    (p > 0 && IsWordChar(s[p - 1])) != (p < |s| && IsWordChar(s[p]))
  }

  predicate MatchesAt(s: string, w: string, p: nat)
    requires p + |w| <= |s|
  {
    s[p..p + |w|] == w && Boundary(s, p) && Boundary(s, p + |w|)
  }

  /** `className && className.match(/\bw\b/)` for a class without regular-expression characters. */
  predicate ClassMatches(className: string, w: string) {
    className != "" && exists p: nat | p <= |className| - |w| :: MatchesAt(className, w, p)
  }

  // ---------- the class test against Selectors Level 3, section 6.4 ----------

  predicate IsSpace(c: char) {
    c == ' ' || c == '\t' || c == '\n' || c == '\r' || c == '\U{c}'
  }

  /** w stands at position p, between spaces or the ends of the attribute. */
  predicate IsClassAt(s: string, w: string, p: nat)
    requires p + |w| <= |s|
  {
    s[p..p + |w|] == w && (p == 0 || IsSpace(s[p - 1])) && (p + |w| == |s| || IsSpace(s[p + |w|]))
  }

  /** w is one of the classes in the attribute. */
  predicate HasClassWord(className: string, w: string) {
    exists p: nat | p <= |className| - |w| :: IsClassAt(className, w, p)
  }

  predicate IsClassWord(w: string) {
    w != "" && forall i | 0 <= i < |w| :: !IsSpace(w[i])
  }

  /** The test finds a class wherever it is present exactly when the class begins and ends with a
      word character: `-moz` is never found. */
  lemma ClassIsNeverMissed(w: string)
    requires IsClassWord(w)
    ensures (forall c :: HasClassWord(c, w) ==> ClassMatches(c, w)) <==> IsWordChar(w[0]) && IsWordChar(w[|w| - 1])
  {
    if IsWordChar(w[0]) && IsWordChar(w[|w| - 1]) {
      forall c | HasClassWord(c, w) ensures ClassMatches(c, w) {
        var p: nat :| p <= |c| - |w| && IsClassAt(c, w, p);
        assert c[p] == c[p..p + |w|][0] && c[p + |w| - 1] == c[p..p + |w|][|w| - 1];
        assert MatchesAt(c, w, p);
      }
    } else {
      assert w[0..0 + |w|] == w;
      assert IsClassAt(w, w, 0);
      assert HasClassWord(w, w) && !MatchesAt(w, w, 0);
      assert !ClassMatches(w, w);
    }
  }

  /** It finds nothing else in an attribute of word characters and spaces. */
  lemma ClassIsNotImagined(className: string, w: string)
    requires IsClassWord(w) && ClassMatches(className, w)
    requires forall i | 0 <= i < |className| :: IsWordChar(className[i]) || IsSpace(className[i])
    ensures HasClassWord(className, w)
  {
    var p: nat :| p <= |className| - |w| && MatchesAt(className, w, p);
    assert className[p] == className[p..p + |w|][0] && className[p + |w| - 1] == className[p..p + |w|][|w| - 1];
    assert IsClassAt(className, w, p);
  }

  predicate Over(s: string, chars: set<char>) {
    forall i | 0 <= i < |s| :: s[i] in chars
  }

  /** The attributes over an alphabet in which nothing is imagined: those without any character that is
      neither a word character nor a space, or without any word character. */
  lemma AlphabetDecides(chars: set<char>)
    ensures (forall c, w | Over(c, chars) && IsClassWord(w) && ClassMatches(c, w) :: HasClassWord(c, w))
       <==> || (forall x | x in chars :: IsWordChar(x) || IsSpace(x))
            || (forall x | x in chars :: !IsWordChar(x))
  {
    if forall x | x in chars :: IsWordChar(x) || IsSpace(x) {
      forall c, w | Over(c, chars) && IsClassWord(w) && ClassMatches(c, w) ensures HasClassWord(c, w) {
        ClassIsNotImagined(c, w);
      }
    } else if a :| a in chars && IsWordChar(a) {
      var x :| x in chars && !IsWordChar(x) && !IsSpace(x);
      FollowerDecides([a], x);
      assert Over([a] + [x], chars) && IsClassWord([a]);
    }
  }

  /** What may follow a class in the attribute: after a class that begins and ends with a word character
      the test is right exactly for word characters and spaces.  Any other one ends the word for the test,
      so that `.nav` also selects class `nav-bar`. */
  lemma FollowerDecides(w: string, x: char)
    requires IsClassWord(w) && IsWordChar(w[0]) && IsWordChar(w[|w| - 1])
    ensures (ClassMatches(w + [x], w) ==> HasClassWord(w + [x], w)) <==> IsWordChar(x) || IsSpace(x)
  {
    var c, n := w + [x], |w|;
    assert c[0..0 + n] == w;
    if IsSpace(x) {
      assert IsClassAt(c, w, 0);
    } else if IsWordChar(x) {
      assert !MatchesAt(c, w, 0);
      assert c[1 + n - 1] == x && c[1..1 + n] == w ==> c[1] == w[0];
      assert !MatchesAt(c, w, 1);
    } else {
      assert MatchesAt(c, w, 0);
      assert !IsClassAt(c, w, 0) && !IsClassAt(c, w, 1);
    }
  }

  /** For every class there is an attribute in which the test finds it although it is not there. */
  lemma ClassImagined(w: string) returns (className: string)
    requires IsClassWord(w)
    ensures ClassMatches(className, w) && !HasClassWord(className, w)
  {
    var before, after := if IsWordChar(w[0]) then "-" else "a", if IsWordChar(w[|w| - 1]) then "-" else "a";
    className := before + w + after;
    assert className[1..1 + |w|] == w;
    assert className[1] == w[0] && className[|w|] == w[|w| - 1];
    assert MatchesAt(className, w, 1);
    forall p: nat | p <= |className| - |w| ensures !IsClassAt(className, w, p) {
      OneWord(className, w, p);
    }
  }

  /** In an attribute without spaces a class is the whole attribute. */
  lemma OneWord(c: string, w: string, p: nat)
    requires p + |w| <= |c| && |w| < |c| && forall i | 0 <= i < |c| :: !IsSpace(c[i])
    ensures !IsClassAt(c, w, p)
  {
  }

  function TagOf(token: Token): string {
    if token.ClassToken? && token.tag == "" then "*" else token.tag
  }

  predicate HasName(doc: Document, tag: string, e: nat) {
    e < |doc.name| && NameMatches(tag, doc.name[e])
  }

  predicate HasClass(doc: Document, word: string, e: nat) {
    e < |doc.className| && ClassMatches(doc.className[e], word)
  }

  /** The class part of a token. */
  predicate Passes(doc: Document, token: Token, e: nat) {
    token.ClassToken? ==> HasClass(doc, token.word, e)
  }

  predicate Matches(doc: Document, token: Token, e: nat) {
    HasName(doc, TagOf(token), e) && Passes(doc, token, e)
  }

  // ---------- the tree ----------

  /** e is a proper descendant of a. */
  predicate IsBelow(doc: Document, e: nat, a: nat)
    requires doc.Valid()
    decreases e
  {
    0 < e < |doc.parent| && (doc.parent[e] == a || IsBelow(doc, doc.parent[e], a))
  }

  /** The descendants of a node with a given name, among the first k nodes, in document order. */
  function ByTag(doc: Document, a: nat, tag: string, k: nat): seq<nat>
    requires doc.Valid()
  {
    if k == 0 then []
    else ByTag(doc, a, tag, k - 1) + if IsBelow(doc, k - 1, a) && HasName(doc, tag, k - 1) then [k - 1] else []
  }

  function GetElementsByTagName(doc: Document, a: nat, tag: string): seq<nat>
    requires doc.Valid()
  {
    ByTag(doc, a, tag, |doc.parent|)
  }

  // ---------- Selectors Level 3, section 8.1 ----------

  /** e matches the last token and has an ancestor selected by the tokens before it. */
  ghost predicate Selected(doc: Document, tokens: seq<Token>, e: nat)
    requires doc.Valid()
    decreases tokens
  {
    if tokens == [] then e == 0
    else
      && Matches(doc, tokens[|tokens| - 1], e)
      && exists a: nat :: IsBelow(doc, e, a) && Selected(doc, tokens[..|tokens| - 1], a)
  }

  /** Link i of a chain: an element that matches token i and is below the link before it. */
  ghost predicate IsLink(doc: Document, tokens: seq<Token>, c: seq<nat>, i: nat)
    requires doc.Valid() && i < |c| == |tokens|
  {
    Matches(doc, tokens[i], c[i]) && IsBelow(doc, c[i], if i == 0 then 0 else c[i - 1])
  }

  /** A chain of elements, one for each token, from the document down. */
  ghost predicate IsChain(doc: Document, tokens: seq<Token>, c: seq<nat>)
    requires doc.Valid()
  {
    |c| == |tokens| && forall i: nat | i < |c| :: IsLink(doc, tokens, c, i)
  }

  function End(c: seq<nat>): nat {
    if c == [] then 0 else c[|c| - 1]
  }

  // ---------- all chains, in the order of the loops ----------

  function Kept(doc: Document, token: Token, found: seq<nat>): seq<nat> {
    if found == [] then []
    else
      var n := |found| - 1;
      Kept(doc, token, found[..n]) + if Passes(doc, token, found[n]) then [found[n]] else []
  }

  function Candidates(doc: Document, token: Token, a: nat): seq<nat>
    requires doc.Valid()
  {
    Kept(doc, token, GetElementsByTagName(doc, a, TagOf(token)))
  }

  /** Every chain continued by every candidate below its end. */
  function Extended(doc: Document, token: Token, chains: seq<seq<nat>>): (r: seq<seq<nat>>)
    requires doc.Valid()
  {
    if chains == [] then []
    else
      var n := |chains| - 1;
      Extended(doc, token, chains[..n]) + Continued(chains[n], Candidates(doc, token, End(chains[n])))
  }

  function Continued(c: seq<nat>, nodes: seq<nat>): (r: seq<seq<nat>>)
    ensures |r| == |nodes| && forall i | 0 <= i < |nodes| :: r[i] == c + [nodes[i]]
  {
    seq(|nodes|, i requires 0 <= i < |nodes| => c + [nodes[i]])
  }

  function AllChains(doc: Document, tokens: seq<Token>): seq<seq<nat>>
    requires doc.Valid()
    decreases tokens
  {
    if tokens == [] then [[]]
    else Extended(doc, tokens[|tokens| - 1], AllChains(doc, tokens[..|tokens| - 1]))
  }

  function Ends(chains: seq<seq<nat>>): (r: seq<nat>)
    ensures |r| == |chains| && forall i | 0 <= i < |chains| :: r[i] == End(chains[i])
  {
    seq(|chains|, i requires 0 <= i < |chains| => End(chains[i]))
  }

  // ---------- exactness of the chains ----------

  ghost predicate Ascending(s: seq<nat>) {
    forall i, j | 0 <= i < j < |s| :: s[i] < s[j]
  }

  lemma {:induction false} ByTagIsExact(doc: Document, a: nat, tag: string, k: nat)
    requires doc.Valid()
    ensures forall e: nat :: e in ByTag(doc, a, tag, k) <==> e < k && IsBelow(doc, e, a) && HasName(doc, tag, e)
    decreases k
  {
    if k > 0 {
      ByTagIsExact(doc, a, tag, k - 1);
    }
  }

  lemma {:induction false} ByTagAscends(doc: Document, a: nat, tag: string, k: nat)
    requires doc.Valid()
    ensures Ascending(ByTag(doc, a, tag, k))
    decreases k
  {
    if k > 0 {
      var s := ByTag(doc, a, tag, k - 1);
      ByTagAscends(doc, a, tag, k - 1);
      ByTagIsExact(doc, a, tag, k - 1);
      forall i | 0 <= i < |s| ensures s[i] < k - 1 {
        assert s[i] in s;
      }
    }
  }

  lemma {:induction false} KeptIsExact(doc: Document, token: Token, found: seq<nat>)
    ensures forall e: nat :: e in Kept(doc, token, found) <==> e in found && Passes(doc, token, e)
    decreases |found|
  {
    if found != [] {
      var n := |found| - 1;
      KeptIsExact(doc, token, found[..n]);
      assert found == found[..n] + [found[n]];
    }
  }

  lemma {:induction false} KeptAscends(doc: Document, token: Token, found: seq<nat>)
    requires Ascending(found)
    ensures Ascending(Kept(doc, token, found))
    decreases |found|
  {
    if found != [] {
      var n := |found| - 1;
      KeptAscends(doc, token, found[..n]);
      KeptIsExact(doc, token, found[..n]);
      var s := Kept(doc, token, found[..n]);
      forall i | 0 <= i < |s| ensures s[i] < found[n] {
        assert s[i] in s;
        assert s[i] in found[..n];
      }
    }
  }

  lemma CandidatesAreExact(doc: Document, token: Token, a: nat)
    requires doc.Valid()
    ensures var s := Candidates(doc, token, a);
            && (forall e: nat :: e in s <==> IsBelow(doc, e, a) && Matches(doc, token, e))
            && Ascending(s)
  {
    ByTagIsExact(doc, a, TagOf(token), |doc.parent|);
    ByTagAscends(doc, a, TagOf(token), |doc.parent|);
    KeptIsExact(doc, token, GetElementsByTagName(doc, a, TagOf(token)));
    KeptAscends(doc, token, GetElementsByTagName(doc, a, TagOf(token)));
  }

  ghost predicate NoDuplicates<T>(s: seq<T>) {
    forall i, j | 0 <= i < j < |s| :: s[i] != s[j]
  }

  /** c comes first: it has the earlier element where the two first differ. */
  ghost predicate Before(c: seq<nat>, d: seq<nat>) {
    exists i :: 0 <= i < |c| && i < |d| && c[i] < d[i] && c[..i] == d[..i]
  }

  /** All of one length, in document order of their first elements, then of their second ones, and so on. */
  ghost predicate InOrder(chains: seq<seq<nat>>, length: nat) {
    && (forall c | c in chains :: |c| == length)
    && forall i, j | 0 <= i < j < |chains| :: Before(chains[i], chains[j])
  }

  /** c continues one of the chains. */
  ghost predicate Continues(doc: Document, token: Token, chains: seq<seq<nat>>, c: seq<nat>)
    requires doc.Valid()
  {
    c != [] && c[..|c| - 1] in chains && c[|c| - 1] in Candidates(doc, token, End(c[..|c| - 1]))
  }

  lemma {:induction false} ExtendedIsExact(doc: Document, token: Token, chains: seq<seq<nat>>)
    requires doc.Valid()
    ensures forall c :: c in Extended(doc, token, chains) <==> Continues(doc, token, chains, c)
    decreases |chains|
  {
    if chains != [] {
      var last, front := chains[|chains| - 1], chains[..|chains| - 1];
      ExtendedIsExact(doc, token, front);
      forall c
        ensures c in Extended(doc, token, chains) <==> Continues(doc, token, chains, c)
      {
        LastContinues(doc, token, last, c);
        assert chains == front + [last];
        assert Continues(doc, token, chains, c) <==>
          Continues(doc, token, front, c) || Continues(doc, token, [last], c);
      }
    }
  }

  lemma LastContinues(doc: Document, token: Token, last: seq<nat>, c: seq<nat>)
    requires doc.Valid()
    ensures c in Continued(last, Candidates(doc, token, End(last))) <==> Continues(doc, token, [last], c)
  {
    CandidatesAreExact(doc, token, End(last));
    ContinuedIsExact(last, Candidates(doc, token, End(last)));
  }

  lemma {:induction false} ExtendedInOrder(doc: Document, token: Token, chains: seq<seq<nat>>, length: nat)
    requires doc.Valid() && InOrder(chains, length)
    ensures InOrder(Extended(doc, token, chains), length + 1)
    decreases |chains|
  {
    if chains != [] {
      var last, others := chains[|chains| - 1], chains[..|chains| - 1];
      var front, back := Extended(doc, token, others), Continued(last, Candidates(doc, token, End(last)));
      assert last in chains;
      ExtendedInOrder(doc, token, others, length);
      CandidatesAreExact(doc, token, End(last));
      ContinuedInOrder(last, Candidates(doc, token, End(last)));
      InTurn(doc, token, others, last);
      InOrderConcat(front, back, length + 1);
    }
  }

  ghost predicate AllBefore(a: seq<seq<nat>>, b: seq<seq<nat>>) {
    forall i, j | 0 <= i < |a| && 0 <= j < |b| :: Before(a[i], b[j])
  }

  lemma InTurn(doc: Document, token: Token, others: seq<seq<nat>>, last: seq<nat>)
    requires doc.Valid() && forall k | 0 <= k < |others| :: Before(others[k], last)
    ensures AllBefore(Extended(doc, token, others), Continued(last, Candidates(doc, token, End(last))))
  {
    var front, back := Extended(doc, token, others), Continued(last, Candidates(doc, token, End(last)));
    forall i, j | 0 <= i < |front| && 0 <= j < |back|
      ensures Before(front[i], back[j])
    {
      assert front[i] in front;
      ExtendsOne(doc, token, others, front[i]);
      PrefixDecides(others, last, front[i], back[j]);
    }
  }

  lemma ExtendsOne(doc: Document, token: Token, chains: seq<seq<nat>>, c: seq<nat>)
    requires doc.Valid() && c in Extended(doc, token, chains)
    ensures c != [] && c[..|c| - 1] in chains
  {
    ExtendedIsExact(doc, token, chains);
  }

  lemma PrefixDecides(others: seq<seq<nat>>, last: seq<nat>, c: seq<nat>, d: seq<nat>)
    requires forall k | 0 <= k < |others| :: Before(others[k], last)
    requires c != [] && d != [] && c[..|c| - 1] in others && d[..|d| - 1] == last
    ensures Before(c, d)
  {
    var k :| 0 <= k < |others| && others[k] == c[..|c| - 1];
    var i :| 0 <= i < |others[k]| && i < |last| && others[k][i] < last[i] && others[k][..i] == last[..i];
    assert c[..i] == others[k][..i] && d[..i] == last[..i];
  }

  lemma InOrderConcat(a: seq<seq<nat>>, b: seq<seq<nat>>, length: nat)
    requires InOrder(a, length) && InOrder(b, length)
    requires AllBefore(a, b)
    ensures InOrder(a + b, length)
  {
    forall i, j | 0 <= i < j < |a + b|
      ensures Before((a + b)[i], (a + b)[j])
    {
      if i < |a| <= j {
        assert Before(a[i], b[j - |a|]);
      }
    }
  }

  lemma ContinuedInOrder(c: seq<nat>, nodes: seq<nat>)
    requires Ascending(nodes)
    ensures InOrder(Continued(c, nodes), |c| + 1)
  {
    var r := Continued(c, nodes);
    forall i, j | 0 <= i < j < |r|
      ensures Before(r[i], r[j])
    {
      assert r[i][..|c|] == c == r[j][..|c|];
    }
  }

  lemma OrderedOnce(chains: seq<seq<nat>>, length: nat)
    requires InOrder(chains, length)
    ensures NoDuplicates(chains)
  {
  }

  lemma ContinuedIsExact(c: seq<nat>, nodes: seq<nat>)
    ensures forall d :: d in Continued(c, nodes) <==> d != [] && d[..|d| - 1] == c && d[|d| - 1] in nodes
  {
    var r := Continued(c, nodes);
    forall d
      ensures d in r <==> d != [] && d[..|d| - 1] == c && d[|d| - 1] in nodes
    {
      if d in r {
        var i :| 0 <= i < |r| && r[i] == d;
        assert d == c + [nodes[i]];
      }
      if d != [] && d[..|d| - 1] == c && d[|d| - 1] in nodes {
        var i :| 0 <= i < |nodes| && nodes[i] == d[|d| - 1];
        assert d == c + [nodes[i]] == r[i];
      }
    }
  }

  /** The loops visit every chain that matches the tokens, each once, in order, and nothing else. */
  lemma {:induction false} ChainsAreExact(doc: Document, tokens: seq<Token>)
    requires doc.Valid()
    ensures forall c :: c in AllChains(doc, tokens) <==> IsChain(doc, tokens, c)
    ensures InOrder(AllChains(doc, tokens), |tokens|) && NoDuplicates(AllChains(doc, tokens))
    decreases tokens
  {
    if tokens != [] {
      var n := |tokens| - 1;
      ChainsAreExact(doc, tokens[..n]);
      ExtendedInOrder(doc, tokens[n], AllChains(doc, tokens[..n]), n);
      OrderedOnce(AllChains(doc, tokens), |tokens|);
      forall c
        ensures c in AllChains(doc, tokens) <==> IsChain(doc, tokens, c)
      {
        OneMoreToken(doc, tokens, c);
      }
    }
  }

  lemma OneMoreToken(doc: Document, tokens: seq<Token>, c: seq<nat>)
    requires doc.Valid() && tokens != []
    requires c != [] ==>
               var (front, d) := (tokens[..|tokens| - 1], c[..|c| - 1]);
               d in AllChains(doc, front) <==> IsChain(doc, front, d)
    ensures c in AllChains(doc, tokens) <==> IsChain(doc, tokens, c)
  {
    var n := |tokens| - 1;
    ExtendedAt(doc, tokens[n], AllChains(doc, tokens[..n]), c);
    if c != [] {
      CandidatesAreExact(doc, tokens[n], End(c[..|c| - 1]));
      ChainGrows(doc, tokens, c);
    }
  }

  lemma ExtendedAt(doc: Document, token: Token, chains: seq<seq<nat>>, c: seq<nat>)
    requires doc.Valid()
    ensures c in Extended(doc, token, chains) <==> Continues(doc, token, chains, c)
  {
    ExtendedIsExact(doc, token, chains);
  }

  lemma SameLink(doc: Document, tokens: seq<Token>, c: seq<nat>, i: nat)
    requires doc.Valid() && i + 1 < |c| == |tokens|
    ensures IsLink(doc, tokens, c, i) <==> IsLink(doc, tokens[..|tokens| - 1], c[..|c| - 1], i)
  {
  }

  lemma FrontIsChain(doc: Document, tokens: seq<Token>, c: seq<nat>)
    requires doc.Valid() && |tokens| == |c| > 0
    ensures var n := |c| - 1;
            IsChain(doc, tokens[..n], c[..n]) <==> forall i: nat | i < n :: IsLink(doc, tokens, c, i)
  {
    var n := |c| - 1;
    forall i: nat | i < n
      ensures IsLink(doc, tokens, c, i) <==> IsLink(doc, tokens[..n], c[..n], i)
    {
      SameLink(doc, tokens, c, i);
    }
  }

  lemma ChainGrows(doc: Document, tokens: seq<Token>, c: seq<nat>)
    requires doc.Valid() && tokens != [] && c != []
    ensures var (d, e, n) := (c[..|c| - 1], c[|c| - 1], |tokens| - 1);
            IsChain(doc, tokens, c) <==>
            IsChain(doc, tokens[..n], d) && IsBelow(doc, e, End(d)) && Matches(doc, tokens[n], e)
  {
    if |c| == |tokens| {
      var n := |c| - 1;
      FrontIsChain(doc, tokens, c);
      assert IsChain(doc, tokens, c) <==>
             IsLink(doc, tokens, c, n) && forall i: nat | i < n :: IsLink(doc, tokens, c, i);
      assert End(c[..n]) == if n == 0 then 0 else c[n - 1];
    }
  }

  // ---------- the result ----------

  /** The chains that end at e. */
  ghost function ChainsTo(doc: Document, tokens: seq<Token>, e: nat): (s: set<seq<nat>>)
    requires doc.Valid()
    ensures forall c :: c in s <==> IsChain(doc, tokens, c) && End(c) == e
  {
    ChainsAreExact(doc, tokens);
    Ending(AllChains(doc, tokens), e)
  }

  /** Multiplicity: an element occurs in the result as often as there are chains that end at it. */
  lemma Multiplicity(doc: Document, tokens: seq<Token>, e: nat)
    requires doc.Valid()
    ensures multiset(Ends(AllChains(doc, tokens)))[e] == |ChainsTo(doc, tokens, e)|
  {
    ChainsAreExact(doc, tokens);
    CountEnds(AllChains(doc, tokens), e);
  }

  /** A `p` inside n `div` elements, one inside the other. */
  function Nested(n: nat): (doc: Document)
    ensures doc.Valid()
  {
    Document(
      seq(n + 2, i => if i == 0 then 0 else i - 1),
      seq(n + 2, i => if i == 0 then "#document" else if i <= n then "div" else "p"),
      seq(n + 2, i => ""))
  }

  /** There `div p` returns the same element n times. */
  lemma NestedIsRepeated(n: nat)
    ensures multiset(Ends(AllChains(Nested(n), [TagToken("div"), TagToken("p")])))[n + 1] == n
  {
    var doc, tokens := Nested(n), [TagToken("div"), TagToken("p")];
    Multiplicity(doc, tokens, n + 1);
    var (chains, pairs) := (ChainsTo(doc, tokens, n + 1), OneForEachDiv(n, n + 1));
    forall c | c in chains ensures c in pairs {
      NestedChain(n, c);
    }
    forall c | c in pairs ensures c in chains {
      NestedChain(n, c);
    }
    assert chains == pairs;
  }

  ghost function OneForEachDiv(k: nat, e: nat): (chains: set<seq<nat>>)
    ensures |chains| == k && forall c :: c in chains <==> |c| == 2 && 1 <= c[0] <= k && c[1] == e
  {
    if k == 0 then {}
    else
      assert forall c: seq<nat> | |c| == 2 && c[0] == k && c[1] == e :: c == [k, e];
      OneForEachDiv(k - 1, e) + {[k, e]}
  }

  lemma NestedChain(n: nat, c: seq<nat>)
    ensures var doc, tokens := Nested(n), [TagToken("div"), TagToken("p")];
            IsChain(doc, tokens, c) && End(c) == n + 1 <==> |c| == 2 && 1 <= c[0] <= n && c[1] == n + 1
  {
    var doc, tokens := Nested(n), [TagToken("div"), TagToken("p")];
    if |c| == 2 {
      NestedIsBelow(n, c[0], 0);
      NestedIsBelow(n, c[1], c[0]);
      assert IsChain(doc, tokens, c) <==> IsLink(doc, tokens, c, 0) && IsLink(doc, tokens, c, 1);
    }
  }

  lemma {:induction false} NestedIsBelow(n: nat, e: nat, a: nat)
    ensures IsBelow(Nested(n), e, a) <==> a < e < n + 2
    decreases e
  {
    if 0 < e < n + 2 && e - 1 != a {
      NestedIsBelow(n, e - 1, a);
    }
  }

  ghost function Ending(chains: seq<seq<nat>>, e: nat): set<seq<nat>> {
    set c | c in chains && End(c) == e
  }

  lemma {:induction false} CountEnds(chains: seq<seq<nat>>, e: nat)
    requires NoDuplicates(chains)
    ensures multiset(Ends(chains))[e] == |Ending(chains, e)|
    decreases |chains|
  {
    if chains == [] {
      assert Ending(chains, e) == {};
    } else {
      var n := |chains| - 1;
      var front, last := chains[..n], chains[n];
      CountEnds(front, e);
      assert chains == front + [last];
      EndsConcat(front, [last]);
      EndingGrows(front, last, e);
    }
  }

  lemma EndingGrows(front: seq<seq<nat>>, last: seq<nat>, e: nat)
    requires last !in front
    ensures |Ending(front + [last], e)| == |Ending(front, e)| + if End(last) == e then 1 else 0
  {
    assert Ending(front + [last], e) == if End(last) == e then Ending(front, e) + {last} else Ending(front, e);
  }

  lemma EndsConcat(a: seq<seq<nat>>, b: seq<seq<nat>>)
    ensures Ends(a + b) == Ends(a) + Ends(b)
  {
  }

  /** Sound and complete: the result holds exactly the elements that the descendant combinator selects. */
  lemma ResultIsSelection(doc: Document, tokens: seq<Token>, e: nat)
    requires doc.Valid()
    ensures e in Ends(AllChains(doc, tokens)) <==> Selected(doc, tokens, e)
  {
    ChainsAreExact(doc, tokens);
    var chains := AllChains(doc, tokens);
    SelectedByChain(doc, tokens, e);
    if e in Ends(chains) {
      var i :| 0 <= i < |chains| && Ends(chains)[i] == e;
      assert chains[i] in chains;
    }
    if c :| IsChain(doc, tokens, c) && End(c) == e {
      var i :| 0 <= i < |chains| && chains[i] == c;
      assert Ends(chains)[i] == e;
    }
  }

  ghost predicate HasChain(doc: Document, tokens: seq<Token>, e: nat)
    requires doc.Valid()
  {
    exists c :: IsChain(doc, tokens, c) && End(c) == e
  }

  lemma {:induction false} SelectedByChain(doc: Document, tokens: seq<Token>, e: nat)
    requires doc.Valid()
    ensures Selected(doc, tokens, e) <==> HasChain(doc, tokens, e)
    decreases tokens
  {
    if tokens == [] {
      assert IsChain(doc, tokens, []);
    } else {
      var front := tokens[..|tokens| - 1];
      if Selected(doc, tokens, e) {
        var a: nat :| IsBelow(doc, e, a) && Selected(doc, front, a);
        SelectedByChain(doc, front, a);
        ChainForward(doc, tokens, e, a);
      }
      if HasChain(doc, tokens, e) {
        var a := ChainBackward(doc, tokens, e);
        SelectedByChain(doc, front, a);
      }
    }
  }

  lemma ChainForward(doc: Document, tokens: seq<Token>, e: nat, a: nat)
    requires doc.Valid() && tokens != []
    requires IsBelow(doc, e, a) && Matches(doc, tokens[|tokens| - 1], e) && HasChain(doc, tokens[..|tokens| - 1], a)
    ensures HasChain(doc, tokens, e)
  {
    var d :| IsChain(doc, tokens[..|tokens| - 1], d) && End(d) == a;
    var c := d + [e];
    assert c[..|c| - 1] == d;
    ChainGrows(doc, tokens, c);
    assert End(c) == e;
  }

  lemma ChainBackward(doc: Document, tokens: seq<Token>, e: nat) returns (a: nat)
    requires doc.Valid() && tokens != [] && HasChain(doc, tokens, e)
    ensures IsBelow(doc, e, a) && Matches(doc, tokens[|tokens| - 1], e)
    ensures HasChain(doc, tokens[..|tokens| - 1], a)
  {
    var c :| IsChain(doc, tokens, c) && End(c) == e;
    ChainGrows(doc, tokens, c);
    a := End(c[..|c| - 1]);
  }

  // ---------- the engine ----------

  method Descendants(doc: Document, context: seq<nat>, tag: string) returns (found: seq<nat>)
    requires doc.Valid()
    ensures found == Gathered(doc, context, tag)
  {
    found := [];
    for h := 0 to |context|
      invariant found == Gathered(doc, context[..h], tag)
    {
      var elements := GetElementsByTagName(doc, context[h], tag);
      ghost var before := found;
      for j := 0 to |elements|
        invariant found == before + elements[..j]
      {
        found := found + [elements[j]];
      }
      assert elements[..|elements|] == elements && context[..h + 1][..h] == context[..h];
    }
    assert context[..|context|] == context;
  }

  /** The descendants of every context in turn. */
  function Gathered(doc: Document, context: seq<nat>, tag: string): seq<nat>
    requires doc.Valid()
  {
    if context == [] then []
    else
      var n := |context| - 1;
      Gathered(doc, context[..n], tag) + GetElementsByTagName(doc, context[n], tag)
  }

  method FilterByClass(doc: Document, found: seq<nat>, token: Token) returns (context: seq<nat>)
    requires token.ClassToken?
    ensures context == Kept(doc, token, found)
    ensures forall e :: e in context <==>
                        e in found && e < |doc.className| && ClassMatches(doc.className[e], token.word)
  {
    context := [];
    for k := 0 to |found|
      invariant context == Kept(doc, token, found[..k])
    {
      assert found[..k + 1][..k] == found[..k];
      if HasClass(doc, token.word, found[k]) {
        context := context + [found[k]];
      }
    }
    assert found[..|found|] == found;
    KeptIsExact(doc, token, found);
  }

  /** One token: every chain is continued by every candidate. */
  method Step(doc: Document, token: Token, context: seq<nat>, ghost chains: seq<seq<nat>>) returns (next: seq<nat>)
    requires doc.Valid() && context == Ends(chains)
    ensures next == Ends(Extended(doc, token, chains))
  {
    var found := Descendants(doc, context, TagOf(token));
    GatheredIsExtended(doc, token, chains);
    if token.ClassToken? {
      next := FilterByClass(doc, found, token);
    } else {
      next := found;
      AllKept(doc, token, found);
    }
  }

  ghost predicate SelectsNothing(doc: Document, tokens: seq<Token>)
    requires doc.Valid()
  {
    forall e: nat :: !Selected(doc, tokens, e)
  }

  /** A tag token finds nothing left to search in: the tokens before it select nothing. */
  ghost predicate Stuck(doc: Document, tokens: seq<Token>, i: nat)
    requires doc.Valid() && i < |tokens|
  {
    tokens[i].TagToken? && SelectsNothing(doc, tokens[..i])
  }

  /** One of the first n tokens is stuck. */
  ghost predicate StuckWithin(doc: Document, tokens: seq<Token>, n: nat)
    requires doc.Valid() && n <= |tokens|
  {
    n > 0 && (StuckWithin(doc, tokens, n - 1) || Stuck(doc, tokens, n - 1))
  }

  lemma {:induction false} StuckStays(doc: Document, tokens: seq<Token>, n: nat)
    requires doc.Valid() && n <= |tokens| && StuckWithin(doc, tokens, n)
    ensures StuckWithin(doc, tokens, |tokens|)
    decreases |tokens| - n
  {
    if n < |tokens| {
      StuckStays(doc, tokens, n + 1);
    }
  }

  lemma EmptyMeansNothing(doc: Document, tokens: seq<Token>)
    requires doc.Valid()
    ensures Ends(AllChains(doc, tokens)) == [] <==> SelectsNothing(doc, tokens)
  {
    var ends := Ends(AllChains(doc, tokens));
    forall e: nat ensures e in ends <==> Selected(doc, tokens, e) {
      ResultIsSelection(doc, tokens, e);
    }
    assert ends != [] ==> ends[0] in ends;
  }

  /** None is the bare `return`.  Otherwise the result lists the end of every matching chain. */
  method GetElementsBySelector(doc: Document, tokens: seq<Token>) returns (r: Option<seq<nat>>)
    requires doc.Valid()
    ensures r == None <==> StuckWithin(doc, tokens, |tokens|)
    ensures r.Some? ==> r.value == Ends(AllChains(doc, tokens))
  {
    var currentContext := [0];
    ghost var chains := [[]];
    for i := 0 to |tokens|
      invariant chains == AllChains(doc, tokens[..i]) && currentContext == Ends(chains)
      invariant !StuckWithin(doc, tokens, i)
    {
      AllChainsStep(doc, tokens, i);
      EmptyMeansNothing(doc, tokens[..i]);
      if tokens[i].TagToken? && |currentContext| == 0 {
        StuckStays(doc, tokens, i + 1);
        return None;
      }
      currentContext := Step(doc, tokens[i], currentContext, chains);
      chains := Extended(doc, tokens[i], chains);
    }
    assert tokens[..|tokens|] == tokens;
    r := Some(currentContext);
  }

  lemma AllChainsStep(doc: Document, tokens: seq<Token>, i: nat)
    requires doc.Valid() && i < |tokens|
    ensures AllChains(doc, tokens[..i + 1]) == Extended(doc, tokens[i], AllChains(doc, tokens[..i]))
  {
    assert tokens[..i + 1][..i] == tokens[..i];
  }

  lemma {:induction false} AllKept(doc: Document, token: Token, found: seq<nat>)
    requires token.TagToken?
    ensures Kept(doc, token, found) == found
    decreases |found|
  {
    if found != [] {
      AllKept(doc, token, found[..|found| - 1]);
    }
  }

  /** One round of the loops continues every chain. */
  lemma {:induction false} GatheredIsExtended(doc: Document, token: Token, chains: seq<seq<nat>>)
    requires doc.Valid()
    ensures Kept(doc, token, Gathered(doc, Ends(chains), TagOf(token))) == Ends(Extended(doc, token, chains))
    decreases |chains|
  {
    if chains != [] {
      var n := |chains| - 1;
      var front, last := chains[..n], chains[n];
      GatheredIsExtended(doc, token, front);
      GatheredLast(doc, chains, TagOf(token));
      KeptConcat(doc, token, Gathered(doc, Ends(front), TagOf(token)),
                 GetElementsByTagName(doc, End(last), TagOf(token)));
      var nodes := Candidates(doc, token, End(last));
      EndsContinued(last, nodes);
      EndsConcat(Extended(doc, token, front), Continued(last, nodes));
    }
  }

  lemma GatheredLast(doc: Document, chains: seq<seq<nat>>, tag: string)
    requires doc.Valid() && chains != []
    ensures var n := |chains| - 1;
            Gathered(doc, Ends(chains), tag)
            == Gathered(doc, Ends(chains[..n]), tag) + GetElementsByTagName(doc, End(chains[n]), tag)
  {
    assert Ends(chains)[..|chains| - 1] == Ends(chains[..|chains| - 1]);
  }

  lemma EndsContinued(c: seq<nat>, nodes: seq<nat>)
    ensures Ends(Continued(c, nodes)) == nodes
  {
  }

  lemma {:induction false} KeptConcat(doc: Document, token: Token, a: seq<nat>, b: seq<nat>)
    ensures Kept(doc, token, a + b) == Kept(doc, token, a) + Kept(doc, token, b)
    decreases |b|
  {
    if b == [] {
      assert a + b == a;
    } else {
      var n := |b| - 1;
      KeptConcat(doc, token, a, b[..n]);
      assert (a + b)[..|a + b| - 1] == a + b[..n];
    }
  }
}
