/**
 * Worked examples of the mention utility, each built from the general
 * lemmas about the scan, the resolution and the rendering. The concrete
 * strings are passed as parameters fixed by a precondition, so that the
 * verifier reasons about them through those lemmas rather than by
 * evaluating the scanner on a literal.
 */
module MentionExamples {
  import opened Wrappers
  import opened MentionScan
  import opened Mentions

  /** The names of two piece lists put together. */
  lemma {:induction false} NamesAppend(ps: seq<Piece>, qs: seq<Piece>)
    ensures Names(ps + qs) == Names(ps) + Names(qs)
    decreases |ps|
  {
    if ps == [] {
      assert ps + qs == qs;
    } else {
      assert (ps + qs)[1..] == ps[1..] + qs;
      NamesAppend(ps[1..], qs);
    }
  }

  /** Literal characters capture no name. */
  lemma {:induction false} NamesOfLits(t: string)
    ensures Names(Lits(t)) == []
    decreases |t|
  {
    if t != [] {
      assert Lits(t)[1..] == Lits(t[1..]);
      NamesOfLits(t[1..]);
    }
  }

  /** Skip i literal characters, then a match whose name ends at k. */
  lemma MatchesAtFirstMatch(s: string, i: nat, k: nat)
    requires i < k <= |s|
    requires forall j :: 0 <= j < i ==> !MatchAt(s, j)
    requires MatchAt(s, i)
    requires forall m :: i + 1 <= m < k ==> IsHandleChar(s[m])
    requires k == |s| || !IsHandleChar(s[k])
    ensures Matches(s) == [s[i + 1..k]] + Matches(s[k..])
  {
    LiteralPrefix(s, i);
    TokenizeAtMatch(s, i);
    RunEndIs(s, i + 1, k);
    NamesAppend(Lits(s[..i]), Tokenize(s[i..]));
    NamesOfLits(s[..i]);
    assert Names([Mention(s[i + 1..k])] + Tokenize(s[k..])) == [s[i + 1..k]] + Names(Tokenize(s[k..]));
  }

  /** Text without `@`, so it holds no match. */
  predicate Plain(p: string) {
    '@' !in p
  }

  /** The pattern cannot match inside a plain prefix. */
  lemma PlainPrefix(p: string, rest: string)
    requires Plain(p)
    ensures forall j :: 0 <= j < |p| ==> !MatchAt(p + rest, j)
  {
    forall j | 0 <= j < |p| ensures !MatchAt(p + rest, j) {
      assert (p + rest)[j] == p[j];
    }
  }

  /** Text, a mention, and what follows it (which must not continue the handle). */
  lemma MatchesAfterPlain(p: string, a: string, rest: string)
    requires Plain(p) && IsHandle(a)
    requires rest == [] || !IsHandleChar(rest[0])
    ensures Matches(p + "@" + a + rest) == [a] + Matches(rest)
  {
    var s := p + "@" + a + rest;
    var i := |p|;
    var k := i + 1 + |a|;
    PlainPrefix(p, "@" + a + rest);
    assert s == p + ("@" + a + rest);
    assert s[i] == '@';
    forall m | i + 1 <= m < k ensures IsHandleChar(s[m]) {
      assert s[m] == a[m - i - 1];
    }
    if k < |s| { assert s[k] == rest[0]; }
    MatchesAtFirstMatch(s, i, k);
    assert s[i + 1..k] == a;
    assert s[k..] == rest;
  }

  /** `hello @alice and @bob-2` yields `alice`, then `bob-2` (the hyphen belongs to the handle). */
  lemma ExtractTwoHandles(p: string, a: string, q: string, b: string)
    requires p == "hello " && a == "alice" && q == " and " && b == "bob-2"
    ensures Matches(p + "@" + a + q + "@" + b) == [a, b]
    ensures UniqueHandles(p + "@" + a + q + "@" + b) == [a, b]
  {
    var rest := q + "@" + b;
    assert p + "@" + a + q + "@" + b == p + "@" + a + rest;
    MatchesAfterPlain(p, a, rest);
    assert q + "@" + b + [] == rest;
    MatchesAfterPlain(q, b, []);
    assert Matches([]) == [];
    assert Dedupe([a]) == [a];
    assert [a, b][..1] == [a];
  }

  /** `@a @a @b` scans three names and keeps `a` once, before `b`. */
  lemma ExtractDropsRepeats(a: string, b: string)
    requires a == "a" && b == "b"
    ensures Matches("@" + a + " @" + a + " @" + b) == [a, a, b]
    ensures UniqueHandles("@" + a + " @" + a + " @" + b) == [a, b]
  {
    assert "@" + a + " @" + a + " @" + b == [] + "@" + a + (" " + "@" + a + (" " + "@" + b));
    MatchesAfterPlain([], a, " " + "@" + a + (" " + "@" + b));
    MatchesAfterPlain(" ", a, " " + "@" + b);
    assert " " + "@" + b == " " + "@" + b + [];
    MatchesAfterPlain(" ", b, []);
    assert Matches([]) == [];
    var xs := [a, a, b];
    assert xs[..2][..1] == [a];
    assert Dedupe(xs[..2][..1]) == [a];
    assert Dedupe(xs[..2]) == [a];
  }

  /** Text without a mention yields no handle, so no lookup is made. */
  lemma ExtractFromPlainText(s: string)
    requires s == "no mentions here"
    ensures UniqueHandles(s) == []
  {
    NoAtNoMatches(s);
  }

  /** A user hit, a brand hit and a handle found nowhere: the user first, then the brand, and nothing for the third. */
  lemma ResolveExample(alice: string, acme: string, unknown: string)
    requires alice == "alice" && acme == "acme" && unknown == "ghost"
    ensures Resolve([alice, acme, unknown], Some([Row("u1", alice)]), Some([Row("b1", acme)]))
              == [ParsedMention(alice, User, "u1"), ParsedMention(acme, Brand, "b1")]
  {
    assert Select([Row("u1", alice)], [alice, acme, unknown]) == [Row("u1", alice)];
    assert Select([Row("b1", acme)], [alice, acme, unknown]) == [Row("b1", acme)];
  }

  /** Plain text followed by one mention renders as the text and the mention's anchor. */
  lemma RenderAfterPlain(p: string, a: string, mentions: Option<seq<ParsedMention>>)
    requires Plain(p) && IsHandle(a)
    ensures Render(p + "@" + a, mentions) == p + Anchor(Href(a, mentions), a)
  {
    var s := p + "@" + a;
    var i := |p|;
    var k := |s|;
    PlainPrefix(p, "@" + a);
    assert s == p + ("@" + a);
    assert MatchAt(s, i);
    forall m | i + 1 <= m < k ensures IsHandleChar(s[m]) {
      assert s[m] == a[m - i - 1];
    }
    RunEndIs(s, i + 1, k);
    RenderFirstMatch(s, i, mentions);
    assert s[..i] == p && s[i + 1..k] == a && s[k..] == [];
  }

  /** A resolved brand links to its root page. */
  lemma RenderBrandLink(acme: string)
    requires acme == "acme"
    ensures Render("hi " + "@" + acme, Some([ParsedMention(acme, Brand, "b1")])) == "hi " + Anchor("/" + acme, acme)
  {
    RenderAfterPlain("hi ", acme, Some([ParsedMention(acme, Brand, "b1")]));
    assert FirstWith([ParsedMention(acme, Brand, "b1")], acme, 0);
  }

  /** Without resolved mentions every name links to a user profile, whether or not that user exists. */
  lemma RenderDefaultLink(g: string)
    requires g == "ghost"
    ensures Render("hi " + "@" + g, None) == "hi " + Anchor("/u/" + g, g)
  {
    RenderAfterPlain("hi ", g, None);
  }

  /** A handle that is both a username and a slug resolves twice; the user entry, being first, decides the link. */
  lemma HandleInBothNamespaces(h: string)
    requires h == "sam"
    ensures Resolve([h], Some([Row("u2", h)]), Some([Row("b2", h)])) == [ParsedMention(h, User, "u2"), ParsedMention(h, Brand, "b2")]
    ensures Href(h, Some(Resolve([h], Some([Row("u2", h)]), Some([Row("b2", h)])))) == "/u/" + h
  {
    assert Select([Row("u2", h)], [h]) == [Row("u2", h)];
    assert Select([Row("b2", h)], [h]) == [Row("b2", h)];
    ResolvedUserLinksToProfile([h], Some([Row("u2", h)]), Some([Row("b2", h)]), h, "u2");
  }
}
