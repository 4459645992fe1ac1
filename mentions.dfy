/**
 * The @mention utility of src/lib/utils/mentions.ts: extract the handles
 * mentioned in a text, resolve them against the user and brand tables,
 * render the text with links, and build the association rows for a comment.
 *
 * The two table lookups are modelled as in-memory tables; a table given as
 * None stands for a query whose `data` came back null.
 */
module Mentions {
  import opened Wrappers
  import opened MentionScan

  /** The namespace a handle resolved in (`type: 'user' | 'brand'`). */
  datatype MentionType = User | Brand

  /** `ParsedMention`: the handle as stored in its table, its namespace and the row id. */
  datatype ParsedMention = ParsedMention(username: string, kind: MentionType, id: string)

  // ---------------------------------------------------------------------------
  // Deduplication: `[...new Set(names)]`
  // ---------------------------------------------------------------------------

  predicate NoDuplicates(xs: seq<string>) {
    forall i, j :: 0 <= i < j < |xs| ==> xs[i] != xs[j]
  }

  /** The position of the first occurrence of x in xs. */
  function FirstIndex(xs: seq<string>, x: string): (r: nat)
    requires x in xs
    ensures r < |xs| && xs[r] == x
    ensures forall j :: 0 <= j < r ==> xs[j] != x
  {
    if xs[0] == x then 0 else 1 + FirstIndex(xs[1..], x)
  }

  /** The names in the order a `Set` built from them would list them: each once, as first seen. */
  function Dedupe(xs: seq<string>): (r: seq<string>)
    ensures NoDuplicates(r)
    ensures forall x :: x in r <==> x in xs
    decreases |xs|
  {
    if xs == [] then []
    else
      var front := Dedupe(xs[..|xs| - 1]);
      var last := xs[|xs| - 1];
      assert xs == xs[..|xs| - 1] + [last];
      if last in front then front else front + [last]
  }

  /** The first occurrence of x in a prefix of xs is its first occurrence in xs. */
  lemma FirstIndexInPrefix(xs: seq<string>, m: nat, x: string)
    requires m <= |xs| && x in xs[..m]
    ensures FirstIndex(xs, x) == FirstIndex(xs[..m], x)
  {
    var a := FirstIndex(xs[..m], x);
    assert xs[a] == x;
    assert forall j :: 0 <= j < a ==> xs[j] == xs[..m][j];
  }

  /** Dedupe keeps first-occurrence order: earlier in the result means first seen earlier in the input. */
  lemma {:induction false} DedupeKeepsFirstSeenOrder(xs: seq<string>)
    ensures forall i, j :: 0 <= i < j < |Dedupe(xs)| ==>
              FirstIndex(xs, Dedupe(xs)[i]) < FirstIndex(xs, Dedupe(xs)[j])
    decreases |xs|
  {
    if xs != [] {
      var n := |xs| - 1;
      var front := Dedupe(xs[..n]);
      var last := xs[n];
      assert xs[..n] == xs[..n][..n];
      DedupeKeepsFirstSeenOrder(xs[..n]);
      forall x | x in front ensures FirstIndex(xs, x) == FirstIndex(xs[..n], x) {
        FirstIndexInPrefix(xs, n, x);
      }
      var r := Dedupe(xs);
      if last in front {
        assert r == front;
      } else {
        assert r == front + [last];
        assert last !in xs[..n];
        assert FirstIndex(xs, last) == n by {
          assert forall j :: 0 <= j < n ==> xs[j] == xs[..n][j];
        }
        forall i, j | 0 <= i < j < |r|
          ensures FirstIndex(xs, r[i]) < FirstIndex(xs, r[j])
        {
          if j < |front| {
            assert r[i] == front[i] && r[j] == front[j];
          } else {
            assert r[i] == front[i] && r[j] == last;
            assert FirstIndex(xs[..n], front[i]) < n;
          }
        }
      }
    }
  }

  /** `uniqueUsernames`: the mentioned names of text, each once, in first-seen order. */
  function UniqueHandles(text: string): seq<string> {
    Dedupe(Matches(text))
  }

  /** What extraction promises about the handles it hands to the lookups. */
  lemma UniqueHandlesSpec(text: string)
    ensures NoDuplicates(UniqueHandles(text))
    ensures forall t :: t in UniqueHandles(text) <==> t in Matches(text)
    ensures forall t :: t in UniqueHandles(text) ==> IsHandle(t) && exists i: nat :: CapturedAt(text, i, t)
  {
    MatchesAreHandles(text);
    forall t | t in UniqueHandles(text) ensures exists i: nat :: CapturedAt(text, i, t) {
      MatchesOccur(text, t);
    }
  }

  // ---------------------------------------------------------------------------
  // Resolution against the two tables
  // ---------------------------------------------------------------------------

  /** A row of `profiles` (`id, username`) or of `brand_profiles` (`id, slug`). */
  datatype Row = Row(id: string, handle: string)

  datatype TableName = Profiles | BrandProfiles

  /** One batched query `from(table).select(...).in(column, keys)`. */
  datatype Lookup = Lookup(table: TableName, column: string, keys: seq<string>)

  /** The rows a `.in(column, keys)` filter returns (in table order). */
  function Select(rows: seq<Row>, keys: seq<string>): (r: seq<Row>)
    ensures forall row :: row in r <==> row in rows && row.handle in keys
    ensures |r| <= |rows|
  {
    if rows == [] then []
    else
      assert rows == [rows[0]] + rows[1..];
      (if rows[0].handle in keys then [rows[0]] else []) + Select(rows[1..], keys)
  }

  /** The filter keeps every matching row as often as the table holds it, and no other row. */
  lemma {:induction false} SelectCounts(rows: seq<Row>, keys: seq<string>)
    ensures forall row :: multiset(Select(rows, keys))[row] == if row.handle in keys then multiset(rows)[row] else 0
    decreases |rows|
  {
    if rows != [] {
      SelectCounts(rows[1..], keys);
      assert rows == [rows[0]] + rows[1..];
      var head := if rows[0].handle in keys then [rows[0]] else [];
      assert Select(rows, keys) == head + Select(rows[1..], keys);
    }
  }

  /** The rows a lookup contributes: none when the query returned no data. */
  function Hits(table: Option<seq<Row>>, keys: seq<string>): seq<Row> {
    if table.Some? then Select(table.value, keys) else []
  }

  /** Rows turned into mentions of one namespace (`users.map(...)`, `brands.map(...)`). */
  function Tag(rows: seq<Row>, kind: MentionType): seq<ParsedMention> {
    seq(|rows|, i requires 0 <= i < |rows| => ParsedMention(rows[i].handle, kind, rows[i].id))
  }

  /** The mentions resolved from keys: all user hits, then all brand hits. */
  function Resolve(keys: seq<string>, profiles: Option<seq<Row>>, brandProfiles: Option<seq<Row>>): seq<ParsedMention> {
    Tag(Hits(profiles, keys), User) + Tag(Hits(brandProfiles, keys), Brand)
  }

  /** The lookups parseMentions issues for keys: none when there is nothing to look up, otherwise two batched ones. */
  function LookupsFor(keys: seq<string>): seq<Lookup> {
    if keys == [] then []
    else [Lookup(Profiles, "username", keys), Lookup(BrandProfiles, "slug", keys)]
  }

  /** `mentions.push(...rows.map(...))`: append the rows of one namespace, one by one, in order. */
  method PushAll(mentions: seq<ParsedMention>, rows: seq<Row>, kind: MentionType) returns (pushed: seq<ParsedMention>)
    ensures pushed == mentions + Tag(rows, kind)
  {
    pushed := mentions;
    var i := 0;
    while i < |rows|
      invariant 0 <= i <= |rows|
      invariant pushed == mentions + Tag(rows[..i], kind)
    {
      assert Tag(rows[..i + 1], kind) == Tag(rows[..i], kind) + [ParsedMention(rows[i].handle, kind, rows[i].id)];
      pushed := pushed + [ParsedMention(rows[i].handle, kind, rows[i].id)];
      i := i + 1;
    }
    assert rows[..i] == rows;
  }

  /**
   * `parseMentions`: extract, deduplicate, and (unless there is nothing to
   * look up) query the user table and then the brand table, pushing the
   * hits of each onto the result. The lookups issued are returned beside it.
   */
  method ParseMentions(text: string, profiles: Option<seq<Row>>, brandProfiles: Option<seq<Row>>)
    returns (mentions: seq<ParsedMention>, lookups: seq<Lookup>)
    ensures mentions == Resolve(UniqueHandles(text), profiles, brandProfiles)
    ensures lookups == LookupsFor(UniqueHandles(text))
  {
    var uniqueUsernames := Dedupe(Matches(text));
    if |uniqueUsernames| == 0 {
      ResolveWithoutHandles(uniqueUsernames, profiles, brandProfiles);
      return [], [];
    }

    mentions := [];

    lookups := [Lookup(Profiles, "username", uniqueUsernames)];
    var users := if profiles.Some? then Some(Select(profiles.value, uniqueUsernames)) else None;
    if users.Some? {
      mentions := PushAll(mentions, users.value, User);
    }
    assert mentions == Tag(Hits(profiles, uniqueUsernames), User);

    lookups := lookups + [Lookup(BrandProfiles, "slug", uniqueUsernames)];
    var brands := if brandProfiles.Some? then Some(Select(brandProfiles.value, uniqueUsernames)) else None;
    if brands.Some? {
      mentions := PushAll(mentions, brands.value, Brand);
    }
  }

  /** A filter by an empty key list keeps no row. */
  lemma {:induction false} SelectWithoutKeys(rows: seq<Row>, keys: seq<string>)
    requires keys == []
    ensures Select(rows, keys) == []
  {
    if rows != [] {
      SelectWithoutKeys(rows[1..], keys);
    }
  }

  /** With nothing to look up the result is empty, so the early return changes only the lookups. */
  lemma ResolveWithoutHandles(keys: seq<string>, profiles: Option<seq<Row>>, brandProfiles: Option<seq<Row>>)
    requires keys == []
    ensures Resolve(keys, profiles, brandProfiles) == []
  {
    if profiles.Some? { SelectWithoutKeys(profiles.value, keys); }
    if brandProfiles.Some? { SelectWithoutKeys(brandProfiles.value, keys); }
  }

  /**
   * A mention is resolved exactly when its row is in the user table (tagged
   * user) or in the brand table (tagged brand) and its handle was mentioned;
   * handles found in neither table produce nothing.
   */
  lemma ResolveMembership(keys: seq<string>, profiles: Option<seq<Row>>, brandProfiles: Option<seq<Row>>, m: ParsedMention)
    ensures m in Resolve(keys, profiles, brandProfiles) <==>
              || (m.kind == User && profiles.Some? && Row(m.id, m.username) in profiles.value && m.username in keys)
              || (m.kind == Brand && brandProfiles.Some? && Row(m.id, m.username) in brandProfiles.value && m.username in keys)
  {
    var u := Hits(profiles, keys);
    var b := Hits(brandProfiles, keys);
    var r := Resolve(keys, profiles, brandProfiles);
    if m in r {
      var i :| 0 <= i < |r| && r[i] == m;
      if i < |u| {
        assert u[i] in u;
      } else {
        assert b[i - |u|] in b;
      }
    }
    if m.kind == User && profiles.Some? && Row(m.id, m.username) in profiles.value && m.username in keys {
      var i :| 0 <= i < |u| && u[i] == Row(m.id, m.username);
      assert r[i] == m;
    }
    if m.kind == Brand && brandProfiles.Some? && Row(m.id, m.username) in brandProfiles.value && m.username in keys {
      var i :| 0 <= i < |b| && b[i] == Row(m.id, m.username);
      assert r[|u| + i] == m;
    }
  }

  /** All user hits come first, then all brand hits, one mention per row found. */
  lemma ResolveUsersThenBrands(keys: seq<string>, profiles: Option<seq<Row>>, brandProfiles: Option<seq<Row>>)
    ensures var r := Resolve(keys, profiles, brandProfiles);
            var nu := |Hits(profiles, keys)|;
            && |r| == nu + |Hits(brandProfiles, keys)|
            && (forall i :: 0 <= i < nu ==> r[i].kind == User)
            && (forall i :: nu <= i < |r| ==> r[i].kind == Brand)
  {
  }

  // ---------------------------------------------------------------------------
  // Rendering: `text.replace(mentionRegex, (match, username) => ...)`
  // ---------------------------------------------------------------------------

  const AnchorClass := "text-primary hover:underline font-semibold"

  /** The markup that replaces one `@name`. */
  function Anchor(href: string, name: string): string {
    "<a href=\"" + href + "\" class=\"" + AnchorClass + "\">@" + name + "</a>"
  }

  /** i is the first entry of ms for name. */
  predicate FirstWith(ms: seq<ParsedMention>, name: string, i: int) {
    0 <= i < |ms| && ms[i].username == name && forall j :: 0 <= j < i ==> ms[j].username != name
  }

  /** `mentions.find((m) => m.username === username)` */
  function Find(ms: seq<ParsedMention>, name: string): (r: Option<ParsedMention>)
    ensures r.None? <==> forall i :: 0 <= i < |ms| ==> ms[i].username != name
    ensures r.Some? ==> exists i :: FirstWith(ms, name, i) && ms[i] == r.value
  {
    if ms == [] then None
    else if ms[0].username == name then
      assert FirstWith(ms, name, 0);
      Some(ms[0])
    else
      var r := Find(ms[1..], name);
      assert r.None? ==> forall i :: 1 <= i < |ms| ==> ms[i] == ms[1..][i - 1];
      assert r.Some? ==> exists i :: FirstWith(ms, name, i) && ms[i] == r.value by {
        if r.Some? {
          var i :| FirstWith(ms[1..], name, i) && ms[1..][i] == r.value;
          assert FirstWith(ms, name, i + 1);
        }
      }
      r
  }

  /** The first entry for name, if there is one, is a brand. */
  ghost predicate FirstIsBrand(ms: seq<ParsedMention>, name: string) {
    exists i :: FirstWith(ms, name, i) && ms[i].kind == Brand
  }

  /** Two first entries for the same name are the same entry. */
  lemma FirstWithUnique(ms: seq<ParsedMention>, name: string, i: int, j: int)
    requires FirstWith(ms, name, i) && FirstWith(ms, name, j)
    ensures i == j
  {
  }

  /**
   * The link target for name: the brand root `/<name>` when the first
   * resolved entry for name is a brand, the user profile `/u/<name>` in
   * every other case (no mention list, no entry, or a user entry).
   */
  function Href(name: string, mentions: Option<seq<ParsedMention>>): (href: string)
    ensures href == if mentions.Some? && FirstIsBrand(mentions.value, name) then "/" + name else "/u/" + name
  {
    if mentions.Some? then
      match Find(mentions.value, name)
      case Some(m) =>
        assert FirstIsBrand(mentions.value, name) <==> m.kind == Brand by {
          var i :| FirstWith(mentions.value, name, i) && mentions.value[i] == m;
          forall j | FirstWith(mentions.value, name, j) ensures j == i {
            FirstWithUnique(mentions.value, name, i, j);
          }
        }
        if m.kind == Brand then "/" + name else "/u/" + name
      case None =>
        "/u/" + name
    else
      "/u/" + name
  }

  function RenderPiece(p: Piece, mentions: Option<seq<ParsedMention>>): string {
    match p
    case Lit(c) => [c]
    case Mention(name) => Anchor(Href(name, mentions), name)
  }

  function RenderPieces(ps: seq<Piece>, mentions: Option<seq<ParsedMention>>): string {
    if ps == [] then [] else RenderPiece(ps[0], mentions) + RenderPieces(ps[1..], mentions)
  }

  /** `renderMentions(text, mentions)`: every match replaced by its anchor, in one pass. */
  function Render(text: string, mentions: Option<seq<ParsedMention>>): string {
    RenderPieces(Tokenize(text), mentions)
  }

  /** The literal pieces spelling t. */
  function Lits(t: string): (ps: seq<Piece>)
    ensures |ps| == |t| && forall j :: 0 <= j < |t| ==> ps[j] == Lit(t[j])
  {
    seq(|t|, j requires 0 <= j < |t| => Lit(t[j]))
  }

  lemma {:induction false} RenderPiecesAppend(ps: seq<Piece>, qs: seq<Piece>, mentions: Option<seq<ParsedMention>>)
    ensures RenderPieces(ps + qs, mentions) == RenderPieces(ps, mentions) + RenderPieces(qs, mentions)
    decreases |ps|
  {
    if ps != [] {
      assert (ps + qs)[1..] == ps[1..] + qs;
      RenderPiecesAppend(ps[1..], qs, mentions);
    } else {
      assert ps + qs == qs;
    }
  }

  lemma RenderOnePiece(p: Piece, mentions: Option<seq<ParsedMention>>)
    ensures RenderPieces([p], mentions) == RenderPiece(p, mentions)
  {
    assert [p][1..] == [];
  }

  /** Literal characters render as themselves. */
  lemma {:induction false} RenderLits(t: string, mentions: Option<seq<ParsedMention>>)
    ensures RenderPieces(Lits(t), mentions) == t
    decreases |t|
  {
    if t != [] {
      assert Lits(t)[1..] == Lits(t[1..]);
      RenderLits(t[1..], mentions);
      assert t == [t[0]] + t[1..];
    }
  }

  /** The pattern matches in the tail of s exactly where it matches in s, one position later. */
  lemma MatchAtShift(s: string, j: nat)
    requires s != []
    ensures MatchAt(s[1..], j) <==> MatchAt(s, j + 1)
  {
    if j + 2 < |s| {
      assert s[1..][j] == s[j + 1] && s[1..][j + 1] == s[j + 2];
    }
  }

  lemma LitsCons(t: string)
    requires t != []
    ensures Lits(t) == [Lit(t[0])] + Lits(t[1..])
  {
  }

  /** A stretch of text where the pattern never matches scans to literals. */
  lemma {:induction false} LiteralPrefix(s: string, i: nat)
    requires i <= |s|
    requires forall j :: 0 <= j < i ==> !MatchAt(s, j)
    ensures Tokenize(s) == Lits(s[..i]) + Tokenize(s[i..])
    decreases i
  {
    if i == 0 {
      assert Lits(s[..0]) == [];
      assert s[0..] == s;
      return;
    }
    assert !MatchAt(s, 0);
    var t := s[1..];
    forall j | 0 <= j < i - 1 ensures !MatchAt(t, j) {
      MatchAtShift(s, j);
    }
    LiteralPrefix(t, i - 1);
    assert t[i - 1..] == s[i..];
    assert t[..i - 1] == s[..i][1..];
    LitsCons(s[..i]);
    calc {
      Tokenize(s);
      [Lit(s[0])] + Tokenize(t);
      [Lit(s[0])] + (Lits(t[..i - 1]) + Tokenize(t[i - 1..]));
      ([Lit(s[0])] + Lits(s[..i][1..])) + Tokenize(s[i..]);
      Lits(s[..i]) + Tokenize(s[i..]);
    }
  }

  /** Text in which the pattern never matches is returned unchanged. */
  lemma RenderWithoutMatches(s: string, mentions: Option<seq<ParsedMention>>)
    requires forall j :: 0 <= j < |s| ==> !MatchAt(s, j)
    ensures Render(s, mentions) == s
  {
    LiteralPrefix(s, |s|);
    assert s[|s|..] == [];
    assert s[..|s|] == s;
    assert Tokenize(s) == Lits(s);
    RenderLits(s, mentions);
  }

  /** Text containing no `@` is returned unchanged. */
  lemma RenderWithoutAt(s: string, mentions: Option<seq<ParsedMention>>)
    requires '@' !in s
    ensures Render(s, mentions) == s
  {
    RenderWithoutMatches(s, mentions);
  }

  /** At a match the scan of the rest of the text starts with that whole match. */
  lemma TokenizeAtMatch(s: string, i: nat)
    requires MatchAt(s, i)
    ensures var k := RunEnd(s, i + 1);
            Tokenize(s[i..]) == [Mention(s[i + 1..k])] + Tokenize(s[k..])
  {
    var k := RunEnd(s, i + 1);
    var t := s[i..];
    assert MatchAt(t, 0);
    forall m | 1 <= m < k - i ensures IsHandleChar(t[m]) {
      assert t[m] == s[i + m];
    }
    if k - i < |t| {
      assert t[k - i] == s[k];
    }
    RunEndIs(t, 1, k - i);
    assert t[1..k - i] == s[i + 1..k];
    assert t[k - i..] == s[k..];
  }

  /**
   * One step of the single-pass replacement: the text before the first match
   * is kept as it is, the match `@name` becomes the anchor for name, and the
   * scan resumes in the original text right after the match (never inside
   * the inserted markup).
   */
  lemma RenderFirstMatch(s: string, i: nat, mentions: Option<seq<ParsedMention>>)
    requires MatchAt(s, i)
    requires forall j :: 0 <= j < i ==> !MatchAt(s, j)
    ensures var k := RunEnd(s, i + 1);
            Render(s, mentions) == s[..i] + Anchor(Href(s[i + 1..k], mentions), s[i + 1..k]) + Render(s[k..], mentions)
  {
    var k := RunEnd(s, i + 1);
    var name := s[i + 1..k];
    var rest := Tokenize(s[k..]);
    var anchor := RenderPiece(Mention(name), mentions);
    LiteralPrefix(s, i);
    TokenizeAtMatch(s, i);
    calc {
      Render(s, mentions);
      RenderPieces(Lits(s[..i]) + ([Mention(name)] + rest), mentions);
      { RenderPiecesAppend(Lits(s[..i]), [Mention(name)] + rest, mentions); }
      RenderPieces(Lits(s[..i]), mentions) + RenderPieces([Mention(name)] + rest, mentions);
      { RenderLits(s[..i], mentions); }
      s[..i] + RenderPieces([Mention(name)] + rest, mentions);
      { RenderPiecesAppend([Mention(name)], rest, mentions); RenderOnePiece(Mention(name), mentions); }
      s[..i] + (anchor + Render(s[k..], mentions));
      s[..i] + anchor + Render(s[k..], mentions);
    }
  }

  /** Without a mention list, or with no entry for it, a name links to the user profile `/u/<name>`. */
  lemma DefaultLinkIsUserProfile(name: string, ms: seq<ParsedMention>)
    requires forall i :: 0 <= i < |ms| ==> ms[i].username != name
    ensures Href(name, None) == "/u/" + name
    ensures Href(name, Some(ms)) == "/u/" + name
  {
  }

  /**
   * A mentioned handle with a user row links to the user profile when
   * rendered with the resolved list, even when a brand has the same slug:
   * user hits come first, and the first entry decides.
   */
  lemma ResolvedUserLinksToProfile(keys: seq<string>, profiles: Option<seq<Row>>, brandProfiles: Option<seq<Row>>, name: string, id: string)
    requires name in keys
    requires profiles.Some? && Row(id, name) in profiles.value
    ensures Href(name, Some(Resolve(keys, profiles, brandProfiles))) == "/u/" + name
  {
    var r := Resolve(keys, profiles, brandProfiles);
    var u := Hits(profiles, keys);
    var tu := Tag(u, User);
    assert r == tu + Tag(Hits(brandProfiles, keys), Brand);
    var k :| 0 <= k < |u| && u[k] == Row(id, name);
    assert r[k] == tu[k];
    assert r[k].username == name;
    var first := FirstIndexOf(r, name, k);
    assert r[first].kind == User;
    forall i | FirstWith(r, name, i) ensures r[i].kind == User {
      FirstWithUnique(r, name, i, first);
    }
  }

  /** A table without a row for name contributes no hit for name. */
  lemma NoHitFor(keys: seq<string>, table: Option<seq<Row>>, name: string)
    requires table.None? || forall id :: Row(id, name) !in table.value
    ensures forall j :: 0 <= j < |Hits(table, keys)| ==> Hits(table, keys)[j].handle != name
  {
    var h := Hits(table, keys);
    forall j | 0 <= j < |h| ensures h[j].handle != name {
      assert h[j] in h;
      assert h[j] == Row(h[j].id, h[j].handle);
    }
  }

  /** When the front part has no entry for name and the back part is all brands, the first entry for name is a brand. */
  lemma FirstInBrandPart(front: seq<ParsedMention>, back: seq<ParsedMention>, name: string, k: nat)
    requires forall j :: 0 <= j < |front| ==> front[j].username != name
    requires forall j :: 0 <= j < |back| ==> back[j].kind == Brand
    requires k < |back| && back[k].username == name
    ensures FirstIsBrand(front + back, name)
  {
    var r := front + back;
    assert r[|front| + k] == back[k];
    var first := FirstIndexOf(r, name, |front| + k);
    assert first >= |front| by {
      forall j | 0 <= j < |front| ensures r[j].username != name {
        assert r[j] == front[j];
      }
    }
    assert r[first] == back[first - |front|];
  }

  /** A mentioned handle with a brand row and no user row links to the brand root. */
  lemma ResolvedBrandLinksToBrand(keys: seq<string>, profiles: Option<seq<Row>>, brandProfiles: Option<seq<Row>>, name: string, id: string)
    requires name in keys
    requires profiles.None? || forall uid :: Row(uid, name) !in profiles.value
    requires brandProfiles.Some? && Row(id, name) in brandProfiles.value
    ensures Href(name, Some(Resolve(keys, profiles, brandProfiles))) == "/" + name
  {
    var u := Hits(profiles, keys);
    var b := Hits(brandProfiles, keys);
    var tu, tb := Tag(u, User), Tag(b, Brand);
    NoHitFor(keys, profiles, name);
    assert forall j :: 0 <= j < |tu| ==> tu[j].username == u[j].handle;
    assert Row(id, name) in b;
    var k :| 0 <= k < |b| && b[k] == Row(id, name);
    assert tb[k].username == name;
    FirstInBrandPart(tu, tb, name, k);
  }

  /** A mentioned handle found in neither table still links to the user profile. */
  lemma UnresolvedLinksToProfile(keys: seq<string>, profiles: Option<seq<Row>>, brandProfiles: Option<seq<Row>>, name: string)
    requires profiles.None? || forall id :: Row(id, name) !in profiles.value
    requires brandProfiles.None? || forall id :: Row(id, name) !in brandProfiles.value
    ensures Href(name, Some(Resolve(keys, profiles, brandProfiles))) == "/u/" + name
  {
    var r := Resolve(keys, profiles, brandProfiles);
    forall i | 0 <= i < |r| ensures r[i].username != name {
      ResolveMembership(keys, profiles, brandProfiles, r[i]);
    }
  }

  /** The first entry for name, given one entry for it at position k. */
  lemma FirstIndexOf(ms: seq<ParsedMention>, name: string, k: nat) returns (i: nat)
    requires k < |ms| && ms[k].username == name
    ensures FirstWith(ms, name, i) && i <= k
    decreases k
  {
    if exists j :: 0 <= j < k && ms[j].username == name {
      var j :| 0 <= j < k && ms[j].username == name;
      i := FirstIndexOf(ms, name, j);
    } else {
      i := k;
    }
  }

  // ---------------------------------------------------------------------------
  // Non-idempotence of rendering
  // ---------------------------------------------------------------------------

  /** Where the pattern matches, the scan holds a mention. */
  lemma {:induction false} MatchGivesMention(s: string, p: nat)
    requires MatchAt(s, p)
    ensures Matches(s) != []
    decreases |s|
  {
    if MatchAt(s, 0) {
      var k := RunEnd(s, 1);
      assert Tokenize(s) == [Mention(s[1..k])] + Tokenize(s[k..]);
    } else {
      assert p > 0;
      assert Tokenize(s) == [Lit(s[0])] + Tokenize(s[1..]);
      assert MatchAt(s[1..], p - 1);
      MatchGivesMention(s[1..], p - 1);
    }
  }

  /** An anchor repeats `@name` as its link text, so the pattern matches inside it. */
  lemma AnchorHasMatch(href: string, name: string)
    requires IsHandle(name)
    ensures exists q: nat :: MatchAt(Anchor(href, name), q)
  {
    var pre := "<a href=\"" + href + "\" class=\"" + AnchorClass + "\">";
    var a := Anchor(href, name);
    assert a == pre + ("@" + name + "</a>");
    var q := |pre|;
    assert a[q] == '@';
    assert a[q + 1] == name[0];
    assert MatchAt(a, q);
  }

  /** A match in a front part is a match of the whole. */
  lemma MatchInFront(x: string, y: string, q: nat)
    requires MatchAt(x, q)
    ensures MatchAt(x + y, q)
  {
    assert (x + y)[q] == x[q] && (x + y)[q + 1] == x[q + 1];
  }

  /** A match in a back part is a match of the whole, shifted by the front. */
  lemma MatchInBack(x: string, y: string, q: nat)
    requires MatchAt(y, q)
    ensures MatchAt(x + y, |x| + q)
  {
    assert (x + y)[|x| + q] == y[q] && (x + y)[|x| + q + 1] == y[q + 1];
  }

  /** Rendering never shortens the pieces it spells, and lengthens them when one is a mention. */
  lemma {:induction false} RenderLength(ps: seq<Piece>, mentions: Option<seq<ParsedMention>>)
    ensures |RenderPieces(ps, mentions)| >= |Text(ps)|
    ensures (exists i :: 0 <= i < |ps| && ps[i].Mention?) ==> |RenderPieces(ps, mentions)| > |Text(ps)|
    decreases |ps|
  {
    if ps != [] {
      RenderLength(ps[1..], mentions);
      if exists i :: 0 <= i < |ps| && ps[i].Mention? {
        var i :| 0 <= i < |ps| && ps[i].Mention?;
        if i > 0 { assert ps[1..][i - 1].Mention?; }
      }
    }
  }

  /** The rendering of pieces holding a mention still holds a match (inside the anchor). */
  lemma {:induction false} RenderedTextMatches(ps: seq<Piece>, mentions: Option<seq<ParsedMention>>)
    requires forall i :: 0 <= i < |ps| && ps[i].Mention? ==> IsHandle(ps[i].name)
    requires exists i :: 0 <= i < |ps| && ps[i].Mention?
    ensures exists p: nat :: MatchAt(RenderPieces(ps, mentions), p)
    decreases |ps|
  {
    var head := RenderPiece(ps[0], mentions);
    var rest := RenderPieces(ps[1..], mentions);
    assert RenderPieces(ps, mentions) == head + rest;
    if ps[0].Mention? {
      AnchorHasMatch(Href(ps[0].name, mentions), ps[0].name);
      var q: nat :| MatchAt(head, q);
      MatchInFront(head, rest, q);
    } else {
      var i :| 0 <= i < |ps| && ps[i].Mention?;
      assert ps[1..][i - 1].Mention?;
      forall j | 0 <= j < |ps[1..]| && ps[1..][j].Mention? ensures IsHandle(ps[1..][j].name) {
        assert ps[1..][j] == ps[j + 1];
      }
      RenderedTextMatches(ps[1..], mentions);
      var p: nat :| MatchAt(rest, p);
      MatchInBack(head, rest, p);
    }
  }

  /** Names in the scan are mentions in it. */
  lemma {:induction false} NamesGiveMention(ps: seq<Piece>)
    requires Names(ps) != []
    ensures exists i :: 0 <= i < |ps| && ps[i].Mention?
    decreases |ps|
  {
    if !ps[0].Mention? {
      NamesGiveMention(ps[1..]);
      var i :| 0 <= i < |ps[1..]| && ps[1..][i].Mention?;
      assert ps[i + 1].Mention?;
    }
  }

  /**
   * Rendering is single-pass and not idempotent: rendering the output of a
   * text with a mention again re-matches the `@name` inside each anchor and
   * changes it.
   */
  lemma RenderNotIdempotent(s: string, mentions: Option<seq<ParsedMention>>)
    requires Matches(s) != []
    ensures Render(Render(s, mentions), mentions) != Render(s, mentions)
  {
    var ps := Tokenize(s);
    var r := Render(s, mentions);
    TokenizeWellFormed(s);
    NamesGiveMention(ps);
    RenderedTextMatches(ps, mentions);
    var p: nat :| MatchAt(r, p);
    MatchGivesMention(r, p);
    NamesGiveMention(Tokenize(r));
    TextOfTokenize(r);
    RenderLength(Tokenize(r), mentions);
  }

  // ---------------------------------------------------------------------------
  // Association rows: the record building of `createMentions`
  // ---------------------------------------------------------------------------

  /** A row of the `mentions` table; None stands for SQL null. */
  datatype MentionRecord = MentionRecord(commentId: string, mentionedUserId: Option<string>, mentionedBrandId: Option<string>)

  function ToRecord(commentId: string, m: ParsedMention): MentionRecord {
    MentionRecord(commentId,
                  if m.kind == User then Some(m.id) else None,
                  if m.kind == Brand then Some(m.id) else None)
  }

  /** The entity a row points at, when exactly one of its two ids is set. */
  function RecordTarget(r: MentionRecord): Option<(MentionType, string)> {
    match (r.mentionedUserId, r.mentionedBrandId)
    case (Some(u), None) => Some((User, u))
    case (None, Some(b)) => Some((Brand, b))
    case _ => None
  }

  /** `mentions.map(...)`: one row per mention, in order, each naming the comment and exactly one target. */
  function BuildRecords(commentId: string, ms: seq<ParsedMention>): (rs: seq<MentionRecord>)
    ensures |rs| == |ms|
    ensures forall i :: 0 <= i < |ms| ==>
              && rs[i].commentId == commentId
              && (rs[i].mentionedUserId.Some? <==> !rs[i].mentionedBrandId.Some?)
              && (rs[i].mentionedUserId.Some? <==> ms[i].kind == User)
              && RecordTarget(rs[i]) == Some((ms[i].kind, ms[i].id))
  {
    seq(|ms|, i requires 0 <= i < |ms| => ToRecord(commentId, ms[i]))
  }

  /** `createMentions`: the batch handed to the insert, or None when no write is issued. */
  function CreateMentions(commentId: string, ms: seq<ParsedMention>): (insert: Option<seq<MentionRecord>>)
    ensures insert.None? <==> ms == []
    ensures insert.Some? ==>
              && |insert.value| == |ms|
              && (forall i :: 0 <= i < |ms| ==>
                    insert.value[i].commentId == commentId && RecordTarget(insert.value[i]) == Some((ms[i].kind, ms[i].id)))
  {
    if |ms| == 0 then None else Some(BuildRecords(commentId, ms))
  }
}
