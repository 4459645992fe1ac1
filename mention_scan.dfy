/**
 * The scanner behind the mention pattern `/@([\w-]+)/g` of mentions.ts.
 *
 * `String.prototype.matchAll` and `String.prototype.replace` with a global
 * regular expression both walk the text left to right: at each position the
 * pattern either matches (greedily, as far as the character class reaches)
 * and scanning resumes after the match, or it does not and scanning moves on
 * by one character. Tokenize makes that walk explicit by cutting the text
 * into literal characters and mention spans.
 */
module MentionScan {

  /** The class `[\w-]`: JavaScript's `\w` without the `u` flag (ASCII letters, digits, `_`) plus `-`. */
  predicate IsHandleChar(c: char) {
    ('A' <= c <= 'Z') || ('a' <= c <= 'z') || ('0' <= c <= '9') || c == '_' || c == '-'
  }

  /** A string the capture group `([\w-]+)` can match: non-empty, only handle characters. */
  predicate IsHandle(s: string) {
    |s| > 0 && forall k :: 0 <= k < |s| ==> IsHandleChar(s[k])
  }

  /** True when the pattern matches at position i: an `@` followed by at least one handle character. */
  predicate MatchAt(s: string, i: nat) {
    i + 1 < |s| && s[i] == '@' && IsHandleChar(s[i + 1])
  }

  /** One piece of scanned text: a character outside every match, or a whole match `@name`. */
  datatype Piece = Lit(c: char) | Mention(name: string)

  /** The greedy end of the run of handle characters that starts at j. */
  function RunEnd(s: string, j: nat): (k: nat)
    requires j <= |s|
    ensures j <= k <= |s|
    ensures forall m :: j <= m < k ==> IsHandleChar(s[m])
    ensures k == |s| || !IsHandleChar(s[k])
    decreases |s| - j
  {
    if j < |s| && IsHandleChar(s[j]) then RunEnd(s, j + 1) else j
  }

  /** The leftmost-first, greedy, non-overlapping scan of s. */
  function Tokenize(s: string): seq<Piece>
    decreases |s|
  {
    if s == [] then []
    else if MatchAt(s, 0) then
      var k := RunEnd(s, 1);
      [Mention(s[1..k])] + Tokenize(s[k..])
    else
      [Lit(s[0])] + Tokenize(s[1..])
  }

  /** The text a piece spells. */
  function PieceText(p: Piece): string {
    match p
    case Lit(c) => [c]
    case Mention(name) => "@" + name
  }

  /** The text a list of pieces spells; the inverse of Tokenize. */
  function Text(ps: seq<Piece>): string {
    if ps == [] then [] else PieceText(ps[0]) + Text(ps[1..])
  }

  /** The captured names, in text order (`matches.map((m) => m[1])`). */
  function Names(ps: seq<Piece>): seq<string> {
    if ps == [] then []
    else if ps[0].Mention? then [ps[0].name] + Names(ps[1..])
    else Names(ps[1..])
  }

  /** Every name captured in s, in order, repeats included. */
  function Matches(s: string): seq<string> {
    Names(Tokenize(s))
  }

  /** A piece whose text begins with a handle character (only a literal can). */
  predicate StartsWithHandleChar(p: Piece) {
    p.Lit? && IsHandleChar(p.c)
  }

  /**
   * What a scan by the pattern must look like: every mention captures a
   * handle; a mention is never followed by a handle character (greedy
   * match); and a literal `@` is never followed by a handle character
   * (no match is skipped).
   */
  predicate WellFormed(ps: seq<Piece>) {
    && (forall i :: 0 <= i < |ps| && ps[i].Mention? ==> IsHandle(ps[i].name))
    && (forall i :: 0 <= i < |ps| - 1 && ps[i].Mention? ==> !StartsWithHandleChar(ps[i + 1]))
    && (forall i :: 0 <= i < |ps| - 1 && ps[i] == Lit('@') ==> !StartsWithHandleChar(ps[i + 1]))
  }

  /** RunEnd is determined by its contract: the first non-handle position at or after j. */
  lemma RunEndIs(s: string, j: nat, k: nat)
    requires j <= k <= |s|
    requires forall m :: j <= m < k ==> IsHandleChar(s[m])
    requires k == |s| || !IsHandleChar(s[k])
    ensures RunEnd(s, j) == k
  {
  }

  /** Scanning then spelling gives back the text: no character is lost or added. */
  lemma {:induction false} TextOfTokenize(s: string)
    ensures Text(Tokenize(s)) == s
    decreases |s|
  {
    if s != [] {
      var ps := Tokenize(s);
      if MatchAt(s, 0) {
        var k := RunEnd(s, 1);
        assert ps == [Mention(s[1..k])] + Tokenize(s[k..]);
        assert ps[1..] == Tokenize(s[k..]);
        TextOfTokenize(s[k..]);
        calc {
          Text(ps);
          PieceText(ps[0]) + Text(ps[1..]);
          "@" + s[1..k] + s[k..];
          { assert s == [s[0]] + s[1..k] + s[k..]; }
          s;
        }
      } else {
        assert ps == [Lit(s[0])] + Tokenize(s[1..]);
        assert ps[1..] == Tokenize(s[1..]);
        TextOfTokenize(s[1..]);
        calc {
          Text(ps);
          PieceText(ps[0]) + Text(ps[1..]);
          [s[0]] + s[1..];
          s;
        }
      }
    }
  }

  /** The first piece of a scan, read off the first characters of the text. */
  lemma HeadOfTokenize(s: string)
    requires s != []
    ensures Tokenize(s) != []
    ensures MatchAt(s, 0) ==> Tokenize(s)[0] == Mention(s[1..RunEnd(s, 1)])
    ensures !MatchAt(s, 0) ==> Tokenize(s)[0] == Lit(s[0])
  {
  }

  /** WellFormed is kept when a piece is put in front of a scan it may precede. */
  lemma WellFormedCons(p: Piece, ps: seq<Piece>)
    requires WellFormed(ps)
    requires p.Mention? ==> IsHandle(p.name)
    requires ps != [] && (p.Mention? || p == Lit('@')) ==> !StartsWithHandleChar(ps[0])
    ensures WellFormed([p] + ps)
  {
    var qs := [p] + ps;
    forall i | 0 <= i < |qs| - 1 && qs[i].Mention?
      ensures !StartsWithHandleChar(qs[i + 1])
    {
      if i > 0 { assert qs[i] == ps[i - 1] && qs[i + 1] == ps[i]; }
    }
    forall i | 0 <= i < |qs| - 1 && qs[i] == Lit('@')
      ensures !StartsWithHandleChar(qs[i + 1])
    {
      if i > 0 { assert qs[i] == ps[i - 1] && qs[i + 1] == ps[i]; }
    }
    forall i | 0 <= i < |qs| && qs[i].Mention?
      ensures IsHandle(qs[i].name)
    {
      if i > 0 { assert qs[i] == ps[i - 1]; }
    }
  }

  /** Every scan is well formed: handles only, greedy, nothing skipped. */
  lemma {:induction false} TokenizeWellFormed(s: string)
    ensures WellFormed(Tokenize(s))
    decreases |s|
  {
    if s == [] {
    } else if MatchAt(s, 0) {
      var k := RunEnd(s, 1);
      TokenizeWellFormed(s[k..]);
      if k < |s| { HeadOfTokenize(s[k..]); }
      assert Tokenize(s) == [Mention(s[1..k])] + Tokenize(s[k..]);
      WellFormedCons(Mention(s[1..k]), Tokenize(s[k..]));
    } else {
      TokenizeWellFormed(s[1..]);
      if |s| > 1 { HeadOfTokenize(s[1..]); }
      assert Tokenize(s) == [Lit(s[0])] + Tokenize(s[1..]);
      WellFormedCons(Lit(s[0]), Tokenize(s[1..]));
    }
  }

  /** The first character a non-empty piece list spells. */
  lemma TextHead(ps: seq<Piece>)
    requires ps != []
    ensures Text(ps) == PieceText(ps[0]) + Text(ps[1..])
    ensures Text(ps) != [] && Text(ps)[0] == (if ps[0].Lit? then ps[0].c else '@')
  {
  }

  /** Dropping the first piece keeps a piece list well formed. */
  lemma WellFormedTail(ps: seq<Piece>)
    requires ps != [] && WellFormed(ps)
    ensures WellFormed(ps[1..])
  {
    var rest := ps[1..];
    forall i | 0 <= i < |rest| - 1 && rest[i].Mention?
      ensures !StartsWithHandleChar(rest[i + 1])
    {
      assert rest[i] == ps[i + 1] && rest[i + 1] == ps[i + 2];
    }
    forall i | 0 <= i < |rest| - 1 && rest[i] == Lit('@')
      ensures !StartsWithHandleChar(rest[i + 1])
    {
      assert rest[i] == ps[i + 1] && rest[i + 1] == ps[i + 2];
    }
    forall i | 0 <= i < |rest| && rest[i].Mention?
      ensures IsHandle(rest[i].name)
    {
      assert rest[i] == ps[i + 1];
    }
  }

  /** A text that starts with `@`, a handle, and then no further handle character scans to that match first. */
  lemma ScanMentionFirst(s: string, n: string, t: string)
    requires s == "@" + n + t && IsHandle(n)
    requires t == [] || !IsHandleChar(t[0])
    ensures Tokenize(s) == [Mention(n)] + Tokenize(t)
  {
    var k := 1 + |n|;
    assert s[1..k] == n;
    assert s[k..] == t;
    forall m | 1 <= m < k ensures IsHandleChar(s[m]) {
      assert s[m] == n[m - 1];
    }
    if k < |s| {
      assert s[k] == t[0];
    }
    RunEndIs(s, 1, k);
    assert MatchAt(s, 0);
  }

  /** A text whose first character does not start a match scans to that character first. */
  lemma ScanLiteralFirst(s: string, c: char, t: string)
    requires s == [c] + t
    requires c == '@' ==> t == [] || !IsHandleChar(t[0])
    ensures Tokenize(s) == [Lit(c)] + Tokenize(t)
  {
    assert s[1..] == t;
    if c == '@' && |s| > 1 {
      assert s[1] == t[0];
    }
    assert !MatchAt(s, 0);
  }

  /**
   * Maximal munch characterises the scan: any well-formed piece list that
   * spells s is the one Tokenize produces.
   */
  lemma {:induction false} TokenizeUnique(s: string, ps: seq<Piece>)
    requires WellFormed(ps) && Text(ps) == s
    ensures ps == Tokenize(s)
    decreases |ps|
  {
    if ps == [] {
      return;
    }
    TextHead(ps);
    var rest := ps[1..];
    var t := Text(rest);
    WellFormedTail(ps);
    TokenizeUnique(t, rest);
    if rest != [] {
      TextHead(rest);
    }
    assert ps == [ps[0]] + rest;
    match ps[0]
    case Mention(n) =>
      ScanMentionFirst(s, n, t);
    case Lit(c) =>
      ScanLiteralFirst(s, c, t);
  }

  /** Every captured name is a handle: non-empty and only `[A-Za-z0-9_-]`. */
  lemma {:induction false} MatchesAreHandles(s: string)
    ensures forall t :: t in Matches(s) ==> IsHandle(t)
  {
    TokenizeWellFormed(s);
    NamesAreHandles(Tokenize(s));
  }

  lemma {:induction false} NamesAreHandles(ps: seq<Piece>)
    requires forall i :: 0 <= i < |ps| && ps[i].Mention? ==> IsHandle(ps[i].name)
    ensures forall t :: t in Names(ps) ==> IsHandle(t)
  {
    if ps != [] {
      assert forall i :: 0 <= i < |ps[1..]| && ps[1..][i].Mention? ==> IsHandle(ps[1..][i].name) by {
        forall i | 0 <= i < |ps[1..]| && ps[1..][i].Mention? ensures IsHandle(ps[1..][i].name) {
          assert ps[1..][i] == ps[i + 1];
        }
      }
      NamesAreHandles(ps[1..]);
    }
  }

  /** The pattern captured t at position i of s: `@`, then t, then no further handle character. */
  predicate CapturedAt(s: string, i: nat, t: string) {
    var k := i + 1 + |t|;
    k <= |s| && s[i] == '@' && s[i + 1..k] == t && (k == |s| || !IsHandleChar(s[k]))
  }

  /** An occurrence in a suffix is an occurrence in the whole text. */
  lemma CapturedInSuffix(s: string, d: nat, i: nat, t: string)
    requires d <= |s| && CapturedAt(s[d..], i, t)
    ensures CapturedAt(s, d + i, t)
  {
    var u := s[d..];
    var k := i + 1 + |t|;
    assert s[d + i] == u[i];
    assert s[d + i + 1..d + k] == u[i + 1..k];
    assert d + k < |s| ==> s[d + k] == u[k];
  }

  /** Each captured name stands in the text right after an `@` and is not followed by a handle character. */
  lemma {:induction false} MatchesOccur(s: string, t: string)
    requires t in Matches(s)
    ensures exists i: nat :: CapturedAt(s, i, t)
    decreases |s|
  {
    assert s != [];
    if MatchAt(s, 0) {
      var k := RunEnd(s, 1);
      var ps := Tokenize(s);
      assert ps == [Mention(s[1..k])] + Tokenize(s[k..]);
      assert ps[1..] == Tokenize(s[k..]);
      assert Matches(s) == [s[1..k]] + Matches(s[k..]);
      if t == s[1..k] {
        assert CapturedAt(s, 0, t);
      } else {
        MatchesOccur(s[k..], t);
        var i: nat :| CapturedAt(s[k..], i, t);
        CapturedInSuffix(s, k, i, t);
      }
    } else {
      var ps := Tokenize(s);
      assert ps == [Lit(s[0])] + Tokenize(s[1..]);
      assert ps[1..] == Tokenize(s[1..]);
      assert Matches(s) == Matches(s[1..]);
      MatchesOccur(s[1..], t);
      var i: nat :| CapturedAt(s[1..], i, t);
      CapturedInSuffix(s, 1, i, t);
    }
  }

  /** Text without `@` scans to literals only, so it yields no names. */
  lemma {:induction false} NoAtNoMatches(s: string)
    requires '@' !in s
    ensures forall i :: 0 <= i < |Tokenize(s)| ==> Tokenize(s)[i].Lit?
    ensures Matches(s) == []
    decreases |s|
  {
    if s != [] {
      assert s[0] != '@';
      NoAtNoMatches(s[1..]);
      assert Tokenize(s) == [Lit(s[0])] + Tokenize(s[1..]);
    }
  }
}
