/**
 The FTS5 query sanitiser: bare tokens containing a hyphen become phrases, everything else is
 copied. The specification is a lexer for the query language; the scanner is proved to compute
 the rendering of the promoted tokens, and re-lexing its output is characterised exactly.
 */
module FtsQuery {
  import opened Common

  /** The Unicode White_Space property, which is what `char::is_whitespace` tests. */
  predicate IsWhitespace(c: char) {
    var n := c as int;
    || 0x09 <= n <= 0x0d || n == 0x20 || n == 0x85 || n == 0xa0 || n == 0x1680
    || 0x2000 <= n <= 0x200a || n == 0x2028 || n == 0x2029 || n == 0x202f || n == 0x205f || n == 0x3000
  }

  predicate IsBreak(c: char) {
    IsWhitespace(c) || c == ':' || c == '(' || c == ')'
  }

  /** Token texts include the quotes of a phrase; an unterminated phrase has no closing quote. */
  datatype Token = Break(c: char) | Phrase(quoted: string) | Bare(word: string) {
    function Text(): string {
      match this
      case Break(c) => [c]
      case Phrase(q) => q
      case Bare(w) => w
    }

    predicate Promotable() {
      Bare? && '-' in word && '"' !in word
    }
  }

  predicate StartsWithQuote(s: string) {
    s != "" && s[0] == '"'
  }

  /** How many characters of `s`, read just after an opening quote, belong to the phrase. */
  function PhraseLen(s: string): (n: nat)
    ensures n <= |s|
    ensures n < |s| ==> 0 < n && s[n - 1] == '"' && s[n] != '"'
  {
    if s == "" then 0
    else if s[0] != '"' then 1 + PhraseLen(s[1..])
    else if |s| >= 2 && s[1] == '"' then 2 + PhraseLen(s[2..])
    else 1
  }

  /** How many leading characters of `s` form a bare token. */
  function BareLen(s: string): (n: nat)
    ensures n <= |s|
    ensures forall i :: 0 <= i < n ==> !IsBreak(s[i])
    ensures n < |s| ==> IsBreak(s[n])
  {
    if s == "" || IsBreak(s[0]) then 0 else 1 + BareLen(s[1..])
  }

  function FirstToken(s: string): (t: Token)
    requires s != ""
    ensures 0 < |t.Text()| <= |s| && s[..|t.Text()|] == t.Text()
  {
    if IsBreak(s[0]) then Break(s[0])
    else if s[0] == '"' then Phrase(s[..1 + PhraseLen(s[1..])])
    else Bare(s[..BareLen(s)])
  }

  function Lex(s: string): (ts: seq<Token>)
    decreases |s|
  {
    if s == "" then []
    else var t := FirstToken(s); [t] + Lex(s[|t.Text()|..])
  }

  function Render(ts: seq<Token>): (s: string) {
    if ts == [] then "" else ts[0].Text() + Render(ts[1..])
  }

  function Promote(t: Token): (p: Token)
    ensures !p.Promotable()
  {
    if t.Promotable() then Phrase(['"'] + t.word + ['"']) else t
  }

  function PromoteAll(ts: seq<Token>): (ps: seq<Token>)
    ensures |ps| == |ts|
    ensures forall i :: 0 <= i < |ts| ==> ps[i] == Promote(ts[i])
  {
    if ts == [] then [] else [Promote(ts[0])] + PromoteAll(ts[1..])
  }

  /** What the sanitiser computes: every promotable token becomes a phrase, the rest is copied. */
  function Sanitize(query: string): (r: string) {
    Render(PromoteAll(Lex(query)))
  }

  /** Two phrases with nothing between them read as one, since `""` is an escaped quote. */
  function Merge(ts: seq<Token>): (ms: seq<Token>)
    ensures |ms| <= |ts|
    decreases |ts|
  {
    if ts == [] then []
    else if |ts| >= 2 && ts[0].Phrase? && ts[1].Phrase? then
      [Phrase(ts[0].quoted + ts[1].quoted)] + Merge(ts[2..])
    else [ts[0]] + Merge(ts[1..])
  }

  function CountPromotable(ts: seq<Token>): (n: nat) {
    if ts == [] then 0 else (if ts[0].Promotable() then 1 else 0) + CountPromotable(ts[1..])
  }

  /** Some phrase is directly followed by a bare token that the sanitiser wraps in quotes. */
  ghost predicate PhraseTouchesPromotable(ts: seq<Token>) {
    exists i :: 0 <= i < |ts| - 1 && ts[i].Phrase? && ts[i + 1].Promotable()
  }

  // ---- the scanner ----------------------------------------------------------------------------

  /** The inner loop: `rest` starts just after an opening quote; copy through the closing one. */
  method CopyPhrase(query: string) returns (out: string, rest: string)
    ensures out == query[..PhraseLen(query)]
    ensures rest == query[PhraseLen(query)..]
  {
    out, rest := "", query;
    ghost var k := 0;
    while rest != ""
      invariant k <= |query| && rest == query[k..] && out == query[..k]
      invariant k + PhraseLen(rest) == PhraseLen(query)
      decreases |rest|
    {
      if |rest| >= 2 && rest[0] == '"' && rest[1] == '"' {
        TakeNext(query, k);
        TakeNext(query, k + 1);
        out := out + [rest[0]] + [rest[1]];
        rest := rest[2..];
        k := k + 2;
      } else {
        TakeNext(query, k);
        var ch := rest[0];
        out := out + [ch];
        rest := rest[1..];
        k := k + 1;
        if ch == '"' {
          assert k == PhraseLen(query);
          return;
        }
      }
    }
  }

  /** The outer scanning loop, shrinking `rest` and growing `out`. */
  method SanitizeFts5Query(query: string) returns (out: string)
    ensures out == Sanitize(query)
  {
    out := "";
    var rest := query;
    while rest != ""
      invariant out + Sanitize(rest) == Sanitize(query)
      decreases |rest|
    {
      ghost var start, written := rest, out;
      var piece: string;
      var first := rest[0];
      if IsBreak(first) {
        piece := [first];
        rest := rest[1..];
      } else if first == '"' {
        var body;
        body, rest := CopyPhrase(rest[1..]);
        piece := [first] + body;
        PhraseSplit(start);
      } else {
        var end := BareLen(rest);
        var word := rest[..end];
        rest := rest[end..];
        piece := if '-' in word && '"' !in word then ['"'] + word + ['"'] else word;
      }
      out := out + piece;
      ScanStep(query, written, start, piece, rest);
    }
  }

  lemma PhraseSplit(s: string)
    requires StartsWithQuote(s)
    ensures var n := PhraseLen(s[1..]);
            s[..1 + n] == [s[0]] + s[1..][..n] && s[1 + n..] == s[1..][n..]
  {
  }

  lemma ScanStep(query: string, written: string, start: string, piece: string, rest: string)
    requires start != "" && written + Sanitize(start) == Sanitize(query)
    requires piece == Promote(FirstToken(start)).Text()
    requires rest == start[|FirstToken(start).Text()|..]
    ensures (written + piece) + Sanitize(rest) == Sanitize(query)
  {
    SanitizeUnfold(start);
    ConcatAssociative(written, piece, Sanitize(rest));
  }

  lemma SanitizeUnfold(s: string)
    requires s != ""
    ensures var t := FirstToken(s);
            Sanitize(s) == Promote(t).Text() + Sanitize(s[|t.Text()|..])
  {
    var t := FirstToken(s);
    assert PromoteAll(Lex(s)) == [Promote(t)] + PromoteAll(Lex(s[|t.Text()|..]));
  }

  // ---- lexing facts ---------------------------------------------------------------------------

  /** The lexer loses nothing. */
  lemma {:induction false} LexRender(s: string)
    ensures Render(Lex(s)) == s
    decreases |s|
  {
    if s != "" {
      var t := FirstToken(s);
      var r := s[|t.Text()|..];
      LexRender(r);
      LexStep(s, t, r);
      assert Lex(s)[1..] == Lex(r);
    }
  }

  /** A closed phrase ends at the same place whatever follows it, short of another quote. */
  lemma {:induction false} PhraseStable(s: string, x: string)
    requires PhraseLen(s) < |s| && !StartsWithQuote(x)
    ensures PhraseLen(s[..PhraseLen(s)] + x) == PhraseLen(s)
    decreases |s|
  {
    var n := PhraseLen(s);
    var y := s[..n] + x;
    if s[0] != '"' {
      PhraseStable(s[1..], x);
      DropOfTake(s, n, x, 1);
    } else if s[1] == '"' {
      PhraseStable(s[2..], x);
      DropOfTake(s, n, x, 2);
    }
  }

  lemma {:induction false} PhraseOfPlainText(b: string, y: string)
    requires '"' !in b && !StartsWithQuote(y)
    ensures PhraseLen(b + (['"'] + y)) == |b| + 1
    decreases |b|
  {
    var q := ['"'] + y;
    if b == "" {
      assert b + q == q;
    } else {
      PhraseOfPlainText(b[1..], y);
      assert (b + q)[1..] == b[1..] + q;
    }
  }

  /** A closed phrase directly followed by a quoted quote-free word is one longer phrase. */
  lemma {:induction false} PhraseJoin(s: string, x: string, m: nat)
    requires PhraseLen(s) < |s| && StartsWithQuote(x) && PhraseLen(x[1..]) == m
    ensures PhraseLen(s[..PhraseLen(s)] + x) == PhraseLen(s) + 1 + m
    decreases |s|
  {
    var n := PhraseLen(s);
    var z := s[..n] + x;
    if s[0] != '"' {
      PhraseJoin(s[1..], x, m);
      DropOfTake(s, n, x, 1);
    } else if s[1] == '"' {
      PhraseJoin(s[2..], x, m);
      DropOfTake(s, n, x, 2);
    } else {
      DropOfTake(s, n, x, 1);
      assert z[2..] == x[1..];
    }
  }

  lemma {:induction false} BareStable(w: string, x: string)
    requires forall i :: 0 <= i < |w| ==> !IsBreak(w[i])
    requires x != "" ==> IsBreak(x[0])
    ensures BareLen(w + x) == |w|
  {
    if w == "" {
      assert w + x == x;
    } else {
      BareStable(w[1..], x);
      assert (w + x)[1..] == w[1..] + x;
    }
  }

  /** Sanitising keeps a leading break, and opens with a quote only for a phrase or a promoted word. */
  lemma SanitizeHead(s: string)
    requires s != ""
    ensures Sanitize(s) != ""
    ensures IsBreak(s[0]) ==> Sanitize(s)[0] == s[0]
    ensures StartsWithQuote(Sanitize(s)) <==> FirstToken(s).Phrase? || FirstToken(s).Promotable()
  {
    SanitizeUnfold(s);
    assert !IsBreak('"');
  }

  lemma LexStep(z: string, t: Token, rest: string)
    requires z == t.Text() + rest && z != "" && FirstToken(z) == t
    ensures Lex(z) == [t] + Lex(rest)
  {
    assert z[|t.Text()|..] == rest;
  }

  /** The tokens after a phrase start with a break or a bare word: never another phrase. */
  lemma AfterPhrase(s: string)
    requires s != "" && FirstToken(s).Phrase?
    ensures var q := FirstToken(s).quoted;
            |q| < |s| ==> s[|q|] != '"' && q[1..] == s[1..][..PhraseLen(s[1..])] && PhraseLen(s[1..]) < |s[1..]|
  {
  }

  /** The tokens after a bare word start with a break. */
  lemma AfterBare(s: string)
    requires s != "" && FirstToken(s).Bare?
    ensures var w := FirstToken(s).word;
            |w| < |s| ==> IsBreak(s[|w|])
  {
  }

  // ---- main results ---------------------------------------------------------------------------

  /** Re-lexing the output gives the promoted tokens, with touching phrases fused, for every query. */
  lemma {:induction false} LexSanitize(s: string)
    ensures Lex(Sanitize(s)) == Merge(PromoteAll(Lex(s)))
    decreases |s|
  {
    if s != "" {
      var t := FirstToken(s);
      var r := s[|t.Text()|..];
      if t.Phrase? && r != "" && FirstToken(r).Promotable() {
        var r2 := r[|FirstToken(r).Text()|..];
        LexSanitize(r2);
        FusedStep(s, t, r, FirstToken(r), r2);
      } else {
        LexSanitize(r);
        PlainToken(s, t, r);
        SanitizeUnfold(s);
        LexStep(Sanitize(s), Promote(t), Sanitize(r));
        PlainMerge(s, t, r);
      }
    }
  }

  lemma BareFirst(w: string, x: string)
    requires w != "" && w[0] != '"' && forall i :: 0 <= i < |w| ==> !IsBreak(w[i])
    requires x != "" ==> IsBreak(x[0])
    ensures FirstToken(w + x) == Bare(w)
  {
    BareStable(w, x);
    assert (w + x)[..|w|] == w;
  }

  lemma PhraseFirst(q: string, x: string)
    requires StartsWithQuote(q) && PhraseLen(q[1..] + x) == |q| - 1
    ensures FirstToken(q + x) == Phrase(q)
  {
    assert (q + x)[1..] == q[1..] + x;
    assert (q + x)[..|q|] == q;
  }

  /** The promoted first token is the first token of the output, unless two phrases touch. */
  lemma PlainToken(s: string, t: Token, r: string)
    requires s != "" && t == FirstToken(s) && r == s[|t.Text()|..]
    requires !(t.Phrase? && r != "" && FirstToken(r).Promotable())
    ensures Sanitize(s) != "" && FirstToken(Sanitize(s)) == Promote(t)
  {
    var z := Sanitize(r);
    SanitizeUnfold(s);
    if r != "" {
      SanitizeHead(r);
    }
    PlainFirst(s, t, r, z);
  }

  lemma PlainFirst(s: string, t: Token, r: string, z: string)
    requires s != "" && t == FirstToken(s) && r == s[|t.Text()|..]
    requires r == "" <==> z == ""
    requires r != "" && IsBreak(r[0]) ==> z[0] == r[0]
    requires t.Phrase? ==> !StartsWithQuote(z)
    ensures FirstToken(Promote(t).Text() + z) == Promote(t)
  {
    match t
    case Break(_) =>
    case Bare(w) =>
      AfterBare(s);
      if t.Promotable() {
        QuotedWordFirst(w, Promote(t).quoted, z);
      } else {
        BareFirst(w, z);
      }
    case Phrase(q) =>
      AfterPhrase(s);
      if r == "" {
        assert z == "" && q[1..] + z == s[1..];
      } else {
        PhraseStable(s[1..], z);
      }
      PhraseFirst(q, z);
  }

  lemma QuotedWordFirst(w: string, p: string, z: string)
    requires '"' !in w && p == ['"'] + w + ['"'] && !StartsWithQuote(z)
    ensures FirstToken(p + z) == Phrase(p)
  {
    QuotedWordPhrase(w, p, z);
    ConcatTail(p, z);
    PhraseFirst(p, z);
  }

  lemma PlainMerge(s: string, t: Token, r: string)
    requires s != "" && t == FirstToken(s) && r == s[|t.Text()|..]
    requires !(t.Phrase? && r != "" && FirstToken(r).Promotable())
    ensures Merge(PromoteAll(Lex(s))) == [Promote(t)] + Merge(PromoteAll(Lex(r)))
  {
    var ps := PromoteAll(Lex(s));
    assert ps[1..] == PromoteAll(Lex(r));
    if r != "" {
      assert ps[1] == Promote(FirstToken(r));
      if t.Bare? {
        AfterBare(s);
      } else if t.Phrase? {
        AfterPhrase(s);
      }
    }
  }

  /** The fused case: a phrase directly followed by a word that gets wrapped. */
  lemma FusedStep(s: string, t: Token, r: string, b: Token, r2: string)
    requires s != "" && t == FirstToken(s) && t.Phrase? && r == s[|t.Text()|..]
    requires r != "" && b == FirstToken(r) && b.Promotable() && r2 == r[|b.Text()|..]
    requires Lex(Sanitize(r2)) == Merge(PromoteAll(Lex(r2)))
    ensures Lex(Sanitize(s)) == Merge(PromoteAll(Lex(s)))
  {
    var z := Sanitize(r2);
    SanitizeUnfold(s);
    SanitizeUnfold(r);
    if r2 != "" {
      SanitizeHead(r2);
    }
    FusedFirst(s, t, r, b, r2, z);
    LexStep(Sanitize(s), Phrase(t.quoted + Promote(b).quoted), z);
    FusedMerge(t, b, Lex(r2));
    assert Lex(s) == [t] + ([b] + Lex(r2));
  }

  lemma FusedMerge(t: Token, b: Token, ts: seq<Token>)
    requires t.Phrase? && b.Promotable()
    ensures Merge(PromoteAll([t] + ([b] + ts))) == [Phrase(t.quoted + Promote(b).quoted)] + Merge(PromoteAll(ts))
  {
    var ps := PromoteAll([t] + ([b] + ts));
    assert ps[0] == t && ps[1] == Promote(b);
    assert ps[2..] == PromoteAll(ts);
  }

  lemma FusedFirst(s: string, t: Token, r: string, b: Token, r2: string, z: string)
    requires s != "" && t == FirstToken(s) && t.Phrase? && r == s[|t.Text()|..]
    requires r != "" && b == FirstToken(r) && b.Promotable() && r2 == r[|b.Text()|..]
    requires r2 == "" <==> z == ""
    requires r2 != "" && IsBreak(r2[0]) ==> z[0] == r2[0]
    ensures var q := t.quoted + Promote(b).quoted;
            t.quoted + (Promote(b).quoted + z) == q + z && FirstToken(q + z) == Phrase(q)
  {
    AfterPhrase(s);
    AfterBare(r);
    JoinFirst(s[1..], t.quoted, b.word, Promote(b).quoted, z);
  }

  lemma JoinFirst(body: string, q: string, w: string, p: string, z: string)
    requires PhraseLen(body) < |body| && StartsWithQuote(q) && q[1..] == body[..PhraseLen(body)]
    requires '"' !in w && p == ['"'] + w + ['"'] && !StartsWithQuote(z)
    ensures q + (p + z) == (q + p) + z && FirstToken((q + p) + z) == Phrase(q + p)
  {
    QuotedWordPhrase(w, p, z);
    PhraseJoin(body, p + z, |w| + 1);
    ConcatTail(q, p);
    ConcatAssociative(q[1..], p, z);
    ConcatAssociative(q, p, z);
    PhraseFirst(q + p, z);
  }

  lemma QuotedWordPhrase(w: string, p: string, z: string)
    requires '"' !in w && p == ['"'] + w + ['"'] && !StartsWithQuote(z)
    ensures StartsWithQuote(p + z) && PhraseLen((p + z)[1..]) == |w| + 1
  {
    assert p[1..] == w + ['"'];
    ConcatTail(p, z);
    ConcatAssociative(w, ['"'], z);
    PhraseOfPlainText(w, z);
  }

  lemma {:induction false} MergeRender(ts: seq<Token>)
    ensures Render(Merge(ts)) == Render(ts)
    decreases |ts|
  {
    if |ts| >= 2 && ts[0].Phrase? && ts[1].Phrase? {
      MergeRender(ts[2..]);
      var p, q, z := ts[0].quoted, ts[1].quoted, Render(ts[2..]);
      assert ts[1..][1..] == ts[2..];
      assert Merge(ts)[1..] == Merge(ts[2..]);
      assert Render(ts) == p + (q + z);
      ConcatAssociative(p, q, z);
    } else if ts != [] {
      MergeRender(ts[1..]);
      assert Merge(ts)[1..] == Merge(ts[1..]);
    }
  }

  lemma {:induction false} MergeAddsNoPromotable(ts: seq<Token>)
    requires forall t <- ts :: !t.Promotable()
    ensures forall t <- Merge(ts) :: !t.Promotable()
    decreases |ts|
  {
    if |ts| >= 2 && ts[0].Phrase? && ts[1].Phrase? {
      MergeAddsNoPromotable(ts[2..]);
    } else if ts != [] {
      MergeAddsNoPromotable(ts[1..]);
    }
  }

  lemma {:induction false} PromoteNothing(ts: seq<Token>)
    requires forall t <- ts :: !t.Promotable()
    ensures PromoteAll(ts) == ts
  {
  }

  /** Sanitising twice is sanitising once, for every string. */
  lemma {:induction false} Idempotent(s: string)
    ensures Sanitize(Sanitize(s)) == Sanitize(s)
  {
    var ps := PromoteAll(Lex(s));
    LexSanitize(s);
    MergeRender(ps);
    MergeAddsNoPromotable(ps);
    PromoteNothing(Merge(ps));
  }

  lemma {:induction false} MergeShrinks(ts: seq<Token>)
    ensures Merge(ts) == ts || |Merge(ts)| < |ts|
    ensures Merge(ts) == ts <==> forall i :: 0 <= i < |ts| - 1 ==> !(ts[i].Phrase? && ts[i + 1].Phrase?)
    decreases |ts|
  {
    if |ts| >= 2 && ts[0].Phrase? && ts[1].Phrase? {
    } else if ts != [] {
      MergeShrinks(ts[1..]);
      assert ts == [ts[0]] + ts[1..];
      if Merge(ts) == ts {
        assert Merge(ts)[1..] == Merge(ts[1..]);
      }
      if i :| 0 <= i < |ts| - 1 && ts[i].Phrase? && ts[i + 1].Phrase? {
        assert ts[1..][i - 1].Phrase? && ts[1..][i - 1 + 1].Phrase?;
      }
    }
  }

  /** The lexer never yields two phrases in a row. */
  lemma {:induction false} NoTouchingPhrases(s: string, i: nat)
    requires i + 1 < |Lex(s)|
    ensures !(Lex(s)[i].Phrase? && Lex(s)[i + 1].Phrase?)
    decreases |s|
  {
    var t := FirstToken(s);
    var r := s[|t.Text()|..];
    if i > 0 {
      NoTouchingPhrases(r, i - 1);
    } else if t.Phrase? {
      AfterPhrase(s);
      assert Lex(s)[1] == Lex(r)[0] == FirstToken(r);
    }
  }

  /**
   The sanitised query means the promoted token sequence exactly when no phrase touches a
   promotable word.
   */
  lemma {:induction false} MeaningPreservedIff(s: string)
    ensures Lex(Sanitize(s)) == PromoteAll(Lex(s)) <==> !PhraseTouchesPromotable(Lex(s))
  {
    LexSanitize(s);
    MergeShrinks(PromoteAll(Lex(s)));
    TouchingAfterPromotion(s, Lex(s), PromoteAll(Lex(s)));
  }

  lemma TouchingAfterPromotion(s: string, ts: seq<Token>, ps: seq<Token>)
    requires ts == Lex(s) && ps == PromoteAll(ts)
    ensures PhraseTouchesPromotable(ts) <==>
            exists i :: 0 <= i < |ps| - 1 && ps[i].Phrase? && ps[i + 1].Phrase?
  {
    forall i | 0 <= i < |ps| - 1
      ensures (ps[i].Phrase? && ps[i + 1].Phrase?) <==> (ts[i].Phrase? && ts[i + 1].Promotable())
    {
      NoTouchingPhrases(s, i);
      if ts[i].Promotable() {
        BareThenBreak(s, i);
      }
    }
  }

  /** A bare word is followed by a break or by nothing. */
  lemma {:induction false} BareThenBreak(s: string, i: nat)
    requires i + 1 < |Lex(s)| && Lex(s)[i].Bare?
    ensures Lex(s)[i + 1].Break?
    decreases |s|
  {
    var t := FirstToken(s);
    var r := s[|t.Text()|..];
    if i > 0 {
      BareThenBreak(r, i - 1);
    } else {
      AfterBare(s);
      assert Lex(s)[1] == Lex(r)[0] == FirstToken(r);
    }
  }

  /** Exactly two characters are added per promoted word; nothing else changes. */
  lemma {:induction false} GrowsByTwoPerPromotion(s: string)
    ensures |Sanitize(s)| == |s| + 2 * CountPromotable(Lex(s))
    ensures Sanitize(s) == s <==> CountPromotable(Lex(s)) == 0
  {
    LexRender(s);
    RenderPromoted(Lex(s));
  }

  lemma {:induction false} RenderPromoted(ts: seq<Token>)
    ensures |Render(PromoteAll(ts))| == |Render(ts)| + 2 * CountPromotable(ts)
    ensures CountPromotable(ts) == 0 ==> Render(PromoteAll(ts)) == Render(ts)
  {
    if ts != [] {
      RenderPromoted(ts[1..]);
      assert PromoteAll(ts)[1..] == PromoteAll(ts[1..]);
    }
  }

  /** A query whose meaning does change: the closing quote and the added one read as an escape. */
  lemma {:induction false} TouchingExample()
    ensures var s := ['"', '"', '-'];
            Lex(s) == [Phrase(['"', '"']), Bare(['-'])] && Lex(Sanitize(s)) == [Phrase(['"', '"', '"', '-', '"'])]
  {
    var s, r := ['"', '"', '-'], ['-'];
    assert s[1..] == ['"', '-'] && s[2..] == r;
    assert FirstToken(s) == Phrase(['"', '"']);
    BareFirst(r, "");
    assert r + "" == r;
    LexStep(r, Bare(r), "");
    LexStep(s, FirstToken(s), r);
    LexSanitize(s);
    FusedMerge(FirstToken(s), Bare(r), []);
    assert Lex(s) == [FirstToken(s)] + ([Bare(r)] + []);
    assert PromoteAll([]) == [] && Merge([]) == [];
    assert ['"', '"'] + (['"'] + r + ['"']) == ['"', '"', '"', '-', '"'];
  }

  // ---- the output, piece by piece -----------------------------------------------------------------

  predicate Separator(c: char) {
    c == ' ' || c == '\t' || c == '\n' || c == '\r' || c == ':' || c == '(' || c == ')'
  }

  /** Printable ASCII other than the separators. */
  predicate WordChar(c: char) {
    '!' <= c <= '~' && c != ':' && c != '(' && c != ')'
  }

  /** A word up to a separator is wrapped exactly when it has a hyphen and no quote. */
  lemma SanitizeWord(w: string, rest: string)
    requires w != "" && w[0] != '"' && (forall c <- w :: WordChar(c)) && (rest != "" ==> Separator(rest[0]))
    ensures Sanitize(w + rest) == (if '-' in w && '"' !in w then ['"'] + w + ['"'] else w) + Sanitize(rest)
  {
    assert forall i :: 0 <= i < |w| ==> w[i] in w;
    BareStable(w, rest);
    assert (w + rest)[..|w|] == w && (w + rest)[|w|..] == rest;
    assert w[0] in w;
    SanitizeUnfold(w + rest);
  }

  /** Whitespace, column filters and parentheses are copied, and what follows them is read afresh. */
  lemma SanitizeSeparator(c: char, rest: string)
    requires Separator(c)
    ensures Sanitize([c] + rest) == [c] + Sanitize(rest)
  {
    assert ([c] + rest)[1..] == rest;
    SanitizeUnfold([c] + rest);
  }

  /** A quoted span is copied as it is, hyphens and separators included. */
  lemma SanitizeQuoted(p: string, rest: string)
    requires '"' !in p && !StartsWithQuote(rest)
    ensures Sanitize(['"'] + p + ['"'] + rest) == ['"'] + p + ['"'] + Sanitize(rest)
  {
    var q := ['"'] + p + ['"'];
    PhraseOfPlainText(p, rest);
    assert (q + rest)[1..] == p + (['"'] + rest);
    assert (q + rest)[..|q|] == q && (q + rest)[|q|..] == rest;
    SanitizeUnfold(q + rest);
  }

  /** A hyphenated word on its own is wrapped. */
  lemma SanitizeHyphenated(w: string)
    requires (forall c <- w :: WordChar(c)) && '"' !in w && '-' in w
    ensures Sanitize(w) == ['"'] + w + ['"']
  {
    assert w[0] in w && w + "" == w;
    SanitizeWord(w, "");
    assert Sanitize("") == "";
  }

  /** The documented column filter: `name:smoke-api` becomes `name:"smoke-api"`. */
  lemma ColumnFilter(column: string, w: string)
    requires column != "" && (forall c <- column :: WordChar(c)) && '"' !in column && '-' !in column
    requires (forall c <- w :: WordChar(c)) && '"' !in w && '-' in w
    ensures Sanitize(column + ([':'] + w)) == column + ([':'] + (['"'] + w + ['"']))
  {
    SanitizeHyphenated(w);
    SanitizeSeparator(':', w);
    assert column[0] in column;
    SanitizeWord(column, [':'] + w);
  }
}
