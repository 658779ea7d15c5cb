/**
 Compilation of a user glob (`*` is its only wildcard) to an SQL `LIKE … ESCAPE '\'` pattern,
 proved to preserve meaning against SQLite's LIKE semantics.
 */
module LikePattern {
  import opened Common

  const ESCAPE := '\\'

  // ---- the compilation ------------------------------------------------------------------------

  /** `str::replace` with a single-character pattern. */
  function Replace(s: string, c: char, to: string): (r: string) {
    if s == "" then "" else (if s[0] == c then to else [s[0]]) + Replace(s[1..], c, to)
  }

  /** The source's chain: escape the escape character first, then `%`, then `_`, then translate `*`. */
  function CompileGlob(glob: string): (pattern: string) {
    Replace(Replace(Replace(Replace(glob, '\\', [ESCAPE, '\\']), '%', [ESCAPE, '%']), '_', [ESCAPE, '_']), '*', ['%'])
  }

  /** The same translation read one character at a time. */
  function EscapeChar(c: char): (r: string) {
    if c == '*' then ['%']
    else if c == '\\' || c == '%' || c == '_' then [ESCAPE, c]
    else [c]
  }

  function EscapeEach(glob: string): (pattern: string) {
    if glob == "" then "" else EscapeChar(glob[0]) + EscapeEach(glob[1..])
  }

  lemma {:induction false} ReplaceConcat(a: string, b: string, c: char, to: string)
    ensures Replace(a + b, c, to) == Replace(a, c, to) + Replace(b, c, to)
  {
    if a == "" {
      assert a + b == b;
    } else {
      ReplaceConcat(a[1..], b, c, to);
      ConcatTail(a, b);
      ConcatAssociative(if a[0] == c then to else [a[0]], Replace(a[1..], c, to), Replace(b, c, to));
    }
  }

  lemma ReplaceShort(x: char, y: char, c: char, to: string)
    ensures Replace([x], c, to) == if x == c then to else [x]
    ensures Replace([x, y], c, to) == (if x == c then to else [x]) + (if y == c then to else [y])
  {
    assert [x][1..] == "";
    assert [y][1..] == "";
    assert [x, y][1..] == [y];
    assert Replace([y], c, to) == if y == c then to else [y];
  }

  /** One character goes through the four replacements exactly as `EscapeChar` says. */
  lemma CompileChar(c: char)
    ensures CompileGlob([c]) == EscapeChar(c)
  {
    ReplaceShort(c, c, '\\', [ESCAPE, '\\']);
    ReplaceShort(c, c, '%', [ESCAPE, '%']);
    ReplaceShort(c, c, '_', [ESCAPE, '_']);
    ReplaceShort(c, c, '*', ['%']);
    ReplaceShort(ESCAPE, c, '%', [ESCAPE, '%']);
    ReplaceShort(ESCAPE, c, '_', [ESCAPE, '_']);
    ReplaceShort(ESCAPE, c, '*', ['%']);
    assert forall x: char, y: char :: [x] + [y] == [x, y];
  }

  lemma CompileConcat(a: string, b: string)
    ensures CompileGlob(a + b) == CompileGlob(a) + CompileGlob(b)
  {
    var a1, b1 := Replace(a, '\\', [ESCAPE, '\\']), Replace(b, '\\', [ESCAPE, '\\']);
    var a2, b2 := Replace(a1, '%', [ESCAPE, '%']), Replace(b1, '%', [ESCAPE, '%']);
    var a3, b3 := Replace(a2, '_', [ESCAPE, '_']), Replace(b2, '_', [ESCAPE, '_']);
    ReplaceConcat(a, b, '\\', [ESCAPE, '\\']);
    ReplaceConcat(a1, b1, '%', [ESCAPE, '%']);
    ReplaceConcat(a2, b2, '_', [ESCAPE, '_']);
    ReplaceConcat(a3, b3, '*', ['%']);
  }

  /** The four sequential replacements equal one pass over the characters. */
  lemma {:induction false} CompileIsSinglePass(glob: string)
    ensures CompileGlob(glob) == EscapeEach(glob)
  {
    if glob != "" {
      CompileConcat([glob[0]], glob[1..]);
      assert [glob[0]] + glob[1..] == glob;
      CompileChar(glob[0]);
      CompileIsSinglePass(glob[1..]);
    }
  }

  // ---- LIKE and glob meaning ------------------------------------------------------------------

  /** SQLite's LIKE compares ASCII letters without case, everything else exactly. */
  function Fold(c: char): (f: char) {
    if 'A' <= c <= 'Z' then ((c as int) + 32) as char else c
  }

  /** SQLite's LIKE with an escape character: `%` any text, `_` any one character. */
  predicate Like(pattern: string, text: string)
    decreases |pattern|
  {
    if pattern == "" then text == ""
    else if pattern[0] == '%' then exists k :: 0 <= k <= |text| && Like(pattern[1..], text[k..])
    else if pattern[0] == ESCAPE then
      |pattern| >= 2 && text != "" && Fold(pattern[1]) == Fold(text[0]) && Like(pattern[2..], text[1..])
    else text != "" && (pattern[0] == '_' || Fold(pattern[0]) == Fold(text[0])) && Like(pattern[1..], text[1..])
  }

  function Flatten(pieces: seq<string>): (s: string) {
    if pieces == [] then "" else pieces[0] + Flatten(pieces[1..])
  }

  /** `text` cut into one piece per glob character, a star taking any piece and a letter just itself. */
  ghost predicate Cuts(glob: string, pieces: seq<string>, text: string) {
    && |pieces| == |glob|
    && (forall i :: 0 <= i < |glob| && glob[i] != '*' ==>
          |pieces[i]| == 1 && Fold(pieces[i][0]) == Fold(glob[i]))
    && Flatten(pieces) == text
  }

  /** What the user means by a glob. */
  ghost predicate GlobMatches(glob: string, text: string) {
    exists pieces :: Cuts(glob, pieces, text)
  }

  lemma GlobCons(glob: string, piece: string, rest: string)
    requires glob != "" && GlobMatches(glob[1..], rest)
    requires glob[0] != '*' ==> |piece| == 1 && Fold(piece[0]) == Fold(glob[0])
    ensures GlobMatches(glob, piece + rest)
  {
    var pieces :| Cuts(glob[1..], pieces, rest);
    var all := [piece] + pieces;
    assert all[1..] == pieces;
    assert Cuts(glob, all, piece + rest);
  }

  lemma GlobUncons(glob: string, text: string) returns (k: nat)
    requires glob != "" && GlobMatches(glob, text)
    ensures k <= |text| && GlobMatches(glob[1..], text[k..])
    ensures glob[0] != '*' ==> k == 1 && Fold(text[0]) == Fold(glob[0])
  {
    var pieces :| Cuts(glob, pieces, text);
    k := |pieces[0]|;
    assert text == pieces[0] + Flatten(pieces[1..]);
    assert text[k..] == Flatten(pieces[1..]);
    assert Cuts(glob[1..], pieces[1..], text[k..]);
  }

  /** For every glob and handle, LIKE on the escaped pattern holds exactly when the glob matches. */
  lemma {:induction false} EscapePreservesMeaning(glob: string, text: string)
    ensures Like(EscapeEach(glob), text) <==> GlobMatches(glob, text)
    decreases |glob|
  {
    var p := EscapeEach(glob);
    if glob == "" {
      assert text == "" ==> Cuts(glob, [], text);
      assert forall pieces: seq<string> :: |pieces| == 0 ==> Flatten(pieces) == "";
    } else {
      var q := EscapeEach(glob[1..]);
      LikeHead(glob, text);
      if Like(p, text) {
        if glob[0] == '*' {
          var k :| 0 <= k <= |text| && Like(q, text[k..]);
          EscapePreservesMeaning(glob[1..], text[k..]);
          GlobCons(glob, text[..k], text[k..]);
          assert text[..k] + text[k..] == text;
        } else {
          EscapePreservesMeaning(glob[1..], text[1..]);
          GlobCons(glob, text[..1], text[1..]);
          assert text[..1] + text[1..] == text;
        }
      }
      if GlobMatches(glob, text) {
        var k := GlobUncons(glob, text);
        EscapePreservesMeaning(glob[1..], text[k..]);
      }
    }
  }

  /** How LIKE reads the first escaped character. */
  lemma LikeHead(glob: string, text: string)
    requires glob != ""
    ensures var q := EscapeEach(glob[1..]);
            Like(EscapeEach(glob), text) <==>
            if glob[0] == '*' then exists k :: 0 <= k <= |text| && Like(q, text[k..])
            else text != "" && Fold(glob[0]) == Fold(text[0]) && Like(q, text[1..])
  {
    var p, q := EscapeEach(glob), EscapeEach(glob[1..]);
    if |EscapeChar(glob[0])| == 1 {
      assert p[1..] == q;
    } else {
      assert p[2..] == q;
    }
  }

  /** The main result for the compilation as the source performs it. */
  lemma {:induction false} CompilePreservesMeaning(glob: string, text: string)
    ensures Like(CompileGlob(glob), text) <==> GlobMatches(glob, text)
  {
    CompileIsSinglePass(glob);
    EscapePreservesMeaning(glob, text);
  }

  /** A glob without a star names one handle up to ASCII case: no `%` or `_` in it is a wildcard. */
  lemma {:induction false} StarFreeGlobIsLiteral(glob: string, text: string)
    requires '*' !in glob
    ensures GlobMatches(glob, text) <==>
            |text| == |glob| && forall i :: 0 <= i < |glob| ==> Fold(text[i]) == Fold(glob[i])
    decreases |glob|
  {
    if glob == "" {
      assert text == "" ==> Cuts(glob, [], text);
    } else if text == "" {
      if GlobMatches(glob, text) {
        var k := GlobUncons(glob, text);
      }
    } else {
      StarFreeGlobIsLiteral(glob[1..], text[1..]);
      assert text[..1] + text[1..] == text;
      if Fold(text[0]) == Fold(glob[0]) && GlobMatches(glob[1..], text[1..]) {
        GlobCons(glob, text[..1], text[1..]);
      }
      if GlobMatches(glob, text) {
        var k := GlobUncons(glob, text);
      }
      assert forall i :: 0 < i < |glob| ==> glob[i] == glob[1..][i - 1];
      assert forall i :: 0 < i < |text| ==> text[i] == text[1..][i - 1];
    }
  }

  /** Two characters match up to case exactly when they are equal or one ASCII letter in both cases. */
  lemma FoldIff(c: char, d: char)
    ensures Fold(c) == Fold(d) <==>
            || c == d
            || ('A' <= c <= 'Z' && d as int == c as int + 32)
            || ('A' <= d <= 'Z' && c as int == d as int + 32)
  {
  }
}
