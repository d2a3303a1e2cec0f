/** Escaping of the brackets in an element's `name` so that the name can sit
    inside a `/`-separated key path (lib/element_names.js). */
module ElementNames {
  import opened Text

  const LEFT_BRACKET: char := '['
  const RIGHT_BRACKET: char := ']'
  const LEFT_BRACKET_REPLACEMENT: string := "-GILB-"
  const RIGHT_BRACKET_REPLACEMENT: string := "-GIRB-"

  /** `s.replace(/c/g, rep)`: every occurrence of the character c becomes rep. */
  function ReplaceChar(s: string, c: char, rep: string): (r: string)
    decreases |s|
  {
    if s == [] then []
    else (if s[0] == c then rep else [s[0]]) + ReplaceChar(s[1..], c, rep)
  }

  /** True when pat occurs in s as a contiguous substring. */
  predicate Contains(s: string, pat: string)
    requires pat != []
    decreases |s|
  {
    |s| >= |pat| && (s[..|pat|] == pat || Contains(s[1..], pat))
  }

  /** `s.replace(new RegExp(pat, 'g'), rep)` for a pattern without regular
      expression metacharacters: scanning left to right, each non-overlapping
      occurrence of pat becomes rep. */
  function ReplaceAll(s: string, pat: string, rep: string): (r: string)
    requires pat != []
    ensures |rep| <= |pat| ==> |r| <= |s|
    decreases |s|
  {
    if |s| < |pat| then s
    else if s[..|pat|] == pat then rep + ReplaceAll(s[|pat|..], pat, rep)
    else [s[0]] + ReplaceAll(s[1..], pat, rep)
  }

  /** What one bracket, or any other character, escapes to. */
  function EscapeChar(c: char): string {
    if c == LEFT_BRACKET then LEFT_BRACKET_REPLACEMENT
    else if c == RIGHT_BRACKET then RIGHT_BRACKET_REPLACEMENT
    else [c]
  }

  /** Reference definition of escaping: one pass, character by character. */
  function EscapeEach(s: string): string
    decreases |s|
  {
    if s == [] then [] else EscapeChar(s[0]) + EscapeEach(s[1..])
  }

  /** Escaping only adds the characters of the markers. */
  lemma {:induction false} EscapeAddsOnly(s: string, c: char)
    requires c !in s && c !in LEFT_BRACKET_REPLACEMENT && c !in RIGHT_BRACKET_REPLACEMENT
    ensures c !in EscapeEach(s)
    decreases |s|
  {
    if s != [] {
      assert c !in EscapeChar(s[0]);
      assert c !in s[1..];
      EscapeAddsOnly(s[1..], c);
    }
  }

  /** The number of bracket characters in s. */
  function Brackets(s: string): nat
    decreases |s|
  {
    if s == [] then 0
    else (if s[0] == LEFT_BRACKET || s[0] == RIGHT_BRACKET then 1 else 0) + Brackets(s[1..])
  }

  /** `escape`: first every `[` becomes `-GILB-`, then every `]` becomes `-GIRB-`. */
  function Escape(s: string): (r: string)
    ensures r == EscapeEach(s)
    ensures LEFT_BRACKET !in r && RIGHT_BRACKET !in r
    ensures |r| == |s| + 5 * Brackets(s)
    ensures Brackets(s) == 0 ==> r == s
  {
    TwoPassesAreOne(s);
    EscapeEachFacts(s);
    ReplaceChar(ReplaceChar(s, LEFT_BRACKET, LEFT_BRACKET_REPLACEMENT),
                RIGHT_BRACKET, RIGHT_BRACKET_REPLACEMENT)
  }

  /** `unescape`: first every `-GILB-` becomes `[`, then every `-GIRB-` becomes `]`. */
  function Unescape(s: string): (r: string)
    ensures |r| <= |s|
  {
    ReplaceAll(ReplaceAll(s, LEFT_BRACKET_REPLACEMENT, [LEFT_BRACKET]),
               RIGHT_BRACKET_REPLACEMENT, [RIGHT_BRACKET])
  }

  /** `unescape` leaves a string without either marker unchanged. */
  lemma UnescapeMarkerFree(s: string)
    requires !Contains(s, LEFT_BRACKET_REPLACEMENT) && !Contains(s, RIGHT_BRACKET_REPLACEMENT)
    ensures Unescape(s) == s
  {
    ReplaceAllAbsent(s, LEFT_BRACKET_REPLACEMENT, [LEFT_BRACKET]);
    ReplaceAllAbsent(s, RIGHT_BRACKET_REPLACEMENT, [RIGHT_BRACKET]);
  }

  lemma {:induction false} ReplaceCharConcat(a: string, b: string, c: char, rep: string)
    ensures ReplaceChar(a + b, c, rep) == ReplaceChar(a, c, rep) + ReplaceChar(b, c, rep)
    decreases |a|
  {
    if a != [] {
      ReplaceCharConcat(a[1..], b, c, rep);
      assert (a + b)[0] == a[0];
      assert (a + b)[1..] == a[1..] + b;
      AppendAssoc(if a[0] == c then rep else [a[0]], ReplaceChar(a[1..], c, rep), ReplaceChar(b, c, rep));
    } else {
      assert a + b == b;
    }
  }

  lemma {:induction false} ReplaceCharAbsent(s: string, c: char, rep: string)
    requires c !in s
    ensures ReplaceChar(s, c, rep) == s
    decreases |s|
  {
    if s != [] {
      ReplaceCharAbsent(s[1..], c, rep);
      assert [s[0]] + s[1..] == s;
    }
  }

  lemma {:induction false} TwoPassesAreOne(s: string)
    ensures ReplaceChar(ReplaceChar(s, LEFT_BRACKET, LEFT_BRACKET_REPLACEMENT),
                        RIGHT_BRACKET, RIGHT_BRACKET_REPLACEMENT) == EscapeEach(s)
    decreases |s|
  {
    if s != [] {
      var head := if s[0] == LEFT_BRACKET then LEFT_BRACKET_REPLACEMENT else [s[0]];
      var tail := ReplaceChar(s[1..], LEFT_BRACKET, LEFT_BRACKET_REPLACEMENT);
      ReplaceCharConcat(head, tail, RIGHT_BRACKET, RIGHT_BRACKET_REPLACEMENT);
      TwoPassesAreOne(s[1..]);
      ReplaceCharAbsent(LEFT_BRACKET_REPLACEMENT, RIGHT_BRACKET, RIGHT_BRACKET_REPLACEMENT);
      if s[0] != LEFT_BRACKET {
        assert ReplaceChar(head, RIGHT_BRACKET, RIGHT_BRACKET_REPLACEMENT) == EscapeChar(s[0]);
      }
    }
  }

  lemma {:induction false} EscapeEachFacts(s: string)
    ensures LEFT_BRACKET !in EscapeEach(s) && RIGHT_BRACKET !in EscapeEach(s)
    ensures |EscapeEach(s)| == |s| + 5 * Brackets(s)
    ensures Brackets(s) == 0 ==> EscapeEach(s) == s
    decreases |s|
  {
    if s != [] {
      EscapeEachFacts(s[1..]);
      assert [s[0]] + s[1..] == s;
    }
  }

  /** A string without pat is left alone by ReplaceAll. */
  lemma {:induction false} ReplaceAllAbsent(s: string, pat: string, rep: string)
    requires pat != [] && !Contains(s, pat)
    ensures ReplaceAll(s, pat, rep) == s
    decreases |s|
  {
    if |s| >= |pat| {
      ReplaceAllAbsent(s[1..], pat, rep);
      assert [s[0]] + s[1..] == s;
    }
  }

  /** pat occurs in s starting at position i. */
  predicate MatchAt(s: string, pat: string, i: nat) {
    i + |pat| <= |s| && s[i..i + |pat|] == pat
  }

  /** When no occurrence of pat starts inside the prefix p, ReplaceAll copies p. */
  lemma {:induction false} ReplaceAllSkipsPrefix(p: string, t: string, pat: string, rep: string)
    requires pat != []
    requires forall i: nat :: i < |p| ==> !MatchAt(p + t, pat, i)
    ensures ReplaceAll(p + t, pat, rep) == p + ReplaceAll(t, pat, rep)
    decreases |p|
  {
    if p == [] {
      assert p + t == t;
    } else {
      var s := p + t;
      assert s[1..] == p[1..] + t;
      forall i: nat | i < |p[1..]|
        ensures !MatchAt(p[1..] + t, pat, i)
      {
        assert !MatchAt(s, pat, i + 1);
        if i + |pat| <= |p[1..] + t| {
          assert (p[1..] + t)[i..i + |pat|] == s[i + 1..i + 1 + |pat|];
        }
      }
      ReplaceAllSkipsPrefix(p[1..], t, pat, rep);
      assert !MatchAt(s, pat, 0);
      if |s| < |pat| {
        assert |t| < |pat|;
        assert ReplaceAll(t, pat, rep) == t;
        assert ReplaceAll(p[1..] + t, pat, rep) == p[1..] + t;
        AppendAssoc([p[0]], p[1..], t);
        assert [p[0]] + p[1..] == p;
      } else {
        assert s[0..0 + |pat|] != pat;
        assert s[..|pat|] == s[0..0 + |pat|];
        assert [p[0]] + ReplaceAll(s[1..], pat, rep) == [p[0]] + (p[1..] + ReplaceAll(t, pat, rep));
        AppendAssoc([p[0]], p[1..], ReplaceAll(t, pat, rep));
        assert [p[0]] + p[1..] == p;
      }
    }
  }

  /** An escaped string cannot start with letters that were not at the start of
      the original: the first character of an escaped bracket is `-`. */
  lemma {:induction false} EscapedPrefix(t: string, w: string)
    requires '-' !in w
    requires |EscapeEach(t)| >= |w| && EscapeEach(t)[..|w|] == w
    ensures |t| >= |w| && t[..|w|] == w
    decreases |w|
  {
    if w != [] {
      assert t != [];
      var e := EscapeEach(t);
      assert e == EscapeChar(t[0]) + EscapeEach(t[1..]);
      assert e[0] == w[0];
      assert t[0] != LEFT_BRACKET && t[0] != RIGHT_BRACKET;
      assert e == [t[0]] + EscapeEach(t[1..]);
      assert EscapeEach(t[1..])[..|w| - 1] == w[1..];
      EscapedPrefix(t[1..], w[1..]);
      assert t[..|w|] == [t[0]] + t[1..][..|w| - 1];
    }
  }

  lemma ContainsTail(s: string, pat: string)
    requires pat != [] && s != [] && Contains(s[1..], pat)
    ensures Contains(s, pat)
  {
  }

  /** Names on which `unescape` undoes `escape`: no `-`, and no `GILB` that an
      escaped `]` or `[` in front of it could turn into a `-GILB-` marker. */
  predicate RoundTripSafe(s: string) {
    '-' !in s && !Contains(s, "GILB")
  }

  /** The first pass of `unescape` over an escaped safe name restores every `[`
      and leaves the `]` markers in place. */
  lemma {:induction false} FirstPass(s: string)
    requires RoundTripSafe(s)
    ensures ReplaceAll(EscapeEach(s), LEFT_BRACKET_REPLACEMENT, [LEFT_BRACKET])
         == ReplaceChar(s, RIGHT_BRACKET, RIGHT_BRACKET_REPLACEMENT)
    decreases |s|
  {
    if s != [] {
      var rest := s[1..];
      assert RoundTripSafe(rest) by {
        if Contains(rest, "GILB") { ContainsTail(s, "GILB"); }
      }
      FirstPass(rest);
      assert EscapeEach(s) == EscapeChar(s[0]) + EscapeEach(rest);
      assert ReplaceChar(s, RIGHT_BRACKET, RIGHT_BRACKET_REPLACEMENT)
          == (if s[0] == RIGHT_BRACKET then RIGHT_BRACKET_REPLACEMENT else [s[0]])
             + ReplaceChar(rest, RIGHT_BRACKET, RIGHT_BRACKET_REPLACEMENT);
      if s[0] == LEFT_BRACKET {
        FirstPassLeft(EscapeEach(rest));
      } else if s[0] == RIGHT_BRACKET {
        assert !(|EscapeEach(rest)| >= 5 && EscapeEach(rest)[..5] == "GILB-") by {
          if |EscapeEach(rest)| >= 5 && EscapeEach(rest)[..5] == "GILB-" {
            assert EscapeEach(rest)[..4] == "GILB";
            EscapedPrefix(rest, "GILB");
          }
        }
        TrailingDashNoMatch(EscapeEach(rest));
        FirstPassRight(EscapeEach(rest));
      } else {
        FirstPassOther(s[0], EscapeEach(rest));
      }
    }
  }

  lemma FirstPassLeft(t: string)
    ensures ReplaceAll(LEFT_BRACKET_REPLACEMENT + t, LEFT_BRACKET_REPLACEMENT, [LEFT_BRACKET])
         == [LEFT_BRACKET] + ReplaceAll(t, LEFT_BRACKET_REPLACEMENT, [LEFT_BRACKET])
  {
    var LB := LEFT_BRACKET_REPLACEMENT;
    assert (LB + t)[..|LB|] == LB;
    assert (LB + t)[|LB|..] == t;
  }

  lemma FirstPassOther(c: char, t: string)
    requires c != '-'
    ensures ReplaceAll([c] + t, LEFT_BRACKET_REPLACEMENT, [LEFT_BRACKET])
         == [c] + ReplaceAll(t, LEFT_BRACKET_REPLACEMENT, [LEFT_BRACKET])
  {
    var LB := LEFT_BRACKET_REPLACEMENT;
    assert !MatchAt([c] + t, LB, 0) by {
      if |LB| <= |[c] + t| { assert ([c] + t)[0..|LB|][0] == c; }
    }
    ReplaceAllSkipsPrefix([c], t, LB, [LEFT_BRACKET]);
  }

  lemma MatchAtChar(u: string, pat: string, i: nat, k: nat)
    requires MatchAt(u, pat, i) && k < |pat|
    ensures u[i + k] == pat[k]
  {
    assert u[i..i + |pat|][k] == u[i + k];
  }

  /** Behind a `-GIRB-` marker a `-GILB-` can only start at its trailing dash,
      which needs the rest to begin with `GILB-`. */
  lemma FirstPassRight(t: string)
    requires !MatchAt("-" + t, LEFT_BRACKET_REPLACEMENT, 0)
    ensures ReplaceAll(RIGHT_BRACKET_REPLACEMENT + t, LEFT_BRACKET_REPLACEMENT, [LEFT_BRACKET])
         == RIGHT_BRACKET_REPLACEMENT + ReplaceAll(t, LEFT_BRACKET_REPLACEMENT, [LEFT_BRACKET])
  {
    var LB, RB := LEFT_BRACKET_REPLACEMENT, RIGHT_BRACKET_REPLACEMENT;
    var p, q := RB[..5], "-";
    assert RB == p + q;
    MarkerLettersNoMatch(q + t);
    ReplaceAllSkipsTwo(p, q, t, LB, [LEFT_BRACKET]);
  }

  /** Two prefixes in a row, neither starting an occurrence of pat, are copied. */
  lemma ReplaceAllSkipsTwo(p: string, q: string, t: string, pat: string, rep: string)
    requires pat != []
    requires forall i: nat :: i < |p| ==> !MatchAt(p + (q + t), pat, i)
    requires forall i: nat :: i < |q| ==> !MatchAt(q + t, pat, i)
    ensures ReplaceAll((p + q) + t, pat, rep) == (p + q) + ReplaceAll(t, pat, rep)
  {
    ReplaceAllSkipsPrefix(p, q + t, pat, rep);
    ReplaceAllSkipsPrefix(q, t, pat, rep);
    assert (p + q) + t == p + (q + t);
  }

  /** No `-GILB-` starts within the first five characters of `-GIRB-`. */
  lemma MarkerLettersNoMatch(d: string)
    ensures forall i: nat :: i < 5 ==> !MatchAt(RIGHT_BRACKET_REPLACEMENT[..5] + d, LEFT_BRACKET_REPLACEMENT, i)
  {
    var LB, p := LEFT_BRACKET_REPLACEMENT, RIGHT_BRACKET_REPLACEMENT[..5];
    forall i: nat | i < |p|
      ensures !MatchAt(p + d, LB, i)
    {
      if i + |LB| <= |p + d| {
        var w := (p + d)[i..i + |LB|];
        if i == 0 { assert w[3] == 'R'; } else { assert w[0] == p[i]; }
      }
    }
  }

  lemma TrailingDashNoMatch(t: string)
    requires !(|t| >= 5 && t[..5] == "GILB-")
    ensures !MatchAt("-" + t, LEFT_BRACKET_REPLACEMENT, 0)
  {
    var LB, d := LEFT_BRACKET_REPLACEMENT, "-" + t;
    if |LB| <= |d| {
      assert d[..6][1..] == t[..5];
      assert LB[1..] == "GILB-";
    }
  }

  /** The second pass turns every `-GIRB-` marker of a `-`-free name back into `]`. */
  lemma {:induction false} SecondPass(s: string)
    requires '-' !in s
    ensures ReplaceAll(ReplaceChar(s, RIGHT_BRACKET, RIGHT_BRACKET_REPLACEMENT),
                       RIGHT_BRACKET_REPLACEMENT, [RIGHT_BRACKET]) == s
    decreases |s|
  {
    var RB := RIGHT_BRACKET_REPLACEMENT;
    if s != [] {
      SecondPass(s[1..]);
      var M := ReplaceChar(s[1..], RIGHT_BRACKET, RB);
      if s[0] == RIGHT_BRACKET {
        assert (RB + M)[..|RB|] == RB;
        assert (RB + M)[|RB|..] == M;
      } else {
        assert !MatchAt([s[0]] + M, RB, 0) by {
          if |RB| <= |[s[0]] + M| { assert ([s[0]] + M)[0..|RB|][0] == s[0]; }
        }
        ReplaceAllSkipsPrefix([s[0]], M, RB, [RIGHT_BRACKET]);
      }
      assert [s[0]] + s[1..] == s;
    }
  }

  /** `unescape(escape(s)) == s` for names without `-` and without `GILB`. */
  lemma UnescapeEscape(s: string)
    requires RoundTripSafe(s)
    ensures Unescape(Escape(s)) == s
  {
    FirstPass(s);
    SecondPass(s);
  }

  /** The first pass of `unescape` over `-GIRB-GILB-GILB-`: the `-GILB-`
      that starts at the first marker's trailing dash is replaced. */
  lemma MarkerTextFirstPass()
    ensures ReplaceAll(RIGHT_BRACKET_REPLACEMENT + "GILB" + LEFT_BRACKET_REPLACEMENT,
                       LEFT_BRACKET_REPLACEMENT, [LEFT_BRACKET]) == "-GIRB[GILB-"
  {
    var LB, RB := LEFT_BRACKET_REPLACEMENT, RIGHT_BRACKET_REPLACEMENT;
    var mid := "GILB-";
    var e := RB + mid[..4] + LB;
    var p := RB[..5];
    assert mid[..4] == "GILB";
    assert e == p + (LB + mid);
    forall i: nat | i < |p| ensures !MatchAt(p + (LB + mid), LB, i) {
      if i + 6 <= |p + (LB + mid)| {
        var w := (p + (LB + mid))[i..i + 6];
        if i == 0 { assert w[3] == 'R'; } else { assert w[0] == p[i]; }
      }
    }
    ReplaceAllSkipsPrefix(p, LB + mid, LB, [LEFT_BRACKET]);
    FirstPassLeft(mid);
    assert p + ([LEFT_BRACKET] + mid) == "-GIRB[GILB-";
  }

  /** The second pass finds no `-GIRB-` in `-GIRB[GILB-`. */
  lemma MarkerTextSecondPass()
    ensures ReplaceAll("-GIRB[GILB-", RIGHT_BRACKET_REPLACEMENT, [RIGHT_BRACKET]) == "-GIRB[GILB-"
  {
    var RB := RIGHT_BRACKET_REPLACEMENT;
    var m := "-GIRB[GILB-";
    forall i: nat | i < |m| ensures !MatchAt(m + [], RB, i) {
      if i + 6 <= |m + []| {
        var w := (m + [])[i..i + 6];
        if i == 0 { assert w[5] == '['; } else { assert w[0] == m[i]; }
      }
    }
    ReplaceAllSkipsPrefix(m, [], RB, [RIGHT_BRACKET]);
    assert m + [] == m;
  }

  /** What the marker tokens cannot guard against: `]GILB[` escapes to
      `-GIRB-GILB-GILB-`, in which the trailing dash of the first marker starts
      a `-GILB-`, so unescaping gives `-GIRB[GILB-` back. */
  lemma RoundTripFailsOnMarkerText()
    ensures Escape("]GILB[") == RIGHT_BRACKET_REPLACEMENT + "GILB" + LEFT_BRACKET_REPLACEMENT
    ensures Unescape(Escape("]GILB[")) == "-GIRB[GILB-"
  {
    MarkerTextEscapes();
    var e := RIGHT_BRACKET_REPLACEMENT + "GILB" + LEFT_BRACKET_REPLACEMENT;
    MarkerTextFirstPass();
    MarkerTextSecondPass();
    assert Unescape(e) == "-GIRB[GILB-";
  }

  lemma MarkerTextEscapes()
    ensures Escape("]GILB[") == RIGHT_BRACKET_REPLACEMENT + "GILB" + LEFT_BRACKET_REPLACEMENT
  {
    var mid := "GILB";
    assert LEFT_BRACKET !in mid && RIGHT_BRACKET !in mid;
    EscapeBracketed(RIGHT_BRACKET, mid, LEFT_BRACKET);
    assert [RIGHT_BRACKET] + mid + [LEFT_BRACKET] == "]GILB[";
    assert EscapeChar(RIGHT_BRACKET) == RIGHT_BRACKET_REPLACEMENT;
    assert EscapeChar(LEFT_BRACKET) == LEFT_BRACKET_REPLACEMENT;
  }

  lemma {:induction false} EscapeEachConcat(a: string, b: string)
    ensures EscapeEach(a + b) == EscapeEach(a) + EscapeEach(b)
    decreases |a|
  {
    if a == [] {
      assert a + b == b;
    } else {
      assert (a + b)[0] == a[0];
      assert (a + b)[1..] == a[1..] + b;
      EscapeEachConcat(a[1..], b);
      AppendAssoc(EscapeChar(a[0]), EscapeEach(a[1..]), EscapeEach(b));
    }
  }

  /** A name without brackets escapes to itself. */
  lemma EscapePlain(s: string)
    requires LEFT_BRACKET !in s && RIGHT_BRACKET !in s
    ensures Escape(s) == s
  {
    ReplaceCharAbsent(s, LEFT_BRACKET, LEFT_BRACKET_REPLACEMENT);
    ReplaceCharAbsent(s, RIGHT_BRACKET, RIGHT_BRACKET_REPLACEMENT);
  }

  /** Escaping around a bracket-free middle part. */
  lemma EscapeBracketed(a: char, mid: string, b: char)
    requires LEFT_BRACKET !in mid && RIGHT_BRACKET !in mid
    ensures Escape([a] + mid + [b]) == EscapeChar(a) + mid + EscapeChar(b)
  {
    EscapeEachConcat([a] + mid, [b]);
    EscapeEachConcat([a], mid);
    EscapePlain(mid);
    assert EscapeEach([a]) == EscapeChar(a) + EscapeEach([]);
    assert EscapeEach([b]) == EscapeChar(b) + EscapeEach([]);
  }

  /** A bracket-free word followed by two brackets. */
  lemma EscapeWordPair(w: string, x: char, y: char)
    requires LEFT_BRACKET !in w && RIGHT_BRACKET !in w
    ensures Escape(w + [x, y]) == w + EscapeChar(x) + EscapeChar(y)
  {
    EscapeEachConcat(w, [x, y]);
    EscapePlain(w);
    assert [x, y][1..] == [y];
    assert EscapeEach([x, y]) == EscapeChar(x) + EscapeEach([y]);
    assert EscapeEach([y]) == EscapeChar(y) + EscapeEach([]);
    AppendAssoc(w, EscapeChar(x), EscapeChar(y));
  }

  /** The unit tests' names: `array` followed by two brackets, and back. */
  lemma EscapeArrayPair(x: char, y: char)
    requires x == LEFT_BRACKET || x == RIGHT_BRACKET
    requires y == LEFT_BRACKET || y == RIGHT_BRACKET
    ensures Escape("array" + [x, y]) == "array" + EscapeChar(x) + EscapeChar(y)
    ensures Unescape(Escape("array" + [x, y])) == "array" + [x, y]
  {
    var w := "array";
    EscapeWordPair(w, x, y);
    var s := w + [x, y];
    assert '-' !in s && 'G' !in s by {
      assert forall c :: c in s ==> c in w || c == x || c == y;
    }
    NoGILB(s);
    UnescapeEscape(s);
  }

  /** `unescape` of the unit tests' marker-free names. */
  lemma UnescapePlain(s: string)
    requires '-' !in s
    ensures Unescape(s) == s
  {
    NoDash(s, LEFT_BRACKET_REPLACEMENT);
    NoDash(s, RIGHT_BRACKET_REPLACEMENT);
    UnescapeMarkerFree(s);
  }

  lemma {:induction false} NoDash(s: string, pat: string)
    requires pat != [] && pat[0] == '-' && '-' !in s
    ensures !Contains(s, pat)
    decreases |s|
  {
    if |s| >= |pat| {
      assert s[..|pat|][0] == s[0];
      NoDash(s[1..], pat);
    }
  }

  /** A string without `G` does not contain `GILB`. */
  lemma {:induction false} NoGILB(s: string)
    requires 'G' !in s
    ensures !Contains(s, "GILB")
    decreases |s|
  {
    if |s| >= 4 {
      assert s[..4][0] == s[0];
      NoGILB(s[1..]);
    }
  }

  /** A string lacking one of the pattern's characters does not contain it. */
  lemma {:induction false} Lacks(s: string, pat: string, k: nat)
    requires k < |pat| && pat[k] !in s
    ensures !Contains(s, pat)
    decreases |s|
  {
    if |s| >= |pat| {
      assert s[..|pat|][k] == s[k];
      Lacks(s[1..], pat, k);
    }
  }

  /** A name without brackets and without marker text survives the round
      trip, dashes included. */
  lemma PlainNameRoundTrips(s: string)
    requires LEFT_BRACKET !in s && RIGHT_BRACKET !in s
    requires !Contains(s, LEFT_BRACKET_REPLACEMENT) && !Contains(s, RIGHT_BRACKET_REPLACEMENT)
    ensures Unescape(Escape(s)) == s
  {
    EscapePlain(s);
    UnescapeMarkerFree(s);
  }

  /** A hyphenated name such as `first-name` is outside `UnescapeEscape`'s
      safe names but still survives the round trip. */
  lemma HyphenatedNameRoundTrips(a: string, b: string)
    requires LEFT_BRACKET !in a + b && RIGHT_BRACKET !in a + b && 'G' !in a + b
    ensures !RoundTripSafe(a + "-" + b)
    ensures Unescape(Escape(a + "-" + b)) == a + "-" + b
  {
    var s := a + "-" + b;
    assert s[|a|] == '-';
    assert forall c :: c in s ==> c in a + b || c == '-';
    Lacks(s, LEFT_BRACKET_REPLACEMENT, 1);
    Lacks(s, RIGHT_BRACKET_REPLACEMENT, 1);
    PlainNameRoundTrips(s);
  }
}
