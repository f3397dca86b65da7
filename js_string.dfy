/**
 * The JavaScript string primitives the core is built from, on strings of Unicode
 * scalar values: the whitespace class shared by `trim` and `\s`, the ASCII word
 * class behind `\w` and `\b`, `trim`, `split` on one character, `join`,
 * `indexOf`, `replace(/\s+/g, ' ')`, `filter` and `toUpperCase` (restricted to
 * ASCII and Latin-1 letters).
 */
module JsString {

  /** ECMAScript WhiteSpace and LineTerminator code points: what `trim` strips and what `\s` matches. */
  predicate IsSpace(c: char) {
    || c == ' ' || c == '\t' || c == '\n' || c == '\r' || c == '\U{B}' || c == '\U{C}'
    || c == '\U{A0}' || c == '\U{1680}' || ('\U{2000}' <= c <= '\U{200A}')
    || c == '\U{2028}' || c == '\U{2029}' || c == '\U{202F}' || c == '\U{205F}'
    || c == '\U{3000}' || c == '\U{FEFF}'
  }

  /** `\w` without the `u` flag: ASCII letters, digits and underscore. */
  predicate IsWordChar(c: char) {
    ('a' <= c <= 'z') || ('A' <= c <= 'Z') || ('0' <= c <= '9') || c == '_'
  }

  predicate NoSpace(s: string) {
    forall i :: 0 <= i < |s| ==> !IsSpace(s[i])
  }

  predicate HasNonSpace(s: string) {
    exists i :: 0 <= i < |s| && !IsSpace(s[i])
  }

  /** No whitespace at either end: what `trim` leaves. */
  predicate IsTrimmed(s: string) {
    s == [] || (!IsSpace(s[0]) && !IsSpace(s[|s| - 1]))
  }

  function Min(a: int, b: int): int {
    if a <= b then a else b
  }

  // ---------------------------------------------------------------- trim

  /** `trimStart`: the leading whitespace cut. */
  function TrimStart(s: string): (r: string)
    ensures |r| <= |s|
    ensures r == [] || !IsSpace(r[0])
    decreases |s|
  {
    if |s| > 0 && IsSpace(s[0]) then TrimStart(s[1..]) else s
  }

  /** `trimEnd`: the trailing whitespace cut. */
  function TrimEnd(s: string): (r: string)
    ensures |r| <= |s| && r == s[..|r|]
    ensures r == [] || !IsSpace(r[|r| - 1])
    decreases |s|
  {
    if |s| > 0 && IsSpace(s[|s| - 1]) then TrimEnd(s[..|s| - 1]) else s
  }

  /** What `trimStart` keeps is a suffix, and what it cuts is whitespace. */
  lemma {:induction false} LeadingCut(s: string)
    ensures TrimStart(s) == s[|s| - |TrimStart(s)|..]
    ensures forall i :: 0 <= i < |s| - |TrimStart(s)| ==> IsSpace(s[i])
    decreases |s|
  {
    if |s| > 0 && IsSpace(s[0]) {
      var t := s[1..];
      LeadingCut(t);
      assert t[|t| - |TrimStart(t)|..] == s[|s| - |TrimStart(s)|..];
      forall i | 1 <= i < |s| - |TrimStart(s)| ensures IsSpace(s[i]) {
        assert s[i] == t[i - 1];
      }
    }
  }

  /** What `trimEnd` cuts is whitespace. */
  lemma {:induction false} TrailingCut(s: string)
    ensures forall i :: |TrimEnd(s)| <= i < |s| ==> IsSpace(s[i])
    decreases |s|
  {
    if |s| > 0 && IsSpace(s[|s| - 1]) {
      var t := s[..|s| - 1];
      TrailingCut(t);
      forall i | |TrimEnd(s)| <= i < |s| - 1 ensures IsSpace(s[i]) {
        assert s[i] == t[i];
      }
    }
  }

  /** A whitespace run of length `k` followed by a non-whitespace character or the end is exactly what `trimStart` removes. */
  lemma {:induction false} TrimStartIs(s: string, k: nat)
    requires k <= |s|
    requires forall i :: 0 <= i < k ==> IsSpace(s[i])
    requires k < |s| ==> !IsSpace(s[k])
    ensures TrimStart(s) == s[k..]
  {
    var r := TrimStart(s);
    var k' := |s| - |r|;
    LeadingCut(s);
    assert k' < |s| ==> r[0] == s[k'];
    assert k < |s| ==> !IsSpace(s[k]);
  }

  /** A whitespace run from `m` to the end, after a non-whitespace character or the start, is exactly what `trimEnd` removes. */
  lemma {:induction false} TrimEndIs(s: string, m: nat)
    requires m <= |s|
    requires forall i :: m <= i < |s| ==> IsSpace(s[i])
    requires m > 0 ==> !IsSpace(s[m - 1])
    ensures TrimEnd(s) == s[..m]
  {
    var r := TrimEnd(s);
    TrailingCut(s);
    assert |r| > 0 ==> r[|r| - 1] == s[|r| - 1];
    assert m > 0 ==> !IsSpace(s[m - 1]);
  }

  /** `String.prototype.trim`: the result has no whitespace at either end. */
  function Trim(s: string): (r: string)
    ensures IsTrimmed(r)
  {
    TrimEnd(TrimStart(s))
  }

  /** Trimming is idempotent: trimming an already trimmed string changes nothing. */
  lemma {:induction false} TrimTrimmed(s: string)
    requires IsTrimmed(s)
    ensures Trim(s) == s
  {
    TrimStartIs(s, 0);
    assert s[0..] == s;
    TrimEndIs(s, |s|);
    assert s[..|s|] == s;
  }

  /**
   * Trimming the end of `x + y` only touches `y` when `y` holds a
   * non-whitespace character or `x` ends with one.
   */
  lemma {:induction false} TrimEndAppend(x: string, y: string)
    requires HasNonSpace(y) || (x != [] && !IsSpace(x[|x| - 1]))
    ensures TrimEnd(x + y) == x + TrimEnd(y)
  {
    var s := x + y;
    var t := TrimEnd(y);
    var m := |x| + |t|;
    TrailingCut(y);
    forall i | m <= i < |s| ensures IsSpace(s[i]) {
      assert s[i] == y[i - |x|];
    }
    if |t| > 0 {
      assert s[m - 1] == y[|t| - 1];
    } else {
      assert !HasNonSpace(y);
      assert s[m - 1] == x[|x| - 1];
    }
    TrimEndIs(s, m);
    assert s[..m] == x + t;
  }

  // ---------------------------------------------------------------- split and join

  /** Number of occurrences of `c` in `s`. */
  function Count(s: string, c: char): (n: nat)
    ensures n <= |s|
    decreases |s|
  {
    if s == [] then 0 else (if s[0] == c then 1 else 0) + Count(s[1..], c)
  }

  /** No occurrence is counted exactly when `c` does not occur. */
  lemma {:induction false} CountZero(s: string, c: char)
    ensures Count(s, c) == 0 <==> c !in s
    decreases |s|
  {
    if s != [] {
      CountZero(s[1..], c);
      assert s == [s[0]] + s[1..];
    }
  }

  /** `Array.prototype.join`. */
  function Join(parts: seq<string>, sep: string): string
    decreases |parts|
  {
    if |parts| == 0 then ""
    else if |parts| == 1 then parts[0]
    else parts[0] + sep + Join(parts[1..], sep)
  }

  lemma {:induction false} JoinCons(x: string, parts: seq<string>, sep: string)
    requires parts != []
    ensures Join([x] + parts, sep) == x + sep + Join(parts, sep)
  {
    assert ([x] + parts)[1..] == parts;
  }

  /** Joining two non-empty lists puts one separator between their joins. */
  lemma {:induction false} JoinAppend(xs: seq<string>, ys: seq<string>, sep: string)
    requires xs != [] && ys != []
    ensures Join(xs + ys, sep) == Join(xs, sep) + sep + Join(ys, sep)
    decreases |xs|
  {
    if |xs| == 1 {
      JoinCons(xs[0], ys, sep);
      assert xs + ys == [xs[0]] + ys;
    } else {
      JoinAppend(xs[1..], ys, sep);
      assert (xs + ys)[1..] == xs[1..] + ys;
    }
  }

  /** Where element `i` stands in a join: the join of the elements before it and one separator. */
  lemma {:induction false} JoinAt(xs: seq<string>, i: nat, sep: string)
    requires i < |xs|
    ensures var before := if i == 0 then "" else Join(xs[..i], sep) + sep;
            var after := if i == |xs| - 1 then "" else sep + Join(xs[i + 1..], sep);
            Join(xs, sep) == before + xs[i] + after
  {
    if i > 0 {
      JoinAppend(xs[..i], xs[i..], sep);
      assert xs == xs[..i] + xs[i..];
    }
    if i < |xs| - 1 {
      JoinCons(xs[i], xs[i + 1..], sep);
      assert xs[i..] == [xs[i]] + xs[i + 1..];
    } else {
      assert xs[i..] == [xs[i]];
    }
  }

  /** Where element `i` starts in `Join(xs, sep)`. */
  function JoinOffset(xs: seq<string>, i: nat, sep: string): nat
    requires i <= |xs|
  {
    if i == 0 then 0 else |Join(xs[..i], sep)| + |sep|
  }

  /** Element `i` stands whole in the join (and in anything that extends it), at its offset. */
  lemma {:induction false} OccursInJoin(xs: seq<string>, i: nat, sep: string, tail: string)
    requires i < |xs|
    ensures OccursAt(Join(xs, sep) + tail, xs[i], JoinOffset(xs, i, sep))
  {
    JoinAt(xs, i, sep);
    var before := if i == 0 then "" else Join(xs[..i], sep) + sep;
    var after := if i == |xs| - 1 then "" else sep + Join(xs[i + 1..], sep);
    var s := Join(xs, sep) + tail;
    assert s == before + xs[i] + (after + tail);
    assert |before| == JoinOffset(xs, i, sep);
    assert s[|before|..|before| + |xs[i]|] == xs[i];
  }

  /** Consecutive elements follow each other, one separator apart. */
  lemma {:induction false} JoinOffsetNext(xs: seq<string>, i: nat, sep: string)
    requires i < |xs|
    ensures JoinOffset(xs, i + 1, sep) == JoinOffset(xs, i, sep) + |xs[i]| + |sep|
  {
    if i > 0 {
      JoinAppend(xs[..i], [xs[i]], sep);
      assert xs[..i + 1] == xs[..i] + [xs[i]];
    } else {
      assert xs[..1] == [xs[0]];
    }
  }

  /** `String.prototype.split` with a one-character separator. */
  function Split(s: string, sep: char): (r: seq<string>)
    ensures |r| >= 1
    decreases |s|
  {
    if s == [] then [""]
    else
      var t := Split(s[1..], sep);
      if s[0] == sep then [""] + t
      else [[s[0]] + t[0]] + t[1..]
  }

  /**
   * One piece more than there are separators, no piece holds the separator,
   * and joining the pieces back with the separator gives the input.
   */
  lemma {:induction false} SplitPieces(s: string, sep: char)
    ensures |Split(s, sep)| == Count(s, sep) + 1
    ensures forall i :: 0 <= i < |Split(s, sep)| ==> sep !in Split(s, sep)[i]
    ensures Join(Split(s, sep), [sep]) == s
    decreases |s|
  {
    if s != [] {
      var t := Split(s[1..], sep);
      SplitPieces(s[1..], sep);
      assert s == [s[0]] + s[1..];
      if s[0] == sep {
        JoinCons("", t, [sep]);
      } else {
        var r := Split(s, sep);
        assert r == [[s[0]] + t[0]] + t[1..];
        assert forall i :: 1 <= i < |r| ==> r[i] == t[i];
        if |t| > 1 {
          JoinCons(t[0], t[1..], [sep]);
          JoinCons([s[0]] + t[0], t[1..], [sep]);
          assert t == [t[0]] + t[1..];
        }
      }
    }
  }

  lemma {:induction false} SplitNoSeparator(p: string, sep: char)
    requires sep !in p
    ensures Split(p, sep) == [p]
    decreases |p|
  {
    if p != [] {
      assert sep !in p[1..];
      SplitNoSeparator(p[1..], sep);
      assert [p[0]] + p[1..] == p;
    }
  }

  lemma {:induction false} SplitAfterPiece(p: string, sep: char, rest: string)
    requires sep !in p
    ensures Split(p + [sep] + rest, sep) == [p] + Split(rest, sep)
    decreases |p|
  {
    var s := p + [sep] + rest;
    if p == [] {
      assert s[0] == sep && s[1..] == rest;
    } else {
      assert s[0] == p[0] && s[1..] == p[1..] + [sep] + rest;
      assert sep !in p[1..];
      SplitAfterPiece(p[1..], sep, rest);
      assert [p[0]] + p[1..] == p;
    }
  }

  /** Splitting undoes joining, when no piece holds the separator. */
  lemma {:induction false} SplitJoin(parts: seq<string>, sep: char)
    requires |parts| >= 1
    requires forall i :: 0 <= i < |parts| ==> sep !in parts[i]
    ensures Split(Join(parts, [sep]), sep) == parts
    decreases |parts|
  {
    if |parts| == 1 {
      SplitNoSeparator(parts[0], sep);
    } else {
      SplitJoin(parts[1..], sep);
      SplitAfterPiece(parts[0], sep, Join(parts[1..], [sep]));
      assert parts == [parts[0]] + parts[1..];
    }
  }

  // ---------------------------------------------------------------- indexOf

  predicate OccursAt(s: string, pat: string, k: int) {
    0 <= k && k + |pat| <= |s| && s[k..k + |pat|] == pat
  }

  /** First occurrence of `pat` in `s` at or after `from`, or -1. */
  function IndexFrom(s: string, pat: string, from: nat): (r: int)
    ensures r == -1 || (from <= r && OccursAt(s, pat, r))
    ensures r == -1 ==> forall k :: from <= k ==> !OccursAt(s, pat, k)
    ensures r != -1 ==> forall k :: from <= k < r ==> !OccursAt(s, pat, k)
    decreases |s| - from
  {
    if from + |pat| > |s| then -1
    else if OccursAt(s, pat, from) then from
    else IndexFrom(s, pat, from + 1)
  }

  /** `String.prototype.indexOf`: the first position where `pat` occurs, or -1 when it does not occur. */
  function IndexOf(s: string, pat: string): (r: int)
    ensures r == -1 <==> forall k :: 0 <= k ==> !OccursAt(s, pat, k)
    ensures r != -1 ==> OccursAt(s, pat, r) && forall k :: 0 <= k < r ==> !OccursAt(s, pat, k)
  {
    IndexFrom(s, pat, 0)
  }

  // ---------------------------------------------------------------- whitespace runs and words

  /** No two whitespace characters in a row. */
  predicate NoDoubleSpace(s: string) {
    forall i :: 0 <= i < |s| - 1 ==> !(IsSpace(s[i]) && IsSpace(s[i + 1]))
  }

  /** Every whitespace character is a plain space. */
  predicate OnlyPlainSpaces(s: string) {
    forall i :: 0 <= i < |s| ==> (IsSpace(s[i]) ==> s[i] == ' ')
  }

  /** Trimming keeps a middle part of the string, so it adds no character and no pair of spaces. */
  lemma {:induction false} TrimKeeps(x: string)
    ensures forall c :: c in Trim(x) ==> c in x
    ensures NoDoubleSpace(x) ==> NoDoubleSpace(Trim(x))
    ensures OnlyPlainSpaces(x) ==> OnlyPlainSpaces(Trim(x))
  {
    var t := TrimStart(x);
    assert Keeps(x, t) by {
      LeadingCut(x);
      SliceKeeps(x, |x| - |t|, t);
    }
    assert Keeps(t, TrimEnd(t)) by {
      SliceKeeps(t, 0, TrimEnd(t));
    }
  }

  /** `r` holds no character `x` lacks, and keeps the two whitespace properties of `x`. */
  predicate Keeps(x: string, r: string) {
    && (forall c :: c in r ==> c in x)
    && (NoDoubleSpace(x) ==> NoDoubleSpace(r))
    && (OnlyPlainSpaces(x) ==> OnlyPlainSpaces(r))
  }

  lemma {:induction false} SliceKeeps(x: string, k: nat, r: string)
    requires k + |r| <= |x| && r == x[k..k + |r|]
    ensures Keeps(x, r)
  {
    forall i | 0 <= i < |r| ensures r[i] == x[k + i] {
    }
  }

  /** `replace(/\s+/g, ' ')`: every maximal whitespace run becomes one space. */
  function CollapseSpaces(s: string): (r: string)
    ensures NoDoubleSpace(r) && OnlyPlainSpaces(r)
    ensures forall c :: c in r ==> c == ' ' || c in s
    ensures (r == []) == (s == [])
    ensures r != [] ==> (IsSpace(r[0]) <==> IsSpace(s[0]))
    ensures r != [] ==> (IsSpace(r[|r| - 1]) <==> IsSpace(s[|s| - 1]))
    decreases |s|
  {
    if s == [] then []
    else if IsSpace(s[0]) then
      var t := TrimStart(s);
      assert |t| < |s|;
      assert t == s[|s| - |t|..] && forall i :: 0 <= i < |s| - |t| ==> IsSpace(s[i]) by { LeadingCut(s); }
      assert forall c :: c in t ==> c in s;
      assert t != [] ==> t[|t| - 1] == s[|s| - 1];
      [' '] + CollapseSpaces(t)
    else
      [s[0]] + CollapseSpaces(s[1..])
  }

  /** The longest prefix of `s` without whitespace. */
  function NonSpacePrefix(s: string): (w: string)
    ensures |w| <= |s| && w == s[..|w|] && NoSpace(w)
    ensures |w| < |s| ==> IsSpace(s[|w|])
    decreases |s|
  {
    if s == [] || IsSpace(s[0]) then [] else [s[0]] + NonSpacePrefix(s[1..])
  }

  /**
   * The maximal whitespace-free runs of `s`, in order. For a trimmed non-empty
   * `t`, `t.split(/\s+/)` is `Tokens(t)`; for the empty string it is `[""]`,
   * which joins to the same `""` as `Tokens("") == []` does.
   */
  function Tokens(s: string): (r: seq<string>)
    ensures forall i :: 0 <= i < |r| ==> r[i] != [] && NoSpace(r[i])
    decreases |s|
  {
    var t := TrimStart(s);
    if t == [] then []
    else
      var w := NonSpacePrefix(t);
      [w] + Tokens(t[|w|..])
  }

  lemma {:induction false} NonSpacePrefixOfWord(w: string, rest: string)
    requires NoSpace(w)
    requires rest == [] || IsSpace(rest[0])
    ensures NonSpacePrefix(w + rest) == w
    decreases |w|
  {
    var s := w + rest;
    if w != [] {
      assert s[1..] == w[1..] + rest;
      NonSpacePrefixOfWord(w[1..], rest);
      assert [w[0]] + w[1..] == w;
    }
  }

  /** A leading whitespace character adds no word. */
  lemma {:induction false} TokensAfterSpace(c: char, rest: string)
    requires IsSpace(c)
    ensures Tokens([c] + rest) == Tokens(rest)
  {
    var s := [c] + rest;
    var n := |rest| - |TrimStart(rest)|;
    LeadingCut(rest);
    forall i | 0 <= i < 1 + n ensures IsSpace(s[i]) {
      if i > 0 { assert s[i] == rest[i - 1]; }
    }
    if 1 + n < |s| {
      assert s[1 + n] == TrimStart(rest)[0];
    }
    TrimStartIs(s, 1 + n);
    assert s[1 + n..] == rest[n..];
  }

  lemma {:induction false} TokensOfWordThen(w: string, rest: string)
    requires w != [] && NoSpace(w)
    requires rest == [] || IsSpace(rest[0])
    ensures Tokens(w + rest) == [w] + Tokens(rest)
  {
    var s := w + rest;
    TrimStartIs(s, 0);
    assert s[0..] == s;
    NonSpacePrefixOfWord(w, rest);
    assert s[|w|..] == rest;
  }

  /** The tokens of words joined by single spaces are those words. */
  lemma {:induction false} TokensOfJoin(ws: seq<string>)
    requires forall i :: 0 <= i < |ws| ==> ws[i] != [] && NoSpace(ws[i])
    ensures Tokens(Join(ws, " ")) == ws
    decreases |ws|
  {
    if |ws| == 1 {
      TokensOfWordThen(ws[0], []);
      assert ws[0] + [] == ws[0];
    } else if |ws| > 1 {
      TokensOfJoin(ws[1..]);
      TokensOfJoinStep(ws[0], ws[1..]);
      assert [ws[0]] + ws[1..] == ws;
    }
  }

  lemma {:induction false} TokensOfJoinStep(w: string, tail: seq<string>)
    requires w != [] && NoSpace(w) && tail != []
    requires Tokens(Join(tail, " ")) == tail
    ensures Tokens(Join([w] + tail, " ")) == [w] + tail
  {
    JoinCons(w, tail, " ");
    TokensOfWordSpaceThen(w, Join(tail, " "));
  }

  lemma {:induction false} TokensOfWordSpaceThen(w: string, rest: string)
    requires w != [] && NoSpace(w)
    ensures Tokens(w + " " + rest) == [w] + Tokens(rest)
  {
    var after := " " + rest;
    assert w + " " + rest == w + after;
    assert after[0] == ' ';
    TokensOfWordThen(w, after);
    TokensAfterSpace(' ', rest);
  }

  /** Leading whitespace adds no word. */
  lemma {:induction false} TokensTrimStart(s: string)
    ensures Tokens(TrimStart(s)) == Tokens(s)
  {
    var t := TrimStart(s);
    TrimStartIs(t, 0);
    assert t[0..] == t;
  }

  /**
   * A non-whitespace character in front is a word of its own before
   * whitespace or the end, and otherwise joins the first word.
   */
  lemma {:induction false} TokensOfNonSpaceThen(c: char, rest: string)
    requires !IsSpace(c)
    ensures rest == [] || IsSpace(rest[0]) ==> Tokens([c] + rest) == [[c]] + Tokens(rest)
    ensures rest != [] && !IsSpace(rest[0]) ==>
              Tokens(rest) != [] && Tokens([c] + rest) == [[c] + Tokens(rest)[0]] + Tokens(rest)[1..]
  {
    var s := [c] + rest;
    if rest == [] || IsSpace(rest[0]) {
      TokensOfWordThen([c], rest);
    } else {
      TrimStartIs(s, 0);
      assert s[0..] == s;
      TrimStartIs(rest, 0);
      assert rest[0..] == rest;
      var w := NonSpacePrefix(rest);
      assert s[1..] == rest;
      assert NonSpacePrefix(s) == [c] + w;
      assert s[|[c] + w|..] == rest[|w|..];
    }
  }

  /** `t` is `s` with some whitespace characters replaced by other whitespace characters. */
  predicate SameUpToSpaces(s: string, t: string) {
    |s| == |t| && forall i :: 0 <= i < |s| ==> s[i] == t[i] || (IsSpace(s[i]) && IsSpace(t[i]))
  }

  /** Which whitespace characters separate the words does not change the words. */
  lemma {:induction false} TokensUpToSpaces(s: string, t: string)
    requires SameUpToSpaces(s, t)
    ensures Tokens(s) == Tokens(t)
    decreases |s|
  {
    if s != [] {
      var s', t' := s[1..], t[1..];
      assert SameUpToSpaces(s', t') by {
        forall i | 0 <= i < |s'| ensures s'[i] == t'[i] || (IsSpace(s'[i]) && IsSpace(t'[i])) {
          assert s'[i] == s[i + 1] && t'[i] == t[i + 1];
        }
      }
      TokensUpToSpaces(s', t');
      assert s == [s[0]] + s' && t == [t[0]] + t';
      if IsSpace(s[0]) {
        TokensAfterSpace(s[0], s');
        TokensAfterSpace(t[0], t');
      } else {
        TokensOfNonSpaceThen(s[0], s');
        TokensOfNonSpaceThen(t[0], t');
        assert s' != [] ==> (IsSpace(s'[0]) <==> IsSpace(t'[0]));
      }
    }
  }

  /** Collapsing the whitespace runs keeps the words. */
  lemma {:induction false} CollapseSpacesTokens(s: string)
    ensures Tokens(CollapseSpaces(s)) == Tokens(s)
    decreases |s|
  {
    if s != [] {
      if IsSpace(s[0]) {
        var t := TrimStart(s);
        assert |t| < |s|;
        CollapseSpacesTokens(t);
        TokensAfterSpace(' ', CollapseSpaces(t));
        TokensTrimStart(s);
      } else {
        var t := s[1..];
        assert s == [s[0]] + t;
        CollapseSpacesTokens(t);
        TokensOfNonSpaceThen(s[0], CollapseSpaces(t));
        TokensOfNonSpaceThen(s[0], t);
      }
    }
  }

  /** A character put in front of the first part of a join is put in front of the join. */
  lemma {:induction false} JoinHeadCons(c: char, parts: seq<string>, sep: string)
    requires parts != []
    ensures Join([[c] + parts[0]] + parts[1..], sep) == [c] + Join(parts, sep)
  {
    if |parts| > 1 {
      JoinCons([c] + parts[0], parts[1..], sep);
      JoinCons(parts[0], parts[1..], sep);
      assert parts == [parts[0]] + parts[1..];
    }
  }

  /** Where every whitespace is a single plain space, `trim` leaves the words joined by one space. */
  lemma {:induction false} TrimIsJoinOfTokens(c: string)
    requires NoDoubleSpace(c) && OnlyPlainSpaces(c)
    ensures Trim(c) == Join(Tokens(c), " ")
    decreases |c|
  {
    if c != [] {
      var r := c[1..];
      assert c == [c[0]] + r;
      SliceKeeps(c, 1, r);
      if IsSpace(c[0]) {
        TrimIsJoinOfTokens(r);
        TokensAfterSpace(c[0], r);
      } else if r == [] {
        TokensOfWordThen([c[0]], []);
        TrimTrimmed(c);
      } else if !IsSpace(r[0]) {
        TrimIsJoinOfTokens(r);
        TrimJoinBeforeWord(c[0], r);
      } else {
        var r' := r[1..];
        assert r == [' '] + r';
        assert c == [c[0], ' '] + r';
        if r' != [] {
          assert !IsSpace(c[2]);
          SliceKeeps(c, 2, r');
          TrimIsJoinOfTokens(r');
        }
        TrimJoinBeforeSpace(c[0], r');
      }
    }
  }

  /** One step of `TrimIsJoinOfTokens`: a character in front of a word joins it. */
  lemma {:induction false} TrimJoinBeforeWord(c: char, r: string)
    requires !IsSpace(c) && r != [] && !IsSpace(r[0])
    requires Trim(r) == Join(Tokens(r), " ")
    ensures Trim([c] + r) == Join(Tokens([c] + r), " ")
  {
    var s := [c] + r;
    TokensOfNonSpaceThen(c, r);
    TrimStartIs(s, 0);
    assert s[0..] == s;
    TrimStartIs(r, 0);
    assert r[0..] == r;
    TrimEndAppend([c], r);
    JoinHeadCons(c, Tokens(r), " ");
  }

  /** One step of `TrimIsJoinOfTokens`: a word of one character, a space, then the rest. */
  lemma {:induction false} TrimJoinBeforeSpace(c: char, r: string)
    requires !IsSpace(c)
    requires r != [] ==> !IsSpace(r[0]) && Trim(r) == Join(Tokens(r), " ")
    ensures Trim([c, ' '] + r) == Join(Tokens([c, ' '] + r), " ")
  {
    TokensBeforeSpace(c, r);
    TrimBeforeSpace(c, r);
    if r != [] {
      JoinCons([c], Tokens(r), " ");
    }
  }

  lemma {:induction false} TokensBeforeSpace(c: char, r: string)
    requires !IsSpace(c)
    requires r != [] ==> !IsSpace(r[0])
    ensures Tokens([c, ' '] + r) == [[c]] + Tokens(r)
    ensures r != [] ==> Tokens(r) != []
  {
    var x := [' '] + r;
    assert [c, ' '] + r == [c] + x;
    TokensOfNonSpaceThen(c, x);
    TokensAfterSpace(' ', r);
    if r != [] {
      TokensStartWithWord(r);
    }
  }

  /** A string that starts with a non-whitespace character has a word. */
  lemma {:induction false} TokensStartWithWord(r: string)
    requires r != [] && !IsSpace(r[0])
    ensures Tokens(r) != []
  {
    TrimStartIs(r, 0);
    assert r[0..] == r;
  }

  lemma {:induction false} TrimBeforeSpace(c: char, r: string)
    requires !IsSpace(c)
    requires r != [] ==> !IsSpace(r[0])
    ensures Trim([c, ' '] + r) == if r == [] then [c] else [c, ' '] + Trim(r)
  {
    var s := [c, ' '] + r;
    TrimStartIs(s, 0);
    assert s[0..] == s;
    if r == [] {
      TrimEndIs(s, 1);
    } else {
      TrimStartIs(r, 0);
      assert r[0..] == r;
      TrimEndAppend([c, ' '], r);
    }
  }

  /** `s.trim().split(/\s+/).slice(0, n).join(' ')`. */
  function FirstWords(s: string, n: nat): (r: string)
    ensures |Tokens(r)| <= n
    ensures Tokens(r) == Tokens(s)[..Min(n, |Tokens(s)|)]
    ensures r == Join(Tokens(r), " ")
  {
    var ts := Tokens(s);
    var kept := ts[..Min(n, |ts|)];
    TokensOfJoin(kept);
    Join(kept, " ")
  }

  // ---------------------------------------------------------------- toUpperCase

  /**
   * `toUpperCase` on one character, for the ASCII and Latin-1 lower-case
   * letters whose capital is one character (á é í ó ú ñ among them, and
   * `ÿ` and `µ`, whose capitals lie outside Latin-1); every other character
   * is left as it is. Upper-casing makes no whitespace and no ASCII word
   * character, and takes none away.
   */
  function UpperChar(c: char): (u: char)
    ensures IsSpace(u) <==> IsSpace(c)
    ensures IsWordChar(u) <==> IsWordChar(c)
    ensures 'a' <= c <= 'z' ==> 'A' <= u <= 'Z'
  {
    if 'a' <= c <= 'z' || ('\U{E0}' <= c <= '\U{FE}' && c != '\U{F7}') then (c as int - 32) as char
    else if c == '\U{FF}' then '\U{178}'
    else if c == '\U{B5}' then '\U{39C}'
    else c
  }

  /** `toUpperCase` on a string, one character for one. */
  function ToUpper(s: string): (r: string)
    ensures |r| == |s|
  {
    seq(|s|, i requires 0 <= i < |s| => UpperChar(s[i]))
  }

  // ---------------------------------------------------------------- filter

  /** `Array.prototype.filter`: keeps, in order, exactly the elements that satisfy `p`. */
  function Filter<T(!new)>(s: seq<T>, p: T -> bool): (r: seq<T>)
    ensures |r| <= |s|
    ensures forall i :: 0 <= i < |r| ==> p(r[i])
    ensures forall x :: x in r <==> x in s && p(x)
    decreases |s|
  {
    if s == [] then []
    else if p(s[0]) then [s[0]] + Filter(s[1..], p)
    else Filter(s[1..], p)
  }

  /** Filtering distributes over concatenation: the kept elements stay in their order. */
  lemma {:induction false} FilterAppend<T(!new)>(a: seq<T>, b: seq<T>, p: T -> bool)
    ensures Filter(a + b, p) == Filter(a, p) + Filter(b, p)
    decreases |a|
  {
    if a == [] {
      assert a + b == b;
    } else {
      FilterAppend(a[1..], b, p);
      assert (a + b)[1..] == a[1..] + b;
    }
  }

  /** The first element kept is the first element that satisfies `p`; the rest are kept from after it. */
  lemma {:induction false} FilterFirst<T(!new)>(s: seq<T>, p: T -> bool, k: nat)
    requires k < |s| && p(s[k])
    requires forall j :: 0 <= j < k ==> !p(s[j])
    ensures Filter(s, p) == [s[k]] + Filter(s[k + 1..], p)
    decreases k
  {
    if k > 0 {
      FilterFirst(s[1..], p, k - 1);
      assert s[1..][k..] == s[k + 1..];
    }
  }

  /** A filter that every element passes changes nothing. */
  lemma {:induction false} FilterKeepsAll<T(!new)>(s: seq<T>, p: T -> bool)
    requires forall x :: x in s ==> p(x)
    ensures Filter(s, p) == s
    decreases |s|
  {
    if s != [] {
      var t := s[1..];
      assert s == [s[0]] + t;
      assert forall x :: x in t ==> x in s;
      FilterKeepsAll(t, p);
    }
  }
}
