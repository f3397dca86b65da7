/**
 * The fallback name extraction of the vision endpoint: on recognised text,
 * the holder's name is what lies between the first `SEXO` and the first
 * `DOMICIL`, cleaned by a fixed chain of deletions and whitespace
 * normalisation; otherwise a sentinel message.
 */
module VisionServer {
  import opened JsString

  /** What the endpoint answers when no name could be read. */
  const Sentinel := "No se pudo extraer el nombre"

  // ---------------------------------------------------------------- `substring`

  function Clamp(x: int, len: nat): nat {
    if x < 0 then 0 else if x > len then len else x
  }

  /** `String.prototype.substring`: both ends clamped to the string, swapped when the first is larger. */
  function Substring(s: string, a: int, b: int): (r: string)
    ensures |r| <= |s|
    ensures 0 <= a <= b <= |s| ==> r == s[a..b]
  {
    var lo, hi := Clamp(a, |s|), Clamp(b, |s|);
    if lo <= hi then s[lo..hi] else s[hi..lo]
  }

  // ---------------------------------------------------------------- `replace(/\bW\b/gi, '')`

  /** The longest prefix of ASCII word characters. */
  function WordPrefix(s: string): (w: string)
    ensures |w| <= |s| && w == s[..|w|]
    ensures forall i :: 0 <= i < |w| ==> IsWordChar(w[i])
    ensures |w| < |s| ==> !IsWordChar(s[|w|])
    decreases |s|
  {
    if s != [] && IsWordChar(s[0]) then [s[0]] + WordPrefix(s[1..]) else []
  }

  /** ASCII letters compared without case, as the `i` flag does for an ASCII pattern. */
  function FoldAscii(c: char): char {
    if 'a' <= c <= 'z' then (c as int - 32) as char else c
  }

  predicate SameIgnoringCase(x: string, y: string) {
    |x| == |y| && forall i :: 0 <= i < |x| ==> FoldAscii(x[i]) == FoldAscii(y[i])
  }

  /**
   * No maximal run of word characters in `s` equals `w` ignoring case: no
   * place is left where `\bw\b` matches.
   */
  predicate FreeOf(s: string, w: string)
    decreases |s|
  {
    if s == [] then true
    else if IsWordChar(s[0]) then
      var run := WordPrefix(s);
      !SameIgnoringCase(run, w) && FreeOf(s[|run|..], w)
    else FreeOf(s[1..], w)
  }

  /**
   * `replace(/\bw\b/gi, '')` for a word `w` of word characters: since `\b`
   * is the edge between a word and a non-word character, the matches are
   * exactly the maximal runs of word characters equal to `w` ignoring case,
   * and those are deleted.
   */
  function RemoveWord(s: string, w: string): (r: string)
    ensures FreeOf(r, w)
    ensures forall c :: c in r ==> c in s
    decreases |s|
  {
    if s == [] then []
    else if IsWordChar(s[0]) then
      var run := WordPrefix(s);
      var rest := RemoveWord(s[|run|..], w);
      if SameIgnoringCase(run, w) then rest
      else
        assert WordPrefix(run + rest) == run by { WordPrefixOfRun(run, rest); }
        assert (run + rest)[|run|..] == rest;
        run + rest
    else
      var rest := RemoveWord(s[1..], w);
      assert ([s[0]] + rest)[1..] == rest;
      [s[0]] + rest
  }

  /** The deletion only takes word characters: every other character stays, a leading one in front. */
  lemma {:induction false} RemoveWordKeepsSeparators(s: string, w: string)
    ensures s != [] && !IsWordChar(s[0]) ==> RemoveWord(s, w) != [] && RemoveWord(s, w)[0] == s[0]
    ensures forall i :: 0 <= i < |s| && !IsWordChar(s[i]) ==> s[i] in RemoveWord(s, w)
    decreases |s|
  {
    if s != [] {
      var r := RemoveWord(s, w);
      if IsWordChar(s[0]) {
        var run := WordPrefix(s);
        var tail := s[|run|..];
        var rest := RemoveWord(tail, w);
        RemoveWordKeepsSeparators(tail, w);
        assert r == rest || r == run + rest;
        assert forall k :: 0 <= k < |run| ==> IsWordChar(s[k]) by {
          forall k | 0 <= k < |run| ensures IsWordChar(s[k]) { assert s[k] == run[k]; }
        }
        forall i | |run| <= i < |s| && !IsWordChar(s[i]) ensures s[i] in r {
          assert s[i] == tail[i - |run|];
          assert s[i] in rest;
        }
      } else {
        var tail := s[1..];
        RemoveWordKeepsSeparators(tail, w);
        forall i | 1 <= i < |s| && !IsWordChar(s[i]) ensures s[i] in r {
          assert s[i] == tail[i - 1];
        }
      }
    }
  }

  /** A slice free of `w` comes out of the deletion unchanged. */
  lemma {:induction false} RemoveWordIdle(s: string, w: string)
    requires FreeOf(s, w)
    ensures RemoveWord(s, w) == s
    decreases |s|
  {
    if s != [] {
      if IsWordChar(s[0]) {
        var run := WordPrefix(s);
        RemoveWordIdle(s[|run|..], w);
        assert s == run + s[|run|..];
      } else {
        RemoveWordIdle(s[1..], w);
        assert s == [s[0]] + s[1..];
      }
    }
  }

  /**
   * `\b` knows only ASCII word characters, so in `MÉNDEZ` the `M` before
   * `É` is a word of its own and the deletion of `M` takes it.
   */
  lemma {:induction false} AccentedNameLosesInitial()
    ensures RemoveWord("M\U{C9}NDEZ", "M") == "\U{C9}NDEZ"
  {
    var s := "M\U{C9}NDEZ";
    WordPrefixOfRun("M", s[1..]);
    assert s == "M" + s[1..];
    assert SameIgnoringCase("M", "M");
    var t := "NDEZ";
    WordPrefixOfRun(t, []);
    assert t + [] == t;
    assert !SameIgnoringCase(t, "M");
    RemoveWordIdle(t[4..], "M");
    assert s[1..][1..] == t;
  }

  /** `s` and `t` have the same word characters at the same places. */
  predicate SameWordChars(s: string, t: string) {
    |s| == |t| && forall i :: 0 <= i < |s| ==> (IsWordChar(s[i]) || IsWordChar(t[i]) ==> s[i] == t[i])
  }

  lemma {:induction false} SameWordCharsTail(s: string, t: string, k: nat)
    requires SameWordChars(s, t) && k <= |s|
    ensures SameWordChars(s[k..], t[k..])
  {
    forall i | 0 <= i < |s| - k ensures IsWordChar(s[k..][i]) || IsWordChar(t[k..][i]) ==> s[k..][i] == t[k..][i] {
      assert s[k..][i] == s[k + i] && t[k..][i] == t[k + i];
    }
  }

  lemma {:induction false} WordPrefixSame(s: string, t: string)
    requires SameWordChars(s, t)
    ensures WordPrefix(s) == WordPrefix(t)
    decreases |s|
  {
    if s != [] && (IsWordChar(s[0]) || IsWordChar(t[0])) {
      SameWordCharsTail(s, t, 1);
      WordPrefixSame(s[1..], t[1..]);
    }
  }

  /** Replacing non-word characters by other non-word characters keeps a slice free of `w`. */
  lemma {:induction false} FreeOfSameWordChars(s: string, t: string, w: string)
    requires SameWordChars(s, t) && FreeOf(s, w)
    ensures FreeOf(t, w)
    decreases |s|
  {
    if s != [] {
      if IsWordChar(s[0]) {
        WordPrefixSame(s, t);
        var run := WordPrefix(s);
        SameWordCharsTail(s, t, |run|);
        FreeOfSameWordChars(s[|run|..], t[|run|..], w);
      } else {
        SameWordCharsTail(s, t, 1);
        FreeOfSameWordChars(s[1..], t[1..], w);
      }
    }
  }

  lemma {:induction false} WordPrefixOfRun(run: string, rest: string)
    requires forall i :: 0 <= i < |run| ==> IsWordChar(run[i])
    requires rest == [] || !IsWordChar(rest[0])
    ensures WordPrefix(run + rest) == run
    decreases |run|
  {
    if run != [] {
      assert (run + rest)[1..] == run[1..] + rest;
      WordPrefixOfRun(run[1..], rest);
    }
  }

  // ---------------------------------------------------------------- the chain

  /** `replace(/\n/g, ' ')` */
  function NewlinesToSpaces(s: string): (r: string)
    ensures |r| == |s| && '\n' !in r
    ensures forall i :: 0 <= i < |s| ==> r[i] == (if s[i] == '\n' then ' ' else s[i])
  {
    seq(|s|, i requires 0 <= i < |s| => if s[i] == '\n' then ' ' else s[i])
  }

  /** The characters `[<>:;]`. */
  predicate IsMarkup(c: char) {
    c == '<' || c == '>' || c == ':' || c == ';'
  }

  predicate NotMarkup(c: char) {
    !IsMarkup(c)
  }

  predicate NotAngle(c: char) {
    c != '>'
  }

  /** The deletions in order: the sex letters, the symbols, then the card's stray label fragments. */
  function StripFragments(s: string): (r: string)
    ensures forall c :: c in r ==> c in s && !IsMarkup(c)
  {
    var noH := RemoveWord(s, "H");
    var noM := RemoveWord(noH, "M");
    var noMarkup := Filter(noM, NotMarkup);
    var noTa := RemoveWord(noMarkup, "ta");
    var noDota := RemoveWord(noTa, "DOTA");
    var noEc := RemoveWord(noDota, "EC");
    var noE := RemoveWord(noEc, "e");
    Filter(noE, NotAngle)
  }

  /** The second removal of `>` finds none left: the symbol deletion already took every `>`. */
  lemma {:induction false} SecondAngleRemovalIsIdle(s: string)
    requires forall c :: c in s ==> c != '>'
    ensures Filter(s, NotAngle) == s
  {
    FilterKeepsAll(s, NotAngle);
  }

  /** Nothing for the deletions to take: none of the six words and none of `<>:;`. */
  predicate NoFragments(s: string) {
    && FreeOf(s, "H") && FreeOf(s, "M") && FreeOf(s, "ta") && FreeOf(s, "DOTA")
    && FreeOf(s, "EC") && FreeOf(s, "e")
    && forall c :: c in s ==> !IsMarkup(c)
  }

  /** With nothing to take, the deletions leave the slice as it is. */
  lemma {:induction false} StripFragmentsIdle(s: string)
    requires NoFragments(s)
    ensures StripFragments(s) == s
  {
    RemoveWordIdle(s, "H");
    RemoveWordIdle(s, "M");
    FilterKeepsAll(s, NotMarkup);
    RemoveWordIdle(s, "ta");
    RemoveWordIdle(s, "DOTA");
    RemoveWordIdle(s, "EC");
    RemoveWordIdle(s, "e");
    FilterKeepsAll(s, NotAngle);
  }

  /**
   * The cleaning chain on the text between the markers. Its result holds no
   * line break and none of `<>:;`, has no whitespace at either end and no
   * two whitespace characters in a row, and every whitespace in it is a
   * plain space.
   */
  function CleanName(between: string): (r: string)
    ensures forall c :: c in r ==> c != '\n' && !IsMarkup(c)
    ensures IsTrimmed(r) && NoDoubleSpace(r) && OnlyPlainSpaces(r)
  {
    var flat := NewlinesToSpaces(between);
    var stripped := StripFragments(flat);
    var collapsed := CollapseSpaces(stripped);
    TrimKeeps(collapsed);
    Trim(collapsed)
  }

  /**
   * On a slice with nothing for the deletions to take, the cleaning leaves
   * exactly the slice's words, in order, joined by single spaces.
   */
  lemma {:induction false} CleanNameKeepsWords(between: string)
    requires NoFragments(between)
    ensures CleanName(between) == Join(Tokens(between), " ")
  {
    var flat := NewlinesToSpaces(between);
    assert SameWordChars(between, flat);
    FreeOfSameWordChars(between, flat, "H");
    FreeOfSameWordChars(between, flat, "M");
    FreeOfSameWordChars(between, flat, "ta");
    FreeOfSameWordChars(between, flat, "DOTA");
    FreeOfSameWordChars(between, flat, "EC");
    FreeOfSameWordChars(between, flat, "e");
    assert forall c :: c in flat ==> !IsMarkup(c) by {
      forall c | c in flat ensures !IsMarkup(c) {
        var i :| 0 <= i < |flat| && flat[i] == c;
        assert flat[i] == ' ' || flat[i] == between[i];
      }
    }
    StripFragmentsIdle(flat);
    var collapsed := CollapseSpaces(flat);
    TrimIsJoinOfTokens(collapsed);
    CollapseSpacesTokens(flat);
    assert SameUpToSpaces(between, flat);
    TokensUpToSpaces(between, flat);
  }

  /** The first `SEXO` ends before the first `DOMICIL` starts once `DOMICIL` comes later: `substring` never swaps. */
  lemma {:induction false} MarkersDoNotOverlap(u: string, iS: int, iD: int)
    requires OccursAt(u, "SEXO", iS) && OccursAt(u, "DOMICIL", iD)
    requires iD > iS
    ensures iS + 4 <= iD
  {
    assert u[iD] == u[iD..iD + 7][0] == 'D';
    assert forall j :: iS <= j < iS + 4 ==> u[j] == u[iS..iS + 4][j - iS] != 'D';
  }

  /**
   * The name the endpoint answers with, from the recognised text: the
   * markers are searched in the upper-cased text, the slice between them is
   * taken from the original text, and an empty or missing name is replaced
   * by the sentinel.
   */
  method ExtractName(text: string) returns (answer: string)
    ensures |answer| > 0
    ensures var u := ToUpper(text);
            var iS, iD := IndexOf(u, "SEXO"), IndexOf(u, "DOMICIL");
            iS == -1 || iD == -1 || iD <= iS ==> answer == Sentinel
    ensures var u := ToUpper(text);
            var iS, iD := IndexOf(u, "SEXO"), IndexOf(u, "DOMICIL");
            iS != -1 && iD != -1 && iD > iS ==>
              && 0 <= iS + 4 <= iD <= |text|
              && var name := CleanName(text[iS + 4..iD]);
                 answer == if |name| == 0 then Sentinel else name
  {
    var textoCompleto := ToUpper(text);
    var nombre := "";
    var indiceSexo := IndexOf(textoCompleto, "SEXO");
    var indiceDomicilio := IndexOf(textoCompleto, "DOMICIL");
    if indiceSexo != -1 && indiceDomicilio != -1 && indiceDomicilio > indiceSexo {
      MarkersDoNotOverlap(textoCompleto, indiceSexo, indiceDomicilio);
      var despuesSexo := indiceSexo + 4;
      var between := Substring(text, despuesSexo, indiceDomicilio);
      nombre := CleanName(between);
    } else {
      nombre := Sentinel;
    }
    answer := if |nombre| == 0 then Sentinel else nombre;
  }
}
