/**
 * Reading the holder's name from OCR text of the printed face of an INE
 * credential: four heuristics tried in order (upper-case lines, keyword
 * patterns, upper-case words, the first longer lines), then a placeholder for
 * a field that is still missing.
 */
module OcrReader {
  import opened Wrappers
  import opened JsString

  /** `INEDataOCR`: the name read from the card and the text it was read from. */
  datatype INEDataOCR = INEDataOCR(nombre: string, apellidoPaterno: string, rawText: string)

  /** What a field that no heuristic filled shows. */
  const NotDetected := "NO DETECTADO"

  // ---------------------------------------------------------------- character classes

  predicate IsAccentedCapital(c: char) {
    c == '\U{C1}' || c == '\U{C9}' || c == '\U{CD}' || c == '\U{D3}' || c == '\U{DA}' || c == '\U{D1}'
  }

  predicate IsAccentedLower(c: char) {
    c == '\U{E1}' || c == '\U{E9}' || c == '\U{ED}' || c == '\U{F3}' || c == '\U{FA}' || c == '\U{F1}'
  }

  /** `[A-ZÁÉÍÓÚÑ]` */
  predicate IsCapital(c: char) {
    ('A' <= c <= 'Z') || IsAccentedCapital(c)
  }

  /** `[A-ZÁÉÍÓÚÑ\s]` */
  predicate IsNameChar(c: char) {
    IsCapital(c) || IsSpace(c)
  }

  /** `[:\s]` */
  predicate IsColonOrSpace(c: char) {
    c == ':' || IsSpace(c)
  }

  /** `[\w\sÁÉÍÓÚÑáéíóúñ]`: what the first clean-up step keeps. */
  predicate IsKept(c: char) {
    IsWordChar(c) || IsSpace(c) || IsAccentedCapital(c) || IsAccentedLower(c)
  }

  // ---------------------------------------------------------------- the text, its lines, its words

  /**
   * `cleanText`: every character outside `[\w\sÁÉÍÓÚÑáéíóúñ]` becomes a space,
   * whitespace runs become one space, then upper case and trim.
   */
  function CleanText(text: string): (r: string)
    ensures IsTrimmed(r) && NoDoubleSpace(r) && OnlyPlainSpaces(r)
    ensures forall c :: c in r ==> !('a' <= c <= 'z')
  {
    var kept := seq(|text|, i requires 0 <= i < |text| => if IsKept(text[i]) then text[i] else ' ');
    var collapsed := CollapseSpaces(kept);
    var upper := ToUpper(collapsed);
    UpperKeeps(collapsed);
    TrimKeeps(upper);
    Trim(upper)
  }

  /** Upper-casing keeps single plain spaces and leaves no ASCII lower-case letter. */
  lemma {:induction false} UpperKeeps(x: string)
    requires NoDoubleSpace(x) && OnlyPlainSpaces(x)
    ensures NoDoubleSpace(ToUpper(x)) && OnlyPlainSpaces(ToUpper(x))
    ensures forall c :: c in ToUpper(x) ==> !('a' <= c <= 'z')
  {
    var u := ToUpper(x);
    forall i | 0 <= i < |u| ensures IsSpace(u[i]) <==> IsSpace(x[i]) {
      assert u[i] == UpperChar(x[i]);
    }
    forall c | c in u ensures !('a' <= c <= 'z') {
      var i :| 0 <= i < |u| && u[i] == c;
      assert u[i] == UpperChar(x[i]);
    }
  }

  /** `lines`: the text split at line breaks, each piece trimmed, the empty ones dropped. */
  function OcrLines(text: string): (r: seq<string>)
    ensures forall i :: 0 <= i < |r| ==> r[i] != [] && IsTrimmed(r[i])
  {
    var pieces := Split(text, '\n');
    var trimmed := seq(|pieces|, i requires 0 <= i < |pieces| => Trim(pieces[i]));
    Filter(trimmed, IsNonEmpty)
  }

  predicate IsNonEmpty(l: string) {
    |l| > 0
  }

  /** The line pattern `^[A-ZÁÉÍÓÚÑ\s]{3,40}$` of the first heuristic. */
  predicate IsNameLine(l: string) {
    3 <= |l| <= 40 && forall i :: 0 <= i < |l| ==> IsNameChar(l[i])
  }

  predicate TrimsToNameLine(l: string) {
    IsNameLine(Trim(l))
  }

  /** `nameLines`: the lines whose trimmed text matches the line pattern. */
  function NameLines(lines: seq<string>): (r: seq<string>)
    ensures |r| <= |lines|
    ensures forall i :: 0 <= i < |r| ==> IsNameLine(Trim(r[i]))
  {
    Filter(lines, TrimsToNameLine)
  }

  /**
   * A trimmed line is a name line exactly when it has 3 to 40 characters,
   * all capitals, accented capitals or whitespace: the second trim of the
   * source changes nothing.
   */
  lemma {:induction false} NameLinesQualify(lines: seq<string>, l: string)
    requires forall i :: 0 <= i < |lines| ==> IsTrimmed(lines[i])
    requires l in lines
    ensures l in NameLines(lines) <==> IsNameLine(l)
  {
    TrimTrimmed(l);
    assert TrimsToNameLine(l) == IsNameLine(l);
  }

  /** The source trims each name line again before using it; the lines are trimmed already, so that changes nothing. */
  lemma {:induction false} NameLinesUntouchedByTrim(lines: seq<string>)
    requires forall i :: 0 <= i < |lines| ==> IsTrimmed(lines[i])
    ensures forall i :: 0 <= i < |NameLines(lines)| ==> Trim(NameLines(lines)[i]) == NameLines(lines)[i]
  {
    var nl := NameLines(lines);
    forall i | 0 <= i < |nl| ensures Trim(nl[i]) == nl[i] {
      assert nl[i] in nl;
      assert nl[i] in lines;
      TrimTrimmed(nl[i]);
    }
  }

  /** A name line keeps at least three characters once trimmed. */
  lemma {:induction false} NameLineLong(lines: seq<string>, i: nat)
    requires i < |NameLines(lines)|
    ensures |Trim(NameLines(lines)[i])| >= 3
  {
    assert TrimsToNameLine(NameLines(lines)[i]);
  }

  /** The words of the third heuristic: the space-separated words of `cleanText` of three or more capitals. */
  predicate IsUpperWord(w: string) {
    |w| > 2 && forall i :: 0 <= i < |w| ==> IsCapital(w[i])
  }

  function UpperWords(text: string): (r: seq<string>)
    ensures forall i :: 0 <= i < |r| ==> IsUpperWord(r[i])
  {
    Filter(Split(CleanText(text), ' '), IsUpperWord)
  }

  predicate IsLong(l: string) {
    |l| > 2
  }

  /** The lines of the fourth heuristic: those longer than two characters, upper-cased and trimmed. */
  function LongLines(lines: seq<string>): seq<string> {
    var long := Filter(lines, IsLong);
    seq(|long|, i requires 0 <= i < |long| => Trim(ToUpper(long[i])))
  }

  /** The lines the fourth heuristic takes are those longer than two characters, upper-cased. */
  lemma {:induction false} LongLinesShape(lines: seq<string>)
    requires forall i :: 0 <= i < |lines| ==> IsTrimmed(lines[i])
    ensures |LongLines(lines)| <= |lines|
    ensures forall i :: 0 <= i < |LongLines(lines)| ==> |LongLines(lines)[i]| > 2
  {
    var long := Filter(lines, IsLong);
    forall i | 0 <= i < |long| ensures |Trim(ToUpper(long[i]))| > 2 {
      var l := long[i];
      var u := ToUpper(l);
      assert IsTrimmed(u);
      TrimTrimmed(u);
    }
  }

  // ---------------------------------------------------------------- the keyword patterns

  /** How many characters from `j` on satisfy `p`. */
  function Run(s: string, j: nat, p: char -> bool): (n: nat)
    requires j <= |s|
    ensures j + n <= |s|
    ensures forall k :: j <= k < j + n ==> p(s[k])
    ensures j + n < |s| ==> !p(s[j + n])
    decreases |s| - j
  {
    if j < |s| && p(s[j]) then 1 + Run(s, j + 1, p) else 0
  }

  /** A stretch of `m` characters satisfying `p` makes the run at least that long. */
  lemma {:induction false} RunAtLeast(s: string, j: nat, p: char -> bool, m: nat)
    requires j + m <= |s|
    requires forall k :: j <= k < j + m ==> p(s[k])
    ensures Run(s, j, p) >= m
    decreases m
  {
    if m > 0 {
      RunAtLeast(s, j + 1, p, m - 1);
    }
  }

  /** Both patterns capture at most this many characters. */
  const MaxCapture := 30

  /** What the capture group `([A-ZÁÉÍÓÚÑ\s]{lo,30})` can hold. */
  predicate CaptureShaped(c: string, lo: nat) {
    lo <= |c| <= MaxCapture && forall i :: 0 <= i < |c| ==> IsNameChar(c[i])
  }

  /** A run of at least `lo` name characters starts at `k`: the capture group can match there. */
  predicate Fits(s: string, k: nat, lo: nat)
    requires k <= |s|
  {
    Run(s, k, IsNameChar) >= lo
  }

  /**
   * What the capture group takes at `k`: the run of name characters there,
   * cut at 30, since nothing follows the group in the pattern.
   */
  function CaptureFrom(s: string, k: nat): (c: string)
    requires k <= |s|
    ensures |c| == Min(Run(s, k, IsNameChar), MaxCapture)
    ensures forall i :: 0 <= i < |c| ==> c[i] == s[k + i] && IsNameChar(c[i])
  {
    s[k..k + Min(Run(s, k, IsNameChar), MaxCapture)]
  }

  /** Where the group fits, what it takes has the shape the pattern allows. */
  lemma CaptureFromShaped(s: string, k: nat, lo: nat)
    requires k <= |s| && lo <= MaxCapture && Fits(s, k, lo)
    ensures CaptureShaped(CaptureFrom(s, k), lo)
  {
  }

  /** `s[j..k]` is all colons and whitespace: a place where `[:\s]*` from `j` can stop. */
  predicate Gap(s: string, j: nat, k: nat) {
    j <= k <= |s| && forall i :: j <= i < k ==> IsColonOrSpace(s[i])
  }

  /** `[:\s]*([A-ZÁÉÍÓÚÑ\s]{lo,30})` cannot match from `j`: the group fits at no place `[:\s]*` can reach. */
  ghost predicate NoFitAfter(s: string, j: nat, lo: nat) {
    forall k :: Gap(s, j, k) ==> !Fits(s, k, lo)
  }

  /**
   * `[:\s]*([A-ZÁÉÍÓÚÑ\s]{lo,30})` from `j` puts the group at `k`: the greedy
   * `[:\s]*` gives back characters until the group fits, so `k` is the last
   * place it can reach where the group fits.
   */
  ghost predicate LastFitAfter(s: string, j: nat, lo: nat, k: nat) {
    Gap(s, j, k) && Fits(s, k, lo) && forall k' :: k < k' && Gap(s, j, k') ==> !Fits(s, k', lo)
  }

  /**
   * The capture group `([A-ZÁÉÍÓÚÑ\s]{lo,30})` tried at `q`, then at `q - 1`
   * and so on down to `j`: the greedy `[:\s]*` before it gives back one
   * character at a time. The result is where the group starts: the last
   * place in `j..q` where it fits, or none when it fits nowhere there.
   */
  function CaptureBack(s: string, j: nat, q: nat, lo: nat): (r: Option<nat>)
    requires j <= q <= |s|
    ensures r.None? ==> forall k :: j <= k <= q ==> !Fits(s, k, lo)
    ensures r.Some? ==> && j <= r.value <= q && Fits(s, r.value, lo)
                        && forall k :: r.value < k <= q ==> !Fits(s, k, lo)
    decreases q - j
  {
    if Fits(s, q, lo) then Some(q)
    else if q == j then None
    else CaptureBack(s, j, q - 1, lo)
  }

  /** A stretch of colons and whitespace from `j` lies inside the greedy run from `j`. */
  lemma {:induction false} GapWithinRun(s: string, j: nat, k: nat)
    requires Gap(s, j, k)
    ensures k <= j + Run(s, j, IsColonOrSpace)
    decreases k - j
  {
    if j < k {
      assert IsColonOrSpace(s[j]);
      GapWithinRun(s, j + 1, k);
    }
  }

  /** The places where `[:\s]*` from `j` can stop are those up to the end of its greedy run. */
  lemma {:induction false} GapUpToRun(s: string, j: nat)
    requires j <= |s|
    ensures forall k: nat :: Gap(s, j, k) <==> j <= k <= j + Run(s, j, IsColonOrSpace)
  {
    var top := j + Run(s, j, IsColonOrSpace);
    forall k: nat | Gap(s, j, k) ensures k <= top {
      GapWithinRun(s, j, k);
    }
  }

  /** `[:\s]*([A-ZÁÉÍÓÚÑ\s]{lo,30})` from `j`: where the group starts, or none. */
  function CaptureAfter(s: string, j: nat, lo: nat): (r: Option<nat>)
    requires j <= |s|
    ensures r.None? ==> NoFitAfter(s, j, lo)
    ensures r.Some? ==> LastFitAfter(s, j, lo, r.value)
  {
    GapUpToRun(s, j);
    CaptureBack(s, j, j + Run(s, j, IsColonOrSpace), lo)
  }

  /**
   * `S?[:\s]*([A-ZÁÉÍÓÚÑ\s]{lo,30})` from `j`: first with the `S` taken,
   * then without it.
   */
  function OptionalSThenCapture(s: string, j: nat, lo: nat): (r: Option<nat>)
    requires j <= |s|
    ensures var sHere := j < |s| && s[j] == 'S';
            r.None? ==> NoFitAfter(s, j, lo) && (sHere ==> NoFitAfter(s, j + 1, lo))
    ensures var sHere := j < |s| && s[j] == 'S';
            r.Some? ==> || (sHere && LastFitAfter(s, j + 1, lo, r.value))
                        || ((sHere ==> NoFitAfter(s, j + 1, lo)) && LastFitAfter(s, j, lo, r.value))
  {
    if j < |s| && s[j] == 'S' then
      var withS := CaptureAfter(s, j + 1, lo);
      if withS.Some? then withS else CaptureAfter(s, j, lo)
    else CaptureAfter(s, j, lo)
  }

  /**
   * `\s*PATERNO[:\s]*([A-ZÁÉÍÓÚÑ\s]{3,30})` from `j`, the second alternative
   * of the surname pattern. `P` is not whitespace, so `\s*` can only stop at
   * the end of its greedy run `m`.
   */
  function PaternoThenCapture(s: string, j: nat): (r: Option<nat>)
    requires j <= |s|
    ensures var m := j + Run(s, j, IsSpace);
            r.None? ==> !OccursAt(s, "PATERNO", m) || NoFitAfter(s, m + 7, 3)
    ensures var m := j + Run(s, j, IsSpace);
            r.Some? ==> OccursAt(s, "PATERNO", m) && LastFitAfter(s, m + 7, 3, r.value)
  {
    var m := j + Run(s, j, IsSpace);
    if OccursAt(s, "PATERNO", m) then CaptureAfter(s, m + 7, 3) else None
  }

  /** The two keyword patterns of the second heuristic. */
  datatype Keyword = Apellido | Nombre

  function KeywordText(k: Keyword): string {
    match k
    case Apellido => "APELLIDO"
    case Nombre => "NOMBRE"
  }

  function MinCapture(k: Keyword): nat {
    match k
    case Apellido => 3
    case Nombre => 2
  }

  /**
   * The pattern tried where its keyword occurs; the alternative
   * `APELLIDO\s*PATERNO` never changes the result:
   * `(?:APELLIDOS?|APELLIDO\s*PATERNO)[:\s]*([A-ZÁÉÍÓÚÑ\s]{3,30})` or
   * `NOMBRE[S]?[:\s]*([A-ZÁÉÍÓÚÑ\s]{2,30})`.
   */
  function MatchAt(s: string, p: nat, k: Keyword): (r: Option<string>)
    requires OccursAt(s, KeywordText(k), p)
    ensures k.Nombre? ==> var at := OptionalSThenCapture(s, p + 6, 2);
            r == if at.None? then None else Some(CaptureFrom(s, at.value))
    ensures k.Apellido? ==> var at := OptionalSThenCapture(s, p + 8, 3);
            r == if at.None? then None else Some(CaptureFrom(s, at.value))
    ensures r.Some? ==> CaptureShaped(r.value, MinCapture(k))
  {
    match k
    case Nombre =>
      var at := OptionalSThenCapture(s, p + 6, 2);
      if at.None? then None
      else
        CaptureFromShaped(s, at.value, 2);
        Some(CaptureFrom(s, at.value))
    case Apellido =>
      var first := OptionalSThenCapture(s, p + 8, 3);
      if first.Some? then
        CaptureFromShaped(s, first.value, 3);
        Some(CaptureFrom(s, first.value))
      else
        var second := PaternoThenCapture(s, p + 8);
        assert second.None? by {
          if second.Some? { PaternoAlternativeSubsumed(s, p); }
        }
        None
  }

  predicate Matches(s: string, p: nat, k: Keyword) {
    OccursAt(s, KeywordText(k), p) && MatchAt(s, p, k).Some?
  }

  datatype Found = Found(pos: nat, capture: string)

  /**
   * `String.prototype.match` without the `g` flag, from `from` on: the
   * leftmost position where the pattern matches and its capture, or nothing
   * when it matches nowhere.
   */
  function Search(s: string, k: Keyword, from: nat): (r: Option<Found>)
    ensures r.None? <==> forall p {:trigger Matches(s, p, k)} :: from <= p ==> !Matches(s, p, k)
    ensures r.Some? ==> && from <= r.value.pos && Matches(s, r.value.pos, k)
                        && MatchAt(s, r.value.pos, k) == Some(r.value.capture)
                        && forall p {:trigger Matches(s, p, k)} :: from <= p < r.value.pos ==> !Matches(s, p, k)
    ensures r.Some? ==> CaptureShaped(r.value.capture, MinCapture(k))
    decreases |s| - from
  {
    if from + |KeywordText(k)| > |s| then
      assert forall p :: from <= p ==> !OccursAt(s, KeywordText(k), p);
      None
    else if Matches(s, from, k) then Some(Found(from, MatchAt(s, from, k).value))
    else Search(s, k, from + 1)
  }

  /**
   * The alternative `APELLIDO\s*PATERNO` never decides a match: wherever it
   * would match, `APELLIDOS?` followed by `[:\s]*` already matches.
   */
  lemma {:induction false} PaternoAlternativeSubsumed(s: string, p: nat)
    requires OccursAt(s, "APELLIDO", p)
    requires PaternoThenCapture(s, p + 8).Some?
    ensures OptionalSThenCapture(s, p + 8, 3).Some?
  {
    var j := p + 8;
    var m := j + Run(s, j, IsSpace);
    PaternoLetters(s, m);
    RunAtLeast(s, m, IsNameChar, 3);
    assert Gap(s, j, m) && Fits(s, m, 3);
  }

  /** `PATERNO` at `m`: its first three letters are capitals, and it starts with neither whitespace nor `S`. */
  lemma {:induction false} PaternoLetters(s: string, m: nat)
    requires OccursAt(s, "PATERNO", m)
    ensures m + 7 <= |s| && s[m] == 'P'
    ensures forall k :: m <= k < m + 3 ==> IsNameChar(s[k])
  {
    var w := s[m..m + 7];
    assert w == "PATERNO";
    assert s[m] == w[0] && s[m + 1] == w[1] && s[m + 2] == w[2];
  }

  /**
   * So `APELLIDO PATERNO GARCIA` does not skip the word `PATERNO`: where
   * `APELLIDO` is followed by one space and `PATERNO`, the match there
   * captures from `PATERNO` on.
   */
  lemma {:induction false} PaternoIsCaptured(s: string, p: nat)
    requires OccursAt(s, "APELLIDO", p)
    requires p + 8 < |s| && s[p + 8] == ' ' && OccursAt(s, "PATERNO", p + 9)
    ensures var c := MatchAt(s, p, Apellido);
            c.Some? && |c.value| >= 7 && c.value[..7] == "PATERNO"
  {
    var j := p + 8;
    assert s[j + 1..j + 8] == "PATERNO";
    forall k | j + 1 <= k < j + 8 ensures IsNameChar(s[k]) && s[k] == "PATERNO"[k - j - 1] {
      assert s[k] == s[j + 1..j + 8][k - j - 1];
    }
    assert Run(s, j + 1, IsColonOrSpace) == 0;
    assert Run(s, j, IsColonOrSpace) == 1;
    GapUpToRun(s, j);
    RunAtLeast(s, j + 1, IsNameChar, 7);
    assert Gap(s, j, j + 1) && Fits(s, j + 1, 3);
    var at := OptionalSThenCapture(s, j, 3);
    assert at.Some? && at.value == j + 1;
    var c := CaptureFrom(s, j + 1);
    assert c[..7] == s[j + 1..j + 8];
  }

  /** The surname the second heuristic reads: at most the first two words of its capture, or `""`. */
  function KeywordSurname(text: string): (r: string)
    ensures |Tokens(r)| <= 2
    ensures r == Join(Tokens(r), " ")
    ensures var m := Search(ToUpper(text), Apellido, 0);
            && (m.None? ==> r == "")
            && (m.Some? ==> Tokens(r) == Tokens(m.value.capture)[..Min(2, |Tokens(m.value.capture)|)])
  {
    match Search(ToUpper(text), Apellido, 0)
    case None => ""
    case Some(f) => FirstWords(f.capture, 2)
  }

  /** The given name the second heuristic reads: at most the first three words of its capture, or `""`. */
  function KeywordGiven(text: string): (r: string)
    ensures |Tokens(r)| <= 3
    ensures r == Join(Tokens(r), " ")
    ensures var m := Search(ToUpper(text), Nombre, 0);
            && (m.None? ==> r == "")
            && (m.Some? ==> Tokens(r) == Tokens(m.value.capture)[..Min(3, |Tokens(m.value.capture)|)])
  {
    match Search(ToUpper(text), Nombre, 0)
    case None => ""
    case Some(f) => FirstWords(f.capture, 3)
  }

  /** The given name of the third heuristic, `words.slice(1, 3).join(' ')`: the second word, then the third if there is one. */
  function WordsGiven(w: seq<string>): (g: string)
    requires |w| >= 2
    ensures |g| >= |w[1]|
  {
    if |w| == 2 then w[1] else w[1] + " " + w[2]
  }

  /**
   * That given name is `join(' ')` of the second and third words (or of the
   * second alone), and its words are exactly those one or two words.
   */
  lemma {:induction false} UpperWordsGiven(w: seq<string>)
    requires |w| >= 2
    requires forall i :: 0 <= i < |w| ==> IsUpperWord(w[i])
    ensures WordsGiven(w) == Join(w[1..Min(3, |w|)], " ")
    ensures Tokens(WordsGiven(w)) == w[1..Min(3, |w|)]
    ensures 1 <= |Tokens(WordsGiven(w))| <= 2
  {
    var kept := w[1..Min(3, |w|)];
    if |w| > 2 {
      assert kept == [w[1]] + [w[2]];
      JoinCons(w[1], [w[2]], " ");
    }
    forall i | 0 <= i < |kept| ensures kept[i] != [] && NoSpace(kept[i]) {
      assert IsUpperWord(kept[i]);
    }
    TokensOfJoin(kept);
  }

  /** The surname and the given name of the third heuristic both have more than two characters. */
  lemma {:induction false} UpperWordsLong(w: seq<string>)
    requires |w| >= 2 && IsUpperWord(w[0]) && IsUpperWord(w[1])
    ensures |w[0]| > 2 && |WordsGiven(w)| > 2
  {
  }

  /** A field that is still empty shows the placeholder; a filled one shows itself. */
  function OrNotDetected(field: string): (r: string)
    ensures |r| > 0
    ensures |field| > 0 ==> r == field
  {
    if |field| == 0 then NotDetected else field
  }

  /**
   * `parseINEFromOCR`. The surname and the name start empty; heuristic 1
   * sets both from the first two name lines; heuristic 2 runs while one is
   * empty and sets each field whose pattern matches; heuristic 3 runs while
   * one is empty and sets both from the upper-case words; heuristic 4 runs
   * only while both are empty and sets both from the first two longer lines.
   * No result when both are still empty; otherwise an empty field shows
   * `NO DETECTADO`.
   */
  method ParseINEFromOCR(text: string) returns (r: Option<INEDataOCR>)
    ensures r.Some? ==> r.value.rawText == text
    ensures r.Some? ==> |r.value.apellidoPaterno| > 0 && |r.value.nombre| > 0
    // the first heuristic that yields something decides, in the source's order
    ensures var lines := OcrLines(text);
            var nl, sur, given, w, ll := NameLines(lines), KeywordSurname(text), KeywordGiven(text), UpperWords(text), LongLines(lines);
            if |nl| >= 2 then r == Some(INEDataOCR(Trim(nl[1]), Trim(nl[0]), text))
            else if |sur| > 0 && |given| > 0 then r == Some(INEDataOCR(given, sur, text))
            else if |w| >= 2 then r == Some(INEDataOCR(WordsGiven(w), w[0], text))
            else if |sur| > 0 || |given| > 0 then r == Some(INEDataOCR(OrNotDetected(given), OrNotDetected(sur), text))
            else if |ll| >= 2 then r == Some(INEDataOCR(ll[1], ll[0], text))
            else r == None
  {
    var lines := OcrLines(text);
    var apellidoPaterno := "";
    var nombre := "";

    // Heuristic 1: lines made of capitals and spaces.
    var nameLines := NameLines(lines);
    if |nameLines| >= 2 {
      apellidoPaterno := Trim(nameLines[0]);
      nombre := Trim(nameLines[1]);
      NameLineLong(lines, 0);
      NameLineLong(lines, 1);
    }

    // Heuristic 2: the keyword patterns.
    if |apellidoPaterno| == 0 || |nombre| == 0 {
      var upperText := ToUpper(text);
      var apellidoMatch := Search(upperText, Apellido, 0);
      if apellidoMatch.Some? {
        apellidoPaterno := FirstWords(apellidoMatch.value.capture, 2);
      }
      var nombreMatch := Search(upperText, Nombre, 0);
      if nombreMatch.Some? {
        nombre := FirstWords(nombreMatch.value.capture, 3);
      }
    }

    // Heuristic 3: the upper-case words of the cleaned text.
    if |apellidoPaterno| == 0 || |nombre| == 0 {
      var words := UpperWords(text);
      if |words| >= 2 {
        apellidoPaterno := words[0];
        nombre := WordsGiven(words);
        UpperWordsLong(words);
      }
    }

    // Heuristic 4: the first two longer lines.
    if |apellidoPaterno| == 0 && |nombre| == 0 {
      var allWords := LongLines(lines);
      LongLinesShape(lines);
      if |allWords| >= 2 {
        apellidoPaterno := allWords[0];
        nombre := allWords[1];
        assert |apellidoPaterno| > 2 && |nombre| > 2;
      }
    }

    if |apellidoPaterno| == 0 && |nombre| == 0 {
      return None;
    }
    r := Some(INEDataOCR(OrNotDetected(nombre), OrNotDetected(apellidoPaterno), text));
  }
}
