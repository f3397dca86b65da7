/**
 * The INE/IFE credential payload read from a PDF417 barcode: a `|`-separated
 * text whose first fifteen pieces are the credential's fields at fixed
 * positions, and the fixed text report rendered from the parsed record.
 */
module IneParser {
  import opened Wrappers
  import opened JsString

  /** The parsed credential. Every field but `raw` is a trimmed piece of the payload. */
  datatype INEData = INEData(
    apellidoPaterno: string,
    apellidoMaterno: string,
    nombres: string,
    curp: string,
    claveElector: string,
    fechaNacimiento: string,
    sexo: string,
    domicilio: string,
    seccion: string,
    municipio: string,
    estado: string,
    vigencia: string,
    emision: string,
    raw: string)

  /** Fewer pieces than this and the payload is not a credential. */
  const MinParts := 15

  /** The record read from pieces `p[0]` to `p[14]`, `raw` given separately. */
  function FieldsOf(p: seq<string>, raw: string): (d: INEData)
    requires |p| >= MinParts
    ensures FieldsTrimmed(d) && d.raw == raw
  {
    INEData(
      apellidoPaterno := Trim(p[0]),
      apellidoMaterno := Trim(p[1]),
      nombres := Trim(p[2]),
      curp := Trim(p[3]),
      claveElector := Trim(p[4]),
      fechaNacimiento := Trim(p[5]),
      sexo := Trim(p[6]),
      domicilio := Trim(p[7] + " " + p[8] + " " + p[9]),
      seccion := Trim(p[10]),
      municipio := Trim(p[11]),
      estado := Trim(p[12]),
      vigencia := Trim(p[13]),
      emision := Trim(p[14]),
      raw := raw)
  }

  /** Every derived field is trimmed. */
  predicate FieldsTrimmed(d: INEData) {
    && IsTrimmed(d.apellidoPaterno) && IsTrimmed(d.apellidoMaterno) && IsTrimmed(d.nombres)
    && IsTrimmed(d.curp) && IsTrimmed(d.claveElector) && IsTrimmed(d.fechaNacimiento)
    && IsTrimmed(d.sexo) && IsTrimmed(d.domicilio) && IsTrimmed(d.seccion)
    && IsTrimmed(d.municipio) && IsTrimmed(d.estado) && IsTrimmed(d.vigencia)
    && IsTrimmed(d.emision)
  }

  /**
   * `parseINECredential`: no record exactly when the payload has fewer than
   * fourteen `|` characters (fewer than fifteen pieces); otherwise the record
   * keeps the payload verbatim in `raw` and its other fields are trimmed.
   * Every piece is present once there are fifteen, so the `|| ''` defaults of
   * the source never change a value. The CURP is piece 3 whatever its length.
   */
  function ParseINECredential(rawText: string): (r: Option<INEData>)
    ensures r.None? <==> Count(rawText, '|') < MinParts - 1
    ensures r.Some? ==> r.value.raw == rawText && FieldsTrimmed(r.value)
  {
    SplitPieces(rawText, '|');
    var parts := Split(rawText, '|');
    if |parts| < MinParts then None else Some(FieldsOf(parts, rawText))
  }

  /**
   * Reading a payload built by joining pieces with `|`: the record's fields
   * are the trimmed pieces 0-6 and 10-14 in schema order, `domicilio` is
   * pieces 7, 8 and 9 joined by spaces and trimmed as a whole, and `raw` is
   * the payload.
   */
  lemma {:induction false} ParseJoined(pieces: seq<string>)
    requires |pieces| >= MinParts
    requires forall i :: 0 <= i < |pieces| ==> '|' !in pieces[i]
    ensures var payload := Join(pieces, "|");
            ParseINECredential(payload) == Some(FieldsOf(pieces, payload))
  {
    SplitJoin(pieces, '|');
  }

  /** Two payloads that agree on their first fifteen pieces give records that differ at most in `raw`. */
  lemma {:induction false} SamePrefixSameFields(pieces: seq<string>, other: seq<string>)
    requires |pieces| >= MinParts && |other| >= MinParts
    requires forall i :: 0 <= i < |pieces| ==> '|' !in pieces[i]
    requires forall i :: 0 <= i < |other| ==> '|' !in other[i]
    requires forall i :: 0 <= i < MinParts ==> other[i] == pieces[i]
    ensures var a := ParseINECredential(Join(pieces, "|"));
            var b := ParseINECredential(Join(other, "|"));
            a.Some? && b.Some? && b.value == a.value.(raw := Join(other, "|"))
  {
    ParseJoined(other);
    ParseJoined(pieces);
    assert FieldsOf(other, Join(other, "|")) == FieldsOf(pieces, Join(pieces, "|")).(raw := Join(other, "|"));
  }

  /** Pieces after the fifteenth change nothing but `raw`. */
  lemma {:induction false} ExtraPiecesIgnored(pieces: seq<string>, extra: seq<string>)
    requires |pieces| >= MinParts
    requires forall i :: 0 <= i < |pieces| ==> '|' !in pieces[i]
    requires forall i :: 0 <= i < |extra| ==> '|' !in extra[i]
    ensures var a := ParseINECredential(Join(pieces, "|"));
            var b := ParseINECredential(Join(pieces + extra, "|"));
            a.Some? && b.Some? && b.value == a.value.(raw := Join(pieces + extra, "|"))
  {
    var all := pieces + extra;
    forall i | 0 <= i < |all| ensures '|' !in all[i] {
      if i < |pieces| { assert all[i] == pieces[i]; } else { assert all[i] == extra[i - |pieces|]; }
    }
    SamePrefixSameFields(pieces, all);
  }

  /**
   * The CURP is not checked: any pipe-free, trimmed token in position 3 is
   * taken as it is, whatever its length (17 and 19 included).
   */
  lemma {:induction false} CurpIsPieceThree(pieces: seq<string>)
    requires |pieces| >= MinParts
    requires forall i :: 0 <= i < |pieces| ==> '|' !in pieces[i]
    requires IsTrimmed(pieces[3])
    ensures ParseINECredential(Join(pieces, "|")).Some?
    ensures ParseINECredential(Join(pieces, "|")).value.curp == pieces[3]
  {
    ParseJoined(pieces);
    TrimTrimmed(pieces[3]);
  }

  /** A payload whose piece 3 is a 17-character CURP is accepted with that CURP. */
  lemma {:induction false} ShortCurpAccepted()
    ensures var r := ParseINECredential(Join(["GARCIA", "LOPEZ", "JUAN", "GALJ800101HDFRNN0", "K", "F", "H",
                                               "C", "1", "X", "0001", "M", "E", "2020", "2030"], "|"));
            r.Some? && r.value.curp == "GALJ800101HDFRNN0" && |r.value.curp| == 17
  {
    var pieces := ["GARCIA", "LOPEZ", "JUAN", "GALJ800101HDFRNN0", "K", "F", "H",
                   "C", "1", "X", "0001", "M", "E", "2020", "2030"];
    CurpIsPieceThree(pieces);
  }

  /** Payloads with fewer than fifteen pieces are rejected, whatever they hold. */
  lemma {:induction false} FewPiecesRejected(pieces: seq<string>)
    requires 1 <= |pieces| < MinParts
    requires forall i :: 0 <= i < |pieces| ==> '|' !in pieces[i]
    ensures ParseINECredential(Join(pieces, "|")).None?
  {
    SplitJoin(pieces, '|');
  }

  /**
   * `domicilio` trims the joined address only as a whole: with trimmed,
   * non-empty pieces 7, 8 and 9 it is exactly those pieces separated by single spaces.
   */
  lemma {:induction false} DomicilioOfTrimmedPieces(pieces: seq<string>)
    requires |pieces| >= MinParts
    requires forall i :: 0 <= i < |pieces| ==> '|' !in pieces[i]
    requires pieces[7] != [] && IsTrimmed(pieces[7]) && pieces[9] != [] && IsTrimmed(pieces[9])
    ensures ParseINECredential(Join(pieces, "|")).Some?
    ensures ParseINECredential(Join(pieces, "|")).value.domicilio
            == pieces[7] + " " + pieces[8] + " " + pieces[9]
  {
    ParseJoined(pieces);
    var a := pieces[7] + " " + pieces[8] + " " + pieces[9];
    assert a[0] == pieces[7][0] && a[|a| - 1] == pieces[9][|pieces[9]| - 1];
    TrimTrimmed(a);
  }

  // ---------------------------------------------------------------- formatINEData

  // The report's headings as they stand in the source file: UTF-8 emoji and
  // accents read back as Windows-1252, kept character for character.
  const TitleLine := "\U{F0}\U{178}\U{201C}\U{2039} DATOS DE CREDENCIAL INE/IFE"
  const NameHeading := "\U{F0}\U{178}\U{2018}\U{A4} Nombre Completo:"
  const IdHeading := "\U{F0}\U{178}\U{2020}\U{201D} Identificaci\U{C3}\U{B3}n:"
  const PersonalHeading := "\U{F0}\U{178}\U{201C}\U{2026} Datos Personales:"
  const ElectoralHeading := "\U{F0}\U{178}\U{201C} Ubicaci\U{C3}\U{B3}n Electoral:"
  const AddressHeading := "\U{F0}\U{178}\U{A0} Domicilio:"
  const ValidityHeading := "\U{F0}\U{178}\U{201C}\U{2026} Vigencia:"
  const Bullet := "\U{E2}\U{20AC}\U{A2} "
  const SeccionLabel := "Secci\U{C3}\U{B3}n: "
  const EmisionLabel := "Emisi\U{C3}\U{B3}n: "

  /** The report's lines, in order, before the whole text is trimmed. */
  function ReportLines(d: INEData): (r: seq<string>)
    ensures |r| == LastLine + 1
  {
    [ TitleLine,
      "",
      NameHeading,
      d.apellidoPaterno + " " + d.apellidoMaterno + " " + d.nombres,
      "",
      IdHeading,
      Bullet + "CURP: " + d.curp,
      Bullet + "Clave Elector: " + d.claveElector,
      "",
      PersonalHeading,
      Bullet + "Fecha Nacimiento: " + d.fechaNacimiento,
      Bullet + "Sexo: " + d.sexo,
      "",
      ElectoralHeading,
      Bullet + SeccionLabel + d.seccion,
      Bullet + "Municipio: " + d.municipio,
      Bullet + "Estado: " + d.estado,
      "",
      AddressHeading,
      d.domicilio,
      "",
      ValidityHeading,
      Bullet + EmisionLabel + d.emision,
      Bullet + "Vigencia: " + d.vigencia ]
  }

  /** Index of the last report line, the `Vigencia` bullet; the `Emisión` bullet is the one before it. */
  const LastLine := 23

  /**
   * `formatINEData`: the template starts and ends with a line break and the
   * whole text is trimmed, so the report has no surrounding whitespace.
   */
  function FormatINEData(d: INEData): (r: string)
    ensures IsTrimmed(r)
  {
    Trim("\n" + Join(ReportLines(d), "\n") + "\n")
  }

  /** Where report line `i` starts in the report. */
  function LineStart(d: INEData, i: nat): nat
    requires i <= LastLine
  {
    JoinOffset(ReportLines(d)[..LastLine], i, "\n")
  }

  /**
   * Lines joined by line breaks between two more line breaks, then trimmed:
   * when the first and the last line start with a non-whitespace character,
   * only the last line's trailing whitespace is cut.
   */
  lemma {:induction false} FramedTrim(lines: seq<string>)
    requires |lines| >= 2
    requires lines[0] != [] && !IsSpace(lines[0][0])
    requires lines[|lines| - 1] != [] && !IsSpace(lines[|lines| - 1][0])
    ensures var n := |lines| - 1;
            Trim("\n" + Join(lines, "\n") + "\n") == Join(lines[..n], "\n") + "\n" + TrimEnd(lines[n])
  {
    var n := |lines| - 1;
    var body := Join(lines, "\n");
    var front := Join(lines[..n], "\n") + "\n";
    var last := lines[n];
    JoinAt(lines, n, "\n");
    assert body == front + last;
    JoinAt(lines, 0, "\n");
    assert body[0] == lines[0][0];
    var text := "\n" + body + "\n";
    assert text[1] == body[0];
    TrimStartIs(text, 1);
    assert text[1..] == front + (last + "\n");
    assert HasNonSpace(last + "\n") by {
      assert (last + "\n")[0] == last[0];
    }
    TrimEndAppend(front, last + "\n");
    LastLineTrim(last);
  }

  /** The line break after the last line goes with the rest of its trailing whitespace. */
  lemma {:induction false} LastLineTrim(last: string)
    requires last != [] && !IsSpace(last[0])
    ensures TrimEnd(last + "\n") == TrimEnd(last)
  {
    var x := last + "\n";
    var m := |TrimEnd(last)|;
    TrailingCut(last);
    assert m > 0;
    forall i | m <= i < |x| ensures IsSpace(x[i]) {
      if i < |last| { assert x[i] == last[i]; }
    }
    assert x[m - 1] == last[m - 1];
    TrimEndIs(x, m);
    assert x[..m] == last[..m];
  }

  /**
   * The report is the joined lines with only the last line's trailing
   * whitespace cut: every line but the last stands whole at its place.
   */
  lemma {:induction false} FormatShape(d: INEData)
    ensures var lines := ReportLines(d);
            FormatINEData(d) == Join(lines[..LastLine], "\n") + "\n" + TrimEnd(lines[LastLine])
  {
    var lines := ReportLines(d);
    assert lines[0][0] == '\U{F0}';
    assert lines[LastLine][0] == '\U{E2}';
    FramedTrim(lines);
  }

  /** In such a framed and trimmed text every line but the last stands whole at its place in the join. */
  lemma {:induction false} FramedLineAt(lines: seq<string>, i: nat)
    requires |lines| >= 2 && i < |lines| - 1
    requires lines[0] != [] && !IsSpace(lines[0][0])
    requires lines[|lines| - 1] != [] && !IsSpace(lines[|lines| - 1][0])
    ensures var n := |lines| - 1;
            OccursAt(Trim("\n" + Join(lines, "\n") + "\n"), lines[i], JoinOffset(lines[..n], i, "\n"))
  {
    var n := |lines| - 1;
    var front := lines[..n];
    var tail := "\n" + TrimEnd(lines[n]);
    FramedTrim(lines);
    assert Join(front, "\n") + "\n" + TrimEnd(lines[n]) == Join(front, "\n") + ("\n" + TrimEnd(lines[n]));
    OccursInJoin(front, i, "\n", tail);
    assert front[i] == lines[i];
  }

  /** Every report line before the last occurs whole in the report, at its place. */
  lemma {:induction false} FormatContainsLine(d: INEData, i: nat)
    requires i < LastLine
    ensures OccursAt(FormatINEData(d), ReportLines(d)[i], LineStart(d, i))
  {
    var lines := ReportLines(d);
    assert lines[0][0] == '\U{F0}';
    assert lines[LastLine][0] == '\U{E2}';
    FramedLineAt(lines, i);
  }

  /**
   * The CURP, elector-key and sex lines appear in the report, the name line
   * joins the three name fields with single spaces, and `sexo` is shown as it is.
   */
  lemma {:induction false} FormatShowsIdentity(d: INEData)
    ensures OccursAt(FormatINEData(d), Bullet + "CURP: " + d.curp, LineStart(d, 6))
    ensures OccursAt(FormatINEData(d), Bullet + "Clave Elector: " + d.claveElector, LineStart(d, 7))
    ensures OccursAt(FormatINEData(d), Bullet + "Sexo: " + d.sexo, LineStart(d, 11))
    ensures OccursAt(FormatINEData(d), d.apellidoPaterno + " " + d.apellidoMaterno + " " + d.nombres,
                     LineStart(d, 3))
  {
    var lines := ReportLines(d);
    assert lines[3] == d.apellidoPaterno + " " + d.apellidoMaterno + " " + d.nombres;
    assert lines[6] == Bullet + "CURP: " + d.curp;
    assert lines[7] == Bullet + "Clave Elector: " + d.claveElector;
    assert lines[11] == Bullet + "Sexo: " + d.sexo;
    FormatContainsLine(d, 3);
    FormatContainsLine(d, 6);
    FormatContainsLine(d, 7);
    FormatContainsLine(d, 11);
  }

  /** The `Emisión` line ends before the `Vigencia` bullet starts. */
  lemma {:induction false} FormatEmisionBeforeVigencia(d: INEData)
    ensures OccursAt(FormatINEData(d), Bullet + EmisionLabel + d.emision, LineStart(d, LastLine - 1))
    ensures OccursAt(FormatINEData(d), Bullet + "Vigencia:", LineStart(d, LastLine))
    ensures LineStart(d, LastLine - 1) + |Bullet + EmisionLabel + d.emision| < LineStart(d, LastLine)
  {
    var lines := ReportLines(d);
    var front := lines[..LastLine];
    assert lines[LastLine - 1] == Bullet + EmisionLabel + d.emision;
    FormatContainsLine(d, LastLine - 1);
    JoinOffsetNext(front, LastLine - 1, "\n");
    assert front[LastLine - 1] == lines[LastLine - 1];
    VigenciaLabelAt(d);
  }

  /** The last line starts with the `Vigencia:` bullet, whatever trimming cut from its end. */
  lemma {:induction false} VigenciaLabelAt(d: INEData)
    ensures OccursAt(FormatINEData(d), Bullet + "Vigencia:", LineStart(d, LastLine))
  {
    var lines := ReportLines(d);
    var front := lines[..LastLine];
    FormatShape(d);
    var tag := Bullet + "Vigencia:";
    assert tag + " " == Bullet + "Vigencia: ";
    assert tag + " " + d.vigencia == tag + (" " + d.vigencia);
    assert tag[|tag| - 1] == ':';
    TrimEndKeepsHead(Join(front, "\n") + "\n", tag, " " + d.vigencia);
    assert front[..LastLine] == front;
  }

  /** Trimming the end of a line that starts with `tag` keeps `tag` when it ends in a non-whitespace character. */
  lemma {:induction false} TrimEndKeepsHead(front: string, tag: string, rest: string)
    requires tag != [] && !IsSpace(tag[|tag| - 1])
    ensures OccursAt(front + TrimEnd(tag + rest), tag, |front|)
  {
    TrimEndAppend(tag, rest);
    assert front + tag + TrimEnd(rest) == front + (tag + TrimEnd(rest));
    var x := front + tag + TrimEnd(rest);
    assert x[|front|..|front| + |tag|] == tag;
  }
}
