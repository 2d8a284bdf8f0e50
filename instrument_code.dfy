/** The 11-character instrument code carried in a row's data-tipo attribute:
    "O", option kind, exercise style, then the expiry as YYYYMMDD. */
module InstrumentCode {
  import opened Wrappers

  datatype OptionKind = Call | Put | UnknownKind
  datatype ExerciseStyle = European | American | UnknownStyle

  /** A decoded code; the expiry is kept as the "DD-MM-YYYY" text the record stores. */
  datatype Instrument = Instrument(kind: OptionKind, style: ExerciseStyle, expirationDate: string)

  /** The ValueError("Invalid tipo format") parse_tipo raises. */
  datatype TipoError = InvalidTipoFormat

  const CodeLength: nat := 11

  /** The text stored in the record's type_CP column. */
  function KindLabel(k: OptionKind): (s: string)
    ensures '_' !in s
  {
    match k
    case Call => "Call"
    case Put => "Put"
    case UnknownKind => "Unknown"
  }

  /** The text stored in the record's type_EA column. */
  function StyleLabel(e: ExerciseStyle): (s: string)
    ensures '_' !in s
  {
    match e
    case European => "European"
    case American => "American"
    case UnknownStyle => "Unknown"
  }

  function DecodeKind(c: char): (k: OptionKind)
    ensures k == Call <==> c == 'C'
    ensures k == Put <==> c == 'P'
    ensures k == UnknownKind <==> c != 'C' && c != 'P'
  {
    if c == 'C' then Call else if c == 'P' then Put else UnknownKind
  }

  function DecodeStyle(c: char): (e: ExerciseStyle)
    ensures e == European <==> c == 'E'
    ensures e == American <==> c == 'A'
    ensures e == UnknownStyle <==> c != 'E' && c != 'A'
  {
    if c == 'E' then European else if c == 'A' then American else UnknownStyle
  }

  /** Rewrites an 8-character YYYYMMDD text as DD-MM-YYYY. */
  function ReorderDate(raw: string): (d: string)
    requires |raw| == 8
    ensures |d| == 10 && d[2] == '-' && d[5] == '-'
    ensures d[0..2] == raw[6..8] && d[3..5] == raw[4..6] && d[6..10] == raw[0..4]
  {
    raw[6..8] + "-" + raw[4..6] + "-" + raw[0..4]
  }

  /** Reading the fields of a reordered date in reverse order restores the raw text. */
  lemma ReorderDateInverse(raw: string)
    requires |raw| == 8
    ensures var d := ReorderDate(raw); d[6..10] + d[3..5] + d[0..2] == raw
  {
    var d := ReorderDate(raw);
    assert d[6..10] + d[3..5] + d[0..2] == raw[0..4] + raw[4..6] + raw[6..8];
    assert raw == raw[0..4] + raw[4..6] + raw[6..8];
  }

  /** parse_tipo: fails exactly on a wrong length or a missing leading 'O';
      the date digits are not checked here. */
  function ParseTipo(code: string): (r: Result<Instrument, TipoError>)
    ensures r.Err? <==> |code| != CodeLength || code[0] != 'O'
    ensures r.Ok? ==> r.value.kind == DecodeKind(code[1]) && r.value.style == DecodeStyle(code[2])
    ensures r.Ok? ==> r.value.expirationDate == code[9..11] + "-" + code[7..9] + "-" + code[3..7]
  {
    if |code| != CodeLength || code[0] != 'O' then
      Err(InvalidTipoFormat)
    else
      var raw := code[3..];
      assert raw[6..8] == code[9..11] && raw[4..6] == code[7..9] && raw[0..4] == code[3..7];
      Ok(Instrument(DecodeKind(code[1]), DecodeStyle(code[2]), ReorderDate(raw)))
  }

  /** Every accepted code yields an expiry of the "DD-MM-YYYY" shape: ten
      characters with '-' at positions 2 and 5. */
  lemma ParsedExpiryShape(code: string)
    requires ParseTipo(code).Ok?
    ensures var d := ParseTipo(code).value.expirationDate;
            |d| == 10 && d[2] == '-' && d[5] == '-'
            && d[0..2] == code[9..11] && d[3..5] == code[7..9] && d[6..10] == code[3..7]
  {
  }

  /** The worked example: "OCE20251231" is a European call expiring 31-12-2025;
      a 12-character code is refused. */
  lemma ParseTipoExamples()
    ensures ParseTipo("OCE20251231") == Ok(Instrument(Call, European, "31-12-2025"))
    ensures ParseTipo("OPA20250620") == Ok(Instrument(Put, American, "20-06-2025"))
    ensures ParseTipo("XC E20250101") == Err(InvalidTipoFormat)
    ensures ParseTipo("XCE20250101") == Err(InvalidTipoFormat)
  {
    var c1, c2 := "OCE20251231", "OPA20250620";
    assert c1[9..11] == "31" && c1[7..9] == "12" && c1[3..7] == "2025";
    assert "31" + "-" + "12" + "-" + "2025" == "31-12-2025";
    assert c2[9..11] == "20" && c2[7..9] == "06" && c2[3..7] == "2025";
    assert "20" + "-" + "06" + "-" + "2025" == "20-06-2025";
  }
}
