/** The per-row loop of scrape_meff_data with the browser abstracted: each
    table row arrives as its data-tipo attribute and the text of its cells. */
module MeffScrape {
  import opened Wrappers
  import opened Calendar
  import opened InstrumentCode
  import opened TimeToExpiry
  import opened LocaleNumber
  import opened Pricing

  /** One table row: the data-tipo attribute (absent on header rows) and the
      stripped textContent of its td cells. */
  datatype Row = Row(tipo: Option<string>, cells: seq<string>)

  /** One appended `cols` list: execution_date, price_today, type_CP, type_EA,
      expiration_date, the row's cells (cols[5..]), then T and IV. */
  datatype Record = Record(executionDate: string, priceToday: string, typeCP: string, typeEA: string,
                           expirationDate: string, cells: seq<string>, t: real, iv: IV)

  /** The exceptions raised outside the per-row try, which end the whole batch. */
  datatype BatchError = TipoRejected | DateRejected

  /** What the loop reads besides the rows: today's "%d-%m-%Y" text, the
      underlying's price text, Python's float() on a text, and the numeric parts
      of the pricer and the root-finder. */
  datatype Env = Env(today: string, priceToday: string, parseFloat: string -> Option<real>,
                     closedForm: ClosedForm, search: Search)

  const RiskFreeRate: real := 0.03
  /** cols[5], the strike, is the first cell. */
  const StrikeCell: nat := 0
  /** cols[17], the last option price, is the thirteenth cell. */
  const PremiumCell: nat := 12

  /** The three numbers parsed inside the per-row try. */
  datatype Quote = Quote(strike: real, spot: real, premium: real)

  /** `if tipo:` — the attribute is present and not empty. */
  predicate Tagged(row: Row) {
    row.tipo.Some? && row.tipo.value != ""
  }

  /** "call" when type_CP lower-cases to "call", that is for Call only; Put and
      Unknown are both priced as puts. */
  function PricingType(kind: OptionKind): (ty: OptionType)
    ensures ty == CallOption <==> kind == Call
    ensures ty == PutOption <==> KindLabel(kind) != "Call"
  {
    if kind == Call then CallOption else PutOption
  }

  /** K, S and the option price: normalised and parsed, in that order; a missing
      cell (IndexError) or an unparsable text (ValueError) gives None. */
  function ParseQuote(cells: seq<string>, env: Env): (q: Option<Quote>)
    ensures q.Some? <==>
              |cells| > PremiumCell
              && env.parseFloat(Normalize(cells[StrikeCell])).Some?
              && env.parseFloat(Normalize(env.priceToday)).Some?
              && env.parseFloat(Normalize(cells[PremiumCell])).Some?
    ensures q.Some? ==>
              q.value == Quote(env.parseFloat(Normalize(cells[StrikeCell])).value,
                               env.parseFloat(Normalize(env.priceToday)).value,
                               env.parseFloat(Normalize(cells[PremiumCell])).value)
  {
    if |cells| <= StrikeCell then None
    else
      match env.parseFloat(Normalize(cells[StrikeCell]))
      case None => None
      case Some(k) =>
        match env.parseFloat(Normalize(env.priceToday))
        case None => None
        case Some(s) =>
          if |cells| <= PremiumCell then None
          else
            match env.parseFloat(Normalize(cells[PremiumCell]))
            case None => None
            case Some(p) => Some(Quote(k, s, p))
  }

  /** The per-row try: any failure in parsing or in the IV call gives Undefined
      for this row only. */
  function RowIv(kind: OptionKind, cells: seq<string>, t: real, env: Env): (iv: IV)
    ensures ParseQuote(cells, env).None? ==> iv == Undefined
    ensures iv.Defined? ==>
              var q := ParseQuote(cells, env).value;
              ImpliedVolatility(q.spot, q.strike, t, RiskFreeRate, q.premium, PricingType(kind),
                                env.closedForm, env.search) == Returned(iv)
    ensures ParseQuote(cells, env).Some? ==>
              var q := ParseQuote(cells, env).value;
              var o := ImpliedVolatility(q.spot, q.strike, t, RiskFreeRate, q.premium, PricingType(kind),
                                         env.closedForm, env.search);
              iv == (if o.Returned? then o.iv else Undefined)
  {
    match ParseQuote(cells, env)
    case None => Undefined
    case Some(q) =>
      match ImpliedVolatility(q.spot, q.strike, t, RiskFreeRate, q.premium, PricingType(kind),
                              env.closedForm, env.search)
      case Returned(iv) => iv
      case Escaped => Undefined
  }

  /** What one row contributes: nothing (untagged row, or an empty today),
      one record, or an exception that aborts the batch. parse_tipo runs before
      the today check and calculate_T after it, both outside the try. */
  function RowStep(row: Row, env: Env): (r: Result<Option<Record>, BatchError>)
    ensures !Tagged(row) ==> r == Ok(None)
    ensures r == Err(TipoRejected) <==> Tagged(row) && ParseTipo(row.tipo.value).Err?
    ensures r == Err(DateRejected) <==>
              Tagged(row) && ParseTipo(row.tipo.value).Ok? && env.today != ""
              && CalculateT(ParseTipo(row.tipo.value).value.expirationDate, env.today).None?
    ensures r.Ok? && r.value.Some? <==> Tagged(row) && env.today != "" && r.Ok?
    ensures r.Ok? && r.value.Some? ==>
              var inst := ParseTipo(row.tipo.value).value;
              var rec := r.value.value;
              rec.executionDate == env.today && rec.priceToday == env.priceToday
              && rec.typeCP == KindLabel(inst.kind) && rec.typeEA == StyleLabel(inst.style)
              && rec.expirationDate == inst.expirationDate && rec.cells == row.cells
              && CalculateT(rec.expirationDate, env.today) == Some(rec.t)
              && rec.iv == RowIv(inst.kind, row.cells, rec.t, env)
  {
    if !Tagged(row) then Ok(None)
    else
      match ParseTipo(row.tipo.value)
      case Err(_) => Err(TipoRejected)
      case Ok(inst) =>
        if env.today == "" then Ok(None)
        else
          match CalculateT(inst.expirationDate, env.today)
          case None => Err(DateRejected)
          case Some(t) =>
            Ok(Some(Record(env.today, env.priceToday, KindLabel(inst.kind), StyleLabel(inst.style),
                           inst.expirationDate, row.cells, t, RowIv(inst.kind, row.cells, t, env))))
  }

  /** The loop's result over a prefix of the rows, specified from the last row
      backwards: the first aborting row ends everything. */
  function Assemble(rows: seq<Row>, env: Env): (r: Result<seq<Record>, BatchError>)
    ensures r.Ok? ==> forall i :: 0 <= i < |rows| ==> RowStep(rows[i], env).Ok?
    ensures r.Ok? ==> |r.value| <= |rows|
    decreases |rows|
  {
    if rows == [] then Ok([])
    else
      assert forall i :: 0 <= i < |rows| - 1 ==> rows[..|rows| - 1][i] == rows[i];
      match Assemble(rows[..|rows| - 1], env)
      case Err(e) => Err(e)
      case Ok(data) =>
        match RowStep(rows[|rows| - 1], env)
        case Err(e) => Err(e)
        case Ok(None) => Ok(data)
        case Ok(Some(rec)) => Ok(data + [rec])
  }

  /** The rows carrying a non-empty data-tipo, in table order. */
  function TaggedRows(rows: seq<Row>): (r: seq<Row>)
    ensures |r| <= |rows|
    ensures forall x :: x in r ==> Tagged(x) && x in rows
    ensures forall x :: x in rows && Tagged(x) ==> x in r
  {
    if rows == [] then []
    else TaggedRows(rows[..|rows| - 1]) + (if Tagged(rows[|rows| - 1]) then [rows[|rows| - 1]] else [])
  }

  /** Once a prefix has aborted, the whole batch aborts with the same error. */
  lemma {:induction false} AbortPersists(rows: seq<Row>, n: nat, env: Env)
    requires n <= |rows| && Assemble(rows[..n], env).Err?
    ensures Assemble(rows, env) == Assemble(rows[..n], env)
    decreases |rows| - n
  {
    if n == |rows| {
      assert rows[..n] == rows;
    } else {
      assert rows[..n + 1][..n] == rows[..n];
      AbortPersists(rows, n + 1, env);
    }
  }

  /** scrape_meff_data's row loop: appends one record per tagged row while today
      is non-empty, and stops at the first exception raised outside the try. */
  method ScrapeRows(rows: seq<Row>, env: Env) returns (result: Result<seq<Record>, BatchError>)
    ensures result == Assemble(rows, env)
  {
    var data: seq<Record> := [];
    var i := 0;
    while i < |rows|
      invariant 0 <= i <= |rows|
      invariant Assemble(rows[..i], env) == Ok(data)
    {
      var row := rows[i];
      assert rows[..i + 1][..i] == rows[..i];
      if row.tipo.Some? && row.tipo.value != "" {
        var parsed := ParseTipo(row.tipo.value);
        if parsed.Err? {
          AbortPersists(rows, i + 1, env);
          return Err(TipoRejected);
        }
        var inst := parsed.value;
        if env.today != "" {
          var t := CalculateT(inst.expirationDate, env.today);
          if t.None? {
            AbortPersists(rows, i + 1, env);
            return Err(DateRejected);
          }
          var iv := RowIv(inst.kind, row.cells, t.value, env);
          var cols := Record(env.today, env.priceToday, KindLabel(inst.kind), StyleLabel(inst.style),
                             inst.expirationDate, row.cells, t.value, iv);
          data := data + [cols];
        }
      }
      i := i + 1;
    }
    assert rows[..|rows|] == rows;
    result := Ok(data);
  }

  /** The batch aborts exactly when some row raises outside the try. */
  lemma {:induction false} AssembleAbortsIff(rows: seq<Row>, env: Env)
    ensures Assemble(rows, env).Err? <==> exists i :: 0 <= i < |rows| && RowStep(rows[i], env).Err?
    decreases |rows|
  {
    if rows != [] {
      var init := rows[..|rows| - 1];
      AssembleAbortsIff(init, env);
      assert forall i :: 0 <= i < |init| ==> init[i] == rows[i];
      if exists i :: 0 <= i < |init| && RowStep(init[i], env).Err? {
        var i :| 0 <= i < |init| && RowStep(init[i], env).Err?;
        assert RowStep(rows[i], env).Err?;
      }
    }
  }

  /** The error reported is that of the first aborting row. */
  lemma FirstErrorReported(rows: seq<Row>, env: Env, i: nat)
    requires i < |rows| && RowStep(rows[i], env).Err?
    requires forall j :: 0 <= j < i ==> RowStep(rows[j], env).Ok?
    ensures Assemble(rows, env) == Err(RowStep(rows[i], env).error)
  {
    var pre := rows[..i];
    assert forall j :: 0 <= j < i ==> pre[j] == rows[j];
    AssembleAbortsIff(pre, env);
    assert rows[..i + 1][..i] == pre;
    AbortPersists(rows, i + 1, env);
  }

  /** Without an abort and with a non-empty today, the records are one per
      tagged row, in row order, each being what that row builds. */
  lemma {:induction false} OneRecordPerTaggedRow(rows: seq<Row>, env: Env)
    requires Assemble(rows, env).Ok? && env.today != ""
    ensures var recs := Assemble(rows, env).value;
            |recs| == |TaggedRows(rows)|
            && forall j :: 0 <= j < |recs| ==> RowStep(TaggedRows(rows)[j], env) == Ok(Some(recs[j]))
    decreases |rows|
  {
    if rows != [] {
      var init, last := rows[..|rows| - 1], rows[|rows| - 1];
      assert Assemble(init, env).Ok?;
      OneRecordPerTaggedRow(init, env);
      var prev := Assemble(init, env).value;
      assert TaggedRows(rows) == TaggedRows(init) + (if Tagged(last) then [last] else []);
      if Tagged(last) {
        var rec := RowStep(last, env).value.value;
        assert Assemble(rows, env).value == prev + [rec];
      } else {
        assert Assemble(rows, env).value == prev;
      }
    }
  }

  /** With an empty today the loop appends nothing. */
  lemma {:induction false} NoRecordsWithoutToday(rows: seq<Row>, env: Env)
    requires Assemble(rows, env).Ok? && env.today == ""
    ensures Assemble(rows, env).value == []
    decreases |rows|
  {
    if rows != [] {
      NoRecordsWithoutToday(rows[..|rows| - 1], env);
    }
  }

  /** A record stamped with today whose T is that of its own, readable, expiry. */
  predicate CarriesOwnT(rec: Record, today: string) {
    rec.executionDate == today
    && ReadDate(rec.expirationDate).Some?
    && CalculateT(rec.expirationDate, today) == Some(rec.t)
  }

  lemma EmittedRecordFacts(row: Row, env: Env, rec: Record)
    requires RowStep(row, env) == Ok(Some(rec))
    ensures CarriesOwnT(rec, env.today)
  {
  }

  /** Every emitted record carries the T of its own expiry against today, and
      that expiry is a readable date. */
  lemma EmittedRecordsCarryT(rows: seq<Row>, env: Env)
    requires Assemble(rows, env).Ok?
    ensures forall rec :: rec in Assemble(rows, env).value ==> CarriesOwnT(rec, env.today)
  {
    var recs := Assemble(rows, env).value;
    if env.today == "" {
      NoRecordsWithoutToday(rows, env);
    } else {
      OneRecordPerTaggedRow(rows, env);
      forall rec | rec in recs ensures CarriesOwnT(rec, env.today) {
        var j :| 0 <= j < |recs| && recs[j] == rec;
        EmittedRecordFacts(TaggedRows(rows)[j], env, rec);
      }
    }
  }

  // ---- the id column ----

  /** f"{expiration_date}_{type_CP}_{type_EA}_{strike_price}" with the raw,
      un-normalised strike text: for a key-ready record it splits back into
      exactly those four parts. */
  function RecordId(rec: Record): (id: string)
    requires |rec.cells| > StrikeCell
    ensures KeyReady(rec) ==>
              SplitKey(id) == Some((rec.expirationDate, rec.typeCP, rec.typeEA, rec.cells[StrikeCell]))
  {
    var strike := rec.cells[StrikeCell];
    var tail2 := rec.typeEA + "_" + strike;
    var tail1 := rec.typeCP + "_" + tail2;
    var id := rec.expirationDate + "_" + tail1;
    assert id == rec.expirationDate + "_" + rec.typeCP + "_" + rec.typeEA + "_" + strike;
    if KeyReady(rec) then
      SplitFirstJoin(rec.expirationDate, tail1);
      SplitFirstJoin(rec.typeCP, tail2);
      SplitFirstJoin(rec.typeEA, strike);
      id
    else
      id
  }

  /** The text before the first '_' and the text after it. */
  function SplitFirst(s: string): (r: Option<(string, string)>)
    ensures r.Some? ==> |r.value.0| < |s| && '_' !in r.value.0
  {
    if s == [] then None
    else if s[0] == '_' then Some(([], s[1..]))
    else
      match SplitFirst(s[1..])
      case None => None
      case Some((x, y)) => Some(([s[0]] + x, y))
  }

  /** Reads an id back into its four parts at its first three underscores. */
  function SplitKey(id: string): Option<(string, string, string, string)>
  {
    match SplitFirst(id)
    case None => None
    case Some((exp, rest1)) =>
      match SplitFirst(rest1)
      case None => None
      case Some((cp, rest2)) =>
        match SplitFirst(rest2)
        case None => None
        case Some((ea, strike)) => Some((exp, cp, ea, strike))
  }

  lemma {:induction false} SplitFirstJoin(x: string, y: string)
    requires '_' !in x
    ensures SplitFirst(x + "_" + y) == Some((x, y))
    decreases |x|
  {
    if x != [] {
      assert (x + "_" + y)[1..] == x[1..] + "_" + y;
      SplitFirstJoin(x[1..], y);
      assert [x[0]] + x[1..] == x;
    } else {
      assert x + "_" + y == "_" + y;
    }
  }

  /** A record whose id can be split back: it has a strike cell and no '_' in
      the three leading parts. */
  predicate KeyReady(rec: Record) {
    |rec.cells| > StrikeCell && '_' !in rec.expirationDate && '_' !in rec.typeCP && '_' !in rec.typeEA
  }

  /** Two key-ready records with the same id agree on all four key parts. */
  lemma KeyInjective(a: Record, b: Record)
    requires KeyReady(a) && KeyReady(b) && RecordId(a) == RecordId(b)
    ensures a.expirationDate == b.expirationDate && a.typeCP == b.typeCP && a.typeEA == b.typeEA
    ensures a.cells[StrikeCell] == b.cells[StrikeCell]
  {
  }

  /** An emitted record with a strike cell is key-ready: its expiry was read as
      a date, so it holds only digits and '-'. */
  lemma EmittedRecordKeyReady(row: Row, env: Env, rec: Record)
    requires RowStep(row, env) == Ok(Some(rec)) && |rec.cells| > StrikeCell
    ensures KeyReady(rec)
  {
    EmittedRecordFacts(row, env, rec);
    var d := rec.expirationDate;
    assert DateShaped(d);
    assert forall i :: 0 <= i < |d| ==> d[i] != '_';
  }

  /** Every emitted record with a strike cell has an id that splits back. */
  lemma EmittedRecordsKeyReady(rows: seq<Row>, env: Env)
    requires Assemble(rows, env).Ok?
    ensures forall rec :: rec in Assemble(rows, env).value && |rec.cells| > StrikeCell ==> KeyReady(rec)
  {
    var recs := Assemble(rows, env).value;
    if env.today == "" {
      NoRecordsWithoutToday(rows, env);
    } else {
      OneRecordPerTaggedRow(rows, env);
      forall rec | rec in recs && |rec.cells| > StrikeCell ensures KeyReady(rec) {
        var j :| 0 <= j < |recs| && recs[j] == rec;
        EmittedRecordKeyReady(TaggedRows(rows)[j], env, rec);
      }
    }
  }
}
