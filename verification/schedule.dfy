/** The pure part of `get_vnl_schedule_2021`: the last five characters of a
match id, parsing the per-set results string into integers, and the home and
away point totals (sums over even and odd positions).
 */
module Schedule {
  import opened Results
  import opened PyStrings

  // ---------------------------------------------------------------------------
  // results string -> integers

  /** The marker token the results parser drops; only this exact string,
      with its leading space, is dropped. */
  const Dash: string := " -"

  /** `int(t.strip())` for one token. */
  function TokenValue(t: string): (r: Result<int>)
    ensures r.Err? ==> r.error.ValueError?
  {
    ParseInt(Strip(t))
  }

  /** `int(t.strip())` for each token in turn; the first token that is not
      an integer raises `ValueError`. */
  function ParseAll(kept: seq<string>): (r: Result<seq<int>>)
    ensures r.Ok? ==> |r.value| == |kept|
    ensures r.Ok? ==> forall k :: 0 <= k < |kept| ==> TokenValue(kept[k]) == Ok(r.value[k])
    ensures r.Err? ==> r.error.ValueError?
    decreases |kept|
  {
    if |kept| == 0 then Ok([])
    else
      var v :- TokenValue(kept[0]);
      var rest :- ParseAll(kept[1..]);
      assert forall k :: 1 <= k < |kept| ==> kept[k] == kept[1..][k - 1];
      Ok([v] + rest)
  }

  /** Parsing succeeds exactly when every token is an integer. */
  lemma {:induction false} ParseAllOk(kept: seq<string>)
    ensures ParseAll(kept).Ok? <==> forall k :: 0 <= k < |kept| ==> TokenValue(kept[k]).Ok?
    decreases |kept|
  {
    if |kept| > 0 {
      ParseAllOk(kept[1..]);
      if forall k :: 0 <= k < |kept| ==> TokenValue(kept[k]).Ok? {
        assert TokenValue(kept[0]).Ok?;
        assert forall k :: 0 <= k < |kept[1..]| ==> kept[1..][k] == kept[k + 1];
      } else {
        var k :| 0 <= k < |kept| && !TokenValue(kept[k]).Ok?;
        if k > 0 {
          assert kept[1..][k - 1] == kept[k];
        }
      }
    }
  }

  /** `[int(i.strip()) for i in tokens if i != ' -']`.  Filtering and parsing
      are interleaved in the comprehension, but either way the first kept
      token that is not an integer is the one that raises. */
  function ParseTokens(tokens: seq<string>): Result<seq<int>> {
    ParseAll(Without(tokens, Dash))
  }

  /** The tokens of a results string: quotes removed, first and last
      character dropped, split on commas.  There is always at least one
      token, and none holds a comma. */
  function ResultTokens(x: string): (r: seq<string>)
    ensures |r| >= 1
    ensures forall k :: 0 <= k < |r| ==> ',' !in r[k]
  {
    Split(DropEnds(Replace(x, "'", "")), ',')
  }

  /** The results parse of one rendered results list: split it into tokens,
      drop the `' -'` markers and read every other token as an integer; a
      token that is not one fails the parse with `ValueError`. */
  function ParseResults(x: string): (r: Result<seq<int>>)
    ensures r.Err? ==> r.error.ValueError?
  {
    ParseTokens(ResultTokens(x))
  }

  /** With `kept` the tokens other than `' -'`: the parse succeeds exactly
      when every kept token is an integer, and then yields their values in
      order. */
  lemma ParseResultsValues(x: string, kept: seq<string>)
    requires kept == Without(ResultTokens(x), Dash)
    ensures ParseResults(x).Ok? ==> forall k :: 0 <= k < |kept| ==> TokenValue(kept[k]).Ok?
    ensures (forall k :: 0 <= k < |kept| ==> TokenValue(kept[k]).Ok?) ==> ParseResults(x).Ok?
    ensures ParseResults(x).Ok? ==>
      |ParseResults(x).value| == |kept| &&
      forall k :: 0 <= k < |kept| ==> TokenValue(kept[k]) == Ok(ParseResults(x).value[k])
  {
    assert ParseResults(x) == ParseAll(kept);
    ParseAllOk(kept);
  }

  // ---------------------------------------------------------------------------
  // how the results string is produced, and why parsing recovers it

  /** One set-score cell: the points of one side, or `-` for a set not played. */
  datatype SetCell = Points(n: nat) | Unplayed

  function CellText(c: SetCell): string {
    match c
    case Points(n) => NatToString(n)
    case Unplayed => "-"
  }

  function CellTexts(cells: seq<SetCell>): (r: seq<string>)
    ensures |r| == |cells|
    ensures forall k :: 0 <= k < |cells| ==> r[k] == CellText(cells[k])
  {
    seq(|cells|, k requires 0 <= k < |cells| => CellText(cells[k]))
  }

  /** The points of the played cells, in order. */
  function Scores(cells: seq<SetCell>): seq<int>
    decreases |cells|
  {
    if |cells| == 0 then []
    else if cells[0].Unplayed? then Scores(cells[1..])
    else [cells[0].n as int] + Scores(cells[1..])
  }

  /** `str(items)` for a Python list of strings: `['a', 'b']`. */
  function RenderList(items: seq<string>): string {
    "[" + Join(", ", QuoteAll(items)) + "]"
  }

  function QuoteAll(items: seq<string>): (r: seq<string>)
    ensures |r| == |items|
    ensures forall k :: 0 <= k < |items| ==> r[k] == "'" + items[k] + "'"
  {
    seq(|items|, k requires 0 <= k < |items| => "'" + items[k] + "'")
  }

  /** `[' ' + t for t in items]` */
  function Spaced(items: seq<string>): (r: seq<string>)
    ensures |r| == |items|
    ensures forall k :: 0 <= k < |items| ==> r[k] == " " + items[k]
  {
    seq(|items|, k requires 0 <= k < |items| => " " + items[k])
  }

  lemma {:induction false} ReplaceCharConcat(a: string, b: string, c: char)
    ensures Replace(a + b, [c], "") == Replace(a, [c], "") + Replace(b, [c], "")
    decreases |a|
  {
    if |a| > 0 {
      ReplaceCharConcat(a[1..], b, c);
      assert (a + b)[1..] == a[1..] + b;
    } else {
      assert a + b == b;
    }
  }

  /** Removing the quotes of a rendered list leaves the bare joined items. */
  lemma {:induction false} UnquoteJoin(items: seq<string>)
    requires forall k :: 0 <= k < |items| ==> '\'' !in items[k]
    ensures Replace(Join(", ", QuoteAll(items)), "'", "") == Join(", ", items)
    decreases |items|
  {
    var q := QuoteAll(items);
    if |items| == 0 {
    } else {
      var x := items[0];
      ReplaceCharConcat("'" + x, "'", '\'');
      ReplaceCharConcat("'", x, '\'');
      ReplaceAbsent(x, ['\''], "", 0);
      assert Replace(q[0], "'", "") == x;
      if |items| > 1 {
        var rest := items[1..];
        assert QuoteAll(rest) == q[1..];
        UnquoteJoin(rest);
        ReplaceCharConcat(q[0] + ", ", Join(", ", q[1..]), '\'');
        ReplaceCharConcat(q[0], ", ", '\'');
        ReplaceAbsent(", ", ['\''], "", 0);
      }
    }
  }

  lemma {:induction false} SplitNoSeparator(s: string, d: char)
    requires d !in s
    ensures Split(s, d) == [s]
    decreases |s|
  {
    if |s| > 0 {
      SplitNoSeparator(s[1..], d);
      assert s == [s[0]] + s[1..];
    }
  }

  lemma {:induction false} SplitAfterPart(a: string, d: char, t: string)
    requires d !in a
    ensures Split(a + [d] + t, d) == [a] + Split(t, d)
    decreases |a|
  {
    if |a| == 0 {
      assert a + [d] + t == [d] + t;
      assert ([d] + t)[1..] == t;
    } else {
      SplitAfterPart(a[1..], d, t);
      assert (a + [d] + t)[1..] == a[1..] + [d] + t;
      assert [a[0]] + a[1..] == a;
    }
  }

  /** Splitting `", ".join(items)` on commas gives the items back, every one
      after the first with the space of the separator in front. */
  lemma {:induction false} SplitJoined(items: seq<string>)
    requires |items| > 0
    requires forall k :: 0 <= k < |items| ==> ',' !in items[k]
    ensures Split(Join(", ", items), ',') == [items[0]] + Spaced(items[1..])
    decreases |items|
  {
    if |items| == 1 {
      SplitNoSeparator(items[0], ',');
      assert Spaced(items[1..]) == [];
    } else {
      var rest := items[1..];
      var j := Join(", ", rest);
      SplitJoined(rest);
      assert Join(", ", items) == items[0] + [','] + ([' '] + j);
      SplitAfterPart(items[0], ',', [' '] + j);
      assert Split([' '] + j, ',') == [[' '] + Split(j, ',')[0]] + Split(j, ',')[1..] by {
        SplitNonSeparator([' '] + j, ',');
        assert ([' '] + j)[1..] == j;
      }
      var tail := [rest[0]] + Spaced(rest[1..]);
      assert Split(j, ',') == tail;
      assert [[' '] + tail[0]] + tail[1..] == Spaced(rest);
    }
  }

  lemma StripSpacedDigits(s: string)
    requires |s| > 0 && AllDigits(s)
    ensures Strip(" " + s) == s
    ensures Strip(s) == s
  {
    var t := " " + s;
    assert t[1..] == s;
    assert LStrip(t) == LStrip(s);
    assert LStrip(s) == s;
  }

  lemma {:induction false} ParseSpacedCells(cells: seq<SetCell>)
    ensures ParseTokens(Spaced(CellTexts(cells))) == Ok(Scores(cells))
    decreases |cells|
  {
    if |cells| > 0 {
      var toks := Spaced(CellTexts(cells));
      ParseSpacedCells(cells[1..]);
      assert toks[1..] == Spaced(CellTexts(cells[1..]));
      match cells[0]
      case Unplayed =>
        assert toks[0] == Dash;
        assert Without(toks, Dash) == Without(toks[1..], Dash);
      case Points(n) =>
        var s := NatToString(n);
        assert toks[0] == " " + s;
        assert toks[0] != Dash by { assert toks[0][1] != Dash[1]; }
        var kept := Without(toks, Dash);
        assert kept == [toks[0]] + Without(toks[1..], Dash);
        assert kept[1..] == Without(toks[1..], Dash);
        StripSpacedDigits(s);
        ParseIntRoundTrip(n);
    }
  }

  lemma CellTextsClean(cells: seq<SetCell>)
    ensures forall k :: 0 <= k < |cells| ==> '\'' !in CellTexts(cells)[k] && ',' !in CellTexts(cells)[k]
  {
    forall k | 0 <= k < |cells|
      ensures '\'' !in CellTexts(cells)[k] && ',' !in CellTexts(cells)[k]
    {
      if cells[k].Points? {
        var s := NatToString(cells[k].n);
        assert forall i :: 0 <= i < |s| ==> IsDigit(s[i]);
      }
    }
  }

  lemma RenderedTokens(cells: seq<SetCell>)
    requires |cells| > 0
    ensures ResultTokens(RenderList(CellTexts(cells)))
         == [CellText(cells[0])] + Spaced(CellTexts(cells[1..]))
  {
    var texts := CellTexts(cells);
    var j := Join(", ", QuoteAll(texts));
    CellTextsClean(cells);
    UnquoteJoin(texts);
    ReplaceCharConcat("[" + j, "]", '\'');
    ReplaceCharConcat("[", j, '\'');
    ReplaceAbsent("[", ['\''], "", 0);
    ReplaceAbsent("]", ['\''], "", 0);
    var bare := Join(", ", texts);
    assert Replace(RenderList(texts), "'", "") == "[" + bare + "]";
    assert DropEnds("[" + bare + "]") == bare;
    SplitJoined(texts);
    assert texts[1..] == CellTexts(cells[1..]);
  }

  /** Parsing inverts Python's rendering of the scraped cell list: when the
      first cell is a score, the results string `str(cells)` parses back to
      exactly the played scores, in order.  A `-` after the first position
      becomes the token `' -'` and is dropped. */
  lemma ParseRenderedResults(cells: seq<SetCell>)
    requires |cells| > 0 && cells[0].Points?
    ensures ParseResults(RenderList(CellTexts(cells))) == Ok(Scores(cells))
  {
    RenderedTokens(cells);
    var s := NatToString(cells[0].n);
    var toks := [s] + Spaced(CellTexts(cells[1..]));
    assert toks[0] != Dash by { assert |s| == 1 || s[1] != Dash[1]; }
    assert toks[1..] == Spaced(CellTexts(cells[1..]));
    ParseSpacedCells(cells[1..]);
    StripSpacedDigits(s);
    ParseIntRoundTrip(cells[0].n);
  }

  /** A `-` in FIRST position is not dropped: its token has no leading space,
      so `int('-')` raises. */
  lemma LeadingDashFails(cells: seq<SetCell>)
    requires |cells| > 0 && cells[0].Unplayed?
    ensures ParseResults(RenderList(CellTexts(cells))).Err?
  {
    RenderedTokens(cells);
    var toks := [CellText(cells[0])] + Spaced(CellTexts(cells[1..]));
    assert toks[0] == "-" && toks[0] != Dash;
    assert Without(toks, Dash)[0] == "-";
    assert Strip("-") == "-" by { assert LStrip("-") == "-"; }
    assert HasSign("-") && !IsDigitGroups("-"[1..]);
    assert ParseInt(Strip(Without(toks, Dash)[0])).Err?;
  }

  /** An empty results list does not give zero totals: `"[]"` leaves one
      empty token and `int('')` raises. */
  lemma EmptyResultsFail()
    ensures ParseResults(RenderList([])) == Err(ValueError(""))
  {
    assert RenderList([]) == "[]";
    ReplaceAbsent("[]", ['\''], "", 0);
    assert DropEnds("[]") == "";
    assert ResultTokens("[]") == [""];
    assert Without([""], Dash) == [""];
  }

  // ---------------------------------------------------------------------------
  // point totals

  function Sum(xs: seq<int>): int
    decreases |xs|
  {
    if |xs| == 0 then 0 else Sum(xs[..|xs| - 1]) + xs[|xs| - 1]
  }

  /** `sum([x[i] for i in range(len(x)) if i % 2 == parity])` */
  function ParitySum(xs: seq<int>, parity: nat): int
    requires parity < 2
    decreases |xs|
  {
    if |xs| == 0 then 0
    else ParitySum(xs[..|xs| - 1], parity) + (if (|xs| - 1) % 2 == parity then xs[|xs| - 1] else 0)
  }

  /** The two parity sums split the sum of all values. */
  lemma {:induction false} ParitySplit(xs: seq<int>)
    ensures ParitySum(xs, 0) + ParitySum(xs, 1) == Sum(xs)
    decreases |xs|
  {
    if |xs| > 0 {
      ParitySplit(xs[..|xs| - 1]);
    }
  }

  /** `points_home`: the values at even positions, which is everything but
      the values at odd positions. */
  function PointsHome(xs: seq<int>): (r: int)
    ensures r == Sum(xs) - ParitySum(xs, 1)
  {
    ParitySplit(xs);
    ParitySum(xs, 0)
  }

  /** `points_away`: the values at odd positions; with the home total it
      makes up the sum of all parsed values. */
  function PointsAway(xs: seq<int>): (r: int)
    ensures PointsHome(xs) + r == Sum(xs)
  {
    ParitySum(xs, 1)
  }

  /** Reading the list as consecutive (home, away) set pairs: one more set
      adds its first value to the home total and its second to the away one. */
  lemma AppendSet(xs: seq<int>, home: int, away: int)
    requires |xs| % 2 == 0
    ensures PointsHome(xs + [home, away]) == PointsHome(xs) + home
    ensures PointsAway(xs + [home, away]) == PointsAway(xs) + away
  {
    var ys, zs := xs + [home, away], xs + [home];
    assert ys[..|ys| - 1] == zs;
    assert zs[..|zs| - 1] == xs;
    assert (|ys| - 1) % 2 == 1 && (|zs| - 1) % 2 == 0;
    assert ParitySum(zs, 0) == ParitySum(xs, 0) + home;
    assert ParitySum(zs, 1) == ParitySum(xs, 1);
    assert ParitySum(ys, 0) == ParitySum(zs, 0);
    assert ParitySum(ys, 1) == ParitySum(zs, 1) + away;
  }

  /** Both totals in one pass over the parsed list. */
  method PointTotals(xs: seq<int>) returns (home: int, away: int)
    ensures home == PointsHome(xs) && away == PointsAway(xs)
    ensures home + away == Sum(xs)
    ensures xs == [] ==> home == 0 && away == 0
  {
    home, away := 0, 0;
    var i := 0;
    while i < |xs|
      invariant 0 <= i <= |xs|
      invariant home == PointsHome(xs[..i]) && away == PointsAway(xs[..i])
      invariant home + away == Sum(xs[..i])
    {
      assert xs[..i + 1][..i] == xs[..i];
      if i % 2 == 0 {
        home := home + xs[i];
      } else {
        away := away + xs[i];
      }
      i := i + 1;
    }
    assert xs[..|xs|] == xs;
  }

  // ---------------------------------------------------------------------------
  // one schedule row

  /** The seven strings the XPath queries yield for one finished match. */
  datatype RawMatch = RawMatch(
    matchId: string, matchName: string, teamHome: string, teamAway: string,
    scoreHome: string, scoreAway: string, result: string)

  /** One row of `schedule2021.csv`. */
  datatype ScheduleRow = ScheduleRow(
    matchId: string, matchName: string, teamHome: string, teamAway: string,
    scoreHome: string, scoreAway: string, result: seq<int>,
    pointsHome: int, pointsAway: int)

  /** One match: the id cut to its last five characters, the results parsed,
      the two totals added. */
  function MakeRow(raw: RawMatch): (r: Result<ScheduleRow>)
    ensures r.Ok? <==> ParseResults(raw.result).Ok?
    ensures r.Ok? ==> r.value.result == ParseResults(raw.result).value
    ensures r.Ok? ==> |r.value.matchId| == if |raw.matchId| < 5 then |raw.matchId| else 5
    ensures r.Ok? ==> r.value.matchId == raw.matchId[|raw.matchId| - |r.value.matchId|..]
    ensures r.Ok? ==> r.value.pointsHome + r.value.pointsAway == Sum(r.value.result)
  {
    match ParseResults(raw.result)
    case Err(e) => Err(e)
    case Ok(result) =>
      Ok(ScheduleRow(LastChars(raw.matchId, 5), raw.matchName, raw.teamHome, raw.teamAway,
                     raw.scoreHome, raw.scoreAway, result, PointsHome(result), PointsAway(result)))
  }

  /** The other columns of a row: name, teams and scores are copied from
      the page, and the totals are the sums over even and odd positions of
      the parsed results. */
  lemma MakeRowFields(raw: RawMatch)
    requires MakeRow(raw).Ok?
    ensures var row := MakeRow(raw).value;
      && row.matchName == raw.matchName
      && row.teamHome == raw.teamHome && row.teamAway == raw.teamAway
      && row.scoreHome == raw.scoreHome && row.scoreAway == raw.scoreAway
      && row.pointsHome == PointsHome(row.result)
      && row.pointsAway == PointsAway(row.result)
  {
  }

  /** The schedule table and the list of match ids `get_vnl_schedule_2021`
      returns.  The ids are only returned when every results string parses. */
  datatype ScheduleOutput = ScheduleOutput(rows: seq<ScheduleRow>, matchIds: seq<string>)

  /** The outcome of `df.apply` given each match's own outcome in order: the
      first failure aborts, otherwise every row is kept. */
  function Collect(outcomes: seq<Result<ScheduleRow>>): (r: Result<seq<ScheduleRow>>)
    ensures r.Ok? ==> |r.value| == |outcomes|
    ensures r.Ok? ==> forall k :: 0 <= k < |outcomes| ==> outcomes[k] == Ok(r.value[k])
    decreases |outcomes|
  {
    if |outcomes| == 0 then Ok([])
    else
      var row :- outcomes[0];
      var rest :- Collect(outcomes[1..]);
      assert forall k :: 1 <= k < |outcomes| ==> outcomes[k] == outcomes[1..][k - 1];
      Ok([row] + rest)
  }

  /** Collecting succeeds exactly when every outcome does. */
  lemma {:induction false} CollectOk(outcomes: seq<Result<ScheduleRow>>)
    ensures Collect(outcomes).Ok? ==> forall k :: 0 <= k < |outcomes| ==> outcomes[k].Ok?
    ensures (forall k :: 0 <= k < |outcomes| ==> outcomes[k].Ok?) ==> Collect(outcomes).Ok?
    decreases |outcomes|
  {
    if |outcomes| > 0 {
      var rest := outcomes[1..];
      CollectOk(rest);
      assert forall k :: 1 <= k < |outcomes| ==> outcomes[k] == rest[k - 1];
    }
  }

  /** `df.apply` over the rows: the first match whose results fail aborts. */
  function MakeRows(raws: seq<RawMatch>): (r: Result<seq<ScheduleRow>>)
    ensures r.Ok? ==> |r.value| == |raws| && forall k :: 0 <= k < |raws| ==> MakeRow(raws[k]) == Ok(r.value[k])
  {
    var outcomes := seq(|raws|, k requires 0 <= k < |raws| => MakeRow(raws[k]));
    Collect(outcomes)
  }

  /** The rows are built exactly when every match's row is. */
  lemma MakeRowsOk(raws: seq<RawMatch>)
    ensures MakeRows(raws).Ok? ==> forall k :: 0 <= k < |raws| ==> MakeRow(raws[k]).Ok?
    ensures (forall k :: 0 <= k < |raws| ==> MakeRow(raws[k]).Ok?) ==> MakeRows(raws).Ok?
  {
    var outcomes := seq(|raws|, k requires 0 <= k < |raws| => MakeRow(raws[k]));
    CollectOk(outcomes);
  }

  function GetSchedule(raws: seq<RawMatch>): (r: Result<ScheduleOutput>)
    ensures r.Ok? <==> forall k :: 0 <= k < |raws| ==> ParseResults(raws[k].result).Ok?
    ensures r.Ok? ==> |r.value.rows| == |r.value.matchIds| == |raws|
    ensures r.Ok? ==> forall k :: 0 <= k < |raws| ==>
      && Ok(r.value.rows[k]) == MakeRow(raws[k])
      && r.value.matchIds[k] == r.value.rows[k].matchId
      && r.value.matchIds[k] == LastChars(raws[k].matchId, 5)
      && r.value.rows[k].pointsHome + r.value.rows[k].pointsAway == Sum(r.value.rows[k].result)
  {
    MakeRowsOk(raws);
    var rows :- MakeRows(raws);
    Ok(ScheduleOutput(rows, seq(|rows|, k requires 0 <= k < |rows| => rows[k].matchId)))
  }
}
