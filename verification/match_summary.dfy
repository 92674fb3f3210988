/** `get_match_summary`: the five set-point columns of the round-robin summary
table are cleaned cell by cell.  A cell is the `-`-joined text of its spans;
cleaning keeps the one- or two-digit score at each end and puts a single `-`
between them, and leaves the lone `-` of an unplayed set alone.
 */
module MatchSummary {
  import opened Results
  import opened PyStrings

  /** The column names the summary table is given, in order. */
  const SummaryColumns: seq<string> := [
    "number", "date", "teams", "sets", "set1_point", "set2_point",
    "set3_point", "set4_point", "set5_point", "pionts", "time", "audience"]

  /** Position of column `set<i>_point` in `SummaryColumns`. */
  function SetColumn(i: nat): (c: nat)
    requires 1 <= i <= 5
    ensures 4 <= c <= 8 < |SummaryColumns|
    ensures SummaryColumns[c] == "set" + NatToString(i) + "_point"
  {
    assert NatToString(i) == [DigitChar(i)];
    i + 3
  }

  /** The score on the left of a cell: two characters if the second is a
      digit, else one. */
  function Head(x: string): (h: string)
    requires |x| >= 2
  {
    if IsDigit(x[1]) then x[..2] else x[..1]
  }

  /** The score on the right of a cell: two characters if the one before
      the last is a digit, else one. */
  function Tail(x: string): (t: string)
    requires |x| >= 2
  {
    if IsDigit(x[|x| - 2]) then x[|x| - 2..] else x[|x| - 1..]
  }

  /** The cleaning lambda on one cell.  Reading `x[1]` of a string shorter
      than two characters raises `IndexError`. */
  function CleanSetPoint(x: string): (r: Result<string>)
    ensures r.Ok? <==> x == "-" || |x| >= 2
    ensures r.Err? ==> r.error.IndexError?
    ensures x == "-" ==> r == Ok("-")
    ensures r.Ok? && x != "-" ==>
      && 3 <= |r.value| <= 5
      && r.value[0] == x[0]
      && r.value[|r.value| - 1] == x[|x| - 1]
      && '-' in r.value
  {
    if x == "-" then Ok(x)
    else if |x| < 2 then Err(IndexError("string index out of range"))
    else
      var y := Head(x) + "-" + Tail(x);
      assert y[|Head(x)|] == '-';
      Ok(y)
  }

  /** A set score as printed: one or two decimal digits. */
  predicate IsScore(s: string) {
    1 <= |s| <= 2 && AllDigits(s)
  }

  /** What the spans of a cell may be joined by: text that starts and ends
      with a non-digit. */
  predicate IsSeparator(m: string) {
    |m| >= 1 && !IsDigit(m[0]) && !IsDigit(m[|m| - 1])
  }

  /** Cleaning recovers the two scores around any separator, and joins
      them with a single `-`. */
  lemma CleanExtractsScores(a: string, m: string, b: string)
    requires IsScore(a) && IsSeparator(m) && IsScore(b)
    ensures CleanSetPoint(a + m + b) == Ok(a + "-" + b)
  {
    var x := a + m + b;
    assert x != "-" by { assert |x| >= 3; }
    if |a| == 2 {
      assert x[1] == a[1] && x[..2] == a;
    } else {
      assert x[1] == m[0] && x[..1] == a;
    }
    if |b| == 2 {
      assert x[|x| - 2] == b[0] && x[|x| - 2..] == b;
    } else {
      assert x[|x| - 2] == m[|m| - 1] && x[|x| - 1..] == b;
    }
  }

  /** A well-formed score pair is left as it is. */
  lemma CleanScorePair(a: nat, b: nat)
    requires a < 100 && b < 100
    ensures CleanSetPoint(NatToString(a) + "-" + NatToString(b)) == Ok(NatToString(a) + "-" + NatToString(b))
  {
    CleanExtractsScores(NatToString(a), "-", NatToString(b));
  }

  /** Cleaning a cleaned cell changes nothing. */
  lemma {:induction false} CleanSetPointIdempotent(x: string)
    requires CleanSetPoint(x).Ok?
    ensures CleanSetPoint(CleanSetPoint(x).value) == CleanSetPoint(x)
  {
    if x != "-" {
      var h, t := Head(x), Tail(x);
      assert IsDigit(x[1]) ==> h == [x[0], x[1]];
      assert IsDigit(x[|x| - 2]) ==> t == [x[|x| - 2], x[|x| - 1]];
      var y := h + "-" + t;
      assert y != "-";
      if |h| == 2 {
        assert y[1] == h[1] && y[..2] == h;
      } else {
        assert y[1] == '-' && y[..1] == h;
      }
      if |t| == 2 {
        assert y[|y| - 2] == t[0] && y[|y| - 2..] == t;
      } else {
        assert y[|y| - 2] == '-' && y[|y| - 1..] == t;
      }
    }
  }

  /** `Series.apply` of the lambda: the first cell that fails aborts. */
  function CleanColumn(col: seq<string>): (r: Result<seq<string>>)
    ensures r.Ok? ==> |r.value| == |col|
    ensures r.Ok? ==> forall k :: 0 <= k < |col| ==> CleanSetPoint(col[k]) == Ok(r.value[k])
    decreases |col|
  {
    if |col| == 0 then Ok([])
    else
      var c :- CleanSetPoint(col[0]);
      var rest :- CleanColumn(col[1..]);
      assert forall k :: 1 <= k < |col| ==> col[k] == col[1..][k - 1];
      Ok([c] + rest)
  }

  /** The column is cleaned exactly when every cell is `-` or at least two
      characters long. */
  lemma {:induction false} CleanColumnOk(col: seq<string>)
    ensures CleanColumn(col).Ok? <==> forall k :: 0 <= k < |col| ==> col[k] == "-" || |col[k]| >= 2
    decreases |col|
  {
    if |col| > 0 {
      CleanColumnOk(col[1..]);
      assert forall k :: 1 <= k < |col| ==> col[k] == col[1..][k - 1];
      if forall k :: 1 <= k < |col| ==> col[k] == "-" || |col[k]| >= 2 {
        assert forall k :: 0 <= k < |col[1..]| ==> col[1..][k] == col[k + 1];
      }
    }
  }

  /** Every cell a cleaned column holds is a fixed point of the cleaning. */
  lemma CleanColumnStable(col: seq<string>)
    requires CleanColumn(col).Ok?
    ensures CleanColumn(CleanColumn(col).value) == CleanColumn(col)
  {
    var out := CleanColumn(col).value;
    forall k | 0 <= k < |out|
      ensures CleanSetPoint(out[k]) == Ok(out[k])
    {
      CleanSetPointIdempotent(col[k]);
    }
    CleanColumnFixed(out);
  }

  /** A column whose every cell is unchanged by cleaning is unchanged. */
  lemma {:induction false} CleanColumnFixed(col: seq<string>)
    requires forall k :: 0 <= k < |col| ==> CleanSetPoint(col[k]) == Ok(col[k])
    ensures CleanColumn(col) == Ok(col)
    decreases |col|
  {
    if |col| > 0 {
      assert forall k :: 0 <= k < |col[1..]| ==> col[1..][k] == col[k + 1];
      CleanColumnFixed(col[1..]);
      assert [col[0]] + col[1..] == col;
    }
  }

  /** The loop over `set1_point` .. `set5_point`, on the table given as its
      twelve columns.  The first column holding a bad cell aborts. */
  method GetMatchSummary(cols: seq<seq<string>>) returns (r: Result<seq<seq<string>>>)
    requires |cols| == |SummaryColumns|
    ensures r.Ok? <==> forall c :: 4 <= c <= 8 ==> CleanColumn(cols[c]).Ok?
    ensures r.Ok? ==> |r.value| == |cols|
    ensures r.Ok? ==> forall c :: 0 <= c < |cols| && !(4 <= c <= 8) ==> r.value[c] == cols[c]
    ensures r.Ok? ==> forall c :: 4 <= c <= 8 ==> Ok(r.value[c]) == CleanColumn(cols[c])
  {
    var table := cols;
    for i := 1 to 6
      invariant |table| == |cols|
      invariant forall c :: 0 <= c < |cols| && !(4 <= c < i + 3) ==> table[c] == cols[c]
      invariant forall c :: 4 <= c < i + 3 ==> Ok(table[c]) == CleanColumn(cols[c])
    {
      var c := SetColumn(i);
      var cleaned := CleanColumn(table[c]);
      if cleaned.Err? {
        return Err(cleaned.error);
      }
      table := table[c := cleaned.value];
    }
    return Ok(table);
  }
}
