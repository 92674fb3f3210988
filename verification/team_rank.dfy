/** `get_team_rank_with_match`: the ranking table is read with three empty
names in front of its header row, the third (empty) column is dropped,
every `0/` and `1/` in a column name becomes `set_` and `point_` (the tags
de-duplication produced, and any such text in the header itself), the
leading and trailing columns get fixed names, and a `team`
column holds each team's upper-case three-letter abbreviation.
 */
module TeamRank {
  import opened Results
  import opened PyStrings
  import opened ColumnNames

  // ---------------------------------------------------------------------------
  // team abbreviations

  /** `TEAM_TO_ABBR`: lower-case team name to lower-case FIVB code. */
  const TeamToAbbr: map<string, string> := map[
    "china" := "chn", "belgium" := "bel", "brazil" := "bra",
    "bulgaria" := "bul", "dominican republic" := "dom",
    "germany" := "ger", "italy" := "ita", "japan" := "jpn",
    "korea" := "kor", "netherlands" := "ned", "poland" := "pol",
    "russia" := "rus", "serbia" := "srb", "thailand" := "tha",
    "turkey" := "tur", "usa" := "usa"]

  /** The lambda applied to `team_full`: `TEAM_TO_ABBR[x.lower()].upper()`. */
  function TeamAbbreviation(full: string): (r: Result<string>)
    ensures r.Ok? <==> Lower(full) in TeamToAbbr
    ensures r.Err? ==> r == Err(KeyError(Lower(full)))
    ensures r.Ok? ==> |r.value| == |TeamToAbbr[Lower(full)]|
    ensures r.Ok? ==> forall i :: 0 <= i < |r.value| ==> r.value[i] == UpperChar(TeamToAbbr[Lower(full)][i])
  {
    var key := Lower(full);
    if key in TeamToAbbr then Ok(Upper(TeamToAbbr[key])) else Err(KeyError(key))
  }

  /** A three-letter code in lower case. */
  predicate IsLowerCode(s: string) {
    |s| == 3 && IsLower(s[0]) && IsLower(s[1]) && IsLower(s[2])
  }

  /** A three-letter code in upper case. */
  predicate IsUpperCode(s: string) {
    |s| == 3 && IsUpper(s[0]) && IsUpper(s[1]) && IsUpper(s[2])
  }

  /** Every name in the table is its own lower case, and every code is three
      lower-case letters. */
  lemma TableWellFormed()
    ensures forall team :: team in TeamToAbbr ==> Lower(team) == team
    ensures forall team :: team in TeamToAbbr ==> IsLowerCode(TeamToAbbr[team])
  {
    TableNamesLower();
  }

  lemma TableNamesLower()
    ensures forall team :: team in TeamToAbbr ==> Lower(team) == team
  {
    forall team | team in TeamToAbbr
      ensures Lower(team) == team
    {
      NoUpperLower(team);
    }
  }

  /** A name with no upper-case letter is its own lower case. */
  lemma NoUpperLower(s: string)
    requires forall i :: 0 <= i < |s| ==> !IsUpper(s[i])
    ensures Lower(s) == s
  {
  }

  /** Each team in the table gets the upper case of its code; so every
      abbreviation produced is three upper-case letters. */
  lemma AbbreviationIsCode(full: string)
    requires TeamAbbreviation(full).Ok?
    ensures IsUpperCode(TeamAbbreviation(full).value)
  {
    TableWellFormed();
  }

  /** `'USA'.lower()` is a key, so the abbreviation of `USA` is `USA`. */
  lemma AbbreviationOfUsa()
    ensures TeamAbbreviation("USA") == Ok("USA")
    ensures TeamAbbreviation("usa") == Ok("USA")
  {
    assert Lower("USA") == "usa";
    assert Lower("usa") == "usa";
    assert Upper("usa") == "USA";
  }

  /** A name that is not in the table raises `KeyError`. */
  lemma UnknownTeam()
    ensures TeamAbbreviation("Canada") == Err(KeyError("canada"))
  {
    assert Lower("Canada") == "canada";
  }

  /** `lower` of `upper` is `lower` on ASCII text. */
  lemma LowerOfUpper(s: string)
    ensures Lower(Upper(s)) == Lower(s)
  {
  }

  /** The lookup ignores case: writing the team name in capitals changes
      nothing. */
  lemma AbbreviationIgnoresCase(full: string)
    ensures TeamAbbreviation(Upper(full)) == TeamAbbreviation(full)
  {
    LowerOfUpper(full);
  }

  /** No two teams share a code, so the abbreviation identifies the team. */
  lemma CodesDistinct(a: string, b: string)
    requires a in TeamToAbbr && b in TeamToAbbr && a != b
    ensures TeamToAbbr[a] != TeamToAbbr[b]
  {
  }

  /** `upper` cannot map two different lower-case codes to the same text. */
  lemma UpperCodeInjective(a: string, b: string)
    requires IsLowerCode(a) && IsLowerCode(b) && Upper(a) == Upper(b)
    ensures a == b
  {
    assert forall i :: 0 <= i < 3 ==> UpperChar(a[i]) == UpperChar(b[i]);
  }

  /** Two names with the same abbreviation name the same team, up to case. */
  lemma AbbreviationInjective(x: string, y: string)
    requires TeamAbbreviation(x).Ok? && TeamAbbreviation(y).Ok?
    requires TeamAbbreviation(x) == TeamAbbreviation(y)
    ensures Lower(x) == Lower(y)
  {
    var a, b := Lower(x), Lower(y);
    TableWellFormed();
    UpperCodeInjective(TeamToAbbr[a], TeamToAbbr[b]);
    if a != b {
      CodesDistinct(a, b);
    }
  }

  /** The `team` column: the lambda over every `team_full` cell; the first
      unknown team aborts. */
  function TeamColumn(fulls: seq<string>): (r: Result<seq<string>>)
    ensures r.Ok? <==> forall k :: 0 <= k < |fulls| ==> Lower(fulls[k]) in TeamToAbbr
    ensures r.Ok? ==> |r.value| == |fulls|
    ensures r.Ok? ==> forall k :: 0 <= k < |fulls| ==> Ok(r.value[k]) == TeamAbbreviation(fulls[k])
    decreases |fulls|
  {
    if |fulls| == 0 then Ok([])
    else
      assert forall k :: 1 <= k < |fulls| ==> fulls[k] == fulls[1..][k - 1];
      var a :- TeamAbbreviation(fulls[0]);
      var rest :- TeamColumn(fulls[1..]);
      Ok([a] + rest)
  }

  // ---------------------------------------------------------------------------
  // column names

  /** With distinct names, dropping the label at position `i` removes exactly
      that position. */
  lemma {:induction false} DropLabelAt(names: seq<string>, i: nat)
    requires Distinct(names) && i < |names|
    ensures Without(names, names[i]) == names[..i] + names[i + 1..]
    decreases |names|
  {
    var rest := names[1..];
    assert Distinct(rest);
    if i == 0 {
      WithoutAbsent(rest, names[0]);
      assert names[..0] + names[1..] == rest;
    } else {
      DropLabelAt(rest, i - 1);
      assert rest[i - 1] == names[i];
      assert names[..i] == [names[0]] + rest[..i - 1];
      assert names[i + 1..] == rest[i..];
    }
  }

  /** The two prefix substitutions, `0/` to `set_` then `1/` to `point_`;
      a name without `/` is left as it is. */
  function Rename(name: string): (r: string)
    ensures '/' !in name ==> r == name
  {
    var r := Replace(Replace(name, "0/", "set_"), "1/", "point_");
    assert '/' !in name ==> r == name by {
      if '/' !in name {
        assert "0/"[1] == '/' && "1/"[1] == '/';
        ReplaceAbsent(name, "0/", "set_", 1);
        ReplaceAbsent(name, "1/", "point_", 1);
      }
    }
    r
  }

  /** A renamed column holds neither prefix any more. */
  lemma RenameClears(name: string)
    ensures NoPair(Rename(name), '0', '/')
    ensures NoPair(Rename(name), '1', '/')
  {
    var once := Replace(name, "0/", "set_");
    assert "0/" == ['0', '/'] && "1/" == ['1', '/'];
    ReplaceNoPair(name, "0/", "set_", '0', '/');
    ReplaceNoPair(once, "1/", "point_", '0', '/');
    ReplaceNoPair(once, "1/", "point_", '1', '/');
  }

  /** A de-duplication tag `0/` in front becomes `set_`, and the rest of
      the name is renamed on its own. */
  lemma RenameSetTag(x: string)
    ensures Rename("0/" + x) == "set_" + Rename(x)
  {
    var once := Replace(x, "0/", "set_");
    ReplaceHead(x, "0/", "set_");
    ReplacePrefix("set_", once, "1/", "point_");
  }

  /** A de-duplication tag `1/` in front becomes `point_`, and the rest of
      the name is renamed on its own. */
  lemma RenamePointTag(x: string)
    ensures Rename("1/" + x) == "point_" + Rename(x)
  {
    var once := Replace(x, "0/", "set_");
    ReplacePrefix("1/", x, "0/", "set_");
    ReplaceHead(once, "1/", "point_");
  }

  /** The substitutions reach header text too, not only de-duplication
      tags: a header name `10/20` is rewritten. */
  lemma RenameHeaderText()
    ensures Rename("10/20") == "1set_20"
  {
    assert StartsWith("0/20", "0/");
    assert Replace("10/20", "0/", "set_") == "1set_20";
    assert "1/"[1] == '/';
    ReplaceAbsent("1set_20", "1/", "point_", 1);
  }

  /** The names given to the first five columns. */
  const Leading: seq<string> := ["rank", "team_full", "match_total", "match_win", "match_lose"]

  /** The name position `k` of the renamed table ends up with: the last
      column is `point_ratio`, the fourth from last `set_ratio`, the first
      five take the leading names, and every other position keeps its
      header name after the `0/` and `1/` substitutions. */
  function RenamedAt(names: seq<string>, k: nat): (r: string)
    requires k < |names|
  {
    if k == |names| - 1 then "point_ratio"
    else if k == |names| - 4 then "set_ratio"
    else if k < 5 then Leading[k]
    else Rename(names[k])
  }

  /** The column renaming: the `0/` and `1/` substitutions on every name,
      then the five leading names and the two ratio names written over
      their positions.  The slice assignment `colnames[:5] = ...`
      makes a shorter list five long, and the table then rejects a list of
      the wrong length. */
  function RenameColumns(names: seq<string>): (r: Result<seq<string>>)
    ensures r.Ok? <==> |names| >= 5
    ensures r.Err? ==> r == Err(LengthMismatch(|names|, 5))
    ensures r.Ok? ==> |r.value| == |names|
    ensures r.Ok? ==> forall k :: 0 <= k < |names| ==> r.value[k] == RenamedAt(names, k)
  {
    var renamed := seq(|names|, k requires 0 <= k < |names| => Rename(names[k]));
    var fronted := if |renamed| >= 5 then Leading + renamed[5..] else Leading;
    var m := |fronted|;
    var named := fronted[m - 1 := "point_ratio"][m - 4 := "set_ratio"];
    if |named| != |names| then Err(LengthMismatch(|names|, |named|))
    else Ok(named)
  }

  /** Every renamed column is one of the fixed names or a header name with
      its prefix replaced, and no `0/` or `1/` survives. */
  lemma RenamedClean(names: seq<string>, k: nat)
    requires k < |names|
    ensures NoPair(RenamedAt(names, k), '0', '/') && NoPair(RenamedAt(names, k), '1', '/')
  {
    if k == |names| - 1 || k == |names| - 4 || k < 5 {
      FixedNamesClean();
      SlashFreeNoPair(RenamedAt(names, k));
    } else {
      RenameClears(names[k]);
    }
  }

  /** None of the fixed names holds a `/`. */
  lemma FixedNamesClean()
    ensures forall k :: 0 <= k < |Leading| ==> '/' !in Leading[k]
    ensures '/' !in "point_ratio" && '/' !in "set_ratio"
  {
  }

  /** A name without `/` holds neither prefix. */
  lemma SlashFreeNoPair(s: string)
    requires '/' !in s
    ensures NoPair(s, '0', '/') && NoPair(s, '1', '/')
  {
  }

  /** The whole column pipeline for the ranking table: header row with three
      empty names in front, drop the third column, rename. */
  function TeamRankColumns(header: seq<string>): (r: Result<seq<string>>)
    ensures r.Ok? <==> |header| >= 3
    ensures r.Ok? ==> |r.value| == |header| + 2
  {
    var names := HeaderNames(header, 3);
    var dropped := Without(names, names[2]);
    DropLabelAt(names, 2);
    RenameColumns(dropped)
  }

  /** After the pipeline, the names at positions 5 .. n-5 and n-3, n-2 are
      the header's own names (de-duplicated), renamed; the padding's `''`
      and `0/` are overwritten by `rank` and `team_full`, except that with
      only five columns `set_ratio` lands on position 1. */
  lemma TeamRankColumnsShape(header: seq<string>)
    requires |header| >= 3
    ensures var names := HeaderNames(header, 3);
      var r := TeamRankColumns(header).value;
      var n := |r|;
      && r[0] == "rank"
      && r[1] == (if n == 5 then "set_ratio" else "team_full")
      && r[n - 1] == "point_ratio" && r[n - 4] == "set_ratio"
      && forall k :: 5 <= k < n && k != n - 1 && k != n - 4 ==> r[k] == Rename(names[k + 1])
  {
    var names := HeaderNames(header, 3);
    DropLabelAt(names, 2);
    var dropped := names[..2] + names[3..];
    assert forall k :: 2 <= k < |dropped| ==> dropped[k] == names[k + 1];
  }

  /** A middle header name that de-duplication leaves without `/` reaches
      the output unchanged: it is the snake-cased header cell three places
      back (three padding names in front, one dropped). */
  lemma MiddleNamesKept(header: seq<string>, k: nat)
    requires |header| >= 3
    requires 5 <= k < |header| + 2 && k != |header| + 1 && k != |header| - 2
    requires '/' !in HeaderNames(header, 3)[k + 1]
    ensures TeamRankColumns(header).value[k] == HeaderNames(header, 3)[k + 1]
    ensures TeamRankColumns(header).value[k] == FormatSnake(header[k - 2])
  {
    TeamRankColumnsShape(header);
    UntaggedHeaderName(header, 3, k + 1);
  }

  // ---------------------------------------------------------------------------
  // the `team` column

  /** `df[key]` on a table whose columns are `names`: the first column with
      that name, or `KeyError` when there is none. */
  function ColumnIndex(names: seq<string>, key: string): (r: Result<nat>)
    ensures r.Ok? <==> key in names
    ensures r.Err? ==> r == Err(KeyError(key))
    ensures r.Ok? ==> r.value < |names| && names[r.value] == key && key !in names[..r.value]
    decreases |names|
  {
    if |names| == 0 then Err(KeyError(key))
    else if names[0] == key then Ok(0)
    else
      match ColumnIndex(names[1..], key)
      case Err(e) => Err(e)
      case Ok(k) =>
        assert names[..k + 1] == [names[0]] + names[1..][..k];
        Ok(k + 1)
  }

  /** The ranking table once it is read: name the columns, then look up
      `team_full` and abbreviate every cell of it.  `columns[k]` holds the
      cells of the `k`-th column once the empty third column is gone, so
      there is one per renamed name.  With a three-name header the table has
      five columns, `set_ratio` lands on `team_full`'s place, and the lookup
      raises `KeyError`. */
  function TeamRankTeams(header: seq<string>, columns: seq<seq<string>>): (r: Result<seq<string>>)
    requires |columns| == |header| + 2
    ensures |header| < 3 ==> r.Err? && r.error.LengthMismatch?
    ensures |header| == 3 ==> r == Err(KeyError("team_full"))
    ensures |header| > 3 ==> r == TeamColumn(columns[1])
  {
    var names :- TeamRankColumns(header);
    TeamFullPlace(header);
    var k :- ColumnIndex(names, "team_full");
    TeamColumn(columns[k])
  }

  /** Where `team_full` sits among the renamed columns: nowhere for a
      three-name header, first at position 1 otherwise. */
  lemma TeamFullPlace(header: seq<string>)
    requires |header| >= 3
    ensures |header| == 3 ==> "team_full" !in TeamRankColumns(header).value
    ensures |header| > 3 ==> ColumnIndex(TeamRankColumns(header).value, "team_full") == Ok(1)
  {
    var names := TeamRankColumns(header).value;
    TeamRankColumnsShape(header);
    if |header| == 3 {
      assert names == ["rank", "set_ratio", "match_total", "match_win", "point_ratio"];
    } else {
      assert names[0] == "rank" && names[1] == "team_full";
      assert names[..1] == ["rank"];
    }
  }
}
