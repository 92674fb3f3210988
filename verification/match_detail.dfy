/** `get_one_match_data`, with the page abstracted away: for every team block
of a finished match, one row of 39 fields per player, read from seven
statistics tables (scoring, attack, block, serve, reception, dig, set) by
cell class.  A missing cell is an `IndexError`, except for the efficiency
cells, which fall back to a single space.
 */
module MatchDetail {
  import opened Results

  // ---------------------------------------------------------------------------
  // the page, as the queries see it

  /** The seven statistics tables of one team. */
  datatype Table = Scoring | Attack | Block | Serve | Reception | Dig | Setting

  /** The cell classes the queries select on; `ClassName` gives the text
      that follows `vbw-o-table__cell ` in the `@class` attribute. */
  datatype CellClass =
    | ShirtNumber | PlayerName | Position | Attacks | Blocks | Serves
    | EfficiencyPercentage | TotalAbs | Point | Errors | Attempts | Total
    | Touches | Successful | Digs

  function ClassName(c: CellClass): string {
    match c
    case ShirtNumber => "shirtnumber"
    case PlayerName => "playername"
    case Position => "position"
    case Attacks => "attacks"
    case Blocks => "blocks"
    case Serves => "serves"
    case EfficiencyPercentage => "efficiency-percentage"
    case TotalAbs => "total-abs"
    case Point => "point"
    case Errors => "errors"
    case Attempts => "attempts"
    case Total => "total"
    case Touches => "touches"
    case Successful => "successful"
    case Digs => "digs"
  }

  /** One player's row of a statistics table: for each cell class, the text
      nodes the `td[@class=...]/text()` query yields (none when the cell is
      absent or empty). */
  type PlayerRow = map<CellClass, seq<string>>

  /** One team block: its `data-team` attribute and the player rows of each
      of its seven tables. */
  datatype TeamBlock = TeamBlock(
    dataTeam: string,
    scoring: seq<PlayerRow>, attack: seq<PlayerRow>, block: seq<PlayerRow>,
    serve: seq<PlayerRow>, reception: seq<PlayerRow>, dig: seq<PlayerRow>,
    setting: seq<PlayerRow>)

  function RowsOf(b: TeamBlock, t: Table): seq<PlayerRow> {
    match t
    case Scoring => b.scoring
    case Attack => b.attack
    case Block => b.block
    case Serve => b.serve
    case Reception => b.reception
    case Dig => b.dig
    case Setting => b.setting
  }

  /** The text nodes of one cell; an absent class yields none. */
  function Texts(row: PlayerRow, cls: CellClass): seq<string> {
    if cls in row then row[cls] else []
  }

  // ---------------------------------------------------------------------------
  // the row layout

  /** Where a field comes from. */
  datatype Source =
    | MatchIdSource                             // the match id the page was fetched for
    | NationSource                              // the team block's nation, from the team links
    | Required(table: Table, cls: CellClass)    // first text of a cell; `IndexError` if there is none
    | Placeholder(table: Table, cls: CellClass) // first text of a cell; `' '` if there is none

  /** `titlelist`, in order. */
  const Titles: seq<string> := [
    "schedule_id", "nationality", "number", "name", "position", "attackpoints",
    "blockpoints", "servepoints", "efficency", "totalabs",
    "attack_pt", "attack_err", "attack_att", "attack_tot", "attack_eff",
    "block_pt", "block_err", "block_touches", "block_tot", "block_eff",
    "serve_pt", "serve_err", "serve_attempts", "serve_tot", "serve_eff",
    "reception_successful", "reception_err", "reception_attempts", "reception_tot", "reception_eff",
    "dig_digs", "dig_err", "dig_tot", "dig_eff",
    "set_pt", "set_err", "set_attempts", "set_tot", "set_eff"]

  /** Where each field of a row comes from, in the order the row is built;
      field `k` goes in column `Titles[k]`.  The dig table's `dig_tot` reads
      the `attempts` cell and `dig_eff` the `total` cell, as the queries are
      written. */
  const Layout: seq<Source> := [
    MatchIdSource, NationSource,
    // number, name, position, attackpoints, blockpoints, servepoints, efficency, totalabs
    Required(Scoring, ShirtNumber), Required(Scoring, PlayerName), Required(Scoring, Position),
    Required(Scoring, Attacks), Required(Scoring, Blocks), Required(Scoring, Serves),
    Placeholder(Scoring, EfficiencyPercentage), Required(Scoring, TotalAbs),
    // attack_pt, attack_err, attack_att, attack_tot, attack_eff
    Required(Attack, Point), Required(Attack, Errors), Required(Attack, Attempts),
    Required(Attack, Total), Placeholder(Attack, EfficiencyPercentage),
    // block_pt, block_err, block_touches, block_tot, block_eff
    Required(Block, Point), Required(Block, Errors), Required(Block, Touches),
    Required(Block, Total), Placeholder(Block, EfficiencyPercentage),
    // serve_pt, serve_err, serve_attempts, serve_tot, serve_eff
    Required(Serve, Point), Required(Serve, Errors), Required(Serve, Attempts),
    Required(Serve, Total), Placeholder(Serve, EfficiencyPercentage),
    // reception_successful, reception_err, reception_attempts, reception_tot, reception_eff
    Required(Reception, Successful), Required(Reception, Errors), Required(Reception, Attempts),
    Required(Reception, Total), Placeholder(Reception, EfficiencyPercentage),
    // dig_digs, dig_err, dig_tot, dig_eff
    Required(Dig, Digs), Required(Dig, Errors), Required(Dig, Attempts), Placeholder(Dig, Total),
    // set_pt, set_err, set_attempts, set_tot, set_eff
    Required(Setting, Successful), Required(Setting, Errors), Required(Setting, Attempts),
    Required(Setting, Total), Placeholder(Setting, EfficiencyPercentage)]

  /** The layout has one field per title, and the placeholder fields are
      exactly the five `_eff` columns of the statistics tables, `efficency`
      and `dig_eff`. */
  lemma LayoutMatchesTitles()
    ensures |Layout| == |Titles| == 39
    ensures forall k :: 0 <= k < 39 ==> (Layout[k].Placeholder? <==> k in EfficiencyColumns)
    ensures Titles[8] == "efficency" && Titles[14] == "attack_eff" && Titles[19] == "block_eff"
    ensures Titles[24] == "serve_eff" && Titles[29] == "reception_eff" && Titles[33] == "dig_eff"
    ensures Titles[38] == "set_eff"
  {
  }

  /** After the id and the nation the fields come table by table: eight
      from the scoring table, five each from attack, block, serve and
      reception, four from dig and five from set. */
  lemma LayoutTables()
    ensures forall k :: 2 <= k < 39 ==> Layout[k].Required? || Layout[k].Placeholder?
    ensures forall k :: 2 <= k < 10 ==> Layout[k].table == Scoring
    ensures forall k :: 10 <= k < 15 ==> Layout[k].table == Attack
    ensures forall k :: 15 <= k < 20 ==> Layout[k].table == Block
    ensures forall k :: 20 <= k < 25 ==> Layout[k].table == Serve
    ensures forall k :: 25 <= k < 30 ==> Layout[k].table == Reception
    ensures forall k :: 30 <= k < 34 ==> Layout[k].table == Dig
    ensures forall k :: 34 <= k < 39 ==> Layout[k].table == Setting
  {
  }

  /** The columns whose cell may be absent. */
  const EfficiencyColumns: set<nat> := {8, 14, 19, 24, 29, 33, 38}

  /** The facts about the layout a whole table needs. */
  lemma LayoutHead()
    ensures |Layout| == |Titles| == 39
    ensures Layout[0] == MatchIdSource && Layout[1] == NationSource
  {
  }

  // ---------------------------------------------------------------------------
  // one row

  /** What the match is read with: its id and the nation map built from the
      team links. */
  datatype Context = Context(matchId: string, nations: map<string, string>)

  /** The value of one field for player `i` of team block `b`. */
  function FieldValue(ctx: Context, b: TeamBlock, i: nat, src: Source): (r: Result<string>)
    ensures src == MatchIdSource ==> r == Ok(ctx.matchId)
    ensures src == NationSource ==> (r.Ok? <==> b.dataTeam in ctx.nations)
    ensures src == NationSource && r.Ok? ==> r.value == ctx.nations[b.dataTeam]
    ensures src == NationSource && r.Err? ==> r == Err(KeyError(b.dataTeam))
    ensures (src.Required? || src.Placeholder?) && r.Err? ==> r.error.IndexError?
    ensures src.Required? ==> (r.Ok? <==> i < |RowsOf(b, src.table)| && |Texts(RowsOf(b, src.table)[i], src.cls)| > 0)
    ensures src.Placeholder? ==> (r.Ok? <==> i < |RowsOf(b, src.table)|)
    ensures src.Placeholder? && r.Ok? && |Texts(RowsOf(b, src.table)[i], src.cls)| == 0 ==> r.value == " "
    ensures (src.Required? || src.Placeholder?) && r.Ok? && |Texts(RowsOf(b, src.table)[i], src.cls)| > 0 ==>
      r.value == Texts(RowsOf(b, src.table)[i], src.cls)[0]
  {
    match src
    case MatchIdSource => Ok(ctx.matchId)
    case NationSource =>
      if b.dataTeam in ctx.nations then Ok(ctx.nations[b.dataTeam]) else Err(KeyError(b.dataTeam))
    case Required(t, cls) =>
      var rows := RowsOf(b, t);
      if i >= |rows| then Err(IndexError("list index out of range"))
      else
        var texts := Texts(rows[i], cls);
        if |texts| == 0 then Err(IndexError("list index out of range")) else Ok(texts[0])
    case Placeholder(t, cls) =>
      var rows := RowsOf(b, t);
      if i >= |rows| then Err(IndexError("list index out of range"))
      else
        var texts := if |Texts(rows[i], cls)| == 0 then [" "] else Texts(rows[i], cls);
        Ok(texts[0])
  }

  /** The fields `fs` evaluated in order; the first failure aborts. */
  function Fields(ctx: Context, b: TeamBlock, i: nat, fs: seq<Source>): (r: Result<seq<string>>)
    ensures r.Ok? ==> |r.value| == |fs|
    ensures r.Ok? ==> forall k :: 0 <= k < |fs| ==> FieldValue(ctx, b, i, fs[k]) == Ok(r.value[k])
    decreases |fs|
  {
    if |fs| == 0 then Ok([])
    else
      var v :- FieldValue(ctx, b, i, fs[0]);
      var rest :- Fields(ctx, b, i, fs[1..]);
      assert forall k :: 1 <= k < |fs| ==> fs[k] == fs[1..][k - 1];
      Ok([v] + rest)
  }

  /** The fields come out exactly when every one of them can be read. */
  lemma {:induction false} FieldsOk(ctx: Context, b: TeamBlock, i: nat, fs: seq<Source>)
    ensures Fields(ctx, b, i, fs).Ok? <==> forall k :: 0 <= k < |fs| ==> FieldValue(ctx, b, i, fs[k]).Ok?
    decreases |fs|
  {
    if |fs| > 0 {
      FieldsOk(ctx, b, i, fs[1..]);
      assert forall k :: 1 <= k < |fs| ==> fs[k] == fs[1..][k - 1];
      if forall k :: 0 <= k < |fs| ==> FieldValue(ctx, b, i, fs[k]).Ok? {
        assert FieldValue(ctx, b, i, fs[0]).Ok?;
        assert forall k :: 0 <= k < |fs[1..]| ==> fs[1..][k] == fs[k + 1];
      }
    }
  }

  /** The row of player `i` of block `b`. */
  function PlayerRecord(ctx: Context, b: TeamBlock, i: nat): (r: Result<seq<string>>)
    ensures r.Ok? ==> |r.value| == |Titles|
    ensures r.Ok? ==> r.value[0] == ctx.matchId
    ensures r.Ok? ==> b.dataTeam in ctx.nations && r.value[1] == ctx.nations[b.dataTeam]
    ensures r.Ok? ==> forall k :: 0 <= k < |Titles| ==> FieldValue(ctx, b, i, Layout[k]) == Ok(r.value[k])
  {
    LayoutHead();
    FieldsHead(ctx, b, i, Layout);
    Fields(ctx, b, i, Layout)
  }

  /** A layout that starts with the match id and the nation yields rows that
      start with them. */
  lemma FieldsHead(ctx: Context, b: TeamBlock, i: nat, fs: seq<Source>)
    requires |fs| > 1 && fs[0] == MatchIdSource && fs[1] == NationSource
    ensures Fields(ctx, b, i, fs).Ok? ==>
      && Fields(ctx, b, i, fs).value[0] == ctx.matchId
      && b.dataTeam in ctx.nations && Fields(ctx, b, i, fs).value[1] == ctx.nations[b.dataTeam]
  {
    if Fields(ctx, b, i, fs).Ok? {
      assert FieldValue(ctx, b, i, fs[0]) == Ok(Fields(ctx, b, i, fs).value[0]);
      assert FieldValue(ctx, b, i, fs[1]) == Ok(Fields(ctx, b, i, fs).value[1]);
    }
  }

  /** A player whose team is known, who has a row in every table and whose
      required cells all have text gets a row, with `' '` in every
      placeholder field whose cell is absent. */
  lemma PlaceholdersFilled(ctx: Context, b: TeamBlock, i: nat)
    requires b.dataTeam in ctx.nations
    requires forall t: Table :: i < |RowsOf(b, t)|
    requires forall k :: 0 <= k < |Layout| && Layout[k].Required? ==>
      |Texts(RowsOf(b, Layout[k].table)[i], Layout[k].cls)| > 0
    ensures PlayerRecord(ctx, b, i).Ok?
    ensures forall k :: 0 <= k < |Titles| ==>
      (Layout[k].Placeholder? && |Texts(RowsOf(b, Layout[k].table)[i], Layout[k].cls)| == 0 ==>
         PlayerRecord(ctx, b, i).value[k] == " ")
  {
    PlayerRecordOk(ctx, b, i);
    LayoutHead();
  }

  /** Every statistics table has a field of `fs` that reads it. */
  ghost predicate ReadsEveryTable(fs: seq<Source>) {
    forall t: Table :: ReadsTable(fs, t)
  }

  ghost predicate ReadsTable(fs: seq<Source>, t: Table) {
    exists k :: 0 <= k < |fs| && (fs[k].Required? || fs[k].Placeholder?) && fs[k].table == t
  }

  /** For a layout with the nation second that reads every table, the fields
      come out exactly when the nation is known, player `i` has a row in all
      seven tables, and every required cell has text. */
  lemma FieldsOkWhen(ctx: Context, b: TeamBlock, i: nat, fs: seq<Source>)
    requires |fs| > 1 && fs[1] == NationSource && ReadsEveryTable(fs)
    ensures Fields(ctx, b, i, fs).Ok? ==>
      && b.dataTeam in ctx.nations
      && (forall t: Table :: i < |RowsOf(b, t)|)
      && forall k :: 0 <= k < |fs| && fs[k].Required? ==> |Texts(RowsOf(b, fs[k].table)[i], fs[k].cls)| > 0
    ensures
      && b.dataTeam in ctx.nations
      && (forall t: Table :: i < |RowsOf(b, t)|)
      && (forall k :: 0 <= k < |fs| && fs[k].Required? ==> |Texts(RowsOf(b, fs[k].table)[i], fs[k].cls)| > 0)
      ==> Fields(ctx, b, i, fs).Ok?
  {
    FieldsOk(ctx, b, i, fs);
    if Fields(ctx, b, i, fs).Ok? {
      assert FieldValue(ctx, b, i, fs[1]).Ok?;
      forall t: Table
        ensures i < |RowsOf(b, t)|
      {
        assert ReadsTable(fs, t);
        var k :| 0 <= k < |fs| && (fs[k].Required? || fs[k].Placeholder?) && fs[k].table == t;
        assert FieldValue(ctx, b, i, fs[k]).Ok?;
      }
    }
  }

  /** The row is produced exactly when the nation is known, player `i` has a
      row in all seven tables, and every required cell has text. */
  lemma PlayerRecordOk(ctx: Context, b: TeamBlock, i: nat)
    ensures PlayerRecord(ctx, b, i).Ok? ==>
      && b.dataTeam in ctx.nations
      && (forall t: Table :: i < |RowsOf(b, t)|)
      && forall k :: 0 <= k < |Layout| && Layout[k].Required? ==>
           |Texts(RowsOf(b, Layout[k].table)[i], Layout[k].cls)| > 0
    ensures
      && b.dataTeam in ctx.nations
      && (forall t: Table :: i < |RowsOf(b, t)|)
      && (forall k :: 0 <= k < |Layout| && Layout[k].Required? ==>
           |Texts(RowsOf(b, Layout[k].table)[i], Layout[k].cls)| > 0)
      ==> PlayerRecord(ctx, b, i).Ok?
  {
    LayoutHead();
    forall t: Table
      ensures ReadsTable(Layout, t)
    {
      var k := TableWitness(t);
    }
    FieldsOkWhen(ctx, b, i, Layout);
  }

  /** A field of the layout that reads table `t`. */
  function TableWitness(t: Table): (k: nat)
    ensures k < |Layout| && (Layout[k].Required? || Layout[k].Placeholder?)
    ensures Layout[k].table == t
  {
    match t
    case Scoring => 2
    case Attack => 10
    case Block => 15
    case Serve => 20
    case Reception => 25
    case Dig => 30
    case Setting => 34
  }

  // ---------------------------------------------------------------------------
  // a team block, and a match

  /** `for i in range(len(infos0))`: one row per row of the scoring table,
      each built from the fields `layout`. */
  function TeamRecords(ctx: Context, b: TeamBlock, layout: seq<Source>): (r: Result<seq<seq<string>>>)
    ensures r.Ok? ==> forall i: nat :: 0 <= i < |b.scoring| ==> Fields(ctx, b, i, layout).Ok?
    ensures (forall i: nat :: 0 <= i < |b.scoring| ==> Fields(ctx, b, i, layout).Ok?) ==> r.Ok?
    ensures r.Ok? ==> |r.value| == |b.scoring|
    ensures r.Ok? ==> forall i :: 0 <= i < |b.scoring| ==> Fields(ctx, b, i, layout) == Ok(r.value[i])
  {
    RecordsFromOk(ctx, b, layout, 0);
    RecordsFrom(ctx, b, layout, 0)
  }

  /** The rows of players `start`, `start + 1`, ... of the scoring table. */
  function RecordsFrom(ctx: Context, b: TeamBlock, layout: seq<Source>, start: nat): (r: Result<seq<seq<string>>>)
    requires start <= |b.scoring|
    ensures r.Ok? ==> |r.value| == |b.scoring| - start
    ensures r.Ok? ==> forall i :: start <= i < |b.scoring| ==> Fields(ctx, b, i, layout) == Ok(r.value[i - start])
    decreases |b.scoring| - start
  {
    if start == |b.scoring| then Ok([])
    else
      match Fields(ctx, b, start, layout)
      case Err(e) => Err(e)
      case Ok(row) =>
        match RecordsFrom(ctx, b, layout, start + 1)
        case Err(e) => Err(e)
        case Ok(rest) => Ok([row] + rest)
  }

  /** The rows come out exactly when every player's row does. */
  lemma {:induction false} RecordsFromOk(ctx: Context, b: TeamBlock, layout: seq<Source>, start: nat)
    requires start <= |b.scoring|
    ensures RecordsFrom(ctx, b, layout, start).Ok? ==>
      forall i: nat :: start <= i < |b.scoring| ==> Fields(ctx, b, i, layout).Ok?
    ensures (forall i: nat :: start <= i < |b.scoring| ==> Fields(ctx, b, i, layout).Ok?) ==>
      RecordsFrom(ctx, b, layout, start).Ok?
    decreases |b.scoring| - start
  {
    if start < |b.scoring| {
      RecordsFromOk(ctx, b, layout, start + 1);
      if forall i: nat :: start <= i < |b.scoring| ==> Fields(ctx, b, i, layout).Ok? {
        assert Fields(ctx, b, start, layout).Ok?;
      }
    }
  }

  /** A team with no player rows contributes nothing, even when its nation
      is unknown: the nation is only looked up inside the player loop. */
  lemma EmptyTeam(ctx: Context, b: TeamBlock)
    requires |b.scoring| == 0
    ensures TeamRecords(ctx, b, Layout) == Ok([])
  {
  }

  /** The rows of a match: each team block's rows, blocks in page order. */
  function MatchRecords(ctx: Context, blocks: seq<TeamBlock>, layout: seq<Source>): (r: Result<seq<seq<string>>>)
    ensures r.Ok? <==> forall j :: 0 <= j < |blocks| ==> TeamRecords(ctx, blocks[j], layout).Ok?
    ensures r.Ok? ==> forall row :: row in r.value ==> |row| == |layout|
    ensures r.Ok? && |layout| > 0 && layout[0] == MatchIdSource ==>
      forall row :: row in r.value ==> row[0] == ctx.matchId
    decreases |blocks|
  {
    if |blocks| == 0 then Ok([])
    else
      assert forall j :: 1 <= j < |blocks| ==> blocks[j] == blocks[1..][j - 1];
      match TeamRecords(ctx, blocks[0], layout)
      case Err(e) => Err(e)
      case Ok(first) =>
        assert forall row :: row in first ==>
          |row| == |layout| && (|layout| > 0 && layout[0] == MatchIdSource ==> row[0] == ctx.matchId) by {
          forall row | row in first
            ensures |row| == |layout| && (|layout| > 0 && layout[0] == MatchIdSource ==> row[0] == ctx.matchId)
          {
            var i :| 0 <= i < |first| && first[i] == row;
            assert Fields(ctx, blocks[0], i, layout) == Ok(row);
          }
        }
        match MatchRecords(ctx, blocks[1..], layout)
        case Err(e) => Err(e)
        case Ok(rest) => Ok(first + rest)
  }

  /** The rows `get_one_match_data` puts in its table: 39 fields each, the
      match id first. */
  function MatchRows(ctx: Context, blocks: seq<TeamBlock>): (r: Result<seq<seq<string>>>)
    ensures r.Ok? <==> forall j :: 0 <= j < |blocks| ==> TeamRecords(ctx, blocks[j], Layout).Ok?
    ensures r.Ok? ==> forall row :: row in r.value ==> |row| == |Titles| && row[0] == ctx.matchId
  {
    LayoutHead();
    MatchRecords(ctx, blocks, Layout)
  }

  /** A match's rows are built exactly when every player's row of every team
      block is. */
  lemma MatchRecordsOk(ctx: Context, blocks: seq<TeamBlock>, layout: seq<Source>)
    ensures MatchRecords(ctx, blocks, layout).Ok? ==>
      forall j: int, i: nat :: 0 <= j < |blocks| && i < |blocks[j].scoring| ==> Fields(ctx, blocks[j], i, layout).Ok?
    ensures (forall j: int, i: nat :: 0 <= j < |blocks| && i < |blocks[j].scoring| ==> Fields(ctx, blocks[j], i, layout).Ok?)
      ==> MatchRecords(ctx, blocks, layout).Ok?
  {
    var ok := MatchRecords(ctx, blocks, layout).Ok?;
    if ok {
      forall j: int, i: nat | 0 <= j < |blocks| && i < |blocks[j].scoring|
        ensures Fields(ctx, blocks[j], i, layout).Ok?
      {
        assert TeamRecords(ctx, blocks[j], layout).Ok?;
      }
    } else {
      var j :| 0 <= j < |blocks| && !TeamRecords(ctx, blocks[j], layout).Ok?;
      var i: nat :| i < |blocks[j].scoring| && !Fields(ctx, blocks[j], i, layout).Ok?;
    }
  }

  /** The total number of player rows over the blocks. */
  function PlayerCount(blocks: seq<TeamBlock>): nat
    decreases |blocks|
  {
    if |blocks| == 0 then 0 else |blocks[0].scoring| + PlayerCount(blocks[1..])
  }

  /** A match contributes one row per scoring-table row of each block, the
      first block's rows first. */
  lemma {:induction false} MatchRecordsCount(ctx: Context, blocks: seq<TeamBlock>, layout: seq<Source>)
    requires MatchRecords(ctx, blocks, layout).Ok?
    ensures |MatchRecords(ctx, blocks, layout).value| == PlayerCount(blocks)
    ensures |blocks| > 0 ==>
      MatchRecords(ctx, blocks, layout).value[..|blocks[0].scoring|] == TeamRecords(ctx, blocks[0], layout).value
    ensures |blocks| > 0 ==>
      && TeamRecords(ctx, blocks[0], layout).Ok? && MatchRecords(ctx, blocks[1..], layout).Ok?
      && MatchRecords(ctx, blocks, layout).value
         == TeamRecords(ctx, blocks[0], layout).value + MatchRecords(ctx, blocks[1..], layout).value
    decreases |blocks|
  {
    if |blocks| > 0 {
      assert forall j :: 1 <= j < |blocks| ==> blocks[j] == blocks[1..][j - 1];
      MatchRecordsCount(ctx, blocks[1..], layout);
    }
  }

  // ---------------------------------------------------------------------------
  // the nation map

  /** One team link: its `href` and the abbreviation shown in it. */
  datatype TeamLink = TeamLink(href: string, nation: string)

  /** `href[1:]`: the link without its leading `/`. */
  function LinkTeam(href: string): (r: string)
    ensures |href| == 0 ==> r == ""
    ensures |href| > 0 ==> href == [href[0]] + r
  {
    if |href| == 0 then "" else href[1..]
  }

  /** `dicinfo`, filled link by link; a later link for the same team
      overwrites an earlier one. */
  function NationMap(links: seq<TeamLink>): (m: map<string, string>)
    ensures forall team :: team in m <==> exists j :: 0 <= j < |links| && LinkTeam(links[j].href) == team
    decreases |links|
  {
    if |links| == 0 then map[]
    else
      var last := links[|links| - 1];
      var m := NationMap(links[..|links| - 1]);
      assert forall j :: 0 <= j < |links| - 1 ==> links[..|links| - 1][j] == links[j];
      m[LinkTeam(last.href) := last.nation]
  }

  /** The nation recorded for a team is the one of its last link. */
  lemma {:induction false} NationMapLastWins(links: seq<TeamLink>, j: nat)
    requires j < |links|
    requires forall later :: j < later < |links| ==> LinkTeam(links[later].href) != LinkTeam(links[j].href)
    ensures NationMap(links)[LinkTeam(links[j].href)] == links[j].nation
    decreases |links|
  {
    if j < |links| - 1 {
      var prefix := links[..|links| - 1];
      assert forall later :: j < later < |prefix| ==> prefix[later] == links[later];
      NationMapLastWins(prefix, j);
    }
  }

  // ---------------------------------------------------------------------------
  // one match

  /** `get_one_match_data` once the page is read: the nation map built from
      the team links, then the rows of every team block under the 39 titles. */
  function GetOneMatch(matchId: string, links: seq<TeamLink>, blocks: seq<TeamBlock>): (r: Result<seq<seq<string>>>)
    ensures r.Ok? <==>
      forall j :: 0 <= j < |blocks| ==> TeamRecords(Context(matchId, NationMap(links)), blocks[j], Layout).Ok?
    ensures r.Ok? ==> forall row :: row in r.value ==> |row| == |Titles| && row[0] == matchId
  {
    MatchRows(Context(matchId, NationMap(links)), blocks)
  }

  /** A block with players whose nation is not in the map makes the whole
      match fail with `KeyError`: the nation lookup comes before any cell is
      read.  With `NationMap`, that is a block whose `data-team` no team link
      names. */
  lemma UnknownNationFails(ctx: Context, blocks: seq<TeamBlock>, j: nat)
    requires j < |blocks| && |blocks[j].scoring| > 0 && blocks[j].dataTeam !in ctx.nations
    ensures PlayerRecord(ctx, blocks[j], 0) == Err(KeyError(blocks[j].dataTeam))
    ensures MatchRows(ctx, blocks).Err?
  {
    var b := blocks[j];
    LayoutHead();
    assert FieldValue(ctx, b, 0, Layout[1]) == Err(KeyError(b.dataTeam));
    assert Fields(ctx, b, 0, Layout[1..]) == Err(KeyError(b.dataTeam)) by {
      assert Layout[1..][0] == Layout[1];
    }
    assert !TeamRecords(ctx, b, Layout).Ok?;
  }
}
