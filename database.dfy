/**
 * The storage layer (database.go, with the sort tokens of sort.go): the
 * `info` table as a sequence of rows, the queries the program runs on it,
 * the inserts, a transaction that buffers inserts until commit, and the
 * text of the title-search query.
 */
module Storage {
  import opened Wrappers
  import opened GoStrings
  import Hex
  import Torrents

  /** One row of the `info` table, its seven columns in the order of the INSERT. */
  datatype Row = Row(
    sourceId: int,
    topicId: int,
    title: string,
    btih: seq<Hex.byte>,
    description: string,
    publicationTime: int,
    size: Torrents.uint64)

  /** The columns of `info`, as named by the INSERT statement. */
  const InfoColumns: set<string> :=
    {"source_id", "topic_id", "title", "btih", "description", "publication_time", "size"}

  /** The row an insert of `t` as topic `topicId` of source `sourceId` writes. */
  function RowOf(sourceId: int, topicId: int, t: Torrents.Torrent): Row {
    Row(sourceId, topicId, t.title, t.btih, t.body, t.publicationTime, t.size)
  }

  predicate HasSource(rows: seq<Row>, sourceId: int) {
    exists k :: 0 <= k < |rows| && rows[k].sourceId == sourceId
  }

  /**
   * `GetMaxTorrentID`, `COALESCE(max(topic_id), 0)` over the rows of one
   * source: 0 when the source has no row, otherwise the largest topic id of
   * its rows (which may be negative).
   */
  function MaxTopicId(rows: seq<Row>, sourceId: int): (m: int)
    ensures !HasSource(rows, sourceId) ==> m == 0
    ensures forall k :: 0 <= k < |rows| && rows[k].sourceId == sourceId ==> rows[k].topicId <= m
    ensures HasSource(rows, sourceId) ==>
      exists k :: 0 <= k < |rows| && rows[k].sourceId == sourceId && rows[k].topicId == m
  {
    if rows == [] then 0
    else
      var init := rows[..|rows| - 1];
      var last := rows[|rows| - 1];
      var m := MaxTopicId(init, sourceId);
      assert forall k :: 0 <= k < |init| ==> init[k] == rows[k];
      if last.sourceId != sourceId then
        assert HasSource(rows, sourceId) ==> HasSource(init, sourceId);
        m
      else if !HasSource(init, sourceId) then last.topicId
      else if last.topicId > m then last.topicId
      else m
  }

  /**
   * Appending one row: the maximum of its own source becomes at least its
   * topic id (exactly the larger of the two when the source had rows, the
   * topic id itself when it had none); other sources keep theirs.
   */
  lemma MaxTopicIdAppend(rows: seq<Row>, r: Row, sourceId: int)
    ensures sourceId != r.sourceId ==> MaxTopicId(rows + [r], sourceId) == MaxTopicId(rows, sourceId)
    ensures sourceId == r.sourceId && !HasSource(rows, sourceId) ==> MaxTopicId(rows + [r], sourceId) == r.topicId
    ensures sourceId == r.sourceId && HasSource(rows, sourceId) ==>
      MaxTopicId(rows + [r], sourceId) == if r.topicId > MaxTopicId(rows, sourceId) then r.topicId else MaxTopicId(rows, sourceId)
  {
    assert (rows + [r])[..|rows|] == rows;
  }

  /** The maximum is the topic id that some row of the source has and no row of it exceeds. */
  lemma MaxTopicIdIs(rows: seq<Row>, sourceId: int, top: int, at: nat)
    requires at < |rows| && rows[at].sourceId == sourceId && rows[at].topicId == top
    requires forall k :: 0 <= k < |rows| && rows[k].sourceId == sourceId ==> rows[k].topicId <= top
    ensures MaxTopicId(rows, sourceId) == top
  {
    assert HasSource(rows, sourceId);
  }

  /** Index of the first row holding `btih`. */
  function FindBtih(rows: seq<Row>, btih: seq<Hex.byte>): (r: Option<nat>)
    ensures r.None? <==> forall k :: 0 <= k < |rows| ==> rows[k].btih != btih
    ensures r.Some? ==> r.value < |rows| && rows[r.value].btih == btih
    ensures r.Some? ==> forall k :: 0 <= k < r.value ==> rows[k].btih != btih
  {
    if rows == [] then None
    else if rows[0].btih == btih then Some(0)
    else
      assert forall k :: 1 <= k < |rows| ==> rows[k] == rows[1..][k - 1];
      match FindBtih(rows[1..], btih)
      case None => None
      case Some(k) => Some(k + 1)
  }

  /** `sql.ErrNoRows`, the one error of the lookup the model distinguishes. */
  datatype LookupError = ErrNoRows

  /**
   * `SearchTorrentByBtih`: a torrent made of a row holding the hash, with
   * the queried bytes as its hash, or `ErrNoRows` when no row holds it.
   */
  function SearchTorrentByBtih(rows: seq<Row>, btih: seq<Hex.byte>): (r: Result<Torrents.Torrent, LookupError>)
    ensures r.Err? <==> forall k :: 0 <= k < |rows| ==> rows[k].btih != btih
    ensures r.Ok? ==> r.value.btih == btih
    ensures r.Ok? ==> exists k :: 0 <= k < |rows| && rows[k].btih == btih && RowOf(rows[k].sourceId, rows[k].topicId, r.value) == rows[k]
  {
    match FindBtih(rows, btih)
    case None => Err(ErrNoRows)
    case Some(k) =>
      var row := rows[k];
      Ok(Torrents.Torrent(row.title, row.description, btih, row.publicationTime, row.size))
  }

  /** A torrent inserted under a hash no row held before is what a later lookup of that hash finds. */
  lemma {:induction false} LookupAfterInsert(rows: seq<Row>, sourceId: int, topicId: int, t: Torrents.Torrent)
    requires forall k :: 0 <= k < |rows| ==> rows[k].btih != t.btih
    ensures SearchTorrentByBtih(rows + [RowOf(sourceId, topicId, t)], t.btih) == Ok(t)
  {
    var all := rows + [RowOf(sourceId, topicId, t)];
    assert FindBtih(all, t.btih) == Some(|rows|) by {
      assert all[|rows|].btih == t.btih;
      assert forall k :: 0 <= k < |rows| ==> all[k] == rows[k];
    }
  }

  /** The `info` table. */
  class Database {
    var rows: seq<Row>

    constructor (initial: seq<Row>)
      ensures rows == initial
    {
      rows := initial;
    }

    /**
     * `InsertTorrent`: on success exactly one row with the seven values is
     * appended and nothing else changes, so the source's maximum reaches
     * the topic id; a failing statement (`fault`) changes nothing.
     */
    method InsertTorrent(sourceId: int, topicId: int, t: Torrents.Torrent, fault: Option<string>) returns (err: Option<string>)
      modifies this
      ensures err == fault
      ensures fault.Some? ==> rows == old(rows)
      ensures fault.None? ==> rows == old(rows) + [RowOf(sourceId, topicId, t)]
      ensures fault.None? ==> MaxTopicId(rows, sourceId) >= topicId
    {
      if fault.Some? {
        return fault;
      }
      rows := rows + [RowOf(sourceId, topicId, t)];
      MaxTopicIdAppend(old(rows), RowOf(sourceId, topicId, t), sourceId);
      err := None;
    }

    /** `db.Begin`: a fresh transaction with nothing pending, or the driver's error. */
    method Begin(fault: Option<string>) returns (r: Result<Tx, string>)
      ensures fault.Some? ==> r == Err(fault.value)
      ensures fault.None? ==> r.Ok? && fresh(r.value) && r.value.db == this && r.value.pending == []
    {
      if fault.Some? {
        return Err(fault.value);
      }
      var tx := new Tx(this);
      r := Ok(tx);
    }

    /**
     * `InsertTorrentWithTx`: the row goes into the transaction, not the
     * table; a failing statement (`fault`) adds nothing.
     */
    method InsertTorrentWithTx(tx: Tx, sourceId: int, topicId: int, t: Torrents.Torrent, fault: Option<string>)
      returns (err: Option<string>)
      modifies tx
      ensures err == fault
      ensures fault.Some? ==> tx.pending == old(tx.pending)
      ensures fault.None? ==> tx.pending == old(tx.pending) + [RowOf(sourceId, topicId, t)]
    {
      if fault.Some? {
        return fault;
      }
      tx.pending := tx.pending + [RowOf(sourceId, topicId, t)];
      err := None;
    }
  }

  /** An `sql.Tx`: the rows inserted through it wait here until `Commit`. */
  class Tx {
    const db: Database
    var pending: seq<Row>

    constructor (db: Database)
      ensures this.db == db && pending == []
    {
      this.db := db;
      pending := [];
    }

    /** `Commit`: all pending rows reach the table in order, or none do. */
    method Commit(fault: Option<string>) returns (err: Option<string>)
      modifies db
      ensures err == fault
      ensures fault.Some? ==> db.rows == old(db.rows)
      ensures fault.None? ==> db.rows == old(db.rows) + pending
    {
      if fault.Some? {
        return fault;
      }
      db.rows := db.rows + pending;
      err := None;
    }
  }

  /** The sort fields and directions of sort.go. */
  const FieldName := "name"
  const FieldSize := "size"
  const FieldTime := "time"
  const SortDirectionAsc := "asc"
  const SortDirectionDesc := "desc"

  /** The fixed part of the title search; the user's query travels only as `$1`. */
  const SelectClause :=
    "SELECT title, btih, description, publication_time, size FROM info WHERE to_tsvector('russian', title) @@ plainto_tsquery($1::text)"
  const LimitClause := " LIMIT 100"

  /**
   * The ORDER BY tokens the code can emit (the two whitelisted fields and
   * `publication_time`), the columns the corrected search orders by, and
   * the two directions.
   */
  const WrittenColumns: set<string> := {FieldName, FieldSize, "publication_time"}
  const SortColumns: set<string> := {"title", "size", "publication_time"}
  const Directions: set<string> := {SortDirectionAsc, SortDirectionDesc}

  /** The text of a title search ordered by `column` in `direction`. */
  function Query(column: string, direction: string): string {
    SelectClause + " ORDER BY " + column + " " + direction + LimitClause
  }

  /** The sort field in effect: "name" and "size" stay, anything else becomes "time". */
  function EffectiveField(sortField: string): (f: string)
    ensures sortField == FieldName || sortField == FieldSize ==> f == sortField
    ensures sortField != FieldName && sortField != FieldSize ==> f == FieldTime
  {
    if sortField == FieldName || sortField == FieldSize then sortField else FieldTime
  }

  /**
   * The ORDER BY column as the code writes it: the field itself for
   * "name" and "size", `publication_time` otherwise.
   */
  function OrderColumnAsWritten(sortField: string): (c: string)
    ensures c in WrittenColumns
    ensures sortField == FieldName || sortField == FieldSize ==> c == sortField
    ensures sortField != FieldName && sortField != FieldSize ==> c == "publication_time"
  {
    if sortField == FieldName || sortField == FieldSize then sortField else "publication_time"
  }

  /**
   * The ORDER BY column as intended: "name" orders by `title`, "size" by
   * `size`, anything else by `publication_time`; always a column of `info`.
   */
  function OrderColumn(sortField: string): (c: string)
    ensures c in SortColumns && c in InfoColumns
    ensures sortField == FieldName <==> c == "title"
    ensures sortField == FieldSize <==> c == "size"
    ensures c == "publication_time" <==> EffectiveField(sortField) == FieldTime
  {
    if sortField == FieldName then "title"
    else if sortField == FieldSize then "size"
    else "publication_time"
  }

  /**
   * The direction: "asc" and "desc" are kept; anything else defaults to
   * "desc" when the field in effect is time and to "asc" otherwise.
   */
  function OrderDirection(sortField: string, sortDirection: string): (d: string)
    ensures d in Directions
    ensures sortDirection in Directions ==> d == sortDirection
    ensures sortDirection !in Directions ==>
      (d == SortDirectionDesc <==> sortField != FieldName && sortField != FieldSize)
  {
    if sortDirection == SortDirectionAsc || sortDirection == SortDirectionDesc then sortDirection
    else if EffectiveField(sortField) == FieldTime then SortDirectionDesc
    else SortDirectionAsc
  }

  /**
   * The SQL text `SearchTorrentsByTitle` sends, as the code builds it:
   * the fixed select, the column of the field switch (the field in effect,
   * `publication_time` for time), the direction of the direction switch,
   * then " LIMIT 100". Only whitelisted tokens
   * are spliced in, and the user's query is not part of it.
   */
  function SearchSql(sortField: string, sortDirection: string): (sql: string)
    ensures sql == Query(OrderColumnAsWritten(sortField), OrderDirection(sortField, sortDirection))
    ensures exists c, d :: c in WrittenColumns && d in Directions && sql == Query(c, d)
    ensures |sql| > |LimitClause| && sql[|sql| - |LimitClause|..] == LimitClause
  {
    var field := EffectiveField(sortField);
    var column := if field == FieldTime then "publication_time" else field;
    var direction := if sortDirection in Directions then sortDirection
      else if field == FieldTime then SortDirectionDesc
      else SortDirectionAsc;
    var sql := Query(column, direction);
    assert sql == (SelectClause + " ORDER BY " + column + " " + direction) + LimitClause;
    sql
  }

  /** As written, a search sorted by name orders by `name`, which is not a column of `info`. */
  lemma NameColumnMissing(sortDirection: string)
    ensures exists d :: d in Directions && SearchSql(FieldName, sortDirection) == Query(FieldName, d)
    ensures FieldName !in InfoColumns
  {
    assert SearchSql(FieldName, sortDirection) == Query(FieldName, OrderDirection(FieldName, sortDirection));
  }

  /**
   * The search text with the intended column: the same select, direction
   * and limit, but ordered by a column of `info` whatever the sort field.
   */
  function CorrectedSearchSql(sortField: string, sortDirection: string): (sql: string)
    ensures exists c, d :: c in InfoColumns && d in Directions && sql == Query(c, d)
  {
    Query(OrderColumn(sortField), OrderDirection(sortField, sortDirection))
  }

  /** The correction changes the text for the sort field "name" and for no other. */
  lemma CorrectionOnlyForName(sortField: string, sortDirection: string)
    ensures CorrectedSearchSql(sortField, sortDirection) == SearchSql(sortField, sortDirection) <==> sortField != FieldName
  {
    var d := OrderDirection(sortField, sortDirection);
    if sortField == FieldName {
      assert ' ' !in "title" && ' ' !in FieldName;
      if Query("title", d) == Query(FieldName, d) {
        QueryInjective("title", d, FieldName, d);
      }
    }
  }

  /**
   * A column without spaces and its direction are recovered from the text,
   * so different choices of whitelisted tokens give different texts.
   */
  lemma QueryInjective(c1: string, d1: string, c2: string, d2: string)
    requires ' ' !in c1 && ' ' !in c2
    requires Query(c1, d1) == Query(c2, d2)
    ensures c1 == c2 && d1 == d2
  {
    var p := |SelectClause + " ORDER BY "|;
    var q1 := Query(c1, d1);
    var q2 := Query(c2, d2);
    assert q1[p..|q1| - |LimitClause|] == c1 + " " + d1;
    assert q2[p..|q2| - |LimitClause|] == c2 + " " + d2;
    SplitAtFirstSpace(c1, d1, c2, d2);
  }

  /** A word without spaces followed by a space is recovered from the text. */
  lemma SplitAtFirstSpace(c1: string, d1: string, c2: string, d2: string)
    requires ' ' !in c1 && ' ' !in c2
    requires c1 + " " + d1 == c2 + " " + d2
    ensures c1 == c2 && d1 == d2
  {
    var t1 := c1 + " " + d1;
    var t2 := c2 + " " + d2;
    assert t1[..|c1|] == c1 && t2[..|c2|] == c2;
    IndexOfFirstChar(t1, ' ', |c1|);
    IndexOfFirstChar(t2, ' ', |c2|);
    assert c1 == t1[..|c1|] && c2 == t2[..|c2|];
    assert d1 == t1[|c1| + 1..] && d2 == t2[|c2| + 1..];
  }

  /**
   * The loop over the result set: the scanned torrents in order, or the
   * first scan error.
   */
  function Collect(scanned: seq<Result<Torrents.Torrent, string>>): (r: Result<seq<Torrents.Torrent>, string>)
    ensures r.Ok? <==> forall k :: 0 <= k < |scanned| ==> scanned[k].Ok?
    ensures r.Ok? ==> |r.value| == |scanned| && forall k :: 0 <= k < |scanned| ==> r.value[k] == scanned[k].value
    ensures r.Err? ==>
      exists k :: 0 <= k < |scanned| && scanned[k] == Err(r.error) && (forall i :: 0 <= i < k ==> scanned[i].Ok?)
  {
    if scanned == [] then Ok([])
    else
      assert forall k :: 1 <= k < |scanned| ==> scanned[k] == scanned[1..][k - 1];
      match scanned[0]
      case Err(e) => Err(e)
      case Ok(t) =>
        match Collect(scanned[1..])
        case Err(e) => Err(e)
        case Ok(ts) => Ok([t] + ts)
  }

  /**
   * `SearchTorrentsByTitle`: the SQL text is `SearchSql`, the user's query
   * goes beside it as the parameter, and the rows `execute` answers are
   * scanned in order. `execute` stands for Postgres: the full-text match and
   * the ordering happen there.
   */
  method SearchTorrentsByTitle(
    query: string, sortField: string, sortDirection: string,
    execute: (string, string) -> Result<seq<Result<Torrents.Torrent, string>>, string>)
    returns (r: Result<seq<Torrents.Torrent>, string>)
    ensures execute(SearchSql(sortField, sortDirection), query).Err? ==>
      r == Err(execute(SearchSql(sortField, sortDirection), query).error)
    ensures execute(SearchSql(sortField, sortDirection), query).Ok? ==>
      r == Collect(execute(SearchSql(sortField, sortDirection), query).value)
  {
    var sql := SearchSql(sortField, sortDirection);
    var answer := execute(sql, query);
    if answer.Err? {
      return Err(answer.error);
    }
    var scanned := answer.value;
    var torrents: seq<Torrents.Torrent> := [];
    for k := 0 to |scanned|
      invariant forall i :: 0 <= i < k ==> scanned[i].Ok?
      invariant |torrents| == k && forall i :: 0 <= i < k ==> torrents[i] == scanned[i].value
    {
      if scanned[k].Err? {
        r := Err(scanned[k].error);
        assert r == Collect(scanned) by {
          var c := Collect(scanned);
          assert c.Err?;
          var j :| 0 <= j < |scanned| && scanned[j] == Err(c.error) && (forall i :: 0 <= i < j ==> scanned[i].Ok?);
          assert j == k;
        }
        return;
      }
      torrents := torrents + [scanned[k].value];
    }
    r := Ok(torrents);
    assert torrents == Collect(scanned).value;
  }
}
