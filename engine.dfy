/**
 * The incremental update (parsers.go) with one worker: find the range of
 * topic ids the table lacks, fetch each one, buffer the successful ones in
 * a transaction and commit it at the end; and `updateAll`, which runs the
 * update for every registered source. The exit rule of main.go is here too.
 */
module Engine {
  import opened Wrappers
  import Torrents
  import Sources
  import Storage

  /** Everything `update` can return instead of success. */
  datatype UpdateError =
    | OpenFailed(openError: Sources.OpenError)
    | ReadMaxFailed(readReason: string)
    | SourceMaxFailed(sourceReason: string)
    | DatabaseIsUpToDate
    | BeginFailed(beginReason: string)
    | CommitFailed(commitReason: string)

  /**
   * The database's answers that the model does not derive from the table:
   * whether reading the maximum, beginning the transaction, inserting a
   * given id and committing fail, and with what message.
   */
  datatype StoreFaults = StoreFaults(
    readMax: Option<string>,
    begin: Option<string>,
    insert: int -> Option<string>,
    commit: Option<string>)

  /** What a completed update reports: torrents stored and fetches failed. */
  datatype Summary = Summary(newTorrents: nat, errors: nat)

  /** The ids `lo`, `lo + 1`, ..., `hi`, each once, in increasing order. */
  function Ids(lo: int, hi: int): (ids: seq<int>)
    ensures |ids| == if lo <= hi then hi - lo + 1 else 0
    ensures forall k :: 0 <= k < |ids| ==> ids[k] == lo + k
    decreases hi - lo
  {
    if lo > hi then [] else Ids(lo, hi - 1) + [hi]
  }

  /** The number of ids whose fetch fails. */
  function CountFailed(fetch: int -> Result<Torrents.Torrent, string>, ids: seq<int>): (n: nat)
    ensures n <= |ids|
    ensures n == 0 <==> forall k :: 0 <= k < |ids| ==> fetch(ids[k]).Ok?
  {
    if ids == [] then 0
    else
      var init := ids[..|ids| - 1];
      assert forall k :: 0 <= k < |init| ==> init[k] == ids[k];
      CountFailed(fetch, init) + if fetch(ids[|ids| - 1]).Err? then 1 else 0
  }

  /** The rows the worker writes into the transaction: one per id whose fetch succeeds and whose insert does not fail, in id order. */
  function NewRows(sourceId: int, fetch: int -> Result<Torrents.Torrent, string>, insert: int -> Option<string>, ids: seq<int>): (rows: seq<Storage.Row>)
    ensures |rows| + CountFailed(fetch, ids) <= |ids|
    ensures (forall k :: 0 <= k < |ids| ==> insert(ids[k]).None?) ==> |rows| + CountFailed(fetch, ids) == |ids|
    ensures forall j :: 0 <= j < |rows| ==>
      var id := rows[j].topicId;
      id in ids && fetch(id).Ok? && insert(id).None? && rows[j] == Storage.RowOf(sourceId, id, fetch(id).value)
  {
    if ids == [] then []
    else
      var init := ids[..|ids| - 1];
      var id := ids[|ids| - 1];
      assert forall k :: 0 <= k < |init| ==> init[k] == ids[k];
      var rows := NewRows(sourceId, fetch, insert, init);
      if fetch(id).Ok? && insert(id).None? then
        rows + [Storage.RowOf(sourceId, id, fetch(id).value)]
      else
        rows
  }

  /**
   * The other direction: every id whose fetch succeeds and whose insert
   * does not fail gets its row, so a failed id never stops the others; and
   * for increasing ids the rows come in id order, each id at most once.
   */
  lemma {:induction false} NewRowsComplete(
    sourceId: int, fetch: int -> Result<Torrents.Torrent, string>, insert: int -> Option<string>, ids: seq<int>)
    ensures var rows := NewRows(sourceId, fetch, insert, ids);
      forall k :: 0 <= k < |ids| && fetch(ids[k]).Ok? && insert(ids[k]).None? ==>
        Storage.RowOf(sourceId, ids[k], fetch(ids[k]).value) in rows
    ensures Increasing(ids) ==>
      var rows := NewRows(sourceId, fetch, insert, ids);
      forall i, j :: 0 <= i < j < |rows| ==> rows[i].topicId < rows[j].topicId
  {
    NewRowsHasAll(sourceId, fetch, insert, ids);
    NewRowsOrdered(sourceId, fetch, insert, ids);
  }

  /** Every id whose fetch succeeds and whose insert does not fail has its row. */
  lemma {:induction false} NewRowsHasAll(
    sourceId: int, fetch: int -> Result<Torrents.Torrent, string>, insert: int -> Option<string>, ids: seq<int>)
    ensures var rows := NewRows(sourceId, fetch, insert, ids);
      forall k :: 0 <= k < |ids| && fetch(ids[k]).Ok? && insert(ids[k]).None? ==>
        Storage.RowOf(sourceId, ids[k], fetch(ids[k]).value) in rows
    decreases |ids|
  {
    if ids != [] {
      var init := ids[..|ids| - 1];
      assert forall k :: 0 <= k < |init| ==> init[k] == ids[k];
      NewRowsHasAll(sourceId, fetch, insert, init);
    }
  }

  /** For increasing ids, the rows' topic ids strictly increase. */
  lemma {:induction false} NewRowsOrdered(
    sourceId: int, fetch: int -> Result<Torrents.Torrent, string>, insert: int -> Option<string>, ids: seq<int>)
    ensures Increasing(ids) ==> TopicIdsIncrease(NewRows(sourceId, fetch, insert, ids))
    decreases |ids|
  {
    if ids != [] && Increasing(ids) {
      var init := ids[..|ids| - 1];
      assert forall k :: 0 <= k < |init| ==> init[k] == ids[k];
      assert Increasing(init);
      NewRowsOrdered(sourceId, fetch, insert, init);
      var rows := NewRows(sourceId, fetch, insert, init);
      assert TopicIdsIncrease(rows);
      BelowLast(ids, rows);
      var id := ids[|ids| - 1];
      if fetch(id).Ok? && insert(id).None? {
        var all := rows + [Storage.RowOf(sourceId, id, fetch(id).value)];
        assert NewRows(sourceId, fetch, insert, ids) == all;
        forall i, j | 0 <= i < j < |all| ensures all[i].topicId < all[j].topicId {
          assert all[i] == rows[i];
          if j < |rows| {
            assert all[j] == rows[j];
            assert rows[i].topicId < rows[j].topicId;
          } else {
            assert all[j].topicId == id;
            assert rows[i].topicId < id;
          }
        }
      }
    }
  }

  /** The rows' topic ids strictly increase: id order, each id once. */
  predicate TopicIdsIncrease(rows: seq<Storage.Row>) {
    forall i, j :: 0 <= i < j < |rows| ==> rows[i].topicId < rows[j].topicId
  }

  /** The ids strictly increase, as the ones `Ids` hands out do. */
  predicate Increasing(ids: seq<int>) {
    forall a, b :: 0 <= a < b < |ids| ==> ids[a] < ids[b]
  }

  /** In increasing ids, every row written for an earlier id has a smaller topic id than the last id. */
  lemma BelowLast(ids: seq<int>, rows: seq<Storage.Row>)
    requires ids != []
    requires forall j :: 0 <= j < |rows| ==> rows[j].topicId in ids[..|ids| - 1]
    ensures Increasing(ids) ==> forall j :: 0 <= j < |rows| ==> rows[j].topicId < ids[|ids| - 1]
  {
    if Increasing(ids) {
      forall j | 0 <= j < |rows| ensures rows[j].topicId < ids[|ids| - 1] {
        var init := ids[..|ids| - 1];
        assert rows[j].topicId in init;
        var a :| 0 <= a < |init| && init[a] == rows[j].topicId;
        assert init[a] == ids[a] < ids[|ids| - 1];
      }
    }
  }

  /**
   * `parserThread` for one worker: every id from the channel is fetched; a
   * failed fetch counts one error and inserts nothing; an insert failure
   * is only logged, and the next id follows.
   */
  method ParserThread(db: Storage.Database, tx: Storage.Tx, source: Sources.Source, ids: seq<int>, insert: int -> Option<string>)
    returns (errorCount: nat)
    modifies tx
    ensures errorCount == CountFailed(source.fetch, ids)
    ensures tx.pending == old(tx.pending) + NewRows(source.id, source.fetch, insert, ids)
  {
    errorCount := 0;
    for k := 0 to |ids|
      invariant errorCount == CountFailed(source.fetch, ids[..k])
      invariant tx.pending == old(tx.pending) + NewRows(source.id, source.fetch, insert, ids[..k])
    {
      assert ids[..k + 1][..k] == ids[..k];
      var id := ids[k];
      var fetched := source.fetch(id);
      if fetched.Err? {
        errorCount := errorCount + 1;
      } else {
        var err := db.InsertTorrentWithTx(tx, source.id, id, fetched.value, insert(id));
      }
    }
    assert ids[..|ids|] == ids;
  }

  /** The loop that feeds the channel: `lo` up to `hi`. */
  method DispatchIds(lo: int, hi: int) returns (ids: seq<int>)
    ensures ids == Ids(lo, hi)
  {
    ids := [];
    var i := lo;
    while i <= hi
      invariant lo <= i && (i <= hi + 1 || i == lo)
      invariant ids == Ids(lo, i - 1)
      decreases hi - i
    {
      ids := ids + [i];
      i := i + 1;
    }
    if i == lo {
      assert ids == [] && Ids(lo, hi) == [];
    }
  }

  /**
   * What `update` ends with, as a function of the `Open` answer, the table
   * before and the database faults: the outcome and the table after. Every
   * failure leaves the table as it was; a success stores exactly as many
   * rows as it reports, all for that source, after the old ones.
   */
  function UpdateResult(openResult: Result<Sources.Source, Sources.OpenError>, rows: seq<Storage.Row>, faults: StoreFaults)
    : (res: (Result<Summary, UpdateError>, seq<Storage.Row>))
    ensures res.0.Err? ==> res.1 == rows
    ensures res.0.Ok? ==> openResult.Ok? && rows <= res.1 && |res.1| == |rows| + res.0.value.newTorrents
    ensures res.0.Ok? ==> forall j :: |rows| <= j < |res.1| ==> res.1[j].sourceId == openResult.value.id
  {
    match openResult
    case Err(e) => (Err(OpenFailed(e)), rows)
    case Ok(source) =>
      if faults.readMax.Some? then (Err(ReadMaxFailed(faults.readMax.value)), rows)
      else if source.maxTorrentId.Err? then (Err(SourceMaxFailed(source.maxTorrentId.error)), rows)
      else
        var maxDb := Storage.MaxTopicId(rows, source.id);
        var maxSource := source.maxTorrentId.value;
        if maxDb >= maxSource then (Err(DatabaseIsUpToDate), rows)
        else if faults.begin.Some? then (Err(BeginFailed(faults.begin.value)), rows)
        else if faults.commit.Some? then (Err(CommitFailed(faults.commit.value)), rows)
        else
          var ids := Ids(maxDb + 1, maxSource);
          var added := NewRows(source.id, source.fetch, faults.insert, ids);
          (Ok(Summary(|added|, CountFailed(source.fetch, ids))), rows + added)
  }

  /**
   * `update`: open the source, read the table's maximum and the source's,
   * stop when the table is up to date, otherwise begin a transaction, hand
   * out the missing ids, commit. `dispatched` is the ids handed to the
   * worker, the only ones fetched. Nothing reaches the table before the
   * commit, and nothing at all unless the commit succeeds.
   */
  method Update(registry: Sources.Registry, db: Storage.Database, driverName: string, proxyAddr: string, faults: StoreFaults)
    returns (r: Result<Summary, UpdateError>, dispatched: seq<int>)
    modifies db
    ensures registry.Open(driverName, proxyAddr).Err? ==>
      r == Err(OpenFailed(registry.Open(driverName, proxyAddr).error)) && dispatched == [] && db.rows == old(db.rows)
    ensures registry.Open(driverName, proxyAddr).Ok? ==>
      var source := registry.Open(driverName, proxyAddr).value;
      var maxDb := Storage.MaxTopicId(old(db.rows), source.id);
      && (faults.readMax.Some? ==>
            r == Err(ReadMaxFailed(faults.readMax.value)) && dispatched == [] && db.rows == old(db.rows))
      && (faults.readMax.None? && source.maxTorrentId.Err? ==>
            r == Err(SourceMaxFailed(source.maxTorrentId.error)) && dispatched == [] && db.rows == old(db.rows))
      && (faults.readMax.None? && source.maxTorrentId.Ok? && maxDb >= source.maxTorrentId.value ==>
            r == Err(DatabaseIsUpToDate) && dispatched == [] && db.rows == old(db.rows))
      && (faults.readMax.None? && source.maxTorrentId.Ok? && maxDb < source.maxTorrentId.value && faults.begin.Some? ==>
            r == Err(BeginFailed(faults.begin.value)) && dispatched == [] && db.rows == old(db.rows))
      && (faults.readMax.None? && source.maxTorrentId.Ok? && maxDb < source.maxTorrentId.value && faults.begin.None? ==>
            var added := NewRows(source.id, source.fetch, faults.insert, dispatched);
            && dispatched == Ids(maxDb + 1, source.maxTorrentId.value)
            && (faults.commit.Some? ==> r == Err(CommitFailed(faults.commit.value)) && db.rows == old(db.rows))
            && (faults.commit.None? ==>
                  r == Ok(Summary(|added|, CountFailed(source.fetch, dispatched))) && db.rows == old(db.rows) + added))
    ensures (r, db.rows) == UpdateResult(registry.Open(driverName, proxyAddr), old(db.rows), faults)
    ensures old(db.rows) <= db.rows
  {
    dispatched := [];
    var openResult := registry.Open(driverName, proxyAddr);
    if openResult.Err? {
      return Err(OpenFailed(openResult.error)), dispatched;
    }
    var source := openResult.value;
    if faults.readMax.Some? {
      return Err(ReadMaxFailed(faults.readMax.value)), dispatched;
    }
    var maxDb := Storage.MaxTopicId(db.rows, source.id);
    if source.maxTorrentId.Err? {
      return Err(SourceMaxFailed(source.maxTorrentId.error)), dispatched;
    }
    var maxSource := source.maxTorrentId.value;
    if maxDb >= maxSource {
      return Err(DatabaseIsUpToDate), dispatched;
    }
    r, dispatched := Transfer(db, source, maxDb + 1, maxSource, faults);
  }

  /**
   * The second half of `update`, once the range `lo..hi` is known to be
   * missing: begin, dispatch to the worker, commit.
   */
  method Transfer(db: Storage.Database, source: Sources.Source, lo: int, hi: int, faults: StoreFaults)
    returns (r: Result<Summary, UpdateError>, dispatched: seq<int>)
    modifies db
    ensures faults.begin.Some? ==>
      r == Err(BeginFailed(faults.begin.value)) && dispatched == [] && db.rows == old(db.rows)
    ensures faults.begin.None? ==>
      var added := NewRows(source.id, source.fetch, faults.insert, dispatched);
      && dispatched == Ids(lo, hi)
      && (faults.commit.Some? ==> r == Err(CommitFailed(faults.commit.value)) && db.rows == old(db.rows))
      && (faults.commit.None? ==>
            r == Ok(Summary(|added|, CountFailed(source.fetch, dispatched))) && db.rows == old(db.rows) + added)
  {
    dispatched := [];
    var begun := db.Begin(faults.begin);
    if begun.Err? {
      return Err(BeginFailed(begun.error)), dispatched;
    }
    var tx := begun.value;
    var errorCount;
    dispatched, errorCount := Work(db, tx, source, lo, hi, faults.insert);
    var added := tx.pending;
    var err := tx.Commit(faults.commit);
    if err.Some? {
      return Err(CommitFailed(err.value)), dispatched;
    }
    r := Ok(Summary(|added|, errorCount));
  }

  /** Hand out `lo..hi` to the worker, which stages its rows in the empty transaction `tx`. */
  method Work(db: Storage.Database, tx: Storage.Tx, source: Sources.Source, lo: int, hi: int, insert: int -> Option<string>)
    returns (dispatched: seq<int>, errorCount: nat)
    requires tx.pending == []
    modifies tx
    ensures dispatched == Ids(lo, hi)
    ensures errorCount == CountFailed(source.fetch, dispatched)
    ensures tx.pending == NewRows(source.id, source.fetch, insert, dispatched)
  {
    dispatched := DispatchIds(lo, hi);
    errorCount := ParserThread(db, tx, source, dispatched, insert);
    assert [] + NewRows(source.id, source.fetch, insert, dispatched) == NewRows(source.id, source.fetch, insert, dispatched);
  }

  /**
   * `updateAll`: `update` once for every registered source, in the order
   * `RegisteredDrivers` gives, whatever the earlier ones returned. The
   * outcome of each is kept next to its name (the program logs it).
   */
  method UpdateAll(registry: Sources.Registry, db: Storage.Database, proxyAddr: string, faults: string -> StoreFaults)
    returns (report: seq<(string, Result<Summary, UpdateError>)>, ghost tables: seq<seq<Storage.Row>>)
    modifies db
    ensures |report| == |registry.drivers|
    ensures forall n :: n in registry.drivers <==> exists k :: 0 <= k < |report| && report[k].0 == n
    ensures forall i, j :: 0 <= i < j < |report| ==> report[i].0 != report[j].0
    ensures |tables| == |report| + 1 && tables[0] == old(db.rows) && tables[|report|] == db.rows
    ensures forall k :: 0 <= k < |report| ==>
      (report[k].1, tables[k + 1]) == UpdateResult(registry.Open(report[k].0, proxyAddr), tables[k], faults(report[k].0))
    ensures old(db.rows) <= db.rows
  {
    var names := registry.RegisteredDrivers();
    report := [];
    tables := [db.rows];
    for k := 0 to |names|
      invariant |report| == k && |tables| == k + 1
      invariant forall i :: 0 <= i < k ==> report[i].0 == names[i]
      invariant tables[0] == old(db.rows) && tables[k] == db.rows
      invariant forall i :: 0 <= i < k ==>
        (report[i].1, tables[i + 1]) == UpdateResult(registry.Open(report[i].0, proxyAddr), tables[i], faults(report[i].0))
      invariant old(db.rows) <= db.rows
    {
      var outcome, _ := Update(registry, db, names[k], proxyAddr, faults(names[k]));
      report := report + [(names[k], outcome)];
      tables := tables + [db.rows];
    }
    forall n | n in registry.drivers ensures exists k :: 0 <= k < |report| && report[k].0 == n {
      var k :| 0 <= k < |names| && names[k] == n;
      assert report[k].0 == n;
    }
  }

  /**
   * Why a second run right after a committed update finds the table up to
   * date: when the last id of the range is fetched and inserted, the
   * source's maximum in the table becomes exactly that id.
   */
  lemma {:induction false} CommittedRangeReachesTop(
    rows: seq<Storage.Row>, sourceId: int, hi: int,
    fetch: int -> Result<Torrents.Torrent, string>, insert: int -> Option<string>)
    requires Storage.MaxTopicId(rows, sourceId) < hi
    requires fetch(hi).Ok? && insert(hi).None?
    ensures Storage.MaxTopicId(rows + NewRows(sourceId, fetch, insert, Ids(Storage.MaxTopicId(rows, sourceId) + 1, hi)), sourceId) == hi
  {
    var lo := Storage.MaxTopicId(rows, sourceId) + 1;
    NewRowsEndAt(sourceId, fetch, insert, lo, hi);
    TopAtEnd(rows, NewRows(sourceId, fetch, insert, Ids(lo, hi)), sourceId, hi);
  }

  /** Rows ending with the source's row for `hi`, none above it, lift the table's maximum to `hi`. */
  lemma TopAtEnd(rows: seq<Storage.Row>, added: seq<Storage.Row>, sourceId: int, hi: int)
    requires Storage.MaxTopicId(rows, sourceId) < hi
    requires added != [] && added[|added| - 1].sourceId == sourceId && added[|added| - 1].topicId == hi
    requires forall j :: 0 <= j < |added| ==> added[j].topicId <= hi
    ensures Storage.MaxTopicId(rows + added, sourceId) == hi
  {
    var all := rows + added;
    forall j | 0 <= j < |all| && all[j].sourceId == sourceId ensures all[j].topicId <= hi {
      if j >= |rows| {
        assert all[j] == added[j - |rows|];
      } else {
        assert all[j] == rows[j];
      }
    }
    Storage.MaxTopicIdIs(all, sourceId, hi, |all| - 1);
  }

  /** When `hi` is fetched and inserted, its row ends the rows of `lo..hi`, and no row's id exceeds it. */
  lemma NewRowsEndAt(
    sourceId: int, fetch: int -> Result<Torrents.Torrent, string>, insert: int -> Option<string>, lo: int, hi: int)
    requires lo <= hi && fetch(hi).Ok? && insert(hi).None?
    ensures var added := NewRows(sourceId, fetch, insert, Ids(lo, hi));
      && added != [] && added[|added| - 1] == Storage.RowOf(sourceId, hi, fetch(hi).value)
      && forall j :: 0 <= j < |added| ==> added[j].topicId <= hi
  {
    var ids := Ids(lo, hi);
    var added := NewRows(sourceId, fetch, insert, ids);
    assert ids[..|ids| - 1] == Ids(lo, hi - 1);
    forall j | 0 <= j < |added| ensures added[j].topicId <= hi {
      assert added[j].topicId in ids;
    }
  }

  /** The number the program logs as "New torrents", as written: the range size minus one minus the failed fetches. */
  function LoggedNewTorrents(maxDb: int, maxSource: int, errorCount: nat): (n: int)
    ensures maxDb <= maxSource ==> n + 1 + errorCount == |Ids(maxDb + 1, maxSource)|
  {
    maxSource - maxDb - 1 - errorCount
  }

  /**
   * The logged count is one short of the torrents stored whenever no insert
   * fails: for the range 101..105 with two failed fetches it says 2, while
   * 3 rows are stored.
   */
  lemma LoggedCountIsShort(
    sourceId: int, maxDb: int, maxSource: int,
    fetch: int -> Result<Torrents.Torrent, string>, insert: int -> Option<string>)
    requires maxDb < maxSource
    requires forall id :: insert(id).None?
    ensures
      var ids := Ids(maxDb + 1, maxSource);
      LoggedNewTorrents(maxDb, maxSource, CountFailed(fetch, ids)) == |NewRows(sourceId, fetch, insert, ids)| - 1
  {
  }

  /** The concrete case: table maximum 100, source maximum 105, two of the five fetches fail, no insert fails. */
  lemma LoggedCountExample(
    sourceId: int, fetch: int -> Result<Torrents.Torrent, string>, insert: int -> Option<string>)
    requires CountFailed(fetch, Ids(101, 105)) == 2
    requires forall id :: insert(id).None?
    ensures LoggedNewTorrents(100, 105, CountFailed(fetch, Ids(101, 105))) == 2
    ensures |NewRows(sourceId, fetch, insert, Ids(101, 105))| == 3
  {
    LoggedCountIsShort(sourceId, 100, 105, fetch, insert);
  }

  /**
   * The exit status of the program after its command: 0 on success and
   * when the table was already up to date, 1 for any other error.
   */
  function ExitCode(err: Option<UpdateError>): (code: int)
    ensures code == 0 <==> err.None? || err == Some(DatabaseIsUpToDate)
    ensures code == 0 || code == 1
  {
    if err.Some? && err != Some(DatabaseIsUpToDate) then 1 else 0
  }
}
