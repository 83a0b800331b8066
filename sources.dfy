/**
 * The source registry (sources/sources.go): a table from driver name to
 * driver, filled by `Register` at start-up and read by `Open` and
 * `RegisteredDrivers`. The mutex around the table is not modelled: the
 * model is sequential.
 */
module Sources {
  import opened Wrappers
  import Torrents

  /**
   * A `Source` as the update engine sees it: its id and name, the answer of
   * `MaxTorrentID` and `GetTorrentByID` as a function of the id. The network
   * behind them is not modelled; their answers are given.
   */
  datatype Source = Source(
    id: int,
    name: string,
    maxTorrentId: Result<int, string>,
    fetch: int -> Result<Torrents.Torrent, string>)

  /** A `SourceDriver`: `Open` turns a proxy address into a source or an error. */
  datatype Driver = Driver(open: string -> Result<Source, string>)

  /** The two panics of `Register`. */
  datatype PanicReason = NilDriver | Duplicate(name: string)

  /** What a `Register` call ends with: normal return, or a panic. */
  datatype RegisterOutcome = Registered | Panic(reason: PanicReason)

  /** `Open`'s errors: the name is unknown, or the driver's own `Open` failed. */
  datatype OpenError = UnknownDriver(name: string) | DriverFailed(reason: string)

  /** The package-level `sourcesMap`. */
  class Registry {
    var drivers: map<string, Driver>

    /**
     * The table once the two `init` functions of the driver packages have
     * run: "rutor" and "rutracker", each with its driver.
     */
    constructor (rutor: Driver, rutracker: Driver)
      ensures drivers == map["rutor" := rutor, "rutracker" := rutracker]
    {
      drivers := map[];
      new;
      var first := Register("rutor", Some(rutor));
      var second := Register("rutracker", Some(rutracker));
    }

    /**
     * `Register`: a nil driver panics, a name already present panics; in
     * both cases the table is left as it was. Otherwise exactly the one
     * new entry is added.
     */
    method Register(name: string, driver: Option<Driver>) returns (outcome: RegisterOutcome)
      modifies this
      ensures driver.None? ==> outcome == Panic(NilDriver) && drivers == old(drivers)
      ensures driver.Some? && name in old(drivers) ==>
        outcome == Panic(Duplicate(name)) && drivers == old(drivers)
      ensures driver.Some? && name !in old(drivers) ==>
        outcome == Registered && drivers == old(drivers)[name := driver.value]
      ensures outcome.Registered? <==> driver.Some? && name !in old(drivers)
    {
      if driver.None? {
        return Panic(NilDriver);
      }
      if name in drivers {
        return Panic(Duplicate(name));
      }
      drivers := drivers[name := driver.value];
      outcome := Registered;
    }

    /**
     * `Open`: an unknown name is an error that involves no driver; a known
     * one gives exactly what that driver's `Open` gives for the parameters.
     */
    function Open(name: string, params: string): (r: Result<Source, OpenError>)
      reads this
      ensures name !in drivers ==> r == Err(UnknownDriver(name))
      ensures name in drivers ==> (r.Ok? <==> drivers[name].open(params).Ok?)
      ensures name in drivers && r.Ok? ==> r.value == drivers[name].open(params).value
      ensures name in drivers && r.Err? ==> r.error == DriverFailed(drivers[name].open(params).error)
    {
      if name !in drivers then
        Err(UnknownDriver(name))
      else
        match drivers[name].open(params)
        case Ok(source) => Ok(source)
        case Err(e) => Err(DriverFailed(e))
    }

    /**
     * `RegisteredDrivers`: every registered name exactly once, in an order
     * the model leaves open (Go's map iteration order is unspecified).
     */
    method RegisteredDrivers() returns (names: seq<string>)
      ensures forall n :: n in names <==> n in drivers
      ensures forall i, j :: 0 <= i < j < |names| ==> names[i] != names[j]
      ensures |names| == |drivers|
    {
      names := [];
      var rest := drivers.Keys;
      while rest != {}
        invariant rest <= drivers.Keys
        invariant forall n :: n in names <==> n in drivers && n !in rest
        invariant forall i, j :: 0 <= i < j < |names| ==> names[i] != names[j]
        invariant |names| + |rest| == |drivers.Keys|
        decreases |rest|
      {
        var n :| n in rest;
        names := names + [n];
        rest := rest - {n};
      }
    }
  }
}
