/** The worker thread of the web cam server: it supervises the capture
    process, keeps only the newest frame file, compresses it once, and
    publishes it. The file system is a map from file name to bytes, the
    capture process a flag, the compressor a function the worker is given,
    and the clock readings are parameters. */
module CatPic {
  import opened Results
  import opened Base64
  import opened FrameNames
  import opened Schedule
  import opened Rotation

  /** The message of the exception `startproc` raises when a process is running. */
  const AlreadyRunning := "Proc already running!"

  /** The message of the exception `stopproc` raises when no process is running. */
  const NoProc := "No proc to kill"

  /** The web application object; of it, only the shared latest frame belongs
      to this model (`None` until the first frame is read). */
  class Root {
    var latest: Option<seq<byte>>

    constructor ()
      ensures latest == None
    {
      latest := None;
    }
  }

  class CatHandler {
    /** The application whose latest frame this worker updates. */
    const master: Root
    /** The external compressor (`convert -strip ... -quality 50%`), in place. */
    const convert: seq<byte> -> seq<byte>

    /** The `images` directory: file name to contents. */
    var images: map<string, seq<byte>>
    /** The path of the file compressed last ("" before the first). */
    var compressed: string
    /** Whether a capture process handle is held (`self.proc` is not `None`). */
    var running: bool
    /** When the capture process was started, in milliseconds. */
    var proctime: int
    /** Every payload broadcast to the subscribers, oldest first. */
    ghost var published: seq<string>
    /** Every path handed to the compressor, oldest first. */
    ghost var converted: seq<string>
    /** The clock reading of every restart by the watchdog, oldest first. */
    ghost var restarts: seq<int>

    /** The part of the state a tick reads and writes. */
    ghost function State(): Frames
      reads this, master
    {
      Frames(images, compressed, master.latest, published, converted)
    }

    /** Creates the worker over the directory `dir` and, as the thread does
        first, forgets any compressed path and starts the capture process,
        which empties the directory. */
    constructor (master: Root, convert: seq<byte> -> seq<byte>, dir: map<string, seq<byte>>, now: int)
      ensures this.master == master && this.convert == convert
      ensures images == map[] && compressed == "" && running && proctime == now
      ensures published == [] && converted == [] && restarts == []
    {
      this.master := master;
      this.convert := convert;
      images := dir;
      compressed := "";
      running := false;
      proctime := now;
      published := [];
      converted := [];
      restarts := [];
      new;
      var started := Start(now);
    }

    /** `startproc`: fails when a process is running; otherwise deletes every
        file of the directory, launches the capture process and records when. */
    method Start(now: int) returns (r: Outcome)
      modifies this`images, this`running, this`proctime
      ensures old(running) ==>
        r == Fail(AlreadyRunning) && images == old(images) && running && proctime == old(proctime)
      ensures !old(running) ==> r == Pass && images == map[] && running && proctime == now
    {
      if running {
        return Fail(AlreadyRunning);
      }
      // initial cleanout, in whatever order the directory lists its entries
      while images != map[]
        decreases |images|
      {
        var f :| f in images;
        images := images - {f};
      }
      running := true;
      proctime := now;
      r := Pass;
    }

    /** `stopproc`: fails when no process is running; otherwise kills the
        process, waits for it and drops the handle. The directory and the
        start time are left as they are. */
    method Stop() returns (r: Outcome)
      modifies this`running
      ensures r == if old(running) then Pass else Fail(NoProc)
      ensures !running
    {
      if !running {
        return Fail(NoProc);
      }
      running := false;
      r := Pass;
    }

    /** The restart check at the top of each loop iteration: stops and starts
        the capture process exactly when more than 15 minutes have passed
        since it was started. */
    method Watchdog(now: int) returns (r: Outcome)
      modifies this`images, this`running, this`proctime, this`restarts
      ensures restarts == old(restarts) + if RestartDue(now, old(proctime)) && old(running) then [now] else []
      ensures !RestartDue(now, old(proctime)) ==>
        r == Pass && images == old(images) && running == old(running) && proctime == old(proctime)
      ensures RestartDue(now, old(proctime)) && !old(running) ==>
        r == Fail(NoProc) && images == old(images) && !running && proctime == old(proctime)
      ensures RestartDue(now, old(proctime)) && old(running) ==>
        r == Pass && images == map[] && running && proctime == now
    {
      if RestartDue(now, proctime) {
        r := Stop();
        if r.Fail? {
          return;
        }
        r := Start(now);
        restarts := restarts + [now];
      } else {
        r := Pass;
      }
    }

    /** The restart checks of successive loop iterations at the clock readings
        `checks`, with the process running as it is throughout the loop: none
        fails, the restarts are those of `Schedule.Restarts` and the process
        ends up started when `Schedule.StartedAt` says, so the cadence lemmas
        of `Schedule` hold of the worker. Any restart empties the directory. */
    method Supervise(checks: seq<int>) returns (r: Outcome)
      requires running
      modifies this`images, this`running, this`proctime, this`restarts
      ensures r == Pass && running && proctime == StartedAt(old(proctime), checks)
      ensures restarts == old(restarts) + Restarts(old(proctime), checks)
      ensures images == if Restarts(old(proctime), checks) == [] then old(images) else map[]
    {
      ghost var start := proctime;
      r := Pass;
      for i := 0 to |checks|
        invariant r == Pass && running && proctime == StartedAt(start, checks[..i])
        invariant restarts == old(restarts) + Restarts(start, checks[..i])
        invariant images == if Restarts(start, checks[..i]) == [] then old(images) else map[]
      {
        StartedAtNext(start, checks[..i], checks[i]);
        RestartsNext(start, checks[..i], checks[i]);
        assert checks[..i + 1] == checks[..i] + [checks[i]];
        r := Watchdog(checks[i]);
      }
      assert checks[..|checks|] == checks;
    }

    /** `os.scandir` on the directory: every file name once, in no particular order. */
    method ScanDir() returns (names: seq<string>)
      ensures multiset(names) == multiset(images.Keys)
    {
      names := [];
      var rest := images.Keys;
      while rest != {}
        invariant rest <= images.Keys
        invariant multiset(names) + multiset(rest) == multiset(images.Keys)
        decreases rest
      {
        var n :| n in rest;
        names := names + [n];
        rest := rest - {n};
      }
    }

    /** Removing every name but `newest` leaves the one-entry map. */
    static lemma OnlyNewestLeft(store: map<string, seq<byte>>, newest: string)
      requires newest in store
      ensures store - (store.Keys - {newest}) == map[newest := store[newest]]
    {
    }

    /** The deletion loop of a tick: unlinks each listed file in turn. */
    method Unlink(doomed: seq<string>)
      modifies this`images
      ensures images == old(images) - Elements(doomed)
    {
      for i := 0 to |doomed|
        invariant images == old(images) - Elements(doomed[..i])
      {
        assert Elements(doomed[..i + 1]) == Elements(doomed[..i]) + {doomed[i]} by {
          assert doomed[..i + 1] == doomed[..i] + [doomed[i]];
        }
        images := images - {doomed[i]};
      }
      assert doomed[..|doomed|] == doomed;
    }

    /** The frame work of one tick: list and sort the directory; if it holds
        files, delete all but the last, compress the last unless it is the
        path compressed last, read it into the latest frame and broadcast it. */
    method Rotate()
      modifies this, master
      ensures State() == Rotation.Rotate(old(State()), convert)
      ensures running == old(running) && proctime == old(proctime) && restarts == old(restarts)
    {
      ghost var before := State();
      var listing := ScanDir();
      var names := Sort(listing);
      if names == [] {
        assert images == map[] by {
          assert multiset(images.Keys) == multiset{};
        }
        return;
      }
      var last := |names| - 1;
      var newest := names[last];
      assert newest == Newest(images.Keys) && Elements(names[..last]) == images.Keys - {newest} by {
        SortSorted(listing);
        LastIsNewest(names, images.Keys);
        NewestUnique(newest, Newest(images.Keys), images.Keys);
      }
      Unlink(names[..last]);
      OnlyNewestLeft(before.store, newest);
      assert State() == before.(store := map[newest := before.store[newest]]);
      Refresh(newest);
    }

    /** The rest of a tick once only `newest` is left: compress it unless it
        is the path compressed last, read it into the latest frame and
        broadcast it. */
    method Refresh(newest: string)
      requires newest in images
      modifies this, master
      ensures State() == Rotation.Refresh(old(State()), newest, convert)
      ensures running == old(running) && proctime == old(proctime) && restarts == old(restarts)
    {
      var path := PathOf(newest);
      if path != compressed {
        images := images[newest := convert(images[newest])];
        converted := converted + [path];
        compressed := path;
      }
      master.latest := Some(images[newest]);
      published := published + [Payload(images[newest])];
    }

    /** One iteration of the worker's loop with clock readings `now` (at the
        restart check), `workStart` and `workEnd` (around the frame work):
        the watchdog, the frame work, and the sleep that follows. A failing
        watchdog ends the loop with its exception. */
    method Tick(now: int, workStart: int, workEnd: int) returns (r: Result<int>)
      modifies this, master
      ensures restarts == old(restarts) + if RestartDue(now, old(proctime)) && old(running) then [now] else []
      ensures RestartDue(now, old(proctime)) && !old(running) ==>
        r == Err(NoProc) && State() == old(State()) && !running && proctime == old(proctime)
      ensures RestartDue(now, old(proctime)) && old(running) ==>
        r == Ok(SleepMillis(workEnd - workStart)) && running && proctime == now
        && State() == old(State()).(store := map[])
      ensures !RestartDue(now, old(proctime)) ==>
        r == Ok(SleepMillis(workEnd - workStart)) && running == old(running) && proctime == old(proctime)
        && State() == Rotation.Rotate(old(State()), convert)
    {
      var w := Watchdog(now);
      if w.Fail? {
        return Err(w.message);
      }
      Rotate();
      r := Ok(SleepMillis(workEnd - workStart));
    }
  }
}
