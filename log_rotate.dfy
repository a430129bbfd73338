/**
 * `LogRotate`: owns the one open temporary log file, rotates it when the
 * path factory's base moves on or the file has grown too big, and tells
 * the registered handler which file was rotated out.
 *
 * The handler is an opaque identity; what it does with the path is outside
 * this model, so each call is recorded in a ghost trace together with the
 * other visible steps of a rotation.
 */
module Rotation {
  import opened Common
  import opened Naming
  import opened Paths
  import opened LogFiles

  /** A block registered with `on_rotate`. */
  datatype Handler = Handler(id: nat)

  /** The visible steps of a rotation, in the order they happen. */
  datatype Event =
    | Closed(path: string)
    | Notified(handler: Handler, path: string)
    | PathRotated(path: string)
    | Opened(path: string)

  /**
   * What one `rotate_log!` reads from the outside world: the two readings
   * `rotate_path!` takes, the clock, and the bytes already at the new path.
   */
  datatype Readings = Readings(probe: Env, sample: Env, now: int, existing: Bytes)

  /** The byte `"\n"` that `writeln` appends to every message. */
  const Newline: Bytes := [10]

  /** What `writeln` writes for a message: the message and a newline, or nothing for nil. */
  function Line(message: Option<Bytes>): Bytes {
    match message
    case Some(m) => m + Newline
    case None => []
  }

  /** Closing the old file and, when a handler is registered, telling it the old path. */
  function Retirement(retired: Option<string>, callback: Option<Handler>): seq<Event> {
    match retired
    case None => []
    case Some(gone) => [Closed(gone)] + (match callback case Some(h) => [Notified(h, gone)] case None => [])
  }

  /**
   * The steps of one rotation: close the old file and tell the handler its
   * path (when there is an old file), advance the path, open the new file.
   */
  function RotationEvents(retired: Option<string>, callback: Option<Handler>, path: string): seq<Event> {
    Retirement(retired, callback) + [PathRotated(path), Opened(path)]
  }

  lemma RotationAppends(before: seq<Event>, retired: Option<string>, callback: Option<Handler>, path: string)
    ensures before + Retirement(retired, callback) + [PathRotated(path)] + [Opened(path)]
            == before + RotationEvents(retired, callback, path)
  {
  }

  /**
   * A rotation ends by advancing the path and opening the file there; it
   * starts by closing the old file when there is one; the handler hears of
   * exactly the old path, and only when both a handler and an old file exist.
   */
  lemma RotationOrder(retired: Option<string>, callback: Option<Handler>, path: string)
    ensures var r := RotationEvents(retired, callback, path);
            && |r| >= 2 && r[|r| - 2] == PathRotated(path) && r[|r| - 1] == Opened(path)
            && (retired.None? ==> r == [PathRotated(path), Opened(path)])
            && (retired.Some? ==> r[0] == Closed(retired.value))
            && (forall h, p :: Notified(h, p) in r <==> retired == Some(p) && callback == Some(h))
  {
  }

  /** An open file at `path`, layered as `LogFileFactory.create(path, gzip)` layers it. */
  ghost predicate Fits(f: LogFile, path: string, gzip: bool, codec: Codec)
    reads f.Repr()
  {
    && f.Valid() && f.IsOpen()
    && f.Path() == path
    && f.Shape() == Layering(gzip, false, true)
    && f.Codecs() == (if gzip then [codec] else [])
  }

  /** A file just opened on `existing` at time `now`: nothing written through it yet. */
  ghost predicate Untouched(f: LogFile, existing: Bytes, now: int)
    reads f.Repr()
  {
    f.Valid() && f.Accepted() == [] && f.Existing() == existing && f.Disk() == existing && f.LastSync() == now
  }

  /** A file that has been closed and holds exactly what was written through it. */
  ghost predicate Retired(f: LogFile, written: Bytes)
    reads f.Repr()
  {
    f.Valid() && !f.IsOpen() && f.Accepted() == written
  }

  class LogRotate {
    const pathFactory: PathFactory
    const maxFileSizeBytes: int
    const gzip: bool
    const flushIntervalSecs: int
    /** The compressor the gzip layers use. */
    const codec: Codec

    var tempFile: Option<LogFile>
    var rotateCallback: Option<Handler>

    ghost var trace: seq<Event>
    ghost var Repr: set<object>

    /** The factory is part of the object and valid. */
    ghost predicate Core()
      reads this, Repr
    {
      this in Repr && pathFactory in Repr && pathFactory.Valid()
    }

    /**
     * Everything but the presence of a file: the file, when there is one, is
     * open, named by the factory's current path and layered as
     * `LogFileFactory.create(path, gzip)` layers it.
     */
    ghost predicate Ready()
      reads this, Repr
    {
      && Core()
      && Repr == {this, pathFactory} + (if tempFile.Some? then tempFile.value.Repr() else {})
      && (tempFile.Some? ==>
            && this !in tempFile.value.Repr() && pathFactory !in tempFile.value.Repr()
            && Fits(tempFile.value, pathFactory.CurrentPath(None), gzip, codec))
    }

    /** The invariant between calls: exactly one open file. */
    ghost predicate Valid()
      reads this, Repr
    {
      Ready() && tempFile.Some?
    }

    /** `initialize`: runs `rotate_log!` with no file yet. */
    constructor(pathFactory: PathFactory, maxFileSizeBytes: int, gzip: bool, flushIntervalSecs: int,
                codec: Codec, readings: Readings)
      requires pathFactory.Valid()
      modifies pathFactory
      ensures Valid()
      ensures this.pathFactory == pathFactory && this.maxFileSizeBytes == maxFileSizeBytes && this.gzip == gzip
      ensures this.flushIntervalSecs == flushIntervalSecs && this.codec == codec
      ensures rotateCallback == None
      ensures pathFactory.partNumber
              == if old(pathFactory.NextBase(readings.probe)) == old(pathFactory.CurrentBase())
                 then old(pathFactory.partNumber) + 1 else 0
      ensures pathFactory.current == pathFactory.TemplateVariables(readings.sample)
      ensures trace == [PathRotated(pathFactory.CurrentPath(None)), Opened(pathFactory.CurrentPath(None))]
      ensures Untouched(File(), readings.existing, readings.now)
    {
      this.pathFactory := pathFactory;
      this.maxFileSizeBytes := maxFileSizeBytes;
      this.gzip := gzip;
      this.flushIntervalSecs := flushIntervalSecs;
      this.codec := codec;
      tempFile := None;
      rotateCallback := None;
      trace := [];
      Repr := {this, pathFactory};
      new;
      RotateLog(readings);
    }

    /** The open file. */
    function File(): LogFile
      requires Valid()
      reads this, Repr
    {
      tempFile.value
    }

    /**
     * `should_rotate?`: the factory's base has moved on, or a positive size
     * limit has been reached. A limit of 0 (or less) never triggers.
     */
    function ShouldRotate(probe: Env): (r: bool)
      requires Valid()
      reads this, Repr
      ensures pathFactory.ShouldRotate(probe) ==> r
      ensures maxFileSizeBytes <= 0 ==> (r <==> pathFactory.ShouldRotate(probe))
      ensures !pathFactory.ShouldRotate(probe) ==> (r <==> 0 < maxFileSizeBytes <= |File().Disk()|)
    {
      var pathChanged := pathFactory.ShouldRotate(probe);
      var rotateOnSize := maxFileSizeBytes > 0;
      var tooBig := File().Size() >= maxFileSizeBytes;
      pathChanged || (rotateOnSize && tooBig)
    }

    /**
     * `rotate_log!`: closes the old file (if any) and hands its path to the
     * handler (if any), advances the path, and opens a fresh file there.
     */
    method RotateLog(readings: Readings)
      requires Ready()
      modifies Repr
      ensures Valid()
      ensures pathFactory.partNumber
              == if old(pathFactory.NextBase(readings.probe)) == old(pathFactory.CurrentBase())
                 then old(pathFactory.partNumber) + 1 else 0
      ensures pathFactory.current == pathFactory.TemplateVariables(readings.sample)
      ensures trace == old(trace) + RotationEvents(if old(tempFile).Some? then Some(old(tempFile.value.Path())) else None,
                                                   rotateCallback, pathFactory.CurrentPath(None))
      ensures rotateCallback == old(rotateCallback)
      ensures Untouched(File(), readings.existing, readings.now) && fresh(File().Repr())
      ensures old(tempFile).Some? ==> Retired(old(tempFile).value, old(tempFile.value.Accepted()))
    {
      ghost var retired := if tempFile.Some? then Some(tempFile.value.Path()) else None;
      ghost var before := trace;
      if tempFile.Some? {
        CloseFile(readings.now);
      }
      assert trace == before + Retirement(retired, rotateCallback);
      Reopen(readings);
      RotationAppends(before, retired, rotateCallback, pathFactory.CurrentPath(None));
    }

    /** The first half of `rotate_log!`: close the file and hand its path to the handler. */
    method CloseFile(now: int)
      requires Valid()
      modifies this, File().Repr()
      ensures Core() && Repr == old(Repr) && tempFile == old(tempFile)
      ensures tempFile.Some? && Retired(tempFile.value, old(File().Accepted()))
      ensures tempFile.value.Path() == old(File().Path())
      ensures unchanged(pathFactory)
      ensures rotateCallback == old(rotateCallback)
      ensures trace == old(trace) + Retirement(Some(old(File().Path())), rotateCallback)
    {
      var previous := tempFile.value;
      var _ := previous.Close(now);
      var previousPath := previous.Path();
      // `@rotate_callback.call(path)` is recorded rather than run
      trace := trace + Retirement(Some(previousPath), rotateCallback);
    }

    /** The second half of `rotate_log!`: advance the path and open a fresh file there. */
    method Reopen(readings: Readings)
      requires Core()
      modifies this, pathFactory
      ensures Valid() && rotateCallback == old(rotateCallback)
      ensures pathFactory.partNumber
              == if old(pathFactory.NextBase(readings.probe)) == old(pathFactory.CurrentBase())
                 then old(pathFactory.partNumber) + 1 else 0
      ensures pathFactory.current == pathFactory.TemplateVariables(readings.sample)
      ensures trace == old(trace) + [PathRotated(pathFactory.CurrentPath(None))] + [Opened(pathFactory.CurrentPath(None))]
      ensures Untouched(File(), readings.existing, readings.now) && fresh(File().Repr())
    {
      ghost var next := if pathFactory.NextBase(readings.probe) == pathFactory.CurrentBase()
                        then pathFactory.partNumber + 1 else 0;
      AdvancePath(readings);
      ghost var current := pathFactory.current;
      assert pathFactory.partNumber == next;
      OpenFile(readings);
      assert pathFactory.partNumber == next && pathFactory.current == current;
    }

    /** `@path_factory.rotate_path!` inside `rotate_log!`. */
    method AdvancePath(readings: Readings)
      requires Core()
      modifies this, pathFactory
      ensures Core() && Repr == old(Repr) && tempFile == old(tempFile) && rotateCallback == old(rotateCallback)
      ensures pathFactory.partNumber
              == if old(pathFactory.NextBase(readings.probe)) == old(pathFactory.CurrentBase())
                 then old(pathFactory.partNumber) + 1 else 0
      ensures pathFactory.current == pathFactory.TemplateVariables(readings.sample)
      ensures trace == old(trace) + [PathRotated(pathFactory.CurrentPath(None))]
    {
      var rotated := pathFactory.RotatePath(readings.probe, readings.sample);
      trace := trace + [PathRotated(rotated)];
    }

    /** The end of `rotate_log!`: a fresh file at the factory's current path. */
    method OpenFile(readings: Readings)
      requires Core()
      modifies this
      ensures Valid() && rotateCallback == old(rotateCallback)
      ensures trace == old(trace) + [Opened(pathFactory.CurrentPath(None))]
      ensures Untouched(File(), readings.existing, readings.now) && fresh(File().Repr())
    {
      var path := pathFactory.CurrentPath(None);
      var file := Create(path, gzip, true, false, codec, readings.existing, readings.now);
      assert Fits(file, path, gzip, codec) && Untouched(file, readings.existing, readings.now);
      tempFile, Repr, trace := Some(file), {this, pathFactory} + file.Repr(), trace + [Opened(path)];
    }

    /**
     * `writeln(message)`: rotates first when due (at most once), writes the
     * message and a newline to the file that is current afterwards (a nil
     * message writes nothing), then syncs when the flush interval has passed.
     */
    method Writeln(message: Option<Bytes>, probe: Env, readings: Readings, now: int)
      requires Valid()
      modifies Repr
      ensures Valid() && rotateCallback == old(rotateCallback)
      ensures !old(ShouldRotate(probe)) ==>
                tempFile == old(tempFile) && trace == old(trace)
                && pathFactory.partNumber == old(pathFactory.partNumber) && pathFactory.current == old(pathFactory.current)
      ensures old(ShouldRotate(probe)) ==>
                trace == old(trace) + RotationEvents(Some(old(File().Path())), rotateCallback, pathFactory.CurrentPath(None))
      ensures old(ShouldRotate(probe)) ==> old(File()) != File() && Retired(old(File()), old(File().Accepted()))
      ensures old(ShouldRotate(probe)) ==>
                && pathFactory.partNumber
                   == (if old(pathFactory.NextBase(readings.probe)) == old(pathFactory.CurrentBase())
                       then old(pathFactory.partNumber) + 1 else 0)
                && pathFactory.current == pathFactory.TemplateVariables(readings.sample)
      ensures File().Existing() == if old(ShouldRotate(probe)) then readings.existing else old(File().Existing())
      ensures File().Accepted()
              == (if old(ShouldRotate(probe)) then [] else old(File().Accepted())) + Line(message)
      ensures var synced := if old(ShouldRotate(probe)) then readings.now else old(File().LastSync());
              File().LastSync() == if now - synced >= flushIntervalSecs then now else synced
    {
      ghost var previous := File();
      if ShouldRotate(probe) {
        RotateLog(readings);
        assert previous.Repr() !! File().Repr();
      }
      Append(message, now);
    }

    /** The tail of `writeln`: write the line, then `fsync` if the interval has passed. */
    method Append(message: Option<Bytes>, now: int)
      requires Valid()
      modifies File().Repr()
      ensures Valid()
      ensures File().Existing() == old(File().Existing())
      ensures File().Accepted() == old(File().Accepted()) + Line(message)
      ensures File().LastSync()
              == if now - old(File().LastSync()) >= flushIntervalSecs then now else old(File().LastSync())
    {
      WriteLine(message);
      SyncIfDue(now);
    }

    /** `@temp_file.write(message, "\n")` unless the message is nil. */
    method WriteLine(message: Option<Bytes>)
      requires Valid()
      modifies File().Repr()
      ensures Valid()
      ensures File().Existing() == old(File().Existing())
      ensures File().Accepted() == old(File().Accepted()) + Line(message)
      ensures File().LastSync() == old(File().LastSync())
    {
      var file := tempFile.value;
      if message.Some? {
        var _ := file.Write([message.value, Newline]);
        assert Concat([message.value, Newline]) == message.value + Newline by {
          assert [message.value, Newline][..1] == [message.value];
          assert [message.value][..0] == [];
        }
      }
    }

    /** `fsync` when `time_since_sync` has reached the flush interval. */
    method SyncIfDue(now: int)
      requires Valid()
      modifies File().Repr()
      ensures Valid()
      ensures File().Existing() == old(File().Existing())
      ensures File().Accepted() == old(File().Accepted())
      ensures File().LastSync()
              == if now - old(File().LastSync()) >= flushIntervalSecs then now else old(File().LastSync())
    {
      var file := tempFile.value;
      if file.TimeSinceSync(now) >= flushIntervalSecs {
        var _ := file.Fsync(now);
      }
    }

    /** `on_rotate`: the new handler replaces the old one; none clears it. */
    method OnRotate(handler: Option<Handler>)
      requires Valid()
      modifies this
      ensures Valid()
      ensures rotateCallback == handler
      ensures tempFile == old(tempFile) && trace == old(trace) && Repr == old(Repr)
    {
      rotateCallback := handler;
    }
  }
}
