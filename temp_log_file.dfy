/**
 * The temporary log files: a plain append-only file and the two decorators
 * that wrap it, a gzip layer that compresses what is written through it and
 * a synchronized layer that only takes a lock around each call.
 *
 * A chain of layers is a `LogFile`, one constructor per class; the
 * operations a decorator forwards to its child by `method_missing` are
 * spelled out here, layer by layer. The compressor is an abstract pair of
 * functions that the gzip writer applies to everything written through it
 * when it is closed. The clock is the `now` argument; the bytes a path
 * already held when the file was opened in append mode are `existing`.
 */
module LogFiles {

  newtype byte = x: int | 0 <= x < 256

  type Bytes = seq<byte>

  /** The compressor: what the gzip writer emits for the bytes written through it, and the reader's inverse. */
  datatype Codec = Codec(encode: Bytes -> Bytes, decode: Bytes -> Bytes)

  ghost predicate RoundTrips(c: Codec) {
    forall s :: c.decode(c.encode(s)) == s
  }

  /** Ruby's `IOError: closed stream` and `Zlib::GzipFile::Error: closed gzip stream`. */
  datatype IoError = ClosedStream | ClosedGzipStream

  datatype Outcome = Done | Failed(error: IoError)

  /** The arguments of one `write(*contents)` call, one after the other. */
  function Concat(contents: seq<Bytes>): (r: Bytes)
    ensures contents == [] ==> r == []
  {
    if contents == [] then [] else Concat(contents[..|contents| - 1]) + contents[|contents| - 1]
  }

  /** Applies the codecs from the outermost layer inwards. */
  function EncodeAll(codecs: seq<Codec>, s: Bytes): Bytes {
    if codecs == [] then s else EncodeAll(codecs[1..], codecs[0].encode(s))
  }

  /** Undoes the layers from the innermost outwards: the nested readers of the tests. */
  function DecodeAll(codecs: seq<Codec>, s: Bytes): Bytes {
    if codecs == [] then s else codecs[0].decode(DecodeAll(codecs[1..], s))
  }

  /** Reading back through as many gzip readers as there were gzip layers gives the written bytes. */
  lemma {:induction false} DecodeUndoesEncode(codecs: seq<Codec>, s: Bytes)
    requires forall i :: 0 <= i < |codecs| ==> RoundTrips(codecs[i])
    ensures DecodeAll(codecs, EncodeAll(codecs, s)) == s
  {
    if codecs != [] {
      assert RoundTrips(codecs[0]);
      DecodeUndoesEncode(codecs[1..], codecs[0].encode(s));
    }
  }

  /** The layering of a chain, outermost first. */
  datatype Shape = PlainShape | GzipShape(inner: Shape) | SyncShape(inner: Shape)

  /** The order `LogFileFactory.create` stacks the layers in. */
  function Layering(gzip: bool, gzipEncoded: bool, synchronize: bool): Shape {
    var plain := PlainShape;
    var zipped := if gzip then GzipShape(plain) else plain;
    var encoded := if gzipEncoded then GzipShape(zipped) else zipped;
    if synchronize then SyncShape(encoded) else encoded
  }

  predicate NoSync(s: Shape) {
    match s
    case PlainShape => true
    case GzipShape(inner) => NoSync(inner)
    case SyncShape(_) => false
  }

  function GzipCount(s: Shape): nat {
    match s
    case PlainShape => 0
    case GzipShape(inner) => 1 + GzipCount(inner)
    case SyncShape(inner) => GzipCount(inner)
  }

  /**
   * Whatever the options, the synchronized layer, when present, is the
   * outermost and the only one; one gzip layer comes per gzip option.
   */
  lemma LayeringOrder(gzip: bool, gzipEncoded: bool, synchronize: bool)
    ensures var s := Layering(gzip, gzipEncoded, synchronize);
            (synchronize ==> s.SyncShape? && NoSync(s.inner)) && (!synchronize ==> NoSync(s))
            && GzipCount(s) == (if gzip then 1 else 0) + (if gzipEncoded then 1 else 0)
  {
  }

  /** `PlainLogFile`: a file opened in append mode and the time of its last sync. */
  class PlainLogFile {
    const path: string
    /** What the path held when the file was opened. */
    const existing: Bytes
    /** What has been written to the descriptor since. */
    var appended: Bytes
    var isOpen: bool
    var lastSync: int

    constructor(path: string, existing: Bytes, now: int)
      ensures this.path == path && this.existing == existing
      ensures appended == [] && isOpen && lastSync == now
    {
      this.path := path;
      this.existing := existing;
      appended := [];
      isOpen := true;
      lastSync := now;
    }

    /** `write(*contents)`: every argument appended in order; the first one fails on a closed file. */
    method Write(contents: seq<Bytes>) returns (outcome: Outcome)
      modifies this
      ensures outcome == if contents == [] || old(isOpen) then Done else Failed(ClosedStream)
      ensures appended == old(appended) + (if outcome.Done? then Concat(contents) else [])
      ensures isOpen == old(isOpen) && lastSync == old(lastSync)
    {
      var i := 0;
      while i < |contents|
        invariant 0 <= i <= |contents|
        invariant appended == old(appended) + Concat(contents[..i])
        invariant isOpen == old(isOpen) && lastSync == old(lastSync)
        invariant !isOpen ==> i == 0
      {
        if !isOpen {
          return Failed(ClosedStream);
        }
        appended := appended + contents[i];
        assert contents[..i + 1][..i] == contents[..i];
        i := i + 1;
      }
      assert contents[..i] == contents;
      return Done;
    }

    /** `@fd.write(bytes)` as the gzip writer above calls it. */
    method FdWrite(bytes: Bytes)
      requires isOpen
      modifies this
      ensures appended == old(appended) + bytes
      ensures isOpen && lastSync == old(lastSync)
    {
      appended := appended + bytes;
    }

    /** `fsync`: syncs the descriptor and records the time. */
    method Fsync(now: int) returns (outcome: Outcome)
      modifies this
      ensures outcome == if old(isOpen) then Done else Failed(ClosedStream)
      ensures lastSync == if outcome.Done? then now else old(lastSync)
      ensures appended == old(appended) && isOpen == old(isOpen)
    {
      if !isOpen {
        return Failed(ClosedStream);
      }
      lastSync := now;
      return Done;
    }

    /** `close!`: syncs and closes the descriptor; the sync time is not recorded. */
    method Close() returns (outcome: Outcome)
      modifies this
      ensures outcome == if old(isOpen) then Done else Failed(ClosedStream)
      ensures !isOpen
      ensures appended == old(appended) && lastSync == old(lastSync)
    {
      if !isOpen {
        return Failed(ClosedStream);
      }
      isOpen := false;
      return Done;
    }

    /** `@fd.close` as the gzip writer above calls it. */
    method FdClose()
      requires isOpen
      modifies this
      ensures !isOpen && appended == old(appended) && lastSync == old(lastSync)
    {
      isOpen := false;
    }

    /** `size`: the byte count on disk, answered closed or open. */
    function Size(): (n: nat)
      reads this
      ensures n == |existing| + |appended|
    {
      |existing + appended|
    }

    function TimeSinceSync(now: int): (t: int)
      reads this
      ensures t == now - lastSync
    {
      now - lastSync
    }
  }

  /** `GzipLogFile`: a gzip writer over the descriptor of the layer below. */
  class GzipLogFile {
    const child: LogFile
    const codec: Codec
    /** Everything written through the gzip writer so far. */
    var pending: Bytes
    /** Whether the gzip writer is still open. */
    var isOpen: bool
    ghost const depth: nat
    ghost const Repr: set<object>

    /**
     * While the writer is open the layer below has received nothing from it
     * (flushing is not modelled); once closed, the layer below holds the
     * encoding of everything written and is closed too.
     */
    ghost predicate Valid()
      reads Repr
      decreases depth, 0
    {
      && this in Repr
      && child.Depth() < depth
      && Repr == {this} + child.Repr()
      && this !in child.Repr()
      && child.Valid()
      && (isOpen ==> child.IsOpen() && child.Accepted() == [])
      && (!isOpen ==> !child.IsOpen() && child.Accepted() == codec.encode(pending))
    }

    constructor(child: LogFile, codec: Codec)
      requires child.Valid() && child.IsOpen() && child.Accepted() == []
      ensures Valid() && fresh(this)
      ensures this.child == child && this.codec == codec && pending == [] && isOpen
      ensures Repr == {this} + child.Repr()
    {
      this.child := child;
      this.codec := codec;
      pending := [];
      isOpen := true;
      depth := child.Depth() + 1;
      Repr := {this} + child.Repr();
    }

    method Write(contents: seq<Bytes>) returns (outcome: Outcome)
      requires Valid()
      modifies this
      ensures Valid()
      ensures outcome == if contents == [] || old(isOpen) then Done else Failed(ClosedGzipStream)
      ensures pending == old(pending) + (if outcome.Done? then Concat(contents) else [])
      ensures isOpen == old(isOpen)
    {
      var i := 0;
      while i < |contents|
        invariant 0 <= i <= |contents|
        invariant pending == old(pending) + Concat(contents[..i])
        invariant isOpen == old(isOpen)
        invariant !isOpen ==> i == 0
      {
        if !isOpen {
          return Failed(ClosedGzipStream);
        }
        pending := pending + contents[i];
        assert contents[..i + 1][..i] == contents[..i];
        i := i + 1;
      }
      assert contents[..i] == contents;
      return Done;
    }

    /** The gzip writer's `write(bytes)`, as a gzip layer above calls it. */
    method FdWrite(bytes: Bytes)
      requires Valid() && isOpen
      modifies this
      ensures Valid() && isOpen
      ensures pending == old(pending) + bytes
    {
      pending := pending + bytes;
    }

    /** `fsync`: flushes the writer (a closed one fails), then syncs the layer below. */
    method Fsync(now: int) returns (outcome: Outcome)
      requires Valid()
      modifies Repr
      decreases depth, 0
      ensures Valid()
      ensures outcome == if old(isOpen) then Done else Failed(ClosedGzipStream)
      ensures child.LastSync() == if outcome.Done? then now else old(child.LastSync())
      ensures pending == old(pending) && isOpen == old(isOpen)
      ensures child.Accepted() == old(child.Accepted()) && child.IsOpen() == old(child.IsOpen())
      ensures child.Disk() == old(child.Disk())
      ensures child.Shape() == old(child.Shape()) && child.Codecs() == old(child.Codecs())
      ensures child.Path() == old(child.Path()) && child.Existing() == old(child.Existing())
    {
      if !isOpen {
        return Failed(ClosedGzipStream);
      }
      outcome := child.Fsync(now);
    }

    /** `@fd.close` of the gzip writer: emits the encoding into the layer below and closes it. */
    method FdClose()
      requires Valid() && isOpen
      modifies Repr
      decreases depth, 0
      ensures Valid() && !isOpen
      ensures pending == old(pending)
      ensures child.LastSync() == old(child.LastSync())
      ensures child.Shape() == old(child.Shape()) && child.Codecs() == old(child.Codecs())
      ensures child.Path() == old(child.Path()) && child.Existing() == old(child.Existing())
    {
      child.FdWrite(codec.encode(pending));
      child.FdClose();
      isOpen := false;
    }

    /** `close!`: `fsync`, then the writer's close. */
    method Close(now: int) returns (outcome: Outcome)
      requires Valid()
      modifies Repr
      decreases depth, 0
      ensures Valid() && !isOpen
      ensures outcome == if old(isOpen) then Done else Failed(ClosedGzipStream)
      ensures child.LastSync() == if outcome.Done? then now else old(child.LastSync())
      ensures pending == old(pending)
      ensures child.Shape() == old(child.Shape()) && child.Codecs() == old(child.Codecs())
      ensures child.Path() == old(child.Path()) && child.Existing() == old(child.Existing())
    {
      if !isOpen {
        return Failed(ClosedGzipStream);
      }
      outcome := Fsync(now);
      FdClose();
    }
  }

  /** `SynchronizedLogFile`: every call to the layer below under a lock (a no-op here). */
  class SynchronizedLogFile {
    const child: LogFile
    ghost const depth: nat
    ghost const Repr: set<object>

    ghost predicate Valid()
      reads Repr
      decreases depth, 0
    {
      && this in Repr
      && child.Depth() < depth
      && Repr == {this} + child.Repr()
      && this !in child.Repr()
      && child.Valid()
    }

    constructor(child: LogFile)
      requires child.Valid()
      ensures Valid() && fresh(this)
      ensures this.child == child && Repr == {this} + child.Repr()
    {
      this.child := child;
      depth := child.Depth() + 1;
      Repr := {this} + child.Repr();
    }
  }

  /** A chain of layers, named by its outermost one. */
  datatype LogFile = P(plain: PlainLogFile) | G(gzip: GzipLogFile) | S(sync: SynchronizedLogFile) {

    ghost function Depth(): nat {
      match this
      case P(_) => 0
      case G(g) => g.depth
      case S(s) => s.depth
    }

    ghost function Repr(): set<object> {
      match this
      case P(p) => {p}
      case G(g) => g.Repr
      case S(s) => s.Repr
    }

    ghost predicate Valid()
      reads Repr()
      decreases Depth(), 1
    {
      match this
      case P(_) => true
      case G(g) => g.Valid()
      case S(s) => s.Valid()
    }

    ghost function Shape(): Shape
      requires Valid()
      reads Repr()
      decreases Depth()
    {
      match this
      case P(_) => PlainShape
      case G(g) => assert g.Valid(); GzipShape(g.child.Shape())
      case S(s) => assert s.Valid(); SyncShape(s.child.Shape())
    }

    /** The compressors of the gzip layers, outermost first. */
    ghost function Codecs(): seq<Codec>
      requires Valid()
      reads Repr()
      decreases Depth()
    {
      match this
      case P(_) => []
      case G(g) => assert g.Valid(); [g.codec] + g.child.Codecs()
      case S(s) => assert s.Valid(); s.child.Codecs()
    }

    /** Whether the outermost descriptor (a file or a gzip writer) is open. */
    ghost function IsOpen(): bool
      requires Valid()
      reads Repr()
      decreases Depth()
    {
      match this
      case P(p) => p.isOpen
      case G(g) => assert g.Valid(); g.isOpen
      case S(s) => assert s.Valid(); s.child.IsOpen()
    }

    /** Everything written through the outermost layer since it was made. */
    ghost function Accepted(): Bytes
      requires Valid()
      reads Repr()
      decreases Depth()
    {
      match this
      case P(p) => p.appended
      case G(g) => assert g.Valid(); g.pending
      case S(s) => assert s.Valid(); s.child.Accepted()
    }

    /** What the path held when the file was opened. */
    ghost function Existing(): Bytes
      requires Valid()
      reads Repr()
      decreases Depth()
    {
      match this
      case P(p) => p.existing
      case G(g) => assert g.Valid(); g.child.Existing()
      case S(s) => assert s.Valid(); s.child.Existing()
    }

    /** The error a closed outermost descriptor raises. */
    function ClosedError(): IoError
      requires Valid()
      reads Repr()
      decreases Depth()
    {
      match this
      case P(_) => ClosedStream
      case G(_) => ClosedGzipStream
      case S(s) => assert s.Valid(); s.child.ClosedError()
    }

    /** The bytes at the path: what it held, then what reached the file. */
    function Disk(): Bytes
      requires Valid()
      reads Repr()
      decreases Depth()
    {
      match this
      case P(p) => p.existing + p.appended
      case G(g) => assert g.Valid(); g.child.Disk()
      case S(s) => assert s.Valid(); s.child.Disk()
    }

    function LastSync(): int
      requires Valid()
      reads Repr()
      decreases Depth()
    {
      match this
      case P(p) => p.lastSync
      case G(g) => assert g.Valid(); g.child.LastSync()
      case S(s) => assert s.Valid(); s.child.LastSync()
    }

    /** The plain file at the bottom of the chain. */
    ghost function Bottom(): PlainLogFile
      requires Valid()
      reads Repr()
      decreases Depth()
    {
      match this
      case P(p) => p
      case G(g) => assert g.Valid(); g.child.Bottom()
      case S(s) => assert s.Valid(); s.child.Bottom()
    }

    /** `path`: every layer answers with the plain file's path. */
    function Path(): (r: string)
      requires Valid()
      reads Repr()
      ensures r == Bottom().path
      decreases Depth()
    {
      match this
      case P(p) => p.path
      case G(g) => assert g.Valid(); g.child.Path()
      case S(s) => assert s.Valid(); s.child.Path()
    }

    /** `size`: every layer answers with the plain file's size on disk, closed or open. */
    function Size(): (n: nat)
      requires Valid()
      reads Repr()
      ensures n == |Disk()|
      decreases Depth()
    {
      match this
      case P(p) => p.Size()
      case G(g) => assert g.Valid(); g.child.Size()
      case S(s) => assert s.Valid(); s.child.Size()
    }

    /** `time_since_sync`: every layer answers with the plain file's. */
    function TimeSinceSync(now: int): (t: int)
      requires Valid()
      reads Repr()
      ensures t == now - LastSync()
      decreases Depth()
    {
      match this
      case P(p) => p.TimeSinceSync(now)
      case G(g) => assert g.Valid(); g.child.TimeSinceSync(now)
      case S(s) => assert s.Valid(); s.child.TimeSinceSync(now)
    }

    /** `write(*contents)`: appends the arguments in order through the outermost layer. */
    method Write(contents: seq<Bytes>) returns (outcome: Outcome)
      requires Valid()
      modifies Repr()
      decreases Depth(), 1
      ensures Valid()
      ensures outcome == if contents == [] || old(IsOpen()) then Done else Failed(old(ClosedError()))
      ensures Accepted() == old(Accepted()) + (if outcome.Done? then Concat(contents) else [])
      ensures IsOpen() == old(IsOpen()) && LastSync() == old(LastSync())
      ensures old(Codecs()) != [] ==> Disk() == old(Disk())
      ensures Shape() == old(Shape()) && Codecs() == old(Codecs())
      ensures Path() == old(Path()) && Existing() == old(Existing())
    {
      match this
      case P(p) => outcome := p.Write(contents);
      case G(g) => assert g.Valid(); outcome := g.Write(contents);
      case S(s) => assert s.Valid(); outcome := s.child.Write(contents);
    }

    /** `@fd.write(bytes)` on this layer, as the gzip writer above calls it. */
    method FdWrite(bytes: Bytes)
      requires Valid() && IsOpen()
      modifies Repr()
      decreases Depth(), 1
      ensures Valid() && IsOpen()
      ensures Accepted() == old(Accepted()) + bytes && LastSync() == old(LastSync())
      ensures Shape() == old(Shape()) && Codecs() == old(Codecs())
      ensures Path() == old(Path()) && Existing() == old(Existing())
    {
      match this
      case P(p) => p.FdWrite(bytes);
      case G(g) => assert g.Valid(); g.FdWrite(bytes);
      case S(s) => assert s.Valid(); s.child.FdWrite(bytes);
    }

    /** `@fd.close` on this layer, as the gzip writer above calls it. */
    method FdClose()
      requires Valid() && IsOpen()
      modifies Repr()
      decreases Depth(), 1
      ensures Valid() && !IsOpen()
      ensures Accepted() == old(Accepted()) && LastSync() == old(LastSync())
      ensures Shape() == old(Shape()) && Codecs() == old(Codecs())
      ensures Path() == old(Path()) && Existing() == old(Existing())
    {
      match this
      case P(p) => p.FdClose();
      case G(g) => assert g.Valid(); g.FdClose();
      case S(s) => assert s.Valid(); s.child.FdClose();
    }

    /** `fsync`: records the sync time in the plain file; a closed chain fails. */
    method Fsync(now: int) returns (outcome: Outcome)
      requires Valid()
      modifies Repr()
      decreases Depth(), 1
      ensures Valid()
      ensures outcome == if old(IsOpen()) then Done else Failed(old(ClosedError()))
      ensures LastSync() == if outcome.Done? then now else old(LastSync())
      ensures Accepted() == old(Accepted()) && IsOpen() == old(IsOpen()) && Disk() == old(Disk())
      ensures Shape() == old(Shape()) && Codecs() == old(Codecs())
      ensures Path() == old(Path()) && Existing() == old(Existing())
    {
      match this
      case P(p) => outcome := p.Fsync(now);
      case G(g) => assert g.Valid(); outcome := g.Fsync(now);
      case S(s) => assert s.Valid(); outcome := s.child.Fsync(now);
    }

    /**
     * `close!`: closes the chain from the outermost layer down. A plain file
     * does not record the sync it makes while closing; a gzip layer's own
     * `fsync` does.
     */
    method Close(now: int) returns (outcome: Outcome)
      requires Valid()
      modifies Repr()
      decreases Depth(), 1
      ensures Valid() && !IsOpen()
      ensures outcome == if old(IsOpen()) then Done else Failed(old(ClosedError()))
      ensures Accepted() == old(Accepted())
      ensures LastSync() == if outcome.Done? && Codecs() != [] then now else old(LastSync())
      ensures Shape() == old(Shape()) && Codecs() == old(Codecs())
      ensures Path() == old(Path()) && Existing() == old(Existing())
    {
      match this
      case P(p) => outcome := p.Close();
      case G(g) => assert g.Valid(); outcome := g.Close(now);
      case S(s) => assert s.Valid(); outcome := s.child.Close(now);
    }
  }

  /**
   * `LogFileFactory.create(path, gzip, synchronize, gzip_encoded)`: a plain
   * file, then a gzip layer for `gzip`, another for `gzip_encoded`, and the
   * synchronized layer outermost for `synchronize`. Every gzip layer uses
   * the same compressor.
   */
  method Create(path: string, gzip: bool, synchronize: bool, gzipEncoded: bool, codec: Codec, existing: Bytes, now: int)
    returns (file: LogFile)
    ensures file.Valid() && fresh(file.Repr())
    ensures file.Shape() == Layering(gzip, gzipEncoded, synchronize)
    ensures file.Codecs() == (if gzipEncoded then [codec] else []) + (if gzip then [codec] else [])
    ensures file.Path() == path && file.Existing() == existing && file.Disk() == existing
    ensures file.IsOpen() && file.Accepted() == [] && file.LastSync() == now
  {
    file := Compressed(path, gzip, gzipEncoded, codec, existing, now);
    if synchronize {
      var locked := new SynchronizedLogFile(file);
      file := S(locked);
      assert locked.Valid();
    }
  }

  /** The layers below the lock: the plain file and the gzip layers over it. */
  method Compressed(path: string, gzip: bool, gzipEncoded: bool, codec: Codec, existing: Bytes, now: int)
    returns (file: LogFile)
    ensures file.Valid() && fresh(file.Repr())
    ensures file.Shape() == Layering(gzip, gzipEncoded, false)
    ensures file.Codecs() == (if gzipEncoded then [codec] else []) + (if gzip then [codec] else [])
    ensures file.Path() == path && file.Existing() == existing && file.Disk() == existing
    ensures file.IsOpen() && file.Accepted() == [] && file.LastSync() == now
  {
    var plain := new PlainLogFile(path, existing, now);
    file := P(plain);
    if gzip {
      var zipped := new GzipLogFile(file, codec);
      Wrapped(file, zipped);
      file := G(zipped);
    }
    assert file.Shape() == Layering(gzip, false, false);
    assert file.Codecs() == (if gzip then [codec] else []);
    if gzipEncoded {
      var encoded := new GzipLogFile(file, codec);
      Wrapped(file, encoded);
      file := G(encoded);
    }
  }

  /** A fresh gzip layer answers for its child's path, disk and sync time. */
  lemma Wrapped(child: LogFile, g: GzipLogFile)
    requires g.Valid() && g.child == child && g.isOpen && g.pending == []
    ensures G(g).Valid() && G(g).Shape() == GzipShape(child.Shape()) && G(g).Codecs() == [g.codec] + child.Codecs()
    ensures G(g).Path() == child.Path() && G(g).Existing() == child.Existing() && G(g).Disk() == child.Disk()
    ensures G(g).LastSync() == child.LastSync() && G(g).IsOpen() && G(g).Accepted() == []
  {
  }

  /**
   * While a chain is open, nothing written through a gzip layer has reached
   * the disk; without gzip layers, the disk holds what it held plus every
   * byte written.
   */
  lemma {:induction false} OpenDisk(f: LogFile)
    requires f.Valid() && f.IsOpen()
    ensures f.Disk() == f.Existing() + (if f.Codecs() == [] then f.Accepted() else [])
    decreases f.Depth()
  {
    match f
    case P(_) =>
    case G(g) =>
      assert g.Valid();
      OpenDisk(g.child);
    case S(s) =>
      assert s.Valid();
      OpenDisk(s.child);
  }

  /** Once a chain is closed, the disk holds what it held plus the n-fold encoding of everything written. */
  lemma {:induction false} ClosedDisk(f: LogFile)
    requires f.Valid() && !f.IsOpen()
    ensures f.Disk() == f.Existing() + EncodeAll(f.Codecs(), f.Accepted())
    decreases f.Depth()
  {
    match f
    case P(_) =>
    case G(g) =>
      assert g.Valid();
      ClosedDisk(g.child);
      assert f.Codecs()[1..] == g.child.Codecs();
    case S(s) =>
      assert s.Valid();
      ClosedDisk(s.child);
  }

  /**
   * Reading a closed chain's new bytes back through one decoder per gzip
   * layer gives exactly what was written through it.
   */
  lemma ReadBack(f: LogFile)
    requires f.Valid() && !f.IsOpen()
    requires forall i :: 0 <= i < |f.Codecs()| ==> RoundTrips(f.Codecs()[i])
    ensures |f.Existing()| <= |f.Disk()|
    ensures DecodeAll(f.Codecs(), f.Disk()[|f.Existing()|..]) == f.Accepted()
  {
    ClosedDisk(f);
    assert f.Disk()[|f.Existing()|..] == EncodeAll(f.Codecs(), f.Accepted());
    DecodeUndoesEncode(f.Codecs(), f.Accepted());
  }
}
