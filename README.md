# Local buffering and rotation of logstash-output-google_cloud_storage

This project models the part of the Logstash Google Cloud Storage output that
buffers events on local disk before they are uploaded:

- **`PathFactory`** names the temporary files. It renders the template
  `prefix[_host]_date[.partNNN][.uuid].log[.gz]`, keeps the current snapshot of
  the template variables and a part counter, and decides whether the base
  identity (`prefix[_host]_date`) has moved on. On rotation it bumps or resets
  the counter. When it is built, it recovers the starting part from the files
  already in the directory.
- **`LogRotate`** owns the one open temporary file. `writeln` rotates it when
  the base has moved on or a size limit is reached, writes the message and a
  newline, and syncs once the flush interval has passed. Each rotation closes
  the old file, hands its path to the handler registered with `on_rotate`,
  advances the factory and opens a new file.
- **The layered log files** stack up as follows:
  - a plain file opened in append mode;
  - gzip writers over it;
  - a synchronizing wrapper outermost.

  `LogFileFactory.create` fixes that order.

The model is in six modules, one per file:

| file | module | what it holds |
|---|---|---|
| `common.dfy` | `Common` | `Option` |
| `naming.dfy` | `Naming` | templates and their rendering, `'%03d'`, `File.join` |
| `part_recovery.dfy` | `PartRecovery` | `starting_part`: glob, regex, max + 1, and the code as written (see Findings) |
| `path_factory.dfy` | `Paths` | class `PathFactory` and the builder |
| `temp_log_file.dfy` | `LogFiles` | classes `PlainLogFile`, `GzipLogFile` and `SynchronizedLogFile`, the `LogFile` chain, and `Create` |
| `log_rotate.dfy` | `Rotation` | class `LogRotate` |

The outside world is passed in as arguments:
- **`Env(host, date, uuid)`** is one call of `template_variables`: `Socket.gethostname`, `Time.now.strftime(date_pattern)` and `SecureRandom.uuid`. The date arrives already formatted.
- **The directory** is given as whether it exists plus the list of names it holds.
- **`now`** is the clock.
- **`existing`** is the bytes a path already held when it was opened in append mode.
- **`Readings`** bundles what one `rotate_log!` reads:
  - the two `template_variables` calls of `rotate_path!`;
  - the clock;
  - the bytes already at the new path.
- **The compressor** is an abstract `Codec` (an `encode`/`decode` pair). A gzip layer applies it to everything written through it when it is closed.

The handler passed to `on_rotate` is an identity. Its call, and the other visible steps of a rotation, are recorded in the ghost `trace` of `LogRotate`.

The tests in `log_rotate_spec.rb` call `write`, but the code defines `writeln(message=nil)`. The model follows the code.

## Model

| member | source | states |
|---|---|---|
| `Naming.BaseLayout` | lib/logstash/outputs/gcs/path_factory.rb:12-15 | the base template renders to `prefix`, then `_host` when hosts are included, then `_date` |
| `Naming.ExtensionLayout` | lib/logstash/outputs/gcs/path_factory.rb:17-20 | the suffix renders to the optional `.part<partf>`, the optional `.<uuid>`, `.log` and the optional `.gz`, in that order |
| `Naming.FileNameLayout` | lib/logstash/outputs/gcs/path_factory.rb:12-21 | the full template renders to the base rendering followed by the suffix rendering of the same variables |
| `Naming.ExtensionEndsInLog` | lib/logstash/outputs/gcs/path_factory.rb:19-20 | every file name ends in `.log`, or in `.log.gz` when gzipped |
| `Naming.NoOptionsName` | lib/logstash/outputs/gcs/path_factory.rb:50-55 | with every option off, the path is `dir/<prefix>_<date>.log` |
| `Naming.IdentityIgnoresPartAndUuid` | lib/logstash/outputs/gcs/path_factory.rb:85-91 | the base rendering does not depend on the part or the uuid |
| `Naming.RenderReadsNamedSlots` | lib/logstash/outputs/gcs/path_factory.rb:85-91 | `%` reads only the slots a template names: two snapshots that agree on them render alike |
| `Naming.RenderAppend` | lib/logstash/outputs/gcs/path_factory.rb:52 | rendering a concatenated template is concatenating the renderings |
| `Naming.Partf` | lib/logstash/outputs/gcs/path_factory.rb:80 | `'%03d' % n` is all digits, at least three long, reads back as n, and has no leading zero beyond the padding |
| `Naming.PartfExamples` | lib/logstash/outputs/gcs/path_factory.rb:80 | 0, 1, 92 and 1234 render as `000`, `001`, `092` and `1234` |
| `Naming.Join` | lib/logstash/outputs/gcs/path_factory.rb:53 | `File.join` puts the directory first, the name last, and exactly one `/` between them; the result is one character longer than the two parts unless the directory already ends in `/` |
| `PartRecovery.LastMarker` | lib/logstash/outputs/gcs/path_factory.rb:67 | the greedy `^.*` settles on the rightmost `.part<digit>`, and there is none when it finds none |
| `PartRecovery.LeadingDigits` | lib/logstash/outputs/gcs/path_factory.rb:67 | the greedy `\d+` takes the longest run of digits |
| `PartRecovery.PartNumber` | lib/logstash/outputs/gcs/path_factory.rb:67-69 | the match is nil exactly when the name has no `.part<digit>` |
| `PartRecovery.GlobMembers` | lib/logstash/outputs/gcs/path_factory.rb:66 | the glob keeps exactly the names that start with `<base>.part` |
| `PartRecovery.MatchedPartsMembers` | lib/logstash/outputs/gcs/path_factory.rb:66-70 | a part is collected exactly when some globbed name parses to it |
| `PartRecovery.MaxOf` | lib/logstash/outputs/gcs/path_factory.rb:72 | `max` is a member of the list and no smaller than any member |
| `PartRecovery.StartingPart` | lib/logstash/outputs/gcs/path_factory.rb:61-73 | 0 without a directory; otherwise above every part collected from the globbed names, and when positive one past a collected part |
| `PartRecovery.StartingPartBounds` | lib/logstash/outputs/gcs/path_factory.rb:61-73 | the start is 0 without a directory; otherwise it exceeds every parsed part of a `<base>.part…` name, and when positive it is one past such a part |
| `PartRecovery.ParseTagged` | lib/logstash/outputs/gcs/path_factory.rb:67-69 | `<base>.part<digits><tail>` parses back to the value of the digits when the tail starts with `.` and holds no `.p` |
| `PartRecovery.NoClobber` | lib/logstash/outputs/gcs/path_factory.rb:59-73 | a file the factory named with part n, under the same base, makes the recovered start exceed n |
| `PartRecovery.RecoversExample` | lib/logstash/outputs/gcs/path_factory.rb:61-73 | parts 009, 091 and 000 on disk give a start of 92 |
| `PartRecovery.Parsed` | lib/logstash/outputs/gcs/path_factory.rb:66-70 | `map` keeps one entry per globbed name: its part, or nil |
| `PartRecovery.Somes` | lib/logstash/outputs/gcs/path_factory.rb:72 | the integers of a list with nils are exactly its non-nil entries |
| `PartRecovery.MaxPlusOneAsWritten` | lib/logstash/outputs/gcs/path_factory.rb:72 | `any? ? max + 1 : 0` raises exactly when a nil sits next to an integer; otherwise the result exceeds every integer in the list, and when positive it is one past one of them |
| `PartRecovery.StartingPartAsWritten` | lib/logstash/outputs/gcs/path_factory.rb:61-73 | as written, the start is 0 without a directory and raises `TypeError` with a directory while the part number is nil |
| `PartRecovery.ExistingDirectoryRaises` | lib/logstash/outputs/gcs/path_factory.rb:27 | as written, building a factory over an existing directory raises |
| `PartRecovery.StrayNameRaises` | lib/logstash/outputs/gcs/path_factory.rb:66-72 | as written, a glob hit the regex misses, next to a real part file, makes `max` raise |
| `PartRecovery.StrayNameSkipped` | lib/logstash/outputs/gcs/path_factory.rb:66-72 | the corrected recovery skips that name and starts at 2 |
| `PartRecovery.MatchedPartsAreSomes` | lib/logstash/outputs/gcs/path_factory.rb:66-72 | the corrected list of parts is the as-written list with the nils dropped |
| `PartRecovery.CorrectionAgreesWhereNoRaise` | lib/logstash/outputs/gcs/path_factory.rb:61-73 | wherever the code as written does not raise, it recovers the same start as the corrected model |
| `Paths.PathFactory.constructor` | lib/logstash/outputs/gcs/path_factory.rb:9-29 | stores the settings, recovers the part from the base a reading renders to, and takes the first snapshot at that part |
| `Paths.PathFactory.TemplateVariables` | lib/logstash/outputs/gcs/path_factory.rb:75-83 | the snapshot carries the prefix and the reading, and its `partf` reads back as the current part |
| `Paths.PathFactory.NextBase` | lib/logstash/outputs/gcs/path_factory.rb:85-87 | the base a fresh reading renders to is `prefix[_host]_date` of that reading, whatever the part and the uuid |
| `Paths.PathFactory.CurrentBase` | lib/logstash/outputs/gcs/path_factory.rb:89-91 | the current base is `prefix[_host]_date` of the current snapshot |
| `Paths.PathFactory.ShouldRotate` | lib/logstash/outputs/gcs/path_factory.rb:43-47 | true exactly when the next base differs from the current one; with the host unchanged, exactly when the date changed |
| `Paths.BaseDecidedByDate` | lib/logstash/outputs/gcs/path_factory.rb:85-91 | two bases with the same prefix and host differ exactly when their dates differ |
| `Paths.PathFactory.CurrentPath` | lib/logstash/outputs/gcs/path_factory.rb:50-55 | the directory joined with the name rendered from the given snapshot, or from the current one; the name starts with that snapshot's base |
| `Paths.PathFactory.RotatePath` | lib/logstash/outputs/gcs/path_factory.rb:33-40 | the part becomes part + 1 if the base is unchanged, else 0; the snapshot is retaken; the result is the new current path |
| `Paths.RotationCatchesUp` | lib/logstash/outputs/gcs/path_factory.rb:33-47 | right after a rotation on a reading, that same reading asks for no rotation |
| `Paths.BuildPathFactory` | lib/logstash/outputs/gcs/path_factory.rb:110-112 | the builder yields a factory over exactly the collected settings, with the part recovered from the directory and the first snapshot taken at that part |
| `LogFiles.LayeringOrder` | lib/logstash/outputs/gcs/temp_log_file.rb:13-20 | the synchronized layer, when present, is outermost and alone; there is one gzip layer per gzip option |
| `LogFiles.Create` | lib/logstash/outputs/gcs/temp_log_file.rb:13-20 | a fresh open chain at the path, in the `create` order, with nothing written and the sync time set to now |
| `LogFiles.Compressed` | lib/logstash/outputs/gcs/temp_log_file.rb:14-16 | the plain file under zero, one or two gzip layers |
| `LogFiles.PlainLogFile.constructor` | lib/logstash/outputs/gcs/temp_log_file.rb:27-31 | opened in append mode, keeping the existing bytes; the sync time is now |
| `LogFiles.PlainLogFile.Write` | lib/logstash/outputs/gcs/temp_log_file.rb:33-35 | appends every argument in order; on a closed file the first argument fails with `IOError` |
| `LogFiles.PlainLogFile.FdWrite` | lib/logstash/outputs/gcs/temp_log_file.rb:62 | the gzip writer's writes to the descriptor append to it |
| `LogFiles.PlainLogFile.Fsync` | lib/logstash/outputs/gcs/temp_log_file.rb:37-40 | records the sync time; fails on a closed file |
| `LogFiles.PlainLogFile.Close` | lib/logstash/outputs/gcs/temp_log_file.rb:42-45 | closes the file and keeps the sync time; a second close fails |
| `LogFiles.PlainLogFile.FdClose` | lib/logstash/outputs/gcs/temp_log_file.rb:76-78 | the gzip writer's close closes the descriptor below |
| `LogFiles.PlainLogFile.Size` | lib/logstash/outputs/gcs/temp_log_file.rb:47-49 | the existing bytes plus the appended ones, open or closed |
| `LogFiles.PlainLogFile.TimeSinceSync` | lib/logstash/outputs/gcs/temp_log_file.rb:51-53 | the seconds from the last sync to now |
| `LogFiles.GzipLogFile.constructor` | lib/logstash/outputs/gcs/temp_log_file.rb:60-63 | a gzip writer over an open child that nothing was written to |
| `LogFiles.GzipLogFile.Write` | lib/logstash/outputs/gcs/temp_log_file.rb:65-67 | appends every argument to the writer in order; a closed writer fails |
| `LogFiles.GzipLogFile.FdWrite` | lib/logstash/outputs/gcs/temp_log_file.rb:62 | a second gzip layer's writes reach this writer |
| `LogFiles.GzipLogFile.Fsync` | lib/logstash/outputs/gcs/temp_log_file.rb:69-72 | flushes (a closed writer fails), then fsyncs the child, which records the time |
| `LogFiles.GzipLogFile.FdClose` | lib/logstash/outputs/gcs/temp_log_file.rb:76-78 | the writer emits the encoding of all it was given into the child and closes the child |
| `LogFiles.GzipLogFile.Close` | lib/logstash/outputs/gcs/temp_log_file.rb:74-79 | `fsync`, then the writer's close |
| `LogFiles.SynchronizedLogFile.constructor` | lib/logstash/outputs/gcs/temp_log_file.rb:89-92 | a lock around any valid child |
| `LogFiles.LogFile.Write` | lib/logstash/outputs/gcs/temp_log_file.rb:102-107 | through any chain, the arguments are appended in order; a closed chain fails with its outermost stream's error; the path, the sync time and, with gzip layers, the disk are unchanged |
| `LogFiles.LogFile.FdWrite` | lib/logstash/outputs/gcs/temp_log_file.rb:81-83 | the descriptor write forwarded down the chain |
| `LogFiles.LogFile.FdClose` | lib/logstash/outputs/gcs/temp_log_file.rb:81-83 | the descriptor close forwarded down the chain |
| `LogFiles.LogFile.Fsync` | lib/logstash/outputs/gcs/temp_log_file.rb:102-107 | through any chain, the plain file records the sync time; a closed chain fails; the contents are unchanged |
| `LogFiles.LogFile.Close` | lib/logstash/outputs/gcs/temp_log_file.rb:74-79 | closes the chain; a second close fails; the sync time moves to now only when a gzip layer synced |
| `LogFiles.LogFile.Path` | lib/logstash/outputs/gcs/temp_log_file.rb:98-100 | every layer answers with the path of the plain file at the bottom of the chain |
| `LogFiles.LogFile.Size` | lib/logstash/outputs/gcs/temp_log_file.rb:81-83 | every layer answers with the plain file's size on disk |
| `LogFiles.LogFile.TimeSinceSync` | lib/logstash/outputs/gcs/temp_log_file.rb:94-96 | every layer answers with now minus the plain file's last sync |
| `LogFiles.Wrapped` | lib/logstash/outputs/gcs/temp_log_file.rb:81-83 | a new gzip layer answers with its child's path, disk and sync time |
| `LogFiles.OpenDisk` | lib/logstash/outputs/gcs/temp_log_file.rb:29 | while open, the disk holds the existing bytes plus, without gzip layers, every byte written |
| `LogFiles.ClosedDisk` | lib/logstash/outputs/gcs/temp_log_file.rb:74-79 | once closed, the disk holds the existing bytes plus the n-fold encoding of what was written |
| `LogFiles.DecodeUndoesEncode` | lib/logstash/outputs/gcs/temp_log_file.rb:62 | n decoders undo n encoders |
| `LogFiles.ReadBack` | lib/logstash/outputs/gcs/temp_log_file.rb:74-79 | reading a closed chain's new bytes through one decoder per gzip layer gives back what was written |
| `Rotation.RotationOrder` | lib/logstash/outputs/gcs/log_rotate.rb:40-52 | close, then notify, then advance the path, then open; the handler hears exactly the old path, and only when a handler and an old file both exist |
| `Rotation.LogRotate.constructor` | lib/logstash/outputs/gcs/log_rotate.rb:9-19 | no callback; one path advance and one open, nothing closed; the factory's part follows `rotate_path!` and its snapshot is taken from the reading; a fresh file open at the factory's current path |
| `Rotation.LogRotate.ShouldRotate` | lib/logstash/outputs/gcs/log_rotate.rb:64-72 | true whenever the factory asks for a rotation; otherwise true exactly when a positive limit is reached by the size on disk; a limit of 0 or less never triggers |
| `Rotation.LogRotate.RotateLog` | lib/logstash/outputs/gcs/log_rotate.rb:40-52 | records the rotation steps in order; the old file, if any, ends closed, holding everything written through it; the part follows `rotate_path!`; a fresh untouched file is open at the new path |
| `Rotation.LogRotate.CloseFile` | lib/logstash/outputs/gcs/log_rotate.rb:42-45 | the old file is closed, holding everything written through it, and the handler (if any) is told its path |
| `Rotation.LogRotate.Reopen` | lib/logstash/outputs/gcs/log_rotate.rb:47-50 | advances the factory, then opens a new file at its current path |
| `Rotation.LogRotate.AdvancePath` | lib/logstash/outputs/gcs/log_rotate.rb:47 | the factory rotates as `rotate_path!` does |
| `Rotation.LogRotate.OpenFile` | lib/logstash/outputs/gcs/log_rotate.rb:49-50 | a new synchronized file, gzipped as configured, at the factory's current path |
| `Rotation.LogRotate.Writeln` | lib/logstash/outputs/gcs/log_rotate.rb:25-33 | rotates at most once and first, and then the old file is closed with all it was given, the factory's part and snapshot follow `rotate_path!`, and a different file is current over the bytes already at its path; otherwise leaves the file, the trace and the factory alone; the message and a newline go to the file current afterwards, and nil writes nothing; syncs exactly when the interval has passed |
| `Rotation.LogRotate.Append` | lib/logstash/outputs/gcs/log_rotate.rb:29-31 | the message and a newline are appended, then the file syncs exactly when the interval has passed; the bytes the file was opened over are kept |
| `Rotation.LogRotate.WriteLine` | lib/logstash/outputs/gcs/log_rotate.rb:29 | the message and `"\n"` are appended, or nothing for nil |
| `Rotation.LogRotate.SyncIfDue` | lib/logstash/outputs/gcs/log_rotate.rb:31 | fsyncs exactly when `time_since_sync` has reached the flush interval |
| `Rotation.LogRotate.OnRotate` | lib/logstash/outputs/gcs/log_rotate.rb:56-60 | the new handler replaces the old one; nothing else changes |

## Left out

- The date pattern: `strftime` is not modelled. The formatted date arrives as part of each `Env` reading.
- `Dir.glob`, `File.directory?` and `File.stat` are not real calls. The directory is a list of names plus an existence flag, and a file's bytes are modelled directly.
- The glob's wildcard syntax, and names that contain a `/`: the glob is a prefix test on names.
- `Naming.Join` covers a file name that does not itself start with `/`. `File.join`'s collapsing of several separators is not modelled.
- `Naming.Partf` covers non-negative parts only. The counter never goes below 0.
- `Rotation.LogRotate.RotateLog` reads the clock once. The old file's close and the new file's open both use `readings.now`, whereas the source reads `Time.now` in `close!` and again in `create`.
- Time is an integer. `Time.now` is a float in the source.
- `Rotation.LogRotate.Writeln` reads the clock once per call. Both the flush check and the recorded sync time use that one `now`, whereas the source reads `Time.now` in each.
- `LogFiles.GzipLogFile.Fsync` flushes nothing to the layer below. The bytes a gzip writer emits reach the disk only when it is closed. So before a close, a gzip file's size is what it held when it was opened, and the size trigger does not see compressed output until then.
- `LogFiles.IoError` keeps the closed gzip writer's failure (`Zlib::GzipFile::Error`) apart from a closed file's `IOError`. The tests at spec/outputs/gcs/temp_log_file_spec.rb:31-52 expect `IOError` from every layer; which class a closed gzip writer raises depends on the Ruby runtime and is not decided here.
- I/O failures other than using a closed stream: `File.new` failing, a full disk, a failing `write` or `fsync`. Every operation on an open stream succeeds.
- `PartRecovery.PartNumber` applies the regex to a name alone. The source applies it to the whole globbed path, directory included, so a directory such as `/var/buf.part1` holding `pre_date.partial.log` yields part 1 there and no part here.
- `LogFiles.PlainLogFile.Write` has no user-space buffering. Bytes written reach the disk at once.
- Locks (`Mutex`, `ReentrantReadWriteLock`) and concurrency: every method is one atomic step.
- The handler's own effects: its call is recorded in the ghost trace only.
- `LogFiles.GzipLogFile.constructor` requires an open child that nothing was written to. That is the only way `create` builds one.
- Ruby's `method_missing` dispatch: each layer's operations are spelled out instead.
- The builder's `set_*` setters and the nil defaults of unset settings: `Paths.PathSettings` holds all the settings.
- `KeyError` and other failures of `%` on a malformed template: the templates here are always well formed.
- `lib/logstash/outputs/gcs/client.rb`, `worker_pool.rb`, `schedule.rb` and `lib/logstash/outputs/google_cloud_storage.rb` are not part of this model. They cover network upload, thread pools, timers and plugin configuration.

## Findings

| source | as written | input that shows it | evidently intended | confidence | as-written member | corrected member |
|---|---|---|---|---|---|---|
| lib/logstash/outputs/gcs/path_factory.rb:27 | `initialize` calls `starting_part` before `@part_number` is set. When the directory exists, `next_base` calls `template_variables`, which formats `'%03d' % nil` and raises `TypeError`. | any existing directory | The base rendering has no part slot, so the part should not matter: recover max + 1 from the files of the current base | not executed; medium: MRI raises `TypeError` for `'%03d' % nil`, but the tests at spec/outputs/gcs/path_factory_spec.rb:66-75 and spec/outputs/gcs/log_rotate_spec.rb:7-17 expect construction over an existing directory to succeed, so the outcome depends on the Ruby runtime (the plugin runs on JRuby) | `PartRecovery.ExistingDirectoryRaises` | `PartRecovery.StartingPartBounds` |
| lib/logstash/outputs/gcs/path_factory.rb:66-72 | `next if match.nil?` inside `map` leaves a nil in the list for a globbed name the regex misses. `max` then compares nil with an Integer and raises `ArgumentError`. | base `pre_date`, names `pre_date.part001.log` and `pre_date.partial.log` | Names without a part number are skipped, giving a start of 2 | not executed; high | `PartRecovery.StrayNameRaises` | `PartRecovery.StrayNameSkipped` |

The rest of the model uses the corrected recovery, `PartRecovery.StartingPart`. `PartRecovery.CorrectionAgreesWhereNoRaise` shows that it agrees with the code as written wherever the code does not raise.
