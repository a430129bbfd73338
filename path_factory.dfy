/**
 * `PathFactory`: names the temporary log files. It keeps the current
 * template-variable snapshot and the part counter, decides whether the base
 * identity (prefix, host, date) has moved on, and on rotation bumps or
 * resets the counter.
 *
 * Every call of `template_variables` reads the host name, the clock and a
 * fresh uuid; here each such reading is an `Env` argument. The directory
 * listing `starting_part` globs over is a sequence of names plus whether the
 * directory exists.
 */
module Paths {
  import opened Common
  import opened Naming
  import opened PartRecovery

  /** Two base renderings of the same prefix and host differ exactly when the dates differ. */
  lemma BaseDecidedByDate(includeHost: bool, v: Vars, w: Vars)
    requires v.prefix == w.prefix
    ensures !includeHost || v.host == w.host ==> (BaseText(includeHost, v) == BaseText(includeHost, w) <==> v.date == w.date)
  {
    if includeHost && v.host != w.host {
      return;
    }
    var a := v.prefix + (if includeHost then "_" + v.host else "") + "_";
    assert BaseText(includeHost, v) == a + v.date;
    assert BaseText(includeHost, w) == a + w.date;
    if a + v.date == a + w.date {
      assert (a + v.date)[|a|..] == v.date;
      assert (a + w.date)[|a|..] == w.date;
    }
  }

  class PathFactory {
    const directory: string
    const prefix: string
    const includeHost: bool
    const includePart: bool
    const includeUuid: bool
    const isGzipped: bool
    /** `prefix[_host]_date`, the template of the rotation identity. */
    const basePattern: Pattern := BasePattern(includeHost)
    /** The template of the whole file name. */
    const pattern: Pattern := FullPattern(includeHost, includePart, includeUuid, isGzipped)

    var partNumber: nat
    /** The snapshot the current file is named from. */
    var current: Vars

    ghost predicate Valid()
      reads this
    {
      current.prefix == prefix
    }

    /**
     * Builds both templates, recovers the starting part from the files already
     * in the directory (`probe` is the reading `next_base` takes there) and
     * takes the first snapshot from `sample`.
     */
    constructor(directory: string, prefix: string, includeHost: bool, includePart: bool, includeUuid: bool,
                isGzipped: bool, directoryExists: bool, names: seq<string>, probe: Env, sample: Env)
      ensures Valid()
      ensures this.directory == directory && this.prefix == prefix && this.includeHost == includeHost
      ensures this.includePart == includePart && this.includeUuid == includeUuid && this.isGzipped == isGzipped
      ensures partNumber == StartingPart(directoryExists, names, ReadingBase(includeHost, prefix, probe))
      ensures current == Vars(prefix, sample.host, sample.date, Partf(partNumber), sample.uuid)
    {
      this.directory := directory;
      this.prefix := prefix;
      this.includeHost := includeHost;
      this.includePart := includePart;
      this.includeUuid := includeUuid;
      this.isGzipped := isGzipped;
      var part := StartingPart(directoryExists, names, ReadingBase(includeHost, prefix, probe));
      partNumber := part;
      current := Vars(prefix, sample.host, sample.date, Partf(part), sample.uuid);
    }

    /**
     * `template_variables`: the snapshot a reading of the environment gives
     * at the current part number. Its `partf` reads back as that number.
     */
    function TemplateVariables(env: Env): (v: Vars)
      reads this
      ensures v.prefix == prefix && v.host == env.host && v.date == env.date && v.uuid == env.uuid
      ensures AllDigits(v.partf) && |v.partf| >= 3 && DigitsValue(v.partf) == partNumber
    {
      Vars(prefix, env.host, env.date, Partf(partNumber), env.uuid)
    }

    /** `next_base`: the base a fresh reading renders to. */
    function NextBase(env: Env): (r: string)
      reads this
      ensures r == ReadingBase(includeHost, prefix, env)
    {
      BaseLayout(includeHost, TemplateVariables(env));
      Render(basePattern, TemplateVariables(env))
    }

    /** `current_base`: the base of the current snapshot. */
    function CurrentBase(): (r: string)
      reads this
      ensures r == BaseText(includeHost, current)
    {
      BaseLayout(includeHost, current);
      Render(basePattern, current)
    }

    /**
     * `should_rotate?`: the base has moved on. With the host unchanged (or not
     * part of the name) that is exactly a change of date; with neither
     * changed it never holds. Being a function it changes nothing.
     */
    function ShouldRotate(env: Env): (r: bool)
      requires Valid()
      reads this
      ensures r <==> NextBase(env) != CurrentBase()
      ensures !includeHost || env.host == current.host ==> (r <==> env.date != current.date)
    {
      var v := TemplateVariables(env);
      BaseLayout(includeHost, v);
      BaseLayout(includeHost, current);
      BaseDecidedByDate(includeHost, v, current);
      NextBase(env) != CurrentBase()
    }

    /**
     * `current_path(vars)`: the directory joined with the file name rendered
     * from `vars`, or from the current snapshot when none is given. The name
     * starts with the base rendering of the same variables and carries the
     * optional part, the optional uuid, `.log` and the optional `.gz`.
     */
    function CurrentPath(vars: Option<Vars>): (p: string)
      requires Valid()
      reads this
      ensures var v := vars.GetOr(current);
              var name := BaseText(includeHost, v) + ExtensionText(includePart, includeUuid, isGzipped, v);
              p == Join(directory, name)
              && HasPrefix(name, Render(basePattern, v))
    {
      var v := vars.GetOr(current);
      FileNameLayout(includeHost, includePart, includeUuid, isGzipped, v);
      BaseLayout(includeHost, v);
      PrefixOfConcat(BaseText(includeHost, v), ExtensionText(includePart, includeUuid, isGzipped, v));
      Join(directory, Render(pattern, v))
    }

    /**
     * `rotate_path!`: the part goes up by one while the base stays the same
     * and restarts at 0 when it has moved on; the snapshot is then retaken
     * (`probe` is the reading `next_base` takes, `sample` the one the new
     * snapshot takes) and the new current path is returned.
     */
    method RotatePath(probe: Env, sample: Env) returns (path: string)
      requires Valid()
      modifies this
      ensures Valid()
      ensures partNumber == if old(NextBase(probe)) == old(CurrentBase()) then old(partNumber) + 1 else 0
      ensures current == TemplateVariables(sample)
      ensures path == CurrentPath(None)
    {
      if NextBase(probe) == CurrentBase() {
        partNumber := partNumber + 1;
      } else {
        partNumber := 0;
      }
      current := TemplateVariables(sample);
      path := CurrentPath(None);
    }
  }

  /** Once rotated on a reading, the factory does not ask to rotate on that same reading again. */
  lemma RotationCatchesUp(f: PathFactory, env: Env)
    requires f.Valid() && f.current == f.TemplateVariables(env)
    ensures !f.ShouldRotate(env)
  {
  }

  /** The settings `PathFactoryBuilder` collects through its setters. */
  datatype PathSettings = PathSettings(
    directory: string, prefix: string, includeHost: bool,
    includePart: bool, includeUuid: bool, isGzipped: bool)

  /** `build_path_factory`: a factory over exactly the collected settings. */
  method BuildPathFactory(settings: PathSettings, directoryExists: bool, names: seq<string>, probe: Env, sample: Env)
    returns (f: PathFactory)
    ensures fresh(f) && f.Valid()
    ensures f.directory == settings.directory && f.prefix == settings.prefix && f.includeHost == settings.includeHost
    ensures f.includePart == settings.includePart && f.includeUuid == settings.includeUuid
    ensures f.isGzipped == settings.isGzipped
    ensures f.partNumber == StartingPart(directoryExists, names, ReadingBase(settings.includeHost, settings.prefix, probe))
    ensures f.current == Vars(settings.prefix, sample.host, sample.date, Partf(f.partNumber), sample.uuid)
  {
    f := new PathFactory(settings.directory, settings.prefix, settings.includeHost, settings.includePart,
                         settings.includeUuid, settings.isGzipped, directoryExists, names, probe, sample);
  }
}
