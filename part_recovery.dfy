/**
 * Recovery of the starting part number from the files already in the
 * buffer directory (`PathFactory#starting_part`): the part of every file
 * that shares the current base is parsed back out of its name, and the
 * factory starts at one past the largest, so that it never reuses a name
 * left behind by an earlier run.
 *
 * The directory is given as the list of names it holds (and whether it
 * exists); the glob is a prefix filter on those names.
 */
module PartRecovery {
  import opened Common
  import opened Naming

  predicate HasPrefix(s: string, p: string) {
    |p| <= |s| && s[..|p|] == p
  }

  /** `.part` followed by a digit starts at index i of s. */
  predicate MarkerAt(s: string, i: int) {
    0 <= i && i + 6 <= |s|
    && s[i] == '.' && s[i + 1] == 'p' && s[i + 2] == 'a' && s[i + 3] == 'r' && s[i + 4] == 't'
    && IsDigit(s[i + 5])
  }

  /**
   * The rightmost marker that starts before k. The greedy `^.*` in front of
   * `\.part(\d+)` makes the regex settle on the rightmost one.
   */
  function LastMarker(s: string, k: nat): (r: Option<nat>)
    requires k <= |s|
    ensures r.Some? ==> r.value < k && MarkerAt(s, r.value)
    ensures r.Some? ==> forall j :: r.value < j < k ==> !MarkerAt(s, j)
    ensures r.None? ==> forall j :: 0 <= j < k ==> !MarkerAt(s, j)
  {
    if k == 0 then None
    else if MarkerAt(s, k - 1) then Some(k - 1)
    else LastMarker(s, k - 1)
  }

  /** The longest run of digits that s starts with (what greedy `\d+` captures). */
  function LeadingDigits(s: string): (r: string)
    ensures |r| <= |s| && r == s[..|r|] && AllDigits(r)
    ensures |r| == |s| || !IsDigit(s[|r|])
  {
    if s != [] && IsDigit(s[0]) then [s[0]] + LeadingDigits(s[1..]) else []
  }

  /**
   * `/^.*\.part(?<part_num>\d+).*$/.match(name)` followed by
   * `match[:part_num].to_i`; None where the match is nil.
   */
  function PartNumber(name: string): (r: Option<nat>)
    ensures r.None? <==> forall j :: 0 <= j < |name| ==> !MarkerAt(name, j)
  {
    match LastMarker(name, |name|)
    case None => None
    case Some(i) =>
      var digits := LeadingDigits(name[i + 5..]);
      Some(DigitsValue(digits))
  }

  /** `Dir.glob(File.join(directory, base) + '.part*')`, over the directory's names. */
  function Glob(names: seq<string>, base: string): seq<string> {
    if names == [] then []
    else (if HasPrefix(names[0], base + ".part") then [names[0]] else []) + Glob(names[1..], base)
  }

  /** The glob keeps exactly the names that start with the base and `.part`. */
  lemma {:induction false} GlobMembers(names: seq<string>, base: string)
    ensures forall n :: n in Glob(names, base) <==> n in names && HasPrefix(n, base + ".part")
  {
    if names != [] {
      GlobMembers(names[1..], base);
      assert forall n :: n in names <==> n == names[0] || n in names[1..];
    }
  }

  /** The parts of the names the regex matches, non-matching names skipped. */
  function MatchedParts(names: seq<string>): seq<nat> {
    if names == [] then []
    else (match PartNumber(names[0]) case Some(n) => [n] case None => []) + MatchedParts(names[1..])
  }

  /** A part is matched exactly when some name parses to it. */
  lemma {:induction false} MatchedPartsMembers(names: seq<string>)
    ensures forall n :: n in MatchedParts(names) <==> exists name :: name in names && PartNumber(name) == Some(n)
  {
    if names != [] {
      MatchedPartsMembers(names[1..]);
      assert forall name :: name in names <==> name == names[0] || name in names[1..];
    }
  }

  function MaxOf(s: seq<nat>): (m: nat)
    requires |s| > 0
    ensures m in s && forall x :: x in s ==> x <= m
  {
    if |s| == 1 then s[0]
    else
      var m := MaxOf(s[1..]);
      assert forall x :: x in s ==> x == s[0] || x in s[1..];
      if s[0] >= m then s[0] else m
  }

  /**
   * The starting part: 0 when the directory is missing or holds no part file
   * of this base; otherwise one past the largest part found.
   */
  function StartingPart(directoryExists: bool, names: seq<string>, base: string): (r: nat)
    ensures !directoryExists ==> r == 0
    ensures directoryExists ==> forall n :: n in MatchedParts(Glob(names, base)) ==> n < r
    ensures r > 0 ==> r - 1 in MatchedParts(Glob(names, base))
  {
    if !directoryExists then 0
    else
      var parts := MatchedParts(Glob(names, base));
      if |parts| == 0 then 0 else MaxOf(parts) + 1
  }

  /**
   * With no directory the part starts at 0. Otherwise it is above the number
   * of every listed `<base>.part…` name the regex reads, and when above 0 it
   * is one more than the number of such a name: the largest.
   */
  lemma StartingPartBounds(directoryExists: bool, names: seq<string>, base: string)
    ensures var r := StartingPart(directoryExists, names, base);
            && (!directoryExists ==> r == 0)
            && (directoryExists ==>
                  forall name :: name in names && HasPrefix(name, base + ".part") && PartNumber(name).Some?
                    ==> PartNumber(name).value < r)
            && (directoryExists && r > 0 ==>
                  exists name :: name in names && HasPrefix(name, base + ".part") && PartNumber(name) == Some(r - 1))
  {
    if directoryExists {
      var r := StartingPart(directoryExists, names, base);
      var globbed := Glob(names, base);
      GlobMembers(names, base);
      MatchedPartsMembers(globbed);
      forall name | name in names && HasPrefix(name, base + ".part") && PartNumber(name).Some?
        ensures PartNumber(name).value < r
      {
        assert name in globbed;
        assert PartNumber(name).value in MatchedParts(globbed);
      }
      if r > 0 {
        assert r - 1 in MatchedParts(globbed);
        var name :| name in globbed && PartNumber(name) == Some(r - 1);
        assert name in names && HasPrefix(name, base + ".part");
      }
    }
  }

  // ---------------------------------------------------------------------------
  // Reading back the names the factory writes.

  /** No `.` in t is followed by `p`, so no marker can start inside t. */
  predicate NoDotP(t: string) {
    forall i :: 0 <= i < |t| - 1 && t[i] == '.' ==> t[i + 1] != 'p'
  }

  lemma NoDotPAppend(a: string, b: string)
    requires NoDotP(a) && NoDotP(b)
    requires a == [] || b == [] || a[|a| - 1] != '.' || b[0] != 'p'
    ensures NoDotP(a + b)
  {
    var s := a + b;
    forall i | 0 <= i < |s| - 1 && s[i] == '.'
      ensures s[i + 1] != 'p'
    {
      if i < |a| - 1 {
        assert s[i] == a[i] && s[i + 1] == a[i + 1];
      } else if i == |a| - 1 {
        assert s[i] == a[|a| - 1] && s[i + 1] == b[0];
      } else {
        assert s[i] == b[i - |a|] && s[i + 1] == b[i - |a| + 1];
      }
    }
  }

  /**
   * A name made of any base, `.part`, a run of digits and a tail that starts
   * with `.` and holds no `.p`, parses back to the value of those digits.
   */
  lemma ParseTagged(base: string, digits: string, rest: string)
    requires |digits| > 0 && AllDigits(digits)
    requires rest == [] || (rest[0] == '.' && NoDotP(rest))
    ensures PartNumber(base + ".part" + digits + rest) == Some(DigitsValue(digits))
  {
    var s := base + ".part" + digits + rest;
    MarkerAfterBase(base, digits, rest);
    NoMarkerAfterTag(base, digits, rest);
    LastMarkerIs(s, |base|);
    TailAfterMarker(base, digits, rest);
    LeadingDigitsOf(digits, rest);
  }

  lemma TailAfterMarker(base: string, digits: string, rest: string)
    ensures (base + ".part" + digits + rest)[|base| + 5..] == digits + rest
  {
    var s := base + ".part" + digits + rest;
    assert s == base + (".part" + (digits + rest));
  }

  lemma MarkerAfterBase(base: string, digits: string, rest: string)
    requires |digits| > 0 && AllDigits(digits)
    ensures MarkerAt(base + ".part" + digits + rest, |base|)
  {
    var s := base + ".part" + digits + rest;
    var i0 := |base|;
    assert s[i0] == '.' && s[i0 + 1] == 'p' && s[i0 + 2] == 'a' && s[i0 + 3] == 'r' && s[i0 + 4] == 't';
    assert s[i0 + 5] == digits[0];
  }

  lemma NoMarkerAfterTag(base: string, digits: string, rest: string)
    requires AllDigits(digits)
    requires rest == [] || (rest[0] == '.' && NoDotP(rest))
    ensures forall j :: |base| < j < |base + ".part" + digits + rest| ==> !MarkerAt(base + ".part" + digits + rest, j)
  {
    var s := base + ".part" + digits + rest;
    var i0 := |base|;
    forall j | i0 < j < |s|
      ensures !MarkerAt(s, j)
    {
      if j + 6 <= |s| {
        if j < i0 + 5 {
          assert s[j] == ".part"[j - i0];
        } else if j < i0 + 5 + |digits| {
          assert s[j] == digits[j - i0 - 5];
        } else {
          var t := j - (i0 + 5 + |digits|);
          assert s[j] == rest[t] && s[j + 1] == rest[t + 1];
        }
      }
    }
  }

  lemma LastMarkerIs(s: string, i: nat)
    requires MarkerAt(s, i)
    requires forall j :: i < j < |s| ==> !MarkerAt(s, j)
    ensures LastMarker(s, |s|) == Some(i)
  {
  }

  lemma {:induction false} LeadingDigitsOf(digits: string, rest: string)
    requires AllDigits(digits)
    requires rest == [] || !IsDigit(rest[0])
    ensures LeadingDigits(digits + rest) == digits
  {
    if digits == [] {
      assert digits + rest == rest;
    } else {
      assert (digits + rest)[0] == digits[0];
      assert (digits + rest)[1..] == digits[1..] + rest;
      LeadingDigitsOf(digits[1..], rest);
      assert digits == [digits[0]] + digits[1..];
    }
  }

  /** Characters a uuid from SecureRandom.uuid is made of. */
  predicate IsUuidText(u: string) {
    forall i :: 0 <= i < |u| ==> IsDigit(u[i]) || 'a' <= u[i] <= 'f' || u[i] == '-'
  }

  lemma UuidSuffixNoDotP(u: string)
    requires IsUuidText(u)
    ensures NoDotP("." + u)
  {
    var t := "." + u;
    forall i | 0 < i < |t|
      ensures t[i] != '.'
    {
      assert t[i] == u[i - 1];
    }
    if |u| > 0 {
      assert t[1] == u[0];
    }
  }

  lemma PrefixOfConcat(a: string, b: string)
    ensures HasPrefix(a + b, a)
  {
    assert (a + b)[..|a|] == a;
  }

  /** What follows the part digits in a name the factory writes. */
  function SuffixText(includeUuid: bool, isGzipped: bool, v: Vars): string {
    (if includeUuid then "." + v.uuid else "") + ".log" + (if isGzipped then ".gz" else "")
  }

  lemma SuffixReadsBack(includeUuid: bool, isGzipped: bool, v: Vars)
    requires includeUuid ==> IsUuidText(v.uuid)
    ensures var t := SuffixText(includeUuid, isGzipped, v); t != [] && t[0] == '.' && NoDotP(t)
  {
    var uuidPart := if includeUuid then "." + v.uuid else "";
    var gzPart := if isGzipped then ".gz" else "";
    assert NoDotP(".log") && NoDotP(".gz") && NoDotP("");
    if includeUuid {
      UuidSuffixNoDotP(v.uuid);
    }
    NoDotPAppend(uuidPart, ".log");
    NoDotPAppend(uuidPart + ".log", gzPart);
    assert (uuidPart + ".log" + gzPart)[0] == '.';
  }

  lemma TaggedLayout(includeHost: bool, includeUuid: bool, isGzipped: bool, v: Vars)
    ensures Render(FullPattern(includeHost, true, includeUuid, isGzipped), v)
            == BaseText(includeHost, v) + ".part" + v.partf + SuffixText(includeUuid, isGzipped, v)
  {
    FileNameLayout(includeHost, true, includeUuid, isGzipped, v);
    var uuidPart := if includeUuid then "." + v.uuid else "";
    var gzPart := if isGzipped then ".gz" else "";
    Regroup(BaseText(includeHost, v), ".part", v.partf, uuidPart, ".log", gzPart);
  }

  /**
   * A file the factory named with part n (same base, part counter on, a real
   * uuid when uuids are on) makes the recovered starting part exceed n: a new
   * run never reuses that name's part.
   */
  lemma NoClobber(includeHost: bool, includeUuid: bool, isGzipped: bool, v: Vars, n: nat, names: seq<string>)
    requires v.partf == Partf(n)
    requires includeUuid ==> IsUuidText(v.uuid)
    requires Render(FullPattern(includeHost, true, includeUuid, isGzipped), v) in names
    ensures StartingPart(true, names, Render(BasePattern(includeHost), v)) > n
  {
    var name := Render(FullPattern(includeHost, true, includeUuid, isGzipped), v);
    var base := BaseText(includeHost, v);
    TaggedLayout(includeHost, includeUuid, isGzipped, v);
    TaggedNameParses(includeHost, includeUuid, isGzipped, v, n, name);
    TaggedNameGlobbed(base, Partf(n), SuffixText(includeUuid, isGzipped, v), name);
    BaseLayout(includeHost, v);
    FoundPartBelowStart(names, base, name, n);
  }

  lemma TaggedNameParses(includeHost: bool, includeUuid: bool, isGzipped: bool, v: Vars, n: nat, name: string)
    requires includeUuid ==> IsUuidText(v.uuid)
    requires name == BaseText(includeHost, v) + ".part" + Partf(n) + SuffixText(includeUuid, isGzipped, v)
    ensures PartNumber(name) == Some(n)
  {
    SuffixReadsBack(includeUuid, isGzipped, v);
    ParseTagged(BaseText(includeHost, v), Partf(n), SuffixText(includeUuid, isGzipped, v));
  }

  lemma TaggedNameGlobbed(base: string, digits: string, rest: string, name: string)
    requires name == base + ".part" + digits + rest
    ensures HasPrefix(name, base + ".part")
  {
    assert name == (base + ".part") + (digits + rest);
    PrefixOfConcat(base + ".part", digits + rest);
  }

  /** A part parsed from a globbed name lies below the recovered start. */
  lemma FoundPartBelowStart(names: seq<string>, base: string, name: string, n: nat)
    requires name in names && HasPrefix(name, base + ".part") && PartNumber(name) == Some(n)
    ensures StartingPart(true, names, base) > n
  {
    StartingPartBounds(true, names, base);
  }

  /** A gzipped part file of the given base, as the recovery test lays them out. */
  function PartFile(base: string, digits: string): string {
    base + ".part" + digits + ".log.gz"
  }

  /** The example of the recovery test: parts 009, 091 and 000 on disk give 92. */
  lemma RecoversExample()
    ensures StartingPart(true, [PartFile("pre_date", "009"), PartFile("pre_date", "091"), PartFile("pre_date", "000")],
                         "pre_date") == 92
  {
    RecoversExampleFor("pre_date");
  }

  lemma RecoversExampleFor(base: string)
    ensures StartingPart(true, [PartFile(base, "009"), PartFile(base, "091"), PartFile(base, "000")], base) == 92
  {
    var names := [PartFile(base, "009"), PartFile(base, "091"), PartFile(base, "000")];
    var parts := [9, 91, 0];
    forall i | 0 <= i < |names|
      ensures HasPrefix(names[i], base + ".part") && PartNumber(names[i]) == Some(parts[i])
    {
      var digits := if i == 0 then "009" else if i == 1 then "091" else "000";
      assert names[i] == PartFile(base, digits);
      ThreeDigits(digits);
      PartFileReadsBack(base, digits);
    }
    TaggedNamesListed(names, base, parts);
    assert MaxOf(parts) == 91 by {
      assert parts[1..] == [91, 0];
      assert [91, 0][1..] == [0];
    }
  }

  /** Names that all carry the glob prefix and a part are kept by the glob and parsed in order. */
  lemma {:induction false} TaggedNamesListed(names: seq<string>, base: string, parts: seq<nat>)
    requires |names| == |parts|
    requires forall i :: 0 <= i < |names| ==> HasPrefix(names[i], base + ".part") && PartNumber(names[i]) == Some(parts[i])
    ensures Glob(names, base) == names && MatchedParts(names) == parts
  {
    if names != [] {
      TaggedNamesListed(names[1..], base, parts[1..]);
      assert names == [names[0]] + names[1..];
      assert parts == [parts[0]] + parts[1..];
    }
  }

  lemma ThreeDigits(s: string)
    requires |s| == 3 && AllDigits(s)
    ensures DigitsValue(s) == DigitValue(s[0]) * 100 + DigitValue(s[1]) * 10 + DigitValue(s[2])
  {
    var a, b := s[..1], s[..2];
    assert b[..1] == a && a[..0] == [];
    assert DigitsValue(a) == DigitValue(s[0]);
    assert DigitsValue(b) == DigitsValue(a) * 10 + DigitValue(s[1]);
    assert s[..|s| - 1] == b;
  }

  lemma PartFileReadsBack(base: string, digits: string)
    requires |digits| > 0 && AllDigits(digits)
    ensures PartNumber(PartFile(base, digits)) == Some(DigitsValue(digits)) && HasPrefix(PartFile(base, digits), base + ".part")
  {
    assert NoDotP(".log.gz");
    ParseTagged(base, digits, ".log.gz");
    TaggedNameGlobbed(base, digits, ".log.gz", PartFile(base, digits));
  }

  // ---------------------------------------------------------------------------
  // `starting_part` as the source writes it (see README, Findings).

  datatype RubyError = TypeError | ArgumentError

  datatype Recovered = Ok(part: nat) | Raised(error: RubyError)

  /** `map`: the regex result for every globbed name, nil kept where it does not match. */
  function Parsed(names: seq<string>): (r: seq<Option<nat>>)
    ensures |r| == |names| && forall i :: 0 <= i < |names| ==> r[i] == PartNumber(names[i])
  {
    if names == [] then [] else [PartNumber(names[0])] + Parsed(names[1..])
  }

  /** The integers of a list that may hold nils, in order. */
  function Somes(parts: seq<Option<nat>>): (r: seq<nat>)
    ensures forall n :: n in r <==> Some(n) in parts
  {
    if parts == [] then []
    else
      var r := (match parts[0] case Some(n) => [n] case None => []) + Somes(parts[1..]);
      assert forall p :: p in parts <==> p == parts[0] || p in parts[1..];
      r
  }

  /**
   * `part_numbers.any? ? part_numbers.max + 1 : 0` over the list `map` builds:
   * `any?` looks past the nils, `max` raises when it has to compare a nil with
   * an Integer.
   */
  function MaxPlusOneAsWritten(parts: seq<Option<nat>>): (r: Recovered)
    ensures r.Raised? <==> None in parts && Somes(parts) != []
    ensures r.Ok? ==> forall n :: n in Somes(parts) ==> n < r.part
    ensures r.Ok? && r.part > 0 ==> r.part - 1 in Somes(parts)
  {
    if Somes(parts) == [] then Ok(0)
    else if None in parts then Raised(ArgumentError)
    else Ok(MaxOf(Somes(parts)) + 1)
  }

  /**
   * `starting_part` as `initialize` runs it: before `@part_number` is set, so
   * `template_variables` (through `next_base`) formats `'%03d' % nil`.
   * The part number it sees is an explicit argument here.
   */
  function StartingPartAsWritten(directoryExists: bool, partNumber: Option<nat>, includeHost: bool,
                                 prefix: string, probe: Env, names: seq<string>): (r: Recovered)
    ensures directoryExists && partNumber.None? ==> r == Raised(TypeError)
    ensures !directoryExists ==> r == Ok(0)
  {
    if !directoryExists then Ok(0)
    else if partNumber.None? then Raised(TypeError)
    else
      var base := Render(BasePattern(includeHost), Vars(prefix, probe.host, probe.date, Partf(partNumber.value), probe.uuid));
      MaxPlusOneAsWritten(Parsed(Glob(names, base)))
  }

  /** As written, constructing a factory over an existing directory raises. */
  lemma ExistingDirectoryRaises(includeHost: bool, prefix: string, probe: Env, names: seq<string>)
    ensures StartingPartAsWritten(true, None, includeHost, prefix, probe, names) == Raised(TypeError)
  {
  }

  /** The listing of the stray-name example: one real part file and one glob hit the regex misses. */
  function StrayListing(): seq<string> {
    ["pre_date" + ".part" + "001" + ".log", "pre_date.partial.log"]
  }

  /**
   * Even with the part number set, whatever it is, a glob hit the regex does not match,
   * next to a real part file, makes `max` raise.
   */
  lemma StrayNameRaises(n: nat)
    ensures StartingPartAsWritten(true, Some(n), false, "pre", Env("h", "date", "u"), StrayListing()) == Raised(ArgumentError)
  {
    var v := Vars("pre", "h", "date", Partf(n), "u");
    assert Render(BasePattern(false), v) == "pre_date" by {
      BaseLayout(false, v);
    }
    StrayListingParsed();
    assert Somes([Some(1), None]) == [1] by {
      assert [Some(1), None][1..] == [None];
    }
  }

  /** The corrected recovery skips the stray name and starts after the real part. */
  lemma StrayNameSkipped()
    ensures StartingPart(true, StrayListing(), "pre_date") == 2
  {
    StrayListingParsed();
    assert MaxOf([1]) == 1;
  }

  lemma StrayListingParsed()
    ensures Glob(StrayListing(), "pre_date") == StrayListing()
    ensures Parsed(StrayListing()) == [Some(1), None]
    ensures MatchedParts(StrayListing()) == [1]
  {
    var names := StrayListing();
    var good, stray := names[0], names[1];
    assert PartNumber(good) == Some(1) && HasPrefix(good, "pre_date" + ".part") by {
      assert NoDotP(".log");
      ThreeDigits("001");
      ParseTagged("pre_date", "001", ".log");
      TaggedNameGlobbed("pre_date", "001", ".log", good);
    }
    StrayHasNoPart();
    assert names[1..] == [stray] && [stray][1..] == [];
    assert Glob([stray], "pre_date") == [stray] + Glob([], "pre_date");
    assert Glob(names, "pre_date") == [good] + Glob([stray], "pre_date");
    assert MatchedParts([stray]) == [] + MatchedParts([]);
    assert MatchedParts(names) == [1] + MatchedParts([stray]);
  }

  lemma StrayHasNoPart()
    ensures PartNumber("pre_date.partial.log") == None
    ensures HasPrefix("pre_date.partial.log", "pre_date" + ".part")
  {
    var stray := "pre_date.partial.log";
    assert stray == "pre_date" + ".partial.log";
    assert NoDigits("pre_date") && NoDigits(".partial.log");
    NoDigitsAppend("pre_date", ".partial.log");
    NoDigitsNoPart(stray);
    assert stray == ("pre_date" + ".part") + "ial.log";
    PrefixOfConcat("pre_date" + ".part", "ial.log");
  }

  predicate NoDigits(s: string) {
    forall i :: 0 <= i < |s| ==> !IsDigit(s[i])
  }

  lemma NoDigitsAppend(a: string, b: string)
    requires NoDigits(a) && NoDigits(b)
    ensures NoDigits(a + b)
  {
    forall i | 0 <= i < |a + b|
      ensures !IsDigit((a + b)[i])
    {
      if i < |a| {
        assert (a + b)[i] == a[i];
      } else {
        assert (a + b)[i] == b[i - |a|];
      }
    }
  }

  /** A name without a single digit has no `.part<digits>` marker. */
  lemma NoDigitsNoPart(s: string)
    requires NoDigits(s)
    ensures PartNumber(s) == None
  {
    forall j | 0 <= j < |s|
      ensures !MarkerAt(s, j)
    {
      if j + 6 <= |s| {
        assert !IsDigit(s[j + 5]);
      }
    }
  }

  lemma {:induction false} MatchedPartsAreSomes(names: seq<string>)
    ensures MatchedParts(names) == Somes(Parsed(names))
  {
    if names != [] {
      MatchedPartsAreSomes(names[1..]);
      assert Parsed(names)[1..] == Parsed(names[1..]);
    }
  }

  /**
   * Wherever the source does not raise, it recovers the same part as the
   * corrected recovery above.
   */
  lemma CorrectionAgreesWhereNoRaise(directoryExists: bool, partNumber: Option<nat>, includeHost: bool,
                                     prefix: string, probe: Env, names: seq<string>)
    requires StartingPartAsWritten(directoryExists, partNumber, includeHost, prefix, probe, names).Ok?
    ensures StartingPartAsWritten(directoryExists, partNumber, includeHost, prefix, probe, names)
            == Ok(StartingPart(directoryExists, names, ReadingBase(includeHost, prefix, probe)))
  {
    if directoryExists {
      var v := Vars(prefix, probe.host, probe.date, Partf(partNumber.value), probe.uuid);
      var base := Render(BasePattern(includeHost), v);
      BaseLayout(includeHost, v);
      assert base == ReadingBase(includeHost, prefix, probe);
      var globbed := Glob(names, base);
      MatchedPartsAreSomes(globbed);
      assert StartingPartAsWritten(directoryExists, partNumber, includeHost, prefix, probe, names)
             == MaxPlusOneAsWritten(Parsed(globbed));
    }
  }
}
