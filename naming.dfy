/**
 * File-name templates of the path factory: the base pattern that decides a
 * file's rotation identity, the full pattern that names the file, the
 * zero-padded part counter and the join of directory and file name.
 *
 * A template is a sequence of pieces, literal text or a named slot, as in
 * Ruby's `'%{prefix}_%{date}' % vars`. Everything here is pure.
 */
module Naming {

  /** The slots a template may name. */
  datatype Field = Prefix | Host | Date | PartF | Uuid

  datatype Piece = Lit(text: string) | Slot(field: Field)

  type Pattern = seq<Piece>

  /** A template-variable snapshot: the hash built by `template_variables`. */
  datatype Vars = Vars(prefix: string, host: string, date: string, partf: string, uuid: string)

  /**
   * One reading of the environment, as `template_variables` takes it:
   * the host name, the clock already formatted with the date pattern,
   * and a freshly generated uuid.
   */
  datatype Env = Env(host: string, date: string, uuid: string)

  function Lookup(v: Vars, f: Field): string {
    match f
    case Prefix => v.prefix
    case Host => v.host
    case Date => v.date
    case PartF => v.partf
    case Uuid => v.uuid
  }

  function PieceText(p: Piece, v: Vars): string {
    match p
    case Lit(t) => t
    case Slot(f) => Lookup(v, f)
  }

  /** `pattern % vars`: every slot replaced by its value. */
  function Render(p: Pattern, v: Vars): string {
    if p == [] then "" else PieceText(p[0], v) + Render(p[1..], v)
  }

  lemma {:induction false} RenderAppend(p: Pattern, q: Pattern, v: Vars)
    ensures Render(p + q, v) == Render(p, v) + Render(q, v)
  {
    if p == [] {
      assert p + q == q;
    } else {
      assert (p + q)[0] == p[0];
      assert (p + q)[1..] == p[1..] + q;
      RenderAppend(p[1..], q, v);
      var a, b, c := PieceText(p[0], v), Render(p[1..], v), Render(q, v);
      assert Render(p + q, v) == a + (b + c);
      Associative(a, b, c);
    }
  }

  /**
   * `%` reads only the slots the template names: two snapshots that agree on
   * those render alike.
   */
  lemma {:induction false} RenderReadsNamedSlots(p: Pattern, v: Vars, w: Vars)
    requires forall i :: 0 <= i < |p| && p[i].Slot? ==> Lookup(v, p[i].field) == Lookup(w, p[i].field)
    ensures Render(p, v) == Render(p, w)
  {
    if p != [] {
      assert PieceText(p[0], v) == PieceText(p[0], w);
      assert forall i :: 0 <= i < |p[1..]| && p[1..][i].Slot? ==> p[1..][i] == p[i + 1];
      RenderReadsNamedSlots(p[1..], v, w);
    }
  }

  /** `prefix[_host]_date`: the part of the name that decides rotation identity. */
  function BasePattern(includeHost: bool): Pattern {
    [Slot(Prefix)]
    + (if includeHost then [Lit("_"), Slot(Host)] else [])
    + [Lit("_"), Slot(Date)]
  }

  /** What `initialize` appends to the base pattern to obtain the full pattern. */
  function ExtensionPattern(includePart: bool, includeUuid: bool, isGzipped: bool): Pattern {
    (if includePart then [Lit(".part"), Slot(PartF)] else [])
    + (if includeUuid then [Lit("."), Slot(Uuid)] else [])
    + [Lit(".log")]
    + (if isGzipped then [Lit(".gz")] else [])
  }

  function FullPattern(includeHost: bool, includePart: bool, includeUuid: bool, isGzipped: bool): Pattern {
    BasePattern(includeHost) + ExtensionPattern(includePart, includeUuid, isGzipped)
  }

  /** The text the optional suffixes contribute, written out. */
  function ExtensionText(includePart: bool, includeUuid: bool, isGzipped: bool, v: Vars): string {
    (if includePart then ".part" + v.partf else "")
    + (if includeUuid then "." + v.uuid else "")
    + ".log"
    + (if isGzipped then ".gz" else "")
  }

  /** The base rendering, written out. */
  function BaseText(includeHost: bool, v: Vars): string {
    v.prefix + (if includeHost then "_" + v.host else "") + "_" + v.date
  }

  /**
   * The base a reading of the environment renders to under a prefix: what
   * `next_base` yields. The base template has no part slot, so no part
   * number enters it.
   */
  function ReadingBase(includeHost: bool, prefix: string, env: Env): string {
    BaseText(includeHost, Vars(prefix, env.host, env.date, "", env.uuid))
  }

  lemma RenderSmall(a: Piece, b: Piece, v: Vars)
    ensures Render([a], v) == PieceText(a, v)
    ensures Render([a, b], v) == PieceText(a, v) + PieceText(b, v)
  {
    assert [a, b][1..] == [b];
    assert [b][1..] == [];
    assert [a][1..] == [];
  }

  lemma BaseLayout(includeHost: bool, v: Vars)
    ensures Render(BasePattern(includeHost), v) == BaseText(includeHost, v)
  {
    var hostPart: Pattern := if includeHost then [Lit("_"), Slot(Host)] else [];
    RenderAppend([Slot(Prefix)], hostPart, v);
    RenderAppend([Slot(Prefix)] + hostPart, [Lit("_"), Slot(Date)], v);
    RenderSmall(Slot(Prefix), Slot(Prefix), v);
    RenderSmall(Lit("_"), Slot(Date), v);
    RenderSmall(Lit("_"), Slot(Host), v);
  }

  lemma ExtensionLayout(includePart: bool, includeUuid: bool, isGzipped: bool, v: Vars)
    ensures Render(ExtensionPattern(includePart, includeUuid, isGzipped), v)
            == ExtensionText(includePart, includeUuid, isGzipped, v)
  {
    var a: Pattern := if includePart then [Lit(".part"), Slot(PartF)] else [];
    var b: Pattern := if includeUuid then [Lit("."), Slot(Uuid)] else [];
    var c: Pattern := [Lit(".log")];
    var d: Pattern := if isGzipped then [Lit(".gz")] else [];
    RenderAppend(a, b, v);
    RenderAppend(a + b, c, v);
    RenderAppend(a + b + c, d, v);
    RenderSmall(Lit(".part"), Slot(PartF), v);
    RenderSmall(Lit("."), Slot(Uuid), v);
    RenderSmall(Lit(".log"), Lit(".gz"), v);
    RenderSmall(Lit(".gz"), Lit(".gz"), v);
  }

  /**
   * The full rendering is the base rendering followed by the optional
   * `.partNNN`, the optional `.uuid`, `.log` and the optional `.gz`.
   */
  lemma FileNameLayout(includeHost: bool, includePart: bool, includeUuid: bool, isGzipped: bool, v: Vars)
    ensures Render(FullPattern(includeHost, includePart, includeUuid, isGzipped), v)
            == BaseText(includeHost, v) + ExtensionText(includePart, includeUuid, isGzipped, v)
  {
    RenderAppend(BasePattern(includeHost), ExtensionPattern(includePart, includeUuid, isGzipped), v);
    BaseLayout(includeHost, v);
    ExtensionLayout(includePart, includeUuid, isGzipped, v);
  }

  /** Every file name ends in `.log`, or in `.log.gz` when gzipped. */
  lemma ExtensionEndsInLog(includePart: bool, includeUuid: bool, isGzipped: bool, v: Vars)
    ensures var e := ExtensionText(includePart, includeUuid, isGzipped, v);
            var tail := if isGzipped then ".log.gz" else ".log";
            |tail| <= |e| && e[|e| - |tail|..] == tail
  {
    var head := (if includePart then ".part" + v.partf else "") + (if includeUuid then "." + v.uuid else "");
    if isGzipped {
      assert ExtensionText(includePart, includeUuid, isGzipped, v) == head + ".log.gz";
      EndsWith(head, ".log.gz");
    } else {
      assert ExtensionText(includePart, includeUuid, isGzipped, v) == head + ".log";
      EndsWith(head, ".log");
    }
  }

  /** With every option off, a directory `dir` and the variables give `dir/<prefix>_<date>.log`. */
  lemma NoOptionsName(directory: string, v: Vars)
    requires directory != [] && directory[|directory| - 1] != '/'
    ensures Join(directory, Render(FullPattern(false, false, false, false), v))
            == directory + "/" + v.prefix + "_" + v.date + ".log"
  {
    FileNameLayout(false, false, false, false, v);
    var base := v.prefix + "_" + v.date;
    var log := ".log";
    Neutral(v.prefix);
    Neutral(log);
    Neutral("" + log);
    assert BaseText(false, v) == base;
    assert ExtensionText(false, false, false, v) == log;
    Associative(directory + "/", base, log);
  }

  /** The base identity depends on prefix, host and date only: never on the part number or uuid. */
  lemma IdentityIgnoresPartAndUuid(includeHost: bool, v: Vars, partf: string, uuid: string)
    ensures Render(BasePattern(includeHost), v) == Render(BasePattern(includeHost), v.(partf := partf, uuid := uuid))
  {
    BaseLayout(includeHost, v);
    BaseLayout(includeHost, v.(partf := partf, uuid := uuid));
  }

  // ---------------------------------------------------------------------------
  // Decimal digits: '%03d' % n, and String#to_i on a string of digits.

  predicate IsDigit(c: char) {
    '0' <= c <= '9'
  }

  predicate AllDigits(s: string) {
    forall i :: 0 <= i < |s| ==> IsDigit(s[i])
  }

  function DigitChar(d: nat): char
    requires d < 10
  {
    ('0' as int + d) as char
  }

  function DigitValue(c: char): nat
    requires IsDigit(c)
  {
    c as int - '0' as int
  }

  /** The value of a string of decimal digits (leading zeros allowed). */
  function DigitsValue(s: string): nat
    requires AllDigits(s)
  {
    if s == [] then 0 else DigitsValue(s[..|s| - 1]) * 10 + DigitValue(s[|s| - 1])
  }

  /** The shortest decimal rendering of n. */
  function Decimal(n: nat): (r: string)
    ensures AllDigits(r) && |r| >= 1
    ensures DigitsValue(r) == n
    ensures n >= 10 ==> r[0] != '0'
  {
    if n < 10 then [DigitChar(n)]
    else
      var r := Decimal(n / 10) + [DigitChar(n % 10)];
      assert r[..|r| - 1] == Decimal(n / 10);
      r
  }

  function Zeros(k: nat): (r: string)
    ensures |r| == k && AllDigits(r)
    ensures forall i :: 0 <= i < k ==> r[i] == '0'
  {
    seq(k, _ => '0')
  }

  lemma {:induction false} LeadingZerosIgnored(k: nat, s: string)
    requires AllDigits(s)
    ensures AllDigits(Zeros(k) + s)
    ensures DigitsValue(Zeros(k) + s) == DigitsValue(s)
  {
    if s == [] {
      ZerosValue(k);
      assert Zeros(k) + s == Zeros(k);
    } else {
      var t := s[..|s| - 1];
      LeadingZerosIgnored(k, t);
      assert (Zeros(k) + s)[..|Zeros(k) + s| - 1] == Zeros(k) + t;
    }
  }

  lemma {:induction false} ZerosValue(k: nat)
    ensures DigitsValue(Zeros(k)) == 0
  {
    if k > 0 {
      ZerosValue(k - 1);
      assert Zeros(k)[..k - 1] == Zeros(k - 1);
    }
  }

  /**
   * `'%03d' % n`: the decimal rendering padded with zeros to at least three
   * characters; reading it back with `to_i` gives n again.
   */
  function Partf(n: nat): (r: string)
    ensures AllDigits(r) && |r| >= 3
    ensures DigitsValue(r) == n
    ensures |r| > 3 ==> r[0] != '0'
  {
    var d := Decimal(n);
    if |d| < 3 then
      LeadingZerosIgnored(3 - |d|, d);
      DecimalShort(n);
      Zeros(3 - |d|) + d
    else
      DecimalShort(n);
      d
  }

  lemma {:induction false} DecimalShort(n: nat)
    ensures |Decimal(n)| <= 3 <==> n < 1000
    ensures n < 1000 ==> |Decimal(n)| <= 3
  {
    if n >= 10 {
      DecimalShort(n / 10);
    }
  }

  lemma PartfExamples()
    ensures Partf(0) == "000" && Partf(1) == "001" && Partf(92) == "092" && Partf(1234) == "1234"
  {
    assert Decimal(9) == "9";
    assert Decimal(92) == "92";
    assert Decimal(12) == "12";
    assert Decimal(123) == "123";
    assert Decimal(1234) == "1234";
  }

  // ---------------------------------------------------------------------------
  // File.join(directory, name)

  /**
   * `File.join(directory, name)` for a file name that does not itself start
   * with a separator: exactly one `/` ends up between the two.
   */
  function Join(directory: string, name: string): (r: string)
    ensures |r| > |name| && |r| >= |directory| && r[..|directory|] == directory
    ensures r[|r| - |name|..] == name && r[|r| - |name| - 1] == '/'
    ensures |r| == |directory| + |name| + (if directory != [] && directory[|directory| - 1] == '/' then 0 else 1)
  {
    if directory != [] && directory[|directory| - 1] == '/' then directory + name
    else directory + "/" + name
  }

  // ---------------------------------------------------------------------------
  // Steps of string algebra the solver does not take by itself: regrouping a
  // concatenation, the empty string as its unit, reading off a suffix.

  lemma Associative(a: string, b: string, c: string)
    ensures a + (b + c) == a + b + c
  {
  }

  lemma Regroup(b: string, p: string, f: string, u: string, l: string, g: string)
    ensures b + (p + f + u + l + g) == b + p + f + (u + l + g)
  {
  }

  lemma Neutral(s: string)
    ensures "" + s == s && s + "" == s
  {
  }

  lemma EndsWith(a: string, b: string)
    ensures |b| <= |a + b| && (a + b)[|a + b| - |b|..] == b
  {
  }
}
