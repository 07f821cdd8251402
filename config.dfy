/**
 * ConfigLoader: reads tolerance.conf line by line and takes the replication
 * tolerance from its TOLERANCE= line. The file is given as whether it exists
 * and the lines a BufferedReader would return; ConfigException is the
 * ConfigError datatype.
 */
module Config {
  import opened Wrappers
  import opened JavaLang

  const MIN_TOLERANCE := 1
  const MAX_TOLERANCE := 7
  const DEFAULT_TOLERANCE := 1
  const PREFIX := "TOLERANCE="

  /** The three ConfigException cases of parseTolerance, with the line number (from 1) and what the message shows. */
  datatype ConfigError =
    | EmptyValue(lineNumber: nat)
    | BadFormat(lineNumber: nat, line: string)
    | OutOfRange(value: int, lineNumber: nat)

  predicate InRange(t: int)
  {
    MIN_TOLERANCE <= t <= MAX_TOLERANCE
  }

  /** A line that load hands to parseTolerance: after trimming it is not blank, not a comment and starts with TOLERANCE=. */
  predicate IsToleranceLine(raw: string)
  {
    var line := Trim(raw);
    line != [] && !StartsWith(line, "#") && StartsWith(line, PREFIX)
  }

  /** The trimmed text after TOLERANCE= on a trimmed line. */
  function ValueText(line: string): string
    requires StartsWith(line, PREFIX)
  {
    Trim(line[|PREFIX|..])
  }

  /**
   * parseTolerance: the tolerance field afterwards and the exception, if any.
   * The field is assigned as soon as the value parses, before the range check.
   */
  function ToleranceLine(line: string, lineNumber: nat, field: Option<int>): (Option<int>, Option<ConfigError>)
    requires StartsWith(line, PREFIX)
  {
    var value := ValueText(line);
    if value == [] then (field, Some(EmptyValue(lineNumber)))
    else match ParseInt(value)
      case None => (field, Some(BadFormat(lineNumber, line)))
      case Some(t) => (Some(t), if !InRange(t) then Some(OutOfRange(t, lineNumber)) else None)
  }

  /**
   * parseTolerance succeeds exactly on a value in [1, 7] and then holds it; an out-of-range
   * value is held and reported; any other failure leaves the field as it was.
   */
  lemma ToleranceLineSpec(line: string, lineNumber: nat, field: Option<int>)
    requires StartsWith(line, PREFIX)
    ensures var (f, e) := ToleranceLine(line, lineNumber, field);
      && (e.None? <==> ParseInt(ValueText(line)).Some? && InRange(ParseInt(ValueText(line)).value))
      && (e.None? ==> f == ParseInt(ValueText(line)))
      && (e.Some? && e.value.OutOfRange? ==> f == Some(e.value.value) && !InRange(e.value.value) && f == ParseInt(ValueText(line)))
      && (e.Some? && !e.value.OutOfRange? ==> f == field)
  {
    if ValueText(line) == [] {
      assert ParseInt(ValueText(line)).None?;
    }
  }

  /** The read loop of load from index k on (line number k + 1), stopping at the first exception. */
  function Scan(lines: seq<string>, k: nat, field: Option<int>): (Option<int>, Option<ConfigError>)
    requires k <= |lines|
    decreases |lines| - k
  {
    if k == |lines| then (field, None)
    else if !IsToleranceLine(lines[k]) then Scan(lines, k + 1, field)
    else
      var (f, e) := ToleranceLine(Trim(lines[k]), k + 1, field);
      if e.Some? then (f, e) else Scan(lines, k + 1, f)
  }

  /** load: the tolerance field afterwards and whether a ConfigException ended it. */
  function LoadStep(present: bool, lines: seq<string>, field: Option<int>): (Option<int>, Result<(), ConfigError>)
  {
    if !present then (Some(DEFAULT_TOLERANCE), Success(()))
    else
      var (f, e) := Scan(lines, 0, field);
      if e.Some? then (f, Failure(e.value))
      else if f.None? then (Some(DEFAULT_TOLERANCE), Success(()))
      else (f, Success(()))
  }

  /** A missing file gives the default tolerance 1, whatever was loaded before. */
  lemma MissingFileDefault(lines: seq<string>, field: Option<int>)
    ensures LoadStep(false, lines, field) == (Some(1), Success(()))
  {
  }

  /** Lines that are not TOLERANCE lines leave the field alone and raise nothing. */
  lemma {:induction false} ScanSkipsAll(lines: seq<string>, k: nat, field: Option<int>)
    requires k <= |lines|
    requires forall j :: k <= j < |lines| ==> !IsToleranceLine(lines[j])
    ensures Scan(lines, k, field) == (field, None)
    decreases |lines| - k
  {
    if k < |lines| {
      assert !IsToleranceLine(lines[k]);
      ScanSkipsAll(lines, k + 1, field);
      assert Scan(lines, k, field) == Scan(lines, k + 1, field);
    }
  }

  /** A file without a TOLERANCE line gives the default tolerance 1 on a fresh loader. */
  lemma NoToleranceLineDefault(lines: seq<string>)
    requires forall j :: 0 <= j < |lines| ==> !IsToleranceLine(lines[j])
    ensures LoadStep(true, lines, None) == (Some(DEFAULT_TOLERANCE), Success(()))
  {
    ScanSkipsAll(lines, 0, None);
  }

  /** The scan keeps "no value, or a value in range" as long as it raises nothing. */
  lemma {:induction false} ScanInRange(lines: seq<string>, k: nat, field: Option<int>)
    requires k <= |lines|
    requires field.None? || InRange(field.value)
    requires Scan(lines, k, field).1.None?
    ensures Scan(lines, k, field).0.None? || InRange(Scan(lines, k, field).0.value)
    decreases |lines| - k
  {
    if k < |lines| {
      if !IsToleranceLine(lines[k]) {
        ScanInRange(lines, k + 1, field);
      } else {
        var (f, e) := ToleranceLine(Trim(lines[k]), k + 1, field);
        ScanInRange(lines, k + 1, f);
      }
    }
  }

  /** A load that raises nothing leaves a tolerance in [1, 7], provided the field held none or one in range before. */
  lemma LoadedInRange(present: bool, lines: seq<string>, field: Option<int>)
    requires field.None? || InRange(field.value)
    requires LoadStep(present, lines, field).1.Success?
    ensures LoadStep(present, lines, field).0.Some? && InRange(LoadStep(present, lines, field).0.value)
  {
    if present {
      ScanInRange(lines, 0, field);
    }
  }

  /** With several TOLERANCE lines, a load that raises nothing ends with the value of the last one. */
  lemma {:induction false} ScanLastWins(lines: seq<string>, k: nat, field: Option<int>, last: nat)
    requires k <= last < |lines| && IsToleranceLine(lines[last])
    requires forall j :: last < j < |lines| ==> !IsToleranceLine(lines[j])
    requires Scan(lines, k, field).1.None?
    ensures Scan(lines, k, field).0 == ParseInt(ValueText(Trim(lines[last]))) != None
    decreases |lines| - k
  {
    if !IsToleranceLine(lines[k]) {
      ScanLastWins(lines, k + 1, field, last);
    } else {
      var (f, e) := ToleranceLine(Trim(lines[k]), k + 1, field);
      if k == last {
        ToleranceLineSpec(Trim(lines[k]), k + 1, field);
        ScanSkipsAll(lines, k + 1, f);
      } else {
        ScanLastWins(lines, k + 1, f, last);
      }
    }
  }

  lemma LastToleranceWins(lines: seq<string>, field: Option<int>, last: nat)
    requires last < |lines| && IsToleranceLine(lines[last])
    requires forall j :: last < j < |lines| ==> !IsToleranceLine(lines[j])
    requires LoadStep(true, lines, field).1.Success?
    ensures LoadStep(true, lines, field) == (ParseInt(ValueText(Trim(lines[last]))), Success(()))
  {
    ScanLastWins(lines, 0, field, last);
  }

  /** The first failing TOLERANCE line ends the load with its exception; an out-of-range value stays in the field. */
  lemma {:induction false} ScanStopsAtError(lines: seq<string>, k: nat, field: Option<int>, bad: nat)
    requires k <= bad < |lines| && IsToleranceLine(lines[bad])
    requires forall j :: k <= j < bad ==> !IsToleranceLine(lines[j])
    requires ToleranceLine(Trim(lines[bad]), bad + 1, field).1.Some?
    ensures Scan(lines, k, field) == ToleranceLine(Trim(lines[bad]), bad + 1, field)
    decreases bad - k
  {
    if k < bad {
      ScanStopsAtError(lines, k + 1, field, bad);
    }
  }

  /** An out-of-range TOLERANCE value fails the load but is kept, so the loader then counts as loaded with that value. */
  lemma OutOfRangeKept(lines: seq<string>, field: Option<int>, bad: nat, t: int)
    requires bad < |lines| && IsToleranceLine(lines[bad])
    requires forall j :: 0 <= j < bad ==> !IsToleranceLine(lines[j])
    requires ParseInt(ValueText(Trim(lines[bad]))) == Some(t) && !InRange(t)
    ensures LoadStep(true, lines, field) == (Some(t), Failure(OutOfRange(t, bad + 1)))
  {
    assert ValueText(Trim(lines[bad])) != [];
    ScanStopsAtError(lines, 0, field, bad);
  }

  /** The loader. tolerance is the Integer field: None is null. */
  class ConfigLoader {
    var tolerance: Option<int>

    constructor ()
      ensures tolerance == None
    {
      tolerance := None;
    }

    /** ConfigLoader.load over the file's existence and lines. */
    method Load(present: bool, lines: seq<string>) returns (r: Result<(), ConfigError>)
      modifies this
      ensures (tolerance, r) == LoadStep(present, lines, old(tolerance))
    {
      if !present {
        tolerance := Some(DEFAULT_TOLERANCE);
        return Success(());
      }
      var lineNumber := 0;
      while lineNumber < |lines|
        invariant 0 <= lineNumber <= |lines|
        invariant Scan(lines, lineNumber, tolerance) == Scan(lines, 0, old(tolerance))
      {
        var line := lines[lineNumber];
        lineNumber := lineNumber + 1;
        line := Trim(line);
        if line == [] || StartsWith(line, "#") {
          continue;
        }
        if StartsWith(line, PREFIX) {
          var e := ParseTolerance(line, lineNumber);
          if e.Some? {
            return Failure(e.value);
          }
        }
      }
      if tolerance.None? {
        tolerance := Some(DEFAULT_TOLERANCE);
      }
      r := Success(());
    }

    /** ConfigLoader.parseTolerance: the field is assigned before the range check. */
    method ParseTolerance(line: string, lineNumber: nat) returns (e: Option<ConfigError>)
      requires StartsWith(line, PREFIX)
      modifies this
      ensures (tolerance, e) == ToleranceLine(line, lineNumber, old(tolerance))
    {
      var value := Trim(line[|PREFIX|..]);
      if value == [] {
        return Some(EmptyValue(lineNumber));
      }
      var parsed := ParseInt(value);
      if parsed.None? {
        return Some(BadFormat(lineNumber, line));
      }
      tolerance := parsed;
      if tolerance.value < MIN_TOLERANCE || tolerance.value > MAX_TOLERANCE {
        return Some(OutOfRange(tolerance.value, lineNumber));
      }
      e := None;
    }

    /** ConfigLoader.getTolerance: falls back to the default and stores it when nothing was loaded. */
    method GetTolerance() returns (t: int)
      modifies this
      ensures t == (if old(tolerance).None? then DEFAULT_TOLERANCE else old(tolerance).value)
      ensures tolerance == Some(t)
    {
      if tolerance.None? {
        tolerance := Some(DEFAULT_TOLERANCE);
      }
      t := tolerance.value;
    }

    /** ConfigLoader.isLoaded. */
    function IsLoaded(): (b: bool)
      reads this
      ensures b <==> tolerance != None
    {
      tolerance.Some?
    }
  }

  /** ConfigLoader.getDefaultTolerance. */
  function GetDefaultTolerance(): (t: int)
    ensures InRange(t)
  {
    DEFAULT_TOLERANCE
  }

  /** A fresh loader asked for its tolerance says 1 and is loaded from then on. */
  method FreshLoaderTolerance() returns (t: int, loaded: bool)
    ensures t == 1 && loaded
  {
    var c := new ConfigLoader();
    t := c.GetTolerance();
    loaded := c.IsLoaded();
  }
}
