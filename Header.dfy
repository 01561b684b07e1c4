/** The observation header sidecar: the path derived from the data file name,
    the ten `key=value` lines `observe` writes after an acquisition, and the
    loop in `plot` that reads five of them back. Numbers are kept as the text
    `str()` gives them; the `float()`/`int()` conversions are not modelled. */
module Header {
  import opened Samples
  import opened Text

  // ------------------------------------------------------------------ path

  /** `'.'.join(obs_file.split('.')[:-1]) + '.header'`, shared by the writer and
      the reader. */
  function HeaderPath(obsFile: string): (path: string)
    ensures |path| >= 7 && path[|path| - 7..] == ".header"
  {
    var parts := Split(obsFile, '.');
    Join(parts[..|parts| - 1], '.') + ".header"
  }

  /** The header path is the file name up to its last dot, then `.header`. */
  lemma HeaderPathReplacesExtension(obsFile: string, dot: nat)
    requires dot < |obsFile| && obsFile[dot] == '.' && '.' !in obsFile[dot + 1..]
    ensures HeaderPath(obsFile) == obsFile[..dot] + ".header"
  {
    var stem := obsFile[..dot];
    var ext := obsFile[dot + 1..];
    assert obsFile == stem + ['.'] + ext;
    SplitLast(stem, ext, '.');
    var parts := Split(obsFile, '.');
    assert parts[..|parts| - 1] == Split(stem, '.');
    JoinSplit(stem, '.');
  }

  /** A file name without a dot has the bare `.header` as its header path. */
  lemma HeaderPathWithoutDot(obsFile: string)
    requires '.' !in obsFile
    ensures HeaderPath(obsFile) == ".header"
  {
    SplitFree(obsFile, '.');
  }

  /** The default observation file gives `observation.header`. */
  lemma HeaderPathOfDefault(f: string)
    requires f == "observation.dat"
    ensures HeaderPath(f) == "observation.header"
  {
    assert f[11] == '.' && f[12..] == "dat";
    HeaderPathReplacesExtension(f, 11);
    assert f[..11] == "observation";
  }

  /** A name without an extension gives the bare `.header`. */
  lemma HeaderPathOfBareName(f: string)
    requires f == "noext"
    ensures HeaderPath(f) == ".header"
  {
    HeaderPathWithoutDot(f);
  }

  // ---------------------------------------------------------------- writer

  /** `str()` of each observation parameter, as `observe` writes them. */
  datatype ObsParams = ObsParams(
    mjd: string, devArgs: string, rfGain: string, ifGain: string, bbGain: string,
    frequency: string, bandwidth: string, channels: string, tSample: string, duration: string)

  /** One `name=value` line. */
  function Entry(name: string, value: string): string
  {
    name + "=" + value
  }

  /** The ten header lines in the order `observe` writes them: `mjd`,
      `dev_args`, `rf_gain`, `if_gain`, `bb_gain`, `frequency`, `bandwidth`,
      `channels`, `t_sample`, `duration`. */
  function HeaderLines(p: ObsParams): (lines: seq<string>)
    ensures |lines| == 10
  {
    [Entry(Keys[0], p.mjd), Entry(Passed[0], p.devArgs), Entry(Passed[1], p.rfGain),
     Entry(Passed[2], p.ifGain), Entry(Passed[3], p.bbGain), Entry(Keys[1], p.frequency),
     Entry(Keys[2], p.bandwidth), Entry(Keys[3], p.channels),
     Entry(Keys[4], p.tSample), Entry(Passed[4], p.duration)]
  }

  /** The header file's text: the lines joined by newlines, none after the last. */
  function HeaderText(p: ObsParams): string
  {
    Join(HeaderLines(p), '\n')
  }

  // ---------------------------------------------------------------- reader

  /** `[l.rstrip('\n') for l in f.readlines()]`: the text cut at each newline,
      with no empty line after a final newline. */
  function Lines(text: string): (lines: seq<string>)
    ensures forall i :: 0 <= i < |lines| ==> '\n' !in lines[i]
  {
    var parts := Split(text, '\n');
    SplitPartsFree(text, '\n');
    if parts[|parts| - 1] == "" then parts[..|parts| - 1] else parts
  }

  /** The reader's five variables; `None` while no line has set them. */
  datatype HeaderValues = HeaderValues(
    mjd: Option<string>, frequency: Option<string>, bandwidth: Option<string>,
    channels: Option<string>, tSample: Option<string>)

  datatype Option<T> = None | Some(value: T)

  const Unset := HeaderValues(None, None, None, None, None)

  /** The keys in the order of the `elif` chain. */
  const Keys: seq<string> := ["mjd", "frequency", "bandwidth", "channels", "t_sample"]

  /** The names of the header lines the reader does not look for. */
  const Passed: seq<string> := ["dev_args", "rf_gain", "if_gain", "bb_gain", "duration"]

  /** `line.strip().split('=')[1]`: the text between the first and the second
      `=` of the stripped line, IndexError when it has no `=`. */
  function Field(line: string): (r: Result<string>)
    ensures r.Err? <==> '=' !in Strip(line)
    ensures r.Err? ==> r.error == IndexError
    ensures r.Ok? ==> '=' !in r.value && Contains(Strip(line), "=" + r.value)
  {
    var parts := Split(Strip(line), '=');
    SplitCount(Strip(line), '=');
    if |parts| < 2 then Err(IndexError)
    else
      SplitPartsFree(Strip(line), '=');
      FieldAfterFirst(Strip(line));
      Ok(parts[1])
  }

  /** The field is the text between the first `=` of the stripped line and
      the next `=`, or the end of the line when there is no second one. */
  lemma FieldBetween(line: string)
    ensures Field(line).Ok? ==>
      var s := Strip(line);
      var i := FirstSep(s, '=');
      i < |s| && Field(line).value == s[i + 1..][..FirstSep(s[i + 1..], '=')]
  {
    if Field(line).Ok? {
      SecondPart(Strip(line), '=');
    }
  }

  /** The second part of a split follows a separator in the string. */
  lemma {:induction false} FieldAfterFirst(s: string)
    requires |Split(s, '=')| >= 2
    ensures Contains(s, "=" + Split(s, '=')[1])
  {
    var parts := Split(s, '=');
    if s[0] == '=' {
      var rest := Split(s[1..], '=');
      JoinSplit(s[1..], '=');
      if |rest| == 1 {
        assert s == "=" + rest[0];
      } else {
        assert s == "=" + rest[0] + ['='] + Join(rest[1..], '=');
      }
      ContainsPrefix("=" + rest[0], s[|"=" + rest[0]|..]);
      assert s == ("=" + rest[0]) + s[|"=" + rest[0]|..];
    } else {
      var rest := Split(s[1..], '=');
      assert |rest| >= 2;
      FieldAfterFirst(s[1..]);
      ContainsTail(s, "=" + rest[1]);
    }
  }

  /** What the tail of a string contains, the string contains. */
  lemma ContainsTail(s: string, k: string)
    requires |s| > 0 && Contains(s[1..], k)
    ensures Contains(s, k)
  {
  }

  /** One pass of the `elif` chain: the first key the line contains decides the
      variable it sets; a line with none of them changes nothing. */
  function Step(h: HeaderValues, line: string): (r: Result<HeaderValues>)
    ensures r.Err? ==> r.error == IndexError
  {
    if Contains(line, "mjd") then
      (match Field(line) case Ok(v) => Ok(h.(mjd := Some(v))) case Err(e) => Err(e))
    else if Contains(line, "frequency") then
      (match Field(line) case Ok(v) => Ok(h.(frequency := Some(v))) case Err(e) => Err(e))
    else if Contains(line, "bandwidth") then
      (match Field(line) case Ok(v) => Ok(h.(bandwidth := Some(v))) case Err(e) => Err(e))
    else if Contains(line, "channels") then
      (match Field(line) case Ok(v) => Ok(h.(channels := Some(v))) case Err(e) => Err(e))
    else if Contains(line, "t_sample") then
      (match Field(line) case Ok(v) => Ok(h.(tSample := Some(v))) case Err(e) => Err(e))
    else Ok(h)
  }

  /** The variables after the reading loop has seen all the lines, in order;
      the first line that raises ends the loop with its exception. */
  function ScanHeader(lines: seq<string>): (r: Result<HeaderValues>)
    ensures r.Err? ==> r.error == IndexError
  {
    if |lines| == 0 then Ok(Unset)
    else
      match ScanHeader(lines[..|lines| - 1])
      case Err(e) => Err(e)
      case Ok(h) => Step(h, lines[|lines| - 1])
  }

  /** The variable of key j of the chain set to v. */
  function SetField(h: HeaderValues, j: nat, v: string): HeaderValues
    requires j < |Keys|
  {
    if j == 0 then h.(mjd := Some(v))
    else if j == 1 then h.(frequency := Some(v))
    else if j == 2 then h.(bandwidth := Some(v))
    else if j == 3 then h.(channels := Some(v))
    else h.(tSample := Some(v))
  }

  /** A line that holds none of the five keys leaves every variable alone. */
  lemma StepIgnores(h: HeaderValues, line: string)
    requires forall i :: 0 <= i < |Keys| ==> !Contains(line, Keys[i])
    ensures Step(h, line) == Ok(h)
  {
    assert !Contains(line, Keys[0]) && !Contains(line, Keys[1]) && !Contains(line, Keys[2]);
    assert !Contains(line, Keys[3]) && !Contains(line, Keys[4]);
  }

  /** First match wins: the earliest key of the chain that the line contains
      selects the variable, which gets the line's field or raises its error. */
  lemma StepPicks(h: HeaderValues, line: string, j: nat)
    requires j < |Keys| && Contains(line, Keys[j])
    requires forall k :: 0 <= k < j ==> !Contains(line, Keys[k])
    ensures Field(line).Ok? ==> Step(h, line) == Ok(SetField(h, j, Field(line).value))
    ensures Field(line).Err? ==> Step(h, line) == Err(IndexError)
  {
    if j > 0 { assert !Contains(line, Keys[0]); }
    if j > 1 { assert !Contains(line, Keys[1]); }
    if j > 2 { assert !Contains(line, Keys[2]); }
    if j > 3 { assert !Contains(line, Keys[3]); }
  }

  /** The header-reading loop of `plot`, over the lines of the header file. */
  method ReadHeader(text: string) returns (res: Result<HeaderValues>)
    ensures res == ScanHeader(Lines(text))
  {
    var lines := Lines(text);
    var h := Unset;
    var i := 0;
    while i < |lines|
      invariant 0 <= i <= |lines|
      invariant ScanHeader(lines[..i]) == Ok(h)
    {
      assert lines[..i + 1][..i] == lines[..i];
      var next := Step(h, lines[i]);
      if next.Err? {
        assert ScanHeader(lines[..i + 1]) == next;
        ScanErrSticks(lines, i + 1);
        assert lines[..|lines|] == lines;
        return next;
      }
      h := next.value;
      i := i + 1;
    }
    assert lines[..i] == lines;
    return Ok(h);
  }

  /** Once a line raises, the rest of the lines are never read. */
  lemma {:induction false} ScanErrSticks(lines: seq<string>, k: nat)
    requires k <= |lines| && ScanHeader(lines[..k]).Err?
    ensures ScanHeader(lines) == ScanHeader(lines[..k])
    decreases |lines| - k
  {
    if k < |lines| {
      assert lines[..k + 1][..k] == lines[..k];
      ScanErrSticks(lines, k + 1);
    } else {
      assert lines[..k] == lines;
    }
  }

  // ------------------------------------------------------------ round trip

  /** Text that `str()` of a number can produce here: no `=`, no whitespace and
      none of the five keys. */
  predicate Plain(v: string) {
    '=' !in v && (forall j :: 0 <= j < |v| ==> !IsSpace(v[j])) &&
    (forall i :: 0 <= i < |Keys| ==> !Contains(v, Keys[i]))
  }

  /** Parameters the header round trip holds for: numeric fields are plain and
      the device arguments hold no newline and none of the keys. */
  predicate Writable(p: ObsParams) {
    Plain(p.mjd) && Plain(p.rfGain) && Plain(p.ifGain) && Plain(p.bbGain) &&
    Plain(p.frequency) && Plain(p.bandwidth) && Plain(p.channels) &&
    Plain(p.tSample) && Plain(p.duration) &&
    '\n' !in p.devArgs && (forall i :: 0 <= i < |Keys| ==> !Contains(p.devArgs, Keys[i]))
  }

  /** The file `observe` writes reads back as exactly its ten lines. */
  lemma LinesOfHeader(p: ObsParams)
    requires Writable(p)
    ensures Lines(HeaderText(p)) == HeaderLines(p)
  {
    var ls := HeaderLines(p);
    var names := ["mjd", "dev_args", "rf_gain", "if_gain", "bb_gain", "frequency",
      "bandwidth", "channels", "t_sample", "duration"];
    var values := [p.mjd, p.devArgs, p.rfGain, p.ifGain, p.bbGain, p.frequency,
      p.bandwidth, p.channels, p.tSample, p.duration];
    assert IsSpace('\n');
    forall i | 0 <= i < |ls|
      ensures '\n' !in ls[i]
    {
      assert ls[i] == names[i] + ['='] + values[i];
      assert '\n' !in values[i];
    }
    SplitJoin(ls, '\n');
    assert ls[9][0] == 'd';
  }

  /** The line `key=v` for a plain v, read by one pass of the `elif` chain. */
  lemma KeyLine(name: string, v: string)
    requires Plain(v) && '=' !in name && |name| > 0 && !IsSpace(name[0])
    ensures Strip(name + "=" + v) == name + "=" + v
    ensures Field(name + "=" + v) == Ok(v)
  {
    var line := name + "=" + v;
    StripEnds(line);
    assert !IsSpace(line[0]);
    if |v| > 0 {
      assert line[|line| - 1] == v[|v| - 1];
    }
    assert line == name + ['='] + v;
    SplitAround(name, v, '=');
    SplitFree(v, '=');
  }

  /** A line with several `=` yields the text between the first two only. */
  lemma FieldOfSeveral(line: string)
    requires line == "a=b=c"
    ensures Field(line) == Ok("b")
  {
    assert Strip(line) == line by {
      StripOfTrimmed(line);
      assert !IsSpace(line[0]) && !IsSpace(line[4]);
    }
    assert FirstSep(line, '=') == 1 by {
      assert line[0] != '=' && line[1..][0] == '=';
    }
    assert FirstSep(line[2..], '=') == 1 by {
      assert line[2..][0] != '=' && line[2..][1..][0] == '=';
    }
    assert Field(line).Ok? by {
      assert line[1] == '=';
    }
    FieldBetween(line);
    assert line[2..][..1] == "b";
  }

  /** `name=v` contains none of the keys that name does not hold. */
  lemma KeyLineFree(name: string, v: string, k: string)
    requires Plain(v) && k in Keys && !Contains(name, k)
    ensures !Contains(name + "=" + v, k)
  {
    assert name + "=" + v == name + ['='] + v;
    var i :| 0 <= i < |Keys| && Keys[i] == k;
    NoStraddle(name, '=', v, k);
  }

  /** Every key starts with a letter and holds no `=`. */
  lemma KeyShape(j: nat)
    requires j < |Keys|
    ensures |Keys[j]| > 0 && !IsSpace(Keys[j][0]) && '=' !in Keys[j]
  {
  }

  /** A character of key k that no later key holds, nor any name of a line
      the reader passes over. */
  function Marker(k: nat): char
  {
    if k == 0 then 'j' else if k == 1 then 'q' else if k == 2 then 'w' else if k == 3 then 'c' else 'm'
  }

  lemma MarkerIn(k: nat)
    requires k < |Keys|
    ensures Marker(k) in Keys[k]
  {
    if k == 0 { assert Keys[0][1] == 'j'; }
    else if k == 1 { assert Keys[1][3] == 'q'; }
    else if k == 2 { assert Keys[2][4] == 'w'; }
    else if k == 3 { assert Keys[3][0] == 'c'; }
    else { assert Keys[4][4] == 'm'; }
  }

  /** No key of the chain holds an earlier one. */
  lemma KeysInOrder()
    ensures forall j, k :: 0 <= k < j < |Keys| ==> !Contains(Keys[j], Keys[k])
  {
    forall j, k | 0 <= k < j < |Keys|
      ensures !Contains(Keys[j], Keys[k])
    {
      MarkerIn(k);
      MissingChar(Keys[j], Keys[k], Marker(k));
    }
  }

  /** The names of the lines the reader passes over hold no key. */
  lemma IgnoredNamesFree(name: string)
    requires name in Passed
    ensures forall k :: 0 <= k < |Keys| ==> !Contains(name, Keys[k])
  {
    forall k | 0 <= k < |Keys|
      ensures !Contains(name, Keys[k])
    {
      MarkerIn(k);
      MissingChar(name, Keys[k], Marker(k));
    }
  }

  /** Reading back what `observe` wrote sets the five variables from their own
      lines and nothing else: the device-argument, gain and duration lines are
      passed over. */
  lemma HeaderRoundTrip(p: ObsParams)
    requires Writable(p)
    ensures ScanHeader(Lines(HeaderText(p))) ==
      Ok(HeaderValues(Some(p.mjd), Some(p.frequency), Some(p.bandwidth), Some(p.channels), Some(p.tSample)))
  {
    LinesOfHeader(p);
    ReadPrefix(p, 10);
    assert HeaderLines(p)[..10] == HeaderLines(p);
  }

  /** The variables once the first k lines of the header have been read. */
  function ReadSoFar(p: ObsParams, k: nat): HeaderValues
  {
    HeaderValues(
      if k >= 1 then Some(p.mjd) else None,
      if k >= 6 then Some(p.frequency) else None,
      if k >= 7 then Some(p.bandwidth) else None,
      if k >= 8 then Some(p.channels) else None,
      if k >= 9 then Some(p.tSample) else None)
  }

  /** Reading the header line by line. */
  lemma {:induction false} ReadPrefix(p: ObsParams, k: nat)
    requires Writable(p) && k <= 10
    ensures ScanHeader(HeaderLines(p)[..k]) == Ok(ReadSoFar(p, k))
  {
    if k == 0 {
      assert HeaderLines(p)[..0] == [];
    } else {
      ReadPrefix(p, k - 1);
      ReadNextLine(p, k - 1);
    }
  }

  /** Line i of the header takes the variables from ReadSoFar(p, i) to
      ReadSoFar(p, i + 1). */
  lemma ReadNextLine(p: ObsParams, i: nat)
    requires Writable(p) && i < 10
    requires ScanHeader(HeaderLines(p)[..i]) == Ok(ReadSoFar(p, i))
    ensures ScanHeader(HeaderLines(p)[..i + 1]) == Ok(ReadSoFar(p, i + 1))
  {
    if i == 0 || 5 <= i < 9 {
      var j := if i == 0 then 0 else i - 4;
      assert KeyRow(j) == i;
      ReadKeyLine(p, j);
    } else {
      ReadPassedLine(p, i);
    }
  }

  /** The row `observe` writes key j on. */
  function KeyRow(j: nat): nat
  {
    if j == 0 then 0 else j + 4
  }

  /** The value `observe` writes for key j. */
  function KeyValue(p: ObsParams, j: nat): string
    requires j < |Keys|
  {
    [p.mjd, p.frequency, p.bandwidth, p.channels, p.tSample][j]
  }

  /** Row KeyRow(j) of the header is the line of key j, its value is plain,
      and reading it sets the variable of key j. */
  lemma KeyRowFacts(p: ObsParams, j: nat)
    requires Writable(p) && j < |Keys|
    ensures KeyRow(j) < |HeaderLines(p)|
    ensures HeaderLines(p)[KeyRow(j)] == Entry(Keys[j], KeyValue(p, j))
    ensures Plain(KeyValue(p, j))
    ensures ReadSoFar(p, KeyRow(j) + 1) == SetField(ReadSoFar(p, KeyRow(j)), j, KeyValue(p, j))
  {
  }

  /** The line of key j sets the variable of key j. */
  lemma ReadKeyLine(p: ObsParams, j: nat)
    requires Writable(p) && j < |Keys|
    requires ScanHeader(HeaderLines(p)[..KeyRow(j)]) == Ok(ReadSoFar(p, KeyRow(j)))
    ensures ScanHeader(HeaderLines(p)[..KeyRow(j) + 1]) == Ok(ReadSoFar(p, KeyRow(j) + 1))
  {
    KeyRowFacts(p, j);
    KeysInOrder();
    ReadLine(HeaderLines(p), KeyRow(j), j, KeyValue(p, j), ReadSoFar(p, KeyRow(j)), ReadSoFar(p, KeyRow(j) + 1));
  }

  /** Lines 1 to 4 and 9 are passed over. */
  lemma ReadPassedLine(p: ObsParams, i: nat)
    requires Writable(p) && (1 <= i < 5 || i == 9)
    requires ScanHeader(HeaderLines(p)[..i]) == Ok(ReadSoFar(p, i))
    ensures ScanHeader(HeaderLines(p)[..i + 1]) == Ok(ReadSoFar(p, i + 1))
  {
    var ls := HeaderLines(p);
    var n := if i == 9 then 4 else i - 1;
    var v := [p.devArgs, p.rfGain, p.ifGain, p.bbGain, p.duration][n];
    assert ls[i] == Entry(Passed[n], v);
    IgnoredLine(ls, i, n, v, ReadSoFar(p, i));
  }

  /** A header line whose name is none of the keys and whose value holds none
      of them leaves the variables alone. */
  lemma IgnoredLine(ls: seq<string>, i: nat, n: nat, v: string, h: HeaderValues)
    requires i < |ls| && n < |Passed| && ls[i] == Entry(Passed[n], v)
    requires ScanHeader(ls[..i]) == Ok(h)
    requires forall k :: 0 <= k < |Keys| ==> !Contains(v, Keys[k])
    ensures ScanHeader(ls[..i + 1]) == Ok(h)
  {
    assert ls[..i + 1][..i] == ls[..i];
    var name := Passed[n];
    IgnoredNamesFree(name);
    forall k | 0 <= k < |Keys|
      ensures !Contains(ls[i], Keys[k])
    {
      assert ls[i] == name + ['='] + v;
      NoStraddle(name, '=', v, Keys[k]);
    }
    StepIgnores(h, ls[i]);
  }

  /** The line of key j sets that key's variable to its value. */
  lemma ReadLine(ls: seq<string>, i: nat, j: nat, v: string, h: HeaderValues, h': HeaderValues)
    requires i < |ls| && j < |Keys| && ls[i] == Entry(Keys[j], v)
    requires ScanHeader(ls[..i]) == Ok(h) && Plain(v) && h' == SetField(h, j, v)
    requires forall k :: 0 <= k < j ==> !Contains(Keys[j], Keys[k])
    ensures ScanHeader(ls[..i + 1]) == Ok(h')
  {
    assert ls[..i + 1][..i] == ls[..i];
    KeyShape(j);
    KeyLine(Keys[j], v);
    ContainsPrefix(Keys[j], "=" + v);
    assert Keys[j] + ("=" + v) == ls[i];
    forall k | 0 <= k < j
      ensures !Contains(ls[i], Keys[k])
    {
      KeyLineFree(Keys[j], v, Keys[k]);
    }
    StepPicks(h, ls[i], j);
  }
}
