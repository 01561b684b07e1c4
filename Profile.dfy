/** The survey-profile side of `simulate`: the velocity limits it clamps to
    the survey's range, and the parser that turns the downloaded table into
    the frequency and spectrum columns. Numbers stay text here: the table's
    fields are kept as the words the parser would hand to `float`. */
module Profile {
  import opened Text

  // ---------------------------------------------------------- velocity limits

  /** The survey covers radial velocities from -400 to 400 km/s. */
  const Bound: real := 400.0

  /** The plot's velocity limits after `simulate` has clamped them: a lower
      limit below -400 is raised to -400, an upper limit above 400 is lowered
      to 400, and a limit inside the range is kept. */
  function ClampVelocity(vMin: real, vMax: real): (r: (real, real))
    ensures r.0 >= -Bound && r.0 >= vMin
    ensures r.1 <= Bound && r.1 <= vMax
    ensures r.0 == vMin <==> vMin >= -Bound
    ensures r.1 == vMax <==> vMax <= Bound
    ensures r.0 != vMin ==> r.0 == -Bound
    ensures r.1 != vMax ==> r.1 == Bound
  {
    (if vMin < -Bound then -Bound else vMin, if vMax > Bound then Bound else vMax)
  }

  /** Clamping limits that are already clamped changes nothing. */
  lemma ClampIdempotent(vMin: real, vMax: real)
    ensures ClampVelocity(ClampVelocity(vMin, vMax).0, ClampVelocity(vMin, vMax).1) ==
            ClampVelocity(vMin, vMax)
  {
    var r := ClampVelocity(vMin, vMax);
    assert r.0 >= -Bound && r.1 <= Bound;
  }

  // ----------------------------------------------------------- the table

  /** The lines the parser reads: the response's lines after the first four,
      none when there are fewer than four. */
  function Data(response: seq<string>): (data: seq<string>)
    ensures |response| >= 4 ==> response == response[..4] + data
    ensures |response| < 4 ==> data == []
  {
    if |response| < 4 then [] else response[4..]
  }

  /** The columns the parser collects from data: field 2 of each line as the
      frequency and field 1 as the spectrum, up to the first line that has
      fewer than three whitespace-separated fields. */
  function Columns(data: seq<string>): (c: (seq<string>, seq<string>))
    ensures |c.0| == |c.1| <= |data|
  {
    if |data| == 0 || |Words(data[0])| < 3 then ([], [])
    else
      var rest := Columns(data[1..]);
      ([Words(data[0])[2]] + rest.0, [Words(data[0])[1]] + rest.1)
  }

  /** The columns hold field 2 and field 1 of each line up to the first line
      with fewer than three fields, and the parser stops exactly there: every
      line taken has three fields, and the line after the last one taken, if
      any, has fewer. */
  lemma {:induction false} ColumnsStop(data: seq<string>)
    ensures var n := |Columns(data).0|;
      && (forall i :: 0 <= i < n ==> |Words(data[i])| >= 3)
      && (forall i :: 0 <= i < n ==> Columns(data).0[i] == Words(data[i])[2])
      && (forall i :: 0 <= i < n ==> Columns(data).1[i] == Words(data[i])[1])
      && (n < |data| ==> |Words(data[n])| < 3)
  {
    if |data| > 0 && |Words(data[0])| >= 3 {
      ColumnsStop(data[1..]);
    }
  }

  /** The parser of `simulate`: skip four lines, then collect the columns,
      stopping at the first line with fewer than three fields. */
  method ParseProfile(response: seq<string>) returns (frequency: seq<string>, spectrum: seq<string>)
    ensures (frequency, spectrum) == Columns(Data(response))
    ensures |frequency| == |spectrum|
  {
    var data := Data(response);
    ColumnsStop(data);
    frequency, spectrum := [], [];
    var i := 0;
    while i < |data|
      invariant i <= |Columns(data).0|
      invariant frequency == Columns(data).0[..i]
      invariant spectrum == Columns(data).1[..i]
    {
      var fields := Words(data[i]);
      if |fields| < 3 {
        break;
      }
      frequency := frequency + [fields[2]];
      spectrum := spectrum + [fields[1]];
      i := i + 1;
    }
    assert frequency == Columns(data).0;
    assert spectrum == Columns(data).1;
  }

  /** A table written as four header lines, then rows of at least three
      non-empty whitespace-free fields joined by spaces, then anything that
      starts with a short line parses back into field 2 and field 1 of each
      row. */
  lemma ParseTable(head: seq<string>, rows: seq<seq<string>>, tail: seq<string>)
    requires |head| == 4
    requires forall r :: 0 <= r < |rows| ==> |rows[r]| >= 3
    requires forall r, i :: 0 <= r < |rows| && 0 <= i < |rows[r]| ==> |rows[r][i]| > 0
    requires forall r, i, j :: 0 <= r < |rows| && 0 <= i < |rows[r]| && 0 <= j < |rows[r][i]| ==>
      !IsAsciiSpace(rows[r][i][j])
    requires |tail| > 0 ==> |Words(tail[0])| < 3
    ensures Columns(Data(head + Render(rows) + tail)) == (ColumnOf(rows, 2), ColumnOf(rows, 1))
  {
    var data := Render(rows) + tail;
    assert Data(head + Render(rows) + tail) == data;
    forall r | 0 <= r < |rows|
      ensures Words(data[r]) == rows[r]
    {
      WordsJoin(rows[r]);
    }
    if |rows| < |data| {
      assert data[|rows|] == tail[0];
    }
    ColumnsOfRows(data, rows);
  }

  /** Rows of fields joined by single spaces, one line per row. */
  function Render(rows: seq<seq<string>>): (lines: seq<string>)
    ensures |lines| == |rows|
    ensures forall r :: 0 <= r < |rows| ==> lines[r] == Join(rows[r], ' ')
  {
    seq(|rows|, r requires 0 <= r < |rows| => Join(rows[r], ' '))
  }

  /** Field k of every row. */
  function ColumnOf(rows: seq<seq<string>>, k: nat): (col: seq<string>)
    requires forall r :: 0 <= r < |rows| ==> k < |rows[r]|
    ensures |col| == |rows|
  {
    if |rows| == 0 then [] else [rows[0][k]] + ColumnOf(rows[1..], k)
  }

  /** Lines whose words are the given rows, followed by a short line or by
      nothing, give field 2 and field 1 of the rows. */
  lemma {:induction false} ColumnsOfRows(data: seq<string>, rows: seq<seq<string>>)
    requires |rows| <= |data|
    requires forall r :: 0 <= r < |rows| ==> |rows[r]| >= 3 && Words(data[r]) == rows[r]
    requires |rows| < |data| ==> |Words(data[|rows|])| < 3
    ensures Columns(data) == (ColumnOf(rows, 2), ColumnOf(rows, 1))
  {
    if |rows| > 0 {
      ColumnsOfRows(data[1..], rows[1..]);
    }
  }
}
