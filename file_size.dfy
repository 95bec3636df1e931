/** formatFileSize: repeatedly divide by 1024 while the value is at least 1024
    and the unit is below GB, then round to two decimals and append the unit.
    Values are exact reals; dividing by 1024 is exact in binary floating
    point, so the unit choice agrees with the source. */
module FileSize {

  const Units: seq<string> := ["B", "KB", "MB", "GB"]

  /** 1024 raised to the unit index. */
  function Scale(u: nat): real
    requires u < 4
  {
    if u == 0 then 1.0
    else if u == 1 then 1024.0
    else if u == 2 then 1048576.0
    else 1073741824.0
  }

  /** The unit formatFileSize settles on for a value `x`. */
  function UnitFor(x: real): (u: nat)
    ensures u < 4
    ensures u == 0 || Scale(u) <= x
    ensures u == 3 || x < Scale(u + 1)
  {
    if x < 1024.0 then 0
    else if x < 1048576.0 then 1
    else if x < 1073741824.0 then 2
    else 3
  }

  /** PHP's round($x, 2) for a non-negative value (half rounds up): a whole
      number of hundredths, the nearest one to `x`. */
  function Round2(x: real): (r: real)
    requires x >= 0.0
    ensures r >= 0.0
    ensures x - 0.005 < r <= x + 0.005
    ensures (r * 100.0).Floor as real == r * 100.0
  {
    var k := (x * 100.0 + 0.5).Floor;
    assert (k as real / 100.0) * 100.0 == k as real;
    k as real / 100.0
  }

  /** The number formatFileSize prints before the unit. */
  function DisplayNumber(x: real): (r: real)
    requires x >= 0.0
    ensures r >= 0.0
  {
    Round2(x / Scale(UnitFor(x)))
  }

  /** The while loop of formatFileSize, then the rounding. */
  method FormatFileSize(size: real) returns (value: real, unit: string)
    requires size >= 0.0
    ensures value == DisplayNumber(size)
    ensures unit == Units[UnitFor(size)]
  {
    var s := size;
    var u: nat := 0;
    while s >= 1024.0 && u < |Units| - 1
      invariant u < 4
      invariant s == size / Scale(u)
      invariant u == 0 || Scale(u) <= size
    {
      s := s / 1024.0;
      u := u + 1;
    }
    value := Round2(s);
    unit := Units[u];
  }
}
