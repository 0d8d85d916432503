/** The sign of a comparison result, the only part of it that the .NET comparison contracts fix. */
module Signs {
  function Sign(n: int): (r: int)
    ensures r == -1 || r == 0 || r == 1
    ensures (r < 0 <==> n < 0) && (r > 0 <==> n > 0)
  {
    if n < 0 then -1 else if n > 0 then 1 else 0
  }
}
