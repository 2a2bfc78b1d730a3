/** Clock ticks and the truncating arithmetic of std::chrono::duration_cast. */
module Clock {

  // Ticks of std::chrono clocks (nanoseconds) in one second.
  const SECOND := 1_000_000_000

  /** C++ integer division: truncates toward zero. */
  function TruncDiv(a: int, b: int): int
    requires b > 0
  {
    if a >= 0 then a / b else -((-a) / b)
  }

  /** duration_cast<seconds>(ticks).count() */
  function WholeSeconds(ticks: int): int {
    TruncDiv(ticks, SECOND)
  }
}
