/** cnuplot_log: the severity filter and the tag in front of each diagnostic
    line. The message is the already formatted text; the result is what is
    written to the diagnostic stream. */
module Logger {

  /** Cnuplot_Log_Level */
  datatype Level = Debug | Info | Error

  /** The enumerator's value, which the filter compares. */
  function Rank(l: Level): nat
  {
    match l
    case Debug => 0
    case Info => 1
    case Error => 2
  }

  /** cnuplot_minimal_log_level's initial value. */
  const DefaultMinimum: Level := Info

  function Tag(l: Level): string
  {
    match l
    case Debug => "[DEBUG] "
    case Info => "[INFO] "
    case Error => "[ERROR] "
  }

  /** What one call writes: nothing below the minimum level, otherwise the
      level's tag, the message and a newline. */
  function LogLine(level: Level, minimum: Level, message: string): (out: string)
    ensures out == [] || (Tag(level) <= out && out[|out| - 1] == '\n')
  {
    if Rank(level) < Rank(minimum) then [] else Tag(level) + message + "\n"
  }

  /** Levels are ordered Debug < Info < Error, and each has its own rank. */
  lemma LevelsOrdered(a: Level, b: Level)
    ensures Rank(Debug) < Rank(Info) < Rank(Error)
    ensures Rank(a) == Rank(b) <==> a == b
  {
  }

  /** A call writes nothing exactly when its level is below the minimum. */
  lemma SilentIffBelowMinimum(level: Level, minimum: Level, message: string)
    ensures LogLine(level, minimum, message) == [] <==> Rank(level) < Rank(minimum)
  {
    assert |Tag(level)| > 0;
  }

  /** A call at or above the minimum writes one line that starts with its
      own level's tag and with no other level's tag. */
  lemma ExactlyOneTag(level: Level, minimum: Level, message: string, other: Level)
    requires Rank(minimum) <= Rank(level)
    ensures LogLine(level, minimum, message) == Tag(level) + message + "\n"
    ensures Tag(level) <= LogLine(level, minimum, message)
    ensures other != level ==> !(Tag(other) <= LogLine(level, minimum, message))
  {
    var out := LogLine(level, minimum, message);
    assert out[..|Tag(level)|] == Tag(level);
    // the tags differ in their second character
    assert out[1] == Tag(level)[1];
    assert other != level ==> Tag(other)[1] != out[1];
  }

  /** A message that gets through at some level also gets through at every
      higher level, and under every lower minimum. */
  lemma FilterMonotone(level: Level, higher: Level, minimum: Level, lower: Level, message: string)
    requires LogLine(level, minimum, message) != []
    requires Rank(level) <= Rank(higher) && Rank(lower) <= Rank(minimum)
    ensures LogLine(higher, minimum, message) != []
    ensures LogLine(level, lower, message) != []
  {
  }

  /** Under the initial minimum, Debug messages are dropped while Info and
      Error messages are written. */
  lemma DefaultMinimumFilter(message: string)
    ensures LogLine(Debug, DefaultMinimum, message) == []
    ensures LogLine(Info, DefaultMinimum, message) != []
    ensures LogLine(Error, DefaultMinimum, message) != []
  {
  }
}
