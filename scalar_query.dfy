/** The decision cnuplot_getfloat and cnuplot_getint make on what a single
    read of gnuplot's output returned: `n` is read's return value and `buf`
    the bytes it stored. Unlike the arenas (uint8_t), the reply is read into
    a `char` buffer and compared with `char` string literals, so it is
    modelled as a string; `Terminator` is the `char` form of the NUL byte. */
module ScalarQuery {
  import opened CStrings

  /** The C string terminator as a character. */
  const Terminator: char := '\0'

  /** The line gnuplot is asked to print for an undefined float variable. */
  const FloatSentinel: string := "undefined"

  /** The start of gnuplot's own message for an undefined variable. */
  const IntSentinel: string := "         undefined variable:"

  datatype Response =
    | NoAnswer          // read returned 0
    | ReadFailed        // read returned a negative count
    | Undefined         // the text starts with the sentinel
    | Answer(text: string)

  /** The character a C string reader sees first; past the end of the
      sequence it sees the terminator. */
  function Head(s: string): char
  {
    if s == [] then Terminator else s[0]
  }

  function Rest(s: string): string
  {
    if s == [] then [] else s[1..]
  }

  /** strncmp(a, b, k) == 0: the first `k` characters agree, stopping early
      at a terminator both strings share. */
  predicate StrNCmpZero(a: string, b: string, k: nat)
    decreases k
  {
    k == 0 ||
    (Head(a) == Head(b) && (Head(a) == Terminator || StrNCmpZero(Rest(a), Rest(b), k - 1)))
  }

  /** Comparing a C string with a terminator-free `b` over |b| characters
      succeeds exactly when `b` is a prefix of the C string; in particular a
      shorter C string never matches, since its terminator differs from b. */
  lemma {:induction false} StrNCmpZeroIsPrefix(a: string, b: string)
    requires Terminator !in b
    ensures StrNCmpZero(a, b, |b|) <==> b <= UpToNul(a, Terminator)
  {
    if b != [] {
      assert Head(b) == b[0] != Terminator;
      if a != [] && a[0] != Terminator {
        StrNCmpZeroIsPrefix(a[1..], b[1..]);
        assert UpToNul(a, Terminator) == [a[0]] + UpToNul(a[1..], Terminator);
      }
    }
  }

  /** A sequence without a terminator is one C string in full. */
  lemma UpToNulAll(s: string)
    requires Terminator !in s
    ensures UpToNul(s, Terminator) == s
  {
  }

  /** The shared part of cnuplot_getfloat and cnuplot_getint after the
      query line is sent: 0 and negative counts fail; otherwise the last
      byte (the newline) is overwritten with a terminator and the C string
      left is compared with the sentinel. */
  function Classify(n: int, buf: string, sentinel: string): (r: Response)
    requires n <= |buf|
    ensures r.Answer? ==> 0 < n && Terminator !in r.text && r.text <= buf[..n - 1]
  {
    if n == 0 then NoAnswer
    else if n < 0 then ReadFailed
    else
      var line := buf[..n - 1];
      if StrNCmpZero(line, sentinel, |sentinel|) then Undefined
      else Answer(UpToNul(line, Terminator))
  }

  /** A count of 0 or below is a failure and never an answer. */
  lemma ClassifyReadFailures(n: int, buf: string, sentinel: string)
    requires n <= 0 && n <= |buf|
    ensures n == 0 ==> Classify(n, buf, sentinel) == NoAnswer
    ensures n < 0 ==> Classify(n, buf, sentinel) == ReadFailed
  {
  }

  /** With a positive count, the response is Undefined exactly when the
      line without its last byte starts, as a C string, with the sentinel,
      and otherwise it is that C string. */
  lemma ClassifyLine(n: int, buf: string, sentinel: string)
    requires 0 < n <= |buf| && Terminator !in sentinel
    ensures var text := UpToNul(buf[..n - 1], Terminator);
            Classify(n, buf, sentinel) ==
              if sentinel <= text then Undefined else Answer(text)
  {
    StrNCmpZeroIsPrefix(buf[..n - 1], sentinel);
  }

  /** A line shorter than the sentinel is never taken for it. */
  lemma ShortLineIsAnswer(n: int, buf: string, sentinel: string)
    requires 0 < n <= |buf| && Terminator !in sentinel
    requires n - 1 < |sentinel|
    ensures Classify(n, buf, sentinel).Answer?
  {
    ClassifyLine(n, buf, sentinel);
  }

  /** cnuplot_getfloat / cnuplot_getint once the read has returned: on an
      answer `parse` (strtof or strtol) turns the text into the value stored
      in *target; on any failure *target keeps its value. */
  function GetScalar<T>(target: T, n: int, buf: string, sentinel: string,
                        parse: string -> T): (res: (bool, T))
    requires n <= |buf|
    ensures res.0 <==> Classify(n, buf, sentinel).Answer?
    ensures !res.0 ==> res.1 == target
    ensures res.0 ==> res.1 == parse(Classify(n, buf, sentinel).text)
  {
    match Classify(n, buf, sentinel)
    case Answer(text) => (true, parse(text))
    case _ => (false, target)
  }

  /** cnuplot_getfloat; the float type and strtof are left abstract. */
  function GetFloat<F>(target: F, n: int, buf: string, strtof: string -> F): (res: (bool, F))
    requires n <= |buf|
    ensures res.0 ==> 0 < n
    ensures !res.0 ==> res.1 == target
  {
    GetScalar(target, n, buf, FloatSentinel, strtof)
  }

  /** cnuplot_getint; strtol and the cast to int are left abstract. */
  function GetInt(target: int, n: int, buf: string, strtol: string -> int): (res: (bool, int))
    requires n <= |buf|
    ensures res.0 ==> 0 < n
    ensures !res.0 ==> res.1 == target
  {
    GetScalar(target, n, buf, IntSentinel, strtol)
  }

  /** A line that starts with the sentinel fails and leaves the target
      alone, whatever follows the sentinel. */
  lemma SentinelLineFails<T>(target: T, sentinel: string, rest: string, newline: char,
                             parse: string -> T)
    requires Terminator !in sentinel
    ensures GetScalar(target, |sentinel + rest| + 1, sentinel + rest + [newline], sentinel, parse)
            == (false, target)
  {
    var buf := sentinel + rest + [newline];
    var n := |sentinel + rest| + 1;
    ClassifyLine(n, buf, sentinel);
    assert buf[..n - 1] == sentinel + rest;
    var text := UpToNul(sentinel + rest, Terminator);
    assert sentinel <= text by {
      assert (sentinel + rest)[..|sentinel|] == sentinel;
    }
  }

  /** A terminator-free line that does not start with the sentinel is
      handed to the parser without its last byte. */
  lemma ValueLinePassed<T>(target: T, sentinel: string, text: string, newline: char,
                           parse: string -> T)
    requires Terminator !in sentinel && Terminator !in text
    requires !(sentinel <= text)
    ensures GetScalar(target, |text| + 1, text + [newline], sentinel, parse)
            == (true, parse(text))
  {
    var buf := text + [newline];
    ClassifyLine(|text| + 1, buf, sentinel);
    assert buf[..|text|] == text;
    UpToNulAll(text);
  }

  /** cnuplot_getfloat on gnuplot's line for an undefined variable fails and
      leaves the target alone; on a printed value it parses the value
      without its newline. */
  lemma FloatResponses<F>(target: F, strtof: string -> F)
    ensures GetFloat(target, 10, FloatSentinel + "\n", strtof) == (false, target)
    ensures GetFloat(target, 12, "3.50000e+00\n", strtof) == (true, strtof("3.50000e+00"))
  {
    SentinelLineFails(target, FloatSentinel, "", '\n', strtof);
    assert FloatSentinel + "" + ['\n'] == FloatSentinel + "\n";
    ValueLinePassed(target, FloatSentinel, "3.50000e+00", '\n', strtof);
    assert "3.50000e+00" + ['\n'] == "3.50000e+00\n";
  }

  /** cnuplot_getint on gnuplot's error message fails and leaves the target
      alone; a bare "undefined" line, the float query's sentinel, is not
      recognised and is handed to strtol. */
  lemma IntResponses(target: int, strtol: string -> int)
    ensures GetInt(target, 31, IntSentinel + " x\n", strtol) == (false, target)
    ensures GetInt(target, 10, FloatSentinel + "\n", strtol) == (true, strtol(FloatSentinel))
  {
    SentinelLineFails(target, IntSentinel, " x", '\n', strtol);
    assert IntSentinel + " x" + ['\n'] == IntSentinel + " x\n";
    ValueLinePassed(target, IntSentinel, FloatSentinel, '\n', strtol);
    assert FloatSentinel + ['\n'] == FloatSentinel + "\n";
  }
}
