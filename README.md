# cnuplot buffer core in Dafny

A model of the verifiable core of `cnuplot.h`, a single-header C wrapper
that drives a gnuplot subprocess over pipes. The model covers:

- the scratch arena (`cnuplot_temp`, `cnuplot_temp_count`): a bump
  allocator over a fixed byte array, with `cnuplot_temp_alloc`,
  `cnuplot_temp_reset` and `cnuplot_tsprintf` — class `TempArena.Arena`;
- the command-assembly arena (`cnuplot_temp_cmd`, `cnuplot_temp_cmd_count`):
  `cnuplot_append_cmd` writes each formatted fragment and a NUL at the
  offset but advances the offset past the fragment only, so fragments
  concatenate; `cnuplot_send_cmd` writes the buffer up to its first NUL plus
  a newline to gnuplot and rewinds the offset — class
  `CommandBuffer.CommandArena`, whose ghost field `sent` is the sequence of
  lines `cnuplot_send_cmd` wrote to gnuplot's input pipe (lines written by
  `cnuplot_send_line` go to the same pipe, interleaved with these, and are
  not recorded) and whose ghost field `fragments` is what was appended
  since the last send;
- the decision `cnuplot_getfloat` and `cnuplot_getint` make on the result of
  their single `read`: a count of 0 or below fails, otherwise the last byte
  is replaced by a NUL and the C string left is compared with the query's
  sentinel by `strncmp` — module `ScalarQuery`;
- the severity filter and tag of `cnuplot_log` — module `Logger`.

Shared C-string conventions (the NUL terminator, reading a buffer as a C
string, the store `vsnprintf` performs) are in module `CStrings`.

Pointers into an arena are modelled as offsets into its array. The output of
`vsnprintf` is a parameter (the formatted bytes); the model starts from it.
The C `assert`s that guard both arenas abort the program, so they are
modelled as preconditions: callers must stay within capacity. For the
scratch arena the precondition is the check the message describes
(`count + n <= capacity`), not the one written (see Findings).

The command array is declared with the scratch arena's capacity
(`CNUPLOT_TEMP_CAPACITY`) while its overflow check uses
`CNUPLOT_TEMP_CMD_CAPACITY`. This is safe only because the command capacity
is not larger; the constructor of `CommandArena` takes both numbers and
requires exactly that. The append assert's message (cnuplot.h:127) likewise
names the wrong constant: it suggests increasing `CNUPLOT_TEMP_CAPACITY`,
while the check it guards uses `CNUPLOT_TEMP_CMD_CAPACITY`.

The send writes the buffer up to its first NUL, not everything appended
since the last send: after a send with no append in between, it writes the
previous line again. The append check is the strict
`len + 1 < capacity - count`, so one byte of the command capacity is never
usable.

## Model

| member | source | states |
|---|---|---|
| `CStrings.UpToNul` | cnuplot.h:139-141 | the C string a buffer holds is a NUL-free prefix of it, followed by a NUL unless it is the whole buffer |
| `CStrings.UpToNulAt` | cnuplot.h:139-141 | a buffer whose first NUL is at index k holds exactly its first k bytes as a C string |
| `CStrings.ConcatNulFree` | cnuplot.h:132-134 | fragments without NUL concatenate to a text without NUL |
| `CStrings.TerminatedConcat` | cnuplot.h:128-141 | a buffer holding NUL-free fragments back to back, then a NUL, reads as their concatenation |
| `CStrings.StoreCString` | cnuplot.h:128-130 | writing formatted text with room for `len + 1` bytes stores the text, then a NUL, and changes no other byte |
| `TempArena.TilesWithin` | cnuplot.h:82-88 | every slice handed out since the last reset ends at or below the offset |
| `TempArena.TilesDisjoint` | cnuplot.h:82-88 | slices handed out since the last reset never overlap: each ends before any later one starts |
| `TempArena.AllocAssertAsWritten` | cnuplot.h:84 | the capacity check as written, `count + n >= capacity`; no contract of its own, its consequences are proved in AllocAssertReversed, AsWrittenRejectsFirstAlloc and AsWrittenAdmitsOverflow |
| `TempArena.AllocFits` | cnuplot.h:84 | the capacity check its message describes, `count + n <= capacity`; no contract of its own, it is the precondition of Arena.Alloc and Arena.Tsprintf, and AllocAssertReversed relates it to the written check |
| `TempArena.AllocAssertReversed` | cnuplot.h:84 | the written capacity check and the intended one agree only on a request that exactly fills the arena |
| `TempArena.AsWrittenRejectsFirstAlloc` | cnuplot.h:84 | as written, a one-byte allocation in a fresh default-capacity arena aborts although it fits |
| `TempArena.AsWrittenAdmitsOverflow` | cnuplot.h:84 | as written, a one-byte allocation in a full arena passes the check although it does not fit |
| `TempArena.Arena.constructor` | cnuplot.h:66-67 | the arena starts zero-filled with offset 0 and no slice handed out |
| `TempArena.Arena.Alloc` | cnuplot.h:82-88 | given that the request fits, returns the old offset, advances the offset by exactly n, the slice lies inside the array, and no byte changes |
| `TempArena.Arena.Reset` | cnuplot.h:90-93 | the offset becomes 0, every byte of the arena is unchanged, and the allocator invariant still holds |
| `TempArena.Arena.Tsprintf` | cnuplot.h:95-113 | consumes exactly len + 1 bytes at the old offset, stores the text and a NUL there, leaves all other bytes unchanged, and the returned offset reads back as the text when it has no NUL |
| `CommandBuffer.CommandArena.constructor` | cnuplot.h:69-70 | the buffer starts zero-filled with offset 0; requires the command capacity not to exceed the array length |
| `CommandBuffer.CommandArena.Append` | cnuplot.h:115-135 | under the strict check len + 1 < capacity - count, writes the fragment at the offset and a NUL after it, advances the offset by len (not len + 1), keeps bytes below the old offset, and keeps the buffer's prefix equal to the concatenation of the fragments since the last send |
| `CommandBuffer.CommandArena.Send` | cnuplot.h:137-144 | appends one line, the buffer up to its first NUL plus a newline, to the lines the command buffer has sent; sets the offset to 0 without clearing a byte; after NUL-free fragments since the last send, that line is their concatenation plus a newline |
| `CommandBuffer.PlotScenario` | cnuplot.h:115-144 | appending "plot " and "sin(x)" and sending writes the single line "plot sin(x)" followed by a newline |
| `CommandBuffer.ResendScenario` | cnuplot.h:137-144 | two sends with no append in between write the same line twice |
| `CommandBuffer.DefaultCommandArena` | cnuplot.h:57-70 | the default configuration (16 MiB array, 1 MiB command capacity) satisfies the arena invariant |
| `ScalarQuery.StrNCmpZeroIsPrefix` | cnuplot.h:263 | strncmp over the sentinel's length matches exactly when the sentinel is a prefix of the C string, so a shorter C string never matches |
| `ScalarQuery.StrNCmpZero` | cnuplot.h:263 | the `strncmp(buff, sentinel, strlen(sentinel)) == 0` test of lines 263 and 291, stopping at a shared NUL; no contract of its own, its meaning is proved in StrNCmpZeroIsPrefix |
| `ScalarQuery.UpToNulAll` | cnuplot.h:260 | a line with no NUL is read in full as a C string |
| `ScalarQuery.Classify` | cnuplot.h:251-266 | an answer comes only from a positive count and is a NUL-free prefix of the bytes read, without the last byte |
| `ScalarQuery.ClassifyReadFailures` | cnuplot.h:251-258 | a count of 0 yields NoAnswer and a negative count ReadFailed |
| `ScalarQuery.ClassifyLine` | cnuplot.h:259-266 | with a positive count, the response is Undefined exactly when the C string of the first count - 1 bytes starts with the sentinel, and otherwise is that C string |
| `ScalarQuery.ShortLineIsAnswer` | cnuplot.h:279-294 | a line shorter than the sentinel is never taken for it |
| `ScalarQuery.GetScalar` | cnuplot.h:245-271 | succeeds exactly on an answer, stores the parsed answer in the target then, and leaves the target unchanged on every failure |
| `ScalarQuery.GetFloat` | cnuplot.h:245-271 | cnuplot_getfloat after its query with the "undefined" sentinel: success only after a positive read count, and the target unchanged on every failure; FloatResponses and the GetScalar lemmas give the exact outcome |
| `ScalarQuery.GetInt` | cnuplot.h:273-299 | cnuplot_getint after its query with gnuplot's "undefined variable:" sentinel: success only after a positive read count, and the target unchanged on every failure; IntResponses and the GetScalar lemmas give the exact outcome |
| `ScalarQuery.SentinelLineFails` | cnuplot.h:263-266 | a line starting with the sentinel fails and leaves the target alone, whatever follows the sentinel |
| `ScalarQuery.ValueLinePassed` | cnuplot.h:267-270 | a NUL-free line not starting with the sentinel is parsed without its last byte |
| `ScalarQuery.FloatResponses` | cnuplot.h:245-271 | the float query fails on "undefined\n" and parses "3.50000e+00" from "3.50000e+00\n" |
| `ScalarQuery.IntResponses` | cnuplot.h:273-299 | the integer query fails on gnuplot's "undefined variable:" message and does not recognise the float query's sentinel |
| `Logger.LevelsOrdered` | cnuplot.h:21-25 | levels are ordered DEBUG < INFO < ERROR and have distinct values |
| `Logger.LogLine` | cnuplot.h:301-323 | what one call writes is either nothing or a line that starts with its level's tag and ends in a newline; SilentIffBelowMinimum and ExactlyOneTag prove when each happens and that no other tag appears |
| `Logger.DefaultMinimumFilter` | cnuplot.h:72 | under the initial minimum level INFO, Debug messages are dropped and Info and Error messages are written |
| `Logger.SilentIffBelowMinimum` | cnuplot.h:303 | a call writes nothing exactly when its level is below the minimum |
| `Logger.ExactlyOneTag` | cnuplot.h:304-322 | a call at or above the minimum writes its level's tag, the message and a newline, and the line starts with no other level's tag |
| `Logger.FilterMonotone` | cnuplot.h:303 | a message written at some level is also written at every higher level and under every lower minimum |

## Left out

- `cnuplot_init_driver` and `cnuplot_exit`: pipe, fork, dup2, execlp and waitpid are operating-system process plumbing; nothing is stated about them.
- `cnuplot_send_line`: it only formats and writes a line to the pipe; formatting and the write are outside the model, and so is its 128-byte debug-log rendering.
- The `read` and `dprintf` system calls: what read returned is the parameters `n` and `buf` of `ScalarQuery.Classify`; the lines `cnuplot_send_cmd` writes with `dprintf` are the ghost sequence `sent`. The lines `cnuplot_send_line` writes to the same pipe (the print setup at cnuplot.h:209, `exit` at 216, the query lines at 250 and 278, the macros at 42-48 and 51) are not recorded, so `sent` is not gnuplot's whole input. The macro at 49 appends through `cnuplot_append_cmd` instead, so its fragment is part of a line in `sent`.
- `vsnprintf` formatting: the formatted bytes are a parameter of `Tsprintf` and `Append`; the `length >= 0` asserts therefore always hold in the model.
- `strtof` and `strtol`: the parse is a function parameter of `ScalarQuery.GetScalar`; floats are not modelled and neither is the cast of `long` to `int`.
- The query lines sent before the read (cnuplot.h:250 and 278) and the debug and error log calls inside the arena and query functions: logging side effects are not modelled there.
- The 64-byte read buffer is not a bound in the model: any count up to the length of the bytes read is accepted.
- `int` and `size_t` widths: lengths and offsets are unbounded naturals, so an `int` length above INT_MAX from `vsnprintf` is not modelled; the invariant `count <= capacity` is what keeps `CNUPLOT_TEMP_CMD_CAPACITY - count` from wrapping.
- The process-wide singletons and thread safety: each arena is one object, and concurrent use is not modelled.
- `Logger`: the write to stderr is the returned string; the `default` branch of the switch is unreachable, since the match on the three levels is exhaustive.

## Findings

| source | as written | input that shows it | evidently intended | confidence | as-written member | corrected member |
|---|---|---|---|---|---|---|
| cnuplot.h:84 | the capacity assert demands `count + n >= capacity`, contradicting its own out-of-memory message, so it lets a request through only when it does not fit (or exactly fills the arena) | fresh arena, `cnuplot_temp_alloc(1)`: 0 + 1 >= 16 MiB is false, so the first allocation aborts; full arena, `cnuplot_temp_alloc(1)`: the check passes and the slice lies past the array | `count + n <= capacity` | not executed; high | `TempArena.AsWrittenRejectsFirstAlloc`, `TempArena.AsWrittenAdmitsOverflow` (about `TempArena.AllocAssertAsWritten`) | `TempArena.Arena.Alloc` (requires `TempArena.AllocFits`), with `TempArena.TilesWithin` and `TempArena.TilesDisjoint` |
