/** The command-assembly arena: formatted fragments are appended one after
    the other, each overwriting the previous NUL, and the assembled line is
    written to gnuplot's input pipe and the offset rewound. */
module CommandBuffer {
  import opened CStrings
  import TempArena

  /** CNUPLOT_TEMP_CMD_CAPACITY */
  const DefaultCmdCapacity: nat := 1024 * 1024

  class CommandArena {
    /** cnuplot_temp_cmd; it is declared with the scratch arena's length */
    const data: array<byte>
    /** the capacity the overflow check uses */
    const capacity: nat
    /** cnuplot_temp_cmd_count */
    var count: nat
    /** the fragments appended since the last send */
    ghost var fragments: seq<seq<byte>>
    /** the lines this buffer's sends wrote to gnuplot's input pipe, oldest
        first; lines written to the same pipe by other calls are not here */
    ghost var sent: seq<seq<byte>>

    ghost predicate Valid()
      reads this, data
    {
      capacity <= data.Length && count <= capacity &&
      NUL in data[..] &&
      data[..count] == Concat(fragments) &&
      (fragments != [] ==> count < data.Length && data[count] == NUL)
    }

    /** The zero-initialised static buffer. The array has `bufferLength`
        bytes while the overflow check uses `cmdCapacity`; the writes stay
        inside the array only because the latter is not larger. */
    constructor (bufferLength: nat, cmdCapacity: nat)
      requires 0 < bufferLength && cmdCapacity <= bufferLength
      ensures Valid() && fresh(data)
      ensures data.Length == bufferLength && capacity == cmdCapacity
      ensures count == 0 && fragments == [] && sent == []
      ensures forall i :: 0 <= i < bufferLength ==> data[i] == NUL
    {
      data := new byte[bufferLength](_ => NUL);
      capacity := cmdCapacity;
      count := 0;
      fragments := [];
      sent := [];
      new;
      assert data[..][0] == NUL;
    }

    /** cnuplot_append_cmd, given the formatted output `fragment`: the
        fragment goes to [count, count + |fragment|) with a NUL after it,
        and the offset moves by |fragment| only, so that the next fragment
        overwrites the NUL. */
    method Append(fragment: seq<byte>)
      requires Valid()
      requires |fragment| + 1 < capacity - count
      modifies this, data
      ensures Valid()
      ensures count == old(count) + |fragment|
      ensures data[..] == old(data[..])[..old(count)] + fragment + [NUL]
                          + old(data[..])[old(count) + |fragment| + 1..]
      ensures fragments == old(fragments) + [fragment]
      ensures sent == old(sent)
    {
      ghost var before := Concat(fragments);
      StoreCString(data, count, fragment);
      count := count + |fragment|;
      fragments := fragments + [fragment];
      assert fragments[..|fragments| - 1] == old(fragments);
      assert data[..count] == before + fragment;
      assert data[..][count] == NUL;
    }

    /** cnuplot_send_cmd: writes the buffer up to its first NUL and a
        newline as one line, and rewinds the offset without clearing any
        byte. After one or more NUL-free fragments since the last send, the
        line is their concatenation. */
    method Send()
      requires Valid()
      modifies this
      ensures Valid()
      ensures count == 0 && fragments == []
      ensures data[..] == old(data[..])
      ensures sent == old(sent) + [UpToNul(data[..], NUL) + [LF]]
      ensures old(fragments) != [] && NulFree(old(fragments)) ==>
                sent == old(sent) + [Concat(old(fragments)) + [LF]]
    {
      if fragments != [] && NulFree(fragments) {
        TerminatedConcat(data[..], fragments, count);
      }
      sent := sent + [UpToNul(data[..], NUL) + [LF]];
      count := 0;
      fragments := [];
    }
  }

  /** The text of a string whose characters are all single bytes. */
  function Ascii(s: string): seq<byte>
    requires forall i :: 0 <= i < |s| ==> s[i] as int < 256
  {
    seq(|s|, i requires 0 <= i < |s| => s[i] as int as byte)
  }

  /** A string without the NUL character gives bytes without NUL. */
  lemma AsciiNulFree(s: string)
    requires forall i :: 0 <= i < |s| ==> 0 < s[i] as int < 256
    ensures NUL !in Ascii(s)
  {
  }

  /** Appending "plot " and then "sin(x)" and sending writes the single
      line "plot sin(x)" and a newline. */
  method PlotScenario(arena: CommandArena)
    requires arena.Valid() && arena.fragments == [] && arena.count == 0
    requires 12 < arena.capacity
    modifies arena, arena.data
    ensures arena.Valid() && arena.count == 0
    ensures arena.sent == old(arena.sent) + [Ascii("plot ") + Ascii("sin(x)") + [LF]]
  {
    var plot, sine := Ascii("plot "), Ascii("sin(x)");
    AsciiNulFree("plot ");
    AsciiNulFree("sin(x)");
    arena.Append(plot);
    arena.Append(sine);
    assert arena.fragments == [plot, sine];
    arena.Send();
    assert Concat([plot, sine]) == plot + sine;
  }

  /** Sending twice with no append in between writes the same line twice,
      because a send clears no byte. */
  method ResendScenario(arena: CommandArena)
    requires arena.Valid()
    modifies arena
    ensures arena.Valid() && arena.count == 0
    ensures |arena.sent| == |old(arena.sent)| + 2
    ensures arena.sent[|arena.sent| - 1] == arena.sent[|arena.sent| - 2]
  {
    arena.Send();
    arena.Send();
  }

  /** The buffer as the library declares it: the scratch arena's length with
      the command capacity, which is the smaller of the two. */
  method DefaultCommandArena() returns (arena: CommandArena)
    ensures arena.Valid() && fresh(arena.data)
    ensures arena.data.Length == TempArena.DefaultCapacity
    ensures arena.capacity == DefaultCmdCapacity
    ensures arena.count == 0 && arena.fragments == [] && arena.sent == []
  {
    arena := new CommandArena(TempArena.DefaultCapacity, DefaultCmdCapacity);
  }
}
