/** The scratch arena: a fixed block of bytes handed out front to back by a
    bump offset and reclaimed all at once by rewinding the offset.
    A pointer into the arena is modelled as its offset. */
module TempArena {
  import opened CStrings

  /** CNUPLOT_TEMP_CAPACITY */
  const DefaultCapacity: nat := 16 * 1024 * 1024

  /** A slice handed out by the arena: `size` bytes starting at `start`. */
  datatype Region = Region(start: nat, size: nat)

  /** The regions handed out since the last reset lie back to back from
      offset 0 up to `end`, in the order they were handed out. */
  ghost predicate Tiles(rs: seq<Region>, end: nat)
    decreases |rs|
  {
    if rs == [] then end == 0
    else
      var last := rs[|rs| - 1];
      last.start + last.size == end && Tiles(rs[..|rs| - 1], last.start)
  }

  /** Every region lies below the offset. */
  lemma {:induction false} TilesWithin(rs: seq<Region>, end: nat, i: nat)
    requires Tiles(rs, end) && i < |rs|
    ensures rs[i].start + rs[i].size <= end
  {
    if i < |rs| - 1 {
      var init := rs[..|rs| - 1];
      TilesWithin(init, rs[|rs| - 1].start, i);
      assert init[i] == rs[i];
    }
  }

  /** A region handed out earlier ends before a later one starts: no two
      regions handed out since the last reset overlap. */
  lemma {:induction false} TilesDisjoint(rs: seq<Region>, end: nat, i: nat, j: nat)
    requires Tiles(rs, end) && i < j < |rs|
    ensures rs[i].start + rs[i].size <= rs[j].start
  {
    var init := rs[..|rs| - 1];
    if j < |rs| - 1 {
      TilesDisjoint(init, rs[|rs| - 1].start, i, j);
      assert init[i] == rs[i] && init[j] == rs[j];
    } else {
      TilesWithin(init, rs[|rs| - 1].start, i);
      assert init[i] == rs[i];
    }
  }

  /** The capacity check of cnuplot_temp_alloc as written: the request is let
      through when it does NOT fit (or exactly fills the arena). */
  predicate AllocAssertAsWritten(count: nat, n: nat, capacity: nat)
  {
    count + n >= capacity
  }

  /** The capacity check its message ("Ran out of memory!") describes: the
      request is let through when it fits. */
  predicate AllocFits(count: nat, n: nat, capacity: nat)
  {
    count + n <= capacity
  }

  /** The written check and the intended one agree only on a request that
      exactly fills the arena; everywhere else they give opposite answers. */
  lemma AllocAssertReversed(count: nat, n: nat, capacity: nat)
    ensures AllocAssertAsWritten(count, n, capacity) == AllocFits(count, n, capacity)
            <==> count + n == capacity
  {
  }

  /** As written, the very first one-byte allocation in a fresh arena of the
      default capacity aborts, although it fits. */
  lemma AsWrittenRejectsFirstAlloc()
    ensures AllocFits(0, 1, DefaultCapacity)
    ensures !AllocAssertAsWritten(0, 1, DefaultCapacity)
  {
  }

  /** As written, a one-byte allocation in a full arena is let through,
      although its region lies past the end of the array. */
  lemma AsWrittenAdmitsOverflow()
    ensures AllocAssertAsWritten(DefaultCapacity, 1, DefaultCapacity)
    ensures !AllocFits(DefaultCapacity, 1, DefaultCapacity)
  {
  }

  class Arena {
    /** cnuplot_temp; its length is the capacity */
    const data: array<byte>
    /** cnuplot_temp_count */
    var count: nat
    /** the regions handed out since the last reset */
    ghost var regions: seq<Region>

    ghost predicate Valid()
      reads this
    {
      count <= data.Length && Tiles(regions, count)
    }

    /** The zero-initialised static arena. */
    constructor (capacity: nat)
      ensures Valid() && fresh(data)
      ensures data.Length == capacity && count == 0 && regions == []
      ensures forall i :: 0 <= i < capacity ==> data[i] == NUL
    {
      data := new byte[capacity](_ => NUL);
      count := 0;
      regions := [];
    }

    /** cnuplot_temp_alloc(n), with the capacity check as intended: the slice
        at the old offset is handed out and the offset moves by exactly `n`. */
    method Alloc(n: nat) returns (start: nat)
      requires Valid() && AllocFits(count, n, data.Length)
      modifies this
      ensures Valid()
      ensures start == old(count) && count == old(count) + n
      ensures start + n <= data.Length
      ensures regions == old(regions) + [Region(start, n)]
      ensures data[..] == old(data[..])
    {
      start := count;
      count := count + n;
      regions := regions + [Region(start, n)];
      assert regions[..|regions| - 1] == old(regions);
    }

    /** cnuplot_temp_reset: the offset goes back to 0; no byte is cleared. */
    method Reset()
      requires Valid()
      modifies this
      ensures Valid()
      ensures count == 0 && regions == []
      ensures data[..] == old(data[..])
    {
      count := 0;
      regions := [];
    }

    /** cnuplot_tsprintf, given the formatted output `text`: reserves
        `|text| + 1` bytes and stores `text` and a NUL there. Bytes below the
        old offset and above the new one are unchanged, and the returned
        offset reads back as `text` when `text` holds no NUL. */
    method Tsprintf(text: seq<byte>) returns (start: nat)
      requires Valid() && AllocFits(count, |text| + 1, data.Length)
      modifies this, data
      ensures Valid()
      ensures start == old(count) && count == old(count) + |text| + 1
      ensures regions == old(regions) + [Region(start, |text| + 1)]
      ensures data[..] == old(data[..])[..start] + text + [NUL] + old(data[..])[count..]
      ensures NUL !in text ==> UpToNul(data[start..], NUL) == text
    {
      start := Alloc(|text| + 1);
      StoreCString(data, start, text);
      if NUL !in text {
        assert data[start..][..|text|] == text;
        UpToNulAt(data[start..], NUL, |text|);
      }
    }
  }
}
