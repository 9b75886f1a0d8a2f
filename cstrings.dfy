/** Conventions shared by both arenas: bytes, the NUL terminator, reading a
    buffer as a C string, and storing a NUL-terminated text into a buffer
    (which is what vsnprintf does once it is given room for `len + 1` bytes). */
module CStrings {

  /** uint8_t */
  newtype byte = x: int | 0 <= x < 256

  const NUL: byte := 0
  const LF: byte := 10

  /** The C string held by a buffer: everything before its first `nul`,
      or the whole buffer if it holds none. */
  function UpToNul<T(==)>(s: seq<T>, nul: T): (r: seq<T>)
    ensures |r| <= |s| && r == s[..|r|]
    ensures nul !in r
    ensures |r| < |s| ==> s[|r|] == nul
    decreases |s|
  {
    if s == [] || s[0] == nul then [] else [s[0]] + UpToNul(s[1..], nul)
  }

  /** A buffer whose first `k` elements are free of `nul` and whose element
      `k` is `nul` holds exactly those `k` elements as a C string. */
  lemma UpToNulAt<T>(s: seq<T>, nul: T, k: nat)
    requires k < |s| && s[k] == nul && nul !in s[..k]
    ensures UpToNul(s, nul) == s[..k]
  {
  }

  /** The concatenation of a sequence of fragments, in order. */
  function Concat<T>(fs: seq<seq<T>>): seq<T>
  {
    if fs == [] then [] else Concat(fs[..|fs| - 1]) + fs[|fs| - 1]
  }

  ghost predicate NulFree(fs: seq<seq<byte>>)
  {
    forall i :: 0 <= i < |fs| ==> NUL !in fs[i]
  }

  lemma {:induction false} ConcatNulFree(fs: seq<seq<byte>>)
    requires NulFree(fs)
    ensures NUL !in Concat(fs)
  {
    if fs != [] {
      var init := fs[..|fs| - 1];
      assert NulFree(init) by {
        forall i | 0 <= i < |init| ensures NUL !in init[i] {
          assert init[i] == fs[i];
        }
      }
      ConcatNulFree(init);
      assert NUL !in fs[|fs| - 1];
    }
  }

  /** A buffer that holds the concatenation of NUL-free fragments followed
      by a NUL reads, as a C string, as exactly that concatenation. */
  lemma TerminatedConcat(s: seq<byte>, fs: seq<seq<byte>>, k: nat)
    requires k < |s| && s[..k] == Concat(fs) && s[k] == NUL && NulFree(fs)
    ensures UpToNul(s, NUL) == Concat(fs)
  {
    ConcatNulFree(fs);
    UpToNulAt(s, NUL, k);
  }

  /** vsnprintf(a + at, |text| + 1, ...) once the formatted output `text` is
      known: the text goes to [at, at + |text|), a NUL to at + |text|, and
      nothing else changes. */
  method StoreCString(a: array<byte>, at: nat, text: seq<byte>)
    requires at + |text| < a.Length
    modifies a
    ensures a[..] == old(a[..])[..at] + text + [NUL] + old(a[..])[at + |text| + 1..]
  {
    forall i | at <= i < at + |text| {
      a[i] := text[i - at];
    }
    a[at + |text|] := NUL;
  }
}
