/** 64-bit machine words, modelled as natural numbers with explicit wrap-around
    (the release profile of the kernel: `+`, `-` and `<<` never trap). */
module Words {

  const WORD := 0x1_0000_0000_0000_0000

  datatype Option<+T> = None | Some(value: T)

  /** Two's-complement truncation of an integer result to a `usize`. */
  function Wrap(i: int): (w: nat)
    ensures w < WORD
    ensures 0 <= i < WORD ==> w == i
  {
    i % WORD
  }

  ghost predicate NoDuplicates(s: seq<nat>) {
    forall i, j :: 0 <= i < j < |s| ==> s[i] != s[j]
  }
}
