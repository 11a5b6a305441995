/** Machine words, bytes and small types that the other modules share. */
module Machine {

  newtype byte = b: int | 0 <= b < 256

  const TWO32: nat := 0x1_0000_0000
  const PAGE_SIZE: nat := 4096
  const FAILED: nat := 0xffff_ffff            // (uint32) -1

  datatype Option<T> = None | Some(value: T)

  ghost predicate NoDup<T>(s: seq<T>) {
    forall i, j :: 0 <= i < j < |s| ==> s[i] != s[j]
  }
}
