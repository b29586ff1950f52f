/**
What the host system contributes to a run.
*/
module HostSystem {
  import opened Words

  /**
  What the host answers if the step turns out to be a system call: the bytes it
  read, or that reading failed, a returned number, and the start of a time value.
  */
  datatype Host = Host(input: seq<Byte>, failed: bool, result: Word, clock: Word)

  /** A read delivers what there is, from the front, and no more than was asked for. */
  function Received(input: seq<Byte>, len: Word): (bs: seq<Byte>)
    ensures bs <= input && |bs| <= len
    ensures |bs| == |input| || |bs| == len
  {
    if |input| <= len then input else input[..len]
  }
}
