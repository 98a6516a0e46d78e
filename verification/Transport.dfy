/**
 The byte transport behind the send and recv callbacks: what one side's send callback accepts,
 the other side's recv callback hands over, in any portions.
 */
module Transport {
  import opened Bytes

  class Pipe {
    var bytes: seq<byte>  // everything the writer's callback accepted
    var taken: nat        // how much of it the reader's callback has handed over
    const lively: bool    // a send call accepts at least one byte, a recv call gives at least one when there is one
    ghost var stalled: bool  // the last send call did not accept all it was offered
    ghost var overran: bool  // a send call claimed more than it was offered

    constructor (lively: bool)
      ensures bytes == [] && taken == 0 && this.lively == lively && !overran
    {
      this.lively := lively;
      bytes, taken, stalled, overran := [], 0, false, false;
    }

    /** The send callback: any return value; a value in range is the number of bytes accepted. */
    method Send(data: seq<byte>) returns (r: int)
      modifies this`bytes, this`stalled, this`overran
      ensures stalled == (r < |data|) && overran == (old(overran) || r > |data|)
      ensures old(bytes) <= bytes
      ensures r <= 0 ==> bytes == old(bytes)
      ensures 0 < r <= |data| ==> bytes == old(bytes) + data[..r]
      ensures lively && data != [] ==> r > 0
    {
      r := *;
      if lively && r <= 0 && data != [] {
        r := 1;
      }
      stalled, overran := r < |data|, overran || r > |data|;
      if r > 0 {
        bytes := bytes + if r <= |data| then data[..r] else data;
      }
    }

    /** The recv callback: fills at most the offered space; no bytes at all is an error return. */
    method Recv(buf: array<byte>, off: nat) returns (r: int)
      requires off <= buf.Length && taken <= |bytes|
      requires buf.Length - off >= 4089
      modifies buf, this`taken
      ensures r <= buf.Length - off
      ensures taken == old(taken) + (if r > 0 then r else 0) <= |bytes|
      ensures buf[..off] == old(buf[..off])
      ensures r > 0 ==> buf[off..off + r] == bytes[old(taken)..taken]
      ensures lively && old(taken) < |bytes| ==> r > 0
    {
      r := *;
      if r > buf.Length - off || r > |bytes| - taken {
        r := 0;
      }
      if lively && r <= 0 && taken < |bytes| {
        r := 1;
      }
      if r > 0 {
        forall i | 0 <= i < r {
          buf[off + i] := bytes[taken + i];
        }
        taken := taken + r;
      }
    }
  }
}
