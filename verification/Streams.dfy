/** Stream buffers, as far as the formats use them. */
module Streams {
  import opened Arith

  /** The buffer of an output stream: it takes all that is written. */
  class OutStream {
    var written: seq<byte>

    constructor ()
      ensures written == []
    {
      written := [];
    }

    method Sputn(b: seq<byte>)
      modifies this
      ensures written == old(written) + b
    {
      written := written + b;
    }
  }

  /** The buffer of an input stream. */
  class InStream {
    var unread: seq<byte>

    constructor (input: seq<byte>)
      ensures unread == input
    {
      unread := input;
    }

    /** The next byte, or -1 at the end of the input. */
    method Sbumpc() returns (ch: int)
      modifies this
      ensures old(unread) == [] ==> ch == -1 && unread == []
      ensures old(unread) != [] ==> ch == old(unread)[0] as int && unread == old(unread)[1..]
    {
      if unread == [] {
        ch := -1;
      } else {
        ch := unread[0];
        unread := unread[1..];
      }
    }

    /** The next n bytes, or what there is if there are fewer. */
    method Sgetn(n: nat) returns (b: seq<byte>)
      modifies this
      ensures |old(unread)| >= n ==> b == old(unread)[..n] && unread == old(unread)[n..]
      ensures |old(unread)| < n ==> b == old(unread) && unread == []
    {
      var k := if |unread| < n then |unread| else n;
      b := unread[..k];
      unread := unread[k..];
    }
  }
}
