/** The two ends the proxy talks to: a connection read in pieces and a
    connection written to, either of which may fail at any call. */
module Streams {
  import opened Words

  /** Hands out what is left in pieces of any positive size up to the limit; None is a failed read. */
  class Source {
    var unread: seq<byte>

    constructor (unread: seq<byte>)
      ensures this.unread == unread
    {
      this.unread := unread;
    }

    method Read(limit: nat) returns (r: Option<seq<byte>>)
      modifies this
      ensures r.Some? ==> |r.value| <= limit && old(unread) == r.value + unread
      ensures r.Some? && r.value == [] ==> limit == 0 || old(unread) == []
      ensures r.None? ==> unread == old(unread)
    {
      if * {
        return None;
      }
      var most := Min(limit, |unread|);
      var n :| 0 <= n <= most && (n == 0 ==> most == 0);
      r := Some(unread[..n]);
      unread := unread[n..];
    }
  }

  /** Takes bytes; a failing write may have sent part of them. */
  class Sink {
    var written: seq<byte>

    constructor ()
      ensures written == []
    {
      written := [];
    }

    method WriteAll(bytes: seq<byte>) returns (ok: bool)
      modifies this
      ensures ok ==> written == old(written) + bytes
      ensures !ok ==> old(written) <= written <= old(written) + bytes
    {
      ok := *;
      var n :| 0 <= n <= |bytes| && (ok ==> n == |bytes|);
      written := written + bytes[..n];
    }
  }
}
