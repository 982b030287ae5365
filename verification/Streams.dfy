/** The stream under a session, with the operations begun on it. */
module Streams {
  import opened Messages

  /** The stream of one connection, with the operations begun on it that have not
      completed. Once moved from, it is no longer connected. */
  class Stream {
    var readOps: nat
    var writeOps: seq<Response>
    var shutdowns: nat
    var connected: bool
    ghost var started: seq<Response>
    ghost var stray: nat

    constructor (connected: bool)
      ensures readOps == 0 && writeOps == [] && shutdowns == 0
      ensures this.connected == connected && started == [] && stray == 0
    {
      readOps, writeOps, shutdowns := 0, [], 0;
      this.connected := connected;
      started, stray := [], 0;
    }

    method AsyncRead()
      modifies `readOps, `stray
      ensures readOps == old(readOps) + 1
      ensures stray == old(stray) + (if connected then 0 else 1)
    {
      readOps := readOps + 1;
      stray := if connected then stray else stray + 1;
    }

    method AsyncWrite(m: Response)
      modifies `writeOps, `started, `stray
      ensures writeOps == old(writeOps) + [m] && started == old(started) + [m]
      ensures stray == old(stray) + (if connected then 0 else 1)
    {
      writeOps, started := writeOps + [m], started + [m];
      stray := if connected then stray else stray + 1;
    }

    method ShutdownSend()
      modifies `shutdowns, `stray
      ensures shutdowns == old(shutdowns) + 1
      ensures stray == old(stray) + (if connected then 0 else 1)
    {
      shutdowns := shutdowns + 1;
      stray := if connected then stray else stray + 1;
    }

    /** Moves the connection into a new stream and leaves this one without. */
    method Release() returns (s: Stream)
      modifies `connected
      ensures fresh(s) && s.connected == old(connected) && !connected
      ensures s.readOps == 0 && s.writeOps == [] && s.shutdowns == 0 && s.started == [] && s.stray == 0
    {
      s := new Stream(connected);
      connected := false;
    }
  }
}
