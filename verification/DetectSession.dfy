/** The detector as an object: it reads until it knows whether the client speaks
    TLS, then hands its stream and its buffer to the session it chose. */
module DetectServer {
  import opened Messages
  import opened Handler
  import opened Pipeline
  import opened Streams
  import opened HttpServer
  import Connection

  /** The most responses a session queues. */
  const QUEUE_LIMIT: Limit := 8

  /** The phase of the connection a session that was just chosen stands for. */
  ghost function PhaseOf(session: HttpSession): (phase: Connection.Phase)
    requires session.Valid()
    reads session, session.queue, session.queue.items, session.stream
  {
    if session.handshakes > 0 then Connection.Handshaking(session.buffer)
    else Connection.Serving(session.tls, session.WireView())
  }

  class DetectSession {
    const stream: Stream
    const docRoot: string
    const settings: Settings
    const handlers: seq<HandlerFunction>
    var buffer: Bytes
    var detections: nat

    constructor (stream: Stream, docRoot: string, settings: Settings, handlers: seq<HandlerFunction>)
      ensures this.stream == stream && this.settings == settings && buffer == [] && detections == 0
    {
      this.stream, this.docRoot, this.settings, this.handlers := stream, docRoot, settings, handlers;
      buffer, detections := [], 0;
    }

    method OnRun()
      modifies `detections
      ensures detections == old(detections) + 1
    {
      detections := detections + 1;
    }

    /** Detection completed. The chosen session gets the live stream and every byte
        already read; the detector keeps neither. A plain session is reading, a TLS
        session is in its handshake and has not begun to serve. */
    method OnDetect(failed: bool, tls: bool) returns (session: HttpSession?)
      requires stream.connected
      modifies stream`connected, `buffer
      ensures session == null <==> failed
      ensures failed ==> stream.connected && buffer == old(buffer)
      ensures session != null ==>
                && fresh(session) && fresh(session.stream) && session.Valid()
                && session.stream.connected && !stream.connected
                && session.buffer == old(buffer) && buffer == []
                && session.tls == tls && session.queue.limit == 8 && session.settings == settings
                && session.handshakes == (if tls then 1 else 0)
                && session.View() == (if tls then IDLE else Start())
                && (!tls ==> Inv(session.Cfg(), session.View()))
      ensures session != null ==>
                forall s: Connection.Conn :: PhaseOf(session) == Connection.OnDetect(s, old(buffer), tls).phase
    {
      session := null;
      if failed {
        return;
      }
      var moved := stream.Release();
      var bytes := buffer;
      buffer := [];
      session := new HttpSession(moved, bytes, docRoot, handlers, settings, tls, QUEUE_LIMIT);
      session.Launch();
      StartInv(session.Cfg());
    }
  }
}
