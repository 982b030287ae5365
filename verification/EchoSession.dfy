/** The WebSocket session as an object updated by its callbacks. */
module EchoServer {
  import opened Messages
  import opened Echo
  import opened Streams

  class EchoSession {
    const stream: Stream
    var buffer: Bytes
    var accepts: nat
    var readOps: nat
    var writeOps: seq<bool>
    var gotText: bool
    ghost var ended: bool
    ghost var frames: seq<Frame>
    ghost var echoed: seq<Message>

    ghost function View(): (t: Channel)
      reads this
    {
      Channel(buffer, accepts, readOps, writeOps, gotText, ended, frames, echoed)
    }

    constructor (stream: Stream)
      ensures View() == Start().(accepts := 0) && this.stream == stream
    {
      this.stream := stream;
      buffer, accepts, readOps, writeOps, gotText := [], 0, 0, [], false;
      ended, frames, echoed := false, [], [];
    }

    /** Accepts the upgrade. */
    method Launch()
      modifies this
      ensures View() == old(View()).(accepts := old(accepts) + 1)
    {
      accepts := accepts + 1;
    }

    method DoRead()
      modifies `readOps
      ensures View() == Arm(old(View()))
    {
      readOps := readOps + 1;
    }

    method OnAccept(failed: bool)
      modifies this
      ensures View() == if failed then old(View()).(ended := true) else Arm(old(View()))
    {
      if failed {
        ended := true;
        return;
      }
      DoRead();
    }

    method OnRead(failed: bool)
      modifies this
      ensures View() == if failed then old(View()).(ended := true) else Echo.OnRead(old(View()))
    {
      if failed {
        ended := true;
        return;
      }
      writeOps := writeOps + [gotText];
    }

    method OnWrite(failed: bool)
      modifies this
      ensures View() == if failed then old(View()).(ended := true) else Echo.OnWrite(old(View()))
    {
      if failed {
        ended := true;
        return;
      }
      buffer := buffer[|buffer|..];
      DoRead();
    }

    /** The library appends a frame to the buffer of the outstanding read. */
    method Append(f: Frame)
      modifies this
      ensures View() == Receive(old(View()), f)
    {
      buffer := buffer + f.payload;
      gotText := if f.First? then f.text else gotText;
      frames := frames + [f];
    }

    /** A write completed: what it sent is what the buffer holds. */
    method FinishWrite()
      requires writeOps != []
      modifies this
      ensures View() == old(View()).(writeOps := old(writeOps)[1..],
                                     echoed := old(echoed) + [Message(old(writeOps)[0], old(buffer))])
    {
      echoed := echoed + [Message(writeOps[0], buffer)];
      writeOps := writeOps[1..];
    }

    /** The environment makes progress on an outstanding operation; when that
        completes it, the callback runs. */
    method Complete(e: Event)
      requires Inv(View()) && Enabled(View(), e)
      modifies this
      ensures View() == Step(old(View()), e)
      ensures Inv(View())
    {
      StepKeepsInv(View(), e);
      match e {
        case AcceptOk => accepts := accepts - 1; OnAccept(false);
        case AcceptError => accepts := accepts - 1; OnAccept(true);
        case ReadEnded => readOps := readOps - 1; OnRead(true);
        case FrameIn(f) =>
          Append(f);
          if f.fin {
            readOps := readOps - 1;
            OnRead(false);
          }
        case WriteOk => FinishWrite(); OnWrite(false);
        case WriteError => writeOps := writeOps[1..]; OnWrite(true);
      }
    }
  }
}
