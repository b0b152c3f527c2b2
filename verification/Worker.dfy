/**
 worker.c and aeserver.c: the handlers on both ends of the pipe, over the
 dynamic strings and the event loop they use.
 */
module Worker {
  import opened Common
  import opened Pipe
  import opened FileEvents
  import Sds

  const ON_WRITABLE: Proc := 1     // onWorkerPipeWritable

  class WorkerProcess {
    const el: EventLoop
    const pipefd: nat
    const send_buffer: Sds.Sds

    /** What is watched calls onWorkerPipeWritable. */
    ghost predicate Base()
      reads this, el, el.events, send_buffer, send_buffer.buf
    {
      && send_buffer.Valid() && Apart()
      && pipefd < el.events.Length && MaxOk(el.Abstract())
      && (Watched() ==> el.events[pipefd].wfileProc == ON_WRITABLE)
    }

    ghost predicate Watched()
      reads this, el, el.events
      requires pipefd < el.events.Length
    {
      el.events[pipefd].mask & WRITABLE != NONE
    }

    /** The pipe is watched for writing exactly while there is something to write. */
    ghost predicate Valid()
      reads this, el, el.events, send_buffer, send_buffer.buf
    {
      Base() && (Watched() <==> send_buffer.Contents() != [])
    }

    /** The two arrays are different objects. */
    ghost predicate Apart()
      reads el, send_buffer
    {
      var a: object, b: object := el.events, send_buffer.buf;
      a != b
    }

    ghost function Buffer(): seq<byte>
      reads this, send_buffer, send_buffer.buf
      requires send_buffer.Valid()
    {
      send_buffer.Contents()
    }

    /** A worker's loop of its own, with nothing to send. */
    constructor (setsize: nat, fd: nat)
      requires fd < setsize
      ensures Valid() && fresh(el) && fresh(el.events) && fresh(send_buffer) && fresh(send_buffer.buf)
      ensures pipefd == fd && Buffer() == []
    {
      var l := new EventLoop(setsize);
      var s := new Sds.Sds([]);
      el, pipefd, send_buffer := l, fd, s;
      new;
      assert fd !in Registered(el.Abstract());
      assert (NONE & WRITABLE) == NONE;
    }

    /** aeCreateFileEvent on the pipe before the first byte is buffered; epoll_ctl may refuse. */
    method Watch(accepted: bool)
      requires Base()
      modifies el, el.events
      ensures Base() && Buffer() == old(Buffer()) && el.events == old(el.events)
      ensures Watched() <==> old(Watched()) || (old(Buffer()) == [] && accepted)
    {
      hide MaxOk;
      if send_buffer.len == 0 {
        assert Buffer() == [];
        WatchOk(el.Abstract(), pipefd, accepted);
        var _ := el.CreateFileEvent(pipefd, WRITABLE, ON_WRITABLE, 0, accepted);
      } else {
        assert send_buffer.Contents() != [];
      }
    }

    /**
     sendMessageToReactor. A refused registration goes unnoticed: the bytes are
     then buffered with nobody watching, and no later call tries again.
     */
    method SendMessageToReactor(c: Call, accepted: bool) returns (n: int)
      requires Base() && WellFormed(c) && c.Send?
      modifies el, el.events, send_buffer, send_buffer.buf
      ensures Base() && Buffer() == old(Buffer()) + Frame(c)
      ensures n == if c.protocol == Tcp then c.len else |c.response|
      ensures var text := if c.protocol == Tcp then c.buff else c.response;
              Buffer() == old(Buffer()) + Header(MESSAGE, n, c.connfd) + if c.len >= 0 then text else []
      ensures el.events == old(el.events) && (send_buffer.buf == old(send_buffer.buf) || fresh(send_buffer.buf))
      ensures Watched() <==> old(Watched()) || (old(Buffer()) == [] && accepted)
      ensures old(Valid()) ==> (Valid() <==> old(Buffer()) != [] || accepted)
    {
      hide MaxOk, Frame, Header;
      MessageFrame(c, Buffer());
      var len: int32 := 0;
      Watch(accepted);
      if c.protocol != Tcp {
        len := |c.response|;
      } else {
        len := c.len;
      }
      Append(c, len);
      n := len;
    }

    /** The header, and the body unless the length argument is negative. */
    method Append(c: Call, len: int32)
      requires Base() && WellFormed(c) && c.Send? && len == Announced(c)
      modifies send_buffer, send_buffer.buf
      ensures Base() && Buffer() == old(Buffer()) + Frame(c)
      ensures send_buffer.buf == old(send_buffer.buf) || fresh(send_buffer.buf)
    {
      hide MaxOk, Header, Sds.Capacity;
      ghost var was := Buffer();
      send_buffer.CatLen(Header(MESSAGE, len, c.connfd));
      if c.len >= 0 {
        if c.protocol == Tcp {
          send_buffer.CatLen(c.buff);
        } else {
          send_buffer.CatLen(c.response);
        }
      }
      assert Buffer() == was + Frame(c);
    }

    /** sendCloseEventToReactor with send2ReactorThread: the header only. */
    method SendCloseEventToReactor(c: Call, accepted: bool)
      requires Base() && WellFormed(c) && c.Close?
      modifies el, el.events, send_buffer, send_buffer.buf
      ensures Base() && Buffer() == old(Buffer()) + Frame(c)
      ensures var len: int32 := if c.protocol == WebSocket then |c.response| else 0;
              Buffer() == old(Buffer()) + Header(CLOSE, len, c.connfd)
      ensures Watched() <==> old(Watched()) || (old(Buffer()) == [] && accepted)
      ensures old(Valid()) ==> (Valid() <==> old(Buffer()) != [] || accepted)
    {
      hide MaxOk, Header, Sds.Capacity;
      ghost var was := Buffer();
      var len: int32 := 0;
      if c.protocol == WebSocket {
        len := |c.response|;
      }
      Watch(accepted);
      send_buffer.CatLen(Header(CLOSE, len, c.connfd));
      assert Buffer() == was + Frame(c);
    }

    /** onWorkerPipeWritable, when write took n bytes. */
    method OnWorkerPipeWritable(n: int)
      requires Base() && n <= |Buffer()|
      modifies el, el.events, send_buffer, send_buffer.buf
      ensures Base() && (old(Valid()) ==> Valid())
      ensures Buffer() == if n <= 0 then old(Buffer()) else old(Buffer())[n..]
    {
      hide MaxOk, Sds.Kept;
      if n <= 0 {
        return;
      }
      KeptRest(Buffer(), n);
      send_buffer.Range(n, -1);
      if send_buffer.len == 0 {
        UnwatchOk(el.Abstract(), pipefd);
        el.DeleteFileEvent(pipefd, WRITABLE);
      }
    }
  }

  /** One refused registration: two messages wait, the second registration is not even tried, and nobody watches. */
  method RefusedOnce() returns (w: WorkerProcess)
    ensures w.Base() && !w.Valid() && !w.Watched() && |w.Buffer()| == 20
  {
    hide Frame, MaxOk;
    var c := Send(7, Tcp, [65], 1, []);
    FrameLength(c);
    w := new WorkerProcess(10, 3);
    var _ := w.SendMessageToReactor(c, false);
    var _ := w.SendMessageToReactor(c, true);
  }

  lemma MessageFrame(c: Call, before: seq<byte>)
    requires WellFormed(c) && c.Send?
    ensures var n: int32 := if c.protocol == Tcp then c.len else |c.response|;
            var text := if c.protocol == Tcp then c.buff else c.response;
            before + Frame(c) == before + Header(MESSAGE, n, c.connfd) + if c.len >= 0 then text else []
  {
    hide Header;
  }

  lemma FrameLength(c: Call)
    requires WellFormed(c)
    ensures |Frame(c)| == HEADER_LENGTH + |Body(c)|
  {
  }

  lemma WatchOk(l: Loop, fd: nat, accepted: bool)
    requires MaxOk(l) && fd < |l.events|
    ensures var e := CreateEvent(l, fd, WRITABLE, ON_WRITABLE, 0, accepted);
            && MaxOk(e.loop) && |e.loop.events| == |l.events|
            && (e.loop.events[fd].mask & WRITABLE != NONE <==> l.events[fd].mask & WRITABLE != NONE || accepted)
            && e.loop.events[fd].wfileProc == if accepted then ON_WRITABLE else l.events[fd].wfileProc
  {
    CreateMirror(l, fd, WRITABLE, ON_WRITABLE, 0, accepted);
  }

  lemma UnwatchOk(l: Loop, fd: nat)
    requires MaxOk(l) && fd < |l.events|
    ensures -1 <= l.maxfd < |l.events|
    ensures var e := DeleteEvent(l, fd, WRITABLE);
            MaxOk(e.loop) && |e.loop.events| == |l.events| && e.loop.events[fd].mask & WRITABLE == NONE
  {
    DeleteMirror(l, fd, WRITABLE);
  }

  /** sdsrange(buffer, n, -1) drops the n bytes written, all of them included. */
  lemma KeptRest(s: seq<byte>, n: nat)
    requires 0 < n <= |s|
    ensures Sds.Kept(s, n, -1) == s[n..]
  {
  }
}
