/** The send path of a session as a mutable object, one method per member function. */
module BoostSessions {
  import opened Basics
  import opened SendProtocol

  /** What a member function hands to the executor. */
  datatype Handler = RunFlushSendQueue | RunCloseSocket

  class BoostSession {
    var sendQueue: seq<Buffer>
    var isSending: bool
    var sendingBuffers: seq<Buffer>
    var isClosed: bool

    constructor ()
      ensures View() == Start().session && !isClosed
    {
      sendQueue, isSending, sendingBuffers, isClosed := [], false, [], false;
    }

    function View(): Session
      reads this
    {
      Session(sendQueue, isSending, sendingBuffers)
    }

    method CloseSocket()
      modifies this`isClosed
      ensures isClosed
    {
      isClosed := true;
    }

    /** Returns false exactly when the buffer was not queued; posts a flush exactly when it raised the flag. */
    method Send(sendBuffer: Buffer) returns (accepted: bool, post: Option<Handler>)
      modifies this`sendQueue, this`isSending
      ensures View() == Enqueue(old(View()), sendBuffer)
      ensures accepted <==> sendQueue == old(sendQueue) + [sendBuffer]
      ensures accepted <==> |old(sendQueue)| < 1024
      ensures post == Some(RunFlushSendQueue) <==> isSending && !old(isSending)
      ensures post == Some(RunCloseSocket) <==> !accepted
    {
      var isOverflow, needFlush := false, false;
      if MAX_SEND_QUEUE <= |sendQueue| {
        isOverflow := true;
      } else {
        sendQueue := sendQueue + [sendBuffer];
        needFlush := !isSending;
        isSending := true;
      }
      if isOverflow {
        return false, Some(RunCloseSocket);
      }
      return true, if needFlush then Some(RunFlushSendQueue) else None;
    }

    /** Starts an asynchronous write of the whole queue, in order, or stops sending. */
    method FlushSendQueue() returns (write: Option<seq<Buffer>>)
      modifies this`sendQueue, this`isSending, this`sendingBuffers
      ensures View() == TakeQueue(old(View()))
      ensures if old(sendQueue) == [] then !isSending && View() == old(View()).(isSending := false)
              else View() == Session(old(sendingBuffers), old(isSending), old(sendQueue))
      ensures write == if old(sendQueue) == [] then None else Some(old(sendQueue))
    {
      if sendQueue == [] {
        isSending := false;
        return None;
      }
      sendingBuffers, sendQueue := sendQueue, sendingBuffers;
      var buffers: seq<Buffer> := [];
      for i := 0 to |sendingBuffers|
        invariant buffers == sendingBuffers[..i]
      {
        buffers := buffers + [sendingBuffers[i]];
      }
      assert buffers == sendingBuffers;
      return Some(buffers);
    }

    /** After an error everything unsent is dropped and the socket closed; otherwise the next batch goes out. */
    method CompleteSend(errorCode: bool) returns (write: Option<seq<Buffer>>)
      modifies this
      ensures View() == if errorCode then DropQueue(ClearSent(old(View()))) else TakeQueue(ClearSent(old(View())))
      ensures isClosed == (errorCode || old(isClosed))
      ensures sendQueue == [] && sendingBuffers == (if errorCode then [] else old(sendQueue))
      ensures isSending <==> !errorCode && old(isSending) && old(sendQueue) != []
      ensures write == if errorCode || old(sendQueue) == [] then None else Some(old(sendQueue))
    {
      sendingBuffers := [];
      if errorCode {
        sendQueue := [];
        isSending := false;
        CloseSocket();
        return None;
      }
      write := FlushSendQueue();
    }
  }
}
