/**
 The writers a response passes through: any number of recording writers, stacked
 by the middlewares, over the panic-recovery writer, over the writer of net/http.
 */
module Responses {
  import opened Tables

  /** One middlewareResponseWriter. */
  datatype Recorder = Recorder(status: int, written: nat, wroteHeader: bool)

  datatype Call = Head(status: int) | Body(size: nat)

  /** WriteHeader of net/http panics on any other number. */
  predicate IsStatus(status: int) { 100 <= status <= 999 }

  /** Informational statuses do not end the head of a response; 101 does. */
  predicate Informational(status: int) { 100 <= status <= 199 && status != 101 }

  predicate AllStatuses(calls: seq<Call>) {
    forall i :: 0 <= i < |calls| && calls[i].Head? ==> IsStatus(calls[i].status)
  }

  function Size(calls: seq<Call>): nat {
    if |calls| == 0 then 0
    else Size(calls[..|calls| - 1]) + match calls[|calls| - 1] case Body(n) => n case Head(_) => 0
  }

  /** The status of the first call, which every recorder keeps. */
  function FirstStatus(calls: seq<Call>): Option<int> {
    if |calls| == 0 then None else Some(match calls[0] case Head(s) => s case Body(_) => 200)
  }

  predicate HasBody(calls: seq<Call>) {
    exists i :: 0 <= i < |calls| && calls[i].Body?
  }

  /**
   The head of the response after these calls. An informational first status uses
   up the only WriteHeader that is passed on, so no later status arrives: the head
   is the 200 of the first Write, if there is one.
   */
  function HeadAfter(calls: seq<Call>): Option<int> {
    match FirstStatus(calls)
    case None => None
    case Some(s) => if !Informational(s) then Some(s) else if HasBody(calls) then Some(200) else None
  }

  /**
   `recorders[0]` wraps the recovery writer, the last one is what the handler
   sees; `head`, `bytes` and `superfluous` are what reached the client, and the
   WriteHeader calls net/http had to ignore.
   */
  class ResponseStack {
    var recorders: seq<Recorder>
    var headersSent: bool
    var head: Option<int>
    var bytes: nat
    var superfluous: nat

    constructor (depth: nat)
      ensures |recorders| == depth && Layered(depth, None) && head == None && bytes == 0
    {
      recorders := seq(depth, _ => Recorder(200, 0, false));
      headersSent, head, bytes, superfluous := false, None, 0, 0;
    }

    /** The lowest `k` recorders and the recovery writer saw the status `first`, or no call yet. */
    ghost predicate Layered(k: nat, first: Option<int>)
      reads this
      requires k <= |recorders|
    {
      superfluous == 0 &&
      match first
      case None =>
        !headersSent && head == None && bytes == 0 && forall i :: 0 <= i < k ==> recorders[i] == Recorder(200, 0, false)
      case Some(s) =>
        headersSent && (forall i :: 0 <= i < k ==> recorders[i] == Recorder(s, bytes, true)) &&
        (if Informational(s) then head == None || head == Some(200) else head == Some(s))
    }

    // net/http

    method BaseWriteHeader(status: int)
      modifies this`head, this`superfluous
      ensures head == if old(head).None? && !Informational(status) then Some(status) else old(head)
      ensures superfluous == old(superfluous) + (if old(head).Some? then 1 else 0)
    {
      if head.Some? {
        superfluous := superfluous + 1;
      } else if !Informational(status) {
        head := Some(status);
      }
    }

    method BaseWrite(size: nat)
      modifies this`head, this`bytes
      ensures head == (if old(head).None? then Some(200) else old(head)) && bytes == old(bytes) + size
    {
      if head.None? {
        head := Some(200);
      }
      bytes := bytes + size;
    }

    // recoveryResponseWriter

    method RecoveryWriteHeader(status: int)
      modifies this`headersSent, this`head, this`superfluous
      ensures headersSent
      ensures head == if !old(headersSent) && old(head).None? && !Informational(status) then Some(status) else old(head)
      ensures superfluous == old(superfluous) + (if !old(headersSent) && old(head).Some? then 1 else 0)
    {
      if !headersSent {
        headersSent := true;
        BaseWriteHeader(status);
      }
    }

    method RecoveryWrite(size: nat)
      modifies this`headersSent, this`head, this`bytes
      ensures headersSent && bytes == old(bytes) + size
      ensures head == if old(head).None? then Some(200) else old(head)
    {
      if !headersSent {
        headersSent := true;
      }
      BaseWrite(size);
    }

    // middlewareResponseWriter, `k` recorders up

    /**
     The first status is kept by every recorder and passed on, all later ones are
     dropped. It is the head of the response, unless it is informational: then the
     recorders take it for the final one, and the client has no head yet.
     */
    method WriteHeader(k: nat, status: int, ghost first: Option<int>)
      requires k <= |recorders| && Layered(k, first) && IsStatus(status)
      modifies this
      ensures |recorders| == |old(recorders)| && recorders[k..] == old(recorders)[k..] && bytes == old(bytes)
      ensures Layered(k, Some(if first.Some? then first.value else status))
      ensures head == if first.None? && !Informational(status) then Some(status) else old(head)
      decreases k
    {
      if k == 0 {
        RecoveryWriteHeader(status);
      } else if !recorders[k - 1].wroteHeader {
        recorders := recorders[k - 1 := recorders[k - 1].(status := status)];
        WriteHeader(k - 1, status, first);
        assert recorders[k - 1] == recorders[k - 1..][0];
        recorders := recorders[k - 1 := recorders[k - 1].(wroteHeader := true)];
      }
    }

    /** Bytes are counted by every recorder and passed on; they end the head with 200 if it was open. */
    method Write(k: nat, size: nat, ghost first: Option<int>)
      requires k <= |recorders| && Layered(k, first)
      modifies this
      ensures |recorders| == |old(recorders)| && recorders[k..] == old(recorders)[k..]
      ensures Layered(k, Some(if first.Some? then first.value else 200))
      ensures head == (if old(head).None? then Some(200) else old(head)) && bytes == old(bytes) + size
      decreases k
    {
      if k == 0 {
        RecoveryWrite(size);
      } else {
        if !recorders[k - 1].wroteHeader {
          WriteHeader(k, 200, first);
        }
        Write(k - 1, size, Some(if first.Some? then first.value else 200));
        assert recorders[k - 1] == recorders[k - 1..][0];
        recorders := recorders[k - 1 := recorders[k - 1].(written := recorders[k - 1].written + size)];
      }
    }

    /**
     A request: the handler makes `calls` on the outermost writer and then returns
     or panics; the recovery middleware sends an error page of `page` bytes if it
     takes the response for unstarted; net/http completes a response without a
     head. The client gets one head: 500 only if nothing was called before the
     panic, the first status if that is final, and otherwise 200, also if the
     handler set another status later or panicked. Every recorder ends with the
     first status and the bytes the client got.
     */
    method Serve(calls: seq<Call>, panics: bool, page: nat)
      requires Layered(|recorders|, None) && AllStatuses(calls)
      modifies this
      ensures |recorders| == |old(recorders)| && superfluous == 0
      ensures |calls| == 0 ==>
                head == Some(if panics then 500 else 200) &&
                forall i :: 0 <= i < |recorders| ==> recorders[i] == Recorder(200, 0, false)
      ensures |calls| > 0 ==>
                var s := match calls[0] case Head(status) => status case Body(_) => 200;
                head == Some(if 100 <= s <= 199 && s != 101 then 200 else s) &&
                forall i :: 0 <= i < |recorders| ==> recorders[i] == Recorder(s, bytes, true)
      ensures bytes == Size(calls) + (if panics && |calls| == 0 then page else 0)
    {
      var i := 0;
      while i < |calls|
        invariant 0 <= i <= |calls| && |recorders| == |old(recorders)|
        invariant Layered(|recorders|, FirstStatus(calls[..i]))
        invariant head == HeadAfter(calls[..i]) && bytes == Size(calls[..i])
      {
        ghost var first, before := FirstStatus(calls[..i]), calls[..i];
        match calls[i] {
          case Head(status) => WriteHeader(|recorders|, status, first);
          case Body(size) => Write(|recorders|, size, first);
        }
        assert calls[..i + 1] == before + [calls[i]];
        BodyAppended(before, calls[i]);
        assert calls[..i + 1][..i] == calls[..i];
        i := i + 1;
      }
      assert calls[..i] == calls;
      if panics {
        if !headersSent {
          BaseWriteHeader(500);
          BaseWrite(page);
        }
      }
      if head.None? {
        head := Some(200);
      }
    }
  }

  lemma BodyAppended(calls: seq<Call>, c: Call)
    ensures HasBody(calls + [c]) <==> HasBody(calls) || c.Body?
  {
    if i :| 0 <= i < |calls| && calls[i].Body? {
      assert (calls + [c])[i].Body?;
    }
    assert (calls + [c])[|calls|] == c;
  }
}
