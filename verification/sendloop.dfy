/**
 * The write loop of `gst_kradxsend_render`: `send` is called on the part of
 * the buffer not yet accepted until the whole buffer is accepted or a call
 * reports zero or fewer bytes.
 *
 * The socket is not modelled; a `Reply` stands for it, giving the result of
 * the k-th `send` of a render call for the bytes offered to it.
 */
module SendLoop {
  import opened CStrings

  /** The result of the k-th `send` call of a render call, given the bytes it is offered. */
  type Reply = (nat, seq<Byte>) -> int

  /** `send` never reports more bytes than it was offered. */
  ghost predicate Honest(reply: Reply) {
    forall k: nat, d: seq<Byte> :: reply(k, d) <= |d|
  }

  /** Every `send` that is offered bytes accepts at least one of them. */
  ghost predicate AlwaysProgresses(reply: Reply) {
    forall k: nat, d: seq<Byte> :: |d| > 0 ==> reply(k, d) > 0
  }

  /** One `send` call: the bytes offered and the result it returned. */
  datatype Send = Send(offered: seq<Byte>, result: int)

  /** Where the loop stands: bytes accepted so far and calls made so far. */
  datatype Progress = Progress(sent: nat, calls: nat)

  /**
   * The reference behaviour of the loop, from `sent` bytes accepted and the
   * next call numbered `k`: offer the rest, stop on a result of zero or
   * less, otherwise advance by the result.
   */
  function Drain(reply: Reply, buf: seq<Byte>, sent: nat, k: nat): (p: Progress)
    requires Honest(reply) && sent <= |buf|
    ensures sent <= p.sent <= |buf| && k <= p.calls
    decreases |buf| - sent
  {
    if sent == |buf| then Progress(sent, k)
    else
      var n := reply(k, buf[sent..]);
      if n <= 0 then Progress(sent, k + 1)
      else Drain(reply, buf, sent + n, k + 1)
  }

  /**
   * The `send` calls the loop makes from `sent` bytes accepted, the next
   * call numbered `k`: each is offered the unsent rest and returns what the
   * peer answers; a result of zero or less is the last call.
   */
  function Calls(reply: Reply, buf: seq<Byte>, sent: nat, k: nat): (log: seq<Send>)
    requires Honest(reply) && sent <= |buf|
    decreases |buf| - sent
  {
    if sent == |buf| then []
    else
      var n := reply(k, buf[sent..]);
      [Send(buf[sent..], n)] + (if n <= 0 then [] else Calls(reply, buf, sent + n, k + 1))
  }

  /** The bytes a call handed to the peer: the first `result` bytes it was offered. */
  function Piece(s: Send): seq<Byte> {
    if 0 < s.result <= |s.offered| then s.offered[..s.result] else []
  }

  /** What the calls of a log handed to the peer, in call order. */
  function Delivered(log: seq<Send>): seq<Byte> {
    if log == [] then [] else Piece(log[0]) + Delivered(log[1..])
  }

  /**
   * The calls of a log are chained: the first is offered `rest` and each
   * later one is offered what the one before it left over.
   */
  ghost predicate Chained(log: seq<Send>, rest: seq<Byte>) {
    log != [] ==>
      log[0].offered == rest &&
      (|log| > 1 ==> 0 < log[0].result <= |rest| && Chained(log[1..], rest[log[0].result..]))
  }

  /**
   * The loop of `gst_kradxsend_render`, its calls numbered from `first`:
   * it stops where `Drain` stops, `next` being the number the next call
   * would get; `log` records each call as it is made.
   */
  method Transmit(buf: seq<Byte>, reply: Reply, first: nat) returns (sent: nat, next: nat, ghost log: seq<Send>)
    requires Honest(reply)
    ensures Progress(sent, next) == Drain(reply, buf, 0, first)
    ensures log == Calls(reply, buf, 0, first)
  {
    sent, next, log := 0, first, [];
    while sent != |buf|
      invariant sent <= |buf|
      invariant Drain(reply, buf, sent, next) == Drain(reply, buf, 0, first)
      invariant log + Calls(reply, buf, sent, next) == Calls(reply, buf, 0, first)
      decreases |buf| - sent
    {
      var sended := reply(next, buf[sent..]);
      LogStep(reply, buf, sent, next, log, Calls(reply, buf, 0, first));
      log := log + [Send(buf[sent..], sended)];
      next := next + 1;
      if sended <= 0 {
        break;
      }
      sent := sent + sended;
    }
  }

  /** One step of `Calls`: the first call, then the calls from where it left off. */
  lemma CallsUnfold(reply: Reply, buf: seq<Byte>, sent: nat, k: nat)
    requires Honest(reply) && sent < |buf|
    ensures var n, log := reply(k, buf[sent..]), Calls(reply, buf, sent, k);
      var tail := if n <= 0 then [] else Calls(reply, buf, sent + n, k + 1);
      log != [] && log[0] == Send(buf[sent..], n) && log[1..] == tail
  {
    var n := reply(k, buf[sent..]);
    var tail := if n <= 0 then [] else Calls(reply, buf, sent + n, k + 1);
    assert Calls(reply, buf, sent, k) == [Send(buf[sent..], n)] + tail;
  }

  /** Recording one call moves it from the calls still to come to the log. */
  lemma LogStep(reply: Reply, buf: seq<Byte>, sent: nat, k: nat, log: seq<Send>, all: seq<Send>)
    requires Honest(reply) && sent < |buf| && log + Calls(reply, buf, sent, k) == all
    ensures var n := reply(k, buf[sent..]);
      var log' := log + [Send(buf[sent..], n)];
      (n <= 0 ==> log' == all) &&
      (n > 0 ==> sent + n <= |buf| && log' + Calls(reply, buf, sent + n, k + 1) == all)
  {
    var n := reply(k, buf[sent..]);
    var c, head := Calls(reply, buf, sent, k), Send(buf[sent..], n);
    var tail := if n <= 0 then [] else Calls(reply, buf, sent + n, k + 1);
    CallsUnfold(reply, buf, sent, k);
    assert c == [head] + tail by { assert c == [c[0]] + c[1..]; }
    assert log + c == (log + [head]) + tail;
  }

  /** `Calls` makes as many calls as `Drain` counts. */
  lemma {:induction false} CallsCounted(reply: Reply, buf: seq<Byte>, sent: nat, k: nat)
    requires Honest(reply) && sent <= |buf|
    ensures |Calls(reply, buf, sent, k)| == Drain(reply, buf, sent, k).calls - k
    decreases |buf| - sent
  {
    if sent < |buf| {
      var n := reply(k, buf[sent..]);
      if n > 0 {
        CallsCounted(reply, buf, sent + n, k + 1);
      }
    }
  }

  /**
   * What the calls hand to the peer is exactly the bytes from `sent` to
   * where `Drain` stops: in order, none twice and none skipped.
   */
  lemma {:induction false} CallsDeliver(reply: Reply, buf: seq<Byte>, sent: nat, k: nat)
    requires Honest(reply) && sent <= |buf|
    ensures Delivered(Calls(reply, buf, sent, k)) == buf[sent..Drain(reply, buf, sent, k).sent]
    decreases |buf| - sent
  {
    if sent < |buf| {
      var n := reply(k, buf[sent..]);
      var log := Calls(reply, buf, sent, k);
      CallsUnfold(reply, buf, sent, k);
      if n > 0 {
        var stop := Drain(reply, buf, sent + n, k + 1).sent;
        CallsDeliver(reply, buf, sent + n, k + 1);
        DeliveredStep(log, buf[sent..], n, buf[sent + n..stop]);
        SuffixSplit(buf, sent, n, stop);
      } else {
        assert Delivered(log) == [] by { assert log == [log[0]]; }
      }
    }
  }

  /** A log whose first call accepted `n` of the `rest` it was offered delivers those bytes first. */
  lemma DeliveredStep(log: seq<Send>, rest: seq<Byte>, n: int, later: seq<Byte>)
    requires log != [] && log[0] == Send(rest, n) && 0 < n <= |rest|
    requires Delivered(log[1..]) == later
    ensures Delivered(log) == rest[..n] + later
  {}

  lemma SuffixSplit(buf: seq<Byte>, sent: nat, n: nat, stop: nat)
    requires sent + n <= stop <= |buf|
    ensures buf[sent..][..n] + buf[sent + n..stop] == buf[sent..stop]
  {}

  /** Each call of a log numbered from `k` got the reply for its number and offered bytes. */
  ghost predicate Replied(log: seq<Send>, reply: Reply, k: nat) {
    forall j :: 0 <= j < |log| ==> log[j].result == reply(k + j, log[j].offered)
  }

  /** The j-th call is given the reply numbered `k + j` for the bytes it was offered. */
  lemma {:induction false} CallsReplies(reply: Reply, buf: seq<Byte>, sent: nat, k: nat)
    requires Honest(reply) && sent <= |buf|
    ensures Replied(Calls(reply, buf, sent, k), reply, k)
    decreases |buf| - sent
  {
    if sent < |buf| {
      var n := reply(k, buf[sent..]);
      if n > 0 {
        CallsReplies(reply, buf, sent + n, k + 1);
        CallsUnfold(reply, buf, sent, k);
        var log, tail := Calls(reply, buf, sent, k), Calls(reply, buf, sent + n, k + 1);
        forall j | 1 <= j < |log|
          ensures log[j].result == reply(k + j, log[j].offered)
        {
          assert log[j] == tail[j - 1];
          assert tail[j - 1].result == reply(k + 1 + (j - 1), tail[j - 1].offered);
        }
      }
    }
  }

  /** Each call is offered exactly what the calls before it left unsent. */
  lemma {:induction false} CallsChained(reply: Reply, buf: seq<Byte>, sent: nat, k: nat)
    requires Honest(reply) && sent <= |buf|
    ensures Chained(Calls(reply, buf, sent, k), buf[sent..])
    decreases |buf| - sent
  {
    if sent < |buf| {
      var n := reply(k, buf[sent..]);
      CallsUnfold(reply, buf, sent, k);
      if n > 0 {
        CallsChained(reply, buf, sent + n, k + 1);
        assert buf[sent..][n..] == buf[sent + n..];
      }
    }
  }

  /** If every call that is offered bytes accepts some, the loop sends the whole buffer. */
  lemma {:induction false} DrainCompletes(reply: Reply, buf: seq<Byte>, sent: nat, k: nat)
    requires Honest(reply) && AlwaysProgresses(reply) && sent <= |buf|
    ensures Drain(reply, buf, sent, k).sent == |buf|
    decreases |buf| - sent
  {
    if sent < |buf| {
      var n := reply(k, buf[sent..]);
      assert n > 0;
      DrainCompletes(reply, buf, sent + n, k + 1);
    }
  }

  /**
   * A loop that ends short ends on a call, the last one made, that was
   * offered exactly the unsent rest and returned zero or less: there is no
   * retry after it.
   */
  lemma {:induction false} DrainStopsOnFailure(reply: Reply, buf: seq<Byte>, sent: nat, k: nat)
    requires Honest(reply) && sent <= |buf|
    ensures var p := Drain(reply, buf, sent, k);
      p.sent < |buf| ==> k < p.calls && reply(p.calls - 1, buf[p.sent..]) <= 0
    decreases |buf| - sent
  {
    if sent < |buf| {
      var n := reply(k, buf[sent..]);
      if n > 0 {
        DrainStopsOnFailure(reply, buf, sent + n, k + 1);
      }
    }
  }

  /** Each call either accepts a byte or ends the loop: at most one call per byte, plus one. */
  lemma {:induction false} DrainCallBound(reply: Reply, buf: seq<Byte>, sent: nat, k: nat)
    requires Honest(reply) && sent <= |buf|
    ensures Drain(reply, buf, sent, k).calls - k <= Drain(reply, buf, sent, k).sent - sent + 1
    decreases |buf| - sent
  {
    if sent < |buf| {
      var n := reply(k, buf[sent..]);
      if n > 0 {
        DrainCallBound(reply, buf, sent + n, k + 1);
      }
    }
  }
}
