/**
  The client's sequential round-trip driver. It sends one request frame,
  waits for its echo, takes the elapsed time as a sample (unless the
  request falls in the warm-up window) and then sends the next request,
  until `count` requests have been sent; then it closes the connection.
  Clock readings are passed in as integers (nanoseconds) and what the
  driver does to the socket is recorded as a trace of actions.
*/
module RttDriver {
  import opened Framing

  /** What the driver does to the socket. */
  datatype Action = Write(frame: seq<byte>) | End

  /** `n` writes of the request frame. */
  function Requests(frame: seq<byte>, n: nat): (r: seq<Action>)
  {
    seq(n, _ => Write(frame))
  }

  /** The round-trip times of requests `from` to the last, in order: echo reading minus send reading. */
  function RoundTrips(sendAt: seq<int>, recvAt: seq<int>, from: nat): (r: seq<int>)
    requires |sendAt| == |recvAt| && from <= |sendAt|
    ensures |r| == |sendAt| - from
  {
    seq(|sendAt| - from, j requires 0 <= j < |sendAt| - from => recvAt[from + j] - sendAt[from + j])
  }

  /** Samples given index by index as the round-trip times from request `from` on are `RoundTrips` from there. */
  lemma RoundTripsOf(samples: seq<int>, sendAt: seq<int>, recvAt: seq<int>, from: nat)
    requires |sendAt| == |recvAt| && from <= |sendAt| && |samples| == |sendAt| - from
    requires forall j :: 0 <= j < |samples| ==> samples[j] == recvAt[from + j] - sendAt[from + j]
    ensures samples == RoundTrips(sendAt, recvAt, from)
  {
  }

  /** Whether the echo answering request number `sent` (counted from 1) yields a sample. */
  predicate Records(warmupOn: bool, warmup: nat, sent: nat)
  {
    !warmupOn || sent > warmup
  }

  class Driver {
    /** The request frame, built once from the configured message. */
    const data: seq<byte>
    /** How many requests the run sends. */
    const count: nat
    /** How many leading requests are warm-up when warm-up is enabled. */
    const warmup: nat
    const warmupOn: bool

    /** Requests sent so far. */
    var sent: nat
    /** Clock reading taken when the last request was sent. */
    var t0: int
    /** The samples kept so far, in order of arrival. */
    var rtts: seq<int>
    /** What has been done to the socket so far. */
    var actions: seq<Action>
    /** Echoes received so far. */
    ghost var echoes: nat

    /**
      Never more than `count` requests; never more than one request
      without its echo; at most one sample per echo.
    */
    ghost predicate Valid()
      reads this
    {
      sent <= count && sent <= echoes + 1 && |rtts| <= echoes
    }

    constructor (message: seq<byte>, count: nat, warmup: nat, warmupOn: bool)
      requires |message| < MaxLength
      ensures Valid()
      ensures data == Encode(message) && this.count == count && this.warmup == warmup && this.warmupOn == warmupOn
      ensures sent == 0 && rtts == [] && actions == [] && echoes == 0
    {
      data := Encode(message);
      this.count := count;
      this.warmup := warmup;
      this.warmupOn := warmupOn;
      sent := 0;
      t0 := 0;
      rtts := [];
      actions := [];
      echoes := 0;
    }

    /** Send the next request, starting its clock, or close the connection once `count` have been sent. */
    method SendNext(now: int)
      requires Valid() && sent <= echoes
      modifies this
      ensures Valid()
      ensures old(sent) >= count ==> sent == old(sent) && t0 == old(t0) && actions == old(actions) + [End]
      ensures old(sent) < count ==> sent == old(sent) + 1 && t0 == now && actions == old(actions) + [Write(data)]
      ensures rtts == old(rtts) && echoes == old(echoes)
    {
      if sent >= count {
        actions := actions + [End];
        return;
      }
      t0 := now;
      actions := actions + [Write(data)];
      sent := sent + 1;
    }

    /** The connection is established: send the first request. */
    method Connect(now: int)
      requires Valid() && sent == 0 && echoes == 0
      modifies this
      ensures Valid() && echoes == 0 && rtts == []
      ensures count == 0 ==> sent == 0 && actions == old(actions) + [End]
      ensures count > 0 ==> sent == 1 && t0 == now && actions == old(actions) + [Write(data)]
    {
      SendNext(now);
    }

    /**
      A complete echo was decoded at clock reading `now`: keep `now - t0`
      unless warm-up is on and the request was among the first `warmup`,
      then send the next request (reading the clock again, `later`) or close.
    */
    method Echo(now: int, later: int)
      requires Valid() && sent >= 1
      modifies this
      ensures Valid() && echoes == old(echoes) + 1
      ensures rtts == old(rtts) + (if Records(warmupOn, warmup, old(sent)) then [now - old(t0)] else [])
      ensures old(sent) < count ==> sent == old(sent) + 1 && t0 == later && actions == old(actions) + [Write(data)]
      ensures old(sent) >= count ==> sent == old(sent) && t0 == old(t0) && actions == old(actions) + [End]
    {
      echoes := echoes + 1;
      var rtt := now - t0;
      if warmupOn {
        if sent > warmup {
          rtts := rtts + [rtt];
        }
      } else {
        rtts := rtts + [rtt];
      }
      if sent < count {
        SendNext(later);
      } else {
        actions := actions + [End];
      }
    }
  }

  /**
    A whole run against a peer that echoes every request: request `i`
    (from 0) is sent at `sendAt[i]` and its echo decoded at `recvAt[i]`.
    The driver writes exactly `count` requests and then closes; it keeps
    one sample per echo after the warm-up window, and the samples are the
    round-trip times of the last requests, in order.
  */
  method Run(message: seq<byte>, count: nat, warmup: nat, warmupOn: bool, sendAt: seq<int>, recvAt: seq<int>)
    returns (samples: seq<int>, actions: seq<Action>)
    requires |message| < MaxLength
    requires |sendAt| == count && |recvAt| == count
    ensures actions == Requests(Encode(message), count) + [End]
    ensures samples == Samples(warmupOn, warmup, sendAt, recvAt, count)
    ensures |samples| == Kept(warmupOn, warmup, count)
    ensures !warmupOn ==> |samples| == count
    ensures warmupOn ==> |samples| == if count > warmup then count - warmup else 0
    ensures forall j :: 0 <= j < |samples| ==>
              samples[j] == recvAt[count - |samples| + j] - sendAt[count - |samples| + j]
  {
    var driver := new Driver(message, count, warmup, warmupOn);
    driver.Connect(if count > 0 then sendAt[0] else 0);
    var i := 0;
    while i < count
      invariant 0 <= i <= count
      invariant driver.Valid() && driver.echoes == i && driver.data == Encode(message)
      invariant driver.count == count && driver.warmup == warmup && driver.warmupOn == warmupOn
      invariant i < count ==> driver.sent == i + 1 && driver.t0 == sendAt[i]
      invariant i < count ==> driver.actions == Requests(driver.data, i + 1)
      invariant i == count ==> driver.actions == Requests(driver.data, count) + [End]
      invariant driver.rtts == Samples(warmupOn, warmup, sendAt, recvAt, i)
    {
      driver.Echo(recvAt[i], if i + 1 < count then sendAt[i + 1] else 0);
      RequestsSnoc(driver.data, i + 1);
      i := i + 1;
    }
    if count == 0 {
      assert Requests(driver.data, 0) + [End] == [End];
    }
    samples, actions := driver.rtts, driver.actions;
    SamplesCount(warmupOn, warmup, sendAt, recvAt, count);
    SamplesAreLast(warmupOn, warmup, sendAt, recvAt, count);
    KeptCount(warmupOn, warmup, count);
  }

  /**
    The samples a run keeps after the echoes to requests 1 to `n`: the
    round-trip time of each request outside the warm-up window, in order.
  */
  function Samples(warmupOn: bool, warmup: nat, sendAt: seq<int>, recvAt: seq<int>, n: nat): (s: seq<int>)
    requires n <= |sendAt| && n <= |recvAt|
    ensures |s| <= n
  {
    if n == 0 then []
    else Samples(warmupOn, warmup, sendAt, recvAt, n - 1)
         + (if Records(warmupOn, warmup, n) then [recvAt[n - 1] - sendAt[n - 1]] else [])
  }

  /** One sample per echo outside the warm-up window. */
  lemma {:induction false} SamplesCount(warmupOn: bool, warmup: nat, sendAt: seq<int>, recvAt: seq<int>, n: nat)
    requires n <= |sendAt| && n <= |recvAt|
    ensures |Samples(warmupOn, warmup, sendAt, recvAt, n)| == Kept(warmupOn, warmup, n)
  {
    if n > 0 {
      SamplesCount(warmupOn, warmup, sendAt, recvAt, n - 1);
    }
  }

  /**
    The warm-up window is a prefix, so the samples are the round-trip times
    of the last requests, in order.
  */
  lemma {:induction false} SamplesAreLast(warmupOn: bool, warmup: nat, sendAt: seq<int>, recvAt: seq<int>, n: nat)
    requires n <= |sendAt| && n <= |recvAt|
    ensures var s := Samples(warmupOn, warmup, sendAt, recvAt, n);
            forall j :: 0 <= j < |s| ==> s[j] == recvAt[n - |s| + j] - sendAt[n - |s| + j]
  {
    if n > 0 {
      SamplesAreLast(warmupOn, warmup, sendAt, recvAt, n - 1);
      SamplesCount(warmupOn, warmup, sendAt, recvAt, n - 1);
      KeptCount(warmupOn, warmup, n - 1);
    }
  }

  /** One more request written. */
  lemma RequestsSnoc(frame: seq<byte>, n: nat)
    ensures Requests(frame, n) + [Write(frame)] == Requests(frame, n + 1)
  {
    assert forall k :: 0 <= k < n + 1 ==> (Requests(frame, n) + [Write(frame)])[k] == Write(frame);
  }

  /** How many of the echoes to requests 1 to `n` yield a sample. */
  function Kept(warmupOn: bool, warmup: nat, n: nat): (k: nat)
    ensures k <= n
  {
    if n == 0 then 0 else Kept(warmupOn, warmup, n - 1) + (if Records(warmupOn, warmup, n) then 1 else 0)
  }

  /** Warm-up off: every echo is a sample. Warm-up on: all but the first `warmup` are. */
  lemma {:induction false} KeptCount(warmupOn: bool, warmup: nat, n: nat)
    ensures Kept(warmupOn, warmup, n) == if !warmupOn then n else if n > warmup then n - warmup else 0
  {
    if n > 0 {
      KeptCount(warmupOn, warmup, n - 1);
    }
  }

  /** The warm-up example: 150 requests with the first 100 as warm-up leave exactly 50 samples. */
  lemma WarmupLeavesFifty()
    ensures Kept(true, 100, 150) == 50
    ensures forall sent | 1 <= sent <= 150 :: Records(true, 100, sent) <==> sent >= 101
  {
    KeptCount(true, 100, 150);
  }
}
