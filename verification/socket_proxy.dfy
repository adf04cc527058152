/**
 The low-level socket helpers of cc3000_ifc.c that sit between the natives
 and the host library: the chunked send and receive loops, the readiness
 check, and `recvfrom` with its wait loop.

 Host library calls (`send`, `recv`, `select`, `recvfrom`, `closesocket`) are
 not modelled; their results are supplied as oracle sequences, one entry per
 call in call order. A loop that would need more answers than supplied yields
 `None`.
 */
module SocketProxy {
  import opened Basics
  import opened SocketTable
  import opened Addresses

  /** Largest piece `cc3000_net_send` hands to one `send`. */
  const SendChunk: nat := 64
  /** Largest piece `cc3000_net_recv` asks of one `recv`. */
  const RecvChunk: nat := 32
  /** `RECV_TIMED_OUT`, the host library's timeout result. Its header is not
      part of this model; the value here is a stand-in and every proof uses
      only that it is negative. */
  const RecvTimedOut: int := -57

  function Pos(x: int): nat {
    if x > 0 then x else 0
  }

  /** The total of the positive entries. */
  function SumPositive(s: seq<int>): nat
    decreases |s|
  {
    if |s| == 0 then 0 else Pos(s[0]) + SumPositive(s[1..])
  }

  /** Reference: the piece sizes a chunked loop over `len` bytes asks for when
      every piece is taken in full. */
  function FullChunks(len: nat, size: nat): seq<int>
    requires size > 0
    decreases len
  {
    if len == 0 then []
    else if len <= size then [len]
    else [size] + FullChunks(len - size, size)
  }

  /** Each full piece has between 1 and `size` bytes, and together they are
      the whole length. */
  lemma {:induction false} FullChunksShape(len: nat, size: nat)
    requires size > 0
    ensures var c := FullChunks(len, size);
      && (forall i :: 0 <= i < |c| ==> 1 <= c[i] <= size)
      && SumPositive(c) == len
    decreases len
  {
    if len > size {
      FullChunksShape(len - size, size);
      var c := FullChunks(len, size);
      assert c[1..] == FullChunks(len - size, size);
    }
  }

  /** The number of full pieces is `len / size` rounded up. */
  lemma {:induction false} FullChunksCount(len: nat, size: nat)
    requires size > 0
    ensures |FullChunks(len, size)| * size >= len
    ensures |FullChunks(len, size)| * size < len + size
    decreases len
  {
    if len > size {
      var n := |FullChunks(len - size, size)|;
      FullChunksCount(len - size, size);
      assert |FullChunks(len, size)| == n + 1;
      assert (n + 1) * size == n * size + size;
    }
  }

  // ---------------------------------------------------------------- net_send

  /** One run of the send loop: the sizes asked of `send`, in order, and the
      value `cc3000_net_send` returns. */
  datatype SendRun = SendRun(chunks: seq<int>, written: int)

  /** `cc3000_net_send` from `wrt` bytes already written: while fewer than
      `len` bytes are written, hand `min(64, remaining)` bytes to `send`; stop
      at the first result that is not positive. */
  function SendLoop(len: nat, wrt: nat, replies: seq<int>): (r: Option<SendRun>)
    ensures r.None? ==> wrt < len
    ensures r.Some? ==> |r.value.chunks| <= |replies| && r.value.written >= wrt
    decreases |replies|
  {
    if wrt >= len then Some(SendRun([], wrt))
    else if |replies| == 0 then None
    else
      var ask := Min(len - wrt, SendChunk);
      if replies[0] <= 0 then Some(SendRun([ask], wrt))
      else
        match SendLoop(len, wrt + replies[0], replies[1..])
        case None => None
        case Some(rest) => Some(SendRun([ask] + rest.chunks, rest.written))
  }

  /** What a send run means: pieces of 1..64 bytes, each `min(64, remaining)`;
      the result is what was
      written before plus every accepted piece; every reply but the last was
      positive; and stopping short of `len` means the last piece was
      refused. */
  lemma SendLoopSpec(len: nat, wrt: nat, replies: seq<int>)
    requires SendLoop(len, wrt, replies).Some?
    ensures var r := SendLoop(len, wrt, replies).value;
      && (forall i :: 0 <= i < |r.chunks| ==> 1 <= r.chunks[i] <= SendChunk)
      && r.written == wrt + SumPositive(replies[..|r.chunks|])
      && (forall i :: 0 <= i < |r.chunks| - 1 ==> replies[i] > 0)
      && (r.written < len ==> |r.chunks| > 0 && replies[|r.chunks| - 1] <= 0)
    // each piece is min(64, what is still unsent), so no piece reads past `buf + len`
    ensures var r := SendLoop(len, wrt, replies).value;
      forall i :: 0 <= i < |r.chunks| ==>
        && r.chunks[i] == Min(len - (wrt + SumPositive(replies[..i])), SendChunk)
        && wrt + SumPositive(replies[..i]) + r.chunks[i] <= len
  {
    SendLoopCounts(len, wrt, replies);
    SendLoopAsks(len, wrt, replies);
  }

  /** The counting half of `SendLoopSpec`, by induction over the replies. */
  lemma {:induction false} SendLoopCounts(len: nat, wrt: nat, replies: seq<int>)
    requires SendLoop(len, wrt, replies).Some?
    ensures var r := SendLoop(len, wrt, replies).value;
      && (forall i :: 0 <= i < |r.chunks| ==> 1 <= r.chunks[i] <= SendChunk)
      && r.written == wrt + SumPositive(replies[..|r.chunks|])
      && (forall i :: 0 <= i < |r.chunks| - 1 ==> replies[i] > 0)
      && (r.written < len ==> |r.chunks| > 0 && replies[|r.chunks| - 1] <= 0)
    decreases |replies|
  {
    var r := SendLoop(len, wrt, replies).value;
    if wrt < len {
      if replies[0] <= 0 {
        assert replies[..1] == [replies[0]];
      } else {
        var rest := SendLoop(len, wrt + replies[0], replies[1..]).value;
        SendLoopCounts(len, wrt + replies[0], replies[1..]);
        var n := |rest.chunks| + 1;
        assert r.chunks == [Min(len - wrt, SendChunk)] + rest.chunks;
        assert replies[..n][1..] == replies[1..][..n - 1];
        forall i | 0 <= i < n - 1
          ensures replies[i] > 0
        {
          if i > 0 {
            assert replies[i] == replies[1..][i - 1];
          }
        }
      }
    }
  }

  /** The piece asked for at each call is `min(64, len - written so far)`. */
  lemma {:induction false} SendLoopAsks(len: nat, wrt: nat, replies: seq<int>)
    requires SendLoop(len, wrt, replies).Some?
    ensures var r := SendLoop(len, wrt, replies).value;
      forall i :: 0 <= i < |r.chunks| ==>
        r.chunks[i] == Min(len - (wrt + SumPositive(replies[..i])), SendChunk)
    decreases |replies|
  {
    var r := SendLoop(len, wrt, replies).value;
    if wrt < len && replies[0] > 0 {
      var rest := SendLoop(len, wrt + replies[0], replies[1..]).value;
      SendLoopAsks(len, wrt + replies[0], replies[1..]);
      assert r.chunks == [Min(len - wrt, SendChunk)] + rest.chunks;
      forall i | 1 <= i < |r.chunks|
        ensures r.chunks[i] == Min(len - (wrt + SumPositive(replies[..i])), SendChunk)
      {
        assert replies[..i][1..] == replies[1..][..i - 1];
        assert r.chunks[i] == rest.chunks[i - 1];
      }
    }
  }

  /** `cc3000_net_send`. */
  function NetSend(len: nat, replies: seq<int>): Option<SendRun> {
    SendLoop(len, 0, replies)
  }

  /** When no piece is taken beyond what was asked, the result lies in
      [0, len]. */
  lemma {:induction false} SendWithinLength(len: nat, wrt: nat, replies: seq<int>)
    requires wrt <= len
    requires SendLoop(len, wrt, replies).Some?
    requires var c := SendLoop(len, wrt, replies).value.chunks;
      forall i :: 0 <= i < |c| ==> replies[i] <= c[i]
    ensures wrt <= SendLoop(len, wrt, replies).value.written <= len
    decreases |replies|
  {
    if wrt < len && replies[0] > 0 {
      var r := SendLoop(len, wrt, replies).value;
      var rest := SendLoop(len, wrt + replies[0], replies[1..]).value;
      assert r.chunks == [Min(len - wrt, SendChunk)] + rest.chunks;
      forall i | 0 <= i < |rest.chunks|
        ensures replies[1..][i] <= rest.chunks[i]
      {
        assert r.chunks[i + 1] == rest.chunks[i];
      }
      SendWithinLength(len, wrt + replies[0], replies[1..]);
    }
  }

  /** When every piece is taken in full, the loop asks for exactly the full
      pieces, ceil(len / 64) of them, and returns `len`. */
  lemma {:induction false} SendAllAccepted(len: nat, wrt: nat, extra: seq<int>)
    requires wrt <= len
    ensures SendLoop(len, wrt, FullChunks(len - wrt, SendChunk) + extra)
         == Some(SendRun(FullChunks(len - wrt, SendChunk), len))
    decreases len - wrt
  {
    var rem := len - wrt;
    if rem == 0 {
      assert FullChunks(rem, SendChunk) + extra == extra;
    } else if rem <= SendChunk {
      assert FullChunks(rem, SendChunk) + extra == [rem] + extra;
      assert SendLoop(len, len, extra) == Some(SendRun([], len));
      SendStep(len, wrt, rem, extra);
      assert [rem] + [] == [rem];
    } else {
      var tail := FullChunks(rem - SendChunk, SendChunk);
      assert FullChunks(rem, SendChunk) + extra == [SendChunk] + (tail + extra);
      SendAllAccepted(len, wrt + SendChunk, extra);
      SendStep(len, wrt, SendChunk, tail + extra);
    }
  }

  /** One accepted piece below the goal: the run is the run from the advanced
      count, with the asked size in front. */
  lemma SendStep(len: nat, wrt: nat, x: nat, rest: seq<int>)
    requires wrt < len && x > 0
    requires SendLoop(len, wrt + x, rest).Some?
    ensures var q := SendLoop(len, wrt + x, rest).value;
      SendLoop(len, wrt, [x] + rest) == Some(SendRun([Min(len - wrt, SendChunk)] + q.chunks, q.written))
  {
    assert ([x] + rest)[1..] == rest;
  }

  /** The 200-byte example: pieces of 64, 64, 64 and 8 bytes, all 200 sent;
      a refused second piece instead returns the 64 bytes sent so far. */
  lemma SendTwoHundred()
    ensures NetSend(200, [64, 64, 64, 8]) == Some(SendRun([64, 64, 64, 8], 200))
    ensures NetSend(200, [64, 0]) == Some(SendRun([64, 64], 64))
  {
    assert [8] + [] == [8];
    assert [8][1..] == [];
    assert SendLoop(200, 192, [8]) == Some(SendRun([8], 200));
    assert [64] + [8] == [64, 8];
    assert [64, 8][1..] == [8];
    assert SendLoop(200, 128, [64, 8]) == Some(SendRun([64, 8], 200));
    assert [64] + [64, 8] == [64, 64, 8];
    assert [64, 64, 8][1..] == [64, 8];
    assert SendLoop(200, 64, [64, 64, 8]) == Some(SendRun([64, 64, 8], 200));
    assert [64] + [64, 64, 8] == [64, 64, 64, 8];
    assert [64, 64, 64, 8][1..] == [64, 64, 8];
    assert [64, 0][1..] == [0];
    assert [64] + [64] == [64, 64];
    assert SendLoop(200, 64, [0]) == Some(SendRun([64], 64));
  }

  // ---------------------------------------------------------------- net_recv

  /** Why the receive loop stopped. */
  datatype RecvStop = Complete | Failed | TimedOut

  /** One run of the receive loop: bytes counted, the table afterwards, the
      number of `recv` calls, the sizes asked, and why it stopped. */
  datatype RecvRun = RecvRun(read: int, table: Table, calls: nat, chunks: seq<int>, stop: RecvStop)

  /** The loop of `cc3000_net_recv` from `rrt` bytes already read: ask `recv`
      for `min(32, remaining)` bytes until `len` are read. A negative result
      other than the timeout closes the socket and frees its slot; either
      negative result ends the loop. A zero result reads nothing and the loop
      asks again. */
  function RecvLoop(t: Table, sock: int, len: nat, rrt: nat, replies: seq<int>): (r: Option<RecvRun>)
    ensures r.None? ==> rrt < len
    ensures r.Some? ==>
      && r.value.calls <= |replies|
      && |r.value.chunks| == r.value.calls
      && r.value.read >= rrt
      && (r.value.stop == Complete <==> r.value.read >= len)
      // only a failure touches the table, and then it frees the socket's slot
      && (r.value.stop == Failed ==> r.value.table == HandleSocket(t, sock, Free).table)
      && (r.value.stop != Failed ==> r.value.table == t)
    decreases |replies|
  {
    if rrt >= len then Some(RecvRun(rrt, t, 0, [], Complete))
    else if |replies| == 0 then None
    else
      var ask := Min(len - rrt, RecvChunk);
      var rb := replies[0];
      if rb < 0 then
        if rb != RecvTimedOut then
          Some(RecvRun(rrt, HandleSocket(t, sock, Free).table, 1, [ask], Failed))
        else
          Some(RecvRun(rrt, t, 1, [ask], TimedOut))
      else
        match RecvLoop(t, sock, len, rrt + rb, replies[1..])
        case None => None
        case Some(rest) => Some(rest.(calls := rest.calls + 1, chunks := [ask] + rest.chunks))
  }

  /** What a receive run means: pieces of 1..32 bytes, each
      `min(32, remaining)`; the count is what was
      read before plus every non-negative reply; a run that did not complete
      ended on its first negative reply, and it timed out exactly when that
      reply was the timeout code. */
  lemma RecvLoopSpec(t: Table, sock: int, len: nat, rrt: nat, replies: seq<int>)
    requires RecvLoop(t, sock, len, rrt, replies).Some?
    ensures var r := RecvLoop(t, sock, len, rrt, replies).value;
      && (forall i :: 0 <= i < r.calls ==> 1 <= r.chunks[i] <= RecvChunk)
      && r.read == rrt + SumPositive(replies[..r.calls])
      && (r.stop == Complete ==> forall i :: 0 <= i < r.calls ==> replies[i] >= 0)
      && (r.stop != Complete ==>
            && r.calls > 0
            && replies[r.calls - 1] < 0
            && (forall i :: 0 <= i < r.calls - 1 ==> replies[i] >= 0)
            && (r.stop == TimedOut <==> replies[r.calls - 1] == RecvTimedOut))
    // each piece is min(32, what is still unread), so no piece writes past `buf + len`
    ensures var r := RecvLoop(t, sock, len, rrt, replies).value;
      forall i :: 0 <= i < r.calls ==>
        && r.chunks[i] == Min(len - (rrt + SumPositive(replies[..i])), RecvChunk)
        && rrt + SumPositive(replies[..i]) + r.chunks[i] <= len
  {
    RecvLoopCounts(t, sock, len, rrt, replies);
    RecvLoopAsks(t, sock, len, rrt, replies);
  }

  /** The counting half of `RecvLoopSpec`, by induction over the replies. */
  lemma {:induction false} RecvLoopCounts(t: Table, sock: int, len: nat, rrt: nat, replies: seq<int>)
    requires RecvLoop(t, sock, len, rrt, replies).Some?
    ensures var r := RecvLoop(t, sock, len, rrt, replies).value;
      && (forall i :: 0 <= i < r.calls ==> 1 <= r.chunks[i] <= RecvChunk)
      && r.read == rrt + SumPositive(replies[..r.calls])
      && (r.stop == Complete ==> forall i :: 0 <= i < r.calls ==> replies[i] >= 0)
      && (r.stop != Complete ==>
            && r.calls > 0
            && replies[r.calls - 1] < 0
            && (forall i :: 0 <= i < r.calls - 1 ==> replies[i] >= 0)
            && (r.stop == TimedOut <==> replies[r.calls - 1] == RecvTimedOut))
    decreases |replies|
  {
    var r := RecvLoop(t, sock, len, rrt, replies).value;
    if rrt < len {
      if replies[0] < 0 {
        assert replies[..1] == [replies[0]];
      } else {
        var rest := RecvLoop(t, sock, len, rrt + replies[0], replies[1..]).value;
        RecvLoopCounts(t, sock, len, rrt + replies[0], replies[1..]);
        var n := rest.calls + 1;
        assert r.chunks == [Min(len - rrt, RecvChunk)] + rest.chunks;
        assert replies[..n][1..] == replies[1..][..n - 1];
        forall i | 0 <= i < n && (r.stop == Complete || i < n - 1)
          ensures replies[i] >= 0
        {
          if i > 0 {
            assert replies[i] == replies[1..][i - 1];
          }
        }
        if r.stop != Complete {
          assert replies[n - 1] == replies[1..][n - 2];
        }
      }
    }
  }

  /** The piece asked for at each call is `min(32, len - read so far)`. */
  lemma {:induction false} RecvLoopAsks(t: Table, sock: int, len: nat, rrt: nat, replies: seq<int>)
    requires RecvLoop(t, sock, len, rrt, replies).Some?
    ensures var r := RecvLoop(t, sock, len, rrt, replies).value;
      forall i :: 0 <= i < r.calls ==>
        r.chunks[i] == Min(len - (rrt + SumPositive(replies[..i])), RecvChunk)
    decreases |replies|
  {
    var r := RecvLoop(t, sock, len, rrt, replies).value;
    if rrt < len && replies[0] >= 0 {
      var rest := RecvLoop(t, sock, len, rrt + replies[0], replies[1..]).value;
      RecvLoopAsks(t, sock, len, rrt + replies[0], replies[1..]);
      assert r.chunks == [Min(len - rrt, RecvChunk)] + rest.chunks;
      forall i | 1 <= i < r.calls
        ensures r.chunks[i] == Min(len - (rrt + SumPositive(replies[..i])), RecvChunk)
      {
        assert replies[..i][1..] == replies[1..][..i - 1];
        assert r.chunks[i] == rest.chunks[i - 1];
      }
    }
  }

  /** A zero-byte answer does not advance the loop: the run is the one without
      it, with one more call asking the same size. */
  lemma RecvZeroDoesNotAdvance(t: Table, sock: int, len: nat, rrt: nat, replies: seq<int>)
    requires rrt < len
    ensures var with := RecvLoop(t, sock, len, rrt, [0] + replies);
      var without := RecvLoop(t, sock, len, rrt, replies);
      && (with.None? <==> without.None?)
      && (with.Some? ==>
            && with.value.read == without.value.read
            && with.value.table == without.value.table
            && with.value.stop == without.value.stop
            && with.value.calls == without.value.calls + 1)
  {
    assert ([0] + replies)[1..] == replies;
  }

  /** When every answer fills its piece, `len` bytes are read in ceil(len / 32)
      calls and the table is untouched. */
  lemma {:induction false} RecvAllDelivered(t: Table, sock: int, len: nat, rrt: nat, extra: seq<int>)
    requires rrt <= len
    ensures var r := RecvLoop(t, sock, len, rrt, FullChunks(len - rrt, RecvChunk) + extra);
      && r.Some?
      && r.value.read == len
      && r.value.table == t
      && r.value.stop == Complete
      && r.value.calls == |FullChunks(len - rrt, RecvChunk)|
    decreases len - rrt
  {
    var rem := len - rrt;
    if rem == 0 {
      assert FullChunks(rem, RecvChunk) + extra == extra;
    } else if rem <= RecvChunk {
      assert FullChunks(rem, RecvChunk) + extra == [rem] + extra;
      RecvStep(t, sock, len, rrt, rem, extra);
    } else {
      var tail := FullChunks(rem - RecvChunk, RecvChunk);
      assert FullChunks(rem, RecvChunk) + extra == [RecvChunk] + (tail + extra);
      RecvAllDelivered(t, sock, len, rrt + RecvChunk, extra);
      RecvStep(t, sock, len, rrt, RecvChunk, tail + extra);
    }
  }

  /** One non-negative answer below the goal: the run is the run from the
      advanced count, with one more call. */
  lemma RecvStep(t: Table, sock: int, len: nat, rrt: nat, rb: nat, rest: seq<int>)
    requires rrt < len
    requires RecvLoop(t, sock, len, rrt + rb, rest).Some?
    ensures var r := RecvLoop(t, sock, len, rrt, [rb] + rest);
      var q := RecvLoop(t, sock, len, rrt + rb, rest).value;
      && r.Some?
      && r.value.read == q.read && r.value.table == q.table && r.value.stop == q.stop
      && r.value.calls == q.calls + 1
  {
    assert ([rb] + rest)[1..] == rest;
  }

  /** `cc3000_net_recv` as written: on a timeout the count becomes `-rb`, the
      magnitude of the timeout code, and the bytes already read are dropped. */
  function NetRecv(t: Table, sock: int, len: nat, replies: seq<int>): (r: Option<(int, Table)>)
    ensures r.Some? ==> r.value.0 >= 0
    ensures r.Some? ==> RecvLoop(t, sock, len, 0, replies).Some?
    ensures r.Some? ==>
      var run := RecvLoop(t, sock, len, 0, replies).value;
      && r.value.1 == run.table
      && (run.stop == TimedOut ==> r.value.0 == -RecvTimedOut)
      && (run.stop != TimedOut ==> r.value.0 == run.read)
  {
    match RecvLoop(t, sock, len, 0, replies)
    case None => None
    case Some(run) =>
      if run.stop == TimedOut then Some((-RecvTimedOut, run.table))
      else Some((run.read, run.table))
  }

  /** `cc3000_net_recv` with the evident intent of its timeout branch: hand the
      timeout code itself back, so that the caller can report a timeout. */
  function NetRecvIntended(t: Table, sock: int, len: nat, replies: seq<int>): (r: Option<(int, Table)>)
    ensures r.Some? ==> RecvLoop(t, sock, len, 0, replies).Some?
    ensures r.Some? ==>
      var run := RecvLoop(t, sock, len, 0, replies).value;
      && r.value.1 == run.table
      && (run.stop == TimedOut <==> r.value.0 == RecvTimedOut)
      && (run.stop != TimedOut ==> r.value.0 == run.read >= 0)
  {
    match RecvLoop(t, sock, len, 0, replies)
    case None => None
    case Some(run) =>
      if run.stop == TimedOut then Some((RecvTimedOut, run.table))
      else Some((run.read, run.table))
  }

  // ------------------------------------------------- readiness and recvfrom

  /** `cc3000_net_available`: 1 when `select` reports the socket readable;
      otherwise -1 when the socket's slot has been freed, else 0. */
  function NetAvailable(selectResult: int, stillSet: bool, t: Table, sock: int): (r: int)
    ensures r == 1 <==> selectResult > 0 && stillSet
    ensures r == -1 <==> !(selectResult > 0 && stillSet) && sock !in t
    ensures r in {1, -1, 0}
  {
    if selectResult > 0 && stillSet then 1
    else if !IsSocketValid(t, sock) then -1
    else 0
  }

  /** What one pass of the wait loop observes: `select`'s result, whether the
      socket was still in the returned set, and the socket table at that time
      (which a close notification may change between passes). */
  datatype Poll = Poll(selectResult: int, stillSet: bool, table: Table)

  function PollResult(p: Poll, sock: int): int {
    NetAvailable(p.selectResult, p.stillSet, p.table, sock)
  }

  /** The wait loop of `cc3000_net_recvfrom`: poll until the readiness check is
      non-zero; the value it ended on and the number of polls. */
  function AwaitReadable(sock: int, polls: seq<Poll>): (r: Option<(int, nat)>)
    ensures r.Some? ==>
      && 1 <= r.value.1 <= |polls|
      && r.value.0 == PollResult(polls[r.value.1 - 1], sock) != 0
      && forall i :: 0 <= i < r.value.1 - 1 ==> PollResult(polls[i], sock) == 0
    ensures r.None? ==> forall i :: 0 <= i < |polls| ==> PollResult(polls[i], sock) == 0
    decreases |polls|
  {
    if |polls| == 0 then None
    else
      var v := PollResult(polls[0], sock);
      if v != 0 then Some((v, 1))
      else match AwaitReadable(sock, polls[1..])
        case None => None
        case Some(x) => Some((x.0, x.1 + 1))
  }

  /** A close notification that frees the socket's slot ends the wait at the
      next poll at the latest: the loop cannot hang on a closed socket. */
  lemma {:induction false} FreedSlotEndsWait(sock: int, polls: seq<Poll>, k: nat)
    requires k < |polls| && sock !in polls[k].table
    ensures AwaitReadable(sock, polls).Some?
    ensures AwaitReadable(sock, polls).value.1 <= k + 1
    decreases k
  {
    if k > 0 && PollResult(polls[0], sock) == 0 {
      FreedSlotEndsWait(sock, polls[1..], k - 1);
    }
  }

  /** What `cc3000_net_recvfrom` returns after its wait loop. */
  datatype RecvFromResult = RecvFromResult(result: int, table: Table, from: NetAddress)

  /** `cc3000_net_recvfrom` after its wait loop, given `recvfrom`'s result and
      the `sockaddr` it filled: a negative result other than the timeout closes
      the socket, frees its slot and becomes 0; the sender's address is read
      back from the `sockaddr` in every case. */
  function NetRecvFrom(t: Table, sock: int, rb: int, sa: SockAddr): (r: RecvFromResult)
    requires ValidSockAddr(sa)
    ensures r.result < 0 <==> rb == RecvTimedOut
    ensures rb >= 0 || rb == RecvTimedOut ==> r.result == rb && r.table == t
    ensures rb < 0 && rb != RecvTimedOut ==> r.result == 0 && r.table == HandleSocket(t, sock, Free).table
    ensures r.from == ReadAddr(sa)
  {
    if rb < 0 && rb != RecvTimedOut then
      RecvFromResult(0, HandleSocket(t, sock, Free).table, ReadAddr(sa))
    else
      RecvFromResult(rb, t, ReadAddr(sa))
  }
}
