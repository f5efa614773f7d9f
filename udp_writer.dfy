/** The datagram writer's chunk-and-retry loop. The socket is replaced by an oracle:
    outcomes[k] is what the k-th sendto call reports. A successful sendto on a
    datagram socket accepts the whole chunk. */
module UdpWriter {
  import opened Bytes

  const ChunkSize: nat := 1024

  /** After every PauseEvery accepted chunks the writer sleeps once. */
  const PauseEvery: nat := 50

  datatype SendOutcome =
    | Sent        // sendto accepted the chunk
    | WouldBlock  // SOCKET_ERROR with errno EAGAIN or EWOULDBLOCK
    | Failed      // SOCKET_ERROR with any other errno

  function Min(a: int, b: int): int { if a <= b then a else b }

  /** ceil(n / ChunkSize): how many chunks a packet of n bytes is cut into. */
  function NumChunks(n: nat): nat
  {
    (n + ChunkSize - 1) / ChunkSize
  }

  /** The packet cut into consecutive pieces of ChunkSize bytes, the last one possibly shorter. */
  function Chunks(p: seq<byte>): seq<seq<byte>>
    decreases |p|
  {
    if |p| == 0 then []
    else if |p| <= ChunkSize then [p]
    else [p[..ChunkSize]] + Chunks(p[ChunkSize..])
  }

  function Concat(cs: seq<seq<byte>>): seq<byte>
  {
    if cs == [] then [] else cs[0] + Concat(cs[1..])
  }

  /** The i-th chunk starts at byte i * ChunkSize and has min(remaining, ChunkSize) bytes,
      so every chunk is full except possibly the last, and there are ceil(n / ChunkSize). */
  lemma {:induction false} ChunksAt(p: seq<byte>)
    ensures |Chunks(p)| == NumChunks(|p|)
    ensures forall i :: 0 <= i < |Chunks(p)| ==>
              Chunks(p)[i] == p[i * ChunkSize .. Min(|p|, (i + 1) * ChunkSize)]
    ensures forall i :: 0 <= i < |Chunks(p)| - 1 ==> |Chunks(p)[i]| == ChunkSize
    ensures Chunks(p) != [] ==> 0 < |Chunks(p)[|Chunks(p)| - 1]| <= ChunkSize
    decreases |p|
  {
    if |p| > ChunkSize {
      var rest := p[ChunkSize..];
      ChunksAt(rest);
      var cs := Chunks(p);
      assert cs == [p[..ChunkSize]] + Chunks(rest);
      forall i | 0 <= i < |cs|
        ensures cs[i] == p[i * ChunkSize .. Min(|p|, (i + 1) * ChunkSize)]
      {
        if i > 0 {
          assert cs[i] == Chunks(rest)[i - 1];
          assert rest[(i - 1) * ChunkSize .. Min(|rest|, i * ChunkSize)]
              == p[i * ChunkSize .. Min(|p|, (i + 1) * ChunkSize)];
        }
      }
    }
  }

  lemma {:induction false} ChunkCount(p: seq<byte>)
    ensures |Chunks(p)| == NumChunks(|p|)
  {
    ChunksAt(p);
  }

  /** The chunks, concatenated in order, are the packet. */
  lemma {:induction false} ChunksConcat(p: seq<byte>)
    ensures Concat(Chunks(p)) == p
    decreases |p|
  {
    if |p| > ChunkSize {
      ChunksConcat(p[ChunkSize..]);
      assert Chunks(p)[1..] == Chunks(p[ChunkSize..]);
      assert p == p[..ChunkSize] + p[ChunkSize..];
    }
  }

  /** How many of the outcomes accepted a chunk. */
  function CountSent(os: seq<SendOutcome>): (n: nat)
    ensures n <= |os|
  {
    if os == [] then 0
    else CountSent(os[..|os| - 1]) + (if os[|os| - 1] == Sent then 1 else 0)
  }

  /** How many of the outcomes end an attempt without a retry of the same chunk. */
  function CountSettled(os: seq<SendOutcome>): (n: nat)
    ensures n <= |os|
  {
    if os == [] then 0
    else (if os[0] != WouldBlock then 1 else 0) + CountSettled(os[1..])
  }

  lemma {:induction false} CountSentStep(os: seq<SendOutcome>, k: nat)
    requires k < |os|
    ensures CountSent(os[..k + 1]) == CountSent(os[..k]) + (if os[k] == Sent then 1 else 0)
  {
    assert os[..k + 1][..k] == os[..k];
  }

  lemma {:induction false} CountSettledStep(os: seq<SendOutcome>, k: nat)
    requires k < |os|
    ensures CountSettled(os[k..]) == (if os[k] != WouldBlock then 1 else 0) + CountSettled(os[k + 1..])
  {
    assert os[k..][1..] == os[k + 1..];
  }

  /** The byte cursor after numPackets accepted chunks, and the size of the next chunk. */
  lemma {:induction false} CursorStep(n: nat, numPackets: nat)
    requires Min(n, ChunkSize * numPackets) < n
    ensures numPackets < NumChunks(n)
    ensures Min(n, ChunkSize * numPackets) + Min(n - ChunkSize * numPackets, ChunkSize)
            == Min(n, ChunkSize * (numPackets + 1))
    ensures Min(n, ChunkSize * (numPackets + 1)) < n <==> numPackets + 1 < NumChunks(n)
  {
  }

  /** Each call carried the chunk that follows the ones already accepted: a blocked
      send is retried with the same chunk, an accepted one moves on to the next. */
  ghost predicate Scheduled(p: seq<byte>, os: seq<SendOutcome>, attempts: seq<seq<byte>>)
    requires |attempts| <= |os|
  {
    forall i :: 0 <= i < |attempts| ==>
      CountSent(os[..i]) < |Chunks(p)| && attempts[i] == Chunks(p)[CountSent(os[..i])]
  }

  lemma {:induction false} ScheduleStep(p: seq<byte>, os: seq<SendOutcome>, attempts: seq<seq<byte>>)
    requires |attempts| < |os| && Scheduled(p, os, attempts)
    requires CountSent(os[..|attempts|]) < |Chunks(p)|
    ensures Scheduled(p, os, attempts + [Chunks(p)[CountSent(os[..|attempts|])]])
  {
  }

  lemma {:induction false} FailedStep(os: seq<SendOutcome>, k: nat)
    requires k < |os|
    ensures Failed in os[..k + 1] <==> Failed in os[..k] || os[k] == Failed
  {
    assert os[..k + 1] == os[..k] + [os[k]];
  }

  lemma {:induction false} NoFailure(os: seq<SendOutcome>, k: nat)
    requires k <= |os| && Failed !in os[..k]
    ensures forall i :: 0 <= i < k ==> os[i] != Failed
  {
    forall i | 0 <= i < k
      ensures os[i] != Failed
    {
      assert os[i] == os[..k][i];
    }
  }

  /** One more accepted chunk adds a pause exactly when it completes a run of 50. */
  lemma {:induction false} PauseStep(m: nat)
    ensures (m + 1) / PauseEvery == m / PauseEvery + (if (m + 1) % PauseEvery == 0 then 1 else 0)
  {
  }

  /** The bytes from the cursor after numPackets accepted chunks are the next chunk. */
  lemma {:induction false} NextChunk(p: seq<byte>, numPackets: nat, start: nat, size: nat)
    requires start == Min(|p|, ChunkSize * numPackets) < |p|
    requires size == Min(|p| - start, ChunkSize)
    ensures numPackets < |Chunks(p)| && start + size <= |p|
    ensures p[start .. start + size] == Chunks(p)[numPackets]
  {
    ChunksAt(p);
    CursorStep(|p|, numPackets);
  }

  /** The state of the write loop after k sendto calls, numPackets of them accepted. */
  ghost predicate Progress(p: seq<byte>, os: seq<SendOutcome>, k: nat, numPackets: nat,
                           bytesSent: nat, attempts: seq<seq<byte>>, pauses: nat)
  {
    k == |attempts| <= |os|
    && |Chunks(p)| == NumChunks(|p|)
    && numPackets == CountSent(os[..k])
    && Failed !in os[..k]
    && numPackets <= NumChunks(|p|)
    && bytesSent == Min(|p|, ChunkSize * numPackets)
    && (bytesSent < |p| <==> numPackets < NumChunks(|p|))
    && CountSettled(os[k..]) >= NumChunks(|p|) - numPackets
    && Scheduled(p, os, attempts)
    && pauses == numPackets / PauseEvery
  }

  /** While bytes remain, another sendto call is available, and it carries the next chunk. */
  lemma {:induction false} Attempt(p: seq<byte>, os: seq<SendOutcome>, k: nat, numPackets: nat,
                bytesSent: nat, attempts: seq<seq<byte>>, pauses: nat, size: nat)
    requires Progress(p, os, k, numPackets, bytesSent, attempts, pauses) && bytesSent < |p|
    requires size == Min(|p| - bytesSent, ChunkSize)
    ensures k < |os| && bytesSent + size <= |p|
    ensures Scheduled(p, os, attempts + [p[bytesSent .. bytesSent + size]])
  {
    NextChunk(p, numPackets, bytesSent, size);
    CountSettledStep(os, k);
    ScheduleStep(p, os, attempts);
  }

  lemma {:induction false} Blocked(p: seq<byte>, os: seq<SendOutcome>, k: nat, numPackets: nat,
                bytesSent: nat, attempts: seq<seq<byte>>, pauses: nat, chunk: seq<byte>)
    requires Progress(p, os, k, numPackets, bytesSent, attempts, pauses) && k < |os|
    requires os[k] == WouldBlock && Scheduled(p, os, attempts + [chunk])
    ensures Progress(p, os, k + 1, numPackets, bytesSent, attempts + [chunk], pauses)
  {
    CountSentStep(os, k);
    CountSettledStep(os, k);
    FailedStep(os, k);
  }

  lemma {:induction false} Accepted(p: seq<byte>, os: seq<SendOutcome>, k: nat, numPackets: nat,
                 bytesSent: nat, attempts: seq<seq<byte>>, pauses: nat, chunk: seq<byte>, size: nat)
    requires Progress(p, os, k, numPackets, bytesSent, attempts, pauses) && k < |os|
    requires bytesSent < |p| && size == Min(|p| - bytesSent, ChunkSize)
    requires os[k] == Sent && Scheduled(p, os, attempts + [chunk])
    ensures var pauses' := pauses + (if (numPackets + 1) % PauseEvery == 0 then 1 else 0);
            Progress(p, os, k + 1, numPackets + 1, bytesSent + size, attempts + [chunk], pauses')
  {
    CountSentStep(os, k);
    CountSettledStep(os, k);
    FailedStep(os, k);
    CursorStep(|p|, numPackets);
    PauseStep(numPackets);
  }

  /** What write reports, given the sendto calls it made. */
  ghost predicate Reported(p: seq<byte>, os: seq<SendOutcome>, result: int,
                           attempts: seq<seq<byte>>, pauses: nat)
  {
    |attempts| <= |os|
    && Scheduled(p, os, attempts)
    && (forall i :: 0 <= i < |attempts| - 1 ==> os[i] != Failed)
    && (Failed in os[..|attempts|] ==> result == 0 && os[|attempts| - 1] == Failed)
    && (Failed !in os[..|attempts|] ==>
          result == |p| && CountSent(os[..|attempts|]) == |Chunks(p)|)
    && pauses == CountSent(os[..|attempts|]) / PauseEvery
  }

  /** A hard failure ends the loop with 0 after the failed call. */
  lemma {:induction false} Refused(p: seq<byte>, os: seq<SendOutcome>, k: nat, numPackets: nat,
                bytesSent: nat, attempts: seq<seq<byte>>, pauses: nat, chunk: seq<byte>)
    requires Progress(p, os, k, numPackets, bytesSent, attempts, pauses) && k < |os|
    requires os[k] == Failed && Scheduled(p, os, attempts + [chunk])
    ensures Reported(p, os, 0, attempts + [chunk], pauses)
  {
    FailedStep(os, k);
    NoFailure(os, k);
    CountSentStep(os, k);
  }

  /** Leaving the loop with nothing left: every chunk was accepted. */
  lemma {:induction false} Finished(p: seq<byte>, os: seq<SendOutcome>, k: nat, numPackets: nat,
                 bytesSent: nat, attempts: seq<seq<byte>>, pauses: nat)
    requires Progress(p, os, k, numPackets, bytesSent, attempts, pauses) && bytesSent >= |p|
    ensures bytesSent == |p| && Reported(p, os, |p|, attempts, pauses)
  {
    NoFailure(os, k);
  }

  /** write: hands the packet to sendto chunk by chunk. The oracle must eventually
      settle every chunk (the source retries a blocked send forever).
      attempts: the chunk passed to each sendto call, in call order.
      pauses: the 1 ms sleeps taken after every 50th accepted chunk. */
  method Write(packet: seq<byte>, outcomes: seq<SendOutcome>)
    returns (result: int, attempts: seq<seq<byte>>, pauses: nat)
    requires CountSettled(outcomes) >= NumChunks(|packet|)
    ensures |attempts| <= |outcomes|
    // each call carries the chunk that follows the ones already accepted:
    // a blocked send is retried with the same chunk, an accepted one moves to the next
    ensures forall i :: 0 <= i < |attempts| ==>
              CountSent(outcomes[..i]) < |Chunks(packet)| &&
              attempts[i] == Chunks(packet)[CountSent(outcomes[..i])]
    // the loop stops at the first hard failure and returns 0 (false)
    ensures forall i :: 0 <= i < |attempts| - 1 ==> outcomes[i] != Failed
    ensures Failed in outcomes[..|attempts|] ==>
              result == 0 && outcomes[|attempts| - 1] == Failed
    // otherwise every chunk was accepted and the whole length is reported
    ensures Failed !in outcomes[..|attempts|] ==>
              result == |packet| && CountSent(outcomes[..|attempts|]) == |Chunks(packet)|
    ensures pauses == CountSent(outcomes[..|attempts|]) / PauseEvery
  {
    var n := |packet|;
    ChunkCount(packet);
    var bytesSent: nat := 0;
    var numPackets: nat := 0;
    var k: nat := 0;
    attempts := [];
    pauses := 0;
    assert outcomes[0..] == outcomes;
    while bytesSent < n
      invariant Progress(packet, outcomes, k, numPackets, bytesSent, attempts, pauses)
      decreases |outcomes| - k
    {
      var remaining := n - bytesSent;
      var chunkSize := if remaining > ChunkSize then ChunkSize else remaining;
      Attempt(packet, outcomes, k, numPackets, bytesSent, attempts, pauses, chunkSize);
      var chunk := packet[bytesSent .. bytesSent + chunkSize];
      var outcome := outcomes[k];
      if outcome == WouldBlock {
        // sleep 1 ms and retry the same chunk
        Blocked(packet, outcomes, k, numPackets, bytesSent, attempts, pauses, chunk);
        attempts := attempts + [chunk];
        k := k + 1;
        continue;
      }
      if outcome == Failed {
        Refused(packet, outcomes, k, numPackets, bytesSent, attempts, pauses, chunk);
        attempts := attempts + [chunk];
        k := k + 1;
        result := 0;
        return;
      }
      Accepted(packet, outcomes, k, numPackets, bytesSent, attempts, pauses, chunk, chunkSize);
      attempts := attempts + [chunk];
      k := k + 1;
      bytesSent := bytesSent + chunkSize;
      numPackets := numPackets + 1;
      if numPackets % PauseEvery == 0 {
        pauses := pauses + 1;
      }
    }
    Finished(packet, outcomes, k, numPackets, bytesSent, attempts, pauses);
    result := bytesSent;
  }
}
