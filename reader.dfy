/**
 * read_nonblocking (imagedesc.py:52-68): polls the pseudo-terminal until the
 * driven program prints its prompt marker. The operating system's reads are
 * replaced by the finite sequence of what each `os.read(fd, 4096)` did, with
 * the bytes already decoded to text; the loop itself is the script's.
 */
module Reader {
  import opened Strings

  /** What one non-blocking read of the pseudo-terminal did. */
  datatype ReadEvent =
    | Data(chunk: string)  // returned text; an empty chunk is read as end of output (`if not chunk`)
    | Empty                // returned b'': end of output
    | WouldBlock           // raised BlockingIOError: nothing yet, so sleep and retry
    | Error                // raised another OSError, e.g. the peer end was closed

  /** Why the loop returned. */
  datatype Stop =
    | MarkerSeen       // the marker is now in the buffer
    | EndOfOutput      // a read returned nothing
    | ReadFailed       // a read raised OSError
    | EventsExhausted  // no more events: the script would still be polling

  /** The prompt banner every call site waits for. */
  const Marker: string := ">>>"

  function ChunkOf(e: ReadEvent): string
  {
    if e.Data? then e.chunk else []
  }

  /** The text the first `n` reads returned, in order: what `response += chunk` accumulates. */
  function Received(events: seq<ReadEvent>, n: nat): string
    requires n <= |events|
  {
    if n == 0 then [] else Received(events, n - 1) + ChunkOf(events[n - 1])
  }

  /** The accumulated text of two runs of reads is the text of the first followed by that of the second. */
  lemma {:induction false} ReceivedAppend(a: seq<ReadEvent>, b: seq<ReadEvent>, n: nat)
    requires n <= |b|
    ensures Received(a + b, |a| + n) == Received(a, |a|) + Received(b, n)
  {
    if n == 0 {
      assert (a + b)[..|a|] == a[..|a|];
      ReceivedOnlyPrefix(a + b, a, |a|);
    } else {
      ReceivedAppend(a, b, n - 1);
      assert (a + b)[|a| + n - 1] == b[n - 1];
      assert Received(a + b, |a| + n) == Received(a + b, |a| + n - 1) + ChunkOf(b[n - 1]);
      assert Received(b, n) == Received(b, n - 1) + ChunkOf(b[n - 1]);
    }
  }

  /** What the first `n` reads returned depends on those reads only. */
  lemma {:induction false} ReceivedOnlyPrefix(events: seq<ReadEvent>, other: seq<ReadEvent>, n: nat)
    requires n <= |events| && n <= |other|
    requires events[..n] == other[..n]
    ensures Received(events, n) == Received(other, n)
  {
    if n > 0 {
      assert events[..n - 1] == other[..n - 1] by {
        assert forall k :: 0 <= k < n - 1 ==> events[k] == events[..n][k] == other[..n][k] == other[k];
      }
      assert events[n - 1] == events[..n][n - 1] == other[..n][n - 1] == other[n - 1];
      ReceivedOnlyPrefix(events, other, n - 1);
    }
  }

  /** The buffer only grows: what fewer reads returned is a prefix of what more reads return. */
  lemma {:induction false} ReceivedGrows(events: seq<ReadEvent>, m: nat, n: nat)
    requires m <= n <= |events|
    ensures Received(events, m) <= Received(events, n)
    decreases n - m
  {
    if m < n {
      ReceivedGrows(events, m, n - 1);
    }
  }

  /** A read that ends the loop without the marker: end of output or an error. */
  predicate Ends(e: ReadEvent)
  {
    e.Empty? || e.Error? || (e.Data? && e.chunk == [])
  }

  /** The k-th read lets the loop go on: it would block, or it brought text without completing the marker. */
  predicate KeepsReading(events: seq<ReadEvent>, k: nat, marker: string)
    requires k < |events|
  {
    !Ends(events[k]) && (events[k].Data? ==> !Contains(Received(events, k + 1), marker))
  }

  /**
   * The loop of read_nonblocking. It consumes `used` events; every one before
   * the last lets it go on, and the last is the one that stopped it (unless
   * the events ran out first). The response is the accumulated text, stripped.
   */
  method ReadNonblocking(events: seq<ReadEvent>, marker: string) returns (response: string, used: nat, stop: Stop)
    ensures used <= |events|
    ensures stop != EventsExhausted ==> 0 < used
    ensures stop == ReadFailed ==> events[used - 1] == Error
    ensures stop == EndOfOutput ==> Ends(events[used - 1]) && !events[used - 1].Error?
    ensures stop == MarkerSeen ==>
      events[used - 1].Data? && events[used - 1].chunk != [] && Contains(Received(events, used), marker)
    ensures stop == MarkerSeen && marker != [] ==> !Contains(Received(events, used - 1), marker)
    ensures stop == EventsExhausted <==> used == |events| && forall k :: 0 <= k < used ==> KeepsReading(events, k, marker)
    ensures stop != EventsExhausted ==> forall k :: 0 <= k < used - 1 ==> KeepsReading(events, k, marker)
    ensures response == Strip(Received(events, used))
    ensures stop == MarkerSeen && marker != [] && !IsSpace(marker[0]) && !IsSpace(marker[|marker| - 1]) ==>
      Contains(response, marker)
  {
    var buffer: string := [];
    used, stop := 0, EventsExhausted;
    while used < |events|
      invariant used <= |events|
      invariant buffer == Received(events, used)
      invariant forall k :: 0 <= k < used ==> KeepsReading(events, k, marker)
      invariant marker != [] ==> !Contains(buffer, marker)
      invariant stop == EventsExhausted
    {
      var e := events[used];
      used := used + 1;
      match e
      case WouldBlock =>
        // time.sleep(0.05), then retry
        assert buffer + [] == buffer;
      case Empty =>
        assert buffer + [] == buffer;
        assert !KeepsReading(events, used - 1, marker);
        stop := EndOfOutput;
        break;
      case Error =>
        assert buffer + [] == buffer;
        assert !KeepsReading(events, used - 1, marker);
        stop := ReadFailed;
        break;
      case Data(chunk) =>
        if chunk == [] {
          assert buffer + [] == buffer;
          assert !KeepsReading(events, used - 1, marker);
          stop := EndOfOutput;
          break;
        }
        buffer := buffer + chunk;
        if Contains(buffer, marker) {
          stop := MarkerSeen;
          assert !KeepsReading(events, used - 1, marker);
          break;
        }
    }
    if stop == MarkerSeen && marker != [] && !IsSpace(marker[0]) && !IsSpace(marker[|marker| - 1]) {
      StripKeepsOccurrence(buffer, marker);
    }
    response := Strip(buffer);
  }

  /** The script's marker survives the final strip: it neither starts nor ends with whitespace. */
  lemma MarkerIsNotBlank()
    ensures Marker != [] && !IsSpace(Marker[0]) && !IsSpace(Marker[|Marker| - 1])
  {
  }
}
