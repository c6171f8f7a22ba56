/**
 * The stream a transport reads from and writes to (a serial port, a TCP
 * connection, a UDP client). Its behaviour is given as a script: the bytes
 * the other end sends, in order, and how many bytes each successive read
 * call may deliver at most (0 for a read that returns nothing). A read
 * after the script ends raises the script's exception, as a read that
 * times out or finds the connection closed does. What is written and when
 * the input buffer is discarded is recorded in an event log.
 */
module StreamResources {
  import opened Wrappers
  import opened Bytes
  import opened Exceptions

  datatype StreamEvent = Discarded | Wrote(frame: seq<byte>)

  /** What a stream may raise: a runtime exception of its own, never a slave's answer. */
  type StreamFailure = e: Exception | !e.SlaveError? && !e.InvalidModbusRequestException?
    witness TimeoutException

  /** The number of frames written in a log. */
  function Writes(events: seq<StreamEvent>): (r: nat)
    ensures r <= |events|
  {
    if |events| == 0 then 0 else Writes(events[..|events| - 1]) + if events[|events| - 1].Wrote? then 1 else 0
  }

  lemma {:induction false} WritesAppend(events: seq<StreamEvent>, more: seq<StreamEvent>)
    ensures Writes(events + more) == Writes(events) + Writes(more)
    decreases |more|
  {
    if |more| > 0 {
      assert (events + more)[..|events + more| - 1] == events + more[..|more| - 1];
      WritesAppend(events, more[..|more| - 1]);
    } else {
      assert events + more == events;
    }
  }

  /** `rest` is what is left of `s` after reading some of it from the front. */
  ghost predicate Unread<T>(rest: seq<T>, s: seq<T>)
    decreases |s|
  {
    rest == s || (s != [] && Unread(rest, s[1..]))
  }

  /** Whatever is left after reading `k` elements is left unread. */
  lemma {:induction false} UnreadDrop<T>(s: seq<T>, k: nat)
    requires k <= |s|
    ensures Unread(s[k..], s)
  {
    if k > 0 {
      UnreadDrop(s[1..], k - 1);
      assert s[1..][k - 1..] == s[k..];
    }
  }

  /** What is left unread is a suffix. */
  lemma {:induction false} UnreadSuffix<T>(rest: seq<T>, s: seq<T>)
    requires Unread(rest, s)
    ensures |rest| <= |s| && rest == s[|s| - |rest|..]
    decreases |s|
  {
    if rest != s {
      UnreadSuffix(rest, s[1..]);
    }
  }

  lemma {:induction false} UnreadTransitive<T>(a: seq<T>, b: seq<T>, c: seq<T>)
    requires Unread(a, b) && Unread(b, c)
    ensures Unread(a, c)
    decreases |c|
  {
    if b != c {
      UnreadTransitive(a, b, c[1..]);
    }
  }

  /** What is left of a sequence holds nothing the sequence did not. */
  lemma {:induction false} UnreadIn<T>(x: T, rest: seq<T>, s: seq<T>)
    requires Unread(rest, s) && x in rest
    ensures x in s
    decreases |s|
  {
    if rest != s {
      UnreadIn(x, rest, s[1..]);
      assert s == [s[0]] + s[1..];
    }
  }

  class StreamResource {
    /** the bytes the other end has sent or will send, not yet read */
    var input: seq<byte>
    /** the most bytes each of the following read calls delivers */
    var chunks: seq<nat>
    /** what a read raises once the script has ended */
    const failure: StreamFailure
    var events: seq<StreamEvent>

    constructor (input: seq<byte>, chunks: seq<nat>, failure: StreamFailure)
      ensures this.input == input && this.chunks == chunks && this.failure == failure && events == []
    {
      this.input, this.chunks, this.failure, events := input, chunks, failure, [];
    }

    /**
     * Reads at most `count` bytes into `buffer` from `offset` on and returns
     * how many it read: the next bytes of the input, as many as the next step
     * of the script allows. Nothing else in the buffer changes. A read after
     * the script has ended raises its exception and changes nothing.
     */
    method Read(buffer: array<byte>, offset: nat, count: nat) returns (r: Result<nat, Exception>)
      requires offset + count <= buffer.Length
      modifies this`input, this`chunks, buffer
      ensures old(chunks) == [] ==> r.Failure? && r.error == failure && unchanged(this) && unchanged(buffer)
      ensures old(chunks) != [] ==> r.Success? && chunks == old(chunks)[1..]
      ensures r.Success? ==>
        r.value <= count && r.value <= |old(input)| && (r.value < count ==> r.value == old(chunks)[0] || r.value == |old(input)|)
        && r.value == Min(Min(old(chunks)[0], count), |old(input)|)
        && input == old(input)[r.value..]
        && buffer[offset..offset + r.value] == old(input)[..r.value]
        && buffer[..offset] == old(buffer[..offset])
        && buffer[offset + r.value..] == old(buffer[offset + r.value..])
    {
      if chunks == [] {
        return Failure(failure);
      }
      var n := Min(Min(chunks[0], count), |input|);
      ghost var before := buffer[..];
      forall i | offset <= i < offset + n {
        buffer[i] := input[i - offset];
      }
      assert buffer[offset..offset + n] == input[..n];
      assert buffer[..offset] == before[..offset];
      assert buffer[offset + n..] == before[offset + n..];
      input := input[n..];
      chunks := chunks[1..];
      return Success(n);
    }

    /** Writes a whole frame. */
    method Write(frame: seq<byte>)
      modifies this`events
      ensures events == old(events) + [Wrote(frame)]
    {
      events := events + [Wrote(frame)];
    }

    /** Discards what the input buffer holds; only the event is recorded. */
    method DiscardInBuffer()
      modifies this`events
      ensures events == old(events) + [Discarded]
    {
      events := events + [Discarded];
    }
  }

  function Min(a: nat, b: nat): nat {
    if a < b then a else b
  }
}
