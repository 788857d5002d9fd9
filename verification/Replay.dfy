/** Answering a replay request from the retained tail of a session's output. */
module Replay {
  import opened Bytes
  import opened ByteRing

  /** Sequence numbers are 64-bit words. */
  const WORD := 0x1_0000_0000_0000_0000

  datatype Reply =
    | Data(sequence: nat, data: seq<Byte>)
    | Gap(requested: nat, available: nat)
    | BeyondOutput

  /** The reply computed from a history snapshot and the next sequence number; the subtraction wraps as in Go. */
  function ReplyFrom(history: seq<Byte>, next: nat, from: nat): Reply
    requires |history| <= MAX_SCROLLBACK && next < WORD && from < WORD
  {
    var available := (next - |history|) % WORD;
    if from < available then Gap(from, available)
    else if from > next then BeyondOutput
    else
      assert next >= |history|;
      Data(from, history[from - available..])
  }

  /** What a client must get: the stream from the requested byte on, or a gap naming the oldest byte kept. */
  function ExactReply(stream: seq<Byte>, from: nat): Reply {
    var oldest := if |stream| <= MAX_SCROLLBACK then 0 else |stream| - MAX_SCROLLBACK;
    if from < oldest then Gap(from, oldest)
    else if from > |stream| then BeyondOutput
    else Data(from, stream[from..])
  }

  /**
   The reply when the history was read after `written` bytes of the stream had reached the screen and
   the counter, later, after `counted` bytes had been counted. The two reads take different locks, so
   either number may be the larger: a chunk may be written and not yet counted, or written and
   counted between the reads.
   */
  function ReplyAt(stream: seq<Byte>, written: nat, counted: nat, from: nat): Reply
    requires written <= |stream| && counted < WORD && from < WORD
  {
    ReplyFrom(Tail(stream[..written], MAX_SCROLLBACK), counted, from)
  }

  /** How much of the stream a history of that many bytes keeps. */
  function Kept(written: nat): nat {
    if written <= MAX_SCROLLBACK then written else MAX_SCROLLBACK
  }

  /**
   The same in terms of the stream: when more is kept than counted, the subtraction wraps and nothing
   is available; otherwise the numbers run from `counted - Kept(written)` on, while the bytes are
   those that end at `written`.
   */
  function ReplyAcross(stream: seq<Byte>, written: nat, counted: nat, from: nat): Reply
    requires written <= |stream| && counted < WORD && from < WORD
  {
    if counted < Kept(written) then
      var available := counted - Kept(written) + WORD;
      if from < available then Gap(from, available) else BeyondOutput
    else if from < counted - Kept(written) then Gap(from, counted - Kept(written))
    else if from > counted then BeyondOutput
    else Data(from, stream[written - (counted - from)..written])
  }

  /** What a replay request is answered, for a stream of which the ring holds the tail. */
  method ControlReplay(ring: Ring, next: nat, from: nat, ghost stream: seq<Byte>, ghost written: nat)
    returns (reply: Reply)
    requires ring.Valid() && next < WORD && from < WORD
    ensures reply == ReplyFrom(ring.Contents(), next, from)
    ensures ring.Contents() == Tail(stream, MAX_SCROLLBACK) && next == |stream| ==> reply == ExactReply(stream, from)
    ensures written <= |stream| && ring.Contents() == Tail(stream[..written], MAX_SCROLLBACK) ==>
              reply == ReplyAcross(stream, written, next, from)
  {
    hide Tail, Kept, ReplyAcross, ExactReply;
    var data := ring.Snapshot();
    var available := (next - |data|) % WORD;
    if |stream| < WORD { ReplayIsExact(stream, from); }
    if written <= |stream| { ReplyIsAcross(stream, written, next, from); }
    if from < available {
      return Gap(from, available);
    }
    if from > next {
      return BeyondOutput;
    }
    var offset := from - available;
    reply := Data(from, data[offset..]);
  }

  lemma NoWrap(n: nat)
    requires n < WORD
    ensures n % WORD == n
  {
  }

  lemma Wraps(n: int)
    requires -WORD <= n < 0
    ensures n % WORD == n + WORD
  {
  }

  lemma ReplyIsAcross(stream: seq<Byte>, written: nat, counted: nat, from: nat)
    requires written <= |stream| && counted < WORD && from < WORD
    ensures ReplyAt(stream, written, counted, from) == ReplyAcross(stream, written, counted, from)
  {
    var all := stream[..written];
    var history := Tail(all, MAX_SCROLLBACK);
    if counted < Kept(written) {
      Wraps(counted - |history|);
    } else {
      NoWrap(counted - |history|);
      var available := counted - |history|;
      if available <= from <= counted {
        TailSlice(stream, written, from - available);
      }
    }
  }

  lemma TailSlice(stream: seq<Byte>, written: nat, k: nat)
    requires written <= |stream| && k <= Kept(written)
    ensures Tail(stream[..written], MAX_SCROLLBACK)[k..] == stream[written - Kept(written) + k..written]
  {
  }

  /** When both reads see the whole stream, every request gets exactly the reply it should. */
  lemma ReplayIsExact(stream: seq<Byte>, from: nat)
    requires |stream| < WORD && from < WORD
    ensures ReplyFrom(Tail(stream, MAX_SCROLLBACK), |stream|, from) == ExactReply(stream, from)
  {
    assert stream[..|stream|] == stream;
    ReplyIsAcross(stream, |stream|, |stream|, from);
  }

  // ---- When the two reads do not agree ----

  ghost predicate Agrees(stream: seq<Byte>, written: nat, counted: nat, from: nat)
    requires written <= |stream| && counted <= |stream| < WORD && from < WORD
  {
    ReplyAt(stream, written, counted, from) == ExactReply(stream[..counted], from)
  }

  /** The ring held the same bytes when the history was read as when the counter was. */
  predicate SameTail(stream: seq<Byte>, written: nat, counted: nat)
    requires written <= |stream| && counted <= |stream|
  {
    Tail(stream[..written], MAX_SCROLLBACK) == Tail(stream[..counted], MAX_SCROLLBACK)
  }

  lemma SameTailAgrees(stream: seq<Byte>, written: nat, counted: nat, from: nat)
    requires written <= |stream| && counted <= |stream| < WORD && from < WORD
    requires SameTail(stream, written, counted)
    ensures Agrees(stream, written, counted, from)
  {
    ReplayIsExact(stream[..counted], from);
  }

  /** A request for the oldest byte kept shows any difference between the two tails. */
  lemma OldestByteTells(stream: seq<Byte>, written: nat, counted: nat)
    requires written <= |stream| && counted <= |stream| < WORD
    requires Agrees(stream, written, counted, counted - Kept(counted))
    ensures SameTail(stream, written, counted)
  {
    var oldest := counted - Kept(counted);
    ReplyIsAcross(stream, written, counted, oldest);
    assert ExactReply(stream[..counted], oldest) == Data(oldest, stream[..counted][oldest..]);
    TailSlice(stream, written, 0);
    TailSlice(stream, counted, 0);
    assert stream[..counted][oldest..] == stream[oldest..counted];
    assert Kept(written) <= counted && oldest >= counted - Kept(written);
    if Kept(written) == Kept(counted) {
      assert stream[written - Kept(counted)..written] == stream[oldest..counted];
    }
  }

  /** For each stream: every request is answered exactly if and only if the ring did not change between the reads. */
  lemma ExactIffSameTail(stream: seq<Byte>, written: nat, counted: nat)
    requires written <= |stream| && counted <= |stream| < WORD
    ensures (forall from: nat | from < WORD :: Agrees(stream, written, counted, from))
            <==> SameTail(stream, written, counted)
  {
    if SameTail(stream, written, counted) {
      forall from: nat | from < WORD
        ensures Agrees(stream, written, counted, from)
      {
        SameTailAgrees(stream, written, counted, from);
      }
    } else if Agrees(stream, written, counted, counted - Kept(counted)) {
      OldestByteTells(stream, written, counted);
    }
  }

  /** Every stream of n bytes is replayed exactly. */
  ghost predicate AlwaysExact(n: nat, written: nat, counted: nat)
    requires written <= n && counted <= n < WORD
  {
    forall stream, from: nat {:trigger Agrees(stream, written, counted, from)} ::
      |stream| == n && from < WORD ==> Agrees(stream, written, counted, from)
  }

  /** Replay can be relied on exactly when the counter read is the number of bytes in the history read. */
  lemma ExactIffCounterMatches(n: nat, written: nat, counted: nat)
    requires written <= n && counted <= n < WORD
    ensures AlwaysExact(n, written, counted) <==> written == counted
  {
    if written == counted {
      forall stream, from: nat | |stream| == n && from < WORD
        ensures Agrees(stream, written, counted, from)
      {
        SameTailAgrees(stream, written, counted, from);
      }
    } else {
      var least := if written < counted then written else counted;
      var stream: seq<Byte> := seq(n, i => if i < least then 0 else 1);
      TailsDiffer(stream, written, counted);
      ExactIffSameTail(stream, written, counted);
    }
  }

  lemma TailsDiffer(stream: seq<Byte>, written: nat, counted: nat)
    requires written <= |stream| && counted <= |stream| && written != counted
    requires var least := if written < counted then written else counted;
             forall i | 0 <= i < |stream| :: stream[i] == if i < least then 0 else 1
    ensures !SameTail(stream, written, counted)
  {
    TailSlice(stream, written, 0);
    TailSlice(stream, counted, 0);
    var x, y := Tail(stream[..written], MAX_SCROLLBACK), Tail(stream[..counted], MAX_SCROLLBACK);
    if |x| == |y| && |x| > 0 {
      assert x[|x| - 1] == stream[written - 1] && y[|y| - 1] == stream[counted - 1];
    }
  }
}
