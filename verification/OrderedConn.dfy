// The wrapping connection of internal/httpwire/ordered_conn.go, over an underlying connection that may
// take fewer bytes than offered and may fail at any write.
module OrderedConn {
  import opened Bytes
  import opened ChunkedTracker
  import opened RequestHeader
  import opened RequestStream

  /** What the underlying connection answers to one write: how many bytes it takes, and whether it fails. */
  datatype Reply = Reply(count: nat, fail: bool)

  predicate Healthy(replies: seq<Reply>) {
    forall reply :: reply in replies ==> !reply.fail && reply.count > 0
  }

  /** An arbitrary io.Writer: its future replies are arbitrary, and it takes everything once they run out. */
  class Conn {
    var received: Bytes
    var replies: seq<Reply>

    constructor (replies: seq<Reply>)
      ensures received == [] && this.replies == replies
    {
      this.received, this.replies := [], replies;
    }

    method Write(data: Bytes) returns (n: nat, fail: bool)
      modifies this
      ensures n <= |data| && received == old(received) + data[..n]
      ensures Healthy(old(replies)) ==> Healthy(replies) && !fail && (data != [] ==> n > 0)
    {
      n, fail := |data|, false;
      if replies != [] {
        assert replies[0] in replies;
        n, fail := if replies[0].count < |data| then replies[0].count else |data|, replies[0].fail;
        replies := replies[1..];
      }
      received := received + data[..n];
    }
  }

  /** Writes until everything is taken, the writer fails, or it takes nothing. */
  method WriteAll(writer: Conn, data: Bytes) returns (total: nat, failed: bool)
    modifies writer
    ensures total <= |data| && writer.received == old(writer.received) + data[..total]
    ensures !failed ==> total == |data|
    ensures Healthy(old(writer.replies)) ==> Healthy(writer.replies) && !failed
  {
    total := 0;
    var rest := data;
    while |rest| > 0
      invariant total <= |data| && rest == data[total..]
      invariant writer.received == old(writer.received) + data[..total]
      invariant Healthy(old(writer.replies)) ==> Healthy(writer.replies)
    {
      var written, fail := writer.Write(rest);
      TakeThenTake(data, total, written);
      DropThenDrop(data, total, written);
      total := total + written;
      if fail { return total, true; }
      if written <= 0 { return total, true; }
      rest := rest[written..];
    }
    failed := false;
  }

  datatype WriteError = NoError | ConnFailed | ChunkInvalid | HeaderTooLarge

  /** The first `n` bytes of `p`, and nothing else, have been processed: the state is the one they lead to
      and the connection has received exactly what they forward. */
  ghost predicate Reached(r: Rules, s: State, p: Bytes, n: nat, now: State, before: Bytes, after: Bytes) {
    && WellFormed(s) && n <= |p|
    && var o := Run(r, s, p[..n]);
       o.Forwarded? && o.state == now && after == before + o.out
  }

  /** A reordered header, complete with byte `k` of `p`, was cut short on its way out. */
  ghost predicate HeaderTorn(r: Rules, s: State, p: Bytes, k: nat, m: nat, before: Bytes, after: Bytes) {
    && WellFormed(s) && 0 < k <= |p|
    && var o, o' := Run(r, s, p[..k - 1]), Run(r, s, p[..k]);
       o.Forwarded? && o'.Forwarded? && AwaitingHeader(o.state) && |o.out| <= m <= |o'.out| &&
       after == before + o'.out[..m]
  }

  lemma ReachedThenReached(r: Rules, s: State, p: Bytes, n: nat, mid: State, m: nat, now: State, b: Bytes, c: Bytes,
          d: Bytes)
    requires Reached(r, s, p, n, mid, b, c) && Reached(r, mid, p[n..], m, now, c, d)
    ensures Reached(r, s, p, n + m, now, b, d)
  {
    hide Run, RequestStream.Step;
    TakeThenTake(p, n, m);
    RunConcat(r, s, p[..n], p[n..][..m]);
  }

  class OrderedConn {
    const conn: Conn
    const rules: Rules
    var header: Bytes
    var bodyRemaining: nat
    var chunked: ChunkTracker?

    constructor (conn: Conn, rules: Rules)
      ensures this.conn == conn && this.rules == rules && Value() == IDLE
    {
      this.conn, this.rules := conn, rules;
      header, bodyRemaining, chunked := [], 0, null;
    }

    function Value(): State
      reads this, chunked
    {
      State(header, bodyRemaining, if chunked == null then None else Some(chunked.Value()))
    }

    predicate Valid()
      reads this, chunked
    {
      WellFormed(Value())
    }

    ghost predicate Now(s: State, p: Bytes, n: nat, before: Bytes)
      reads this, chunked, conn
    {
      Reached(rules, s, p, n, Value(), before, conn.received)
    }

    /** The body branch of the loop. */
    method WriteBody(remaining: Bytes) returns (written: nat, failed: bool)
      requires Valid() && bodyRemaining > 0 && remaining != []
      modifies this`bodyRemaining, conn
      ensures Valid() && Now(old(Value()), remaining, written, old(conn.received))
      ensures !failed ==> written > 0
      ensures Healthy(old(conn.replies)) ==> Healthy(conn.replies) && !failed
    {
      var bodyBytes := if |remaining| < bodyRemaining then |remaining| else bodyRemaining;
      written, failed := WriteAll(conn, remaining[..bodyBytes]);
      assert remaining[..bodyBytes][..written] == remaining[..written];
      RunBody(rules, Value(), remaining[..written]);
      bodyRemaining := bodyRemaining - written;
    }

    /** The chunked branch: preview on a clone, write, then commit what was written. */
    method WriteChunked(remaining: Bytes) returns (written: nat, err: WriteError)
      requires Valid() && chunked != null && remaining != []
      modifies this`chunked, conn, chunked
      ensures chunked == null || chunked == old(chunked)
      ensures Valid() && Now(old(Value()), remaining, written, old(conn.received))
      ensures err.NoError? ==> written > 0
      ensures err.ChunkInvalid? ==> written == 0 && Run(rules, old(Value()), remaining).Refused?
      ensures !err.HeaderTooLarge?
      ensures Healthy(old(conn.replies)) ==> Healthy(conn.replies) && !err.ConnFailed?
    {
      ghost var t, s := chunked.Value(), Value();
      var preview := chunked.Clone();
      var chunkBytes, verdict := preview.Consume(remaining);
      if verdict.Malformed? {
        RunChunked(rules, s, remaining);
        assert remaining[..0] == [];
        return 0, ChunkInvalid;
      }
      var failed;
      written, failed := WriteAll(conn, remaining[..chunkBytes]);
      assert remaining[..chunkBytes][..written] == remaining[..written];
      ScanPositive(t, remaining, written);
      RunChunked(rules, s, remaining[..written]);
      var _, committed := chunked.Consume(remaining[..written]);
      if committed.Finished? { chunked := null; }
      return written, if failed then ConnFailed else NoError;
    }

    /** The header branch. `held` says that the header is still incomplete. */
    method TakeHeader(remaining: Bytes) returns (taken: nat, held: bool, err: WriteError, ghost sent: nat)
      requires Valid() && bodyRemaining == 0 && chunked == null && remaining != []
      modifies this, conn
      ensures chunked == null || fresh(chunked)
      ensures Valid() && taken <= |remaining|
      ensures held ==>
                (err.NoError? || err.HeaderTooLarge?) && Now(old(Value()), remaining, |remaining|, old(conn.received))
      ensures held ==> (err.HeaderTooLarge? <==> |header| > MAX_BUFFERED)
      ensures held ==> taken == 0 && header == old(header) + remaining
      ensures !held ==> taken > 0 && header == [] && (err.NoError? || err.ConnFailed?)
      ensures !held && err.NoError? ==> Now(old(Value()), remaining, taken, old(conn.received))
      ensures !held && err.ConnFailed? ==> Value() == IDLE &&
                                           HeaderTorn(rules, old(Value()), remaining, taken, sent, old(conn.received),
                                             conn.received)
      ensures Healthy(old(conn.replies)) ==> Healthy(conn.replies) && !err.ConnFailed?
    {
      hide Run, Reordered, Lines;
      ghost var s := Value();
      sent := 0;
      var previousHeaderLength := |header|;
      header := header + remaining;
      var headerEnd := Index(header, BLANK_LINE);
      if headerEnd < 0 {
        RunHeaderPart(rules, s, remaining);
        assert remaining[..|remaining|] == remaining;
        return 0, true, if |header| > MAX_BUFFERED then HeaderTooLarge else NoError, 0;
      }
      HeaderSpan(s.header, remaining, headerEnd);
      var complete := header[..headerEnd + 4];
      taken := headerEnd + 4 - previousHeaderLength;
      header := [];
      RunHeaderEnd(rules, s, remaining[..taken]);
      var ordered, contentLength, usesChunked := OrderRequestHeader(rules, complete);
      var failed;
      sent, failed := WriteAll(conn, ordered);
      if failed {
        TornHere(rules, s, remaining, taken, sent, old(conn.received));
        return taken, false, ConnFailed, sent;
      }
      assert ordered[..sent] == ordered;
      if usesChunked {
        chunked := new ChunkTracker();
      } else {
        bodyRemaining := contentLength;
      }
      return taken, false, NoError, sent;
    }

    /** One turn of the loop: the branch the fields select. */
    method ForwardSome(remaining: Bytes) returns (n: nat, held: bool, torn: bool, err: WriteError, ghost sent: nat)
      requires Valid() && remaining != []
      modifies this, conn, chunked
      ensures chunked == null || chunked == old(chunked) || fresh(chunked)
      ensures Valid() && n <= |remaining|
      ensures held ==>
                (err.NoError? || err.HeaderTooLarge?) && Now(old(Value()), remaining, |remaining|, old(conn.received))
      ensures held ==> (err.HeaderTooLarge? <==> |header| > MAX_BUFFERED)
      ensures held ==> n == 0 && header == old(header) + remaining
      ensures !held && !torn ==> Now(old(Value()), remaining, n, old(conn.received))
      ensures !held && err.NoError? ==> n > 0 && header == []
      ensures err.ChunkInvalid? ==> Run(rules, old(Value()), remaining).Refused?
      ensures torn ==> !held && err.ConnFailed? && Value() == IDLE &&
                       HeaderTorn(rules, old(Value()), remaining, n, sent, old(conn.received), conn.received)
      ensures err.HeaderTooLarge? ==> held
      ensures Healthy(old(conn.replies)) ==> Healthy(conn.replies) && !err.ConnFailed?
    {
      hide Run, Healthy, HeaderTorn;
      held, torn, err, sent := false, false, NoError, 0;
      if bodyRemaining > 0 {
        var failed;
        n, failed := WriteBody(remaining);
        if failed { err := ConnFailed; }
      } else if chunked != null {
        n, err := WriteChunked(remaining);
      } else {
        n, held, err, sent := TakeHeader(remaining);
        torn := err.ConnFailed?;
      }
    }

    /** Forwards what `p` completes. Whatever happens, the result says how the fields and the forwarded
        bytes relate to the bytes of `p`: */
    method Write(p: Bytes) returns (n: nat, err: WriteError)
      requires Valid()
      modifies this, conn, chunked
      ensures chunked == null || chunked == old(chunked) || fresh(chunked)
      ensures Valid() && n <= |p|
      // success: all of it has been processed
      ensures err.NoError? ==> n == |p| && Now(old(Value()), p, n, old(conn.received))
      ensures err.NoError? ==> WriteOnce(rules, old(Value()), p).Accepted?
      // a malformed chunked body: everything before the malformed section has been processed
      ensures err.ChunkInvalid? ==> Now(old(Value()), p, n, old(conn.received))
      ensures err.ChunkInvalid? ==> WriteOnce(rules, old(Value()), p) == BodyMalformed
      // an over-long header: all of it has been taken in, but the count leaves out the held-back bytes
      ensures err.HeaderTooLarge? ==> Now(old(Value()), p, |p|, old(conn.received)) && EndsWith(header, p[n..])
      ensures err.HeaderTooLarge? ==> WriteOnce(rules, old(Value()), p) == HeaderTooLong
      // a failing connection: the count is exact, unless a rewritten header was cut short
      ensures err.ConnFailed? ==>
                || Now(old(Value()), p, n, old(conn.received))
                || (n == |p| && Value() == IDLE &&
                    exists k, m :: HeaderTorn(rules, old(Value()), p, k, m, old(conn.received), conn.received))
      ensures Healthy(old(conn.replies)) ==> Healthy(conn.replies) && !err.ConnFailed?
    {
      hide Run, Healthy, HeaderTorn, WriteOnce, Reached, EndsWith, WellFormed;
      ghost var s, before := Value(), conn.received;
      n := 0;
      var remaining := p;
      NothingReached(rules, s, p, before);
      while |remaining| > 0
        invariant chunked == null || chunked == old(chunked) || fresh(chunked)
        invariant n <= |p| && remaining == p[n..]
        invariant Valid() && Now(s, p, n, before)
        invariant n > 0 ==> header == []
        invariant Healthy(old(conn.replies)) ==> Healthy(conn.replies)
      {
        ghost var mid, sofar := Value(), conn.received;
        var done, held, torn, failure, sent := ForwardSome(remaining);
        if torn {
          TornLater(rules, s, p, n, mid, done, sent, before, sofar, conn.received);
          return |p|, ConnFailed;
        }
        if held {
          ReachedThenReached(rules, s, p, n, mid, |remaining|, Value(), before, sofar, conn.received);
          WholeWrite(rules, s, p, Value(), before, conn.received);
          if failure.HeaderTooLarge? {
            HeldBack(mid.header, remaining);
            return n, failure;
          }
          return |p|, NoError;
        }
        ReachedThenReached(rules, s, p, n, mid, done, Value(), before, sofar, conn.received);
        if failure.ChunkInvalid? { RefusedLater(rules, s, p, n, mid, before, sofar); }
        DropThenDrop(p, n, done);
        n := n + done;
        if !failure.NoError? { return n, failure; }
        remaining := remaining[done..];
      }
      WholeWrite(rules, s, p, Value(), before, conn.received);
      return |p|, NoError;
    }
  }

  lemma NothingReached(r: Rules, s: State, p: Bytes, before: Bytes)
    requires WellFormed(s)
    ensures Reached(r, s, p, 0, s, before, before)
  {
    assert p[..0] == [];
  }

  lemma HeldBack(buffered: Bytes, p: Bytes)
    ensures EndsWith(buffered + p, p)
  {
    assert (buffered + p)[|buffered|..] == p;
  }

  lemma WholeWrite(r: Rules, s: State, p: Bytes, now: State, before: Bytes, after: Bytes)
    requires Reached(r, s, p, |p|, now, before, after)
    ensures Run(r, s, p).Forwarded?
    ensures WriteOnce(r, s, p) ==
            if p != [] && |now.header| > MAX_BUFFERED then HeaderTooLong else Accepted(now, Run(r, s, p).out)
  {
    assert p[..|p|] == p;
  }

  lemma RefusedLater(r: Rules, s: State, p: Bytes, n: nat, mid: State, before: Bytes, after: Bytes)
    requires Reached(r, s, p, n, mid, before, after) && WellFormed(mid) && Run(r, mid, p[n..]).Refused?
    ensures WriteOnce(r, s, p) == BodyMalformed
  {
    hide Run, RequestStream.Step;
    TakeDrop(p, n);
    RunConcat(r, s, p[..n], p[n..]);
  }

  lemma TornHere(r: Rules, s: State, p: Bytes, k: nat, m: nat, before: Bytes)
    requires WellFormed(s) && AwaitingHeader(s) && 0 < k <= |p| && IsHeader(s.header + p[..k])
    requires Index(s.header + p[..k - 1], BLANK_LINE) == -1 && m <= |Reordered(r, s.header + p[..k])|
    ensures HeaderTorn(r, s, p, k, m, before, before + Reordered(r, s.header + p[..k])[..m])
  {
    RunHeaderPart(r, s, p[..k - 1]);
    RunHeaderEnd(r, s, p[..k]);
  }

  lemma TornLater(r: Rules, s: State, p: Bytes, n: nat, mid: State, k: nat, m: nat, b: Bytes, c: Bytes, d: Bytes)
    requires Reached(r, s, p, n, mid, b, c) && HeaderTorn(r, mid, p[n..], k, m, c, d)
    ensures exists k', m' :: HeaderTorn(r, s, p, k', m', b, d)
  {
    hide Run, RequestStream.Step;
    TakeThenTake(p, n, k - 1);
    TakeThenTake(p, n, k);
    RunConcat(r, s, p[..n], p[n..][..k - 1]);
    RunConcat(r, s, p[..n], p[n..][..k]);
    var first, whole := Run(r, s, p[..n]).out, Run(r, mid, p[n..][..k]).out;
    assert (first + whole)[..|first| + m] == first + whole[..m];
    assert HeaderTorn(r, s, p, n + k, |first| + m, b, d);
  }

  /** After a write that stopped inside a body, offering the rest sends exactly what was missing. */
  lemma PartialWriteResume(r: Rules, s: State, p: Bytes, n: nat, now: State, before: Bytes, after: Bytes)
    requires Reached(r, s, p, n, now, before, after) && Run(r, s, p).Forwarded?
    ensures var whole, rest := Run(r, s, p), Run(r, now, p[n..]);
            rest.Forwarded? && rest.state == whole.state && after + rest.out == before + whole.out
  {
    hide Run, RequestStream.Step;
    TakeDrop(p, n);
    RunConcat(r, s, p[..n], p[n..]);
  }

  /** Where the first blank line of the buffered header and new bytes falls. */
  lemma HeaderSpan(buffered: Bytes, p: Bytes, headerEnd: nat)
    requires Index(buffered, BLANK_LINE) == -1 && Index(buffered + p, BLANK_LINE) == headerEnd
    ensures var n := headerEnd + 4 - |buffered|;
            && 0 < n <= |p|
            && (buffered + p)[..headerEnd + 4] == buffered + p[..n]
            && IsHeader(buffered + p[..n]) && Index(buffered + p[..n - 1], BLANK_LINE) == -1
  {
    var all := buffered + p;
    EndsInNewBytes(buffered, p, headerEnd);
    var n := headerEnd + 4 - |buffered|;
    var init, last := buffered + p[..n - 1], p[n - 1];
    var complete := buffered + p[..n];
    assert complete == all[..headerEnd + 4];
    CompleteHeader(all, headerEnd);
    assert init + [last] == complete;
    NotYetHeader(init, last);
  }

  lemma EndsInNewBytes(buffered: Bytes, p: Bytes, headerEnd: nat)
    requires Index(buffered, BLANK_LINE) == -1 && At(buffered + p, BLANK_LINE, headerEnd)
    ensures headerEnd + 4 > |buffered|
  {
    hide At, Index;
    AtAppend(buffered, p, BLANK_LINE, headerEnd);
  }

  lemma CompleteHeader(all: Bytes, headerEnd: nat)
    requires Index(all, BLANK_LINE) == headerEnd
    ensures headerEnd + 4 <= |all| && IsHeader(all[..headerEnd + 4])
  {
    AtInside(all, BLANK_LINE);
    hide At, Index, IsHeader;
    var complete := all[..headerEnd + 4];
    TakeDrop(all, headerEnd + 4);
    forall j | 0 <= j <= headerEnd ensures At(complete, BLANK_LINE, j) == At(all, BLANK_LINE, j) {
      AtAppend(complete, all[headerEnd + 4..], BLANK_LINE, j);
    }
    HeaderFromBlank(complete);
  }
}
