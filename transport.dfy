/** A client connection as the handlers use it: the send primitive, the
    retry loop that completes a partial send, and the buffer-sized pieces a
    file body is streamed in. */
module Transport {
  import opened CText
  import opened Wire

  class Socket {
    /** The descriptor the ring hands over. */
    const fd: int
    /** Everything the server has sent on this connection, in order. */
    var wire: seq<char>
    /** How many sends have been made so far. */
    var calls: nat
    var open: bool
    /** How many bytes the send numbered `i` accepts when `n` are offered
        (more than `n` is read as `n`): the peer and the kernel, which the
        model does not see. */
    const grant: (nat, nat) -> nat

    constructor (fd: int, grant: (nat, nat) -> nat)
      ensures this.fd == fd && this.grant == grant
      ensures wire == [] && calls == 0 && open
    {
      this.fd := fd;
      this.grant := grant;
      wire := [];
      calls := 0;
      open := true;
    }

    /** Every send of a non-empty piece moves at least one byte. */
    ghost predicate Progressing()
    {
      forall i: nat, n: nat :: 0 < n ==> 0 < grant(i, n)
    }

    /** `send_fully(sockfd, buf + from, n, 0)`: sends some prefix of the `n`
        bytes at `from` and returns its length. */
    method Send(buf: seq<char>, from: nat, n: nat) returns (k: nat)
      requires from + n <= |buf|
      modifies this
      ensures k <= n && k == Min(grant(old(calls), n), n)
      ensures wire == old(wire) + buf[from..from + k]
      ensures calls == old(calls) + 1 && open == old(open)
    {
      k := Min(grant(calls, n), n);
      wire := wire + buf[from..from + k];
      calls := calls + 1;
    }

    /** The retry loop `while(sent != size) sent += send_fully(sockfd, buf + sent,
        size - sent, 0)`: on a progressing connection it ends with every byte
        from `sent` onwards delivered, in order. */
    method SendRest(buf: seq<char>, sent: nat) returns (total: nat)
      requires sent <= |buf| && Progressing()
      modifies this
      ensures total == |buf|
      ensures wire == old(wire) + buf[sent..]
      ensures open == old(open)
    {
      total := sent;
      while total != |buf|
        invariant sent <= total <= |buf|
        invariant wire == old(wire) + buf[sent..total]
        invariant open == old(open)
        decreases |buf| - total
      {
        var k := Send(buf, total, |buf| - total);
        assert buf[sent..total] + buf[total..total + k] == buf[sent..total + k];
        total := total + k;
      }
      assert buf[sent..total] == buf[sent..];
    }

    /** One `send_fully` of a whole buffer followed by the retry loop: on a
        progressing connection every byte of `buf` is delivered, in order. */
    method SendAll(buf: seq<char>) returns (sent: nat)
      requires Progressing()
      modifies this
      ensures sent == |buf|
      ensures wire == old(wire) + buf
      ensures open == old(open)
    {
      sent := Send(buf, 0, |buf|);
      sent := SendRest(buf, sent);
      assert buf[0..|buf| - (|buf| - sent)] + buf[|buf| - (|buf| - sent)..] == buf;
    }

    /** `close(sockfd)`. */
    method Close()
      modifies this
      ensures !open && wire == old(wire) && calls == old(calls)
    {
      open := false;
    }
  }

  // ---------------------------------------------------------------------------
  // The file body in buffer-sized reads

  /** The sizes `read(fd, body, 1024)` returns, one after another, while
      `remaining` bytes of a regular file are left. */
  function Chunks(remaining: nat): seq<nat>
    decreases remaining
  {
    if remaining == 0 then [] else
      var c := Min(BufferSize, remaining);
      [c] + Chunks(remaining - c)
  }

  /** One more read while `remaining - done` bytes are left takes the next piece. */
  lemma ChunksStep(remaining: nat, done: seq<nat>, sent: nat)
    requires sent < remaining && Chunks(remaining) == done + Chunks(remaining - sent)
    ensures Chunks(remaining) ==
            (done + [Min(BufferSize, remaining - sent)]) + Chunks(remaining - sent - Min(BufferSize, remaining - sent))
  {
  }

  function Sum(cs: seq<nat>): nat
  {
    if cs == [] then 0 else Sum(cs[..|cs| - 1]) + cs[|cs| - 1]
  }

  lemma {:induction false} SumCons(c: nat, cs: seq<nat>)
    ensures Sum([c] + cs) == c + Sum(cs)
  {
    if cs != [] {
      var init := cs[..|cs| - 1];
      assert ([c] + cs)[..|cs|] == [c] + init;
      SumCons(c, init);
    }
  }

  /** A file of `n` bytes goes out in pieces of at most 1024 bytes, none
      empty, every one full but the last, that add up to `n`; there are
      ceiling(n / 1024) of them. */
  lemma {:induction false} ChunksCover(n: nat)
    ensures Sum(Chunks(n)) == n
    ensures forall i :: 0 <= i < |Chunks(n)| ==> 0 < Chunks(n)[i] <= BufferSize
    ensures forall i :: 0 <= i < |Chunks(n)| - 1 ==> Chunks(n)[i] == BufferSize
    ensures |Chunks(n)| == (n + BufferSize - 1) / BufferSize
    decreases n
  {
    if n > 0 {
      var c := Min(BufferSize, n);
      ChunksCover(n - c);
      SumCons(c, Chunks(n - c));
      var cs := Chunks(n);
      assert cs == [c] + Chunks(n - c);
      forall i | 0 <= i < |cs| ensures 0 < cs[i] <= BufferSize {
        if i > 0 { assert cs[i] == Chunks(n - c)[i - 1]; }
      }
      forall i | 0 <= i < |cs| - 1 ensures cs[i] == BufferSize {
        if i > 0 { assert cs[i] == Chunks(n - c)[i - 1]; }
      }
    }
  }
}
