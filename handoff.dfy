/** The ten-slot ring through which the accepting thread hands client sockets
    to the workers (`clients`, `in`, `out`). The `empty` and `work`
    semaphores become the pending count and the preconditions on it. */
module Handoff {

  /** The number of slots of `clients`. */
  const Slots: nat := 10

  /** The handles a ring holds: `n` slots read from `out` onwards, wrapping. */
  function RingView(slots: seq<int>, out: nat, n: nat): (q: seq<int>)
    requires |slots| == Slots && out < Slots && n <= Slots
    ensures |q| == n
    ensures forall k :: 0 <= k < n ==> q[k] == slots[(out + k) % Slots]
  {
    seq(n, k requires 0 <= k < n => slots[(out + k) % Slots])
  }

  /** Distinct offsets below the ring size name distinct slots. */
  lemma SlotsDistinct(out: nat, j: nat, k: nat)
    requires out < Slots && j < k < Slots
    ensures (out + j) % Slots != (out + k) % Slots
  {
    assert out + j < 2 * Slots && out + k < 2 * Slots;
  }

  /** Filling the slot after the last pending one appends its handle and
      leaves the pending ones in place. */
  lemma RingPush(slots: seq<int>, out: nat, n: nat, fd: int)
    requires |slots| == Slots && out < Slots && n < Slots
    ensures RingView(slots[(out + n) % Slots := fd], out, n + 1) == RingView(slots, out, n) + [fd]
  {
    var after := slots[(out + n) % Slots := fd];
    forall k | 0 <= k < n ensures RingView(after, out, n + 1)[k] == RingView(slots, out, n)[k] {
      SlotsDistinct(out, k, n);
    }
    assert RingView(after, out, n + 1)[n] == fd;
  }

  /** Advancing `out` past the first pending slot drops exactly that handle. */
  lemma RingPop(slots: seq<int>, out: nat, n: nat)
    requires |slots| == Slots && out < Slots && 0 < n <= Slots
    ensures RingView(slots, out, n)[0] == slots[out]
    ensures RingView(slots, (out + 1) % Slots, n - 1) == RingView(slots, out, n)[1..]
  {
    var q := RingView(slots, out, n);
    var r := RingView(slots, (out + 1) % Slots, n - 1);
    forall k | 0 <= k < n - 1 ensures r[k] == q[k + 1] {
      assert ((out + 1) % Slots + k) % Slots == (out + (k + 1)) % Slots;
    }
  }

  class Ring {
    /** `clients[10]`. */
    const clients: array<int>
    /** Where `accept_client` stores the next handle (`in`). */
    var inIndex: nat
    /** Where the next worker takes a handle from (`out`). */
    var outIndex: nat
    /** Handles stored and not yet taken: the value of `work`, and
      `Slots - pending` the value of `empty`. */
    var pending: nat

    /** Both indices stay within the ring, the pending count within its
        capacity, and `in` runs `pending` slots ahead of `out`. */
    predicate Valid()
      reads this
    {
      clients.Length == Slots && inIndex < Slots && outIndex < Slots && pending <= Slots &&
      inIndex == (outIndex + pending) % Slots
    }

    /** The handles waiting for a worker, oldest first. */
    function Queued(): seq<int>
      requires Valid()
      reads this, clients
    {
      RingView(clients[..], outIndex, pending)
    }

    /** The ring at start-up: both indices 0, nothing pending. */
    constructor ()
      ensures Valid() && fresh(clients)
      ensures inIndex == 0 && outIndex == 0 && Queued() == []
    {
      clients := new int[Slots];
      inIndex := 0;
      outIndex := 0;
      pending := 0;
    }

    /** The hand-off in `accept_client`: wait for a free slot (`empty`),
        store the handle at `in`, advance `in`, announce the work (`work`). */
    method Enqueue(fd: int)
      requires Valid() && pending < Slots
      modifies this, clients
      ensures Valid()
      ensures Queued() == old(Queued()) + [fd]
      ensures inIndex == (old(inIndex) + 1) % Slots && outIndex == old(outIndex)
    {
      ghost var before := clients[..];
      RingPush(before, outIndex, pending, fd);
      clients[inIndex] := fd;
      assert clients[..] == before[(outIndex + pending) % Slots := fd];
      inIndex := (inIndex + 1) % Slots;
      pending := pending + 1;
    }

    /** The take-over at the top of the worker loop: wait for work, read the
        handle at `out`, advance `out`, free the slot. */
    method Dequeue() returns (fd: int)
      requires Valid() && pending > 0
      modifies this
      ensures Valid()
      ensures fd == old(Queued())[0] && Queued() == old(Queued())[1..]
      ensures outIndex == (old(outIndex) + 1) % Slots && inIndex == old(inIndex)
    {
      RingPop(clients[..], outIndex, pending);
      fd := clients[outIndex];
      outIndex := (outIndex + 1) % Slots;
      pending := pending - 1;
    }
  }

  /** The ring is first in, first out: handles stored one after another into
      an empty ring are taken back in the same order. */
  method HandOffInOrder(a: int, b: int) returns (first: int, second: int)
    ensures first == a && second == b
  {
    var ring := new Ring();
    ring.Enqueue(a);
    ring.Enqueue(b);
    first := ring.Dequeue();
    second := ring.Dequeue();
  }
}
