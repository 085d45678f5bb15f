/** The five statistics counters and how each completed response or error
    moves them. */
module Accounting {

  /** The counters `reqs`, `head_bytes`, `body_bytes`, `errs` and `err_bytes`. */
  datatype Counts = Counts(reqs: nat, headBytes: nat, bodyBytes: nat, errs: nat, errBytes: nat)

  /** The counters at start-up: all zero. */
  const Zero: Counts := Counts(0, 0, 0, 0, 0)

  /** What one handled request leaves in the counters: a success response with
      its head and body sizes, or an error literal of some length. */
  datatype Outcome = Responded(head: nat, body: nat) | Rejected(bytes: nat)

  /** The counter update of one outcome (the critical sections of
      `send_response`, `send_error` and the file handler, taken together). */
  function Account(s: Counts, o: Outcome): Counts
  {
    match o
    case Responded(h, b) => s.(reqs := s.reqs + 1, headBytes := s.headBytes + h, bodyBytes := s.bodyBytes + b)
    case Rejected(n) => s.(errs := s.errs + 1, errBytes := s.errBytes + n)
  }

  /** The counters after a history of outcomes, applied oldest first. */
  function Replay(s: Counts, t: seq<Outcome>): Counts
  {
    if t == [] then s else Account(Replay(s, t[..|t| - 1]), t[|t| - 1])
  }

  /** No counter is ever lower in `b` than in `a`. */
  predicate Grows(a: Counts, b: Counts)
  {
    a.reqs <= b.reqs && a.headBytes <= b.headBytes && a.bodyBytes <= b.bodyBytes &&
    a.errs <= b.errs && a.errBytes <= b.errBytes
  }

  /** What one outcome contributes to the counters on its own. */
  function Weight(o: Outcome): Counts
  {
    match o
    case Responded(h, b) => Counts(1, h, b, 0, 0)
    case Rejected(n) => Counts(0, 0, 0, 1, n)
  }

  function Plus(a: Counts, b: Counts): Counts
  {
    Counts(a.reqs + b.reqs, a.headBytes + b.headBytes, a.bodyBytes + b.bodyBytes,
           a.errs + b.errs, a.errBytes + b.errBytes)
  }

  /** Reference totals of a history: the contributions of its outcomes
      added up, counted from the oldest. `reqs` is the number of responses,
      `errs` the number of errors. */
  function Totals(t: seq<Outcome>): Counts
  {
    if t == [] then Zero else Plus(Weight(t[0]), Totals(t[1..]))
  }

  lemma {:induction false} TotalsAppend(t: seq<Outcome>, o: Outcome)
    ensures Totals(t + [o]) == Plus(Totals(t), Weight(o))
  {
    if t == [] {
      assert [o][1..] == [];
    } else {
      assert (t + [o])[1..] == t[1..] + [o];
      TotalsAppend(t[1..], o);
    }
  }

  /** Counters that started at zero report the history: `reqs` is the number
      of success responses, `errs` the number of errors, and the byte counters
      the bytes of those responses and errors. */
  lemma {:induction false} ReplayIsTotals(t: seq<Outcome>)
    ensures Replay(Zero, t) == Totals(t)
  {
    if t != [] {
      var init := t[..|t| - 1];
      ReplayIsTotals(init);
      TotalsAppend(init, t[|t| - 1]);
      assert Account(Totals(init), t[|t| - 1]) == Plus(Totals(init), Weight(t[|t| - 1]));
      assert init + [t[|t| - 1]] == t;
    }
  }

  /** Appending an outcome to the history is accounting for it. */
  lemma ReplaySnoc(s: Counts, t: seq<Outcome>, o: Outcome)
    ensures Replay(s, t + [o]) == Account(Replay(s, t), o)
  {
    assert (t + [o])[..|t|] == t;
  }

  /** Counters never decrease over any history. */
  lemma {:induction false} ReplayGrows(s: Counts, t: seq<Outcome>)
    ensures Grows(s, Replay(s, t))
  {
    if t != [] {
      ReplayGrows(s, t[..|t| - 1]);
    }
  }

  /** A history that extends another leaves every counter at least as high. */
  lemma HistoryGrows(before: seq<Outcome>, after: seq<Outcome>)
    requires before <= after
    ensures Grows(Replay(Zero, before), Replay(Zero, after))
  {
    var rest := after[|before|..];
    assert before + rest == after;
    ReplayConcat(Zero, before, rest);
    ReplayGrows(Replay(Zero, before), rest);
  }

  /** Replaying two histories one after the other is replaying their concatenation. */
  lemma {:induction false} ReplayConcat(s: Counts, t: seq<Outcome>, u: seq<Outcome>)
    ensures Replay(s, t + u) == Replay(Replay(s, t), u)
  {
    if u == [] {
      assert t + u == t;
    } else {
      var init := u[..|u| - 1];
      ReplayConcat(s, t, init);
      assert (t + u)[..|t + u| - 1] == t + init;
    }
  }
}
