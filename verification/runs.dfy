/** Runs of a service: a state, and requests that change it and are answered, one after the other. */
module Runs {
  datatype Service<!S(!new), !Q(!new), !A> = Service(allowed: (S, Q) -> bool, after: (S, Q) -> S, answer: (S, Q) -> A) {
    predicate AllAllowed(s: S, qs: seq<Q>)
      decreases |qs|
    {
      qs == [] || (allowed(s, qs[0]) && AllAllowed(after(s, qs[0]), qs[1..]))
    }

    function Final(s: S, qs: seq<Q>): S
      decreases |qs|
    {
      if qs == [] then s else Final(after(s, qs[0]), qs[1..])
    }

    function Answers(s: S, qs: seq<Q>): (r: seq<A>)
      ensures |r| == |qs|
      decreases |qs|
    {
      if qs == [] then [] else [answer(s, qs[0])] + Answers(after(s, qs[0]), qs[1..])
    }

    /** One turn of a loop that serves the requests in order; `done` are the answers given so far. */
    lemma Turn(s: S, qs: seq<Q>, i: nat, done: seq<A>)
      requires i < |qs|
      ensures AllAllowed(s, qs[i..]) <==> allowed(s, qs[i]) && AllAllowed(after(s, qs[i]), qs[i + 1..])
      ensures done + Answers(s, qs[i..]) == done + [answer(s, qs[i])] + Answers(after(s, qs[i]), qs[i + 1..])
      ensures Final(s, qs[i..]) == Final(after(s, qs[i]), qs[i + 1..])
    {
      assert qs[i..][0] == qs[i] && qs[i..][1..] == qs[i + 1..];
    }
  }
}
