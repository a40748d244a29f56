/** `SequentialNumberProvider`: a map of namespaced counters. */
module SequentialNumbers {

  /** `self.numbers`: the last number handed out in each namespace. */
  type Counters = map<string, nat>

  /** The namespace both operations use when the caller names none. */
  const DefaultNamespace: string := "default"

  /** `sequential_number(namespace)`: the updated counters and the number returned. */
  function Next(c: Counters, ns: string): (r: (Counters, nat))
    ensures r.1 >= 1
    ensures ns in c ==> r.1 == c[ns] + 1
    ensures ns !in c ==> r.1 == 1
    ensures r.0.Keys == c.Keys + {ns} && r.0[ns] == r.1
    ensures forall other :: other in c && other != ns ==> r.0[other] == c[other]
  {
    var start := if ns in c then c[ns] else 0;
    (c[ns := start + 1], start + 1)
  }

  /** `reset_sequence(namespace)`. */
  function Reset(c: Counters, ns: string): (r: Counters)
    ensures ns !in r
    ensures r.Keys == c.Keys - {ns}
    ensures forall other :: other in r ==> r[other] == c[other]
    ensures ns !in c ==> r == c
  {
    if ns in c then c - {ns} else c
  }

  /** `k` consecutive calls in one namespace; the result is the last number returned
      (0 when `k` is 0) and the final counters. */
  function Calls(c: Counters, ns: string, k: nat): (Counters, nat)
    decreases k
  {
    if k == 0 then (c, if ns in c then c[ns] else 0)
    else
      var (c1, _) := Next(c, ns);
      Calls(c1, ns, k - 1)
  }

  /** After `k` calls the namespace has advanced by exactly `k`, and no other
      namespace has moved. */
  lemma {:induction false} CallsAdvance(c: Counters, ns: string, k: nat)
    ensures Calls(c, ns, k).1 == (if ns in c then c[ns] else 0) + k
    ensures forall other :: other != ns ==>
      (other in Calls(c, ns, k).0 <==> other in c)
    ensures forall other :: other in c && other != ns ==> Calls(c, ns, k).0[other] == c[other]
    decreases k
  {
    if k > 0 {
      var (c1, _) := Next(c, ns);
      CallsAdvance(c1, ns, k - 1);
    }
  }

  /** A fresh namespace counts 1, 2, 3, ...; the next call after any call returns
      one more than it. */
  lemma NextAfterNext(c: Counters, ns: string)
    ensures Next(Next(c, ns).0, ns).1 == Next(c, ns).1 + 1
    ensures ns !in c ==> Next(c, ns).1 == 1
  {
  }

  /** Resetting a namespace restarts it at 1 and leaves the others untouched. */
  lemma ResetRestarts(c: Counters, ns: string, other: string)
    ensures Next(Reset(c, ns), ns).1 == 1
    ensures other != ns && other in c ==> Next(Reset(c, ns), other).1 == c[other] + 1
  {
  }

  /** The provider tests: "test" runs 1, 2, 3, then "other" starts at 1 while
      "test" continues at 4; a reset of "test" restarts it at 1. */
  lemma ProviderExamples()
    ensures var (c1, a) := Next(map[], "test");
            var (c2, b) := Next(c1, "test");
            var (c3, d) := Next(c2, "test");
            var (c4, o1) := Next(c3, "other");
            var (c5, t4) := Next(c4, "test");
            var (c6, o2) := Next(c5, "other");
            a == 1 && b == 2 && d == 3 && o1 == 1 && t4 == 4 && o2 == 2
            && Next(Reset(c5, "test"), "test").1 == 1
  {
  }
}
