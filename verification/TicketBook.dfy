/** One side of a ticket protocol: tickets are numbered in the order they are taken,
    `holders` names the thread that took each one, and `held` maps a thread to the ticket
    it has taken and not committed. */
module TicketBook {
  type Tid = nat

  /** The outstanding tickets are exactly [committed, reserved), one thread each. */
  ghost predicate Book(committed: nat, reserved: nat, holders: seq<Tid>, held: map<Tid, nat>) {
    && committed <= reserved == |holders|
    && (forall n :: committed <= n < reserved ==> holders[n] in held && held[holders[n]] == n)
    && (forall t <- held :: committed <= held[t] < reserved && holders[held[t]] == t)
  }

  lemma Take(committed: nat, reserved: nat, holders: seq<Tid>, held: map<Tid, nat>, t: Tid)
    requires Book(committed, reserved, holders, held) && t !in held
    ensures Book(committed, reserved + 1, holders + [t], held[t := reserved])
  {
  }

  lemma Commit(committed: nat, reserved: nat, holders: seq<Tid>, held: map<Tid, nat>, t: Tid)
    requires Book(committed, reserved, holders, held) && t in held && held[t] == committed
    ensures Book(committed + 1, reserved, holders, held - {t})
    ensures forall u <- held :: u != t ==> held[u] > committed
  {
  }
}
