/** The event-driven benchmark of utils/bench-simulator.cc, over an abstract event queue: whatever is pending may be
    next. */
module Bench {

  class Simulator {
    var pending: seq<int>

    constructor ()
      ensures pending == []
    {
      pending := [];
    }

    method Schedule(at: int)
      modifies this
      ensures pending == old(pending) + [at]
    {
      pending := pending + [at];
    }

    method TakeNext() returns (at: int)
      requires pending != []
      modifies this
      ensures multiset(old(pending)) == multiset(pending) + multiset{at}
      ensures |pending| == |old(pending)| - 1
    {
      var i :| 0 <= i < |pending|;
      at := pending[i];
      assert pending == pending[..i] + [at] + pending[i+1..];
      pending := pending[..i] + pending[i+1..];
    }
  }

  class Benchmark {
    var population: nat
    var total: nat
    var count: nat

    constructor (population: nat, total: nat)
      ensures this.population == population && this.total == total && count == 0
    {
      this.population, this.total, count := population, total, 0;
    }

    /** The callback: as long as the total has not been reached it schedules itself again and is counted. */
    method Callback(sim: Simulator, delay: int)
      modifies this, sim
      ensures population == old(population) && total == old(total)
      ensures if old(count) >= total
        then count == old(count) && sim.pending == old(sim.pending)
        else count == old(count) + 1 && sim.pending == old(sim.pending) + [delay]
    {
      if count >= total {
        return;
      }
      sim.Schedule(delay);
      count := count + 1;
    }

    /** Fills an empty queue, runs it dry, and says how many callbacks were executed. At every step the executed and
        the pending ones together are the population and the count. */
    method RunBench(sim: Simulator, values: nat -> int) returns (executed: nat)
      requires sim.pending == []
      modifies this, sim
      ensures population == old(population) && total == old(total) && sim.pending == []
      ensures population > 0 ==> count == total && executed == population + total
      ensures population == 0 ==> count == 0 && executed == 0
    {
      count := 0;
      executed := 0;
      for i := 0 to population
        invariant population == old(population) && total == old(total) && count == 0
        invariant |sim.pending| == i
      {
        sim.Schedule(values(i));
      }
      while sim.pending != []
        invariant population == old(population) && total == old(total)
        invariant executed + |sim.pending| == population + count
        invariant count <= total && (count < total ==> population == 0 || |sim.pending| == population)
        invariant population == 0 ==> count == 0 && sim.pending == []
        decreases total - count, |sim.pending|
      {
        var _ := sim.TakeNext();
        executed := executed + 1;
        Callback(sim, values(population + count));
      }
    }
  }
}
