/** The io chain as it is compiled without OpenMP: plain slots, no locks. */
module ChainSerial {
  import IoChain

  const IOC_SIZE := IoChain.IOC_SIZE

  type Ptr = IoChain.Ptr

  /** ioc_chain. Pointers are positions in the input and in the output buffer. */
  class IocChain {
    var next: nat
    const inPl: array<Ptr>
    const outPl: array<Ptr>

    ghost predicate Valid()
      reads this
    {
      inPl.Length == IOC_SIZE && outPl.Length == IOC_SIZE && inPl != outPl
    }

    /** The input position of the next iteration. */
    ghost function In(): Ptr
      requires Valid()
      reads this, inPl
    {
      inPl[next % IOC_SIZE]
    }

    /** The output position of the next iteration. */
    ghost function Out(): Ptr
      requires Valid()
      reads this, outPl
    {
      outPl[next % IOC_SIZE]
    }

    /** ioc_init. */
    constructor (in0: Ptr, out0: Ptr)
      ensures Valid() && fresh(inPl) && fresh(outPl)
      ensures next == 0 && In() == in0 && Out() == out0
    {
      next := 0;
      inPl := new Ptr[IOC_SIZE];
      outPl := new Ptr[IOC_SIZE];
      new;
      inPl[0] := in0;
      outPl[0] := out0;
    }

    /** ioc_get_in opens an iteration. */
    method GetIn() returns (iter: nat, position: Ptr)
      requires Valid()
      modifies this`next
      ensures Valid() && position == old(In()) && iter == old(next) && next == iter + 1
    {
      iter := next;
      next := next + 1;
      position := inPl[iter % IOC_SIZE];
    }

    /** ioc_set_next_in. */
    method SetNextIn(iter: nat, position: Ptr)
      requires Valid()
      modifies inPl
      ensures Valid() && inPl[..] == old(inPl[..])[(iter + 1) % IOC_SIZE := position]
    {
      inPl[(iter + 1) % IOC_SIZE] := position;
    }

    /** ioc_get_out. */
    method GetOut(iter: nat) returns (position: Ptr)
      requires Valid()
      ensures position == outPl[iter % IOC_SIZE]
    {
      position := outPl[iter % IOC_SIZE];
    }

    /** ioc_set_next_out closes an iteration. */
    method SetNextOut(iter: nat, position: Ptr)
      requires Valid()
      modifies outPl
      ensures Valid() && outPl[..] == old(outPl[..])[(iter + 1) % IOC_SIZE := position]
    {
      outPl[(iter + 1) % IOC_SIZE] := position;
    }
  }

  /** The chain stands before iteration k of the sequential fold. */
  ghost predicate Follows(chain: IocChain, w: IoChain.Workload, k: nat)
    reads chain, chain.inPl, chain.outPl
  {
    chain.Valid() && chain.next == k && chain.In() == IoChain.In(w, k) && chain.Out() == IoChain.Out(w, k)
  }

  /** The four calls of one iteration. */
  method Iteration(chain: IocChain, w: IoChain.Workload, ghost k: nat) returns (p: Ptr, o: Ptr)
    requires Follows(chain, w, k)
    modifies chain, chain.inPl, chain.outPl
    ensures p == IoChain.In(w, k) && o == IoChain.Out(w, k) && Follows(chain, w, k + 1)
  {
    var iter;
    iter, p := chain.GetIn();
    chain.SetNextIn(iter, (w.stepIn)(iter, p));
    o := chain.GetOut(iter);
    chain.SetNextOut(iter, (w.stepOut)(iter, p, o));
  }

  /** Any number of iterations, although the 33 slots are reused, are given the pointers of the sequential fold. */
  method RunSerially(w: IoChain.Workload, n: nat) returns (given: seq<(Ptr, Ptr)>)
    ensures |given| == n && forall k :: 0 <= k < n ==> given[k] == (IoChain.In(w, k), IoChain.Out(w, k))
  {
    hide IoChain.In, IoChain.Out;
    var chain := new IocChain(w.in0, w.out0);
    Beginning(chain, w);
    given := [];
    for k := 0 to n
      invariant |given| == k && Follows(chain, w, k) && fresh(chain) && fresh(chain.inPl) && fresh(chain.outPl)
      invariant forall j :: 0 <= j < k ==> given[j] == (IoChain.In(w, j), IoChain.Out(w, j))
    {
      var p, o := Iteration(chain, w, k);
      given := given + [(p, o)];
    }
  }

  lemma Beginning(chain: IocChain, w: IoChain.Workload)
    requires chain.Valid() && chain.next == 0 && chain.In() == w.in0 && chain.Out() == w.out0
    ensures Follows(chain, w, 0)
  {
  }
}
