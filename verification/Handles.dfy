/** Sequential message handles: the plain factory and its lock-free variant.

  The lock-free factory is modelled as atomic steps of any number of threads.  Its steps are a
  fetch-and-add that wraps around at 2^32 and a compare-exchange that puts a wrapped counter back.
  The value put back is one above the first handle, which wraps as well when that is the largest.
  */
module Handles {
  import opened Wrappers

  const MAX: nat := 0xFFFF_FFFF

  type u32 = x: nat | x <= MAX

  /** The handle after `h`: one more, or the first one again. */
  function Succ(first: u32, h: u32): u32 {
    if h == MAX then first else h + 1
  }

  function WrappingAdd1(x: u32): u32 {
    if x == MAX then 0 else x + 1
  }

  /** The n-th handle of a factory that starts at `first`. */
  function NthHandle(first: u32, n: nat): u32 {
    if n == 0 then first else Succ(first, NthHandle(first, n - 1))
  }

  /** Counting on from the i-th handle, for as long as MAX is not passed. */
  lemma {:induction false} CountsUp(first: u32, i: nat, d: nat)
    requires NthHandle(first, i) + d <= MAX
    ensures NthHandle(first, i + d) == NthHandle(first, i) + d
  {
    if d > 0 {
      CountsUp(first, i, d - 1);
    }
  }

  lemma {:induction false} NthHandleInRange(first: u32, n: nat)
    ensures first <= NthHandle(first, n) <= MAX
  {
    if n > 0 {
      NthHandleInRange(first, n - 1);
    }
  }

  /** Handles run through first..MAX, in this order, over and over. */
  lemma {:induction false} NthHandleIsCyclic(first: u32, n: nat)
    ensures n <= MAX - first ==> NthHandle(first, n) == first + n
    ensures NthHandle(first, n + (MAX - first + 1)) == NthHandle(first, n)
  {
    if n == 0 {
      CountsUp(first, 0, MAX - first);
    } else {
      NthHandleIsCyclic(first, n - 1);
    }
  }

  /** No handle repeats within one round. */
  lemma NoRepeatWithinRound(first: u32, i: nat, j: nat)
    requires i < j < i + (MAX - first + 1)
    ensures NthHandle(first, i) != NthHandle(first, j)
  {
    var a := NthHandle(first, i);
    NthHandleInRange(first, i);
    if j - i <= MAX - a {
      CountsUp(first, i, j - i);
    } else {
      var last := i + (MAX - a);
      CountsUp(first, i, MAX - a);
      assert NthHandle(first, last + 1) == first;
      CountsUp(first, last + 1, j - last - 1);
    }
  }

  // ---- The plain factory -------------------------------------------------------------------

  class Handle {
    var next: u32
    const first: u32

    constructor (first: u32)
      ensures this.first == first && next == first
    {
      this.first := first;
      next := first;
    }

    method Next() returns (handle: u32)
      modifies this
      ensures handle == old(next) && next == Succ(first, old(next))
    {
      handle := next;
      if next == MAX {
        next := first;
      } else {
        next := next + 1;
      }
    }

    method SetNext(next: u32)
      modifies this
      ensures this.next == next
    {
      this.next := next;
    }

    method Reset()
      modifies this
      ensures next == first
    {
      SetNext(first);
    }
  }

  // ---- The lock-free factory, used by one thread -------------------------------------------

  /** The handle a counter stands for: a counter that wrapped below `first` stands for `first`. */
  function Standing(first: u32, counter: u32): u32 {
    if counter < first then first else counter
  }

  class AtomicHandle {
    var counter: u32
    const first: u32

    constructor (first: u32)
      ensures this.first == first && counter == first && Standing(first, counter) == first
    {
      this.first := first;
      counter := first;
    }

    /** With no other thread about, exactly what the plain factory does. */
    method Next() returns (val: u32)
      modifies this
      ensures val == old(Standing(first, counter))
      ensures Standing(first, counter) == Succ(first, val)
    {
      val := counter;
      counter := WrappingAdd1(counter);
      while val < first
        invariant val < first ==> counter == val + 1 && old(Standing(first, counter)) == first
        invariant val >= first ==> val == old(Standing(first, counter)) && Standing(first, counter) == Succ(first, val)
        decreases val < first
      {
        if counter == val + 1 {
          counter := WrappingAdd1(first);
          val := first;
        } else {
          // A compare-exchange fails only when another thread moved the counter.
          assert false;
        }
      }
    }
  }

  /** Calling either factory over and over gives the same handles. */
  method RunBoth(first: u32, n: nat) returns (plain: seq<u32>, atomic: seq<u32>)
    ensures plain == atomic == seq(n, i requires 0 <= i => NthHandle(first, i))
  {
    hide Standing;
    var h := new Handle(first);
    var a := new AtomicHandle(first);
    plain, atomic := [], [];
    var i := 0;
    while i < n
      invariant 0 <= i <= n && h.first == a.first == first
      invariant h.next == Standing(first, a.counter) == NthHandle(first, i)
      invariant plain == atomic == seq(i, k requires 0 <= k => NthHandle(first, k))
    {
      var x := h.Next();
      var y := a.Next();
      plain, atomic := plain + [x], atomic + [y];
      i := i + 1;
    }
  }

  // ---- The lock-free factory, used by many threads -----------------------------------------

  datatype ThreadId = ThreadId(id: nat)

  /** Where a call is: nowhere; about to compare-exchange after reading `val`; about to fetch again. */
  datatype Pc = Idle | Pending(val: u32) | Refetch

  datatype Issue = Issue(thread: ThreadId, handle: u32)

  /** `issued` records the handles returned, in the order of the steps that settled them. */
  datatype System = System(counter: u32, pcs: map<ThreadId, Pc>, issued: seq<Issue>)

  datatype Move = Call(thread: ThreadId) | FetchAgain(thread: ThreadId) | CompareExchange(thread: ThreadId)

  function PcOf(s: System, t: ThreadId): Pc {
    if t in s.pcs then s.pcs[t] else Idle
  }

  predicate Enabled(s: System, m: Move) {
    match m
    case Call(t) => PcOf(s, t).Idle?
    case FetchAgain(t) => PcOf(s, t).Refetch?
    case CompareExchange(t) => PcOf(s, t).Pending?
  }

  function At(s: System, t: ThreadId, pc: Pc): System {
    s.(pcs := s.pcs[t := pc])
  }

  function Return(s: System, t: ThreadId, handle: u32): System {
    At(s, t, Idle).(issued := s.issued + [Issue(t, handle)])
  }

  function FetchAdd(first: u32, s: System, t: ThreadId): System {
    var val := s.counter;
    var moved := s.(counter := WrappingAdd1(val));
    if val < first then At(moved, t, Pending(val)) else Return(moved, t, val)
  }

  function TryReset(first: u32, s: System, t: ThreadId, val: u32): System
    requires val < first
  {
    if s.counter == val + 1 then Return(s.(counter := WrappingAdd1(first)), t, first)
    else if s.counter >= first then At(s, t, Refetch)
    else At(s, t, Pending(s.counter))
  }

  /** Calls that wait all read a value below `first`. */
  ghost predicate PendingBelow(first: u32, s: System) {
    forall t | t in s.pcs && s.pcs[t].Pending? :: s.pcs[t].val < first
  }

  function Apply(first: u32, s: System, m: Move): System
    requires Enabled(s, m)
    requires m.CompareExchange? ==> PcOf(s, m.thread).val < first
  {
    match m
    case Call(t) => FetchAdd(first, s, t)
    case FetchAgain(t) => FetchAdd(first, s, t)
    case CompareExchange(t) => TryReset(first, s, t, PcOf(s, t).val)
  }

  ghost predicate Inv(first: u32, s: System) {
    && PendingBelow(first, s)
    && (forall i | 0 <= i < |s.issued| :: s.issued[i].handle == NthHandle(first, i))
    && NthHandle(first, |s.issued|) == Standing(first, s.counter)
    && (s.issued == [] ==> s.counter == first && forall t | t in s.pcs :: s.pcs[t].Idle?)
    && (s.issued != [] && 1 <= s.counter <= first ==> exists t :: t in s.pcs && s.pcs[t] == Pending(s.counter - 1))
  }

  /** Any interleaving is a sequence of moves; a move a thread cannot make is skipped. */
  function Run(first: u32, moves: seq<Move>): (s: System)
    ensures Inv(first, s)
  {
    if moves == [] then System(first, map[], [])
    else
      var n := |moves| - 1;
      var s := Run(first, moves[..n]);
      if Enabled(s, moves[n]) then
        MoveKeepsInv(first, s, moves[n]);
        Apply(first, s, moves[n])
      else s
  }

  lemma MoveKeepsInv(first: u32, s: System, m: Move)
    requires Inv(first, s) && Enabled(s, m)
    ensures Inv(first, Apply(first, s, m))
  {
    var s' := Apply(first, s, m);
    var t := m.thread;
    if s'.issued != [] && 1 <= s'.counter <= first {
      if s'.counter != s.counter {
        assert s'.pcs[t] == Pending(s'.counter - 1);
      } else {
        var u :| u in s.pcs && s.pcs[u] == Pending(s.counter - 1);
        assert s'.pcs[u] == Pending(s'.counter - 1);
      }
    }
  }

  /** Whatever the interleaving, the handles come out in the order of the plain factory: the n-th
    handle settled is the n-th handle a single caller would get. */
  lemma Linearizable(first: u32, moves: seq<Move>)
    ensures forall i | 0 <= i < |Run(first, moves).issued| :: Run(first, moves).issued[i].handle == NthHandle(first, i)
  {
  }

  /** So every handle is at least `first`, and two are equal only a whole round apart or more. */
  lemma HandlesAreDistinct(first: u32, moves: seq<Move>, i: nat, j: nat)
    requires i < j < |Run(first, moves).issued|
    ensures
      var issued := Run(first, moves).issued;
      && issued[i].handle >= first && issued[j].handle >= first
      && (issued[i].handle == issued[j].handle ==> j - i >= MAX - first + 1)
  {
    NthHandleInRange(first, i);
    NthHandleInRange(first, j);
    if j < i + (MAX - first + 1) {
      NoRepeatWithinRound(first, i, j);
    }
  }

  // ---- Progress ----------------------------------------------------------------------------

  /** A call already under way goes on; no call starts. */
  predicate GoesOn(s: System, m: Move) {
    !m.Call? && Enabled(s, m)
  }

  ghost predicate InFlight(s: System) {
    exists t :: t in s.pcs && !s.pcs[t].Idle?
  }

  /** A wrapped counter in 1..first always has a call whose compare-exchange succeeds. */
  lemma WrappedCounterIsRescued(first: u32, moves: seq<Move>)
    ensures
      var s := Run(first, moves);
      s.issued != [] && 1 <= s.counter <= first ==>
        exists t :: Enabled(s, CompareExchange(t)) && Apply(first, s, CompareExchange(t)).issued == s.issued + [Issue(t, first)]
  {
    var s := Run(first, moves);
    if s.issued != [] && 1 <= s.counter <= first {
      var t :| t in s.pcs && s.pcs[t] == Pending(s.counter - 1);
      assert Enabled(s, CompareExchange(t));
      assert Apply(first, s, CompareExchange(t)).issued == s.issued + [Issue(t, first)];
    }
  }

  /** Nobody can finish: the counter stands at zero and every call under way waits for one. */
  ghost predicate Stuck(first: u32, s: System) {
    s.counter == 0 && first > 0 && forall t | t in s.pcs :: !s.pcs[t].Refetch?
  }

  /** The calls under way can settle a handle by themselves, in at most two moves. */
  ghost predicate CanSettle(first: u32, s: System)
    requires Inv(first, s)
  {
    exists m :: GoesOn(s, m) && SettlesWith(first, s, m)
  }

  ghost predicate SettlesWith(first: u32, s: System, m: Move)
    requires Inv(first, s) && GoesOn(s, m)
  {
    MoveKeepsInv(first, s, m);
    var s' := Apply(first, s, m);
    || |s'.issued| > |s.issued|
    || exists m' :: GoesOn(s', m') && m'.thread == m.thread && |Apply(first, s', m').issued| > |s.issued|
  }

  /** The calls under way make progress on their own exactly when they are not stuck at zero. */
  lemma ProgressUnlessStuck(first: u32, s: System)
    requires Inv(first, s) && InFlight(s)
    ensures CanSettle(first, s) <==> !Stuck(first, s)
  {
    if Stuck(first, s) {
      forall m | GoesOn(s, m)
        ensures !SettlesWith(first, s, m)
      {
        MoveKeepsInv(first, s, m);
        var s' := Apply(first, s, m);
        assert s' == At(s, m.thread, Pending(0));
      }
    } else {
      var m := SettlingMove(first, s);
      assert SettlesWith(first, s, m);
    }
  }

  lemma SettlingMove(first: u32, s: System) returns (m: Move)
    requires Inv(first, s) && InFlight(s) && !Stuck(first, s)
    ensures GoesOn(s, m) && SettlesWith(first, s, m)
  {
    if t :| t in s.pcs && s.pcs[t].Refetch? {
      m := FetchAgain(t);
      if s.counter < first {
        MoveKeepsInv(first, s, m);
        var s' := Apply(first, s, m);
        assert GoesOn(s', CompareExchange(t)) && |Apply(first, s', CompareExchange(t)).issued| > |s.issued|;
      }
    } else {
      var t :| t in s.pcs && !s.pcs[t].Idle?;
      assert s.pcs[t].val < first && s.counter != 0 && s.issued != [];
      if s.counter <= first {
        t :| t in s.pcs && s.pcs[t] == Pending(s.counter - 1);
        m := CompareExchange(t);
      } else {
        m := CompareExchange(t);
        MoveKeepsInv(first, s, m);
        var s' := Apply(first, s, m);
        assert GoesOn(s', FetchAgain(t)) && |Apply(first, s', FetchAgain(t)).issued| > |s.issued|;
      }
    }
  }

  function Continue(first: u32, s: System, moves: seq<Move>): (s': System)
    requires Inv(first, s)
    ensures Inv(first, s')
  {
    if moves == [] then s
    else
      var n := |moves| - 1;
      var before := Continue(first, s, moves[..n]);
      if GoesOn(before, moves[n]) then
        MoveKeepsInv(first, before, moves[n]);
        Apply(first, before, moves[n])
      else before
  }

  /** Being stuck lasts: until a new call comes in, no number of retries settles a handle. */
  lemma {:induction false} StuckStaysStuck(first: u32, s: System, moves: seq<Move>)
    requires Inv(first, s) && Stuck(first, s)
    ensures Stuck(first, Continue(first, s, moves)) && Continue(first, s, moves).issued == s.issued
  {
    if moves != [] {
      var n := |moves| - 1;
      StuckStaysStuck(first, s, moves[..n]);
      var before := Continue(first, s, moves[..n]);
      if GoesOn(before, moves[n]) {
        assert Continue(first, s, moves) == At(before, moves[n].thread, Pending(0));
      }
    }
  }

  /** It does happen: a call that sleeps through a whole round wakes to a counter that has just
    wrapped, and retries in vain until someone else calls. */
  lemma StuckIsReachable() returns (first: u32, moves: seq<Move>)
    ensures first < MAX && InFlight(Run(first, moves)) && Stuck(first, Run(first, moves))
  {
    hide Run, Inv, Apply;
    first := MAX - 1;
    var a, b := ThreadId(0), ThreadId(1);
    moves := [Call(b), Call(b), Call(a), Call(b), CompareExchange(b), Call(b)];
    assert Rests(Run(first, moves[..0]), MAX - 1, Idle, Idle) by { AtStart(first, moves); }
    Step(first, moves, 0, MAX - 1, Idle, Idle);
    Step(first, moves, 1, MAX, Idle, Idle);
    Step(first, moves, 2, 0, Idle, Idle);
    Step(first, moves, 3, 1, Pending(0), Idle);
    Step(first, moves, 4, 2, Pending(0), Pending(1));
    Step(first, moves, 5, MAX, Pending(0), Idle);
    assert moves[..6] == moves;
    assert a in Run(first, moves).pcs;
  }

  /** Two threads, a and b, and where they and the counter stand. */
  ghost predicate Rests(s: System, counter: u32, a: Pc, b: Pc) {
    s.counter == counter && PcOf(s, ThreadId(0)) == a && PcOf(s, ThreadId(1)) == b
    && forall t | t in s.pcs :: t == ThreadId(0) || t == ThreadId(1)
  }

  lemma AtStart(first: u32, moves: seq<Move>)
    ensures Rests(Run(first, moves[..0]), first, Idle, Idle)
  {
  }

  lemma Step(first: u32, moves: seq<Move>, n: nat, counter: u32, a: Pc, b: Pc)
    requires n < |moves| && Rests(Run(first, moves[..n]), counter, a, b)
    requires moves[n].thread in {ThreadId(0), ThreadId(1)}
    requires moves[n].CompareExchange? ==> 1 <= counter <= first
    requires (if moves[n].thread == ThreadId(0) then a else b) == if moves[n].CompareExchange? then Pending(counter - 1) else Idle
    requires !moves[n].FetchAgain?
    ensures
      var pc := if moves[n].Call? && counter < first then Pending(counter) else Idle;
      Rests(Run(first, moves[..n + 1]), if moves[n].Call? then WrappingAdd1(counter) else WrappingAdd1(first),
            if moves[n].thread == ThreadId(0) then pc else a, if moves[n].thread == ThreadId(1) then pc else b)
  {
    hide Run, Inv;
    var s := RunPrefix(first, moves, n);
  }

  lemma RunPrefix(first: u32, moves: seq<Move>, n: nat) returns (s: System)
    requires n < |moves|
    ensures s == Run(first, moves[..n + 1])
    ensures
      var before := Run(first, moves[..n]);
      s == if Enabled(before, moves[n]) then Apply(first, before, moves[n]) else before
  {
    assert moves[..n + 1][..n] == moves[..n];
    s := Run(first, moves[..n + 1]);
  }
}
