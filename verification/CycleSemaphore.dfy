/** The semaphores by which the master tells its clients that a cycle is complete
    (ecat_config_master.cpp): a state machine of one master and any number of clients. */
module CycleSemaphore {

  const EC_SEM_NUM := 10

  /** Where the master is: between cycles, about to look at a semaphore, or about to post it or not with
      the value it has read. */
  datatype Master = Idle | Looks(i: nat) | HasRead(i: nat, val: nat)

  /** The values of the semaphores, and for each of them the posts and the waits completed so far;
      `cycles` counts the cycles that have begun. */
  datatype State = State(sem: seq<nat>, posts: seq<nat>, waits: seq<nat>, master: Master, cycles: nat)

  ghost predicate Sized(s: State) {
    |s.sem| == |s.posts| == |s.waits| == EC_SEM_NUM
    && (s.master.Looks? || s.master.HasRead? ==> s.master.i < EC_SEM_NUM)
  }

  ghost predicate Init(s: State) {
    s == State(seq(EC_SEM_NUM, i => 1), seq(EC_SEM_NUM, i => 0), seq(EC_SEM_NUM, i => 0), Idle, 0)
  }

  datatype Step = Begin | Look | Update | Wait(i: nat)

  /** A client passes a semaphore only when its value is positive. */
  ghost predicate Next(s: State, t: State, step: Step)
    requires Sized(s)
  {
    match step
    case Begin => s.master.Idle? && t == s.(master := Looks(0), cycles := s.cycles + 1)
    case Look => s.master.Looks? && t == s.(master := HasRead(s.master.i, s.sem[s.master.i]))
    case Update =>
      && s.master.HasRead?
      && var i := s.master.i;
         t == (if s.master.val < 1 then s.(sem := s.sem[i := s.sem[i] + 1], posts := s.posts[i := s.posts[i] + 1])
               else s)
              .(master := if i + 1 < EC_SEM_NUM then Looks(i + 1) else Idle)
    case Wait(i) =>
      && i < EC_SEM_NUM && s.sem[i] > 0
      && t == s.(sem := s.sem[i := s.sem[i] - 1], waits := s.waits[i := s.waits[i] + 1])
  }

  /** In the current cycle the master has not come to semaphore `i` yet. */
  predicate Ahead(m: Master, i: nat) {
    match m case Idle => false case Looks(k) => k <= i case HasRead(k, _) => k <= i
  }

  /** What every interleaving keeps. */
  ghost predicate Inv(s: State) {
    && Sized(s)
    && (forall i {:trigger s.sem[i]} {:trigger s.waits[i]} :: 0 <= i < EC_SEM_NUM ==>
          && s.sem[i] <= 1
          && s.waits[i] + s.sem[i] == 1 + s.posts[i]
          && s.posts[i] + (if Ahead(s.master, i) then 1 else 0) <= s.cycles)
    && (s.master.HasRead? ==> s.sem[s.master.i] <= s.master.val)
  }

  lemma {:induction false} InitInv(s: State)
    requires Init(s)
    ensures Inv(s)
  {
  }

  lemma {:induction false} NextInv(s: State, t: State, step: Step)
    requires Inv(s) && Next(s, t, step)
    ensures Inv(t)
  {
    forall i | 0 <= i < EC_SEM_NUM
      ensures |t.sem| == |t.posts| == |t.waits| == EC_SEM_NUM
      ensures t.sem[i] <= 1 && t.waits[i] + t.sem[i] == 1 + t.posts[i]
      ensures t.posts[i] + (if Ahead(t.master, i) then 1 else 0) <= t.cycles
    {
      assert s.sem[i] <= 1;
    }
  }

  ghost predicate Run(run: seq<State>, steps: seq<Step>) {
    && |run| == |steps| + 1 && Init(run[0])
    && forall j {:trigger steps[j]} :: 0 <= j < |steps| ==> Sized(run[j]) && Next(run[j], run[j + 1], steps[j])
  }

  /** Over every run: all semaphores stay 0 or 1, completed waits and value make up one more than the
      posts, and no client gets through more often than there are cycles, plus one. */
  lemma {:induction false} EveryRun(run: seq<State>, steps: seq<Step>, j: nat)
    requires Run(run, steps) && j < |run|
    ensures Inv(run[j])
    ensures forall i {:trigger run[j].waits[i]} :: 0 <= i < EC_SEM_NUM ==>
              && run[j].sem[i] <= 1 && run[j].waits[i] + run[j].sem[i] == 1 + run[j].posts[i]
              && run[j].waits[i] <= run[j].cycles + 1
  {
    hide Next, Init;
    if j == 0 {
      InitInv(run[0]);
    } else {
      EveryRun(run, steps, j - 1);
      assert Next(run[j - 1], run[j], steps[j - 1]);
      NextInv(run[j - 1], run[j], steps[j - 1]);
    }
  }

  /** Posts that a semaphore is still due in a cycle count as done. */
  ghost function Due(s: State, i: nat): int
    requires Sized(s) && i < EC_SEM_NUM
  {
    s.posts[i] + (if Ahead(s.master, i) then 1 else 0) - s.cycles
  }

  lemma {:induction false} DueShrinks(s: State, t: State, step: Step, i: nat)
    requires Sized(s) && Next(s, t, step) && i < EC_SEM_NUM
    ensures Sized(t) && Due(t, i) <= Due(s, i) && s.waits[i] <= t.waits[i]
  {
  }

  lemma {:induction false} DueShrinksOver(run: seq<State>, steps: seq<Step>, a: nat, b: nat, i: nat)
    requires Run(run, steps) && a <= b < |run| && i < EC_SEM_NUM
    ensures Sized(run[a]) && Sized(run[b]) && Due(run[b], i) <= Due(run[a], i) && run[a].waits[i] <= run[b].waits[i]
    decreases b
  {
    hide Next, Init, Due;
    EveryRun(run, steps, a);
    EveryRun(run, steps, b);
    if a < b {
      DueShrinksOver(run, steps, a, b - 1, i);
      assert Next(run[b - 1], run[b], steps[b - 1]);
      DueShrinks(run[b - 1], run[b], steps[b - 1], i);
    }
  }

  /** Signals that nobody waits for do not pile up: in any stretch of a run a client gets through at most
      twice more than there are cycles in it. */
  lemma {:induction false} NoPileUp(run: seq<State>, steps: seq<Step>, a: nat, b: nat, i: nat)
    requires Run(run, steps) && a <= b < |run| && i < EC_SEM_NUM
    ensures Sized(run[a]) && Sized(run[b])
    ensures run[b].waits[i] - run[a].waits[i] <= run[b].cycles - run[a].cycles + 2
  {
    hide Run;
    DueShrinksOver(run, steps, a, b, i);
    EveryRun(run, steps, a);
    EveryRun(run, steps, b);
    assert run[a].sem[i] <= 1 && run[b].sem[i] <= 1;
  }

  /** The master is busy with semaphore `i`. */
  predicate At(m: Master, i: nat) { (m.Looks? || m.HasRead?) && m.i == i }

  lemma {:induction false} StaysRead(s: State, t: State, step: Step, i: nat, w: nat)
    requires Inv(s) && Next(s, t, step) && i < EC_SEM_NUM && At(s.master, i) && w <= s.waits[i]
    requires s.waits[i] == w && s.master.HasRead? ==> s.sem[i] == s.master.val
    ensures Sized(t) && w <= t.waits[i]
    ensures t.waits[i] == w ==>
              (if At(t.master, i) then t.master.HasRead? ==> t.sem[i] == t.master.val else t.sem[i] == 1)
  {
    assert s.sem[i] <= 1;
  }

  lemma {:induction false} StaysReadOver(run: seq<State>, steps: seq<Step>, a: nat, b: nat, i: nat)
    requires Run(run, steps) && a < b < |run| && i < EC_SEM_NUM && run[a].master == Looks(i)
    requires forall j {:trigger run[j]} :: a <= j < b ==> At(run[j].master, i)
    ensures Sized(run[a]) && Sized(run[b]) && run[a].waits[i] <= run[b].waits[i]
    ensures run[b].waits[i] == run[a].waits[i] ==>
              if At(run[b].master, i) then run[b].master.HasRead? ==> run[b].sem[i] == run[b].master.val
              else run[b].sem[i] == 1
    decreases b
  {
    hide Next, Init;
    EveryRun(run, steps, a);
    EveryRun(run, steps, b - 1);
    if a < b - 1 {
      StaysReadOver(run, steps, a, b - 1, i);
    }
    assert Next(run[b - 1], run[b], steps[b - 1]);
    StaysRead(run[b - 1], run[b], steps[b - 1], i, run[a].waits[i]);
  }

  /** No cycle is lost: once the master has come to a semaphore and gone on, a client gets through, or one
      has got through meanwhile, however the steps were interleaved. */
  lemma {:induction false} EveryCycleSignals(run: seq<State>, steps: seq<Step>, a: nat, b: nat, i: nat)
    requires Run(run, steps) && a < b < |run| && i < EC_SEM_NUM && run[a].master == Looks(i)
    requires forall j {:trigger run[j]} :: a <= j < b ==> At(run[j].master, i)
    requires !At(run[b].master, i)
    ensures Sized(run[a]) && Sized(run[b])
    ensures run[b].sem[i] == 1 || run[b].waits[i] > run[a].waits[i]
  {
    StaysReadOver(run, steps, a, b, i);
    hide Run;
  }

  /** What opening a semaphore by its name brings: none, a new one with value 1, or one that exists. */
  datatype Opened = Failed | New | Existing(val: nat)

  /** A semaphore gets the value 1: it has it when it is opened, or when it is created again. */
  predicate CanBeOne(first: Opened, again: Opened) {
    !first.Failed? && (first.Existing? && first.val != 1 ==> again == New || again == Existing(1))
  }

  /** Setting up the semaphores (createSharedMemory): one that does not have the value 1 is removed and
      created again. All are set up, or the first one that cannot be given the value 1 ends it. */
  method CreateSemaphores(first: seq<Opened>, again: seq<Opened>) returns (ok: bool, sem: seq<nat>)
    requires |first| == |again| == EC_SEM_NUM
    ensures |sem| <= EC_SEM_NUM && forall i :: 0 <= i < |sem| ==> sem[i] == 1 && CanBeOne(first[i], again[i])
    ensures ok <==> |sem| == EC_SEM_NUM
    ensures !ok ==> !CanBeOne(first[|sem|], again[|sem|])
  {
    ok, sem := true, [];
    var i := 0;
    while i < EC_SEM_NUM
      invariant |sem| == i <= EC_SEM_NUM
      invariant forall j :: 0 <= j < i ==> sem[j] == 1 && CanBeOne(first[j], again[j])
    {
      if first[i].Failed? {
        return false, sem;
      }
      var val := if first[i].New? then 1 else first[i].val;
      if val != 1 {
        // without a new semaphore the value read before remains
        val := match again[i] case Failed => val case New => 1 case Existing(v) => v;
      }
      if val != 1 {
        return false, sem;
      }
      sem := sem + [val];
      i := i + 1;
    }
  }
}
