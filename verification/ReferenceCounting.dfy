/** The reference counting of detail::Wrapper in include/CL/cl.hpp: every wrapper
    object owns one reference to the handle it holds. */
module ReferenceCounting {

  /** An OpenCL object; 0 is NULL. */
  type Handle = nat

  const NULL: Handle := 0

  /** The runtime's counts, and whether a call ever touched a dead handle. */
  datatype Counts = Counts(refs: map<Handle, nat>, fault: bool)

  function Refs(c: Counts, h: Handle): nat {
    if h in c.refs then c.refs[h] else 0
  }

  predicate Alive(c: Counts, h: Handle) {
    Refs(c, h) > 0
  }

  /** clRetain*: an error code for NULL, undefined for a dead handle. */
  function Retained(c: Counts, h: Handle): Counts {
    if h == NULL then c
    else if Alive(c, h) then c.(refs := c.refs[h := Refs(c, h) + 1])
    else c.(fault := true)
  }

  function Released(c: Counts, h: Handle): Counts {
    if h == NULL then c
    else if Alive(c, h) then c.(refs := c.refs[h := (Refs(c, h) - 1) as nat])
    else c.(fault := true)
  }

  // ------------------------------------------------------ a program's wrappers

  /** The live wrappers by name, with the handle each holds, and the references
      held elsewhere (by the runtime's own objects, or by raw C code). */
  datatype State = State(holds: map<nat, Handle>, counts: Counts, others: map<Handle, nat>)

  datatype Action =
    | Construct(w: nat, h: Handle)        // a clCreate* call; NULL when it fails
    | Copy(w: nat, from: nat)
    | Assign(w: nat, from: nat)           // the derived classes' guarded operator=
    | Destroy(w: nat)
    | GetInfo(w: nat, temp: nat, h: Handle) // by value; NULL when the query fails
    | OtherRetain(h: Handle)
    | OtherRelease(h: Handle)

  /** What C++ and the OpenCL runtime guarantee about an action. */
  predicate Enabled(s: State, a: Action) {
    match a
    case Construct(w, h) => w !in s.holds && !Alive(s.counts, h)
    case Copy(w, from) => w !in s.holds && from in s.holds
    case Assign(w, from) => w in s.holds && from in s.holds
    case Destroy(w) => w in s.holds
    case GetInfo(w, temp, h) =>
      w !in s.holds && temp !in s.holds && w != temp && (h == NULL || Alive(s.counts, h))
    case OtherRetain(h) => h != NULL && Alive(s.counts, h)
    case OtherRelease(h) => h in s.others && s.others[h] > 0
  }

  function CopyTo(s: State, w: nat, from: nat): State
    requires from in s.holds
  {
    State(s.holds[w := s.holds[from]], Retained(s.counts, s.holds[from]), s.others)
  }

  /** Wrapper::operator= without a guard: release, copy the handle, retain. */
  function BaseAssigned(s: State, w: nat, from: nat): State
    requires w in s.holds && from in s.holds
  {
    State(s.holds[w := s.holds[from]], Retained(Released(s.counts, s.holds[w]), s.holds[from]), s.others)
  }

  function Destroyed(s: State, w: nat): State
    requires w in s.holds
  {
    State(s.holds - {w}, Released(s.counts, s.holds[w]), s.others)
  }

  /** The query writes the handle into the wrapper, whatever that held, and retains it. */
  function QueriedInto(s: State, w: nat, h: Handle): State {
    State(s.holds[w := h], Retained(s.counts, h), s.others)
  }

  function Step(s: State, a: Action): State
    requires Enabled(s, a)
  {
    match a
    case Construct(w, h) =>
      State(s.holds[w := h], if h == NULL then s.counts else s.counts.(refs := s.counts.refs[h := 1]),
            if h == NULL then s.others else s.others - {h})
    case Copy(w, from) => CopyTo(s, w, from)
    case Assign(w, from) => if w == from then s else BaseAssigned(s, w, from)
    case Destroy(w) => Destroyed(s, w)
    case GetInfo(w, temp, h) => Destroyed(CopyTo(QueriedInto(s, temp, h), w, temp), temp)
    case OtherRetain(h) =>
      s.(counts := Retained(s.counts, h), others := s.others[h := Others(s, h) + 1])
    case OtherRelease(h) =>
      s.(counts := Released(s.counts, h), others := s.others[h := (s.others[h] - 1) as nat])
  }

  function Others(s: State, h: Handle): nat {
    if h in s.others then s.others[h] else 0
  }

  function Holders(holds: map<nat, Handle>, h: Handle): set<nat> {
    set w | w in holds && holds[w] == h
  }

  /** Every reference is accounted for: by a live wrapper or by someone else. */
  ghost predicate Balanced(s: State) {
    forall h: Handle | h != NULL :: Refs(s.counts, h) == Others(s, h) + |Holders(s.holds, h)|
  }

  ghost predicate Inv(s: State) {
    Balanced(s) && !s.counts.fault
  }

  // ---------------------------------------------------------------- one action

  lemma HoldersAdd(holds: map<nat, Handle>, w: nat, h: Handle, k: Handle)
    requires w !in holds
    ensures |Holders(holds[w := h], k)| == |Holders(holds, k)| + if h == k then 1 else 0
  {
    assert Holders(holds[w := h], k) == Holders(holds, k) + if h == k then {w} else {};
  }

  lemma HoldersRemove(holds: map<nat, Handle>, w: nat, k: Handle)
    requires w in holds
    ensures |Holders(holds, k)| == |Holders(holds - {w}, k)| + if holds[w] == k then 1 else 0
  {
    assert Holders(holds, k) == Holders(holds - {w}, k) + if holds[w] == k then {w} else {};
  }

  lemma HoldersReplace(holds: map<nat, Handle>, w: nat, h: Handle, k: Handle)
    requires w in holds
    ensures |Holders(holds[w := h], k)| == |Holders(holds - {w}, k)| + if h == k then 1 else 0
  {
    assert holds[w := h] == (holds - {w})[w := h];
    HoldersAdd(holds - {w}, w, h, k);
  }

  /** A held handle is alive. */
  lemma HeldIsAlive(s: State, w: nat)
    requires Balanced(s) && w in s.holds && s.holds[w] != NULL
    ensures Alive(s.counts, s.holds[w])
  {
    assert w in Holders(s.holds, s.holds[w]);
  }

  lemma CopyKeepsInv(s: State, w: nat, from: nat)
    requires Inv(s) && w !in s.holds && from in s.holds
    ensures Inv(CopyTo(s, w, from))
  {
    var h := s.holds[from];
    if h != NULL {
      HeldIsAlive(s, from);
    }
    var t := CopyTo(s, w, from);
    forall k: Handle | k != NULL
      ensures Refs(t.counts, k) == Others(t, k) + |Holders(t.holds, k)|
    {
      HoldersAdd(s.holds, w, h, k);
    }
  }

  lemma DestroyKeepsInv(s: State, w: nat)
    requires Inv(s) && w in s.holds
    ensures Inv(Destroyed(s, w))
  {
    if s.holds[w] != NULL {
      HeldIsAlive(s, w);
    }
    forall k: Handle { HoldersRemove(s.holds, w, k); }
  }

  /** Assigning between different wrappers is safe even when both hold the same
      handle: the source's own reference keeps it alive between release and retain. */
  lemma AssignKeepsInv(s: State, w: nat, from: nat)
    requires Inv(s) && w in s.holds && from in s.holds && w != from
    ensures Inv(BaseAssigned(s, w, from))
    ensures s.holds[from] != NULL ==> Alive(Released(s.counts, s.holds[w]), s.holds[from])
  {
    DestroyKeepsInv(s, w);
    var t := Destroyed(s, w);
    CopyKeepsInv(t, w, from);
    if s.holds[from] != NULL {
      HeldIsAlive(t, from);
    }
    assert (s.holds - {w})[w := s.holds[from]] == s.holds[w := s.holds[from]];
  }

  lemma ConstructKeepsInv(s: State, w: nat, h: Handle)
    requires Inv(s) && Enabled(s, Construct(w, h))
    ensures Inv(Step(s, Construct(w, h)))
  {
    var t := Step(s, Construct(w, h));
    forall k: Handle | k != NULL
      ensures Refs(t.counts, k) == Others(t, k) + |Holders(t.holds, k)|
    {
      HoldersAdd(s.holds, w, h, k);
    }
  }

  lemma NewQueryKeepsInv(s: State, temp: nat, h: Handle)
    requires Inv(s) && temp !in s.holds && (h == NULL || Alive(s.counts, h))
    ensures Inv(QueriedInto(s, temp, h))
  {
    var t := QueriedInto(s, temp, h);
    forall k: Handle | k != NULL
      ensures Refs(t.counts, k) == Others(t, k) + |Holders(t.holds, k)|
    {
      HoldersAdd(s.holds, temp, h, k);
    }
  }

  lemma StepKeepsInv(s: State, a: Action)
    requires Inv(s) && Enabled(s, a)
    ensures Inv(Step(s, a))
  {
    match a
    case Construct(w, h) => ConstructKeepsInv(s, w, h);
    case Copy(w, from) => CopyKeepsInv(s, w, from);
    case Assign(w, from) => if w != from { AssignKeepsInv(s, w, from); }
    case Destroy(w) => DestroyKeepsInv(s, w);
    case GetInfo(w, temp, h) =>
      NewQueryKeepsInv(s, temp, h);
      var t := QueriedInto(s, temp, h);
      CopyKeepsInv(t, w, temp);
      DestroyKeepsInv(CopyTo(t, w, temp), temp);
    case OtherRetain(h) =>
    case OtherRelease(h) =>
  }

  /** Which handle each wrapper holds afterwards: a copy and an assigned wrapper that of their
      source, a new one what it was made with; all others keep theirs. */
  lemma HandlesAfter(s: State, a: Action)
    requires Enabled(s, a)
    ensures var t := Step(s, a);
            && (a.Construct? ==> t.holds == s.holds[a.w := a.h])
            && (a.Copy? || a.Assign? ==> t.holds == s.holds[a.w := s.holds[a.from]])
            && (a.Destroy? ==> t.holds == s.holds - {a.w})
            && (a.GetInfo? ==> t.holds == s.holds[a.w := a.h])
            && (a.OtherRetain? || a.OtherRelease? ==> t.holds == s.holds)
  {
    if a.Assign? && a.w == a.from {
      assert s.holds == s.holds[a.w := s.holds[a.w]];
    }
    if a.GetInfo? {
      assert s.holds[a.temp := a.h][a.w := a.h] - {a.temp} == s.holds[a.w := a.h];
    }
  }

  // ----------------------------------------------------------------- whole runs

  ghost predicate IsRun(run: seq<State>, actions: seq<Action>) {
    && |run| == |actions| + 1
    && run[0] == State(map[], Counts(map[], false), map[])
    && forall i | 0 <= i < |actions| :: Enabled(run[i], actions[i]) && run[i + 1] == Step(run[i], actions[i])
  }

  /** In every state of every run all references are accounted for, and no retain
      or release has touched a dead handle. */
  lemma {:induction false} RunsAreBalanced(run: seq<State>, actions: seq<Action>, i: nat)
    requires IsRun(run, actions) && i < |run|
    ensures Inv(run[i])
  {
    if i == 0 {
      forall h: Handle ensures Holders(run[0].holds, h) == {} {}
    } else {
      RunsAreBalanced(run, actions, i - 1);
      StepKeepsInv(run[i - 1], actions[i - 1]);
    }
  }

  /** Without references held elsewhere the count is the number of wrappers, so a
      handle dies with its last wrapper. */
  lemma CountIsNumberOfWrappers(run: seq<State>, actions: seq<Action>, i: nat, h: Handle)
    requires IsRun(run, actions) && i < |run| && h != NULL && Others(run[i], h) == 0
    ensures Refs(run[i].counts, h) == |Holders(run[i].holds, h)|
    ensures Alive(run[i].counts, h) <==> exists w | w in run[i].holds :: run[i].holds[w] == h
  {
    RunsAreBalanced(run, actions, i);
    if Alive(run[i].counts, h) {
      var w :| w in Holders(run[i].holds, h);
    }
    if w :| w in run[i].holds && run[i].holds[w] == h {
      assert w in Holders(run[i].holds, h);
    }
  }

  // -------------------------------------------------------- what the guards buy

  /** Without the guard, assigning a wrapper to itself retains a dead handle exactly
      when it owns the only reference. */
  lemma UnguardedSelfAssignment(s: State, w: nat)
    requires Inv(s) && w in s.holds && s.holds[w] != NULL
    ensures BaseAssigned(s, w, w).counts.fault <==> Refs(s.counts, s.holds[w]) == 1
  {
    HeldIsAlive(s, w);
  }

  /** getInfo into an existing wrapper keeps the accounts exactly when the wrapper
      held NULL: the handle it held before is not released. */
  lemma QueryIntoWrapper(s: State, w: nat, h: Handle)
    requires Inv(s) && w in s.holds && (h == NULL || Alive(s.counts, h))
    ensures Inv(QueriedInto(s, w, h)) <==> s.holds[w] == NULL
  {
    var old_, t := s.holds[w], QueriedInto(s, w, h);
    forall k: Handle
      ensures |Holders(t.holds, k)| + (if old_ == k then 1 else 0) ==
              |Holders(s.holds, k)| + if h == k then 1 else 0
    {
      HoldersReplace(s.holds, w, h, k);
      HoldersRemove(s.holds, w, k);
    }
    if old_ != NULL {
      HeldIsAlive(s, w);
      assert Refs(t.counts, old_) != Others(t, old_) + |Holders(t.holds, old_)|;
    }
  }
}
