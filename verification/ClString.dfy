/** cl::string of include/CL/cl.hpp: who owns which heap buffer. */
module ClString {

  /** Live buffers by address (0 is NULL), the addresses deleted so far, and
      whether a dead buffer was ever read or deleted. */
  datatype Heap = Heap(live: map<nat, string>, deleted: set<nat>, next: nat, fault: bool)

  datatype Str = Str(size: nat, ptr: nat)

  const EMPTY := Str(0, 0)

  /** `new char[...]`, filled at once. */
  function Allocated(h: Heap, bytes: string): Heap {
    h.(live := h.live[h.next := bytes], next := h.next + 1)
  }

  function Deleted(h: Heap, p: nat): Heap {
    if p in h.live then h.(live := h.live - {p}, deleted := h.deleted + {p}) else h.(fault := true)
  }

  /** What operator= makes of the left-hand side; its old buffer is not deleted. */
  function Assigned(h: Heap, rhs: Str): (Heap, Str) {
    if rhs.size == 0 || rhs.ptr == 0 then (h, EMPTY)
    else if rhs.ptr !in h.live || |h.live[rhs.ptr]| < rhs.size + 1 then (h.(fault := true), EMPTY)
    else (Allocated(h, h.live[rhs.ptr][..rhs.size + 1]), Str(rhs.size, h.next))
  }

  /** string(str, size): the bytes, then a zero. */
  function FromBytes(h: Heap, bytes: string): (Heap, Str) {
    (Allocated(h, bytes + ['\0']), Str(|bytes|, h.next))
  }

  // ----------------------------------------------------------------- the object

  class CharHeap {
    var live: map<nat, string>
    var deleted: set<nat>
    var next: nat
    var fault: bool

    function State(): Heap
      reads this
    {
      Heap(live, deleted, next, fault)
    }

    constructor ()
      ensures State() == Heap(map[], {}, 1, false)
    {
      live, deleted, next, fault := map[], {}, 1, false;
    }

    method New(bytes: string) returns (p: nat)
      modifies this
      ensures p == old(next) && State() == Allocated(old(State()), bytes)
    {
      p := next;
      live := live[p := bytes];
      next := next + 1;
    }

    method Delete(p: nat)
      modifies this
      ensures State() == Deleted(old(State()), p)
    {
      if p in live {
        live, deleted := live - {p}, deleted + {p};
      } else {
        fault := true;
      }
    }
  }

  class String {
    var size_: nat
    var str_: nat

    function Value(): Str
      reads this
    {
      Str(size_, str_)
    }

    constructor ()
      ensures Value() == EMPTY
    {
      size_, str_ := 0, 0;
    }

    constructor FromChars(heap: CharHeap, bytes: string)
      modifies heap
      ensures (heap.State(), Value()) == FromBytes(old(heap.State()), bytes)
    {
      size_ := |bytes|;
      str_ := 0;
      new;
      str_ := heap.New(bytes + ['\0']);
    }

    method Assign(heap: CharHeap, rhs: String)
      modifies this, heap
      ensures if this == rhs then heap.State() == old(heap.State()) && Value() == old(Value())
              else (heap.State(), Value()) == Assigned(old(heap.State()), old(rhs.Value()))
    {
      if this == rhs {
        return;
      }
      if rhs.size_ == 0 || rhs.str_ == 0 {
        size_, str_ := 0, 0;
      } else if rhs.str_ !in heap.live || |heap.live[rhs.str_]| < rhs.size_ + 1 {
        heap.fault := true;  // memcpy from a dead or short buffer
        size_, str_ := 0, 0;
      } else {
        size_ := rhs.size_;
        str_ := heap.New(heap.live[rhs.str_][..size_ + 1]);
      }
    }

    constructor CopyOf(heap: CharHeap, rhs: String)
      modifies heap
      ensures (heap.State(), Value()) == Assigned(old(heap.State()), rhs.Value())
    {
      size_, str_ := 0, 0;
      new;
      Assign(heap, rhs);
    }

    method Destroy(heap: CharHeap)
      modifies heap
      ensures heap.State() == if str_ == 0 then old(heap.State()) else Deleted(old(heap.State()), str_)
    {
      if str_ != 0 {
        heap.Delete(str_);
      }
    }
  }

  // -------------------------------------------------------- a program's strings

  datatype State = State(strings: map<nat, Str>, heap: Heap)

  datatype Action =
    | Default(s: nat)
    | Construct(s: nat, bytes: string)
    | Copy(s: nat, from: nat)
    | Assign(s: nat, from: nat)
    | Destroy(s: nat)

  predicate Enabled(st: State, a: Action) {
    match a
    case Default(s) => s !in st.strings
    case Construct(s, bytes) => s !in st.strings
    case Copy(s, from) => s !in st.strings && from in st.strings
    case Assign(s, from) => s in st.strings && from in st.strings
    case Destroy(s) => s in st.strings
  }

  function Put(st: State, s: nat, made: (Heap, Str)): State {
    State(st.strings[s := made.1], made.0)
  }

  function Step(st: State, a: Action): State
    requires Enabled(st, a)
  {
    match a
    case Default(s) => Put(st, s, (st.heap, EMPTY))
    case Construct(s, bytes) => Put(st, s, FromBytes(st.heap, bytes))
    case Copy(s, from) => Put(st, s, Assigned(st.heap, st.strings[from]))
    case Assign(s, from) => if s == from then st else Put(st, s, Assigned(st.heap, st.strings[from]))
    case Destroy(s) =>
      var p := st.strings[s].ptr;
      State(st.strings - {s}, if p == 0 then st.heap else Deleted(st.heap, p))
  }

  /** The buffer behind a string is live, as long as it should be, and NUL-terminated. */
  predicate OwnsBuffer(h: Heap, s: Str) {
    if s.ptr == 0 then s.size == 0
    else s.ptr in h.live && |h.live[s.ptr]| == s.size + 1 && h.live[s.ptr][s.size] == '\0'
  }

  ghost predicate Inv(st: State) {
    && !st.heap.fault && st.heap.next > 0
    && (forall p | p in st.heap.live :: 0 < p < st.heap.next && p !in st.heap.deleted)
    && (forall p | p in st.heap.deleted :: p < st.heap.next)
    && (forall i | i in st.strings :: OwnsBuffer(st.heap, st.strings[i]))
    && (forall i, j | i in st.strings && j in st.strings && i != j && st.strings[i].ptr != 0 ::
          st.strings[i].ptr != st.strings[j].ptr)
  }

  /** The text of a string: its first `size_` bytes. */
  function Text(h: Heap, s: Str): string {
    if s.ptr in h.live && s.size <= |h.live[s.ptr]| then h.live[s.ptr][..s.size] else ""
  }

  /** A string without a buffer. */
  lemma EmptyKeepsInv(st: State, s: nat)
    requires Inv(st)
    ensures Inv(Put(st, s, (st.heap, EMPTY)))
  {
    var t := Put(st, s, (st.heap, EMPTY));
    forall i | i in t.strings ensures OwnsBuffer(t.heap, t.strings[i]) {
      assert i == s || OwnsBuffer(st.heap, st.strings[i]);
    }
  }

  /** A string with a buffer of its own. */
  lemma NewBufferKeepsInv(st: State, s: nat, bytes: string)
    requires Inv(st) && bytes != "" && bytes[|bytes| - 1] == '\0'
    ensures Inv(Put(st, s, (Allocated(st.heap, bytes), Str(|bytes| - 1, st.heap.next))))
  {
    var t := Put(st, s, (Allocated(st.heap, bytes), Str(|bytes| - 1, st.heap.next)));
    forall i | i in t.strings ensures OwnsBuffer(t.heap, t.strings[i]) {
      if i != s {
        assert OwnsBuffer(st.heap, st.strings[i]);
      }
    }
  }

  lemma AssignedKeepsInv(st: State, s: nat, from: nat)
    requires Inv(st) && from in st.strings
    ensures Inv(Put(st, s, Assigned(st.heap, st.strings[from])))
  {
    var rhs := st.strings[from];
    assert OwnsBuffer(st.heap, rhs);
    if rhs.size == 0 || rhs.ptr == 0 {
      EmptyKeepsInv(st, s);
    } else {
      var bytes := st.heap.live[rhs.ptr];
      assert bytes[..rhs.size + 1] == bytes;
      NewBufferKeepsInv(st, s, bytes);
    }
  }

  lemma DestroyKeepsInv(st: State, s: nat)
    requires Inv(st) && s in st.strings
    ensures Inv(Step(st, Destroy(s)))
  {
    var t := Step(st, Destroy(s));
    assert OwnsBuffer(st.heap, st.strings[s]);
    forall i | i in t.strings ensures OwnsBuffer(t.heap, t.strings[i]) {
      assert i != s && OwnsBuffer(st.heap, st.strings[i]);
    }
  }

  lemma StepKeepsInv(st: State, a: Action)
    requires Inv(st) && Enabled(st, a)
    ensures Inv(Step(st, a))
  {
    match a
    case Default(s) => EmptyKeepsInv(st, s);
    case Construct(s, bytes) => NewBufferKeepsInv(st, s, bytes + ['\0']);
    case Copy(s, from) => AssignedKeepsInv(st, s, from);
    case Assign(s, from) => if s != from { AssignedKeepsInv(st, s, from); }
    case Destroy(s) => DestroyKeepsInv(st, s);
  }

  /** A copy and an assigned string have the text of their source at that moment;
      the texts of all other strings stay what they were. */
  lemma StepTexts(st: State, a: Action)
    requires Inv(st) && Enabled(st, a)
    ensures var t := Step(st, a);
            && (forall i | i in t.strings && i != a.s ::
                  i in st.strings && Text(t.heap, t.strings[i]) == Text(st.heap, st.strings[i]))
            && (a.Default? ==> Text(t.heap, t.strings[a.s]) == "")
            && (a.Construct? ==> Text(t.heap, t.strings[a.s]) == a.bytes)
            && (a.Copy? || a.Assign? ==>
                  && t.strings[a.s].size == st.strings[a.from].size
                  && Text(t.heap, t.strings[a.s]) == Text(st.heap, st.strings[a.from]))
  {
  }

  ghost predicate IsRun(run: seq<State>, actions: seq<Action>) {
    && |run| == |actions| + 1
    && run[0] == State(map[], Heap(map[], {}, 1, false))
    && forall i | 0 <= i < |actions| :: Enabled(run[i], actions[i]) && run[i + 1] == Step(run[i], actions[i])
  }

  /** In every state of every run each string owns its buffer alone, and no buffer
      was read after its deletion or deleted twice. */
  lemma {:induction false} RunsAreSafe(run: seq<State>, actions: seq<Action>, i: nat)
    requires IsRun(run, actions) && i < |run|
    ensures Inv(run[i])
  {
    if i > 0 {
      RunsAreSafe(run, actions, i - 1);
      StepKeepsInv(run[i - 1], actions[i - 1]);
    }
  }

  /** What the copying buys: if one string were a bytewise copy of another, destroying both
      would delete a dead buffer exactly when they have one. */
  lemma BytewiseCopy(st: State, s: nat, from: nat)
    requires Inv(st) && s !in st.strings && from in st.strings
    ensures var shared := st.(strings := st.strings[s := st.strings[from]]);
            Step(Step(shared, Destroy(s)), Destroy(from)).heap.fault <==> st.strings[from].ptr != 0
  {
    assert OwnsBuffer(st.heap, st.strings[from]);
  }

  // --------------------------------------------------------------------- leaks

  function Owned(st: State): set<nat> {
    set i | i in st.strings && st.strings[i].ptr != 0 :: st.strings[i].ptr
  }

  /** Live buffers that no string will delete. */
  function Leaked(st: State): set<nat> {
    st.heap.live.Keys - Owned(st)
  }

  /** A step leaks exactly when it assigns another string to one that has a buffer:
      operator= forgets to delete it. */
  lemma OnlyAssignmentLeaks(st: State, a: Action)
    requires Inv(st) && Enabled(st, a)
    ensures Leaked(Step(st, a)) == Leaked(st) +
            if a.Assign? && a.s != a.from && st.strings[a.s].ptr != 0 then {st.strings[a.s].ptr} else {}
  {
    var t := Step(st, a);
    var lost := if a.Assign? && a.s != a.from && st.strings[a.s].ptr != 0 then {st.strings[a.s].ptr} else {};
    forall p ensures p in Leaked(t) <==> p in Leaked(st) + lost {
      if p in Owned(st) {
        var i :| i in st.strings && st.strings[i].ptr == p;
        assert i != a.s ==> t.strings[i].ptr == p;
      }
      if p in Owned(t) {
        var i :| i in t.strings && t.strings[i].ptr == p;
        assert i != a.s ==> st.strings[i].ptr == p;
      }
      if p == st.heap.next && p in t.heap.live {
        assert t.strings[a.s].ptr == p;
      }
    }
  }
}
