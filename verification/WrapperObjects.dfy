/** The wrapper class and the runtime it calls, as objects; a program over them
    takes exactly the steps of ReferenceCounting. */
module WrapperObjects {
  import opened ReferenceCounting

  const CL_SUCCESS := 0
  const CL_INVALID := -1

  class Runtime {
    var refs: map<Handle, nat>
    var fault: bool

    function State(): Counts
      reads this
    {
      Counts(refs, fault)
    }

    constructor ()
      ensures State() == Counts(map[], false)
    {
      refs, fault := map[], false;
    }

    /** clCreate*: a new object with one reference, or NULL. */
    method Create(h: Handle)
      modifies this
      ensures State() == if h == NULL then old(State()) else Counts(old(refs)[h := 1], old(fault))
    {
      if h != NULL {
        refs := refs[h := 1];
      }
    }

    method Retain(h: Handle) returns (err: int)
      modifies this
      ensures State() == Retained(old(State()), h)
      ensures err == CL_SUCCESS <==> h != NULL && Alive(old(State()), h)
    {
      if h == NULL {
        return CL_INVALID;
      }
      if h !in refs || refs[h] == 0 {
        fault := true;
        return CL_INVALID;
      }
      refs := refs[h := refs[h] + 1];
      return CL_SUCCESS;
    }

    method Release(h: Handle) returns (err: int)
      modifies this
      ensures State() == Released(old(State()), h)
      ensures err == CL_SUCCESS <==> h != NULL && Alive(old(State()), h)
    {
      if h == NULL {
        return CL_INVALID;
      }
      if h !in refs || refs[h] == 0 {
        fault := true;
        return CL_INVALID;
      }
      refs := refs[h := refs[h] - 1];
      return CL_SUCCESS;
    }
  }

  class Wrapper {
    var object_: Handle

    constructor (h: Handle)
      ensures object_ == h
    {
      object_ := h;
    }

    constructor CopyOf(rt: Runtime, rhs: Wrapper)
      modifies rt
      ensures object_ == rhs.object_
      ensures rt.State() == Retained(old(rt.State()), rhs.object_)
    {
      object_ := rhs.object_;
      new;
      if object_ != NULL {
        var _ := rt.Retain(object_);
      }
    }

    /** The destructor. */
    method Destroy(rt: Runtime)
      modifies rt
      ensures rt.State() == Released(old(rt.State()), object_)
    {
      if object_ != NULL {
        var _ := rt.Release(object_);
      }
    }

    /** Wrapper::operator=; `rhs` may be this very object. */
    method BaseAssign(rt: Runtime, rhs: Wrapper)
      modifies this, rt
      ensures object_ == old(rhs.object_)
      ensures rt.State() == Retained(Released(old(rt.State()), old(object_)), old(rhs.object_))
    {
      if object_ != NULL {
        var _ := rt.Release(object_);
      }
      object_ := rhs.object_;
      if object_ != NULL {
        var _ := rt.Retain(object_);
      }
    }

    /** The operator= of the derived classes. */
    method Assign(rt: Runtime, rhs: Wrapper)
      modifies this, rt
      ensures object_ == old(rhs.object_)
      ensures rt.State() == if this == rhs then old(rt.State())
                            else Retained(Released(old(rt.State()), old(object_)), old(rhs.object_))
    {
      if this != rhs {
        BaseAssign(rt, rhs);
      }
    }

    /** GetInfoHelper::get: a failing query writes nothing. */
    method Query(rt: Runtime, ok: bool, h: Handle) returns (err: int)
      modifies this, rt
      ensures object_ == if ok then h else old(object_)
      ensures rt.State() == if ok then Retained(old(rt.State()), h) else old(rt.State())
    {
      if !ok {
        return CL_INVALID;
      }
      object_ := h;
      err := rt.Retain(object_);
    }
  }

  /** A C++ program's wrapper objects, each under its own name. */
  class Program {
    const rt: Runtime
    var live: map<nat, Wrapper>
    var others: map<Handle, nat>

    ghost predicate Valid()
      reads this
    {
      forall i, j | i in live && j in live && i != j :: live[i] != live[j]
    }

    ghost function Objects(): set<object>
      reads this
    {
      {rt} + set i | i in live :: live[i]
    }

    function Held(): map<nat, Handle>
      reads this, set i | i in live :: live[i]
    {
      map i | i in live :: live[i].object_
    }

    function State(): ReferenceCounting.State
      reads this, rt, set i | i in live :: live[i]
    {
      ReferenceCounting.State(Held(), rt.State(), others)
    }

    /** A new object gets a name of its own. */
    method Name(w: nat, x: Wrapper)
      requires Valid() && w !in live && forall i | i in live :: live[i] != x
      modifies this`live
      ensures Valid() && live == old(live)[w := x]
      ensures Held() == old(Held())[w := x.object_]
      ensures Objects() == old(Objects()) + {x}
    {
      ghost var before := live;
      live := live[w := x];
      forall o: object ensures o in Objects() <==> o in old(Objects()) + {x} {
        if o == x {
          assert live[w] == x;
        } else if i :| i in before && before[i] == o {
          assert live[i] == o;
        }
      }
    }

    constructor ()
      ensures Valid() && State() == ReferenceCounting.State(map[], Counts(map[], false), map[])
      ensures fresh(Objects())
    {
      rt := new Runtime();
      live, others := map[], map[];
    }

    method NameNew(w: nat, h: Handle)
      requires Valid() && w !in live
      modifies this`live
      ensures Valid() && fresh(Objects() - old(Objects()))
      ensures Held() == old(Held())[w := h]
    {
      var x := new Wrapper(h);
      Name(w, x);
    }

    method Construct(w: nat, h: Handle)
      requires Valid() && Enabled(State(), Action.Construct(w, h))
      modifies this, rt
      ensures Valid() && fresh(Objects() - old(Objects()))
      ensures State() == Step(old(State()), Action.Construct(w, h))
    {
      NameNew(w, h);
      label named:
      rt.Create(h);
      if h != NULL {
        others := others - {h};
      }
      assert Held() == old@named(Held());
    }

    method Copy(w: nat, from: nat)
      requires Valid() && Enabled(State(), Action.Copy(w, from))
      modifies this, rt
      ensures Valid() && fresh(Objects() - old(Objects()))
      ensures State() == Step(old(State()), Action.Copy(w, from))
    {
      var x := new Wrapper.CopyOf(rt, live[from]);
      Name(w, x);
    }

    method Assign(w: nat, from: nat)
      requires Valid() && Enabled(State(), Action.Assign(w, from))
      modifies rt, live[w]
      ensures Valid() && Objects() == old(Objects())
      ensures State() == Step(old(State()), Action.Assign(w, from))
    {
      live[w].Assign(rt, live[from]);
    }

    method Destroy(w: nat)
      requires Valid() && Enabled(State(), Action.Destroy(w))
      modifies this, rt
      ensures Valid() && Objects() <= old(Objects())
      ensures State() == Step(old(State()), Action.Destroy(w))
    {
      live[w].Destroy(rt);
      live := live - {w};
    }

    /** A query into a new wrapper; no handle comes back when it fails. */
    method QueryNew(temp: nat, h: Handle)
      requires Valid() && temp !in live
      modifies this, rt
      ensures Valid() && fresh(Objects() - old(Objects()))
      ensures State() == QueriedInto(old(State()), temp, h)
    {
      var param := new Wrapper(NULL);
      var _ := param.Query(rt, h != NULL, h);
      Name(temp, param);
    }

    /** `getInfo<name>()`: query into a fresh local, return a copy, destroy the local. */
    method GetInfo(w: nat, temp: nat, h: Handle)
      requires Valid() && Enabled(State(), Action.GetInfo(w, temp, h))
      modifies this, rt
      ensures Valid() && fresh(Objects() - old(Objects()))
      ensures State() == Step(old(State()), Action.GetInfo(w, temp, h))
    {
      QueryNew(temp, h);
      Copy(w, temp);
      Destroy(temp);
    }
  }
}
