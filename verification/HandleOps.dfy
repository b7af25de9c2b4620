/** The handle operations as the headers perform them, on the bytes of erased objects and the heap of
    one process.  Reading every object in place gives a state of `Ownership`, and each method is
    proved to take the step `Ownership.Step` says.  The guards compare the sizes of padded objects. */
module HandleOps {
  import opened Codes
  import opened Erasure
  import opened ErasedCopy
  import opened Ownership
  import opened InPlace

  /** What the objects hold; `strays` are the objects whose address a move has cut. */
  function Handles(objects: map<Slot, StatusObject>, strays: set<Slot>): (h: map<Slot, Handle>)
    ensures h.Keys == objects.Keys
  {
    map d | d in objects :: HandleIn(objects[d], d in strays)
  }

  lemma HandlesOfUpdate(objects: map<Slot, StatusObject>, strays: set<Slot>, d: Slot, o: StatusObject)
    ensures Handles(objects[d := o], strays - {d}) == Handles(objects, strays)[d := HandleOf(o)]
    ensures Handles(objects[d := o], strays + {d}) == Handles(objects, strays)[d := HandleIn(o, true)]
  {}

  lemma HandlesOfRemoval(objects: map<Slot, StatusObject>, strays: set<Slot>, d: Slot)
    ensures Handles(objects - {d}, strays) == Handles(objects, strays) - {d}
  {}

  lemma RemoveThenStore(h: map<Slot, Handle>, d: Slot, x: Handle)
    ensures (h - {d})[d := x] == h[d := x]
  {}

  lemma HandOverAfterRemoval(s0: Ownership.State, s1: Ownership.State, d: Slot, r: Slot, cut: ValueCode)
    requires d in s0.slots && r in s0.slots && d != r
    requires s1 == CountOverwrite(s0, d).(slots := s0.slots - {d})
    ensures HandOver(s1, d, s0.slots[d].width, r, cut) == Assigned(s0, d, r, cut)
  {
    RemoveThenStore(s0.slots, d, Arrives(s0.slots[r], s0.slots[d].width, cut));
  }

  lemma SourceAlive(s: Ownership.State, d: Slot)
    requires Inv(s) && d in s.slots
    ensures s.slots[d].Owner? ==> s.slots[d].payload in s.payloads
  {
    if s.slots[d].Owner? { assert d in Owners(s); }
  }

  /** Any code will do for what a cut reads when asking whether an operation is enabled. */
  const ANY: ValueCode := Generic(SUCCESS)

  class Process {
    var objects: map<Slot, StatusObject>
    var payloads: map<Addr, Code>   // constructed payloads
    var raw: set<Addr>              // blocks with no payload constructed in them
    var allocations: nat
    var releases: nat
    ghost var lost: nat
    ghost var strays: set<Slot>

    ghost function Abs(): Ownership.State
      reads this
    {
      Ownership.State(Handles(objects, strays), payloads, allocations, releases, lost)
    }

    ghost predicate Valid()
      reads this
    {
      Inv(Abs()) && raw == {}
    }

    constructor ()
      ensures Valid() && Abs() == INITIAL
    {
      objects, payloads, raw, allocations, releases := map[], map[], {}, 0, 0;
      lost, strays := 0, {};
      new;
      assert Abs() == INITIAL && raw == {};
      assert Inv(Abs()) by { InitialInv(); }
    }

    // ------------------------------------------------------------- allocator

    method Allocate(at: Addr, throws: bool) returns (ok: bool)
      requires at !in payloads && at !in raw
      modifies `raw, `allocations
      ensures ok == !throws
      ensures raw == (if ok then old(raw) + {at} else old(raw))
      ensures allocations == old(allocations) + (if ok then 1 else 0)
    {
      if throws {
        return false;
      }
      raw, allocations := raw + {at}, allocations + 1;
      return true;
    }

    method ConstructPayload(at: Addr, c: Code, throws: bool) returns (ok: bool)
      requires at in raw
      modifies `raw, `payloads
      ensures ok == !throws
      ensures raw == (if ok then old(raw) - {at} else old(raw))
      ensures payloads == (if ok then old(payloads)[at := c] else old(payloads))
    {
      if throws {
        return false;
      }
      raw, payloads := raw - {at}, payloads[at := c];
      return true;
    }

    method DestroyPayload(at: Addr)
      requires at in payloads
      modifies `raw, `payloads
      ensures raw == old(raw) + {at} && payloads == old(payloads) - {at}
    {
      raw, payloads := raw + {at}, payloads - {at};
    }

    method Deallocate(at: Addr)
      requires at in raw
      modifies `raw, `releases
      ensures raw == old(raw) - {at} && releases == old(releases) + 1
    {
      raw, releases := raw - {at}, releases + 1;
    }

    // ---------------------------------------------------------- construction

    /** An object written whole, which holds `h`: what its bytes say, or a cut address. */
    method PutAs(dst: Slot, o: StatusObject, ghost h: Handle)
      requires h == HandleOf(o) || h == HandleIn(o, true)
      modifies `objects, `strays
      ensures objects == old(objects)[dst := o]
      ensures Handles(objects, strays) == Handles(old(objects), old(strays))[dst := h]
    {
      HandlesOfUpdate(objects, strays, dst, o);
      objects := objects[dst := o];
      strays := if h == HandleOf(o) then strays - {dst} else strays + {dst};
    }

    method Put(dst: Slot, o: StatusObject)
      modifies `objects, `strays
      ensures objects == old(objects)[dst := o]
      ensures Handles(objects, strays) == Handles(old(objects), old(strays))[dst := HandleOf(o)]
    {
      PutAs(dst, o, HandleOf(o));
    }

    method ConstructEmpty(dst: Slot, e: IntType, padding: seq<Byte>)
      requires Valid() && Enabled(Abs(), Op.ConstructEmpty(dst, e.width)) && Pads(padding, e)
      modifies `objects, `strays
      ensures Valid()
      ensures Running(Abs()) == Step(old(Abs()), Op.ConstructEmpty(dst, e.width))
      ensures dst in objects && objects[dst].layout == e
    {
      StepKeepsInv(Abs(), Op.ConstructEmpty(dst, e.width));
      Put(dst, EmptyObject(e, padding));
    }

    /** A typed code erased into a value of type `e`; with `e` the value's own type, a typed code.  The
        guard accepts every value type whose padded object is not larger. */
    method ConstructErased(dst: Slot, form: Form, e: IntType, t: IntType, c: ValueCode, padding: seq<Byte>)
      requires Valid() && Enabled(Abs(), Op.ConstructValue(dst, e.width, t.width, c, ANY))
      requires InRange(t, ValueOf(c)) && Pads(padding, e)
      modifies `objects, `strays
      ensures Valid() && dst in objects && objects[dst].layout == e
      ensures Running(Abs()) == Step(old(Abs()), Op.ConstructValue(dst, e.width, t.width, c, ReadIn(objects[dst])))
    {
      var x := Erase(form, e, t, c, padding);
      StepKeepsInv(Abs(), Op.ConstructValue(dst, e.width, t.width, c, ReadIn(x)));
      ErasedReadsBack(form, e, t, c, padding);
      Put(dst, x);
    }

    /** A typed code from an erased code of its domain: the value cast, the source kept. */
    method ConstructTyped(dst: Slot, form: Form, src: Slot, padding: seq<Byte>)
      requires Valid() && Enabled(Abs(), Op.CopyConstruct(dst, src, ANY))
      requires objects[src].held.domain.ByteCopied? && Pads(padding, objects[src].held.domain.layout)
      modifies `objects, `strays
      ensures Valid() && dst in objects
      ensures Running(Abs()) == Step(old(Abs()), Op.CopyConstruct(dst, src, ReadIn(objects[dst])))
    {
      var t := objects[src].held.domain.layout;
      var x := Cast(form, t, objects[src], padding);
      StepKeepsInv(Abs(), Op.CopyConstruct(dst, src, ReadIn(x)));
      CastArrives(form, t, objects[src], padding);
      Put(dst, x);
    }

    /** The copy of a typed code, its bytes as they are. */
    method CopyTyped(dst: Slot, src: Slot)
      requires Valid() && Enabled(Abs(), Op.CopyConstruct(dst, src, ANY))
      requires TypedWidth(Abs().slots[src]) == objects[src].layout.width
      modifies `objects, `strays
      ensures Valid()
      ensures Running(Abs()) == Step(old(Abs()), Op.CopyConstruct(dst, src, ANY))
    {
      StepKeepsInv(Abs(), Op.CopyConstruct(dst, src, ANY));
      Put(dst, objects[src]);
    }

    method MakeNested(dst: Slot, c: Code, at: Addr, build: Build) returns (thrown: bool)
      requires Valid() && Enabled(Abs(), Op.MakeNested(dst, c, at, build)) && InRange(ADDRESS, at)
      modifies this
      ensures Valid() && thrown == !build.Built?
      ensures Running(Abs()) == Step(old(Abs()), Op.MakeNested(dst, c, at, build))
    {
      StepKeepsInv(Abs(), Op.MakeNested(dst, c, at, build));
      thrown := Nest(dst, c, at, build);
    }

    method Nest(dst: Slot, c: Code, at: Addr, build: Build) returns (thrown: bool)
      requires raw == {} && at !in payloads && InRange(ADDRESS, at)
      modifies this
      ensures raw == {} && thrown == !build.Built?
      ensures Abs() == Wrapped(old(Abs()), dst, c, at, build)
    {
      var p := Allocate(at, build.AllocationThrows?);
      if !p {
        return true;
      }
      var ok := ConstructPayload(at, c, build.ConstructionThrows?);
      if !ok {
        Deallocate(at);
        return true;
      }
      AddressIsThere(ADDRESS, at, []);
      Put(dst, PlaceAddress(ADDRESS, at, []));
      return false;
    }

    // ------------------------------------------------------------------ move

    /** Move construction, or conversion from another erased type: the value is cast, the padding is
        not carried, and the source's domain pointer is nulled. */
    method MoveConstruct(dst: Slot, form: Form, e: IntType, src: Slot, padding: seq<Byte>)
      requires dst !in objects && src in objects && Pads(padding, e)
      requires Convertible(objects[src].layout.width, e.width)
      modifies `objects, `strays, `lost
      ensures objects.Keys == old(objects).Keys + {dst}
      ensures objects[dst] == Cast(form, e, old(objects)[src], padding)
      ensures Abs() == HandOver(old(Abs()), dst, e.width, src, ReadIn(objects[dst]))
    {
      ghost var h := Handles(objects, strays)[src];
      MoveBytes(dst, form, e, src, padding);
      if h.Owner? && !Fits(h, e.width) {
        lost := lost + 1;
      }
    }

    method MoveBytes(dst: Slot, form: Form, e: IntType, src: Slot, padding: seq<Byte>)
      requires dst !in objects && src in objects && Pads(padding, e)
      requires Convertible(objects[src].layout.width, e.width)
      modifies `objects, `strays
      ensures objects.Keys == old(objects).Keys + {dst}
      ensures objects[dst] == Cast(form, e, old(objects)[src], padding)
      ensures var h := Handles(old(objects), old(strays));
        Handles(objects, strays) == h[dst := Arrives(h[src], e.width, ReadIn(objects[dst]))][src := Null(h[src].width)]
    {
      var o: StatusObject := objects[src];
      var moved := Cast(form, e, o, padding);
      ghost var h := Handles(objects, strays)[src];
      CastArrivesOrCuts(form, e, o, padding, h);
      PutAs(dst, moved, Arrives(h, e.width, ReadIn(moved)));
      Put(src, Nulled(o));
    }

    /** Move construction as a step of its own. */
    method Convert(dst: Slot, form: Form, e: IntType, src: Slot, padding: seq<Byte>)
      requires Valid() && Enabled(Abs(), Op.MoveConstruct(dst, e.width, src, ANY)) && Pads(padding, e)
      modifies `objects, `strays, `lost
      ensures Valid() && dst in objects && objects[dst] == Cast(form, e, old(objects)[src], padding)
      ensures Running(Abs()) == Step(old(Abs()), Op.MoveConstruct(dst, e.width, src, ReadIn(objects[dst])))
    {
      ghost var s0 := Abs();
      MoveConstruct(dst, form, e, src, padding);
      StepKeepsInv(s0, Op.MoveConstruct(dst, e.width, src, ReadIn(objects[dst])));
    }

    /** `this->~status_code_storage()`: the value's destructor is trivial, and the erased destructor
        is not run. */
    method DestructStorage(dst: Slot)
      requires dst in objects
      modifies `objects, `lost
      ensures objects == old(objects) - {dst}
      ensures lost == old(CountOverwrite(Abs(), dst)).lost
    {
      if objects[dst].held.domain == Indirecting && dst !in strays {
        lost := lost + 1;
      }
      objects := objects - {dst};
    }

    method MoveAssign(dst: Slot, src: Slot, padding: seq<Byte>)
      requires Valid() && Enabled(Abs(), Op.MoveAssign(dst, src, ANY))
      requires objects[dst].layout == objects[src].layout && Pads(padding, objects[src].layout)
      modifies `objects, `strays, `lost
      ensures Valid() && dst in objects
      ensures objects[dst] == Cast(Widened, old(objects)[src].layout, old(objects)[src], padding)
      ensures Running(Abs()) == Step(old(Abs()), Op.MoveAssign(dst, src, ReadIn(objects[dst])))
    {
      ghost var s0 := Abs();
      Replace(dst, src, padding);
      StepKeepsInv(s0, Op.MoveAssign(dst, src, ReadIn(objects[dst])));
    }

    method Replace(dst: Slot, src: Slot, padding: seq<Byte>)
      requires dst in objects && src in objects && dst != src
      requires objects[dst].layout == objects[src].layout && Pads(padding, objects[src].layout)
      modifies `objects, `strays, `lost
      ensures objects.Keys == old(objects).Keys
      ensures objects[dst] == Cast(Widened, old(objects)[src].layout, old(objects)[src], padding)
      ensures Abs() == Assigned(old(Abs()), dst, src, ReadIn(objects[dst]))
    {
      ghost var s0, h := Abs(), Handles(objects, strays);
      var e := objects[src].layout;
      HandlesOfRemoval(objects, strays, dst);
      DestructStorage(dst);
      ghost var s1 := Abs();
      assert s1 == CountOverwrite(s0, dst).(slots := h - {dst});
      MoveConstruct(dst, Widened, e, src, padding);
      HandOverAfterRemoval(s0, s1, dst, src, ReadIn(objects[dst]));
    }

    /** `*this = status_code()`, whose temporary is empty. */
    method Clear(dst: Slot, padding: seq<Byte>)
      requires Valid() && Enabled(Abs(), Op.Clear(dst)) && Pads(padding, objects[dst].layout)
      modifies `objects, `strays, `lost
      ensures Valid()
      ensures Running(Abs()) == Step(old(Abs()), Op.Clear(dst))
    {
      StepKeepsInv(Abs(), Op.Clear(dst));
      Empty(dst, padding);
    }

    method Empty(dst: Slot, padding: seq<Byte>)
      requires dst in objects && Pads(padding, objects[dst].layout)
      modifies `objects, `strays, `lost
      ensures Abs() == Cleared(old(Abs()), dst)
    {
      var e := objects[dst].layout;
      HandlesOfRemoval(objects, strays, dst);
      RemoveThenStore(Handles(objects, strays), dst, Null(e.width));
      DestructStorage(dst);
      Put(dst, EmptyObject(e, padding));
    }

    // ------------------------------------------------------------------ copy

    /** `_do_erased_copy` of an indirecting domain, after its size check.  Throwing from the
        allocation leaves a noexcept function. */
    method CopyNested(dst: Slot, e: IntType, from: Addr, at: Addr, build: Build, padding: seq<Byte>)
        returns (errcode: int, terminated: bool)
      requires from in payloads && at !in payloads && at !in raw
      requires ADDRESS.width <= Room(e.width) && InRange(ADDRESS, at) && Pads(padding, e)
      modifies `objects, `strays, `payloads, `raw, `allocations, `releases
      ensures raw == old(raw)
      ensures terminated == build.AllocationThrows?
      ensures build.ConstructionThrows? ==>
        errcode != 0 && Abs() == Undone(old(Abs())) && objects == old(objects) && strays == old(strays)
      ensures build.Built? ==> errcode == 0 && Abs() == Own(old(Abs()), dst, e.width, at, old(payloads[from]))
      ensures build.Built? ==> dst in objects && objects[dst].layout == e
    {
      var p := Allocate(at, build.AllocationThrows?);
      if !p {
        return 0, true;
      }
      var ok := ConstructPayload(at, payloads[from], build.ConstructionThrows?);
      if !ok {
        Deallocate(at);
        return 12, false;   // ENOMEM
      }
      AddressIsThere(e, at, padding);
      Put(dst, PlaceAddress(e, at, padding));
      return 0, false;
    }

    /** The process ends exactly when the source owns a payload and the copy's is not built. */
    method Clone(dst: Slot, src: Slot, at: Addr, build: Build, padding: seq<Byte>) returns (terminated: bool)
      requires Valid() && Enabled(Abs(), Op.Clone(dst, src, at, build)) && InRange(ADDRESS, at)
      requires !FollowsStray(Abs(), Op.Clone(dst, src, at, build)) && Pads(padding, objects[src].layout)
      modifies this
      ensures terminated <==> old(objects[src].held.domain).Indirecting? && !build.Built?
      ensures !terminated ==> Valid() && Running(Abs()) == Step(old(Abs()), Op.Clone(dst, src, at, build))
    {
      StepKeepsInv(Abs(), Op.Clone(dst, src, at, build));
      var o: StatusObject := objects[src];
      match o.held.domain {
        case NoDomain =>
          Put(dst, EmptyObject(o.layout, padding));
        case ByteCopied(_, _) =>
          CopyReadsTheSame(o.layout, o, padding);
          Put(dst, ByteCopy(o.layout, o, padding));
        case Indirecting =>
          assert src in Owners(Abs());
          var from := FromBytes(Truncate(o.held.value, ADDRESS.width));
          var errcode, gone := CopyNested(dst, o.layout, from, at, build, padding);
          if gone || errcode != 0 {
            return true;   // std::terminate, or SYSTEM_ERROR2_FATAL
          }
      }
      return false;
    }

    /** Tagged copy construction.  The source is refused when its unpadded object is larger than the
        padded destination; the process ends exactly when a payload not refused is not allocated. */
    method NothrowCopy(dst: Slot, e: IntType, src: Slot, at: Addr, build: Build, padding: seq<Byte>)
        returns (terminated: bool)
      requires Valid() && Enabled(Abs(), Op.NothrowCopy(dst, e.width, src, at, build)) && InRange(ADDRESS, at)
      requires !FollowsStray(Abs(), Op.NothrowCopy(dst, e.width, src, at, build)) && Pads(padding, e)
      modifies this
      ensures var nested := old(objects[src].held.domain).Indirecting?;
        terminated <==> nested && DOMAIN_SIZE + ADDRESS.width <= ObjectSize(e.width) && build.AllocationThrows?
      ensures !terminated ==> Valid() && dst in objects && objects[dst].layout == e
      ensures !terminated ==> Running(Abs()) == Step(old(Abs()), Op.NothrowCopy(dst, e.width, src, at, build))
    {
      StepKeepsInv(Abs(), Op.NothrowCopy(dst, e.width, src, at, build));
      SourceAlive(Abs(), src);
      terminated := CopyOrRefuse(dst, e, src, at, build, padding);
    }

    method CopyOrRefuse(dst: Slot, e: IntType, src: Slot, at: Addr, build: Build, padding: seq<Byte>)
        returns (terminated: bool)
      requires src in objects && at !in payloads && raw == {} && InRange(ADDRESS, at) && Pads(padding, e)
      requires var h := Handles(objects, strays)[src];
        (h.Owner? ==> h.payload in payloads) && (h.Stray? ==> TooLarge(ADDRESS.width, e.width))
      modifies this
      ensures var p := old(objects[src].held.domain);
        terminated <==> p.Indirecting? && !TooLarge(ADDRESS.width, e.width) && build.AllocationThrows?
      ensures !terminated ==> raw == {} && dst in objects && objects[dst].layout == e
      ensures !terminated ==> Running(Abs()) == NothrowCopied(old(Abs()), dst, e.width, src, at, build)
    {
      if ObjectSize(e.width) < DOMAIN_SIZE + PayloadWidth(objects[src].held.domain) {
        Put(dst, EmptyObject(e, padding));
        terminated := false;
      } else {
        terminated := CopyInto(dst, e, src, at, build, padding);
      }
    }

    /** The copy of a source that is not refused. */
    method CopyInto(dst: Slot, e: IntType, src: Slot, at: Addr, build: Build, padding: seq<Byte>)
        returns (terminated: bool)
      requires src in objects && at !in payloads && raw == {} && InRange(ADDRESS, at)
      requires !Handles(objects, strays)[src].Stray?
      requires !TooLarge(PayloadWidth(objects[src].held.domain), e.width) && Pads(padding, e)
      requires HandleOf(objects[src]).Owner? ==> HandleOf(objects[src]).payload in payloads
      modifies this
      ensures raw == {} && (terminated <==> old(objects[src].held.domain).Indirecting? && build.AllocationThrows?)
      ensures !terminated ==> dst in objects && objects[dst].layout == e
      ensures !terminated ==> Running(Abs()) == NothrowCopied(old(Abs()), dst, e.width, src, at, build)
    {
      var o: StatusObject := objects[src];
      if o.held.domain != Indirecting {
        CopyReadsTheSame(e, o, padding);
        Put(dst, ByteCopy(e, o, padding));
        return false;
      }
      var errcode;
      errcode, terminated := CopyNested(dst, e, FromBytes(Truncate(o.held.value, ADDRESS.width)), at, build, padding);
      if !terminated && errcode != 0 {
        Put(dst, EmptyObject(e, padding));
      }
    }

    // --------------------------------------------------------------- destroy

    /** The erased destructor: a non-null domain destroys the value. */
    method Destroy(dst: Slot)
      requires Valid() && Enabled(Abs(), Op.Destroy(dst)) && !FollowsStray(Abs(), Op.Destroy(dst))
      modifies this
      ensures Valid()
      ensures Running(Abs()) == Step(old(Abs()), Op.Destroy(dst))
    {
      StepKeepsInv(Abs(), Op.Destroy(dst));
      if objects[dst].held.domain == Indirecting { assert dst in Owners(Abs()); }
      Release(dst);
    }

    method Release(dst: Slot)
      requires raw == {} && dst in objects && !Handles(objects, strays)[dst].Stray?
      requires HandleOf(objects[dst]).Owner? ==> HandleOf(objects[dst]).payload in payloads
      modifies this
      ensures raw == {} && Running(Abs()) == Destroyed(old(Abs()), dst)
    {
      ghost var s0 := Abs();
      if objects[dst].held.domain == Indirecting {
        FreePayload(FromBytes(Truncate(objects[dst].held.value, ADDRESS.width)));
      }
      Remove(dst);
      assert Abs().slots == s0.slots - {dst};
    }

    method FreePayload(at: Addr)
      requires raw == {} && at in payloads
      modifies `raw, `payloads, `releases
      ensures raw == {} && payloads == old(payloads) - {at} && releases == old(releases) + 1
    {
      DestroyPayload(at);
      Deallocate(at);
    }

    method Remove(dst: Slot)
      modifies `objects
      ensures objects == old(objects) - {dst}
      ensures Handles(objects, strays) == Handles(old(objects), strays) - {dst}
    {
      HandlesOfRemoval(objects, strays, dst);
      objects := objects - {dst};
    }
  }
}
