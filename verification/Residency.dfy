/** Residency of guest contexts: a thread's registers are in its save area or in a native core,
    and behave like one register file wherever they are. */
module Residency {
  import opened Canonical
  import opened GuestRegisters

  /** A native core. */
  class Native {
    var owned: bool
    var exclusive: bool
    var registers: A64State

    constructor (registers: A64State)
      requires registers.Valid()
      ensures !owned && !exclusive && this.registers == registers
    {
      owned, exclusive := false, false;
      this.registers := registers;
    }
  }

  datatype Storage = Saved | Resident(core: Native) | Unavailable

  datatype StateError = StateUnavailable | CoreOwned

  /** A core is marked owned exactly when one thread is resident on it. */
  ghost predicate System(threads: set<ThreadState>, cores: set<Native>)
    reads threads, cores
  {
    && (forall c :: c in cores ==> c.registers.Valid())
    && (forall t :: t in threads ==> t.saved.Valid())
    && (forall t :: t in threads && t.storage.Resident? ==> t.storage.core in cores && t.storage.core.owned)
    && (forall t, u :: t in threads && u in threads && t != u && t.storage.Resident? && u.storage.Resident? ==>
          t.storage.core != u.storage.core)
    && (forall c :: c in cores && c.owned ==> exists t :: t in threads && t.storage == Resident(c))
  }

  /** Every thread but those listed is as available as before and observes the same registers. */
  twostate predicate Undisturbed(threads: set<ThreadState>, except: set<ThreadState>)
    reads threads, set t | t in threads, o | o in t.Footprint() :: o
  {
    forall t :: t in threads && t !in except ==>
      t.Available() == old(t.Available()) && t.Registers() == old(t.Registers())
  }

  /** One exclusive register owner. */
  class ThreadState {
    var storage: Storage
    var saved: A64State

    constructor (saved: A64State)
      requires saved.Valid()
      ensures storage == Saved && this.saved == saved
    {
      storage := Saved;
      this.saved := saved;
    }

    predicate Available()
      reads this
    {
      !storage.Unavailable?
    }

    ghost function Footprint(): set<object>
      reads this
    {
      if storage.Resident? then {storage.core} else {}
    }

    /** The register file that reads and writes observe. */
    ghost function Registers(): A64State
      reads this, Footprint()
    {
      if storage.Resident? then storage.core.registers else saved
    }

    /** Copies resident registers to the save area and releases the core. */
    method Release()
      requires Available()
      modifies this, Footprint()
      ensures storage == Saved && saved == old(Registers())
      ensures old(storage).Resident? ==>
        var core := old(storage).core;
        !core.owned && core.registers == old(core.registers) && core.exclusive == old(core.exclusive)
    {
      if storage.Resident? {
        saved := storage.core.registers;
        storage.core.owned := false;
      }
      storage := Saved;
    }

    /** Moves the registers back to the save area. */
    method Materialize(ghost threads: set<ThreadState>, ghost cores: set<Native>)
      requires System(threads, cores) && this in threads && Available()
      modifies this, Footprint()
      ensures System(threads, cores) && storage == Saved && Undisturbed(threads, {})
      ensures old(storage).Resident? ==> old(storage).core.exclusive == old(storage.core.exclusive)
    {
      hide A64State.Valid;
      Release();
    }

    /** Gives up the core and its local reservation. */
    method LeaveCore(ghost threads: set<ThreadState>, ghost cores: set<Native>)
      requires System(threads, cores) && this in threads && Available()
      modifies this, Footprint()
      ensures System(threads, cores) && storage == Saved && Undisturbed(threads, {})
      ensures old(storage).Resident? ==> !old(storage).core.exclusive
    {
      hide A64State.Valid;
      if storage.Resident? { storage.core.exclusive := false; }
      Materialize(threads, cores);
    }

    /** Claims an unowned core, leaves the old one and loads the registers. */
    method MoveTo(core: Native)
      requires Available() && storage != Resident(core) && !core.owned && Registers().Valid()
      modifies this, Footprint(), core
      ensures storage == Resident(core) && core.owned && core.registers == old(Registers()) && saved.Valid()
      ensures old(storage).Resident? ==>
        var left := old(storage).core;
        !left.owned && !left.exclusive && left.registers == old(left.registers)
    {
      core.owned := true;
      if storage.Resident? { storage.core.exclusive := false; }
      Release();
      core.registers := saved;
      storage := Resident(core);
    }

    /** Makes the thread resident on a core that no other thread holds. */
    method Select(core: Native, ghost threads: set<ThreadState>, ghost cores: set<Native>)
      returns (r: Result<(), StateError>)
      requires System(threads, cores) && this in threads && core in cores
      modifies this, Footprint(), core
      ensures System(threads, cores) && Undisturbed(threads, {})
      ensures r.Ok? <==> old(Available()) && (old(storage) == Resident(core) || !old(core.owned))
      ensures r.Ok? ==> storage == Resident(core) && core.owned
      ensures r.Ok? && old(storage).Resident? && old(storage).core != core ==>
        !old(storage).core.owned && !old(storage).core.exclusive
      ensures r.Err? ==> storage == old(storage) && core.owned == old(core.owned)
    {
      hide A64State.Valid;
      if storage == Resident(core) { return Ok(()); }
      if storage.Unavailable? { return Err(StateUnavailable); }
      if core.owned { return Err(CoreOwned); }
      assert forall t :: t in threads ==> t.storage != Resident(core);
      MoveTo(core);
      r := Ok(());
    }

    /** A full copy of the registers; residency is kept. */
    method Snapshot() returns (state: A64State)
      requires Available()
      ensures state == Registers()
    {
      state := if storage.Resident? then storage.core.registers else saved;
    }

    /** Gives up the registers for good. */
    method Discard(ghost threads: set<ThreadState>, ghost cores: set<Native>)
      requires System(threads, cores) && this in threads
      modifies this, Footprint()
      ensures System(threads, cores) && !Available() && Undisturbed(threads, {this})
    {
      hide A64State.Valid;
      if storage.Resident? { storage.core.owned := false; }
      storage := Unavailable;
    }

    /** Reads a register where it is. */
    method Read(register: Register) returns (value: U64)
      requires Available() && register.Valid() && Registers().Valid()
      ensures value == Get(Registers(), register)
    {
      if register.Zero? { return 0; }
      if storage.Resident? {
        NumbersAgree(storage.core.registers, register, Get(storage.core.registers, register));
        value := NativeRead(storage.core.registers, register.Number());
      } else {
        value := Get(saved, register);
      }
    }

    /** Writes a register where it is. */
    method Write(register: Register, value: U64, ghost threads: set<ThreadState>, ghost cores: set<Native>)
      requires System(threads, cores) && this in threads && Available() && register.Valid() && register.Holds(value)
      modifies this`saved, Footprint()
      ensures System(threads, cores) && Undisturbed(threads, {this}) && storage == old(storage)
      ensures Registers() == Set(old(Registers()), register, value)
    {
      if register.Zero? { return; }
      if storage.Resident? {
        NumbersAgree(storage.core.registers, register, value);
        storage.core.registers := NativeWrite(storage.core.registers, register.Number(), value);
      } else {
        saved := Set(saved, register, value);
      }
    }

    method ReadVector(index: nat) returns (value: Option<U128>)
      requires Available() && Registers().Valid()
      ensures value == if index < 32 then Some(Wide(Registers().vectors[index])) else None
    {
      if 32 <= index { return None; }
      var lanes := if storage.Resident? then storage.core.registers.vectors[index] else saved.vectors[index];
      value := Some(Wide(lanes));
    }

    method WriteVector(index: nat, value: U128, ghost threads: set<ThreadState>, ghost cores: set<Native>)
      returns (written: bool)
      requires System(threads, cores) && this in threads && Available()
      modifies this`saved, Footprint()
      ensures System(threads, cores) && Undisturbed(threads, {this}) && storage == old(storage)
      ensures written <==> index < 32
      ensures Registers() == if written then WithVector(old(Registers()), index, value) else old(Registers())
    {
      if 32 <= index { return false; }
      if storage.Resident? {
        var core := storage.core;
        core.registers := core.registers.(vectors := core.registers.vectors[index := Split(value)]);
      } else {
        saved := saved.(vectors := saved.vectors[index := Split(value)]);
      }
      written := true;
    }

    /** Guest code ran on the core and left these registers. */
    method Executed(after: A64State, ghost threads: set<ThreadState>, ghost cores: set<Native>)
      requires System(threads, cores) && this in threads && storage.Resident? && after.Valid()
      modifies Footprint()
      ensures System(threads, cores) && Undisturbed(threads, {this}) && storage == old(storage)
      ensures Registers() == after
    {
      storage.core.registers := after;
    }
  }

  function WithVector(s: A64State, index: nat, value: U128): A64State
    requires index < |s.vectors|
  {
    s.(vectors := s.vectors[index := Split(value)])
  }

  /** The written vector is read back, and the others are kept. */
  lemma VectorReadsBack(s: A64State, index: nat, value: U128, other: nat)
    requires s.Valid() && index < 32 && other < 32
    ensures Wide(WithVector(s, index, value).vectors[other]) == if other == index then value else Wide(s.vectors[other])
  {
    SplitWide(s.vectors[other], value);
  }

  /** Threads on different cores, and the cores that hold nobody. */
  lemma OwnersAreUnique(threads: set<ThreadState>, cores: set<Native>, c: Native)
    requires System(threads, cores) && c in cores
    ensures c.owned <==> exists t :: t in threads && t.storage == Resident(c)
    ensures forall t, u :: t in threads && u in threads && t.storage == Resident(c) && u.storage == Resident(c) ==> t == u
  {
  }

  /** A new owner of a copy is never resident, so it changes nobody's residency. */
  method Clone(t: ThreadState, ghost threads: set<ThreadState>, ghost cores: set<Native>) returns (copy: ThreadState)
    requires System(threads, cores) && t in threads && t.Available()
    ensures fresh(copy) && copy.storage == Saved && copy.Registers() == t.Registers()
    ensures System(threads + {copy}, cores)
  {
    var state := t.Snapshot();
    copy := new ThreadState(state);
  }
}
