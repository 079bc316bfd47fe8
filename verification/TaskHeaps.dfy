/** Creating and destroying tasks, seen from their memory: each task's structure, local storage and
    stack live in its private heap. */
module TaskHeaps {
  import opened Wrappers
  import opened BuddySpec
  import opened HeapSlots

  /** The addresses a task's record holds. */
  datatype TaskMem = TaskMem(task: int, tls: int, sp: int)

  predicate Recorded(m: TaskMem, p: int) { p == m.task || p == m.tls || p == m.sp }

  /** The three blocks are different and live in the task's own heap. */
  predicate Held(t: Table, id: nat, m: TaskMem) {
    Owns(t, id, m.task) && Owns(t, id, m.tls) && Owns(t, id, m.sp) &&
    m.task != m.tls && m.task != m.sp && m.tls != m.sp && m.tls != 0
  }

  // ----- when a creation succeeds

  /** There is a heap for the task, and a block in it for the task structure. */
  predicate TaskFound(t: Table, id: int, taskSize: nat)
    requires taskSize <= MAX_BLOCK_SIZE
  {
    HasSlot(t, id) && SlotServes(AllocPrivateHeap(t, id).1, id, taskSize)
  }

  /** The table once heap and structure are allocated. */
  function WithTask(t: Table, id: int, taskSize: nat): Table
    requires taskSize <= MAX_BLOCK_SIZE
  {
    SwMallocPrivate(AllocPrivateHeap(t, id).1, id, taskSize).1
  }

  /** There are blocks for the structure, then for the local storage, then for the stack. */
  predicate CanCreate(t: Table, id: int, taskSize: nat, tlsSize: nat, stackSize: nat)
    requires taskSize <= MAX_BLOCK_SIZE && tlsSize <= MAX_BLOCK_SIZE && stackSize <= MAX_BLOCK_SIZE
  {
    TaskFound(t, id, taskSize) &&
    var u := WithTask(t, id, taskSize);
    SlotServes(u, id, tlsSize) && SlotServes(SwMallocPrivate(u, id, tlsSize).1, id, stackSize)
  }

  /** The record has the answers to the three requests, in this order. */
  predicate Answered(m: TaskMem, t: Table, id: int, taskSize: nat, tlsSize: nat, stackSize: nat)
    requires taskSize <= MAX_BLOCK_SIZE && tlsSize <= MAX_BLOCK_SIZE && stackSize <= MAX_BLOCK_SIZE
  {
    var b := SwMallocPrivate(AllocPrivateHeap(t, id).1, id, taskSize);
    var c := SwMallocPrivate(b.1, id, tlsSize);
    b.0 == Some(m.task) && c.0 == Some(m.tls) && SwMallocPrivate(c.1, id, stackSize).0 == Some(m.sp)
  }

  /** The structure was allocated but its local storage was not. */
  predicate TlsFails(t: Table, id: int, taskSize: nat, tlsSize: nat)
    requires taskSize <= MAX_BLOCK_SIZE && tlsSize <= MAX_BLOCK_SIZE
  {
    TaskFound(t, id, taskSize) && !SlotServes(WithTask(t, id, taskSize), id, tlsSize)
  }

  // ----- who owns what

  /** The owners other than `id` hold what they held, but for the block `data` of `owner` when `freed`. */
  ghost predicate OthersLess(t: Table, u: Table, id: int, owner: int, data: int, freed: bool) {
    forall x, p {:trigger Owns(u, x, p)} :: x != id && x != -1 ==>
      (Owns(u, x, p) <==> Owns(t, x, p) && !(freed && data != 0 && x == owner && p == data))
  }

  ghost predicate OwnsNothing(t: Table, id: int) { forall p :: !Owns(t, id, p) }

  ghost predicate OwnsOnly(t: Table, id: int, blocks: set<int>) { forall p :: Owns(t, id, p) <==> p in blocks }

  /** Every task holds its blocks, and no slot has a number still to be given out. */
  ghost predicate Records(t: Table, mem: map<nat, TaskMem>, next: nat) {
    next > 0 && (forall id :: id in mem ==> 0 < id < next && Held(t, id, mem[id])) &&
    forall id :: id >= next ==> !Assigned(t, id)
  }

  /** A change that concerns the heap of `id` only. */
  lemma RecordsKept(t: Table, u: Table, id: nat, mem: map<nat, TaskMem>, next: nat)
    requires Records(t, mem, next) && OthersSame(t, u, id) && (id in mem ==> Held(u, id, mem[id]))
    requires forall x :: x >= next ==> Assigned(u, x) == Assigned(t, x)
    ensures Records(u, mem, next)
  {
    forall x | x in mem ensures 0 < x < next && Held(u, x, mem[x]) {
      assert Held(t, x, mem[x]);
      if x != id { SameHeld(t, u, id, x, mem[x]); }
    }
  }

  lemma SameHeld(t: Table, u: Table, id: nat, x: nat, m: TaskMem)
    requires OthersSame(t, u, id) && x != id && Held(t, x, m)
    ensures Held(u, x, m)
  {
  }

  lemma MallocRecords(t: Table, id: nat, size: nat, mem: map<nat, TaskMem>, next: nat)
    requires Inv(t) && Records(t, mem, next) && size <= MAX_BLOCK_SIZE
    ensures Inv(SwMallocPrivate(t, id, size).1) && Records(SwMallocPrivate(t, id, size).1, mem, next)
  {
    MallocKeeps(t, id, size);
    var u := SwMallocPrivate(t, id, size).1;
    if id in mem {
      var m := mem[id];
      assert Held(t, id, m);
      assert Owns(u, id, m.task) && Owns(u, id, m.tls) && Owns(u, id, m.sp);
    }
    RecordsKept(t, u, id, mem, next);
  }

  lemma FreeRecords(t: Table, id: nat, p: int, mem: map<nat, TaskMem>, next: nat)
    requires Inv(t) && Records(t, mem, next) && Owns(t, id, p)
    requires id in mem ==> p != mem[id].task && p != mem[id].tls && p != mem[id].sp
    ensures Inv(SwFreePrivate(t, id, p)) && Records(SwFreePrivate(t, id, p), mem, next)
  {
    FreeKeeps(t, id, p);
    var u := SwFreePrivate(t, id, p);
    if id in mem {
      var m := mem[id];
      assert Held(t, id, m);
      assert Owns(u, id, m.task) && Owns(u, id, m.tls) && Owns(u, id, m.sp);
    }
    RecordsKept(t, u, id, mem, next);
  }

  lemma OthersTwice(t: Table, u: Table, v: Table, id: int)
    requires OthersSame(t, u, id) && OthersSame(u, v, id)
    ensures OthersSame(t, v, id)
  {
    forall x, p {:trigger Owns(v, x, p)} | x != id && x != -1 ensures Owns(v, x, p) <==> Owns(t, x, p) {
      assert Owns(u, x, p) <==> Owns(t, x, p);
    }
  }

  lemma OthersThen(t: Table, u: Table, v: Table, id: int, owner: int, data: int, freed: bool)
    requires OthersSame(t, u, id) && OthersLess(u, v, id, owner, data, freed)
    ensures OthersLess(t, v, id, owner, data, freed)
  {
    forall x, p {:trigger Owns(v, x, p)} | x != id && x != -1
      ensures Owns(v, x, p) <==> Owns(t, x, p) && !(freed && data != 0 && x == owner && p == data)
    {
      assert Owns(u, x, p) <==> Owns(t, x, p);
    }
  }

  /** One more block for a task that holds `blocks`. */
  lemma MallocStep(t: Table, id: nat, size: nat, blocks: set<int>, mem: map<nat, TaskMem>, next: nat)
    requires Inv(t) && Records(t, mem, next) && size <= MAX_BLOCK_SIZE && OwnsOnly(t, id, blocks)
    ensures var r := SwMallocPrivate(t, id, size);
      Inv(r.1) && Records(r.1, mem, next) && OthersSame(t, r.1, id) && Assigned(r.1, id) == Assigned(t, id) &&
      match r.0
      case None => OwnsOnly(r.1, id, blocks)
      case Some(a) => a !in blocks && a > 0 && OwnsOnly(r.1, id, blocks + {a})
  {
    MallocKeeps(t, id, size);
    MallocRecords(t, id, size, mem, next);
  }

  /** The conditions say what the allocations answer. */
  lemma CanCreateIff(t: Table, id: nat, taskSize: nat, tlsSize: nat, stackSize: nat)
    requires Inv(t) && taskSize <= MAX_BLOCK_SIZE && tlsSize <= MAX_BLOCK_SIZE && stackSize <= MAX_BLOCK_SIZE
    ensures var a := AllocPrivateHeap(t, id);
      (a.0 == 0 <==> HasSlot(t, id)) &&
      var b := SwMallocPrivate(a.1, id, taskSize);
      var c := SwMallocPrivate(b.1, id, tlsSize);
      (TaskFound(t, id, taskSize) <==> HasSlot(t, id) && b.0.Some?) &&
      (TlsFails(t, id, taskSize, tlsSize) <==> HasSlot(t, id) && b.0.Some? && c.0.None?) &&
      (CanCreate(t, id, taskSize, tlsSize, stackSize) <==>
         HasSlot(t, id) && b.0.Some? && c.0.Some? && SwMallocPrivate(c.1, id, stackSize).0.Some?)
  {
    var a := AllocPrivateHeap(t, id);
    AllocHeapKeeps(t, id);
    var b := SwMallocPrivate(a.1, id, taskSize);
    MallocKeeps(a.1, id, taskSize);
    MallocPrivateIff(a.1, id, taskSize);
    var c := SwMallocPrivate(b.1, id, tlsSize);
    MallocKeeps(b.1, id, tlsSize);
    MallocPrivateIff(b.1, id, tlsSize);
    MallocPrivateIff(c.1, id, stackSize);
  }

  class Kernel {
    var table: Table
    var mem: map<nat, TaskMem>
    var next: nat

    /** No task yet; only numbers below the first task number may own a heap. */
    constructor (table: Table, next: nat)
      requires Inv(table) && next > 0 && forall id :: id >= next ==> !Assigned(table, id)
      ensures Valid() && this.table == table && mem == map[] && this.next == next
    {
      this.table, mem, this.next := table, map[], next;
    }

    ghost predicate Valid()
      reads this
    {
      Inv(table) && Records(table, mem, next)
    }

    method FindSlot(id: int) returns (index: nat)
      ensures index == Find(table, id)
    {
      index := 0;
      assert table[0..] == table;
      while index < NUM_OF_HEAPS && table[index].id != id
        invariant index <= NUM_OF_HEAPS && Find(table, id) == index + Find(table[index..], id)
      {
        assert table[index..][1..] == table[index + 1..];
        index := index + 1;
      }
    }

    method MallocPrivate(id: int, size: nat) returns (a: Option<int>)
      requires size <= MAX_BLOCK_SIZE
      modifies this`table
      ensures a == SwMallocPrivate(old(table), id, size).0 && table == SwMallocPrivate(old(table), id, size).1
    {
      var index := FindSlot(id);
      if index == NUM_OF_HEAPS {
        return None;
      }
      var r := BuddySpec.Malloc(table[index].heap, size);
      a := r.0;
      table := table[index := Slot(id, table[index].count + (if a.Some? then 1 else 0), r.1)];
    }

    method FreePrivate(id: int, p: int)
      requires TableOk(table)
      modifies this`table
      ensures table == SwFreePrivate(old(table), id, p)
    {
      var index := FindSlot(id);
      if index == NUM_OF_HEAPS {
        return;
      }
      table := table[index := Slot(id, table[index].count - 1, BuddySpec.Free(table[index].heap, p))];
    }

    method AllocHeap(id: int) returns (r: int)
      modifies this`table
      ensures r == AllocPrivateHeap(old(table), id).0 && table == AllocPrivateHeap(old(table), id).1
    {
      var index := FindSlot(id);
      if index < NUM_OF_HEAPS {
        return 0;
      }
      index := FindSlot(-1);
      if index < NUM_OF_HEAPS {
        table := table[index := table[index].(id := id)];
        return 0;
      }
      r := -1;
    }

    method FreeHeap(id: int) returns (r: int)
      modifies this`table
      ensures r == FreePrivateHeap(old(table), id).0 && table == FreePrivateHeap(old(table), id).1
    {
      var index := FindSlot(id);
      if index == NUM_OF_HEAPS || table[index].count != 0 {
        return -1;
      }
      table := table[index := table[index].(id := -1)];
      r := 0;
    }

    /** A task allocates: what the records need stays. */
    method TaskMalloc(id: nat, size: nat) returns (a: Option<int>)
      requires Valid() && size <= MAX_BLOCK_SIZE
      modifies this`table
      ensures Valid() && OthersSame(old(table), table, id) && (a.Some? <==> SlotServes(old(table), id, size))
      ensures a.Some? ==> a.value > 0 && !old(Owns(table, id, a.value))
      ensures forall p :: Owns(table, id, p) <==> old(Owns(table, id, p)) || a == Some(p)
    {
      MallocKeeps(table, id, size);
      MallocPrivateIff(table, id, size);
      MallocRecords(table, id, size, mem, next);
      a := MallocPrivate(id, size);
    }

    /** A task frees a live block that is not part of its record. */
    method TaskFree(id: nat, p: int)
      requires Valid() && Owns(table, id, p) && (id in mem ==> !Recorded(mem[id], p))
      modifies this`table
      ensures Valid() && OthersSame(old(table), table, id)
      ensures forall q :: Owns(table, id, q) <==> old(Owns(table, id, q)) && q != p
    {
      FreeKeeps(table, id, p);
      FreeRecords(table, id, p, mem, next);
      FreePrivate(id, p);
    }

    /** The caller's private data goes first when a creation fails. */
    method FreeData(id: nat, owner: nat, data: int)
      requires Valid() && owner != id && (data != 0 ==> Owns(table, owner, data))
      requires data != 0 && owner in mem ==> !Recorded(mem[owner], data)
      modifies this`table
      ensures Valid() && OthersLess(old(table), table, id, owner, data, true)
      ensures forall p :: Owns(table, id, p) <==> old(Owns(table, id, p))
    {
      if data != 0 {
        FreeKeeps(table, owner, data);
        FreeRecords(table, owner, data, mem, next);
        FreePrivate(owner, data);
      }
    }

    /** The clean-up of a failed creation; `sp` is what the record's stack field holds at that point. */
    method HandleError(id: nat, task: int, tls: int, sp: int, owner: nat, data: int)
      requires Valid() && id !in mem && owner != id && (tls != 0 ==> tls != task)
      requires data != 0 ==> Owns(table, owner, data)
      requires data != 0 && owner in mem ==> !Recorded(mem[owner], data)
      requires OwnsOnly(table, id, if tls != 0 then {task, tls} else {task}) && (sp != 0 ==> tls == 0)
      modifies this`table
      ensures sp == 0 ==> Valid()
      ensures sp != 0 ==> !Inv(table)
      ensures Assigned(table, id) && OwnsNothing(table, id) && OthersLess(old(table), table, id, owner, data, true)
    {
      FreeData(id, owner, data);
      if tls != 0 {
        FreeOwn(id, tls);
      }
      FreeTask(id, task, sp);
    }

    /** The stack field is freed whatever it holds, if it is not null, and then the structure. */
    method FreeTask(id: nat, task: int, sp: int)
      requires Valid() && id !in mem && OwnsOnly(table, id, {task})
      modifies this`table
      ensures sp == 0 ==> Valid()
      ensures sp != 0 ==> !Inv(table)
      ensures Assigned(table, id) && OwnsNothing(table, id) && OthersSame(old(table), table, id)
    {
      assert Owns(table, id, task);
      if sp == 0 {
        FreeOwn(id, task);
      } else {
        ghost var t := table;
        InvDrift(table, id);
        FreeDrift(table, id, sp);
        FreePrivate(id, sp);
        ghost var u := table;
        FreeDrift(table, id, task);
        FreePrivate(id, task);
        if Inv(table) { InvDrift(table, id); }
        OthersTwice(t, u, table, id);
      }
    }

    /** The record of a created task. */
    method Record(id: nat, m: TaskMem)
      requires Inv(table) && Records(table, mem, next) && Held(table, id, m) && 0 < id < next && id !in mem
      modifies this`mem
      ensures Valid() && mem == old(mem)[id := m]
    {
      mem := mem[id := m];
    }

    /** Takes a number, a heap and three blocks.  `denied` stands for the permission check, `data` for the
        caller's private data, owned by `owner`, and `junk` for what the fresh record's stack field happens
        to hold before it is set. */
    method CreateTask(denied: bool, taskSize: nat, tlsSize: nat, stackSize: nat, owner: nat, data: int, junk: int)
      returns (r: Option<nat>)
      requires Valid() && taskSize <= MAX_BLOCK_SIZE && tlsSize <= MAX_BLOCK_SIZE && stackSize <= MAX_BLOCK_SIZE
      requires owner < next
      requires data != 0 ==> Owns(table, owner, data)
      requires data != 0 && owner in mem ==> !Recorded(mem[owner], data)
      modifies this
      ensures r.Some? <==> !denied && CanCreate(old(table), old(next), taskSize, tlsSize, stackSize)
      ensures Inv(table) <==> denied || junk == 0 || !TlsFails(old(table), old(next), taskSize, tlsSize)
      ensures Inv(table) ==> Valid()
      ensures r.Some? ==> Valid() && r.value == old(next) && r.value in mem && mem == old(mem)[r.value := mem[r.value]]
      ensures r.Some? ==> Answered(mem[r.value], old(table), old(next), taskSize, tlsSize, stackSize)
      ensures r.Some? ==> OwnsOnly(table, r.value, {mem[r.value].task, mem[r.value].tls, mem[r.value].sp})
      ensures r.None? ==> mem == old(mem) && OwnsNothing(table, old(next))
      ensures OthersLess(old(table), table, old(next), owner, data,
                r.None? && !denied && TaskFound(old(table), old(next), taskSize))
      ensures Assigned(table, old(next)) <==> !denied && HasSlot(old(table), old(next))
      ensures next == old(next) + if denied then 0 else 1
    {
      assert !Assigned(table, next);
      if denied {
        return None;
      }
      var id := next;
      next := next + 1;
      ghost var t := table;
      CanCreateIff(table, id, taskSize, tlsSize, stackSize);
      AllocHeapKeeps(table, id);
      RecordsKept(table, AllocPrivateHeap(table, id).1, id, mem, next);
      var ok := AllocHeap(id);
      if ok == -1 {
        return None;
      }
      ghost var u := table;
      MallocStep(table, id, taskSize, {}, mem, next);
      var task := MallocPrivate(id, taskSize);
      OthersTwice(t, u, table, id);
      if task == None {
        return None;
      }
      r := AllocRest(id, task.value, tlsSize, stackSize, owner, data, junk);
    }

    /** The local storage, and what follows. */
    method AllocRest(id: nat, task: int, tlsSize: nat, stackSize: nat, owner: nat, data: int, junk: int)
      returns (r: Option<nat>)
      requires Valid() && 0 < id < next && id !in mem && owner != id && OwnsOnly(table, id, {task})
      requires tlsSize <= MAX_BLOCK_SIZE && stackSize <= MAX_BLOCK_SIZE
      requires data != 0 ==> Owns(table, owner, data)
      requires data != 0 && owner in mem ==> !Recorded(mem[owner], data)
      modifies this`table, this`mem
      ensures Assigned(table, id) && Created(old(table), old(mem), id, owner, data, r)
      ensures var c := SwMallocPrivate(old(table), id, tlsSize);
        var d := SwMallocPrivate(c.1, id, stackSize).0;
        && (if c.0.Some? && d.Some? then r.Some? && mem[id] == TaskMem(task, c.0.value, d.value) else r.None?)
        && (Inv(table) <==> junk == 0 || c.0.Some?)
      ensures Inv(table) ==> Valid()
    {
      ghost var t := table;
      MallocStep(table, id, tlsSize, {task}, mem, next);
      var tls := MallocPrivate(id, tlsSize);
      ghost var u := table;
      if tls == None {
        HandleError(id, task, 0, junk, owner, data);
        r := None;
      } else {
        r := AllocStack(id, task, tls.value, stackSize, owner, data);
      }
      OthersThen(t, u, table, id, owner, data, r.None?);
    }

    /** What the blocks and records are after the last steps of a creation, which began with this table. */
    ghost predicate Created(t: Table, m: map<nat, TaskMem>, id: nat, owner: nat, data: int, r: Option<nat>)
      reads this
    {
      OthersLess(t, table, id, owner, data, r.None?) &&
      match r
      case Some(x) =>
        x == id && id in mem && mem == m[id := mem[id]] && OwnsOnly(table, id, {mem[id].task, mem[id].tls, mem[id].sp})
      case None => mem == m && OwnsNothing(table, id)
    }

    /** The last allocation of a creation, and the record when it succeeds. */
    method AllocStack(id: nat, task: int, tls: int, stackSize: nat, owner: nat, data: int) returns (r: Option<nat>)
      requires Valid() && 0 < id < next && id !in mem && stackSize <= MAX_BLOCK_SIZE && owner != id
      requires OwnsOnly(table, id, {task, tls}) && task != tls && tls != 0
      requires data != 0 ==> Owns(table, owner, data)
      requires data != 0 && owner in mem ==> !Recorded(mem[owner], data)
      modifies this`table, this`mem
      ensures Valid() && Assigned(table, id) && Created(old(table), old(mem), id, owner, data, r)
      ensures var d := SwMallocPrivate(old(table), id, stackSize).0;
        if d.Some? then r.Some? && mem[id] == TaskMem(task, tls, d.value) else r.None?
    {
      ghost var t := table;
      MallocStep(table, id, stackSize, {task, tls}, mem, next);
      var sp := MallocPrivate(id, stackSize);
      ghost var u := table;
      if sp == None {
        HandleError(id, task, tls, 0, owner, data);
        r := None;
      } else {
        assert Owns(table, id, task) && Owns(table, id, tls);
        Record(id, TaskMem(task, tls, sp.value));
        r := Some(id);
      }
      OthersThen(t, u, table, id, owner, data, r.None?);
    }

    /** One block of a task that is going away. */
    method FreeOwn(id: nat, p: int)
      requires Valid() && id !in mem && Owns(table, id, p)
      modifies this`table
      ensures Valid() && OthersSame(old(table), table, id) && Assigned(table, id)
      ensures forall q :: Owns(table, id, q) <==> old(Owns(table, id, q)) && q != p
    {
      FreeKeeps(table, id, p);
      FreeRecords(table, id, p, mem, next);
      FreePrivate(id, p);
    }

    /** The three blocks of a task whose record is gone. */
    method FreeRecorded(id: nat, m: TaskMem)
      requires Valid() && id !in mem && Held(table, id, m)
      modifies this`table
      ensures Valid() && OthersSame(old(table), table, id)
      ensures forall p :: Owns(table, id, p) <==> old(Owns(table, id, p)) && !Recorded(m, p)
    {
      ghost var t := table;
      if m.tls != 0 {
        FreeOwn(id, m.tls);
      }
      ghost var u := table;
      FreeOwn(id, m.sp);
      OthersTwice(t, u, table, id);
      u := table;
      FreeOwn(id, m.task);
      OthersTwice(t, u, table, id);
    }

    /** Frees the task's three blocks and gives its heap back, which works exactly when the task left no
        other live block; otherwise the slot is kept for a number that no task will have again. */
    method DestroyTask(id: nat) returns (ret: int)
      requires Valid()
      modifies this
      ensures Valid() && next == old(next) && OthersSame(old(table), table, id)
      ensures ret == 0 <==> old(id in mem)
      ensures ret != 0 ==> ret == -1 && mem == old(mem) && table == old(table)
      ensures ret == 0 ==> mem == old(mem) - {id}
      ensures ret == 0 ==> (!Assigned(table, id) <==>
                 forall p :: old(Owns(table, id, p)) ==> old(Recorded(mem[id], p)))
      ensures ret == 0 ==> forall p :: Owns(table, id, p) <==> old(Owns(table, id, p) && !Recorded(mem[id], p))
    {
      if id !in mem {
        return -1;
      }
      ghost var t := table;
      var m := mem[id];
      assert Held(table, id, m);
      mem := mem - {id};
      FreeRecorded(id, m);
      ghost var u := table;
      FreeHeapKeeps(table, id);
      AssignedOther(table, id);
      var r := FreeHeap(id);
      RecordsKept(u, table, id, mem, next);
      OthersTwice(t, u, table, id);
      ret := 0;
    }
  }

  /** Giving back one heap leaves the assignment of the others. */
  lemma AssignedOther(t: Table, id: nat)
    requires Inv(t)
    ensures forall x :: x != id && x != -1 ==> Assigned(FreePrivateHeap(t, id).1, x) == Assigned(t, x)
  {
    var i := Find(t, id);
    if i < NUM_OF_HEAPS && t[i].count == 0 {
      assert SlotOk(t[i]);
      Reassign(t, i, -1);
    }
  }
}
