/** The file-descriptor table (syscall/fdtable.c): lowest free slot, over an array that grows
    in chunks up to INT_MAX entries.

    Steps are functions on the array's contents, which the class carries out in place; the
    lemmas read the contents as a partial map from descriptors to open files. */
module FdTable {
  import opened Bytes

  const INT_MAX := 0x7fff_ffff
  const CHUNK_SIZE := 1024
  const ANY_TYPE := 1

  datatype Errno = EINVAL | EBADF | ENOMEM

  /** An open file; `kind` is its descriptor type. */
  datatype Desc = Desc(kind: nat, handle: nat)

  type Cell = Option<Desc>

  /** The three standard files, as the console device creates them. */
  datatype Console = Console(stdin: Desc, stdout: Desc, stderr: Desc)

  datatype Table = Table(initialized: bool, cells: seq<Cell>)

  const INITIAL := Table(false, [])

  // ----- the steps

  function RoundUp(x: nat, m: nat): nat
    requires m > 0
  {
    (x + m - 1) / m * m
  }

  /** The capacity asked for, rounded up to whole chunks but never beyond INT_MAX. */
  function Capacity(n: nat): (c: nat)
    requires n <= INT_MAX
    ensures n <= c <= INT_MAX
  {
    var c := RoundUp(n, CHUNK_SIZE);
    if c > INT_MAX then INT_MAX else c
  }

  function Empty(n: nat): (s: seq<Cell>)
    ensures |s| == n
  {
    seq(n, _ => None)
  }

  /** The contents after room has been made for `n` entries. */
  function Grown(cells: seq<Cell>, n: nat): (r: seq<Cell>)
    requires n <= INT_MAX
    ensures n <= |r| && |cells| <= |r| && (|cells| <= INT_MAX ==> |r| <= INT_MAX)
  {
    if Capacity(n) > |cells| then cells + Empty(Capacity(n) - |cells|) else cells
  }

  function Ready(t: Table, console: Console): Table {
    if t.initialized then t
    else Table(true, Grown(t.cells, CHUNK_SIZE)[0 := Some(console.stdin)][1 := Some(console.stdout)][2 := Some(console.stderr)])
  }

  /** The first empty cell, or the length. */
  function FirstFree(cells: seq<Cell>): (i: nat)
    ensures i <= |cells|
    ensures forall k :: 0 <= k < i ==> cells[k].Some?
    ensures i < |cells| ==> cells[i].None?
  {
    if cells == [] || cells[0].None? then 0
    else
      var i := 1 + FirstFree(cells[1..]);
      assert forall k :: 1 <= k < i ==> cells[k] == cells[1..][k - 1];
      i
  }

  function Assigned(cells: seq<Cell>, desc: Desc): (r: (seq<Cell>, Result<nat, Errno>)) {
    var i := FirstFree(cells);
    if i == |cells| && |cells| >= INT_MAX then (cells, Failure(ENOMEM))
    else
      var room := if i == |cells| then Grown(cells, |cells| + 1) else cells;
      (room[i := Some(desc)], Success(i))
  }

  function Released(cells: seq<Cell>, fd: int): (seq<Cell>, Result<(), Errno>) {
    if !(0 <= fd < |cells|) then (cells, Failure(EBADF))
    else if cells[fd].None? then (cells, Failure(EINVAL))
    else (cells[fd := None], Success(()))
  }

  /** Room is made even for a descriptor that turns out to be out of range. */
  function Reassigned(cells: seq<Cell>, fd: int, desc: Desc): (seq<Cell>, Result<Cell, Errno>) {
    var room := if 0 <= fd < INT_MAX then Grown(cells, fd + 1) else cells;
    if !(0 <= fd < |room|) then (room, Failure(EBADF))
    else (room[fd := Some(desc)], Success(room[fd]))
  }

  function Found(cells: seq<Cell>, fd: int, kind: nat): Result<Desc, Errno> {
    if !(0 <= fd < |cells|) || cells[fd].None? then Failure(EBADF)
    else if kind != ANY_TYPE && cells[fd].value.kind != kind then Failure(EINVAL)
    else Success(cells[fd].value)
  }

  datatype Op = OpAssign(desc: Desc) | OpRelease(fd: int) | OpReassign(fd: int, desc: Desc) | OpGet(fd: int, kind: nat)

  function Step(t: Table, console: Console, op: Op): Table {
    var ready := Ready(t, console);
    match op
    case OpAssign(desc) => Table(true, Assigned(ready.cells, desc).0)
    case OpRelease(fd) => Table(true, Released(ready.cells, fd).0)
    case OpReassign(fd, desc) => Table(true, Reassigned(ready.cells, fd, desc).0)
    case OpGet(_, _) => Table(true, ready.cells)
  }

  function Run(console: Console, ops: seq<Op>): Table {
    if ops == [] then INITIAL else Step(Run(console, ops[..|ops| - 1]), console, ops[|ops| - 1])
  }

  // ----- the table as a partial map

  /** The open files by descriptor. */
  function Open(cells: seq<Cell>): map<nat, Desc> {
    map fd: nat | fd < |cells| && cells[fd].Some? :: cells[fd].value
  }

  /** Growing changes no open file. */
  lemma OpenGrown(cells: seq<Cell>, n: nat)
    requires n <= INT_MAX
    ensures Open(Grown(cells, n)) == Open(cells)
  {
    assert forall fd: nat :: fd < |cells| ==> Grown(cells, n)[fd] == cells[fd];
  }

  /** The standard files are open on 0, 1 and 2, and nothing else is, before the first operation. */
  lemma StandardFiles(console: Console)
    ensures Open(Ready(INITIAL, console).cells) == map[0 := console.stdin, 1 := console.stdout, 2 := console.stderr]
  {
    OpenGrown([], CHUNK_SIZE);
    hide Grown;
    var cells := Grown([], CHUNK_SIZE);
    assert Open([]) == map[];
    OpenUpdated(cells, 0, console.stdin);
    OpenUpdated(cells[0 := Some(console.stdin)], 1, console.stdout);
    OpenUpdated(cells[0 := Some(console.stdin)][1 := Some(console.stdout)], 2, console.stderr);
  }

  /** They stay so over every run that neither releases nor reassigns them. */
  lemma {:induction false} StandardFilesStay(console: Console, ops: seq<Op>, fd: nat)
    requires ops != [] && fd < 3 && forall i :: 0 <= i < |ops| ==> !Touches(ops[i], fd)
    ensures var open := Open(Run(console, ops).cells);
            && fd in open
            && open[fd] == if fd == 0 then console.stdin else if fd == 1 then console.stdout else console.stderr
    decreases |ops|
  {
    hide Ready, Assigned, Released, Reassigned;
    var init, op := ops[..|ops| - 1], ops[|ops| - 1];
    RunCapacity(console, init, 0);
    if init == [] {
      StandardFiles(console);
      ReadyIs(INITIAL, console);
      StepKeepsOpen(Ready(INITIAL, console), console, op, fd);
      ReadyIs(Ready(INITIAL, console), console);
    } else {
      StandardFilesStay(console, init, fd);
      Initialized(console, init);
      StepKeepsOpen(Run(console, init), console, op, fd);
    }
  }

  lemma ReadyIs(t: Table, console: Console)
    requires |t.cells| <= INT_MAX
    ensures Ready(t, console).initialized && |Ready(t, console).cells| <= INT_MAX
    ensures t.initialized ==> Ready(t, console) == t
  {
  }

  lemma Initialized(console: Console, ops: seq<Op>)
    requires ops != []
    ensures Run(console, ops).initialized
  {
    hide Ready, Assigned, Released, Reassigned;
  }

  /** A lookup finds exactly the open file of the right kind. */
  lemma GetFinds(cells: seq<Cell>, fd: int, kind: nat)
    ensures var r := Found(cells, fd, kind);
            && (r == Failure(EBADF) <==> fd < 0 || fd !in Open(cells))
            && (r == Failure(EINVAL) <==> fd >= 0 && fd in Open(cells) && kind != 1 && Open(cells)[fd].kind != kind)
            && (r.Success? ==> fd >= 0 && fd in Open(cells) && r.value == Open(cells)[fd])
            && (r.Failure? ==> r.error == EBADF || r.error == EINVAL)
  {
  }

  /** Room is made in whole chunks of 1024, up to INT_MAX, and only when it is needed. */
  lemma GrowsInChunks(cells: seq<Cell>, n: nat)
    requires n <= INT_MAX
    ensures var wanted := if (n + 1023) / 1024 * 1024 > 0x7fff_ffff then 0x7fff_ffff else (n + 1023) / 1024 * 1024;
            |Grown(cells, n)| == if wanted > |cells| then wanted else |cells|
  {
  }

  /** Assigning takes the least descriptor that is not open, and changes nothing else. It fails
      only when every descriptor below INT_MAX is open. */
  lemma AssignTakesLeast(cells: seq<Cell>, desc: Desc)
    requires |cells| <= INT_MAX
    ensures var (after, r) := Assigned(cells, desc);
            && |cells| <= |after| <= INT_MAX
            && (r.Success? ==>
                  && r.value < INT_MAX && r.value !in Open(cells) && (forall k: nat :: k < r.value ==> k in Open(cells))
                  && Open(after) == Open(cells)[r.value := desc])
            && (r.Failure? ==> r.error == ENOMEM && after == cells && forall k: nat :: k < INT_MAX ==> k in Open(cells))
            && |after| == (if r.Success? && r.value == |cells| then |Grown(cells, |cells| + 1)| else |cells|)
  {
    var i := FirstFree(cells);
    if i < |cells| {
      OpenUpdated(cells, i, desc);
    } else if |cells| < INT_MAX {
      OpenGrown(cells, |cells| + 1);
      OpenUpdated(Grown(cells, |cells| + 1), i, desc);
    }
  }

  lemma OpenUpdated(cells: seq<Cell>, i: nat, desc: Desc)
    requires i < |cells|
    ensures Open(cells[i := Some(desc)]) == Open(cells)[i := desc]
  {
  }

  /** Releasing closes exactly the given descriptor, and works exactly on open ones. */
  lemma ReleaseCloses(cells: seq<Cell>, fd: int)
    ensures var (after, r) := Released(cells, fd);
            && |after| == |cells|
            && (r.Success? <==> fd >= 0 && fd in Open(cells))
            && (r == Failure(EBADF) <==> fd < 0 || fd >= |cells|)
            && (r.Failure? ==> r.error == EBADF || r.error == EINVAL)
            && Open(after) == Open(cells) - {fd}
  {
    var (after, r) := Released(cells, fd);
    assert forall k: nat :: k in Open(after) <==> k in Open(cells) && k != fd;
  }

  /** Reassigning works exactly on descriptors from 0 up to, but not including, INT_MAX. */
  lemma ReassignReplaces(cells: seq<Cell>, fd: int, desc: Desc)
    requires |cells| <= INT_MAX
    ensures var (after, r) := Reassigned(cells, fd, desc);
            && |cells| <= |after| <= INT_MAX
            && (r.Success? <==> 0 <= fd < INT_MAX)
            && (r.Success? ==>
                  && r.value == (if fd in Open(cells) then Some(Open(cells)[fd]) else None)
                  && Open(after) == Open(cells)[fd := desc])
            && (r.Failure? ==> r.error == EBADF && after == cells)
            && |after| == (if r.Success? then |Grown(cells, fd + 1)| else |cells|)
  {
    if 0 <= fd < INT_MAX {
      OpenGrown(cells, fd + 1);
      OpenUpdated(Grown(cells, fd + 1), fd, desc);
      assert Grown(cells, fd + 1)[fd] == if fd in Open(cells) then Some(Open(cells)[fd]) else None by {
        assert fd in Open(Grown(cells, fd + 1)) <==> fd in Open(cells);
      }
    }
  }

  /** Release undoes assign: the table's open files are as before. */
  lemma ReleaseUndoesAssign(cells: seq<Cell>, desc: Desc)
    requires |cells| <= INT_MAX && Assigned(cells, desc).1.Success?
    ensures var (after, r) := Assigned(cells, desc);
            Released(after, r.value).1.Success? && Open(Released(after, r.value).0) == Open(cells)
  {
    hide Assigned;
    var (after, r) := Assigned(cells, desc);
    AssignTakesLeast(cells, desc);
    ReleaseCloses(after, r.value);
  }

  // ----- runs

  lemma CapacityOfStep(t: Table, console: Console, op: Op)
    requires |t.cells| <= INT_MAX
    ensures |t.cells| <= |Step(t, console, op).cells| <= INT_MAX
  {
    hide Assigned, Released, Reassigned;
    var ready := Ready(t, console);
    match op
    case OpAssign(desc) => AssignTakesLeast(ready.cells, desc);
    case OpRelease(fd) => ReleaseCloses(ready.cells, fd);
    case OpReassign(fd, desc) => ReassignReplaces(ready.cells, fd, desc);
    case OpGet(_, _) =>
  }

  /** Over every run the capacity never shrinks and never exceeds INT_MAX. */
  lemma {:induction false} RunCapacity(console: Console, ops: seq<Op>, k: nat)
    requires k <= |ops|
    ensures |Run(console, ops[..k]).cells| <= |Run(console, ops).cells| <= INT_MAX
    decreases |ops|
  {
    hide Step;
    if k < |ops| {
      var init := ops[..|ops| - 1];
      assert init[..k] == ops[..k];
      RunCapacity(console, init, k);
      CapacityOfStep(Run(console, init), console, ops[|ops| - 1]);
    } else {
      assert ops[..k] == ops;
      if ops != [] {
        RunCapacity(console, ops[..|ops| - 1], 0);
        CapacityOfStep(Run(console, ops[..|ops| - 1]), console, ops[|ops| - 1]);
      }
    }
  }

  /** Whether an operation closes or replaces the descriptor. */
  predicate Touches(op: Op, fd: nat) {
    (op.OpRelease? || op.OpReassign?) && op.fd == fd
  }

  lemma StepKeepsOpen(t: Table, console: Console, op: Op, fd: nat)
    requires t.initialized && |t.cells| <= INT_MAX
    requires fd in Open(t.cells) && !Touches(op, fd)
    ensures var after := Step(t, console, op);
            after.initialized && fd in Open(after.cells) && Open(after.cells)[fd] == Open(t.cells)[fd]
  {
    hide Assigned, Released, Reassigned, Open;
    match op
    case OpAssign(desc) => AssignTakesLeast(t.cells, desc);
    case OpRelease(other) => ReleaseCloses(t.cells, other);
    case OpReassign(other, desc) => ReassignReplaces(t.cells, other, desc);
    case OpGet(_, _) =>
  }

  lemma {:induction false} RunStarts(console: Console, ops: seq<Op>)
    ensures Run(console, ops).initialized || Run(console, ops).cells == []
  {
    hide Assigned, Released, Reassigned, Ready;
  }

  /** Over every run, an open descriptor keeps naming the same file until an operation on that
      very descriptor closes or replaces it. */
  lemma {:induction false} OpenUntilTouched(console: Console, ops: seq<Op>, k: nat, fd: nat)
    requires k <= |ops|
    requires fd in Open(Run(console, ops[..k]).cells)
    requires forall i :: k <= i < |ops| ==> !Touches(ops[i], fd)
    ensures fd in Open(Run(console, ops).cells)
    ensures Open(Run(console, ops).cells)[fd] == Open(Run(console, ops[..k]).cells)[fd]
    decreases |ops|
  {
    if k == |ops| {
      assert ops[..k] == ops;
    } else {
      hide Step;
      var init := ops[..|ops| - 1];
      assert init[..k] == ops[..k];
      OpenUntilTouched(console, init, k, fd);
      RunStarts(console, init);
      RunCapacity(console, init, 0);
      StepKeepsOpen(Run(console, init), console, ops[|ops| - 1], fd);
    }
  }

  // ----- the table in place

  class FileTable {
    const console: Console
    var table: array<Cell>
    var initialized: bool

    ghost predicate Valid()
      reads this
    {
      table.Length <= INT_MAX && (initialized ==> table.Length >= CHUNK_SIZE)
    }

    ghost function State(): Table
      reads this, table
    {
      Table(initialized, table[..])
    }

    constructor (console: Console)
      ensures Valid() && State() == INITIAL && this.console == console && fresh(table)
    {
      this.console := console;
      table := new Cell[0];
      initialized := false;
    }

    /** Makes room for `newSize` entries by moving to a longer array. */
    method ResizeTable(newSize: nat) returns (ok: bool)
      requires Valid()
      modifies this`table
      ensures Valid()
      ensures ok <==> newSize <= INT_MAX
      ensures table[..] == if ok then Grown(old(table[..]), newSize) else old(table[..])
      ensures table == old(table) || fresh(table)
    {
      if newSize > INT_MAX {
        return false;
      }
      var size := RoundUp(newSize, CHUNK_SIZE);
      if size > INT_MAX {
        size := INT_MAX;
      }
      if size > table.Length {
        var was := table;
        var longer := new Cell[size](i requires 0 <= i < size reads was => if i < was.Length then was[i] else None);
        assert longer[..] == was[..] + Empty(size - was.Length);
        table := longer;
      }
      return true;
    }

    method Initialize()
      requires Valid()
      modifies this, table
      ensures Valid() && initialized
      ensures State() == Ready(old(State()), console)
      ensures table == old(table) || fresh(table)
    {
      if !initialized {
        var _ := ResizeTable(CHUNK_SIZE);
        table[0], table[1], table[2] := Some(console.stdin), Some(console.stdout), Some(console.stderr);
        initialized := true;
      }
    }

    method Assign(desc: Option<Desc>) returns (r: Result<nat, Errno>)
      requires Valid()
      modifies this, table
      ensures Valid()
      ensures desc.None? ==> State() == old(State()) && r == Failure(EINVAL)
      ensures desc.Some? ==>
                var ready := Ready(old(State()), console).cells;
                initialized && (table[..], r) == Assigned(ready, desc.value)
      ensures table == old(table) || fresh(table)
    {
      hide Ready, Grown, FirstFree;
      if desc.None? {
        return Failure(EINVAL);
      }
      Initialize();
      ghost var ready := table[..];
      var index := 0;
      while index < table.Length && table[index].Some?
        invariant 0 <= index <= table.Length
        invariant forall k :: 0 <= k < index ==> table[k].Some?
      {
        index := index + 1;
      }
      FirstFreeIs(ready, index);
      if index == table.Length {
        var ok := ResizeTable(table.Length + 1);
        if !ok {
          return Failure(ENOMEM);
        }
      }
      table[index] := desc;
      return Success(index);
    }

    method Release(fd: int) returns (r: Result<(), Errno>)
      requires Valid()
      modifies this, table
      ensures Valid() && initialized
      ensures (table[..], r) == Released(Ready(old(State()), console).cells, fd)
      ensures table == old(table) || fresh(table)
    {
      Initialize();
      if !(0 <= fd < table.Length) {
        return Failure(EBADF);
      }
      if table[fd].None? {
        return Failure(EINVAL);
      }
      table[fd] := None;
      return Success(());
    }

    /** The outcome of making room is ignored. */
    method Reassign(fd: int, desc: Option<Desc>) returns (r: Result<Cell, Errno>)
      requires Valid()
      modifies this, table
      ensures Valid()
      ensures desc.None? ==> State() == old(State()) && r == Failure(EINVAL)
      ensures desc.Some? ==>
                var ready := Ready(old(State()), console).cells;
                initialized && (table[..], r) == Reassigned(ready, fd, desc.value)
      ensures table == old(table) || fresh(table)
    {
      if desc.None? {
        return Failure(EINVAL);
      }
      Initialize();
      if fd >= 0 {
        var _ := ResizeTable(fd + 1);
      }
      if fd < 0 || fd >= table.Length {
        return Failure(EBADF);
      }
      r := Success(table[fd]);
      table[fd] := desc;
    }

    method Get(fd: int, kind: nat) returns (r: Result<Desc, Errno>)
      requires Valid()
      modifies this, table
      ensures Valid() && initialized
      ensures table[..] == Ready(old(State()), console).cells && r == Found(table[..], fd, kind)
      ensures table == old(table) || fresh(table)
    {
      Initialize();
      if fd < 0 || fd >= table.Length || table[fd].None? {
        return Failure(EBADF);
      }
      if kind != ANY_TYPE && table[fd].value.kind != kind {
        return Failure(EINVAL);
      }
      return Success(table[fd].value);
    }
  }

  lemma FirstFreeIs(cells: seq<Cell>, i: nat)
    requires i <= |cells|
    requires forall k :: 0 <= k < i ==> cells[k].Some?
    requires i < |cells| ==> cells[i].None?
    ensures FirstFree(cells) == i
  {
  }
}
