/**
  The context switch (src/switch.s) and the stack frame a new task starts from
  (src/task.c). Stacks live in physical memory. A stack pointer is a byte address; the
  words it points to are found at a quarter of it.
 */
module ContextSwitch {
  import opened Words
  import opened Paging
  import opened Scheduler

  // Code addresses the kernel puts on stacks.
  const TASK_KERNEL_BOOTSTRAP: word := 0x10_1000
  const TASK_EXIT: word := 0x10_1040
  const AFTER_TSS_CALL: word := 0x10_1080

  // The registers `switch_task` preserves, and where the processor executes.
  datatype Regs = Regs(edi: word, esi: word, ebx: word, ebp: word, esp: word, eip: word)

  // One processor over memory and the task table.
  datatype Core = Core(ram: Memory, table: Table, regs: Regs, cr3: word, directory: word, tssStack: word)

  // ---------- switch_task ----------

  // A task as it is suspended: its registers, where it will go on, and its stack.
  datatype Context = Context(edi: word, esi: word, ebx: word, ebp: word, esp: int, eip: word, stack: seq<word>)

  // What the pops and the `ret` will restore from word `x` on, for a stack that ends at `top`.
  function ContextAt(m: Memory, x: int, top: int): Context
    requires 0 <= x && x + 5 <= top <= |m|
  {
    Context(m[x], m[x + 1], m[x + 2], m[x + 3], 4 * (x + 5), m[x + 4], m[x + 5..top])
  }

  // The context a running task has when it calls `switch_task`: its stack pointer points
  // to its return address, at word `x`.
  function ContextOf(m: Memory, r: Regs, x: int, top: int): Context
    requires 0 <= x < top <= |m|
  {
    Context(r.edi, r.esi, r.ebx, r.ebp, 4 * (x + 1), m[x], m[x + 1..top])
  }

  // Memory after the four pushes.
  function Pushed(m: Memory, r: Regs): Memory {
    var x := r.esp / 4;
    Put(Put(Put(Put(m, x - 1, r.ebp), x - 2, r.ebx), x - 3, r.esi), x - 4, r.edi)
  }

  // Memory after the call of `tss_set_kernel_stack` on the next task's stack.
  function Called(m: Memory, t: Task): Memory {
    Put(Put(m, t.esp / 4 - 1, t.kstack), t.esp / 4 - 2, AFTER_TSS_CALL)
  }

  // The pops and the `ret`.
  function Popped(m: Memory, t: Task): Regs
    requires t.esp + 20 < 0x1_0000_0000
  {
    var y := t.esp / 4;
    Regs(Fetch(m, y), Fetch(m, y + 1), Fetch(m, y + 2), Fetch(m, y + 3), t.esp + 20, Fetch(m, y + 4))
  }

  function Switched(c: Core, prev: int, next: int): Core
    requires IsSlot(c.table, prev) && IsSlot(c.table, next) && prev != next
    requires 16 <= c.regs.esp && c.table[next].esp + 20 < 0x1_0000_0000
  {
    var to := c.table[next];
    var m := Called(Pushed(c.ram, c.regs), to);
    Core(m, c.table[prev := c.table[prev].(esp := c.regs.esp - 16)], Popped(m, to),
         to.pageDir, if to.pageDir != c.cr3 then to.pageDir else c.directory, to.kstack)
  }

  // ---------- what it preserves ----------

  // A stack of words `low` up to `top - 1` with its pointer at word `esp / 4`, `room` words
  // free below it and `used` words in use above.
  predicate StackOk(m: Memory, low: int, esp: int, top: int, room: int, used: int) {
    esp % 4 == 0 && 0 <= low && low + room <= esp / 4 && esp / 4 + used <= top <= |m|
  }

  predicate Apart(low: int, top: int, low': int, top': int) {
    top <= low' || top' <= low
  }

  // The pushes save exactly the caller's context, below its stack pointer.
  lemma PushedSaves(m: Memory, r: Regs, low: int, top: int)
    requires StackOk(m, low, r.esp, top, 6, 1)
    ensures |Pushed(m, r)| == |m|
    ensures ContextAt(Pushed(m, r), r.esp / 4 - 4, top) == ContextOf(m, r, r.esp / 4, top)
    ensures forall a, b :: 0 <= a <= b <= |m| && Apart(low, top, a, b) ==> Pushed(m, r)[a..b] == m[a..b]
  {
  }

  lemma CalledBelow(m: Memory, t: Task, low: int, top: int)
    requires StackOk(m, low, t.esp, top, 2, 5)
    ensures |Called(m, t)| == |m| && Called(m, t)[t.esp / 4..top] == m[t.esp / 4..top]
    ensures forall a, b :: 0 <= a <= b <= |m| && Apart(low, top, a, b) ==> Called(m, t)[a..b] == m[a..b]
  {
  }

  lemma ContextSame(m: Memory, m': Memory, x: int, top: int)
    requires 0 <= x && x + 5 <= top <= |m| && |m'| == |m| && m'[x..top] == m[x..top]
    ensures ContextAt(m', x, top) == ContextAt(m, x, top)
  {
    assert forall k :: x <= k < top ==> m'[k] == m'[x..top][k - x] && m[k] == m[x..top][k - x];
  }

  // The processor runs with the registers of `saved`, and its stack holds what it held.
  ghost predicate Resumed(c: Core, saved: Context, top: int) {
    && 0 <= saved.esp / 4 <= top <= |c.ram|
    && c.regs == Regs(saved.edi, saved.esi, saved.ebx, saved.ebp, c.regs.esp, saved.eip)
    && c.regs.esp == saved.esp
    && c.ram[saved.esp / 4..top] == saved.stack
  }

  lemma PopResumes(c: Core, t: Task, top: int)
    requires t.esp % 4 == 0 && t.esp / 4 + 5 <= top <= |c.ram| && t.esp + 20 < 0x1_0000_0000
    requires c.regs == Popped(c.ram, t)
    ensures Resumed(c, ContextAt(c.ram, t.esp / 4, top), top)
  {
  }

  // Both stacks of a switch are in order and apart.
  ghost predicate CanSwitch(c: Core, prev: int, next: int, low: int, top: int, low': int, top': int) {
    && IsSlot(c.table, prev) && IsSlot(c.table, next) && prev != next
    && StackOk(c.ram, low, c.regs.esp, top, 6, 1)
    && StackOk(c.ram, low', c.table[next].esp, top', 2, 5) && c.table[next].esp + 20 < 0x1_0000_0000
    && Apart(low, top, low', top')
  }

  // A suspended task gets back the context it was suspended with.
  lemma SwitchResumes(c: Core, prev: int, next: int, low: int, top: int, low': int, top': int)
    requires CanSwitch(c, prev, next, low, top, low', top')
    ensures |Switched(c, prev, next).ram| == |c.ram|
    ensures Resumed(Switched(c, prev, next), ContextAt(c.ram, c.table[next].esp / 4, top'), top')
  {
    hide Pushed, Called, Popped, ContextAt, Resumed;
    var to := c.table[next];
    var m1, y := Pushed(c.ram, c.regs), to.esp / 4;
    PushedSaves(c.ram, c.regs, low, top);
    CalledBelow(m1, to, low', top');
    assert m1[y..top'] == c.ram[y..top'];
    ContextSame(c.ram, Called(m1, to), y, top');
    PopResumes(Switched(c, prev, next), to, top');
  }

  // The task that switches away is suspended with its own context.
  lemma SwitchSuspends(c: Core, prev: int, next: int, low: int, top: int, low': int, top': int)
    requires CanSwitch(c, prev, next, low, top, low', top')
    ensures |Switched(c, prev, next).ram| == |c.ram|
    ensures ContextAt(Switched(c, prev, next).ram, c.regs.esp / 4 - 4, top) == ContextOf(c.ram, c.regs, c.regs.esp / 4, top)
  {
    hide Pushed, Called, Popped, ContextAt, ContextOf;
    var to := c.table[next];
    var m1, x := Pushed(c.ram, c.regs), c.regs.esp / 4;
    PushedSaves(c.ram, c.regs, low, top);
    CalledBelow(m1, to, low', top');
    assert Called(m1, to)[x - 4..top] == m1[x - 4..top];
    ContextSame(m1, Called(m1, to), x - 4, top);
  }

  // Memory outside the two stacks, such as the stack of a third task, is not touched.
  lemma SwitchLeavesOthers(c: Core, prev: int, next: int, low: int, top: int, low': int, top': int, a: int, b: int)
    requires CanSwitch(c, prev, next, low, top, low', top')
    requires 0 <= a <= b <= |c.ram| && Apart(low, top, a, b) && Apart(low', top', a, b)
    ensures |Switched(c, prev, next).ram| == |c.ram|
    ensures Switched(c, prev, next).ram[a..b] == c.ram[a..b]
  {
    PushedSaves(c.ram, c.regs, low, top);
    CalledBelow(Pushed(c.ram, c.regs), c.table[next], low', top');
    hide Pushed, Called, Popped;
  }

  // After the switch the processor is in the next task's address space, and traps from user
  // mode will use its kernel stack. Of the task table only the previous task's stack pointer
  // has changed.
  lemma SwitchLoads(c: Core, prev: int, next: int)
    requires IsSlot(c.table, prev) && IsSlot(c.table, next) && prev != next
    requires 16 <= c.regs.esp && c.table[next].esp + 20 < 0x1_0000_0000
    ensures
      var c', to := Switched(c, prev, next), c.table[next];
      && c'.cr3 == to.pageDir && c'.tssStack == to.kstack
      && (c.cr3 == c.directory || to.pageDir != c.cr3 ==> c'.directory == to.pageDir)
      && |c'.table| == |c.table| && c'.table[prev] == c.table[prev].(esp := c.regs.esp - 16)
      && (forall i :: 0 <= i < |c.table| && i != prev ==> c'.table[i] == c.table[i])
      && (8 <= to.esp && to.esp / 4 <= |c.ram| ==> c'.ram[to.esp / 4 - 1] == to.kstack)
  {
  }
}
