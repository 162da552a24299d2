/** What several parts of the kernel model share: optional values, task states, 32-bit arithmetic. */
module Basics {

  datatype Option<+T> = None | Some(value: T)

  /** The states of a task (inc/task.h); a task never given one is Unset. */
  datatype Status = Unset | Running | Waiting | Blocked

  const PAGE := 4096

  const TWO32: nat := 0x1_0000_0000

  /** 32-bit wrap-around. */
  function Wrap(x: nat): (r: nat)
    ensures r < TWO32 && (x < TWO32 ==> r == x)
  {
    if x < TWO32 then x else x % TWO32
  }

  function Min(x: nat, y: nat): (r: nat) {
    if x <= y then x else y
  }
}
