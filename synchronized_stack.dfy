/**
 * `internal::SynchronizedStack<T>`: a LIFO container guarded by a mutex.
 * Each operation holds the lock for its whole duration, so in a sequential
 * reading every operation is one atomic step and the lock disappears.
 * The stack's contents are a sequence whose last element is the top.
 */
module Stack {

  class SynchronizedStack<T> {
    /** `m_stack`, bottom first: the top is the last element. */
    var contents: seq<T>

    /** A new stack is empty. */
    constructor ()
      ensures contents == []
    {
      contents := [];
    }

    /** `push(val)`: `val` becomes the new top. */
    method Push(val: T)
      modifies this
      ensures contents == old(contents) + [val]
    {
      contents := contents + [val];
    }

    /**
     * `pop(T& val)`: on an empty stack reports `false` and leaves both the
     * stack and the caller's `val` alone; otherwise hands back the top,
     * removes it and reports `true`. The in/out reference is modelled as the
     * parameter `val` together with the result `out`.
     */
    method Pop(val: T) returns (ok: bool, out: T)
      modifies this
      ensures ok <==> old(contents) != []
      ensures !ok ==> out == val && contents == old(contents)
      ensures ok ==> out == old(contents)[|old(contents)| - 1]
      ensures ok ==> contents == old(contents)[..|old(contents)| - 1]
    {
      if contents == [] {
        return false, val;
      }
      out := contents[|contents| - 1];
      contents := contents[..|contents| - 1];
      ok := true;
    }
  }

  /**
   * LIFO discipline: a push followed by a pop hands back the pushed value
   * and restores the stack to what it was before the push.
   */
  method PushThenPop<T>(st: SynchronizedStack<T>, x: T, val: T) returns (ok: bool, out: T)
    modifies st
    ensures ok && out == x
    ensures st.contents == old(st.contents)
  {
    st.Push(x);
    ok, out := st.Pop(val);
    assert (old(st.contents) + [x])[..|old(st.contents)|] == old(st.contents);
  }
}
