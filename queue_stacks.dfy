// Implement Queue using Stacks: a first-in first-out queue of integers
// built from Python lists used only as stacks (append, pop, [-1]). Each
// class is described by the queue it holds, front first; every operation
// is stated as its effect on that queue. Variants: two stacks with a lazy
// transfer (MyQueue), one stack kept front-on-top by moving everything
// twice on push (MyQueue2), one stack with a recursive push (MyQueue3),
// and two stacks with a cached front (MyQueue4). pop and peek on an empty
// queue raise IndexError in Python; they return None here.

module StackQueue {
  import opened Common
  import LinkedList

  /**
   * `while src: dst.append(src.pop())`: every element of src moves onto dst,
   * so src's top ends up lowest of the moved ones.
   */
  method Drain(src: seq<int>, dst: seq<int>) returns (src': seq<int>, dst': seq<int>)
    ensures src' == []
    ensures dst' == dst + LinkedList.Rev(src)
  {
    src', dst' := src, dst;
    while src' != []
      invariant dst' + LinkedList.Rev(src') == dst + LinkedList.Rev(src)
      decreases |src'|
    {
      var top := src'[|src'| - 1];
      LinkedList.RevSnoc(src'[..|src'| - 1], top);
      assert src' == src'[..|src'| - 1] + [top];
      src', dst' := src'[..|src'| - 1], dst' + [top];
    }
  }

  // ---------------------------------------------------------------------
  // MyQueue: push onto stack1, pop from stack2, refilling it only when empty

  class MyQueue {
    var stack1: seq<int>
    var stack2: seq<int>

    /** The queue, front first: stack2 from the top down, then stack1 from the bottom up. */
    ghost function Contents(): seq<int>
      reads this
    {
      LinkedList.Rev(stack2) + stack1
    }

    constructor ()
      ensures Contents() == []
    {
      stack1, stack2 := [], [];
    }

    /** push: x joins the back of the queue. */
    method Push(x: int)
      modifies this
      ensures Contents() == old(Contents()) + [x]
      ensures stack2 == old(stack2)
    {
      stack1 := stack1 + [x];
    }

    /** The refill both pop and peek perform when stack2 is empty: the queue is unchanged. */
    method Refill()
      requires stack2 == []
      modifies this
      ensures stack1 == [] && Contents() == old(Contents())
      ensures stack2 != [] <==> old(stack1) != []
    {
      var s1, s2 := Drain(stack1, stack2);
      LinkedList.RevRev(stack1);
      stack1, stack2 := s1, s2;
    }

    /** pop: the front leaves the queue; None (IndexError) when the queue is empty. */
    method Pop() returns (r: Option<int>)
      modifies this
      ensures old(Contents()) == [] ==> r == None && Contents() == []
      ensures old(Contents()) != [] ==> r == Some(old(Contents())[0]) && Contents() == old(Contents())[1..]
    {
      if stack2 == [] {
        Refill();
      }
      if stack2 == [] {
        r := None;
      } else {
        var top := stack2[|stack2| - 1];
        LinkedList.RevSnoc(stack2[..|stack2| - 1], top);
        assert stack2 == stack2[..|stack2| - 1] + [top];
        stack2 := stack2[..|stack2| - 1];
        r := Some(top);
      }
    }

    /** peek: the front, with the queue unchanged; None (IndexError) when it is empty. */
    method Peek() returns (r: Option<int>)
      modifies this
      ensures Contents() == old(Contents())
      ensures old(Contents()) == [] ==> r == None
      ensures old(Contents()) != [] ==> r == Some(old(Contents())[0])
    {
      if stack2 == [] {
        Refill();
      }
      if stack2 == [] {
        r := None;
      } else {
        r := Some(stack2[|stack2| - 1]);
      }
    }

    /** empty: both stacks are empty exactly when the queue is. */
    method Empty() returns (b: bool)
      ensures b <==> Contents() == []
    {
      b := stack1 == [] && stack2 == [];
    }
  }

  // ---------------------------------------------------------------------
  // MyQueue2: stack1 always holds the queue with its front on top

  class MyQueue2 {
    var stack1: seq<int>
    var stack2: seq<int>

    /** Between operations the helper stack is empty. */
    ghost predicate Valid()
      reads this
    {
      stack2 == []
    }

    /** The queue, front first: stack1 from the top down. */
    ghost function Contents(): seq<int>
      reads this
    {
      LinkedList.Rev(stack1)
    }

    constructor ()
      ensures Valid() && Contents() == []
    {
      stack1, stack2 := [], [];
    }

    /** push: move everything aside, put x at the bottom, move everything back. */
    method Push(x: int)
      requires Valid()
      modifies this
      ensures Valid() && Contents() == old(Contents()) + [x]
      ensures stack1 == [x] + old(stack1)
    {
      stack1, stack2 := Drain(stack1, stack2);
      stack1 := stack1 + [x];
      stack2, stack1 := Drain(stack2, stack1);
      LinkedList.RevRev(old(stack1));
      LinkedList.RevAppend([x], old(stack1));
    }

    /** pop: the top of stack1 is the front; None (IndexError) when the queue is empty. */
    method Pop() returns (r: Option<int>)
      requires Valid()
      modifies this
      ensures Valid()
      ensures old(Contents()) == [] ==> r == None && Contents() == []
      ensures old(Contents()) != [] ==> r == Some(old(Contents())[0]) && Contents() == old(Contents())[1..]
    {
      if stack1 == [] {
        r := None;
      } else {
        var top := stack1[|stack1| - 1];
        LinkedList.RevSnoc(stack1[..|stack1| - 1], top);
        assert stack1 == stack1[..|stack1| - 1] + [top];
        stack1 := stack1[..|stack1| - 1];
        r := Some(top);
      }
    }

    /** peek: the top of stack1; None (IndexError) when the queue is empty. */
    method Peek() returns (r: Option<int>)
      requires Valid()
      ensures Contents() == [] ==> r == None
      ensures Contents() != [] ==> r == Some(Contents()[0])
    {
      r := if stack1 == [] then None else Some(stack1[|stack1| - 1]);
    }

    method Empty() returns (b: bool)
      ensures b <==> Contents() == []
    {
      b := stack1 == [];
    }
  }

  // ---------------------------------------------------------------------
  // MyQueue3: one stack, front on top, push recursing to the bottom

  class MyQueue3 {
    var stack: seq<int>

    /** The queue, front first: the stack from the top down. */
    ghost function Contents(): seq<int>
      reads this
    {
      LinkedList.Rev(stack)
    }

    constructor ()
      ensures Contents() == []
    {
      stack := [];
    }

    /** push: pop the top, push x beneath the rest, put the top back. */
    method Push(x: int)
      modifies this
      ensures stack == [x] + old(stack)
      ensures Contents() == old(Contents()) + [x]
      decreases |stack|
    {
      if stack == [] {
        stack := stack + [x];
      } else {
        var temp := stack[|stack| - 1];
        var rest := stack[..|stack| - 1];
        assert stack == rest + [temp];
        stack := rest;
        Push(x);
        stack := stack + [temp];
        assert stack == [x] + (rest + [temp]);
      }
      LinkedList.RevAppend([x], old(stack));
    }

    /** pop: the top is the front; None (IndexError) when the queue is empty. */
    method Pop() returns (r: Option<int>)
      modifies this
      ensures old(Contents()) == [] ==> r == None && Contents() == []
      ensures old(Contents()) != [] ==> r == Some(old(Contents())[0]) && Contents() == old(Contents())[1..]
    {
      if stack == [] {
        r := None;
      } else {
        var top := stack[|stack| - 1];
        LinkedList.RevSnoc(stack[..|stack| - 1], top);
        assert stack == stack[..|stack| - 1] + [top];
        stack := stack[..|stack| - 1];
        r := Some(top);
      }
    }

    method Peek() returns (r: Option<int>)
      ensures Contents() == [] ==> r == None
      ensures Contents() != [] ==> r == Some(Contents()[0])
    {
      r := if stack == [] then None else Some(stack[|stack| - 1]);
    }

    method Empty() returns (b: bool)
      ensures b <==> Contents() == []
    {
      b := stack == [];
    }
  }

  // ---------------------------------------------------------------------
  // MyQueue4: MyQueue with the bottom of stack1 cached as front

  class MyQueue4 {
    var stack1: seq<int>
    var stack2: seq<int>
    var front: Option<int>

    /** front is the bottom of stack1 whenever stack1 holds anything. */
    ghost predicate Valid()
      reads this
    {
      stack1 != [] ==> front == Some(stack1[0])
    }

    ghost function Contents(): seq<int>
      reads this
    {
      LinkedList.Rev(stack2) + stack1
    }

    constructor ()
      ensures Valid() && Contents() == [] && front == None
    {
      stack1, stack2, front := [], [], None;
    }

    /** push: a push onto an empty stack1 becomes the cached front. */
    method Push(x: int)
      requires Valid()
      modifies this
      ensures Valid() && Contents() == old(Contents()) + [x]
      ensures stack1 == old(stack1) + [x] && stack2 == old(stack2)
    {
      if stack1 == [] {
        front := Some(x);
      }
      stack1 := stack1 + [x];
    }

    /** Pop's refill: the queue and the cached front are unchanged. */
    method Refill()
      requires Valid() && stack2 == []
      modifies this
      ensures Valid() && front == old(front)
      ensures stack1 == [] && Contents() == old(Contents())
      ensures stack2 != [] <==> old(stack1) != []
    {
      var s1, s2 := Drain(stack1, stack2);
      LinkedList.RevRev(stack1);
      stack1, stack2 := s1, s2;
    }

    /** pop: refill stack2 when it is empty, then pop its top; None (IndexError) when the queue is empty. */
    method Pop() returns (r: Option<int>)
      requires Valid()
      modifies this
      ensures Valid() && front == old(front)
      ensures old(Contents()) == [] ==> r == None && Contents() == []
      ensures old(Contents()) != [] ==> r == Some(old(Contents())[0]) && Contents() == old(Contents())[1..]
    {
      if stack2 == [] {
        Refill();
      }
      if stack2 == [] {
        r := None;
      } else {
        var top := stack2[|stack2| - 1];
        LinkedList.RevSnoc(stack2[..|stack2| - 1], top);
        assert stack2 == stack2[..|stack2| - 1] + [top];
        stack2 := stack2[..|stack2| - 1];
        r := Some(top);
      }
    }

    /**
     * peek: the top of stack2, else the cached front. On a non-empty queue
     * that is the front; on an empty one it is whatever front last held.
     */
    method Peek() returns (r: Option<int>)
      requires Valid()
      ensures Contents() != [] ==> r == Some(Contents()[0])
      ensures Contents() == [] ==> r == front
    {
      if stack2 != [] {
        r := Some(stack2[|stack2| - 1]);
      } else {
        r := front;
      }
    }

    method Empty() returns (b: bool)
      ensures b <==> Contents() == []
    {
      b := stack1 == [] && stack2 == [];
    }
  }

  /** The stale front: after one push and one pop, peek on the empty queue still gives the popped value. */
  method StalePeek() returns (r: Option<int>)
    ensures r == Some(1)
  {
    var q := new MyQueue4();
    q.Push(1);
    var _ := q.Pop();
    r := q.Peek();
  }
}
