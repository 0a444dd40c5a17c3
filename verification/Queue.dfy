/**
 The bounded queue with an amount counter that the transports and processors share. Each method is one
 section under the queue's mutex.
 */
module Queue {
  import opened Bytes

  /** The sum of the amounts of the elements. */
  function Total<T>(amountOf: T -> nat, elements: seq<T>): (total: nat)
  {
    if elements == [] then 0 else amountOf(elements[0]) + Total(amountOf, elements[1..])
  }

  lemma {:induction false} TotalAppend<T>(amountOf: T -> nat, a: seq<T>, b: seq<T>)
    ensures Total(amountOf, a + b) == Total(amountOf, a) + Total(amountOf, b)
  {
    if a == [] {
      assert a + b == b;
    } else {
      assert (a + b)[1..] == a[1..] + b;
      TotalAppend(amountOf, a[1..], b);
    }
  }

  class Queue<T> {
    const limit: nat
    const amountOf: T -> nat
    var elements: seq<T>
    var amount: int
    var stopping: bool

    /** The counter is the sum of the amounts. */
    ghost predicate Counted()
      reads this
    {
      amount == Total(amountOf, elements)
    }

    constructor (limit: nat, amountOf: T -> nat)
      ensures this.limit == limit && this.amountOf == amountOf
      ensures elements == [] && !stopping && Counted()
    {
      this.limit, this.amountOf := limit, amountOf;
      elements, amount, stopping := [], 0, false;
    }

    method Stop()
      modifies this`stopping
      ensures stopping
    {
      stopping := true;
    }

    predicate Running()
      reads this
    {
      elements != [] || !stopping
    }

    /** The caller waits until the queue is below its limit or stopping; a stopped queue drops the element. */
    method Push(element: T)
      requires limit == 0 || |elements| < limit || stopping
      modifies this`elements, this`amount
      ensures elements == if stopping then old(elements) else old(elements) + [element]
      ensures old(Counted()) ==> Counted()
      ensures limit > 0 && |old(elements)| <= limit ==> |elements| <= limit
    {
      if stopping {
        return;
      }
      TotalAppend(amountOf, elements, [element]);
      amount := amount + amountOf(element);
      elements := elements + [element];
    }

    method Pop() returns (element: Option<T>)
      modifies this`elements, this`amount
      ensures if old(elements) == [] then element == None && elements == []
              else element == Some(old(elements)[0]) && elements == old(elements)[1..]
      ensures old(Counted()) ==> Counted()
    {
      if elements == [] {
        return None;
      }
      amount := amount - amountOf(elements[0]);
      element := Some(elements[0]);
      elements := elements[1..];
    }

    method Peek() returns (element: Option<T>)
      ensures element == if elements == [] then None else Some(elements[0])
    {
      element := if elements != [] then Some(elements[0]) else None;
    }

    /**
     Replaces the first element and leaves the counter alone: it stays right exactly when the new
     element has the amount of the old one, as it always has where the queue counts elements.
     */
    method Exchange(element: T) returns (before: Option<T>)
      modifies this`elements
      ensures if old(elements) == [] then before == None && elements == []
              else before == Some(old(elements)[0]) && elements == [element] + old(elements)[1..]
      ensures old(Counted()) ==>
                (Counted() <==> old(elements) == [] || amountOf(element) == amountOf(old(elements)[0]))
    {
      if elements == [] {
        return None;
      }
      before := Some(elements[0]);
      elements := [element] + elements[1..];
    }
  }
}
