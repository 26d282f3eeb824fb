/** The bounded queue between a caller and a device worker (libsplit/src/Queue/LockFreeQueue.cpp),
    one call at a time. */
module LockFreeQueues {

  // The elements between the two indices of a ring, oldest first.
  ghost function Ring<T>(elements: seq<T>, idxR: nat, idxW: nat): (q: seq<T>)
    requires idxR < |elements| && idxW < |elements|
    ensures |q| == if idxW >= idxR then idxW - idxR else |elements| - idxR + idxW
  {
    if idxW >= idxR then elements[idxR..idxW] else elements[idxR..] + elements[..idxW]
  }

  class LockFreeQueue<T> {
    const size: nat
    const elements: array<T>
    var idxR: nat
    var idxW: nat

    ghost predicate Valid()
      reads this
    {
      elements.Length == size && idxR < size && idxW < size
    }

    ghost function Contents(): seq<T>
      requires Valid()
      reads this, elements
    {
      Ring(elements[..], idxR, idxW)
    }

    constructor (size: nat, init: T)
      requires size > 0
      ensures Valid() && this.size == size && fresh(elements) && Contents() == []
    {
      this.size := size;
      elements := new T[size](_ => init);
      idxR, idxW := 0, 0;
    }

    // Fails exactly when size - 1 elements are waiting.
    method Enqueue(element: T) returns (ok: bool)
      requires Valid()
      modifies this`idxW, elements
      ensures Valid()
      ensures ok <==> |old(Contents())| < size - 1
      ensures Contents() == if ok then old(Contents()) + [element] else old(Contents())
    {
      WrapAround(idxW, size);
      var nextIdxW := (idxW + 1) % size;
      if nextIdxW == idxR {
        return false;
      }
      ghost var before := elements[..];
      elements[idxW] := element;
      RingGrows(before, idxR, idxW, nextIdxW, element);
      assert elements[..] == before[idxW := element];
      idxW := nextIdxW;
      return true;
    }

    // Fails exactly when the queue is empty.
    method Dequeue(unused: T) returns (ok: bool, element: T)
      requires Valid()
      modifies this`idxR
      ensures Valid()
      ensures ok <==> old(Contents()) != []
      ensures if ok then old(Contents()) == [element] + Contents() else Contents() == []
    {
      if idxR == idxW {
        return false, unused;
      }
      WrapAround(idxR, size);
      var nextIdxR := (idxR + 1) % size;
      element := elements[idxR];
      RingShrinks(elements[..], idxR, idxW, nextIdxR);
      idxR := nextIdxR;
      ok := true;
    }

    method Size() returns (n: nat)
      requires Valid()
      ensures n == |Contents()|
    {
      if idxW >= idxR {
        return idxW - idxR;
      }
      return size - idxR + idxW;
    }
  }

  lemma WrapAround(i: nat, size: nat)
    requires i < size
    ensures (i + 1) % size == if i + 1 == size then 0 else i + 1
  {
  }

  lemma RingGrows<T>(elements: seq<T>, idxR: nat, idxW: nat, next: nat, x: T)
    requires idxR < |elements| && idxW < |elements| && next != idxR
    requires next == if idxW + 1 == |elements| then 0 else idxW + 1
    ensures Ring(elements[idxW := x], idxR, next) == Ring(elements, idxR, idxW) + [x]
  {
    var after := elements[idxW := x];
    if next == 0 {
      assert after[idxR..] == elements[idxR..idxW] + [x];
    } else if idxW >= idxR {
      assert after[idxR..next] == elements[idxR..idxW] + [x];
    } else {
      assert after[idxR..] == elements[idxR..] && after[..next] == elements[..idxW] + [x];
    }
  }

  lemma RingShrinks<T>(elements: seq<T>, idxR: nat, idxW: nat, next: nat)
    requires idxR < |elements| && idxW < |elements| && idxR != idxW
    requires next == if idxR + 1 == |elements| then 0 else idxR + 1
    ensures Ring(elements, idxR, idxW) == [elements[idxR]] + Ring(elements, next, idxW)
  {
    if next == 0 {
      assert elements[idxR..] == [elements[idxR]];
    } else if idxW > idxR {
      FirstOf(elements, idxR, idxW);
    } else {
      FirstOf(elements, idxR, |elements|);
      assert elements[idxR..] == elements[idxR..|elements|] && elements[next..] == elements[next..|elements|];
    }
  }

  lemma FirstOf<T>(s: seq<T>, i: nat, j: nat)
    requires i < j <= |s|
    ensures s[i..j] == [s[i]] + s[i + 1..j]
  {
  }
}
