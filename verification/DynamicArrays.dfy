/** `DYNAMIC_ARRAY`: an array that grows by whole increments, seen as a sequence. */
module DynamicArrays {
  import opened Numbers

  /** The number of elements that `allocate_dynamic` asks for. */
  function RoundedSize(idx: nat, increment: nat): nat
    requires increment > 0
  {
    (idx + increment) / increment * increment
  }

  /** It is the multiple of the increment that is above `idx` by no more than one increment. */
  lemma RoundedSizeFits(idx: nat, increment: nat)
    requires increment > 0
    ensures idx < RoundedSize(idx, increment) <= idx + increment
    ensures exists k: nat :: RoundedSize(idx, increment) == k * increment
  {
    var n := idx + increment;
    assert n == n / increment * increment + n % increment;
    var k: nat := n / increment;
    assert RoundedSize(idx, increment) == k * increment;
  }

  /** The number of bytes that the code asks for, an `uint` product. */
  function ByteSize(elements: nat, elementSize: nat): nat {
    elements * elementSize % (UINT_MAX + 1)
  }

  /** It is enough for the elements exactly if the product fits. */
  lemma ByteSizeFits(elements: nat, elementSize: nat)
    ensures ByteSize(elements, elementSize) >= elements * elementSize <==> elements * elementSize <= UINT_MAX
  {
  }

  /** With eight-byte elements, sixteen at a time, the request for index 0x2000_0000 comes down to 128 bytes. */
  lemma ByteSizeExample()
    ensures RoundedSize(0x2000_0000, 16) == 0x2000_0010 && ByteSize(0x2000_0010, 8) == 128
    ensures ByteSize(0x1fff_ffff, 8) == 0xffff_fff8
  {
  }

  /** What `set_dynamic` does to the sequence: replace, or append behind zeroes. */
  function Assigned<T>(s: seq<T>, idx: nat, e: T, zero: T): seq<T> {
    if idx < |s| then s[idx := e] else s + seq(idx - |s|, k => zero) + [e]
  }

  class DynamicArray<T(0)> {
    var buffer: array<T>
    var elements: nat
    var maxElement: nat
    const allocIncrement: nat
    const elementSize: nat
    const zero: T

    ghost predicate Valid()
      reads this
    {
      && elements <= maxElement == buffer.Length && allocIncrement > 0 && elementSize > 0
      && maxElement * elementSize <= UINT_MAX
    }

    ghost function Contents(): seq<T>
      reads this, buffer
      requires Valid()
    {
      buffer[..elements]
    }

    /** `init_dynamic_array2` with a buffer of its own; without memory the array starts with no room. */
    constructor (elementSize: nat, initAlloc: nat, allocIncrement: nat, zero: T, allocOk: bool)
      requires allocIncrement > 0 && elementSize > 0
      requires (if initAlloc == 0 then allocIncrement else initAlloc) * elementSize <= UINT_MAX
      ensures Valid() && fresh(buffer) && Contents() == [] && this.zero == zero
      ensures this.allocIncrement == allocIncrement && this.elementSize == elementSize
      ensures maxElement == if !allocOk then 0 else if initAlloc == 0 then allocIncrement else initAlloc
    {
      var n := if !allocOk then 0 else if initAlloc == 0 then allocIncrement else initAlloc;
      buffer, maxElement, elements := new T[n], n, 0;
      this.allocIncrement, this.elementSize, this.zero := allocIncrement, elementSize, zero;
    }

    /** `my_realloc` to `size` elements: the old elements and then anything. */
    method Realloc(size: nat)
      requires Valid() && maxElement <= size && size * elementSize <= UINT_MAX
      modifies this
      ensures Valid() && fresh(buffer) && Contents() == old(Contents())
      ensures maxElement == size && elements == old(elements)
    {
      var bigger := new T[size];
      for k := 0 to elements
        invariant Valid() && unchanged(this) && unchanged(buffer) && fresh(bigger)
        invariant forall x :: 0 <= x < k ==> bigger[x] == buffer[x]
      {
        bigger[k] := buffer[k];
      }
      buffer, maxElement := bigger, size;
    }

    /** `insert_dynamic` (with `alloc_dynamic`): append, or fail and change nothing. */
    method Insert(e: T, allocOk: bool) returns (failed: bool)
      requires Valid() && (elements == maxElement ==> (maxElement + allocIncrement) * elementSize <= UINT_MAX)
      modifies this, buffer
      ensures Valid() && (buffer == old(buffer) || fresh(buffer))
      ensures failed <==> old(elements) == old(maxElement) && !allocOk
      ensures Contents() == if failed then old(Contents()) else old(Contents()) + [e]
      ensures maxElement == old(maxElement) + if old(elements) == old(maxElement) && allocOk then allocIncrement else 0
    {
      if elements == maxElement {
        if !allocOk {
          return true;
        }
        Realloc(maxElement + allocIncrement);
      }
      buffer[elements] := e;
      elements := elements + 1;
      return false;
    }

    /** `allocate_dynamic`: room for an element at `idx`. */
    method Allocate(idx: nat, allocOk: bool) returns (failed: bool)
      requires Valid() && (idx >= maxElement ==> RoundedSize(idx, allocIncrement) * elementSize <= UINT_MAX)
      requires idx >= maxElement ==> idx + allocIncrement <= UINT_MAX
      modifies this
      ensures Valid() && (buffer == old(buffer) || fresh(buffer)) && Contents() == old(Contents())
      ensures failed <==> idx >= old(maxElement) && !allocOk
      ensures !failed ==> idx < maxElement
      ensures maxElement
              == if idx < old(maxElement) || !allocOk then old(maxElement) else RoundedSize(idx, allocIncrement)
      ensures elements == old(elements)
    {
      if idx >= maxElement {
        if !allocOk {
          return true;
        }
        RoundedSizeFits(idx, allocIncrement);
        Realloc(RoundedSize(idx, allocIncrement));
      }
      return false;
    }

    /** `set_dynamic`: assign at any index, with zeroes in the gap, or fail and change nothing. */
    method Set(e: T, idx: nat, allocOk: bool) returns (failed: bool)
      requires Valid() && (idx >= maxElement ==> RoundedSize(idx, allocIncrement) * elementSize <= UINT_MAX)
      requires idx >= maxElement ==> idx + allocIncrement <= UINT_MAX
      modifies this, buffer
      ensures Valid() && (buffer == old(buffer) || fresh(buffer))
      ensures failed <==> idx >= old(maxElement) && !allocOk
      ensures Contents() == if failed then old(Contents()) else Assigned(old(Contents()), idx, e, zero)
      ensures maxElement
              == if idx < old(maxElement) || !allocOk then old(maxElement) else RoundedSize(idx, allocIncrement)
    {
      if idx >= elements {
        if idx >= maxElement {
          var noRoom := Allocate(idx, allocOk);
          if noRoom {
            return true;
          }
        }
        ZeroFill(elements, idx);
        elements := idx + 1;
      }
      ghost var s := Contents();
      buffer[idx] := e;
      assert Contents() == s[idx := e];
      return false;
    }

    /** `bzero` on the elements from `from` up to `to`. */
    method ZeroFill(from: nat, to: nat)
      requires Valid() && from <= to <= maxElement
      modifies buffer
      ensures buffer[..to] == old(buffer[..from]) + seq(to - from, k => zero)
      ensures buffer[to..] == old(buffer[to..])
    {
      for k := from to to
        invariant forall x :: from <= x < k ==> buffer[x] == zero
        invariant forall x :: 0 <= x < maxElement && !(from <= x < k) ==> buffer[x] == old(buffer[x])
      {
        buffer[k] := zero;
      }
    }

    /** `pop_dynamic`: the index of the element taken off, or -1 for an empty array. */
    method Pop() returns (at: int)
      requires Valid()
      modifies `elements
      ensures Valid()
      ensures at == old(elements) - 1
      ensures Contents() == if at < 0 then old(Contents()) else old(Contents())[..at]
    {
      if elements > 0 {
        elements := elements - 1;
        return elements;
      }
      return -1;
    }

    /** `delete_dynamic_element`. */
    method Delete(idx: nat)
      requires Valid() && idx < elements
      modifies `elements, buffer
      ensures Valid()
      ensures Contents() == old(Contents())[..idx] + old(Contents())[idx + 1..]
    {
      elements := elements - 1;
      for k := idx to elements
        invariant elements == old(elements) - 1
        invariant forall x :: 0 <= x < idx ==> buffer[x] == old(buffer[x])
        invariant forall x :: idx <= x < k ==> buffer[x] == old(buffer[x + 1])
        invariant forall x :: k <= x < maxElement ==> buffer[x] == old(buffer[x])
      {
        buffer[k] := buffer[k + 1];
      }
    }

    /** `get_dynamic`: zero beyond the end. */
    method Get(idx: nat) returns (e: T)
      requires Valid()
      ensures e == if idx < |Contents()| then Contents()[idx] else zero
    {
      if idx >= elements {
        return zero;
      }
      return buffer[idx];
    }
  }

  // ----- runs

  /** A call with its arguments; `allocOk` says whether an allocation it makes succeeds. */
  datatype Call<T> =
    | InsertCall(e: T, allocOk: bool)
    | SetCall(e: T, idx: nat, allocOk: bool)
    | PopCall
    | DeleteCall(idx: nat)

  /** What the caller sees; `NotMade` is for deleting at an index that no element has, which is not done at all. */
  datatype Answer<T> = Done | Failed | Popped(e: T) | Empty | NotMade

  /** What a call does to the sequence. */
  function Applied<T>(s: seq<T>, c: Call<T>, failed: bool, zero: T): seq<T> {
    match c
    case InsertCall(e, _) => if failed then s else s + [e]
    case SetCall(e, idx, _) => if failed then s else Assigned(s, idx, e, zero)
    case PopCall => if s == [] then s else s[..|s| - 1]
    case DeleteCall(idx) => if idx < |s| then s[..idx] + s[idx + 1..] else s
  }

  function AnswerTo<T>(s: seq<T>, c: Call<T>, failed: bool): Answer<T> {
    match c
    case InsertCall(_, _) => if failed then Failed else Done
    case SetCall(_, _, _) => if failed then Failed else Done
    case PopCall => if s == [] then Empty else Popped(s[|s| - 1])
    case DeleteCall(idx) => if idx < |s| then Done else NotMade
  }

  /** A call fails when it needs room and gets no memory. */
  predicate Fails<T>(s: seq<T>, room: nat, c: Call<T>) {
    match c
    case InsertCall(_, allocOk) => |s| == room && !allocOk
    case SetCall(_, idx, allocOk) => idx >= room && !allocOk
    case _ => false
  }

  /** The room after a call. */
  function Room<T>(s: seq<T>, room: nat, increment: nat, c: Call<T>): nat
    requires increment > 0
  {
    match c
    case InsertCall(_, allocOk) => if |s| == room && allocOk then room + increment else room
    case SetCall(_, idx, allocOk) => if idx >= room && allocOk then RoundedSize(idx, increment) else room
    case _ => room
  }

  /** The reference: a sequence and the room that there is for it. */
  datatype Store<T> = Store(s: seq<T>, room: nat)

  function After<T>(st: Store<T>, calls: seq<Call<T>>, increment: nat, zero: T): Store<T>
    requires increment > 0
  {
    if calls == [] then st
    else
      var n := |calls| - 1;
      var u, c := After(st, calls[..n], increment, zero), calls[n];
      Store(Applied(u.s, c, Fails(u.s, u.room, c), zero), Room(u.s, u.room, increment, c))
  }

  function Answers<T>(st: Store<T>, calls: seq<Call<T>>, increment: nat, zero: T): seq<Answer<T>>
    requires increment > 0
  {
    if calls == [] then []
    else
      var n := |calls| - 1;
      var u := After(st, calls[..n], increment, zero);
      Answers(st, calls[..n], increment, zero) + [AnswerTo(u.s, calls[n], Fails(u.s, u.room, calls[n]))]
  }

  /** No sequence that the calls make is longer: every insertion counts, and every index assigned to. */
  function Reach<T>(calls: seq<Call<T>>): nat {
    if calls == [] then 0
    else
      var r, c := Reach(calls[..|calls| - 1]), calls[|calls| - 1];
      match c
      case InsertCall(_, _) => r + 1
      case SetCall(_, idx, _) => if idx >= r then idx + 1 else r
      case _ => r
  }

  /** One more call. */
  lemma OneMore<T>(st: Store<T>, calls: seq<Call<T>>, k: nat, increment: nat, zero: T)
    requires increment > 0 && k < |calls|
    ensures var u := After(st, calls[..k], increment, zero);
            && After(st, calls[..k + 1], increment, zero)
               == Store(Applied(u.s, calls[k], Fails(u.s, u.room, calls[k]), zero),
                        Room(u.s, u.room, increment, calls[k]))
            && Answers(st, calls[..k + 1], increment, zero)
               == Answers(st, calls[..k], increment, zero) + [AnswerTo(u.s, calls[k], Fails(u.s, u.room, calls[k]))]
  {
    assert calls[..k + 1][..k] == calls[..k];
  }

  lemma {:induction false} ReachGrows<T>(calls: seq<Call<T>>, k: nat)
    requires k < |calls|
    ensures Reach(calls[..k]) <= Reach(calls[..k + 1]) <= Reach(calls)
    ensures calls[k].InsertCall? ==> Reach(calls[..k + 1]) == Reach(calls[..k]) + 1
    ensures calls[k].SetCall? ==> calls[k].idx < Reach(calls[..k + 1])
    decreases |calls| - k
  {
    assert calls[..k + 1][..k] == calls[..k];
    if k + 1 < |calls| {
      ReachGrows(calls, k + 1);
    } else {
      assert calls[..k + 1] == calls;
    }
  }

  /** The sequence and, past the first allocation, the room stay within reach. */
  lemma {:induction false} WithinReach<T>(st: Store<T>, calls: seq<Call<T>>, k: nat, increment: nat, zero: T)
    requires increment > 0 && k <= |calls| && st.s == []
    ensures var u := After(st, calls[..k], increment, zero);
            |u.s| <= Reach(calls[..k]) && (u.room <= st.room || u.room <= Reach(calls[..k]) + increment)
    decreases k
  {
    if k > 0 {
      WithinReach(st, calls, k - 1, increment, zero);
      OneMore(st, calls, k - 1, increment, zero);
      ReachGrows(calls, k - 1);
      var u := After(st, calls[..k - 1], increment, zero);
      CallWithinReach(u, calls[k - 1], st.room, Reach(calls[..k - 1]), Reach(calls[..k]), increment, zero);
    }
  }

  lemma CallWithinReach<T>(u: Store<T>, c: Call<T>, room0: nat, reach: nat, reach': nat, increment: nat, zero: T)
    requires increment > 0 && reach <= reach' && |u.s| <= reach && (u.room <= room0 || u.room <= reach + increment)
    requires (c.InsertCall? ==> reach' == reach + 1) && (c.SetCall? ==> c.idx < reach')
    ensures |Applied(u.s, c, Fails(u.s, u.room, c), zero)| <= reach'
    ensures var room := Room(u.s, u.room, increment, c);
            room <= room0 || room <= reach' + increment
  {
    if c.SetCall? {
      RoundedSizeFits(c.idx, increment);
    }
  }

  /** The sizes that the call asks for are `uint`s. */
  predicate InUint<T>(st: Store<T>, c: Call<T>, increment: nat, elementSize: nat)
    requires increment > 0
  {
    match c
    case InsertCall(_, _) => |st.s| == st.room ==> (st.room + increment) * elementSize <= UINT_MAX
    case SetCall(_, idx, _) =>
      idx >= st.room ==> idx + increment <= UINT_MAX && RoundedSize(idx, increment) * elementSize <= UINT_MAX
    case _ => true
  }

  /** They are if the reach of all calls and one increment are. */
  lemma ReachInUint<T>(st: Store<T>, calls: seq<Call<T>>, k: nat, increment: nat, elementSize: nat, zero: T)
    requires increment > 0 && elementSize > 0 && k < |calls| && st.s == []
    requires (Reach(calls) + increment) * elementSize <= UINT_MAX
    ensures InUint(After(st, calls[..k], increment, zero), calls[k], increment, elementSize)
  {
    WithinReach(st, calls, k, increment, zero);
    ReachGrows(calls, k);
    CallInUint(After(st, calls[..k], increment, zero), calls[k], increment, elementSize, Reach(calls));
  }

  lemma CallInUint<T>(u: Store<T>, c: Call<T>, increment: nat, elementSize: nat, reach: nat)
    requires increment > 0 && elementSize > 0 && |u.s| <= reach && (c.SetCall? ==> c.idx < reach)
    requires (reach + increment) * elementSize <= UINT_MAX
    ensures InUint(u, c, increment, elementSize)
  {
    MulMonotone(1, elementSize, reach + increment);
    if c.InsertCall? && |u.s| == u.room {
      MulMonotone(u.room + increment, reach + increment, elementSize);
    }
    if c.SetCall? {
      RoundedSizeFits(c.idx, increment);
      MulMonotone(RoundedSize(c.idx, increment), reach + increment, elementSize);
    }
  }

  method Apply<T(0)>(a: DynamicArray<T>, c: Call<T>) returns (answer: Answer<T>)
    requires a.Valid() && InUint(Store(a.Contents(), a.maxElement), c, a.allocIncrement, a.elementSize)
    modifies a, a.buffer
    ensures a.Valid() && (a.buffer == old(a.buffer) || fresh(a.buffer))
    ensures var failed := Fails(old(a.Contents()), old(a.maxElement), c);
            && a.Contents() == Applied(old(a.Contents()), c, failed, a.zero)
            && answer == AnswerTo(old(a.Contents()), c, failed)
    ensures a.maxElement == Room(old(a.Contents()), old(a.maxElement), a.allocIncrement, c)
  {
    answer := Done;
    match c {
      case InsertCall(e, allocOk) =>
        var failed := a.Insert(e, allocOk);
        answer := if failed then Failed else Done;
      case SetCall(e, idx, allocOk) =>
        var failed := a.Set(e, idx, allocOk);
        answer := if failed then Failed else Done;
      case PopCall =>
        var at := a.Pop();
        answer := if at < 0 then Empty else Popped(a.buffer[at]);
      case DeleteCall(idx) =>
        if idx < a.elements {
          a.Delete(idx);
        } else {
          answer := NotMade;
        }
    }
  }

  /**
   Any sequence of calls that ask for sizes that fit an `uint` of bytes: the array holds the sequence of the
   reference, has the same room, and gives the same answers. `ReachInUint` is a bound that a caller can test.
   */
  method Run<T(0)>(elementSize: nat, initAlloc: nat, increment: nat, zero: T, initOk: bool, calls: seq<Call<T>>)
    returns (a: DynamicArray<T>, answers: seq<Answer<T>>)
    requires increment > 0 && elementSize > 0
    requires (if initAlloc == 0 then increment else initAlloc) * elementSize <= UINT_MAX
    requires var st := Store([], if !initOk then 0 else if initAlloc == 0 then increment else initAlloc);
             forall k :: 0 <= k < |calls| ==>
               InUint(After(st, calls[..k], increment, zero), calls[k], increment, elementSize)
    ensures var st := Store([], if !initOk then 0 else if initAlloc == 0 then increment else initAlloc);
            && a.Valid() && Store(a.Contents(), a.maxElement) == After(st, calls, increment, zero)
            && answers == Answers(st, calls, increment, zero)
  {
    a := new DynamicArray(elementSize, initAlloc, increment, zero, initOk);
    answers := [];
    ghost var st: Store<T> := Store([], a.maxElement);
    for k := 0 to |calls|
      invariant fresh(a) && fresh(a.buffer) && a.Valid()
      invariant a.allocIncrement == increment && a.elementSize == elementSize && a.zero == zero
      invariant Store(a.Contents(), a.maxElement) == After(st, calls[..k], increment, zero)
      invariant answers == Answers(st, calls[..k], increment, zero)
    {
      OneMore(st, calls, k, increment, zero);
      var answer := Apply(a, calls[k]);
      answers := answers + [answer];
    }
    assert calls[..|calls|] == calls;
  }
}
