/**
 * io.undertow.util.HeaderValues: the values of one header, kept as a deque
 * and list.  Size 0 and 1 are stored without an array (value is null or the
 * single HttpString); from size 2 on the values live in a circular array
 * window [head, head + size).  A full array grows to three times its length.
 *
 * Values are HttpStrings, modelled by their bytes; two values are equal when
 * HttpStrings.FoldEqual holds (HttpString.equals ignores ASCII case).  The
 * class implements the evidently intended deque; the index arithmetic the
 * source actually performs is kept in the AsWritten functions at the end,
 * each with an input on which it goes wrong.
 */
module HeaderValuesDeque {
  import opened Octets
  import HttpStrings

  /** A header value: the content of an HttpString. */
  type Value = seq<Byte>

  datatype Failure = IndexOutOfBounds | IllegalArgument | IllegalState | NoSuchElement

  datatype Outcome<T> = Ok(value: T) | Err(error: Failure)

  /** Byte.MAX_VALUE: size is a byte, so no offer succeeds at 127 values. */
  const MaxSize: nat := 127

  /** The physical slot of window position k, for a window starting at head that may wrap once around an array of length len. */
  function Slot(head: int, k: int, len: int): int {
    if head + k < len then head + k else head + k - len
  }

  /** Distinct positions of a window no longer than the array occupy distinct slots. */
  lemma SlotInjective(head: int, x: int, y: int, len: int)
    requires 0 <= head < len && 0 <= x < len && 0 <= y < len && x != y
    ensures Slot(head, x, len) != Slot(head, y, len)
  {
  }

  /** The logical values of an array window. */
  function Window(slots: seq<Value>, head: int, size: int): (w: seq<Value>)
    requires 0 <= head < |slots| && 0 <= size <= |slots|
    ensures |w| == size
    ensures forall i :: 0 <= i < size ==> w[i] == slots[Slot(head, i, |slots|)]
  {
    seq(size, i requires 0 <= i < size => slots[Slot(head, i, |slots|)])
  }

  /** The list after inserting v at index at. */
  function InsertAt(s: seq<Value>, at: nat, v: Value): (r: seq<Value>)
    requires at <= |s|
    ensures |r| == |s| + 1 && r[at] == v
    ensures forall k :: 0 <= k < at ==> r[k] == s[k]
    ensures forall k :: at < k <= |s| ==> r[k] == s[k - 1]
  {
    s[..at] + [v] + s[at..]
  }

  /** The list after addAll(index, c) inserts the elements of c in order; null elements and a full deque are skipped. */
  function AddAllSpec(s: seq<Value>, at: nat, c: seq<Option<Value>>): seq<Value>
    requires at <= |s|
    decreases |c|
  {
    if c == [] then s
    else if c[0].None? || |s| >= MaxSize then AddAllSpec(s, at, c[1..])
    else AddAllSpec(InsertAt(s, at, c[0].value), at + 1, c[1..])
  }

  class HeaderValues {
    const key: Value
    var head: nat
    var size: nat
    /** value instanceof HttpString[] */
    var isArray: bool
    /** value when it is a single HttpString */
    var single: Value
    var strings: array<Value>
    ghost var Contents: seq<Value>

    ghost predicate Valid()
      reads this, strings
    {
      size == |Contents| && size <= MaxSize
      && (!isArray ==> head == 0 && size <= 1 && (size == 1 ==> Contents == [single]))
      && (isArray ==>
            4 <= strings.Length && size <= strings.Length && head < strings.Length
            && forall i :: 0 <= i < size ==> Contents[i] == strings[Slot(head, i, strings.Length)])
    }

    /** HeaderValues(HttpString key) (HeaderValues.java:44-46): no values yet. */
    constructor (name: Value)
      ensures Valid() && key == name && Contents == []
    {
      key := name;
      head, size := 0, 0;
      isArray := false;
      single := [];
      strings := new Value[0];
      Contents := [];
    }

    /** The grown array of a full deque: three times the length, the values rebased to slot 0 with an empty slot at gap. */
    method Grow(gap: nat) returns (n: array<Value>)
      requires Valid() && isArray && gap <= size
      ensures fresh(n) && n.Length == 3 * strings.Length
      ensures forall k :: 0 <= k < gap ==> n[k] == Contents[k]
      ensures forall k :: gap < k <= size ==> n[k] == Contents[k - 1]
    {
      n := new Value[3 * strings.Length];
      var i := 0;
      while i < size
        invariant 0 <= i <= size
        invariant forall k :: 0 <= k < i && k < gap ==> n[k] == Contents[k]
        invariant forall k :: gap < k <= i ==> n[k] == Contents[k - 1]
        modifies n
      {
        if i < gap {
          n[i] := strings[Slot(head, i, strings.Length)];
        } else {
          n[i + 1] := strings[Slot(head, i, strings.Length)];
        }
        i := i + 1;
      }
    }

    /** The in-place System.arraycopy of offer(int): window positions from idx on move one place towards the end. */
    method OpenGap(idx: nat)
      requires Valid() && isArray && idx <= size < strings.Length
      modifies strings
      ensures forall k :: 0 <= k < idx ==> strings[Slot(head, k, strings.Length)] == Contents[k]
      ensures forall k :: idx < k <= size ==> strings[Slot(head, k, strings.Length)] == Contents[k - 1]
    {
      var len := strings.Length;
      var j := size;
      while j > idx
        invariant idx <= j <= size
        invariant len == strings.Length && head < len && size < len && size == |Contents|
        invariant forall k :: 0 <= k < j ==> strings[Slot(head, k, len)] == Contents[k]
        invariant forall k :: j < k <= size ==> strings[Slot(head, k, len)] == Contents[k - 1]
      {
        ShiftUp(j);
        j := j - 1;
      }
    }

    /** One copy of OpenGap: the value at window position j - 1 goes to position j, and no other position changes. */
    method ShiftUp(j: nat)
      requires head < strings.Length && size < strings.Length && 0 < j <= size
      modifies strings
      ensures strings[Slot(head, j, strings.Length)] == old(strings[Slot(head, j - 1, strings.Length)])
      ensures forall k :: 0 <= k <= size && k != j ==> strings[Slot(head, k, strings.Length)] == old(strings[Slot(head, k, strings.Length)])
    {
      var len := strings.Length;
      strings[Slot(head, j, len)] := strings[Slot(head, j - 1, len)];
      forall k | 0 <= k <= size && k != j
        ensures strings[Slot(head, k, len)] == old(strings[Slot(head, k, len)])
      {
        SlotInjective(head, k, j, len);
      }
    }

    /** The new first value of an array with a free slot goes just before head, wrapping to the last slot. */
    method PushFront(x: Value)
      requires Valid() && isArray && size < strings.Length && size < MaxSize
      modifies this`head, this`size, this`Contents, strings
      ensures Valid() && isArray
      ensures Contents == [x] + old(Contents)
    {
      var len := strings.Length;
      var h0 := head;
      ghost var c0 := Contents;
      head := if h0 == 0 then len - 1 else h0 - 1;
      strings[head] := x;
      size := size + 1;
      Contents := [x] + c0;
      forall i | 1 <= i < size
        ensures Contents[i] == strings[Slot(head, i, len)]
      {
        SlotInjective(h0, i - 1, len - 1, len);
        assert Slot(head, i, len) == Slot(h0, i - 1, len);
      }
    }

    /** offerFirst (HeaderValues.java:196-229), growing with the values rebased to slot 0 and the new head at the last slot. */
    method OfferFirst(v: Option<Value>) returns (ok: bool)
      requires Valid()
      modifies this, strings
      ensures Valid()
      ensures strings == old(strings) || fresh(strings)
      ensures ok <==> v.Some? && old(size) < MaxSize
      ensures Contents == if ok then [v.value] + old(Contents) else old(Contents)
    {
      if v.None? || size == MaxSize {
        return false;
      }
      ghost var c0 := Contents;
      if isArray {
        var len := strings.Length;
        if size == len {
          var n := Grow(size);
          n[3 * len - 1] := v.value;
          strings := n;
          head := 3 * len - 1;
          size := size + 1;
          Contents := [v.value] + c0;
          assert forall i :: 1 <= i < size ==> Slot(head, i, 3 * len) == i - 1;
        } else {
          PushFront(v.value);
        }
      } else {
        if size == 0 {
          single := v.value;
          size := 1;
        } else {
          var n := new Value[4];
          n[0], n[1] := v.value, single;
          strings := n;
          isArray := true;
          size := 2;
        }
        head := 0;
        Contents := [v.value] + c0;
      }
      ok := true;
    }

    /** offerLast (HeaderValues.java:231-264), growing with the values rebased to slot 0 and head reset to 0. */
    method OfferLast(v: Option<Value>) returns (ok: bool)
      requires Valid()
      modifies this, strings
      ensures Valid()
      ensures strings == old(strings) || fresh(strings)
      ensures ok <==> v.Some? && old(size) < MaxSize
      ensures Contents == if ok then old(Contents) + [v.value] else old(Contents)
    {
      if v.None? || size == MaxSize {
        return false;
      }
      if isArray {
        var len := strings.Length;
        var end := head + size;
        if size == len {
          var n := Grow(size);
          n[len] := v.value;
          strings := n;
          head := 0;
        } else if end >= len {
          strings[end - len] := v.value;
        } else {
          strings[end] := v.value;
        }
        size := size + 1;
      } else {
        if size == 0 {
          single := v.value;
          size := 1;
        } else {
          var n := new Value[4];
          n[0], n[1] := single, v.value;
          strings := n;
          isArray := true;
          size := 2;
        }
        head := 0;
      }
      Contents := Contents + [v.value];
      ok := true;
    }

    /** offer(int, HttpString) (HeaderValues.java:266-332): insertion at a list index. */
    method Offer(idx: int, v: Option<Value>) returns (ok: bool)
      requires Valid()
      modifies this, strings
      ensures Valid()
      ensures strings == old(strings) || fresh(strings)
      ensures ok <==> 0 <= idx <= old(size) && old(size) < MaxSize && v.Some?
      ensures Contents == if ok then InsertAt(old(Contents), idx, v.value) else old(Contents)
    {
      if idx < 0 || idx > size || size == MaxSize || v.None? {
        return false;
      }
      if idx == 0 {
        ok := OfferFirst(v);
        return;
      }
      if idx == size {
        ok := OfferLast(v);
        assert old(Contents)[..idx] == old(Contents) && old(Contents)[idx..] == [];
        return;
      }
      ghost var c0 := Contents;
      var len := strings.Length;
      if size == len {
        var n := Grow(idx);
        n[idx] := v.value;
        strings := n;
        head := 0;
        size := size + 1;
        Contents := InsertAt(c0, idx, v.value);
        assert forall k :: 0 <= k < size ==> Slot(0, k, 3 * len) == k;
      } else {
        OpenGap(idx);
        strings[Slot(head, idx, len)] := v.value;
        size := size + 1;
        Contents := InsertAt(c0, idx, v.value);
        forall k | 0 <= k < size
          ensures Contents[k] == strings[Slot(head, k, len)]
        {
          if k != idx {
            SlotInjective(head, k, idx, len);
          }
        }
      }
      ok := true;
    }

    /** pollFirst (HeaderValues.java:334-355), with head wrapping to 0 past the last slot. */
    method PollFirst() returns (r: Option<Value>)
      requires Valid()
      modifies this, strings
      ensures Valid()
      ensures old(size) == 0 ==> r == None && Contents == old(Contents)
      ensures old(size) > 0 ==> r == Some(old(Contents)[0]) && Contents == old(Contents)[1..]
    {
      if size == 0 {
        return None;
      }
      if !isArray {
        r := Some(single);
        size := 0;
        single := [];
      } else {
        var idx := head;
        head := Slot(head, 1, strings.Length);
        size := size - 1;
        r := Some(strings[idx]);
        strings[idx] := [];
      }
      Contents := Contents[1..];
    }

    /** pollLast (HeaderValues.java:357-377), with the wrapped slot computed with >=. */
    method PollLast() returns (r: Option<Value>)
      requires Valid()
      modifies this, strings
      ensures Valid()
      ensures old(size) == 0 ==> r == None && Contents == old(Contents)
      ensures old(size) > 0 ==> r == Some(old(Contents)[old(size) - 1]) && Contents == old(Contents)[..old(size) - 1]
    {
      if size == 0 {
        return None;
      }
      if !isArray {
        r := Some(single);
        size := 0;
        single := [];
      } else {
        size := size - 1;
        var idx := Slot(head, size, strings.Length);
        r := Some(strings[idx]);
        strings[idx] := [];
      }
      Contents := Contents[..size];
    }

    /** removeFirst (HeaderValues.java:623-629): NoSuchElementException on an empty deque. */
    method RemoveFirst() returns (r: Outcome<Value>)
      requires Valid()
      modifies this, strings
      ensures Valid()
      ensures old(size) == 0 ==> r == Err(NoSuchElement) && Contents == old(Contents)
      ensures old(size) > 0 ==> r == Ok(old(Contents)[0]) && Contents == old(Contents)[1..]
    {
      var s := PollFirst();
      if s.None? {
        return Err(NoSuchElement);
      }
      return Ok(s.value);
    }

    /** removeLast (HeaderValues.java:631-637). */
    method RemoveLast() returns (r: Outcome<Value>)
      requires Valid()
      modifies this, strings
      ensures Valid()
      ensures old(size) == 0 ==> r == Err(NoSuchElement) && Contents == old(Contents)
      ensures old(size) > 0 ==> r == Ok(old(Contents)[old(size) - 1]) && Contents == old(Contents)[..old(size) - 1]
    {
      var s := PollLast();
      if s.None? {
        return Err(NoSuchElement);
      }
      return Ok(s.value);
    }

    /** remove(int) (HeaderValues.java:379-415): the values after idx move one place to the front. */
    method Remove(idx: int) returns (r: Outcome<Value>)
      requires Valid()
      modifies this, strings
      ensures Valid()
      ensures !(0 <= idx < old(size)) ==> r == Err(IndexOutOfBounds) && Contents == old(Contents)
      ensures 0 <= idx < old(size) ==>
                r == Ok(old(Contents)[idx]) && Contents == old(Contents)[..idx] + old(Contents)[idx + 1..]
    {
      if idx < 0 || idx >= size {
        return Err(IndexOutOfBounds);
      }
      if idx == 0 {
        r := RemoveFirst();
        return;
      }
      if idx == size - 1 {
        r := RemoveLast();
        assert old(Contents)[idx + 1..] == [];
        return;
      }
      ghost var c0 := Contents;
      var len := strings.Length;
      r := Ok(strings[Slot(head, idx, len)]);
      CloseGap(idx);
      strings[Slot(head, size - 1, len)] := [];
      size := size - 1;
      Contents := c0[..idx] + c0[idx + 1..];
      assert forall k :: 0 <= k < size ==> Contents[k] == if k < idx then c0[k] else c0[k + 1];
    }

    /** The System.arraycopy of remove(int): window positions after idx move one place towards head. */
    method CloseGap(idx: nat)
      requires Valid() && isArray && idx < size
      modifies strings
      ensures forall k :: 0 <= k < idx ==> strings[Slot(head, k, strings.Length)] == Contents[k]
      ensures forall k :: idx <= k < size - 1 ==> strings[Slot(head, k, strings.Length)] == Contents[k + 1]
    {
      var len := strings.Length;
      var j := idx;
      while j < size - 1
        invariant idx <= j <= size - 1
        invariant len == strings.Length && head < len && size <= len && size == |Contents|
        invariant forall k :: 0 <= k < idx ==> strings[Slot(head, k, len)] == Contents[k]
        invariant forall k :: idx <= k < j ==> strings[Slot(head, k, len)] == Contents[k + 1]
        invariant forall k :: j < k < size ==> strings[Slot(head, k, len)] == Contents[k]
      {
        ShiftDown(j);
        j := j + 1;
      }
    }

    /** One copy of CloseGap: the value at window position j + 1 goes to position j, and no other position changes. */
    method ShiftDown(j: nat)
      requires head < strings.Length && size <= strings.Length && j + 1 < size
      modifies strings
      ensures strings[Slot(head, j, strings.Length)] == old(strings[Slot(head, j + 1, strings.Length)])
      ensures forall k :: 0 <= k < size && k != j ==> strings[Slot(head, k, strings.Length)] == old(strings[Slot(head, k, strings.Length)])
    {
      var len := strings.Length;
      strings[Slot(head, j, len)] := strings[Slot(head, j + 1, len)];
      forall k | 0 <= k < size && k != j
        ensures strings[Slot(head, k, len)] == old(strings[Slot(head, k, len)])
      {
        SlotInjective(head, k, j, len);
      }
    }

    /** get(int) (HeaderValues.java:417-429), rejecting every index outside [0, size). */
    method Get(idx: int) returns (r: Outcome<Value>)
      requires Valid()
      ensures 0 <= idx < size ==> r == Ok(Contents[idx])
      ensures !(0 <= idx < size) ==> r == Err(IndexOutOfBounds)
    {
      if idx < 0 || idx >= size {
        return Err(IndexOutOfBounds);
      }
      if !isArray {
        return Ok(single);
      }
      return Ok(strings[Slot(head, idx, strings.Length)]);
    }

    /** set(int, HttpString) (HeaderValues.java:467-487): returns the old value and replaces position index only. */
    method Set(index: int, element: Option<Value>) returns (r: Outcome<Value>)
      requires Valid()
      modifies this, strings
      ensures Valid()
      ensures element.None? ==> r == Err(IllegalArgument) && Contents == old(Contents)
      ensures element.Some? && !(0 <= index < old(size)) ==> r == Err(IndexOutOfBounds) && Contents == old(Contents)
      ensures element.Some? && 0 <= index < old(size) ==>
                r == Ok(old(Contents)[index]) && Contents == old(Contents)[index := element.value]
    {
      if element.None? {
        return Err(IllegalArgument);
      }
      if index < 0 || index >= size {
        return Err(IndexOutOfBounds);
      }
      if size == 1 && !isArray {
        r := Ok(single);
        single := element.value;
      } else {
        var i := Slot(head, index, strings.Length);
        r := Ok(strings[i]);
        strings[i] := element.value;
      }
      Contents := Contents[index := element.value];
    }

    /** indexOf (HeaderValues.java:431-447): the first position holding a value equal to o, or -1. */
    method IndexOf(o: Option<Value>) returns (r: int)
      requires Valid()
      ensures -1 <= r < size
      ensures r == -1 <==> o.None? || forall k :: 0 <= k < size ==> !HttpStrings.FoldEqual(Contents[k], o.value)
      ensures r >= 0 ==> o.Some? && HttpStrings.FoldEqual(Contents[r], o.value)
                         && forall k :: 0 <= k < r ==> !HttpStrings.FoldEqual(Contents[k], o.value)
    {
      if o.None? || size == 0 {
        return -1;
      }
      var i := 0;
      while i < size
        invariant 0 <= i <= size
        invariant forall k :: 0 <= k < i ==> !HttpStrings.FoldEqual(Contents[k], o.value)
      {
        var x := if isArray then strings[Slot(head, i, strings.Length)] else single;
        assert x == Contents[i];
        var eq := HttpStrings.ArrayEqualIgnoreCase(x, o.value);
        if eq {
          return i;
        }
        i := i + 1;
      }
      return -1;
    }

    /** lastIndexOf (HeaderValues.java:449-465): the last position holding a value equal to o, or -1. */
    method LastIndexOf(o: Option<Value>) returns (r: int)
      requires Valid()
      ensures -1 <= r < size
      ensures r == -1 <==> o.None? || forall k :: 0 <= k < size ==> !HttpStrings.FoldEqual(Contents[k], o.value)
      ensures r >= 0 ==> o.Some? && HttpStrings.FoldEqual(Contents[r], o.value)
                         && forall k :: r < k < size ==> !HttpStrings.FoldEqual(Contents[k], o.value)
    {
      if o.None? || size == 0 {
        return -1;
      }
      var i := size;
      while i > 0
        invariant 0 <= i <= size
        invariant forall k :: i <= k < size ==> !HttpStrings.FoldEqual(Contents[k], o.value)
      {
        i := i - 1;
        var x := if isArray then strings[Slot(head, i, strings.Length)] else single;
        assert x == Contents[i];
        var eq := HttpStrings.ArrayEqualIgnoreCase(x, o.value);
        if eq {
          return i;
        }
      }
      return -1;
    }

    /** contains (HeaderValues.java:572-574). */
    method Contains(o: Option<Value>) returns (b: bool)
      requires Valid()
      ensures b <==> o.Some? && exists k :: 0 <= k < size && HttpStrings.FoldEqual(Contents[k], o.value)
    {
      var i := IndexOf(o);
      b := i != -1;
    }

    /** clear (HeaderValues.java:60-79): nulls the slots of the window and empties the deque; head returns to 0 unless the deque was already empty. */
    method Clear()
      requires Valid()
      modifies this, strings
      ensures Valid() && Contents == [] && size == 0
      ensures old(size) > 0 ==> head == 0
      ensures isArray == old(isArray) && strings == old(strings)
      ensures isArray ==> forall k :: 0 <= k < old(size) ==> strings[Slot(old(head), k, strings.Length)] == []
    {
      if size == 0 {
        return;
      }
      if isArray {
        var i := 0;
        while i < size
          invariant 0 <= i <= size
          invariant forall k :: 0 <= k < i ==> strings[Slot(head, k, strings.Length)] == []
          modifies strings
        {
          strings[Slot(head, i, strings.Length)] := [];
          i := i + 1;
        }
      } else {
        single := [];
      }
      head, size := 0, 0;
      Contents := [];
    }

    /** toArray() (HeaderValues.java:509-525): the values in list order. */
    method ToArray() returns (r: seq<Value>)
      requires Valid()
      ensures r == Contents
    {
      if size == 0 {
        return [];
      }
      if !isArray {
        return [single];
      }
      var len := strings.Length;
      var copyEnd := head + size;
      if copyEnd < len {
        r := strings[head..copyEnd];
      } else {
        r := strings[head..] + strings[..copyEnd - len];
      }
      assert forall i :: 0 <= i < size ==> r[i] == strings[Slot(head, i, len)];
    }

    /** peekFirst (HeaderValues.java:576-578): null on an empty deque. */
    method PeekFirst() returns (r: Option<Value>)
      requires Valid()
      ensures r == if size == 0 then None else Some(Contents[0])
    {
      if size == 0 {
        return None;
      }
      var g := Get(0);
      return Some(g.value);
    }

    /** peekLast (HeaderValues.java:580-582). */
    method PeekLast() returns (r: Option<Value>)
      requires Valid()
      ensures r == if size == 0 then None else Some(Contents[size - 1])
    {
      if size == 0 {
        return None;
      }
      var g := Get(size - 1);
      return Some(g.value);
    }

    /** getFirst (HeaderValues.java:639-645): NoSuchElementException on an empty deque. */
    method GetFirst() returns (r: Outcome<Value>)
      requires Valid()
      ensures r == if size == 0 then Err(NoSuchElement) else Ok(Contents[0])
    {
      var s := PeekFirst();
      if s.None? {
        return Err(NoSuchElement);
      }
      return Ok(s.value);
    }

    /** getLast (HeaderValues.java:647-653). */
    method GetLast() returns (r: Outcome<Value>)
      requires Valid()
      ensures r == if size == 0 then Err(NoSuchElement) else Ok(Contents[size - 1])
    {
      var s := PeekLast();
      if s.None? {
        return Err(NoSuchElement);
      }
      return Ok(s.value);
    }

    /** addFirst (HeaderValues.java:557-560): a null value is ignored; a refused offer is an IllegalStateException. */
    method AddFirst(s: Option<Value>) returns (err: Option<Failure>)
      requires Valid()
      modifies this, strings
      ensures Valid()
      ensures s.None? ==> err == None && Contents == old(Contents)
      ensures s.Some? && old(size) == MaxSize ==> err == Some(IllegalState) && Contents == old(Contents)
      ensures s.Some? && old(size) < MaxSize ==> err == None && Contents == [s.value] + old(Contents)
    {
      if s.None? {
        return None;
      }
      var ok := OfferFirst(s);
      err := if ok then None else Some(IllegalState);
    }

    /** addLast (HeaderValues.java:562-565); add(HttpString) (:594-597) is addLast returning true. */
    method AddLast(s: Option<Value>) returns (err: Option<Failure>)
      requires Valid()
      modifies this, strings
      ensures Valid()
      ensures s.None? ==> err == None && Contents == old(Contents)
      ensures s.Some? && old(size) == MaxSize ==> err == Some(IllegalState) && Contents == old(Contents)
      ensures s.Some? && old(size) < MaxSize ==> err == None && Contents == old(Contents) + [s.value]
    {
      if s.None? {
        return None;
      }
      var ok := OfferLast(s);
      err := if ok then None else Some(IllegalState);
    }

    /** add(int, HttpString) (HeaderValues.java:567-570): a bad index is also an IllegalStateException, since offer refuses it. */
    method Add(index: int, s: Option<Value>) returns (err: Option<Failure>)
      requires Valid()
      modifies this, strings
      ensures Valid()
      ensures s.None? ==> err == None && Contents == old(Contents)
      ensures s.Some? && !(0 <= index <= old(size) && old(size) < MaxSize) ==>
                err == Some(IllegalState) && Contents == old(Contents)
      ensures s.Some? && 0 <= index <= old(size) && old(size) < MaxSize ==>
                err == None && Contents == InsertAt(old(Contents), index, s.value)
    {
      if s.None? {
        return None;
      }
      var ok := Offer(index, s);
      err := if ok then None else Some(IllegalState);
    }

    /** removeFirstOccurrence (HeaderValues.java:584-587); remove(Object) (:659-661) delegates to it. */
    method RemoveFirstOccurrence(o: Option<Value>) returns (b: bool)
      requires Valid()
      modifies this, strings
      ensures Valid()
      ensures b <==> o.Some? && exists k :: 0 <= k < old(size) && HttpStrings.FoldEqual(old(Contents)[k], o.value)
      ensures !b ==> Contents == old(Contents)
      ensures b ==> (exists i :: 0 <= i < old(size) && HttpStrings.FoldEqual(old(Contents)[i], o.value)
                       && (forall k :: 0 <= k < i ==> !HttpStrings.FoldEqual(old(Contents)[k], o.value))
                       && Contents == old(Contents)[..i] + old(Contents)[i + 1..])
    {
      var i := IndexOf(o);
      if i == -1 {
        return false;
      }
      var r := Remove(i);
      b := true;
    }

    /** removeLastOccurrence (HeaderValues.java:589-592). */
    method RemoveLastOccurrence(o: Option<Value>) returns (b: bool)
      requires Valid()
      modifies this, strings
      ensures Valid()
      ensures b <==> o.Some? && exists k :: 0 <= k < old(size) && HttpStrings.FoldEqual(old(Contents)[k], o.value)
      ensures !b ==> Contents == old(Contents)
      ensures b ==> (exists i :: 0 <= i < old(size) && HttpStrings.FoldEqual(old(Contents)[i], o.value)
                       && (forall k :: i < k < old(size) ==> !HttpStrings.FoldEqual(old(Contents)[k], o.value))
                       && Contents == old(Contents)[..i] + old(Contents)[i + 1..])
    {
      var i := LastIndexOf(o);
      if i == -1 {
        return false;
      }
      var r := Remove(i);
      b := true;
    }

    /**
     * addAll(int, Collection) (HeaderValues.java:489-496), inserting the
     * elements in their own order (the source offers each one at the same
     * index; see AddAllAsWritten).  The result says whether anything was added.
     */
    method AddAll(index: int, c: seq<Option<Value>>) returns (r: Outcome<bool>)
      requires Valid()
      modifies this, strings
      ensures Valid()
      ensures !(0 <= index <= old(size)) ==> r == Err(IndexOutOfBounds) && Contents == old(Contents)
      ensures 0 <= index <= old(size) ==>
                Contents == AddAllSpec(old(Contents), index, c) && r == Ok(|Contents| > old(size))
    {
      if index < 0 || index > size {
        return Err(IndexOutOfBounds);
      }
      ghost var c0 := Contents;
      var at := index;
      var i := 0;
      var result := false;
      while i < |c|
        invariant Valid()
        invariant 0 <= i <= |c| && index <= at <= size
        invariant AddAllSpec(c0, index, c) == AddAllSpec(Contents, at, c[i..])
        invariant result <==> size > |c0|
        invariant size >= |c0|
        invariant strings == old(strings) || fresh(strings)
        decreases |c| - i
      {
        assert c[i..][1..] == c[i + 1..];
        var ok := Offer(at, c[i]);
        if ok {
          at := at + 1;
        }
        result := result || ok;
        i := i + 1;
      }
      r := Ok(result);
    }

    /**
     * addAll(Collection) (HeaderValues.java:663-665) as Deque.addAll and
     * Collection.addAll promise it: the values are appended at the end.  The
     * source inserts them at index 0 instead; see AddAllFirstAsWritten.
     */
    method AddAllLast(c: seq<Option<Value>>) returns (r: bool)
      requires Valid()
      modifies this, strings
      ensures Valid()
      ensures Contents == AddAllSpec(old(Contents), old(size), c) && r == (|Contents| > old(size))
    {
      var o := AddAll(size, c);
      r := o.value;
    }
  }

  // -----------------------------------------------------------------------
  // The index arithmetic as written, and where it goes wrong
  // -----------------------------------------------------------------------

  /** The wrap test of index() and of :348, :370, :439, :457: subtract len only when idx > len. */
  function WrapAsWritten(idx: int, len: int): int {
    if idx > len then idx - len else idx
  }

  /** With head 2 in an array of 4 holding 4 values, position 2 maps to slot 4, past the end; Wrap maps it to slot 0. */
  lemma WrapAsWrittenOverruns()
    ensures WrapAsWritten(2 + 2, 4) == 4 && Slot(2, 2, 4) == 0
  {
  }

  /** The guard of get (HeaderValues.java:418) as written: only idx > size is refused. */
  predicate GetAcceptsAsWritten(idx: int, size: int) {
    !(idx > size)
  }

  /** get(size) and get(-1) pass the guard, although neither names a value. */
  lemma GetGuardAsWrittenAdmitsBadIndexes(size: nat)
    ensures GetAcceptsAsWritten(size, size) && GetAcceptsAsWritten(-1, size)
  {
  }

  /** Arrays.copyOfRange on a slot array, padding with empty slots. */
  function CopySlots(a: seq<Value>, from: nat, to: nat): (r: seq<Value>)
    requires from <= |a| && from <= to
    ensures |r| == to - from
  {
    if to <= |a| then a[from..to] else a[from..] + seq(to - |a|, _ => [])
  }

  /** System.arraycopy(src, sp, dst, dp, n) with src and dst distinct. */
  function ArrayCopy(src: seq<Value>, sp: nat, dst: seq<Value>, dp: nat, n: nat): (r: seq<Value>)
    requires sp + n <= |src| && dp + n <= |dst|
    ensures |r| == |dst|
  {
    dst[..dp] + src[sp..sp + n] + dst[dp + n..]
  }

  /** The growth step of offerFirst as written (HeaderValues.java:205-211): the new head is the old head - 1. */
  function OfferFirstGrowAsWritten(slots: seq<Value>, head: nat, v: Value): Option<(seq<Value>, int)>
    requires 0 < |slots| && head < |slots|
  {
    var len := |slots|;
    var grown := CopySlots(slots, head, head + 3 * len);
    var copied := if head + len > len then ArrayCopy(slots, 0, grown, len - head, head) else grown;
    var newHead := JavaByte(head - 1);
    if 0 <= newHead < |copied| then Some((copied[newHead := v], newHead)) else None
  }

  /** A full array with head 0 makes the write at head - 1 throw; with head 3 the grown window loses the values. */
  lemma OfferFirstGrowAsWrittenFails(a: Value, b: Value, c: Value, d: Value, v: Value)
    requires b != []
    ensures OfferFirstGrowAsWritten([a, b, c, d], 0, v) == None
    ensures var r := OfferFirstGrowAsWritten([b, c, d, a], 3, v);
            r.Some? && 0 <= r.value.1 < |r.value.0|
            && Window(r.value.0, r.value.1, 5) != [v, a, b, c, d]
  {
    var r := OfferFirstGrowAsWritten([b, c, d, a], 3, v);
    assert r.value.1 == 2;
    assert Window(r.value.0, 2, 5)[2] == r.value.0[4] == [];
    assert [v, a, b, c, d][2] == b;
  }

  /** The growth step of offerLast as written (HeaderValues.java:240-246): the values are rebased but head is kept. */
  function OfferLastGrowAsWritten(slots: seq<Value>, head: nat, v: Value): (seq<Value>, int)
    requires 0 < |slots| && head < |slots|
  {
    var len := |slots|;
    var grown := CopySlots(slots, head, head + 3 * len);
    var copied := if head + len > len then ArrayCopy(slots, 0, grown, len - head, head) else grown;
    (copied[len := v], head)
  }

  lemma OfferLastGrowAsWrittenFails(a: Value, b: Value, c: Value, d: Value, v: Value)
    requires v != []
    ensures var r := OfferLastGrowAsWritten([c, d, a, b], 2, v);
            0 <= r.1 < |r.0| && Window(r.0, r.1, 5) != [a, b, c, d, v]
  {
    var r := OfferLastGrowAsWritten([c, d, a, b], 2, v);
    assert Window(r.0, 2, 5)[4] == r.0[6] == [];
    assert [a, b, c, d, v][4] == v;
  }

  /** pollFirst as written (HeaderValues.java:345): head only ever increments. */
  function PollFirstHeadAsWritten(head: int): int {
    head + 1
  }

  /** After polling the value in the last slot, the next access at position 0 goes to slot len. */
  lemma PollFirstHeadAsWrittenOverruns()
    ensures WrapAsWritten(PollFirstHeadAsWritten(3), 4) == 4
    ensures Slot(Slot(3, 1, 4), 0, 4) == 0
  {
  }

  /**
   * pollFirst's head++ as written (HeaderValues.java:40, 345): head is a Java
   * byte, so the increment narrows and 127 becomes -128.
   */
  function PollFirstByteHeadAsWritten(head: int): int {
    JavaByte(head + 1)
  }

  /** The slot offerLast writes into when the array is not full (HeaderValues.java:238, 247-251). */
  function OfferLastSlotAsWritten(head: int, size: int, len: int): int {
    var end := head + size;
    if end >= len then end - len else end
  }

  /**
   * With 324 slots and 108 values, alternating pollFirst and offerLast moves
   * head up by one each round; heads up to 126 step to the next slot, but the
   * poll at head 127 leaves head -128, and the next offerLast writes to slot -20.
   * With an int head the same poll moves head to 128 and offerLast writes to slot 236.
   */
  lemma PollFirstByteHeadAsWrittenOverflows()
    ensures forall h :: 0 <= h < 127 ==> PollFirstByteHeadAsWritten(h) == h + 1
    ensures PollFirstByteHeadAsWritten(127) == -128
    ensures OfferLastSlotAsWritten(PollFirstByteHeadAsWritten(127), 108, 324) == -20
    ensures Slot(Slot(127, 1, 324), 108, 324) == 236
  {
  }

  /**
   * remove(int) on an array window, as written (HeaderValues.java:379-415),
   * for 0 < idx < size - 1: the slots after the finally block's copy and the
   * value returned, or None where the read or the copy throws (then size is
   * not decremented and nothing changes).  head is never moved.
   */
  function RemoveAsWritten(slots: seq<Value>, head: nat, size: nat, idx: nat): Option<(seq<Value>, Value)>
    requires 2 < size <= |slots| && head < |slots| && 0 < idx < size - 1
  {
    var len := |slots|;
    var headIdx := head + idx;
    if head + size > len then
      if headIdx > len then
        Some((ArrayCopy(slots, headIdx + 1 - len, slots, headIdx - len, size - idx - 1), slots[headIdx - len]))
      else if headIdx < len then
        Some((ArrayCopy(slots, head, slots, head + 1, idx), slots[headIdx]))
      else None
    else Some((ArrayCopy(slots, headIdx + 1, slots, headIdx, size - idx - 1), slots[headIdx]))
  }

  /** Removing position 1 of [a, b, c, d] stored from head 2 leaves [a, a, c]: head was not advanced past the shift. */
  lemma RemoveFrontAsWrittenDuplicates(a: Value, b: Value, c: Value, d: Value)
    requires a != c
    ensures var r := RemoveAsWritten([c, d, a, b], 2, 4, 1);
            r.Some? && r.value.1 == b && |r.value.0| == 4
            && Window(r.value.0, 2, 3) == [a, a, c] && [a, a, c] != [a, c, d]
  {
    var r := RemoveAsWritten([c, d, a, b], 2, 4, 1);
    assert ArrayCopy([c, d, a, b], 2, [c, d, a, b], 3, 1) == [c, d, a, a];
    assert r == Some(([c, d, a, a], b));
    assert Window([c, d, a, a], 2, 3) == [a, a, c];
    assert [a, a, c][1] != [a, c, d][1];
  }

  /**
   * On a wrapped window whose position idx sits in slot 0 (head + idx ==
   * len), the strict test headIdx > len sends remove(int) to the front
   * branch, which reads value[len]: removing position 2 of [a, b, c, d]
   * stored from head 2 of 4 throws, although the value is c in slot 0.
   */
  lemma RemoveAtEndAsWrittenThrows(a: Value, b: Value, c: Value, d: Value)
    ensures RemoveAsWritten([c, d, a, b], 2, 4, 2) == None
    ensures Window([c, d, a, b], 2, 4) == [a, b, c, d] && [c, d, a, b][Slot(2, 2, 4)] == c
  {
    assert Window([c, d, a, b], 2, 4) == [a, b, c, d];
  }

  /**
   * offer(int, HttpString) on an array window, as written
   * (HeaderValues.java:266-331), for 0 < idx < size: the new slots and head,
   * or None where System.arraycopy throws.  A copy within one array is
   * ArrayCopy of the array onto itself, as arraycopy behaves.
   */
  function OfferAsWritten(slots: seq<Value>, head: nat, size: nat, idx: nat, v: Value): Option<(seq<Value>, int)>
    requires 2 <= size <= |slots| && head < |slots| && 0 < idx < size
  {
    var len := |slots|;
    if size == len then
      Some((GrowAsWritten(slots, head, idx)[idx := v], 0))
    else if head + size > len then
      var moved := WrappedShiftAsWritten(slots, head, size, idx, v);
      Some((moved.0[idx := v], moved.1))
    else if head == 0 || idx >= size / 2 then
      if head + size < len then Some((ArrayCopy(slots, head + idx, slots, head + idx + 1, size - idx)[head + idx := v], head))
      else None
    else Some((ArrayCopy(slots, head + idx, slots, head + idx - 1, size - idx)[head + idx - 1 := v], JavaByte(head - 1)))
  }

  /** The copies into the grown array of offer(int) as written (HeaderValues.java:280-297), before the new value is written. */
  function GrowAsWritten(slots: seq<Value>, head: nat, idx: nat): (n: seq<Value>)
    requires head < |slots| && 0 < idx < |slots|
    ensures |n| == 3 * |slots|
  {
    var len := |slots|;
    var headIdx := head + idx;
    var n0 := seq(3 * len, _ => []);
    if head == 0 then
      var n1 := ArrayCopy(slots, 0, n0, 0, idx);
      ArrayCopy(slots, idx, n1, idx + 1, len - idx)
    else if headIdx < len then
      var n1 := ArrayCopy(slots, head, n0, 0, idx);
      var n2 := ArrayCopy(slots, headIdx, n1, idx + 1, len - headIdx);
      ArrayCopy(slots, 0, n2, len - head + 1, head)
    else if headIdx > len then
      var n1 := ArrayCopy(slots, 0, n0, len - head, headIdx - len);
      var n2 := ArrayCopy(slots, headIdx - len, n1, idx + 1, len - idx + 1);
      ArrayCopy(slots, head, n2, 0, len - head)
    else n0
  }

  /** The three branches for a wrapped window in offer(int) as written (HeaderValues.java:302-314), before the write at line 315. */
  function WrappedShiftAsWritten(slots: seq<Value>, head: nat, size: nat, idx: nat, v: Value): (r: (seq<Value>, int))
    requires 2 <= size < |slots| && head < |slots| && 0 < idx < size && head + size > |slots|
    ensures |r.0| == |slots|
  {
    var len := |slots|;
    var headIdx := head + idx;
    if headIdx < len then (ArrayCopy(slots, head, slots, head - 1, idx)[headIdx - 1 := v], JavaByte(head - 1))
    else if headIdx > len then (ArrayCopy(slots, headIdx - len, slots, headIdx - len + 1, size - idx)[headIdx - len := v], head)
    else (ArrayCopy(slots, 0, slots, 1, head + size - len)[0 := v], head)
  }

  /**
   * A full array whose insertion slot is exactly its end (head + idx == len,
   * head > 0) matches none of the copy branches: [a, b, c, d] stored from
   * head 2, with v inserted at position 2, grows to an array holding v alone.
   */
  lemma OfferGrowAsWrittenLosesValues(a: Value, b: Value, c: Value, d: Value, v: Value)
    requires a != []
    ensures var r := OfferAsWritten([c, d, a, b], 2, 4, 2, v);
            r.Some? && r.value.1 == 0 && |r.value.0| == 12
            && Window(r.value.0, 0, 5) == [[], [], v, [], []] && Window(r.value.0, 0, 5) != InsertAt([a, b, c, d], 2, v)
  {
    var n0: seq<Value> := seq(12, _ => []);
    assert OfferAsWritten([c, d, a, b], 2, 4, 2, v) == Some((n0[2 := v], 0));
    assert Window(n0[2 := v], 0, 5) == [[], [], v, [], []];
    assert InsertAt([a, b, c, d], 2, v)[0] == a;
  }

  /**
   * A window ending exactly at the array end takes the shift towards the
   * end when idx >= size >> 1, and that copy runs past the array: [a, b, c]
   * stored from head 1 of 4, with v inserted at position 2, throws.
   */
  lemma OfferBackShiftAsWrittenOverruns(a: Value, b: Value, c: Value, v: Value)
    ensures OfferAsWritten([[], a, b, c], 1, 3, 2, v) == None
  {
  }

  /**
   * On a wrapped window whose insertion slot is before the array end, the
   * shift towards the front is right but the closing strings[idx] = v
   * writes v again: [a, b, c] stored from head 2 of 4, with v inserted at
   * position 1, reads [v, v, b, c].
   */
  lemma OfferWrappedFrontAsWrittenOverwrites(a: Value, b: Value, c: Value, v: Value)
    requires a != v
    ensures OfferAsWritten([c, [], a, b], 2, 3, 1, v) == Some(([c, v, v, b], 1))
    ensures Window([c, v, v, b], 1, 4) == [v, v, b, c] && [v, v, b, c] != InsertAt([a, b, c], 1, v)
  {
    assert ArrayCopy([c, [], a, b], 2, [c, [], a, b], 1, 1) == [c, a, a, b];
    assert JavaByte(2 - 1) == 1;
    assert [c, a, a, b][2 := v] == [c, a, v, b];
    assert WrappedShiftAsWritten([c, [], a, b], 2, 3, 1, v) == ([c, a, v, b], 1);
    assert [c, a, v, b][1 := v] == [c, v, v, b];
    assert Window([c, v, v, b], 1, 4) == [v, v, b, c];
    assert InsertAt([a, b, c], 1, v)[0] == a;
  }

  /**
   * On a wrapped window whose insertion slot is past the array end, the
   * closing strings[idx] = v writes v again: [a, b, c] stored from head 3
   * of 4, with v inserted at position 2, reads [a, b, v, v].
   */
  lemma OfferWrappedBackAsWrittenOverwrites(a: Value, b: Value, c: Value, v: Value)
    requires c != v
    ensures OfferAsWritten([b, c, [], a], 3, 3, 2, v) == Some(([b, v, v, a], 3))
    ensures Window([b, v, v, a], 3, 4) == [a, b, v, v] && [a, b, v, v] != InsertAt([a, b, c], 2, v)
  {
    assert ArrayCopy([b, c, [], a], 1, [b, c, [], a], 2, 1) == [b, c, c, a];
    assert [b, c, c, a][1 := v] == [b, v, c, a];
    assert WrappedShiftAsWritten([b, c, [], a], 3, 3, 2, v) == ([b, v, c, a], 3);
    assert [b, v, c, a][2 := v] == [b, v, v, a];
    assert Window([b, v, v, a], 3, 4) == [a, b, v, v];
    assert InsertAt([a, b, c], 2, v)[3] == c;
  }

  /**
   * A wrapped window whose insertion slot is exactly the array end gets v
   * at slot 0 and again at slot idx: [a, b, c] stored from head 3 of 4,
   * with v inserted at position 1, reads [a, v, v, c].
   */
  lemma OfferWrappedAtEndAsWrittenLosesValue(a: Value, b: Value, c: Value, v: Value)
    requires b != v
    ensures OfferAsWritten([b, c, [], a], 3, 3, 1, v) == Some(([v, v, c, a], 3))
    ensures Window([v, v, c, a], 3, 4) == [a, v, v, c] && [a, v, v, c] != InsertAt([a, b, c], 1, v)
  {
    assert ArrayCopy([b, c, [], a], 0, [b, c, [], a], 1, 2) == [b, b, c, a];
    assert [b, b, c, a][0 := v] == [v, b, c, a];
    assert WrappedShiftAsWritten([b, c, [], a], 3, 3, 1, v) == ([v, b, c, a], 3);
    assert [v, b, c, a][1 := v] == [v, v, c, a];
    assert Window([v, v, c, a], 3, 4) == [a, v, v, c];
    assert InsertAt([a, b, c], 1, v)[2] == b;
  }

  /**
   * The shift towards the front (lines 324-327) moves the values from idx
   * on instead of those before it: [a, b, c, d] stored from head 1 of 12,
   * with v inserted at position 1, reads [null, v, c, d, d].
   */
  lemma OfferFrontShiftAsWrittenLosesValue(a: Value, b: Value, c: Value, d: Value, v: Value)
    requires a != []
    ensures var s := [[], a, b, c, d] + seq(7, _ => []);
            var r := OfferAsWritten(s, 1, 4, 1, v);
            r.Some? && r.value.1 == 0 && |r.value.0| == 12
            && Window(r.value.0, 0, 5) == [[], v, c, d, d] && Window(r.value.0, 0, 5) != InsertAt([a, b, c, d], 1, v)
  {
    var s: seq<Value> := [[], a, b, c, d] + seq(7, _ => []);
    var moved := ArrayCopy(s, 2, s, 1, 3);
    assert moved[..5] == [[], b, c, d, d];
    assert OfferAsWritten(s, 1, 4, 1, v) == Some((moved[1 := v], 0));
    assert Window(moved[1 := v], 0, 5) == [[], v, c, d, d];
    assert InsertAt([a, b, c, d], 1, v)[0] == a;
  }

  /** addAll(int, Collection) as written: every element offered at the same index. */
  function AddAllAsWritten(s: seq<Value>, at: nat, c: seq<Option<Value>>): seq<Value>
    requires at <= |s|
    decreases |c|
  {
    if c == [] then s
    else if c[0].None? || |s| >= MaxSize then AddAllAsWritten(s, at, c[1..])
    else AddAllAsWritten(InsertAt(s, at, c[0].value), at, c[1..])
  }

  /** addAll([x, y]) on an empty deque gives [y, x] as written, and [x, y] as intended. */
  lemma AddAllAsWrittenReverses(x: Value, y: Value)
    requires x != y
    ensures AddAllAsWritten([], 0, [Some(x), Some(y)]) == [y, x]
    ensures AddAllSpec([], 0, [Some(x), Some(y)]) == [x, y]
  {
    var c := [Some(x), Some(y)];
    assert c[1..] == [Some(y)] && [Some(y)][1..] == [];
    assert InsertAt([], 0, x) == [x];
    assert InsertAt([x], 0, y) == [y, x];
    assert InsertAt([x], 1, y) == [x, y];
    assert AddAllAsWritten([x], 0, [Some(y)]) == AddAllAsWritten([y, x], 0, []);
    assert AddAllAsWritten([], 0, c) == AddAllAsWritten([x], 0, [Some(y)]);
    assert AddAllSpec([x], 1, [Some(y)]) == AddAllSpec([x, y], 2, []);
    assert AddAllSpec([], 0, c) == AddAllSpec([x], 1, [Some(y)]);
  }

  /** addAll(Collection) as written (HeaderValues.java:663-665): addAll(0, c), so the values go in at the front. */
  function AddAllFirstAsWritten(s: seq<Value>, c: seq<Option<Value>>): seq<Value> {
    AddAllAsWritten(s, 0, c)
  }

  /** addAll([x]) on the deque [a] gives [x, a] as written, and [a, x] when appended as Deque.addAll promises. */
  lemma AddAllFrontAsWritten(a: Value, x: Value)
    requires a != x
    ensures AddAllFirstAsWritten([a], [Some(x)]) == [x, a]
    ensures AddAllSpec([a], 1, [Some(x)]) == [a, x] && [x, a] != [a, x]
  {
    assert [Some(x)][1..] == [];
    assert InsertAt([a], 0, x) == [x, a];
    assert InsertAt([a], 1, x) == [a, x];
    assert AddAllAsWritten([a], 0, [Some(x)]) == AddAllAsWritten([x, a], 0, []);
    assert AddAllSpec([a], 1, [Some(x)]) == AddAllSpec([a, x], 2, []);
  }

  /** offerFirst with head 0 stores (byte) (len - 1) as the new head (HeaderValues.java:213). */
  function OfferFirstWrapHeadAsWritten(len: int): int {
    JavaByte(len - 1)
  }

  /**
   * The byte head reaches the last slot for arrays of up to 128 slots (4, 12,
   * 36 and 108), but once the array has grown to 324 slots it wraps to 67.
   */
  lemma OfferFirstWrapHeadAsWrittenTruncates()
    ensures OfferFirstWrapHeadAsWritten(324) == 67
    ensures forall len :: 0 < len <= 128 ==> OfferFirstWrapHeadAsWritten(len) == len - 1
  {
  }
}
