/** The fixed-capacity list of include/olm/list.hh, shifted in place. */
module BoundedList {
  /** What inserting x at pos leaves of a list that holds at most max items. Past the capacity
   *  the end is discarded, except that inserting at the very end of a full list replaces the
   *  last item. */
  function Inserted<T>(s: seq<T>, max: nat, pos: nat, x: T): (r: seq<T>)
    requires pos <= |s| <= max && max > 0
    ensures |r| == if |s| < max then |s| + 1 else max
  {
    if |s| < max then s[..pos] + [x] + s[pos..]
    else if pos == |s| then s[..pos - 1] + [x]
    else s[..pos] + [x] + s[pos..|s| - 1]
  }

  function Erased<T>(s: seq<T>, pos: nat): (r: seq<T>)
    requires pos < |s|
    ensures |r| == |s| - 1
  {
    s[..pos] + s[pos + 1..]
  }

  /** Inserting at the front: the newest item first, and only the oldest ever lost. */
  lemma InsertedFront<T>(s: seq<T>, max: nat, x: T)
    requires |s| <= max && max > 0
    ensures Inserted(s, max, 0, x) == ([x] + s)[..if |s| < max then |s| + 1 else max]
  {
  }

  /** Item by item: up to the place nothing moves; later ones move up, the last of a full list falling out. At the end
   *  of a full list the new item takes the place of the last. */
  lemma InsertedItems<T>(s: seq<T>, max: nat, pos: nat, x: T)
    requires pos <= |s| <= max && max > 0
    ensures var r := Inserted(s, max, pos, x);
      var at := if pos == max then max - 1 else pos;
      && |r| == (if |s| == max then max else |s| + 1) && at < |r| && r[at] == x
      && (forall i :: 0 <= i < at ==> r[i] == s[i])
      && (forall i :: at < i < |r| ==> r[i] == s[i - 1])
  {
  }

  lemma ErasedItems<T>(s: seq<T>, pos: nat)
    requires pos < |s|
    ensures var r := Erased(s, pos);
      && |r| == |s| - 1 && (forall i :: 0 <= i < pos ==> r[i] == s[i])
      && (forall i :: pos <= i < |r| ==> r[i] == s[i + 1])
  {
  }

  lemma InsertedBy<T>(was: seq<T>, max: nat, start: nat, pos: nat, x: T, now: seq<T>)
    requires start <= |was| <= max && max > 0
    requires |now| == if |was| < max then |was| + 1 else |was|
    requires pos == (if |was| == max == start then start - 1 else start) < |now|
    requires now[pos] == x
    requires forall i :: 0 <= i < pos ==> now[i] == was[i]
    requires forall i :: pos < i < |now| ==> now[i] == was[i - 1]
    ensures now == Inserted(was, max, start, x)
  {
  }

  lemma ErasedBy<T>(was: seq<T>, pos: nat, now: seq<T>)
    requires pos < |was| && |now| == |was| - 1
    requires forall i :: 0 <= i < pos ==> now[i] == was[i]
    requires forall i :: pos <= i < |now| ==> now[i] == was[i + 1]
    ensures now == Erased(was, pos)
  {
  }

  class List<T> {
    const data: array<T>
    var end: nat

    ghost predicate Valid()
      reads this
    {
      end <= data.Length && data.Length > 0
    }

    ghost function Contents(): (s: seq<T>)
      reads this, data
      requires Valid()
    {
      data[..end]
    }

    constructor (capacity: nat, filler: T)
      requires capacity > 0
      ensures Valid() && fresh(data) && data.Length == capacity && Contents() == []
    {
      data := new T[capacity](i => filler);
      end := 0;
    }

    /** Drop the item at start, shifting the later ones down. */
    method Erase(start: nat)
      requires Valid() && start < end
      modifies this`end, data
      ensures Valid() && Contents() == Erased(old(Contents()), start)
    {
      ghost var was := Contents();
      var pos := start;
      end := end - 1;
      while pos != end
        invariant start <= pos <= end == |was| - 1 < data.Length
        invariant forall i :: 0 <= i < start ==> data[i] == was[i]
        invariant forall i :: start <= i < pos ==> data[i] == was[i + 1]
        invariant forall i :: pos < i < |was| ==> data[i] == was[i]
        decreases end - pos
      {
        data[pos] := data[pos + 1];
        pos := pos + 1;
      }
      ErasedBy(was, start, Contents());
    }

    /** Make room at start, shifting the later items up; the caller fills the room. */
    method MakeRoom(start: nat) returns (pos: nat)
      requires Valid() && start <= end
      modifies this`end, data
      ensures Valid() && pos < end
      ensures pos == if old(end) == data.Length == start then start - 1 else start
      ensures end == if old(end) < data.Length then old(end) + 1 else old(end)
      ensures forall i :: 0 <= i < pos ==> data[i] == old(data[i])
      ensures forall i :: pos < i < end ==> data[i] == old(data[i - 1])
    {
      pos := start;
      if end != data.Length {
        end := end + 1;
      } else if pos == end {
        pos := pos - 1;
      }
      var tmp := end - 1;
      while tmp != pos
        invariant pos <= tmp < end <= data.Length
        invariant end == if old(end) < data.Length then old(end) + 1 else old(end)
        invariant forall i :: 0 <= i < tmp ==> data[i] == old(data[i])
        invariant forall i :: tmp < i < end ==> data[i] == old(data[i - 1])
      {
        data[tmp] := data[tmp - 1];
        tmp := tmp - 1;
      }
    }

    /** insert(pos, value) */
    method Insert(start: nat, x: T) returns (pos: nat)
      requires Valid() && start <= end
      modifies this`end, data
      ensures Valid() && Contents() == Inserted(old(Contents()), data.Length, start, x)
      ensures pos < end && Contents()[pos] == x
    {
      ghost var was := Contents();
      pos := MakeRoom(start);
      data[pos] := x;
      InsertedBy(was, data.Length, start, pos, x, Contents());
    }
  }
}
