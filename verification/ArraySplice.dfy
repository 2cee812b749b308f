/** array_splice of jsarray.c: remove a range of elements and put others in its place. */
module ArraySplice {
  import opened Wrappers
  import opened ArrayIndex
  import opened ArrayObject

  /** The arguments after conversion to integers; a missing count means everything to the end. */
  datatype Arguments<V> = NoArguments | From(start: int) | Range(start: int, count: int, items: seq<V>)

  /** The first argument, as a place in an array of the given length. */
  function Begin(start: int, length: nat): (r: nat)
    ensures r <= length
  {
    if start < 0 then if start + length < 0 then 0 else start + length
    else if start > length then length
    else start
  }

  /** How many elements are removed. */
  function Count<V>(args: Arguments<V>, length: nat): (r: nat)
    requires !args.NoArguments?
    ensures Begin(args.start, length) + r <= length
  {
    var delta := length - Begin(args.start, length);
    match args
    case From(_) => delta
    case Range(_, count, _) => if count < 0 then 0 else if count > delta then delta else count
  }

  function Items<V>(args: Arguments<V>): seq<V> {
    if args.Range? then args.items else []
  }

  function Min(m: int, n: int): int {
    if m < n then m else n
  }

  function Max(m: int, n: int): int {
    if m < n then n else m
  }

  /** The range as section 15.4.4.12 of ECMA-262 3rd edition has it; without a count, everything to the end. */
  lemma RangeIsStandard<V>(args: Arguments<V>, length: nat)
    requires !args.NoArguments?
    ensures var begin := if args.start < 0 then Max(length + args.start, 0) else Min(args.start, length);
            && Begin(args.start, length) == begin
            && Count(args, length) == (if args.Range? then Min(Max(args.count, 0), length - begin) else length - begin)
    ensures Items(args) == if args.Range? then args.items else []
  {
  }

  /** Values as elements, none of them a hole. */
  function Filled<V>(items: seq<V>): (s: seq<Option<V>>)
    ensures |s| == |items| && forall k :: 0 <= k < |s| ==> s[k] == Some(items[k])
  {
    seq(|items|, k requires 0 <= k < |items| => Some(items[k]))
  }

  /** The element at index k, counting everything beyond the end as a hole. */
  function At<V>(s: seq<Option<V>>, k: nat): Option<V> {
    if k < |s| then s[k] else None
  }

  lemma AtStored<V>(s: seq<Option<V>>, i: nat, v: V)
    ensures forall k: nat :: At(Stored(s, i, v), k) == if k == i then Some(v) else At(s, k)
  {
  }

  lemma AtRemoved<V>(s: seq<Option<V>>, i: nat)
    ensures forall k: nat :: At(Removed(s, i), k) == if k == i then None else At(s, k)
  {
  }

  /** Move the element (or hole) at index from to index to. */
  method MoveElement<V>(obj: JSArray<V>, from: nat, to: nat)
    requires obj.Valid() && from < MAXINDEX && to < MAXINDEX
    modifies obj
    ensures obj.Valid() && obj.Others() == old(obj.Others())
    ensures forall k: nat :: At(obj.Elements(), k) == At(old(obj.Elements()), if k == to then from else k)
    ensures old(obj.length) <= obj.length && (obj.length == old(obj.length) || obj.length == to + 1)
  {
    ghost var was := obj.Elements();
    var v := obj.Get(from);
    obj.SetOrDelete(to, v);
    if v.Some? {
      AtStored(was, to, v.value);
    } else {
      AtRemoved(was, to);
    }
  }

  /** Make room: move the elements from end on up by delta, the last one first. */
  method ShiftUp<V>(obj: JSArray<V>, end: nat, delta: nat)
    requires obj.Valid() && end <= obj.length && obj.length + delta < WORD && 0 < delta
    modifies obj
    ensures obj.Valid() && obj.Others() == old(obj.Others())
    ensures old(obj.length) <= obj.length <= old(obj.length) + delta
    ensures forall k: nat :: k < end ==> At(obj.Elements(), k) == At(old(obj.Elements()), k)
    ensures forall k: nat :: end + delta <= k ==> At(obj.Elements(), k) == At(old(obj.Elements()), k - delta)
  {
    ghost var was := obj.Elements();
    var length := obj.length;
    var last := length;
    while last > end
      invariant end <= last <= length
      invariant obj.Valid() && obj.Others() == old(obj.Others())
      invariant length <= obj.length <= length + delta
      invariant forall k: nat :: k < last ==> At(obj.Elements(), k) == At(was, k)
      invariant forall k: nat :: last + delta <= k ==> At(obj.Elements(), k) == At(was, k - delta)
    {
      last := last - 1;
      MoveElement(obj, last, last + delta);
    }
  }

  /** Close the gap: move the elements from end on down by delta, the first one first. */
  method ShiftDown<V>(obj: JSArray<V>, end: nat, delta: nat)
    requires obj.Valid() && delta <= end <= obj.length && 0 < delta
    modifies obj
    ensures obj.Valid() && obj.Others() == old(obj.Others()) && obj.length == old(obj.length)
    ensures forall k: nat :: k < end - delta ==> At(obj.Elements(), k) == At(old(obj.Elements()), k)
    ensures forall k: nat :: end - delta <= k < obj.length - delta ==>
              At(obj.Elements(), k) == At(old(obj.Elements()), k + delta)
  {
    ghost var was := obj.Elements();
    var length := obj.length;
    var last := end;
    while last < length
      invariant end <= last <= length
      invariant obj.Valid() && obj.Others() == old(obj.Others()) && obj.length == length
      invariant forall k: nat :: k < end - delta || last <= k ==> At(obj.Elements(), k) == At(was, k)
      invariant forall k: nat :: end - delta <= k < last - delta ==> At(obj.Elements(), k) == At(was, k + delta)
    {
      MoveElement(obj, last, last - delta);
      last := last + 1;
    }
  }

  /** InitArrayElements: store a vector at consecutive indices. */
  method InitArrayElements<V>(obj: JSArray<V>, start: nat, vector: seq<V>)
    requires obj.Valid() && start + |vector| < WORD
    modifies obj
    ensures obj.Valid() && obj.Others() == old(obj.Others())
    ensures forall k: nat :: At(obj.Elements(), k) ==
              if start <= k < start + |vector| then Some(vector[k - start]) else At(old(obj.Elements()), k)
    ensures obj.length
         == if vector == [] || start + |vector| <= old(obj.length) then old(obj.length) else start + |vector|
  {
    ghost var was := obj.Elements();
    var i := 0;
    while i < |vector|
      invariant 0 <= i <= |vector|
      invariant obj.Valid() && obj.Others() == old(obj.Others())
      invariant forall k: nat :: At(obj.Elements(), k) ==
                  if start <= k < start + i then Some(vector[k - start]) else At(was, k)
      invariant obj.length == if i == 0 || start + i <= |was| then |was| else start + i
    {
      AtStored(obj.Elements(), start + i, vector[i]);
      obj.Set(start + i, vector[i]);
      i := i + 1;
    }
  }

  lemma CopiedItems<V>(built: seq<Option<V>>, copied: seq<Option<V>>, all: seq<Option<V>>, begin: nat, end: nat)
    requires begin < end <= |all| && copied == Resized(built, end - begin)
    requires forall k: nat :: At(built, k) == if k < end - begin then all[begin + k] else None
    ensures copied == all[begin..end]
  {
    forall k | 0 <= k < end - begin
      ensures copied[k] == all[begin..end][k]
    {
      assert At(built, k) == all[begin + k];
    }
  }

  lemma LengthIsWord<V>(obj: JSArray<V>)
    requires obj.Valid()
    ensures obj.length < WORD
  {
  }

  /** Copy the elements in [begin, end) to a new array, holes included. */
  method CopyOut<V>(obj: JSArray<V>, begin: nat, end: nat) returns (copy: JSArray<V>)
    requires obj.Valid() && begin <= end <= obj.length
    ensures fresh(copy) && copy.Valid() && copy.Elements() == obj.Elements()[begin..end]
  {
    hide Stored, Resized, JSArray.Valid, JSArray.Others;
    LengthIsWord(obj);
    copy := new JSArray<V>();
    if end > begin {
      var last := begin;
      while last < end
        invariant begin <= last <= end
        invariant copy.Valid() && copy.length <= last - begin
        invariant forall k: nat ::
                    At(copy.Elements(), k) == if k < last - begin then obj.Elements()[begin + k] else None
      {
        var v := obj.Get(last);
        if v.Some? {
          AtStored(copy.Elements(), last - begin, v.value);
          copy.Set(last - begin, v.value);
        }
        last := last + 1;
      }
      ghost var built := copy.Elements();
      copy.SetLength(end - begin);
      CopiedItems(built, copy.Elements(), obj.Elements(), begin, end);
    }
  }

  /** Move the tail so that n elements fit between begin and it; the length to be. */
  method MakeRoom<V>(obj: JSArray<V>, begin: nat, end: nat, n: nat) returns (length: nat)
    requires obj.Valid() && begin <= end <= obj.length && obj.length - (end - begin) + n < WORD
    modifies obj
    ensures obj.Valid() && obj.Others() == old(obj.Others())
    ensures length == old(obj.length) - (end - begin) + n
    ensures forall k: nat :: k < begin ==> At(obj.Elements(), k) == At(old(obj.Elements()), k)
    ensures forall k: nat :: begin + n <= k < length ==>
              At(obj.Elements(), k) == At(old(obj.Elements()), k - n + (end - begin))
  {
    hide At, JSArray.Elements, JSArray.Others, JSArray.Valid;
    length := obj.length;
    var count := end - begin;
    if n > count {
      ShiftUp(obj, end, n - count);
      length := length + (n - count);
    } else if n < count {
      ShiftDown(obj, end, count - n);
      length := length - (count - n);
    }
  }

  lemma SpliceMeets<V>(was: seq<Option<V>>, built: seq<Option<V>>, begin: nat, end: nat, items: seq<V>, length: nat)
    requires begin <= end <= |was| && length == |was| - (end - begin) + |items|
    requires forall k: nat :: k < begin ==> At(built, k) == At(was, k)
    requires forall k: nat :: begin <= k < begin + |items| ==> At(built, k) == Some(items[k - begin])
    requires forall k: nat :: begin + |items| <= k < length ==> At(built, k) == At(was, k - |items| + (end - begin))
    ensures Resized(built, length) == was[..begin] + Filled(items) + was[end..]
  {
    var want := was[..begin] + Filled(items) + was[end..];
    forall k | 0 <= k < length
      ensures Resized(built, length)[k] == want[k]
    {
      assert At(built, k) == want[k];
    }
  }

  /** Put the items in place of the elements in [begin, end), and set the length. */
  method Replace<V>(obj: JSArray<V>, begin: nat, end: nat, items: seq<V>)
    requires obj.Valid() && begin <= end <= obj.length && obj.length - (end - begin) + |items| < WORD
    modifies obj
    ensures obj.Valid() && obj.Others() == old(obj.Others())
    ensures obj.Elements() == old(obj.Elements())[..begin] + Filled(items) + old(obj.Elements())[end..]
  {
    ghost var was := obj.Elements();
    var length := MakeRoom(obj, begin, end, |items|);
    InitArrayElements(obj, begin, items);
    SpliceMeets(was, obj.Elements(), begin, end, items, length);
    obj.SetLength(length);
  }

  /** array_splice. */
  method Splice<V>(obj: JSArray<V>, args: Arguments<V>) returns (removed: JSArray?<V>)
    requires obj.Valid()
    requires !args.NoArguments? ==> obj.length - Count(args, obj.length) + |Items(args)| < WORD
    modifies obj
    ensures obj.Valid() && obj.Others() == old(obj.Others())
    ensures args.NoArguments? ==> removed == null && obj.Elements() == old(obj.Elements())
    ensures !args.NoArguments? ==>
              var was := old(obj.Elements());
              var begin := Begin(args.start, |was|);
              var end := begin + Count(args, |was|);
              && obj.Elements() == was[..begin] + Filled(Items(args)) + was[end..]
              && removed != null && fresh(removed) && removed.Valid() && removed.Elements() == was[begin..end]
  {
    if args.NoArguments? {
      return null;
    }
    ghost var was := obj.Elements();
    var begin := Begin(args.start, obj.length);
    var end := begin + Count(args, obj.length);
    var items := Items(args);
    removed := CopyOut(obj, begin, end);
    Replace(obj, begin, end, items);
  }
}
