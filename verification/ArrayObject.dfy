/**
 An array object of jsarray.c: properties keyed by id, among them the elements, and a length that
 follows them. Elements() is the sequence-with-holes the array methods are about.
 */
module ArrayObject {
  import opened Wrappers
  import opened ArrayIndex

  // ---- sequences with holes ----------------------------------------------------------------------

  /** n holes. */
  function Holes<V>(n: nat): (s: seq<Option<V>>)
    ensures |s| == n && forall k :: 0 <= k < n ==> s[k] == None
  {
    seq(n, _ => None)
  }

  /** Storing at index i makes the array at least i + 1 long. */
  function Stored<V>(s: seq<Option<V>>, i: nat, v: V): (t: seq<Option<V>>)
    ensures |t| == if i < |s| then |s| else i + 1
    ensures forall k :: 0 <= k < |t| ==> t[k] == if k == i then Some(v) else if k < |s| then s[k] else None
  {
    (if i < |s| then s else s + Holes(i + 1 - |s|))[i := Some(v)]
  }

  function Removed<V>(s: seq<Option<V>>, i: nat): (t: seq<Option<V>>)
    ensures |t| == |s| && forall k :: 0 <= k < |t| ==> t[k] == if k == i then None else s[k]
  {
    if i < |s| then s[i := None] else s
  }

  /** Setting the length cuts elements off or adds holes. */
  function Resized<V>(s: seq<Option<V>>, n: nat): (t: seq<Option<V>>)
    ensures |t| == n && forall k :: 0 <= k < n ==> t[k] == if k < |s| then s[k] else None
  {
    if n <= |s| then s[..n] else s + Holes(n - |s|)
  }

  /** array_length_setter's threshold between its two ways of deleting. */
  const SPARSE_GAP: nat := 0x100_0000

  /** The unsigned test index - newlen < gap is the range test, also when the difference wraps. */
  lemma WrappingRangeTest(index: nat, newlen: nat, oldlen: nat)
    requires newlen <= oldlen < WORD && index < WORD
    ensures (index - newlen) % WORD < oldlen - newlen <==> newlen <= index < oldlen
  {
    if index < newlen {
      assert (index - newlen) % WORD == index - newlen + WORD;
    }
  }

  class JSArray<V> {
    var props: map<Id, V>
    var length: nat

    /** The value at index i, or None for a hole. */
    ghost function ElementAt(i: nat): Option<V>
      reads this
    {
      if IndexId(i) in props then Some(props[IndexId(i)]) else None
    }

    ghost function Elements(): seq<Option<V>>
      reads this
    {
      seq(length, (i: nat) reads this => ElementAt(i))
    }

    /** The properties that are not elements. */
    ghost function Others(): map<Id, V>
      reads this
    {
      map id | id in props && IndexOf(id).None? :: props[id]
    }

    /** Every element is below the length and stored under the one id of its index: the engine turns a
        string that fits a tagged integer into that integer before it stores a property. No property
        name has a NUL inside. */
    ghost predicate Valid()
      reads this
    {
      && length < WORD
      && (forall id :: id in props ==> NulFree(id))
      && forall id :: id in props && IndexOf(id).Some? ==>
           IndexOf(id).value < length && id == IndexId(IndexOf(id).value)
    }

    /** js_NewArrayObject with no elements. */
    constructor ()
      ensures Valid() && Elements() == [] && Others() == map[]
    {
      props, length := map[], 0;
    }

    /** An id for index i, as GetArrayElement and its siblings make one; if it is only to be looked up, there may be
        none, and then there is no element. The atoms are the names of this array's properties and others. */
    method MakeId(i: nat, createAtom: bool) returns (id: Option<Id>)
      requires i < MAXINDEX
      ensures id == Some(IndexId(i)) || (id == None && !createAtom && IndexId(i) !in props)
      ensures IndexOf(IndexId(i)) == Some(i)
    {
      IndexIdRoundTrip(i);
      if i <= INT_MAX {
        return Some(IntId(i));
      }
      var others: set<string> := *;
      id := BigIndexToId(i, createAtom, true, (set id | id in props && id.StrId? :: id.s) + others);
    }

    /** GetArrayElement. */
    method Get(i: nat) returns (r: Option<V>)
      requires Valid() && i < MAXINDEX
      ensures r == if i < length then Elements()[i] else None
    {
      var id := MakeId(i, false);
      if id.None? {
        return None;
      }
      r := if id.value in props then Some(props[id.value]) else None;
    }

    /** SetArrayElement, with array_addProperty raising the length for a new last element. */
    method Set(i: nat, v: V)
      requires Valid() && i < MAXINDEX
      modifies this
      ensures Valid() && Elements() == Stored(old(Elements()), i, v) && Others() == old(Others())
    {
      var id := MakeId(i, true);
      props := props[id.value := v];
      if i >= length {
        length := i + 1;
      }
      forall k: nat | k < length
        ensures ElementAt(k) == if k == i then Some(v) else old(ElementAt(k))
        ensures k >= old(length) && k != i ==> ElementAt(k) == None
      {
        IndexIdRoundTrip(k);
      }
    }

    /** DeleteArrayElement. */
    method Delete(i: nat)
      requires Valid() && i < MAXINDEX
      modifies this`props
      ensures Valid() && Elements() == Removed(old(Elements()), i) && Others() == old(Others())
      ensures props == old(props) - {IndexId(i)}
    {
      var id := MakeId(i, false);
      if id.None? {
        return;
      }
      props := props - {id.value};
      forall k: nat | k < length
        ensures ElementAt(k) == if k == i then None else old(ElementAt(k))
      {
        IndexIdRoundTrip(k);
      }
    }

    /** SetOrDeleteArrayElement. */
    method SetOrDelete(i: nat, v: Option<V>)
      requires Valid() && i < MAXINDEX
      modifies this
      ensures Valid() && Others() == old(Others())
      ensures Elements() == if v.Some? then Stored(old(Elements()), i, v.value) else Removed(old(Elements()), i)
    {
      match v
      case None => Delete(i);
      case Some(x) => Set(i, x);
    }

    /** The ids of the elements with indices in [lo, hi). */
    ghost function IdsBetween(lo: nat, hi: nat): set<Id>
      reads this
    {
      set id | id in props && IndexOf(id).Some? && lo <= IndexOf(id).value < hi
    }

    /** js_SetLengthProperty, through array_length_setter: shortening deletes the elements beyond, one by
        one or, if the gap is great, by going through all properties. */
    method SetLength(newlen: nat)
      requires Valid() && newlen < WORD
      modifies this
      ensures Valid() && length == newlen && Elements() == Resized(old(Elements()), newlen)
      ensures props == old(props) - old(IdsBetween(newlen, length)) && Others() == old(Others())
    {
      ghost var doomed := IdsBetween(newlen, length);
      if length > newlen {
        if length - newlen < SPARSE_GAP {
          DeleteDense(newlen);
        } else {
          DeleteSparse(newlen);
        }
      }
      length := newlen;
      forall id | id in old(props) && IndexOf(id).Some?
        ensures id in props ==> IndexOf(id).value < newlen
      {
        assert id !in doomed ==> IndexOf(id).value < newlen;
      }
      forall k: nat | k < newlen
        ensures ElementAt(k) == if k < old(length) then old(ElementAt(k)) else None
      {
        IndexIdRoundTrip(k);
      }
    }

    /** The counting loop of array_length_setter. */
    method DeleteDense(newlen: nat)
      requires Valid() && newlen < length
      modifies this`props
      ensures props == old(props) - old(IdsBetween(newlen, length))
    {
      var oldlen := length;
      assert old(props) - IdsBetween(oldlen, length) == props;
      while true
        invariant newlen < oldlen <= length && Valid()
        invariant props == old(props) - old(IdsBetween(oldlen, length))
        decreases oldlen
      {
        oldlen := oldlen - 1;
        IndexIdRoundTrip(oldlen);
        Delete(oldlen);
        assert old(IdsBetween(oldlen, length))
            == old(IdsBetween(oldlen + 1, length)) + ({IndexId(oldlen)} * old(props.Keys));
        if oldlen == newlen {
          break;
        }
      }
    }

    /** The property iteration of array_length_setter, with its wrapping range test. */
    method DeleteSparse(newlen: nat)
      requires Valid() && newlen < length
      modifies this`props
      ensures props == old(props) - old(IdsBetween(newlen, length))
    {
      ghost var doomed := IdsBetween(newlen, length);
      var gap := length - newlen;
      var todo := props.Keys;
      while todo != {}
        invariant todo <= old(props.Keys)
        invariant props == old(props) - (doomed - todo)
        decreases todo
      {
        var id :| id in todo;
        todo := todo - {id};
        var index := ReadIndex(id);
        if index.Some? {
          WrappingRangeTest(index.value, newlen, length);
        }
        if index.Some? && (index.value - newlen) % WORD < gap {
          props := props - {id};
        }
      }
      assert doomed - todo == doomed;
    }

    /** js_IdIsIndex on a property name. */
    static method ReadIndex(id: Id) returns (index: Option<nat>)
      requires NulFree(id)
      ensures index == IndexOf(id)
    {
      index := IdIsIndex(id);
      if id.StrId? {
        NulFreeIndex(id.s);
      }
    }
  }
}
