/**
 Numbering atoms while a script is compiled (jsatom.c, jsatom.h): each atom gets the next index the first time it is
 seen. A short list is searched from the front, and a hit moves to the front; a long one becomes a hash table. When the
 script is done, the numbering is inverted into a vector.
 */
module AtomList {
  import opened Wrappers

  type Atom = nat

  const ATOM_INDEX_LIMIT: nat := 0x80_0000
  /** Up to this many atoms a list is good enough. */
  const LIST_LIMIT: nat := 10

  // ---- numbering by first occurrence -------------------------------------------------------------------

  /** The atoms in the order of their indices, after one more atom has been seen. */
  function Indexed(order: seq<Atom>, atom: Atom): seq<Atom> {
    if atom in order then order else order + [atom]
  }

  function IndexedAll(atoms: seq<Atom>): seq<Atom> {
    if atoms == [] then [] else Indexed(IndexedAll(atoms[..|atoms| - 1]), atoms[|atoms| - 1])
  }

  ghost predicate Distinct(order: seq<Atom>) {
    forall i, j :: 0 <= i < j < |order| ==> order[i] != order[j]
  }

  function IndexOf(order: seq<Atom>, atom: Atom): (i: nat)
    requires atom in order
    ensures i < |order| && order[i] == atom
  {
    if order[0] == atom then 0 else 1 + IndexOf(order[1..], atom)
  }

  lemma {:induction false} IndexedAllFacts(atoms: seq<Atom>)
    ensures Distinct(IndexedAll(atoms))
    ensures forall a :: a in IndexedAll(atoms) <==> a in atoms
    ensures |IndexedAll(atoms)| <= |atoms|
  {
    if atoms == [] {
    } else {
      IndexedAllFacts(atoms[..|atoms| - 1]);
      assert atoms == atoms[..|atoms| - 1] + [atoms[|atoms| - 1]];
    }
  }

  /** An index, once given, is never given to another atom. */
  lemma {:induction false} IndicesStay(atoms: seq<Atom>, k: nat)
    requires k <= |atoms|
    ensures IndexedAll(atoms[..k]) <= IndexedAll(atoms)
  {
    if k < |atoms| {
      var n := |atoms| - 1;
      IndicesStay(atoms[..n], k);
      assert atoms[..n][..k] == atoms[..k];
    } else {
      assert atoms[..k] == atoms;
    }
  }

  lemma IndexOfDistinct(order: seq<Atom>, i: nat)
    requires Distinct(order) && i < |order|
    ensures IndexOf(order, order[i]) == i
  {
  }

  /**
   * Whatever index an atom was given when it was seen, the vector made in the end has that atom there; the vector has
   * every atom seen, and each once; and they are in the order in which they were first seen.
   */
  lemma VectorInverts(atoms: seq<Atom>, k: nat)
    requires k < |atoms|
    ensures var (seen, vector) := (IndexedAll(atoms[..k + 1]), IndexedAll(atoms));
            atoms[k] in seen && IndexOf(seen, atoms[k]) < |vector| && vector[IndexOf(seen, atoms[k])] == atoms[k]
    ensures Distinct(IndexedAll(atoms)) && forall a :: a in IndexedAll(atoms) <==> a in atoms
    ensures atoms[k] !in atoms[..k] ==> IndexedAll(atoms[..k + 1]) == IndexedAll(atoms[..k]) + [atoms[k]]
  {
    var seen := atoms[..k + 1];
    assert seen[..|seen| - 1] == atoms[..k] && seen[|seen| - 1] == atoms[k];
    IndexedAllFacts(seen);
    IndexedAllFacts(atoms[..k]);
    IndexedAllFacts(atoms);
    IndicesStay(atoms, k + 1);
  }

  // ---- the list ----------------------------------------------------------------------------------------

  class JSAtomListElement {
    const atom: Atom
    var index: nat
    var next: JSAtomListElement?

    constructor (atom: Atom, next: JSAtomListElement?)
      ensures this.atom == atom && this.next == next
    {
      this.atom, this.next, index := atom, next, 0;
    }
  }

  ghost predicate NoDuplicates(chain: seq<JSAtomListElement>) {
    forall i, j :: 0 <= i < j < |chain| ==> chain[i] != chain[j]
  }

  ghost function After(chain: seq<JSAtomListElement>, i: int): JSAtomListElement? {
    if 0 <= i < |chain| - 1 then chain[i + 1] else null
  }

  /** Elements linked one to the next, and the last to nothing. */
  ghost predicate Chained(chain: seq<JSAtomListElement>)
    reads chain
  {
    && NoDuplicates(chain)
    && forall i {:trigger chain[i].next} :: 0 <= i < |chain| ==> chain[i].next == After(chain, i)
  }

  ghost function Members(chain: seq<JSAtomListElement>): set<JSAtomListElement> {
    set e | e in chain
  }

  /** The chain with one of its elements moved to the front. */
  ghost function MovedToFront(chain: seq<JSAtomListElement>, i: nat): seq<JSAtomListElement>
    requires i < |chain|
  {
    [chain[i]] + chain[..i] + chain[i + 1..]
  }

  ghost predicate Hits(chain: seq<JSAtomListElement>, i: nat, ale: JSAtomListElement) {
    i < |chain| && chain[i] == ale
  }

  lemma NoMembers(elements: seq<JSAtomListElement>)
    requires elements != []
    ensures elements[0] in Members(elements)
  {
  }

  lemma LongerChain(ale: JSAtomListElement, chain: seq<JSAtomListElement>, elements: seq<JSAtomListElement>)
    requires Members(chain) == Members(elements) && ale !in Members(elements) && NoDuplicates(chain)
    ensures Members([ale] + chain) == Members(elements + [ale])
    ensures NoDuplicates([ale] + chain)
  {
    assert forall e :: e in chain ==> e in Members(chain);
    assert forall e :: e in Members(elements + [ale]) <==> e in Members(elements) || e == ale;
    assert forall e :: e in Members([ale] + chain) <==> e in Members(chain) || e == ale;
  }

  lemma MovedFacts(chain: seq<JSAtomListElement>, i: nat)
    requires NoDuplicates(chain) && i < |chain|
    ensures var moved := MovedToFront(chain, i);
            && NoDuplicates(moved)
            && Members(moved) == Members(chain)
            && |moved| == |chain|
            && (forall j :: 0 <= j < |moved| ==> moved[j] == chain[if j == 0 then i else if j <= i then j - 1 else j])
  {
    var moved := MovedToFront(chain, i);
    assert forall e :: e in chain ==> e in moved by {
      assert chain == chain[..i] + [chain[i]] + chain[i + 1..];
    }
  }

  class JSAtomList {
    var list: JSAtomListElement?
    /** The hash table, once there is one, from atoms to their elements. */
    var table: Option<map<Atom, JSAtomListElement>>
    var count: nat
    /** The atoms in the order of their indices, their elements in that order, and the elements as they are linked. */
    ghost var order: seq<Atom>
    ghost var elements: seq<JSAtomListElement>
    ghost var chain: seq<JSAtomListElement>

    ghost predicate Valid()
      reads this, elements, chain
    {
      && |order| == |elements| == count
      && Distinct(order)
      && (forall k {:trigger elements[k]} :: 0 <= k < count ==> elements[k].atom == order[k] && elements[k].index == k)
      && match table
         case None =>
           && count <= LIST_LIMIT
           && Chained(chain)
           && Members(chain) == Members(elements)
           && list == if chain == [] then null else chain[0]
         case Some(m) =>
           && count >= LIST_LIMIT
           && chain == [] && list == null
           && (forall a :: a in m <==> a in order)
           && (forall k {:trigger elements[k]} :: 0 <= k < count ==> m[order[k]] == elements[k])
    }

    /** ATOM_LIST_INIT */
    constructor ()
      ensures Valid() && order == []
    {
      list, table, count := null, None, 0;
      order, elements, chain := [], [], [];
    }

    /** ATOM_LIST_LOOKUP while there is only a list: a hit is moved to the front. */
    method SearchList(atom: Atom) returns (ale: JSAtomListElement?)
      requires Valid() && table.None?
      modifies `list, `chain, Members(elements)`next
      ensures Valid()
      ensures if ale == null then atom !in order else atom in order && ale in Members(elements) && ale.atom == atom
      ensures ale == null ==> chain == old(chain)
      ensures ale != null ==>
                list == ale && exists i :: Hits(old(chain), i, ale) && chain == MovedToFront(old(chain), i)
    {
      var prev: JSAtomListElement? := null;
      ale := list;
      ghost var i := 0;
      while ale != null && ale.atom != atom
        invariant 0 <= i <= |chain|
        invariant ale == (if i < |chain| then chain[i] else null)
        invariant prev == (if i > 0 then chain[i - 1] else null)
        invariant forall j :: 0 <= j < i ==> chain[j].atom != atom
        decreases |chain| - i
      {
        prev := ale;
        ale := ale.next;
        i := i + 1;
      }
      if ale == null {
        NotInChain(atom);
      } else {
        assert ale in Members(chain);
        assert Hits(chain, i, ale);
        MoveToFront(prev, ale, i);
      }
    }

    lemma NotInChain(atom: Atom)
      requires Valid() && table.None? && forall j :: 0 <= j < |chain| ==> chain[j].atom != atom
      ensures atom !in order
    {
      forall k | 0 <= k < |order|
        ensures order[k] != atom
      {
        assert elements[k] in Members(elements);
        var j :| 0 <= j < |chain| && chain[j] == elements[k];
      }
    }

    /** The element of an atom that has been seen, or nothing. */
    method Lookup(atom: Atom) returns (ale: JSAtomListElement?)
      requires Valid()
      modifies `list, `chain, Members(elements)`next
      ensures Valid()
      ensures if ale == null then atom !in order else atom in order && ale in Members(elements) && ale.atom == atom
    {
      match table
      case Some(m) =>
        ale := if atom in m then m[atom] else null;
        if ale != null {
          InTable(atom, m);
        }
      case None =>
        ale := SearchList(atom);
    }

    lemma InTable(atom: Atom, m: map<Atom, JSAtomListElement>)
      requires Valid() && table == Some(m) && atom in m
      ensures atom in order && m[atom] in Members(elements) && m[atom].atom == atom
    {
      var k := IndexOf(order, atom);
      assert elements[k] in Members(elements);
    }

    /** Moves the elements from the list, which has grown too long, into a new hash table. */
    method MakeTable()
      requires Valid() && table.None? && count >= LIST_LIMIT
      modifies `list, `table, `chain
      ensures Valid() && table.Some?
    {
      var m: map<Atom, JSAtomListElement> := map[];
      var ale2 := list;
      ghost var i := 0;
      while ale2 != null
        invariant 0 <= i <= |chain|
        invariant ale2 == (if i < |chain| then chain[i] else null)
        invariant forall j :: 0 <= j < i ==> chain[j].atom in m && m[chain[j].atom] == chain[j]
        invariant forall a :: a in m ==> exists j :: 0 <= j < i && chain[j].atom == a
        modifies {}
        decreases |chain| - i
      {
        var next := ale2.next;
        SameAtomSameElement(i);
        m := m[ale2.atom := ale2];
        ale2 := next;
        i := i + 1;
      }
      MadeTable(m);
      table, list, chain := Some(m), null, [];
    }

    /** No two elements of the chain are for one atom. */
    lemma SameAtomSameElement(i: nat)
      requires Valid() && table.None? && i < |chain|
      ensures forall j :: 0 <= j < i ==> chain[j].atom != chain[i].atom
    {
      forall j | 0 <= j < i
        ensures chain[j].atom != chain[i].atom
      {
        assert chain[i] in Members(chain) && chain[j] in Members(chain);
        var k :| 0 <= k < |elements| && elements[k] == chain[i];
        var l :| 0 <= l < |elements| && elements[l] == chain[j];
      }
    }

    lemma MadeTable(m: map<Atom, JSAtomListElement>)
      requires Valid() && table.None?
      requires forall j :: 0 <= j < |chain| ==> chain[j].atom in m && m[chain[j].atom] == chain[j]
      requires forall a :: a in m ==> exists j :: 0 <= j < |chain| && chain[j].atom == a
      ensures forall a :: a in m <==> a in order
      ensures forall k {:trigger elements[k]} :: 0 <= k < count ==> m[order[k]] == elements[k]
    {
      forall k {:trigger elements[k]} | 0 <= k < count
        ensures order[k] in m && m[order[k]] == elements[k]
      {
        assert elements[k] in Members(elements);
        assert elements[k] in Members(chain);
        var j :| 0 <= j < |chain| && chain[j] == elements[k];
      }
      forall a | a in order
        ensures a in m
      {
        var k := IndexOf(order, a);
        assert elements[k].atom == a;
      }
      forall a | a in m
        ensures a in order
      {
        var j :| 0 <= j < |chain| && chain[j].atom == a;
        assert chain[j] in Members(chain);
        var k :| 0 <= k < |elements| && elements[k] == chain[j];
        assert order[k] == a;
      }
    }

    method MoveToFront(prev: JSAtomListElement?, ale: JSAtomListElement, ghost i: nat)
      requires Chained(chain) && i < |chain| && list == chain[0]
      requires ale == chain[i] && prev == if i > 0 then chain[i - 1] else null
      modifies `list, `chain, Members(chain)`next
      ensures chain == MovedToFront(old(chain), i) && Chained(chain) && list == chain[0] == ale
      ensures Members(chain) == old(Members(chain))
    {
      assert ale in Members(chain) && (prev != null ==> prev in Members(chain));
      if prev == null {
        list := ale.next;
      } else {
        prev.next := ale.next;
      }
      ale.next := list;
      list := ale;
      ghost var was := chain;
      chain := MovedToFront(was, i);
      MovedFacts(was, i);
    }

    /**
     * js_IndexAtom: the element of the atom, new or old; or nothing, if the atom is new and there is no memory for its
     * element, or for the table that the eleventh atom needs.
     */
    method IndexAtom(atom: Atom, noTable: bool, noElement: bool) returns (ale: JSAtomListElement?)
      requires Valid()
      modifies this, Members(elements)`next
      ensures Valid() && fresh(Members(elements) - old(Members(elements)))
      ensures ale == null <==>
                atom !in old(order) && (noElement || (noTable && old(table).None? && |old(order)| >= 10))
      ensures if ale == null then order == old(order)
              else order == Indexed(old(order), atom) && ale.atom == atom && ale.index == IndexOf(order, atom)
    {
      ale := Lookup(atom);
      if ale != null {
        IndexIsOld(ale);
        return;
      }
      if count < LIST_LIMIT {
        assert table.None?;
        if !noElement {
          ale := AddToList(atom);
        }
      } else {
        if table.None? {
          if noTable {
            return;
          }
          MakeTable();
        }
        if !noElement {
          ale := AddToTable(atom);
        }
      }
    }

    method AddToList(atom: Atom) returns (ale: JSAtomListElement)
      requires Valid() && table.None? && count < LIST_LIMIT && atom !in order
      modifies this
      ensures Valid() && elements == old(elements) + [ale] && fresh(ale)
      ensures order == old(order) + [atom] && ale.atom == atom && ale.index == IndexOf(order, atom)
    {
      ale := new JSAtomListElement(atom, list);
      list := ale;
      Link(ale);
      LongerChain(ale, chain, old(elements));
      chain := [ale] + chain;
      IndexOfDistinct(order, |order| - 1);
    }

    method AddToTable(atom: Atom) returns (ale: JSAtomListElement)
      requires Valid() && table.Some? && atom !in order
      modifies this
      ensures Valid() && elements == old(elements) + [ale] && fresh(ale)
      ensures order == old(order) + [atom] && ale.atom == atom && ale.index == IndexOf(order, atom)
    {
      ale := new JSAtomListElement(atom, null);
      table := Some(table.value[atom := ale]);
      Link(ale);
      IndexOfDistinct(order, |order| - 1);
    }

    /** Gives the element the next index. */
    method Link(ale: JSAtomListElement)
      requires |order| == |elements| == count
      modifies `count, `order, `elements, ale`index
      ensures count == old(count) + 1 && ale.index == old(count)
      ensures order == old(order) + [ale.atom] && elements == old(elements) + [ale]
    {
      ale.index := count;
      count := count + 1;
      elements, order := elements + [ale], order + [ale.atom];
    }

    /**
     * js_InitAtomMap: the vector that has each atom at its index, every slot filled just once, and an empty list; or,
     * when there are too many atoms or no memory, nothing.
     */
    method InitAtomMap(noVector: bool) returns (ok: bool, vector: array?<Atom>, length: nat)
      requires Valid()
      modifies this
      ensures Valid()
      ensures if ok then order == [] else old(order) == order != []
      ensures ok ==> (vector == null <==> old(order) == []) && length == |old(order)|
      ensures ok && vector != null ==> fresh(vector) && vector[..] == old(order)
      ensures ok <==> old(order) == [] || (|old(order)| < 0x80_0000 && !noVector)
    {
      vector, length := null, 0;
      if list == null && table.None? {
        NoElements();
        return true, null, 0;
      }
      SomeElements();
      if count >= ATOM_INDEX_LIMIT {
        return false, null, 0;
      }
      if noVector {
        return false, null, 0;
      }
      vector := new Atom[count];
      match table {
        case Some(m) => FillFromTable(m, vector);
        case None => FillFromList(vector);
      }
      length := count;
      list, table, count := null, None, 0;
      order, elements, chain := [], [], [];
      ok := true;
    }

    lemma NoElements()
      requires Valid() && table.None? && list == null
      ensures order == []
    {
      assert chain == [] && Members(elements) == {};
      if elements != [] {
        NoMembers(elements);
      }
    }

    lemma SomeElements()
      requires Valid() && !(list == null && table.None?)
      ensures order != []
    {
      if table.None? {
        assert chain[0] in Members(elements);
      }
    }

    /** js_InitAtomMap's loop over the list. */
    method FillFromList(vector: array<Atom>)
      requires Valid() && table.None? && list != null && vector.Length == count
      modifies vector
      ensures vector[..] == order
    {
      var ale: JSAtomListElement? := list;
      ghost var i := 0;
      ghost var filled: set<nat> := {};
      while ale != null
        invariant 0 <= i <= |chain| && ale == (if i < |chain| then chain[i] else null)
        invariant forall k :: k in filled <==> exists j :: 0 <= j < i && chain[j].index == k
        invariant forall k :: k in filled ==> k < count && vector[k] == order[k]
        modifies vector
        decreases |chain| - i
      {
        InRange(i);
        assert ale.index !in filled;
        vector[ale.index] := ale.atom;
        filled := filled + {ale.index};
        ale := ale.next;
        i := i + 1;
      }
      AllFilled(filled);
    }

    lemma InRange(i: nat)
      requires Valid() && table.None? && i < |chain|
      ensures chain[i].index < count && chain[i].atom == order[chain[i].index]
      ensures forall j :: 0 <= j < i ==> chain[j].index != chain[i].index
    {
      assert chain[i] in Members(elements);
      var k :| 0 <= k < |elements| && elements[k] == chain[i];
      forall j | 0 <= j < i
        ensures chain[j].index != chain[i].index
      {
        assert chain[j] in Members(elements);
        var l :| 0 <= l < |elements| && elements[l] == chain[j];
      }
    }

    lemma AllFilled(filled: set<nat>)
      requires Valid() && table.None?
      requires forall k :: k in filled <==> exists j :: 0 <= j < |chain| && chain[j].index == k
      ensures forall k :: 0 <= k < count ==> k in filled
    {
      forall k | 0 <= k < count
        ensures k in filled
      {
        assert elements[k] in Members(elements);
        var j :| 0 <= j < |chain| && chain[j] == elements[k];
      }
    }

    /** JS_HashTableEnumerateEntries with js_map_atom, in whatever order the table has its entries. */
    method FillFromTable(m: map<Atom, JSAtomListElement>, vector: array<Atom>)
      requires Valid() && table == Some(m) && vector.Length == count
      modifies vector
      ensures vector[..] == order
    {
      var left := m.Keys;
      while left != {}
        invariant left <= m.Keys
        invariant forall k :: 0 <= k < count && order[k] !in left ==> vector[k] == order[k]
        modifies vector
        decreases left
      {
        var a :| a in left;
        InTable(a, m);
        IndexIsOld(m[a]);
        assert order[m[a].index] in left;
        vector[m[a].index] := m[a].atom;
        left := left - {a};
      }
    }

    lemma IndexIsOld(ale: JSAtomListElement)
      requires Valid() && ale in Members(elements)
      ensures ale.atom in order && ale.index == IndexOf(order, ale.atom)
    {
      var k :| 0 <= k < |elements| && elements[k] == ale;
      IndexOfDistinct(order, k);
    }
  }
}
