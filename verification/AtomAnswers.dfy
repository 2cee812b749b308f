/**
 What the operations on the atom table do for their callers (jsatom.c), told by the atoms in the table: which are there
 after a step, and with which flags; and that a pinned atom stays.
 */
module AtomAnswers {
  import opened Wrappers
  import opened Atomize

  /** The table has an atom for the key of the request, in its subspace. */
  ghost predicate Known(atoms: seq<Atom>, request: Request) {
    exists atom :: atom in atoms && Answers(atom, request)
  }

  /** The atom that the request makes when it has to make one. */
  predicate IsNew(atom: Atom, nextId: nat, request: Request) {
    atom.id == nextId && atom.key == request.key && atom.flags == request.flags
  }

  /** The atom as it was, or, if it answers the request, with the flags of the request added. */
  function Flagged(atom: Atom, request: Request): Atom {
    if Answers(atom, request) then atom.(flags := atom.flags + request.flags) else atom
  }

  lemma KnownIfFound(h: Hashing, atoms: seq<Atom>, nextId: nat, request: Request)
    requires AtomsOk(h, atoms, nextId) && (request.key.WordKey? ==> HIDDEN !in request.flags)
    ensures Known(atoms, request) <==> Lookup(atoms, RequestHash(h, request), request.key) < |atoms|
  {
    FoundAnswers(h, atoms, nextId, request);
    var i := Lookup(atoms, RequestHash(h, request), request.key);
    if i < |atoms| {
      assert atoms[i] in atoms && Answers(atoms[i], request);
    }
    if Known(atoms, request) {
      var atom :| atom in atoms && Answers(atom, request);
      var j :| 0 <= j < |atoms| && atoms[j] == atom;
      assert atoms[j].keyHash == RequestHash(h, request);
    }
  }

  lemma OnlyThatIsFlagged(h: Hashing, state: AtomState, request: Request, i: nat)
    requires AtomsOk(h, state.atoms, state.nextId) && i < |state.atoms| && Answers(state.atoms[i], request)
    ensures var after := AddFlags(state, i, request.flags).atoms;
            |after| == |state.atoms| && forall j :: 0 <= j < |after| ==> after[j] == Flagged(state.atoms[j], request)
  {
    AnswersAreOne(h, state.atoms, state.nextId, request, state.atoms[i]);
    forall j | 0 <= j < |state.atoms| && j != i
      ensures !Answers(state.atoms[j], request)
    {
      assert state.atoms[j] in state.atoms;
    }
  }

  /**
   * A call under the lock: an atom that is there gets the flags, and no other atom changes; a string that is not there
   * is left to the second half, and any other value is added, with just the flags asked for.
   */
  lemma CallAnswers(h: Hashing, state: AtomState, action: Action)
    requires Valid(h, state) && Enabled(state, action) && (action.AtomizeString? || action.AtomizeHashedKey?)
    ensures var (before, after) := (state.atoms, Step(h, state, action).atoms);
            if Known(before, action.request)
            then && |after| == |before|
                 && (forall j :: 0 <= j < |after| ==> after[j] == Flagged(before[j], action.request))
                 && Step(h, state, action).tablegen == state.tablegen
            else if action.AtomizeString? then after == before
            else && |after| == |before| + 1 && after[..|before|] == before
                 && IsNew(after[|before|], state.nextId, action.request)
                 && Step(h, state, action).tablegen == state.tablegen + 1
    ensures Returned(h, state, action).Some? <==> Known(state.atoms, action.request) || action.AtomizeHashedKey?
    ensures action.thread in Step(h, state, action).threads <==> Returned(h, state, action).None?
  {
    var request := action.request;
    KnownIfFound(h, state.atoms, state.nextId, request);
    FoundAnswers(h, state.atoms, state.nextId, request);
    var i := Lookup(state.atoms, RequestHash(h, request), request.key);
    if i < |state.atoms| {
      OnlyThatIsFlagged(h, state, request, i);
    }
    hide Lookup, Valid, Answers, RequestHash;
  }

  /** The second half: the string's atom is added just when memory is there and no other thread has added it. */
  lemma FinishAnswers(h: Hashing, state: AtomState, thread: Thread, made: bool)
    requires Valid(h, state) && Timely(state) && Enabled(state, FinishAtomizeString(thread, made))
    ensures var action := FinishAtomizeString(thread, made);
            var (before, after) := (state.atoms, Step(h, state, action).atoms);
            var request := state.threads[thread].request;
            && (if made && !Known(before, request)
                then && |after| == |before| + 1 && after[..|before|] == before
                     && IsNew(after[|before|], state.nextId, request)
                     && Step(h, state, action).tablegen == state.tablegen + 1
                else after == before && Step(h, state, action).tablegen == state.tablegen)
            && (Returned(h, state, action).Some? <==> made)
            && Step(h, state, action).threads == state.threads - {thread}
  {
    var pending := state.threads[thread];
    assert PendingOk(h, state, pending);
    FinishIsValid(h, state, thread, made);
    KnownIfFound(h, state.atoms, state.nextId, pending.request);
    LookupMisses(h, state.atoms, pending.request);
    hide Lookup, Valid, Answers, RequestHash, Absent, Timely;
  }

  /** A sweep takes one atom, which nobody has pinned or interned, and tells the threads that wait. */
  lemma SweepAnswers(h: Hashing, state: AtomState, i: nat, atom: Atom)
    requires Valid(h, state) && Enabled(state, Sweep(i))
    ensures atom in Step(h, state, Sweep(i)).atoms <==> atom in state.atoms && atom.id != state.atoms[i].id
    ensures Step(h, state, Sweep(i)).tablegen == state.tablegen + 1
  {
    var after := Step(h, state, Sweep(i)).atoms;
    assert forall j :: 0 <= j < |after| ==> after[j] == state.atoms[if j < i then j else j + 1];
    if atom in state.atoms && atom.id != state.atoms[i].id {
      var j :| 0 <= j < |state.atoms| && state.atoms[j] == atom;
      assert after[if j < i then j else j - 1] == atom;
    }
  }

  /** The atom with this id is in the table and has the flag. */
  ghost predicate HasFlag(state: AtomState, id: nat, flag: Flag) {
    exists j :: 0 <= j < |state.atoms| && state.atoms[j].id == id && flag in state.atoms[j].flags
  }

  lemma SweepKeepsFlag(h: Hashing, state: AtomState, i: nat, id: nat, flag: Flag)
    requires Enabled(state, Sweep(i)) && HasFlag(state, id, flag) && (flag == PINNED || flag == INTERNED)
    ensures HasFlag(Step(h, state, Sweep(i)), id, flag)
  {
    var j :| 0 <= j < |state.atoms| && state.atoms[j].id == id && flag in state.atoms[j].flags;
    assert Step(h, state, Sweep(i)).atoms[if j < i then j else j - 1] == state.atoms[j];
  }

  lemma FinishKeepsFlag(h: Hashing, state: AtomState, thread: Thread, made: bool, id: nat, flag: Flag)
    requires Valid(h, state) && Timely(state) && Enabled(state, FinishAtomizeString(thread, made))
    requires HasFlag(state, id, flag)
    ensures HasFlag(Step(h, state, FinishAtomizeString(thread, made)), id, flag)
  {
    hide Valid, Timely, Known, IsNew, Step, Returned;
    var j :| 0 <= j < |state.atoms| && state.atoms[j].id == id && flag in state.atoms[j].flags;
    FinishAnswers(h, state, thread, made);
    var after := Step(h, state, FinishAtomizeString(thread, made)).atoms;
    assert after[..|state.atoms|] == state.atoms;
    assert after[j] == state.atoms[j];
  }

  lemma CallKeepsFlag(h: Hashing, state: AtomState, action: Action, id: nat, flag: Flag)
    requires Valid(h, state) && Enabled(state, action) && (action.AtomizeString? || action.AtomizeHashedKey?)
    requires HasFlag(state, id, flag)
    ensures HasFlag(Step(h, state, action), id, flag)
  {
    hide Valid, Known, IsNew, Step, Returned, Enabled, Answers;
    var j :| 0 <= j < |state.atoms| && state.atoms[j].id == id && flag in state.atoms[j].flags;
    CallAnswers(h, state, action);
    var after := Step(h, state, action).atoms;
    if Known(state.atoms, action.request) {
      assert after[j] == Flagged(state.atoms[j], action.request);
    } else {
      assert after[..|state.atoms|] == state.atoms;
      assert after[j] == state.atoms[j];
    }
  }

  lemma StepKeepsFlag(h: Hashing, state: AtomState, action: Action, id: nat, flag: Flag)
    requires Valid(h, state) && Timely(state) && Enabled(state, action)
    requires HasFlag(state, id, flag) && (flag == PINNED || flag == INTERNED)
    ensures HasFlag(Step(h, state, action), id, flag)
  {
    hide Valid, Timely, Known, Answers, Lookup, RequestHash, Returned, IsNew;
    match action
    case Sweep(i) => SweepKeepsFlag(h, state, i, id, flag);
    case FinishAtomizeString(thread, made) => FinishKeepsFlag(h, state, thread, made, id, flag);
    case _ => CallKeepsFlag(h, state, action, id, flag);
  }

  /** Once an atom is pinned or interned it stays in the table, and stays pinned or interned, over every run. */
  lemma {:induction false} PinnedStays(h: Hashing, state: AtomState, actions: seq<Action>, end: AtomState, id: nat,
                                       flag: Flag)
    requires Valid(h, state) && Reaches(h, state, actions, end)
    requires HasFlag(state, id, flag) && (flag == PINNED || flag == INTERNED)
    ensures HasFlag(end, id, flag)
    decreases |actions|
  {
    if actions == [] {
    } else {
      StepIsValid(h, state, actions[0]);
      StepKeepsFlag(h, state, actions[0], id, flag);
      hide Valid, Step, Enabled, Timely, HasFlag;
      PinnedStays(h, Step(h, state, actions[0]), actions[1..], end, id, flag);
    }
  }
}
