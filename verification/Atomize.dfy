/**
 The table of atoms (jsatom.c): any number of threads turn strings into atoms. What a thread does between taking the
 table's lock and releasing it is one step; js_AtomizeString lets go of the lock to copy the string, and looks
 again only if the generation of the table has changed.
 */
module Atomize {
  import opened Wrappers

  type Thread = nat
  type HashNumber = bv32

  const WORD: nat := 0x1_0000_0000
  const HIDDEN_ATOM_SUBSPACE_KEYHASH: HashNumber := 0x6A09E667

  datatype Flag = PINNED | INTERNED | HIDDEN

  /** What an atom stands for: a string, or a value that fits a word. */
  datatype Key = StringKey(s: string) | WordKey(w: nat)

  datatype Atom = Atom(id: nat, keyHash: HashNumber, key: Key, flags: set<Flag>)

  /** The hash functions; nothing is known about them. */
  datatype Hashing = Hashing(ofString: string -> HashNumber, ofWord: nat -> HashNumber)

  /** What a call asks for. */
  datatype Request = Request(key: Key, flags: set<Flag>)

  /** What a thread remembers while it does not hold the lock: its request, and the generation when it looked. */
  datatype Pending = Pending(request: Request, sample: nat)

  /** tablegen counts what state->tablegen counts, but without wrapping; the code compares the counts as words. */
  datatype AtomState = AtomState(atoms: seq<Atom>, tablegen: nat, nextId: nat, threads: map<Thread, Pending>)

  datatype Action =
    | AtomizeString(thread: Thread, request: Request)
    | FinishAtomizeString(thread: Thread, made: bool)
    | AtomizeHashedKey(thread: Thread, request: Request)
    | Sweep(i: nat)

  function KeyHash(h: Hashing, key: Key, hidden: bool): HashNumber {
    match key
    case StringKey(s) => if hidden then h.ofString(s) ^ HIDDEN_ATOM_SUBSPACE_KEYHASH else h.ofString(s)
    case WordKey(w) => h.ofWord(w)
  }

  function RequestHash(h: Hashing, request: Request): HashNumber {
    KeyHash(h, request.key, HIDDEN in request.flags)
  }

  /** JS_HashTableRawLookup: the entry with this hash and key, or the end of the table. */
  function Lookup(atoms: seq<Atom>, keyHash: HashNumber, key: Key): (i: nat)
    ensures i <= |atoms|
    ensures i < |atoms| ==> atoms[i].keyHash == keyHash && atoms[i].key == key
    ensures forall j :: 0 <= j < i ==> !(atoms[j].keyHash == keyHash && atoms[j].key == key)
  {
    if atoms == [] || (atoms[0].keyHash == keyHash && atoms[0].key == key) then 0
    else 1 + Lookup(atoms[1..], keyHash, key)
  }

  predicate Enabled(state: AtomState, action: Action) {
    match action
    case AtomizeString(thread, request) => thread !in state.threads && request.key.StringKey?
    case FinishAtomizeString(thread, _) => thread in state.threads
    case AtomizeHashedKey(thread, request) =>
      thread !in state.threads && request.key.WordKey? && HIDDEN !in request.flags
    // The collector never gets to sweep an atom that is pinned or interned.
    case Sweep(i) => i < |state.atoms| && state.atoms[i].flags !! {PINNED, INTERNED}
  }

  /** JS_HashTableRawAdd with js_alloc_atom: a new entry and a new generation. */
  function Add(h: Hashing, state: AtomState, request: Request): AtomState {
    state.(atoms := state.atoms + [Atom(state.nextId, RequestHash(h, request), request.key, request.flags)],
           tablegen := state.tablegen + 1,
           nextId := state.nextId + 1)
  }

  function AddFlags(state: AtomState, i: nat, flags: set<Flag>): AtomState
    requires i < |state.atoms|
  {
    state.(atoms := state.atoms[i := state.atoms[i].(flags := state.atoms[i].flags + flags)])
  }

  /** The place of a twin that has turned up while the lock was not held. */
  function Twin(h: Hashing, state: AtomState, pending: Pending): nat {
    if state.tablegen % WORD != pending.sample % WORD
    then Lookup(state.atoms, RequestHash(h, pending.request), pending.request.key)
    else |state.atoms|
  }

  function Step(h: Hashing, state: AtomState, action: Action): AtomState
    requires Enabled(state, action)
  {
    match action
    case AtomizeString(thread, request) =>
      var i := Lookup(state.atoms, RequestHash(h, request), request.key);
      if i < |state.atoms| then AddFlags(state, i, request.flags)
      else state.(threads := state.threads[thread := Pending(request, state.tablegen)])
    case FinishAtomizeString(thread, made) =>
      var pending := state.threads[thread];
      var state := state.(threads := state.threads - {thread});
      if !made || Twin(h, state, pending) < |state.atoms| then state else Add(h, state, pending.request)
    case AtomizeHashedKey(thread, request) =>
      var i := Lookup(state.atoms, RequestHash(h, request), request.key);
      if i < |state.atoms| then AddFlags(state, i, request.flags) else Add(h, state, request)
    case Sweep(i) =>
      state.(atoms := state.atoms[..i] + state.atoms[i + 1..], tablegen := state.tablegen + 1)
  }

  /** The request that a step completes, and the atom that the call then returns, if it returns one. */
  function Returned(h: Hashing, state: AtomState, action: Action): Option<(Request, Atom)>
    requires Enabled(state, action)
  {
    var after := Step(h, state, action);
    match action
    case AtomizeString(thread, request) =>
      var i := Lookup(state.atoms, RequestHash(h, request), request.key);
      if i < |state.atoms| then Some((request, after.atoms[i])) else None
    case FinishAtomizeString(thread, made) =>
      var pending := state.threads[thread];
      if !made then None else Some((pending.request, after.atoms[Twin(h, state, pending)]))
    case AtomizeHashedKey(thread, request) =>
      Some((request, after.atoms[Lookup(state.atoms, RequestHash(h, request), request.key)]))
    case Sweep(_) => None
  }

  // ---- what every step keeps ---------------------------------------------------------------------------

  /** Two atoms for one key are never in one subspace, nor is an atom in a subspace that its flags deny. */
  ghost predicate AtomsOk(h: Hashing, atoms: seq<Atom>, nextId: nat) {
    && (forall i, j :: 0 <= i < j < |atoms| && atoms[i].key == atoms[j].key ==> atoms[i].keyHash != atoms[j].keyHash)
    && (forall i :: 0 <= i < |atoms| ==>
          && atoms[i].keyHash == KeyHash(h, atoms[i].key, HIDDEN in atoms[i].flags)
          && (atoms[i].key.WordKey? ==> HIDDEN !in atoms[i].flags)
          && atoms[i].id < nextId)
    && (forall i, j :: 0 <= i < j < |atoms| ==> atoms[i].id != atoms[j].id)
  }

  ghost predicate Absent(h: Hashing, atoms: seq<Atom>, request: Request) {
    forall i :: 0 <= i < |atoms| && atoms[i].key == request.key ==> atoms[i].keyHash != RequestHash(h, request)
  }

  /** As long as the generation is the one sampled, the key is not in the table. */
  ghost predicate PendingOk(h: Hashing, state: AtomState, pending: Pending) {
    && pending.request.key.StringKey?
    && pending.sample <= state.tablegen
    && (pending.sample == state.tablegen ==> Absent(h, state.atoms, pending.request))
  }

  ghost predicate Valid(h: Hashing, state: AtomState) {
    && AtomsOk(h, state.atoms, state.nextId)
    && (forall t :: t in state.threads ==> PendingOk(h, state, state.threads[t]))
  }

  /** No thread has let the 32-bit generation come round while it did not hold the lock. */
  ghost predicate Timely(state: AtomState) {
    forall t :: t in state.threads ==> state.tablegen - state.threads[t].sample < WORD
  }

  lemma SameWord(a: nat, b: nat)
    requires a <= b < a + WORD
    ensures a % WORD == b % WORD ==> a == b
  {
  }

  lemma XorMoves(n: HashNumber)
    ensures n ^ HIDDEN_ATOM_SUBSPACE_KEYHASH != n
  {
  }

  /** The two subspaces of a string never meet. */
  lemma SubspacesDiffer(h: Hashing, s: string)
    ensures KeyHash(h, StringKey(s), true) != KeyHash(h, StringKey(s), false) == h.ofString(s)
  {
    XorMoves(h.ofString(s));
  }

  lemma LookupMisses(h: Hashing, atoms: seq<Atom>, request: Request)
    ensures Lookup(atoms, RequestHash(h, request), request.key) == |atoms| <==> Absent(h, atoms, request)
  {
  }

  /** The atom answers the request: it is for that key, and in the subspace asked for. */
  predicate Answers(atom: Atom, request: Request) {
    atom.key == request.key && (HIDDEN in atom.flags <==> HIDDEN in request.flags)
  }

  /** What is found under the request's hash is in the request's subspace. */
  lemma FoundAnswers(h: Hashing, atoms: seq<Atom>, nextId: nat, request: Request)
    requires AtomsOk(h, atoms, nextId)
    requires request.key.WordKey? ==> HIDDEN !in request.flags
    ensures var i := Lookup(atoms, RequestHash(h, request), request.key);
            i < |atoms| ==> Answers(atoms[i], request)
    ensures forall j :: 0 <= j < |atoms| && Answers(atoms[j], request) ==> atoms[j].keyHash == RequestHash(h, request)
  {
    if request.key.StringKey? {
      SubspacesDiffer(h, request.key.s);
    }
  }

  lemma AddFlagsIsValid(h: Hashing, state: AtomState, i: nat, request: Request)
    requires Valid(h, state) && i < |state.atoms| && Answers(state.atoms[i], request)
    ensures Valid(h, AddFlags(state, i, request.flags))
  {
    var after := AddFlags(state, i, request.flags);
    hide Lookup;
    assert forall j :: 0 <= j < |state.atoms| ==>
        after.atoms[j].key == state.atoms[j].key && after.atoms[j].keyHash == state.atoms[j].keyHash
        && after.atoms[j].id == state.atoms[j].id
        && (HIDDEN in after.atoms[j].flags <==> HIDDEN in state.atoms[j].flags);
  }

  lemma AddIsValid(h: Hashing, state: AtomState, request: Request)
    requires Valid(h, state) && Absent(h, state.atoms, request)
    requires request.key.WordKey? ==> HIDDEN !in request.flags
    ensures Valid(h, Add(h, state, request))
  {
    var after := Add(h, state, request);
    hide Lookup;
    assert forall j :: 0 <= j < |state.atoms| ==> after.atoms[j] == state.atoms[j];
  }

  lemma SweepIsValid(h: Hashing, state: AtomState, i: nat)
    requires Valid(h, state) && Enabled(state, Sweep(i))
    ensures Valid(h, Step(h, state, Sweep(i)))
  {
    var after := Step(h, state, Sweep(i));
    hide Lookup;
    assert forall j :: 0 <= j < |after.atoms| ==> after.atoms[j] == state.atoms[if j < i then j else j + 1];
  }

  /** An unchanged generation word means that the key is still absent; a changed one makes the thread look again. */
  lemma FinishIsValid(h: Hashing, state: AtomState, thread: Thread, made: bool)
    requires Valid(h, state) && Timely(state) && Enabled(state, FinishAtomizeString(thread, made))
    ensures Valid(h, Step(h, state, FinishAtomizeString(thread, made)))
    ensures Twin(h, state, state.threads[thread]) == |state.atoms|
            <==> Absent(h, state.atoms, state.threads[thread].request)
  {
    var pending := state.threads[thread];
    var left := state.(threads := state.threads - {thread});
    assert PendingOk(h, state, pending);
    SameWord(pending.sample, state.tablegen);
    LookupMisses(h, state.atoms, pending.request);
    assert Valid(h, left);
    if Absent(h, state.atoms, pending.request) {
      AddIsValid(h, left, pending.request);
    }
    hide AtomsOk, Lookup, PendingOk, Absent;
  }

  lemma StepIsValid(h: Hashing, state: AtomState, action: Action)
    requires Valid(h, state) && Timely(state) && Enabled(state, action)
    ensures Valid(h, Step(h, state, action))
  {
    match action
    case FinishAtomizeString(thread, made) =>
      FinishIsValid(h, state, thread, made);
    case Sweep(i) =>
      SweepIsValid(h, state, i);
    case AtomizeString(_, request) =>
      FoundAnswers(h, state.atoms, state.nextId, request);
      LookupMisses(h, state.atoms, request);
      var i := Lookup(state.atoms, RequestHash(h, request), request.key);
      if i < |state.atoms| {
        AddFlagsIsValid(h, state, i, request);
      } else {
        hide AtomsOk, Lookup;
      }
    case AtomizeHashedKey(_, request) =>
      FoundAnswers(h, state.atoms, state.nextId, request);
      LookupMisses(h, state.atoms, request);
      var i := Lookup(state.atoms, RequestHash(h, request), request.key);
      if i < |state.atoms| {
        AddFlagsIsValid(h, state, i, request);
      } else {
        AddIsValid(h, state, request);
      }
  }

  // ---- what a call returns -----------------------------------------------------------------------------

  lemma AnswersAreOne(h: Hashing, atoms: seq<Atom>, nextId: nat, request: Request, atom: Atom)
    requires AtomsOk(h, atoms, nextId) && atom in atoms && Answers(atom, request)
    ensures forall other :: other in atoms && Answers(other, request) ==> other == atom
  {
    forall other | other in atoms && Answers(other, request)
      ensures other == atom
    {
      var i :| 0 <= i < |atoms| && atoms[i] == atom;
      var j :| 0 <= j < |atoms| && atoms[j] == other;
      assert atoms[i].keyHash == atoms[j].keyHash;
    }
  }

  lemma RequestIsLegal(h: Hashing, state: AtomState, action: Action)
    requires Valid(h, state) && Enabled(state, action) && Returned(h, state, action).Some?
    ensures var request := Returned(h, state, action).value.0; request.key.WordKey? ==> HIDDEN !in request.flags
  {
    if action.FinishAtomizeString? {
      assert PendingOk(h, state, state.threads[action.thread]);
    }
  }

  lemma ReturnedIsThere(h: Hashing, state: AtomState, action: Action)
    requires Valid(h, state) && Timely(state) && Enabled(state, action) && Returned(h, state, action).Some?
    ensures var (request, atom) := Returned(h, state, action).value;
            Answers(atom, request) && atom in Step(h, state, action).atoms
  {
    hide Lookup, AtomsOk, PendingOk;
    var request := Returned(h, state, action).value.0;
    RequestIsLegal(h, state, action);
    FoundAnswers(h, state.atoms, state.nextId, request);
  }

  /** The atom a call returns is the one atom in the table that answers its request. */
  lemma ReturnsTheAtom(h: Hashing, state: AtomState, action: Action)
    requires Valid(h, state) && Timely(state) && Enabled(state, action) && Returned(h, state, action).Some?
    ensures var (request, atom) := Returned(h, state, action).value;
            && Answers(atom, request)
            && atom in Step(h, state, action).atoms
            && forall other :: other in Step(h, state, action).atoms && Answers(other, request) ==> other == atom
  {
    hide Step, Returned, Answers, AtomsOk;
    var (request, atom) := Returned(h, state, action).value;
    var after := Step(h, state, action);
    StepIsValid(h, state, action);
    ReturnedIsThere(h, state, action);
    AnswersAreOne(h, after.atoms, after.nextId, request, atom);
  }

  /**
   * The flags a call asks for reach the atom unless a twin has turned up while the string was copied, and the twin does
   * not have them already: js_AtomizeString leaves before it sets them.
   */
  lemma FlagsAreSet(h: Hashing, state: AtomState, action: Action)
    requires Valid(h, state) && Timely(state) && Enabled(state, action) && Returned(h, state, action).Some?
    ensures var (request, atom) := Returned(h, state, action).value;
            request.flags <= atom.flags <==>
              (action.FinishAtomizeString? ==>
                 var twin := Twin(h, state, state.threads[action.thread]);
                 twin == |state.atoms| || request.flags <= state.atoms[twin].flags)
  {
    hide Lookup, Valid;
  }

  // ---- every run ---------------------------------------------------------------------------------------

  const EMPTY := AtomState([], 0, 0, map[])

  /** A run of steps, in any order, in which no thread lets the generation come round. */
  ghost predicate Reaches(h: Hashing, state: AtomState, actions: seq<Action>, end: AtomState)
    decreases |actions|
  {
    && Timely(state)
    && if actions == [] then state == end
       else Enabled(state, actions[0]) && Reaches(h, Step(h, state, actions[0]), actions[1..], end)
  }

  lemma {:induction false} RunIsValid(h: Hashing, state: AtomState, actions: seq<Action>, end: AtomState)
    requires Valid(h, state) && Reaches(h, state, actions, end)
    ensures Valid(h, end) && Timely(end)
    decreases |actions|
  {
    if actions == [] {
    } else {
      StepIsValid(h, state, actions[0]);
      hide Valid, Step, Enabled, Timely;
      RunIsValid(h, Step(h, state, actions[0]), actions[1..], end);
    }
  }

  /** However the threads interleave, the table never holds two atoms for one key in one subspace. */
  lemma NoTwins(h: Hashing, actions: seq<Action>, state: AtomState)
    requires Reaches(h, EMPTY, actions, state)
    ensures forall i, j :: 0 <= i < j < |state.atoms| && state.atoms[i].key == state.atoms[j].key ==>
              (HIDDEN in state.atoms[i].flags) != (HIDDEN in state.atoms[j].flags)
  {
    RunIsValid(h, EMPTY, actions, state);
  }

  /**
   * Flags do get lost: two threads ask for a string that is not in the table, one of them wants it pinned, and the
   * other is the first to add it.
   */
  lemma PinIsLost(h: Hashing, key: Key) returns (actions: seq<Action>, state: AtomState)
    requires key.StringKey?
    ensures Reaches(h, EMPTY, actions, state)
    ensures var last := FinishAtomizeString(2, true);
            && Enabled(state, last)
            && Returned(h, state, last).Some?
            && var (request, atom) := Returned(h, state, last).value;
               PINNED in request.flags && PINNED !in atom.flags
  {
    var plain, pinned := Request(key, {}), Request(key, {PINNED});
    actions := [AtomizeString(1, plain), AtomizeString(2, pinned), FinishAtomizeString(1, true)];
    var one := AtomState([], 0, 0, map[1 := Pending(plain, 0)]);
    var two := AtomState([], 0, 0, map[1 := Pending(plain, 0), 2 := Pending(pinned, 0)]);
    state := AtomState([Atom(0, RequestHash(h, plain), key, {})], 1, 1, map[2 := Pending(pinned, 0)]);
    assert Step(h, EMPTY, actions[0]) == one && Step(h, one, actions[1]) == two;
    assert two.threads - {1} == state.threads;
    assert Step(h, two, actions[2]) == state;
    assert actions[1..][1..] == [actions[2]] && actions[1..][0] == actions[1];
    assert Reaches(h, state, [], state);
    assert Reaches(h, two, [actions[2]], state);
    assert Reaches(h, one, actions[1..], state);
  }

  /** The atom with this id is in the table, for the key and the subspace of the request. */
  ghost predicate Holds(state: AtomState, id: nat, request: Request) {
    exists i :: 0 <= i < |state.atoms| && state.atoms[i].id == id && Answers(state.atoms[i], request)
  }

  /** No step of the run sweeps the atom. */
  ghost predicate Spared(h: Hashing, state: AtomState, actions: seq<Action>, id: nat)
    decreases |actions|
  {
    actions != [] && Enabled(state, actions[0]) ==>
      && (actions[0].Sweep? ==> state.atoms[actions[0].i].id != id)
      && Spared(h, Step(h, state, actions[0]), actions[1..], id)
  }

  /** Adding the flags of a request to the atom that answers it changes nothing about what any atom answers. */
  lemma AddFlagsKeepsAtoms(state: AtomState, k: nat, asked: Request, i: nat)
    requires k < |state.atoms| && Answers(state.atoms[k], asked) && i < |state.atoms|
    ensures var atom := AddFlags(state, k, asked.flags).atoms[i];
            atom.id == state.atoms[i].id && forall r :: Answers(atom, r) <==> Answers(state.atoms[i], r)
  {
  }

  lemma CallKeepsAtom(h: Hashing, state: AtomState, asked: Request, i: nat)
    requires AtomsOk(h, state.atoms, state.nextId) && i < |state.atoms|
    requires asked.key.WordKey? ==> HIDDEN !in asked.flags
    ensures var k := Lookup(state.atoms, RequestHash(h, asked), asked.key);
            k < |state.atoms| ==>
              var atom := AddFlags(state, k, asked.flags).atoms[i];
              atom.id == state.atoms[i].id && forall r :: Answers(atom, r) <==> Answers(state.atoms[i], r)
  {
    FoundAnswers(h, state.atoms, state.nextId, asked);
    hide Lookup, AtomsOk, AddFlags, Answers, RequestHash;
    var k := Lookup(state.atoms, RequestHash(h, asked), asked.key);
    if k < |state.atoms| {
      AddFlagsKeepsAtoms(state, k, asked, i);
    }
  }

  lemma CallHolds(h: Hashing, state: AtomState, action: Action, asked: Request, id: nat, request: Request, i: nat)
    requires Enabled(state, action) && (action.AtomizeString? || action.AtomizeHashedKey?) && asked == action.request
    requires i < |state.atoms| && state.atoms[i].id == id && Answers(state.atoms[i], request)
    requires var k := Lookup(state.atoms, RequestHash(h, asked), asked.key);
             k < |state.atoms| ==>
               var atom := AddFlags(state, k, asked.flags).atoms[i]; atom.id == id && Answers(atom, request)
    ensures Holds(Step(h, state, action), id, request)
  {
    hide Lookup, Answers, RequestHash;
    var after := Step(h, state, action);
    assert after.atoms[i].id == id && Answers(after.atoms[i], request);
  }

  lemma StepKeepsAtom(h: Hashing, state: AtomState, action: Action, id: nat, request: Request)
    requires Valid(h, state) && Timely(state) && Enabled(state, action)
    requires Holds(state, id, request) && (action.Sweep? ==> state.atoms[action.i].id != id)
    ensures Holds(Step(h, state, action), id, request)
  {
    var i :| 0 <= i < |state.atoms| && state.atoms[i].id == id && Answers(state.atoms[i], request);
    match action
    case Sweep(k) =>
      hide AtomsOk, Lookup;
      assert Step(h, state, action).atoms[if i < k then i else i - 1] == state.atoms[i];
    case FinishAtomizeString(_, _) =>
      hide AtomsOk, Lookup, Answers;
      assert Step(h, state, action).atoms[i] == state.atoms[i];
    case AtomizeString(_, asked) =>
      CallKeepsAtom(h, state, asked, i);
      CallHolds(h, state, action, asked, id, request, i);
    case AtomizeHashedKey(_, asked) =>
      CallKeepsAtom(h, state, asked, i);
      CallHolds(h, state, action, asked, id, request, i);
  }

  lemma {:induction false} RunKeepsAtom(h: Hashing, state: AtomState, actions: seq<Action>, end: AtomState, id: nat,
                                        request: Request)
    requires Valid(h, state) && Reaches(h, state, actions, end)
    requires Holds(state, id, request) && Spared(h, state, actions, id)
    ensures Holds(end, id, request)
    decreases |actions|
  {
    if actions == [] {
    } else {
      StepIsValid(h, state, actions[0]);
      StepKeepsAtom(h, state, actions[0], id, request);
      hide Valid, Step, Enabled, Timely, Holds;
      RunKeepsAtom(h, Step(h, state, actions[0]), actions[1..], end, id, request);
    }
  }

  lemma OnlyOneAnswers(state: AtomState, id: nat, request: Request, same: Request, atom: Atom)
    requires Holds(state, id, request)
    requires request.key == same.key && (HIDDEN in request.flags <==> HIDDEN in same.flags)
    requires forall other :: other in state.atoms && Answers(other, same) ==> other == atom
    ensures atom.id == id
  {
    var i :| 0 <= i < |state.atoms| && state.atoms[i].id == id && Answers(state.atoms[i], request);
    assert state.atoms[i] in state.atoms && Answers(state.atoms[i], same);
  }

  lemma HoldsIt(state: AtomState, atom: Atom, request: Request)
    requires atom in state.atoms && Answers(atom, request)
    ensures Holds(state, atom.id, request)
  {
  }

  lemma SweepReturnsNothing(h: Hashing, state: AtomState, action: Action)
    requires Enabled(state, action) && Returned(h, state, action).Some?
    ensures !action.Sweep?
  {
  }

  /**
   * Two calls for one key in one subspace return the same atom, whatever threads make them and whatever others do
   * between their ends, as long as that atom is not swept in the meantime.
   */
  lemma SameAtomTwice(h: Hashing, first: AtomState, call: Action, between: seq<Action>, last: AtomState, again: Action)
    requires Valid(h, first) && Timely(first) && Enabled(first, call) && Returned(h, first, call).Some?
    requires Reaches(h, Step(h, first, call), between, last)
    requires Enabled(last, again) && Returned(h, last, again).Some?
    requires var ((request, atom), (request', _)) := (Returned(h, first, call).value, Returned(h, last, again).value);
             && request.key == request'.key
             && (HIDDEN in request.flags <==> HIDDEN in request'.flags)
             && Spared(h, Step(h, first, call), between, atom.id)
    ensures Returned(h, last, again).value.1.id == Returned(h, first, call).value.1.id
  {
    var (request, atom) := Returned(h, first, call).value;
    var (request', atom') := Returned(h, last, again).value;
    hide Returned, Lookup, Valid, Timely, Step, Reaches, Spared, Holds, Enabled, Answers;
    ReturnsTheAtom(h, first, call);
    StepIsValid(h, first, call);
    HoldsIt(Step(h, first, call), atom, request);
    RunKeepsAtom(h, Step(h, first, call), between, last, atom.id, request);
    RunIsValid(h, Step(h, first, call), between, last);
    ReturnsTheAtom(h, last, again);
    SweepReturnsNothing(h, last, again);
    StepKeepsAtom(h, last, again, atom.id, request);
    OnlyOneAnswers(Step(h, last, again), atom.id, request, request', atom');
  }

  /**
   * The condition on runs is needed: a thread that copies its string for as long as 2^32 changes of the table take sees
   * the generation unchanged, and adds a second atom.
   */
  lemma GenerationComesRound(h: Hashing, state: AtomState, thread: Thread)
    requires Valid(h, state) && Enabled(state, FinishAtomizeString(thread, true))
    ensures var pending := state.threads[thread];
            !Absent(h, state.atoms, pending.request) && state.tablegen % WORD == pending.sample % WORD
            <==> !Valid(h, Step(h, state, FinishAtomizeString(thread, true)))
  {
    var pending := state.threads[thread];
    var left := state.(threads := state.threads - {thread});
    var after := Step(h, state, FinishAtomizeString(thread, true));
    assert Valid(h, left) && PendingOk(h, state, pending);
    LookupMisses(h, state.atoms, pending.request);
    if Absent(h, state.atoms, pending.request) {
      AddIsValid(h, left, pending.request);
    } else if state.tablegen % WORD == pending.sample % WORD {
      var i :| 0 <= i < |state.atoms| && state.atoms[i].key == pending.request.key
               && state.atoms[i].keyHash == RequestHash(h, pending.request);
      assert after.atoms[i] == state.atoms[i];
      assert after.atoms[|state.atoms|].key == after.atoms[i].key;
      assert after.atoms[|state.atoms|].keyHash == after.atoms[i].keyHash;
    }
  }

  /** A run of steps, however long threads stay away. */
  ghost predicate Steps(h: Hashing, state: AtomState, actions: seq<Action>, end: AtomState)
    decreases |actions|
  {
    if actions == [] then state == end
    else Enabled(state, actions[0]) && Steps(h, Step(h, state, actions[0]), actions[1..], end)
  }

  lemma {:induction false} StepsJoin(h: Hashing, state: AtomState, actions: seq<Action>, mid: AtomState,
                                     others: seq<Action>, end: AtomState)
    requires Steps(h, state, actions, mid) && Steps(h, mid, others, end)
    ensures Steps(h, state, actions + others, end)
    decreases |actions|
  {
    hide Step, Enabled;
    if actions == [] {
      assert actions + others == others;
    } else {
      StepsJoin(h, Step(h, state, actions[0]), actions[1..], mid, others, end);
      assert (actions + others)[1..] == actions[1..] + others;
    }
  }

  lemma StepOnce(h: Hashing, state: AtomState, action: Action)
    requires Enabled(state, action)
    ensures Steps(h, state, [action], Step(h, state, action))
  {
    assert Steps(h, Step(h, state, action), [], Step(h, state, action));
  }

  const OTHER := Request(WordKey(0), {})

  /** A thread waits to add the atom that another has added meanwhile, and one more atom has come n times and gone. */
  ghost function Awaited(h: Hashing, request: Request, n: nat): AtomState {
    AtomState([Atom(0, RequestHash(h, request), request.key, request.flags),
               Atom(1 + n, RequestHash(h, OTHER), OTHER.key, {})],
              2 + 2 * n, 2 + n, map[1 := Pending(request, 0)])
  }

  /** The other atom is swept and added again, n times. */
  ghost function Rounds(n: nat): seq<Action> {
    if n == 0 then [] else Rounds(n - 1) + [Sweep(1), AtomizeHashedKey(2, OTHER)]
  }

  lemma FirstRound(h: Hashing, request: Request) returns (actions: seq<Action>)
    requires request.key.StringKey?
    ensures Steps(h, EMPTY, actions, Awaited(h, request, 0))
  {
    var ask, askToo, finish := AtomizeString(1, request), AtomizeString(2, request), FinishAtomizeString(2, true);
    var one, two := map[1 := Pending(request, 0)], map[1 := Pending(request, 0), 2 := Pending(request, 0)];
    var added := Atom(0, RequestHash(h, request), request.key, request.flags);
    assert two - {2} == one;
    StepOnce(h, EMPTY, ask);
    StepOnce(h, AtomState([], 0, 0, one), askToo);
    StepsJoin(h, EMPTY, [ask], AtomState([], 0, 0, one), [askToo], AtomState([], 0, 0, two));
    StepOnce(h, AtomState([], 0, 0, two), finish);
    StepsJoin(h, EMPTY, [ask] + [askToo], AtomState([], 0, 0, two), [finish], AtomState([added], 1, 1, one));
    StepOnce(h, AtomState([added], 1, 1, one), AtomizeHashedKey(2, OTHER));
    assert Lookup([], RequestHash(h, OTHER), OTHER.key) == 0 && [added][1..] == [];
    actions := [ask] + [askToo] + [finish] + [AtomizeHashedKey(2, OTHER)];
    StepsJoin(h, EMPTY, [ask] + [askToo] + [finish], AtomState([added], 1, 1, one), [AtomizeHashedKey(2, OTHER)],
              Awaited(h, request, 0));
  }

  lemma NextRound(h: Hashing, request: Request, n: nat)
    requires request.key.StringKey?
    ensures Steps(h, Awaited(h, request, n), [Sweep(1), AtomizeHashedKey(2, OTHER)], Awaited(h, request, n + 1))
  {
    var state := Awaited(h, request, n);
    var swept := state.(atoms := [state.atoms[0]], tablegen := state.tablegen + 1);
    StepOnce(h, state, Sweep(1));
    StepOnce(h, swept, AtomizeHashedKey(2, OTHER));
    assert Lookup([], RequestHash(h, OTHER), OTHER.key) == 0 && swept.atoms[1..] == [];
    StepsJoin(h, state, [Sweep(1)], swept, [AtomizeHashedKey(2, OTHER)], Awaited(h, request, n + 1));
    assert [Sweep(1)] + [AtomizeHashedKey(2, OTHER)] == [Sweep(1), AtomizeHashedKey(2, OTHER)];
  }

  lemma {:induction false} ManyRounds(h: Hashing, request: Request, n: nat)
    requires request.key.StringKey?
    ensures Steps(h, Awaited(h, request, 0), Rounds(n), Awaited(h, request, n))
  {
    hide Awaited, Step, Enabled;
    if n > 0 {
      ManyRounds(h, request, n - 1);
      NextRound(h, request, n - 1);
      StepsJoin(h, Awaited(h, request, 0), Rounds(n - 1), Awaited(h, request, n - 1),
                [Sweep(1), AtomizeHashedKey(2, OTHER)], Awaited(h, request, n));
    }
  }

  /** The generation has come round: the waiting thread finds no twin, and adds its atom. */
  lemma LastRound(h: Hashing, request: Request, n: nat)
    requires request.key.StringKey? && 2 + 2 * n == WORD
    ensures var (state, last) := (Awaited(h, request, n), FinishAtomizeString(1, true));
            && Enabled(state, last)
            && var end := Step(h, state, last);
               && |end.atoms| == 3 && end.atoms[0].id != end.atoms[2].id
               && Answers(end.atoms[0], request) && Answers(end.atoms[2], request)
  {
    assert Twin(h, Awaited(h, request, n), Pending(request, 0)) == 2;
  }

  /** For every string there is a run from the empty table that ends with two atoms for it in one subspace. */
  lemma TwinsAfterAll(h: Hashing, request: Request) returns (actions: seq<Action>, end: AtomState)
    requires request.key.StringKey?
    ensures Steps(h, EMPTY, actions, end)
    ensures |end.atoms| == 3 && end.atoms[0].id != end.atoms[2].id
    ensures Answers(end.atoms[0], request) && Answers(end.atoms[2], request)
  {
    hide Awaited, Step, Enabled, Steps, Rounds;
    var n: nat := WORD / 2 - 1;
    var last := FinishAtomizeString(1, true);
    var first := FirstRound(h, request);
    ManyRounds(h, request, n);
    LastRound(h, request, n);
    StepOnce(h, Awaited(h, request, n), last);
    end := Step(h, Awaited(h, request, n), last);
    StepsJoin(h, EMPTY, first, Awaited(h, request, 0), Rounds(n), Awaited(h, request, n));
    actions := first + Rounds(n) + [last];
    StepsJoin(h, EMPTY, first + Rounds(n), Awaited(h, request, n), [last], end);
  }

  // ---- the operations in place -------------------------------------------------------------------------

  /** The shared state of the atom table. Each method is one lock section, taken by one thread among others. */
  class JSAtomState {
    const hashing: Hashing
    var atoms: seq<Atom>
    var tablegen: nat
    var nextId: nat

    ghost function With(threads: map<Thread, Pending>): AtomState
      reads this
    {
      AtomState(atoms, tablegen, nextId, threads)
    }

    method RawLookup(keyHash: HashNumber, key: Key) returns (i: nat)
      ensures i == Lookup(atoms, keyHash, key)
    {
      i := 0;
      while i < |atoms| && !(atoms[i].keyHash == keyHash && atoms[i].key == key)
        invariant i <= |atoms|
        invariant Lookup(atoms, keyHash, key) == i + Lookup(atoms[i..], keyHash, key)
      {
        assert atoms[i..][1..] == atoms[i + 1..];
        i := i + 1;
      }
    }

    method RawAdd(keyHash: HashNumber, request: Request)
      requires keyHash == RequestHash(hashing, request)
      modifies this
      ensures forall threads :: With(threads) == Add(hashing, old(With(threads)), request)
    {
      tablegen := tablegen + 1;
      atoms := atoms + [Atom(nextId, keyHash, request.key, request.flags)];
      nextId := nextId + 1;
    }

    /** The first half of js_AtomizeString: a hit gets the flags, a miss samples the generation. */
    method AtomizeString(request: Request, ghost thread: Thread, ghost threads: map<Thread, Pending>)
      returns (atom: Option<Atom>, gen: nat, ghost after: map<Thread, Pending>)
      requires Enabled(With(threads), Action.AtomizeString(thread, request))
      modifies `atoms
      ensures With(after) == Step(hashing, old(With(threads)), Action.AtomizeString(thread, request))
      ensures after == if atom.Some? then threads else threads[thread := Pending(request, gen)]
      ensures var r := Returned(hashing, old(With(threads)), Action.AtomizeString(thread, request));
              atom == if r.Some? then Some(r.value.1) else None
    {
      var i := RawLookup(RequestHash(hashing, request), request.key);
      gen, after, atom := tablegen, threads, None;
      if i < |atoms| {
        atoms := atoms[i := atoms[i].(flags := atoms[i].flags + request.flags)];
        atom := Some(atoms[i]);
      } else {
        after := threads[thread := Pending(request, gen)];
      }
    }

    /** The second half, after the string has been copied. */
    method FinishAtomizeString(request: Request, gen: nat, ghost thread: Thread, ghost threads: map<Thread, Pending>)
      returns (atom: Atom)
      requires thread in threads && threads[thread] == Pending(request, gen)
      modifies this
      ensures With(threads - {thread})
           == Step(hashing, old(With(threads)), Action.FinishAtomizeString(thread, true))
      ensures Returned(hashing, old(With(threads)), Action.FinishAtomizeString(thread, true)) == Some((request, atom))
    {
      var keyHash := RequestHash(hashing, request);
      if tablegen % WORD != gen % WORD {
        var i := RawLookup(keyHash, request.key);
        if i < |atoms| {
          return atoms[i];
        }
      }
      RawAdd(keyHash, request);
      ghost var added := With(map[]);
      atom := atoms[|atoms| - 1];
    }

    /** js_free_atom, called for an atom that the collector has found dead. */
    method FreeAtom(i: nat, ghost threads: map<Thread, Pending>)
      requires Enabled(With(threads), Sweep(i))
      modifies `atoms, `tablegen
      ensures With(threads) == Step(hashing, old(With(threads)), Sweep(i))
    {
      tablegen := tablegen + 1;
      atoms := atoms[..i] + atoms[i + 1..];
    }
  }
}
