/**
 The local-root stack as jscntxt.c keeps it: words in chunks of 256, the newest chunk first, freed as
 soon as their last word is popped.
 */
module LocalRootStack {
  import opened Wrappers
  import opened LocalRoots

  /** JSLRS_CHUNK_SIZE. */
  const CHUNK_SIZE: nat := 256

  class JSLocalRootChunk {
    var roots: seq<JSVal>
    var down: JSLocalRootChunk?

    constructor (down: JSLocalRootChunk?)
      ensures this.down == down && |roots| == CHUNK_SIZE
    {
      this.down := down;
      this.roots := seq(CHUNK_SIZE, _ => Null);
    }
  }

  /** How many chunks hold n words; an empty stack keeps its embedded first chunk. */
  function ChunksFor(n: nat): nat {
    if n == 0 then 1 else (n + CHUNK_SIZE - 1) / CHUNK_SIZE
  }

  /** Place n is slot n % 256 of the last of the chunks that hold n + 1 words. */
  lemma LastSlot(n: nat, chunks: nat)
    requires chunks == ChunksFor(n + 1)
    ensures chunks > 0 && (chunks - 1) * CHUNK_SIZE + n % CHUNK_SIZE == n && n / CHUNK_SIZE == chunks - 1
    ensures n + 1 <= CHUNK_SIZE * chunks
  {
  }

  lemma OuterMarkFits(r: Roots)
    requires WellFormed(r) && r.mark != NULL_MARK
    ensures r.mark < |r.words| && ValToMark(r.words[r.mark]) < WORD
  {
  }

  lemma TraceOfNone(r: Roots)
    requires WellFormed(r) && r.words == []
    ensures Trace(r) == []
  {
  }

  lemma TraceUnfolds(r: Roots)
    requires WellFormed(r) && r.mark < |r.words|
    ensures WellFormed(Outer(r)) && Trace(r) == Down(r.words, |r.words|, r.mark) + Trace(Outer(r))
  {
  }

  lemma MarkBelow(r: Roots)
    requires WellFormed(r)
    ensures if r.mark == NULL_MARK then r.words == [] else r.mark < |r.words|
  {
  }

  /** A scope that holds no roots has none to forget. */
  lemma OnlyTheMark(r: Roots, v: JSVal)
    requires WellFormed(r) && r.mark != NULL_MARK && r.mark >= |r.words| - 1
    ensures r.mark < |r.words| && Forget(r, v) == r
  {
  }

  /** What forgetting comes to: the last word is dropped, after taking the place of the one found. */
  lemma ForgetIs(r: Roots, v: JSVal)
    requires r.mark < |r.words|
    ensures var (n, words) := (|r.words| - 1, r.words);
            && (r.mark < n && words[n] == v ==> Forget(r, v) == r.(words := words[..n]))
            && match Find(words, r.mark, n, v)
               case None => Forget(r, v) == r
               case Some(i) => Forget(r, v) == r.(words := words[i := words[n]][..n])
  {
    if r.words[|r.words| - 1] == v {
      assert r.words[|r.words| - 1 := v] == r.words;
    }
  }

  class JSLocalRootStack {
    var scopeMark: nat
    var rootCount: nat
    var topChunk: JSLocalRootChunk
    const firstChunk: JSLocalRootChunk
    /** The chunks, first one first. */
    ghost var chunks: seq<JSLocalRootChunk>

    /** The chunks form the list from topChunk down to firstChunk. */
    ghost predicate Chain()
      reads `chunks, `topChunk, chunks
    {
      && |chunks| > 0 && chunks[0] == firstChunk && chunks[|chunks| - 1] == topChunk
      && chunks[0].down == null
      && (forall k {:trigger chunks[k].roots} :: 0 <= k < |chunks| ==> |chunks[k].roots| == CHUNK_SIZE)
      && (forall k {:trigger chunks[k].down} :: 1 <= k < |chunks| ==> chunks[k].down == chunks[k - 1])
      && (forall j, k :: 0 <= j < k < |chunks| ==> chunks[j] != chunks[k])
    }

    /** The chain has just enough chunks for rootCount words. */
    ghost predicate Linked()
      reads this, chunks
    {
      rootCount < WORD && scopeMark < WORD && Chain() && |chunks| == ChunksFor(rootCount)
    }

    /** The word at place i. */
    ghost function Word(i: nat): JSVal
      requires Chain() && i / CHUNK_SIZE < |chunks|
      reads `chunks, `topChunk, chunks
    {
      chunks[i / CHUNK_SIZE].roots[i % CHUNK_SIZE]
    }

    /** The first n words. */
    ghost function Words(n: nat): (s: seq<JSVal>)
      requires Chain() && n <= CHUNK_SIZE * |chunks|
      reads `chunks, `topChunk, chunks
      ensures |s| == n && forall i :: 0 <= i < n ==> s[i] == Word(i)
    {
      if n == 0 then [] else Words(n - 1) + [Word(n - 1)]
    }

    ghost function Model(): Roots
      requires Linked()
      reads this, chunks
    {
      Roots(Words(rootCount), scopeMark)
    }

    /** A fresh, empty stack. */
    constructor ()
      ensures Linked() && Model() == NO_ROOTS && fresh(chunks)
    {
      scopeMark, rootCount := NULL_MARK, 0;
      var chunk := new JSLocalRootChunk(null);
      firstChunk, topChunk, chunks := chunk, chunk, [chunk];
    }

    /** Link a new chunk on top. */
    method AddChunk()
      requires Chain()
      modifies this`topChunk, this`chunks
      ensures Chain() && |chunks| == |old(chunks)| + 1 && chunks[..|old(chunks)|] == old(chunks) && fresh(topChunk)
      ensures forall i: nat :: i / CHUNK_SIZE < |old(chunks)| ==> Word(i) == old(Word(i))
    {
      var chunk := new JSLocalRootChunk(topChunk);
      topChunk := chunk;
      chunks := chunks + [chunk];
    }

    /** Free the top chunk, which is not the first. */
    method DropChunk()
      requires Chain() && |chunks| > 1
      modifies this`topChunk, this`chunks
      ensures Chain() && chunks == old(chunks)[..|old(chunks)| - 1]
      ensures forall i: nat :: i / CHUNK_SIZE < |chunks| ==> Word(i) == old(Word(i))
    {
      topChunk := topChunk.down;
      chunks := chunks[..|chunks| - 1];
    }

    /** Overwrite slot m of the chunk at position k. */
    method Store(chunk: JSLocalRootChunk, ghost k: nat, m: nat, v: JSVal)
      requires Chain() && k < |chunks| && chunks[k] == chunk && m < CHUNK_SIZE
      modifies chunk
      ensures Chain()
      ensures forall i: nat :: i / CHUNK_SIZE < |chunks| ==>
                Word(i) == if i == k * CHUNK_SIZE + m then v else old(Word(i))
    {
      chunk.roots := chunk.roots[m := v];
    }

    /** js_PushLocalRoot: append a word, in a new chunk if the top one is full. The answer is its place,
        or -1 if the chunk could not be had or the count would wrap. */
    method Push(v: JSVal, mallocOk: bool) returns (place: int)
      requires Linked()
      modifies this, chunks
      ensures Linked() && forall c :: c in chunks ==> c in old(chunks) || fresh(c)
      ensures var full := old(rootCount) == WORD - 1 ||
                          (old(rootCount) != 0 && old(rootCount) % CHUNK_SIZE == 0 && !mallocOk);
              && Model() == (if full then old(Model()) else LocalRoots.Push(old(Model()), v))
              && (old(rootCount) < 0x8000_0000 ==> place == if full then -1 else old(rootCount))
              && (old(rootCount) >= 0x8000_0000 ==> place < 0)
    {
      hide Word, Words;
      var n := rootCount;
      var ok := MakeRoom(mallocOk);
      SameWords(n);
      if !ok {
        return -1;
      }
      Append(v);
      place := if n < 0x8000_0000 then n else n - WORD;
    }

    /** Put a word in the next slot, which the top chunk has. */
    method Append(v: JSVal)
      requires Chain() && rootCount < WORD - 1 && |chunks| == ChunksFor(rootCount + 1)
      modifies this`rootCount, topChunk
      ensures Chain() && rootCount == old(rootCount) + 1
      ensures Words(rootCount) == old(Words(rootCount)) + [v]
    {
      hide Words, Word;
      var n := rootCount;
      LastSlot(n, |chunks|);
      Store(topChunk, |chunks| - 1, n % CHUNK_SIZE, v);
      SameWords(n);
      OneMoreWord(n);
      rootCount := n + 1;
    }

    lemma OneMoreWord(n: nat)
      requires Chain() && n + 1 <= CHUNK_SIZE * |chunks|
      ensures Words(n + 1) == Words(n) + [Word(n)]
    {
    }

    /** See that the top chunk has a slot for one more word. */
    method MakeRoom(mallocOk: bool) returns (ok: bool)
      requires Linked()
      modifies this`topChunk, this`chunks
      ensures ok <==> !(rootCount == WORD - 1 || (rootCount != 0 && rootCount % CHUNK_SIZE == 0 && !mallocOk))
      ensures Chain() && (forall c :: c in chunks ==> c in old(chunks) || fresh(c))
      ensures if ok then |chunks| == ChunksFor(rootCount + 1) else chunks == old(chunks)
      ensures topChunk in chunks
      ensures forall i: nat :: i < rootCount ==> i / CHUNK_SIZE < |chunks| && Word(i) == old(Word(i))
    {
      var n := rootCount;
      if n == 0 || n % CHUNK_SIZE != 0 {
        return (n + 1) % WORD != 0;
      }
      if !mallocOk {
        return false;
      }
      AddChunk();
      return true;
    }

    /** If no word below n has changed, nor has the sequence of them. */
    twostate lemma SameWords(n: nat)
      requires old(Chain()) && Chain() && n <= CHUNK_SIZE * |old(chunks)| && n <= CHUNK_SIZE * |chunks|
      requires forall i: nat :: i < n ==> Word(i) == old(Word(i))
      ensures Words(n) == old(Words(n))
    {
    }

    lemma {:induction false} WordsPrefix(m: nat, n: nat)
      requires Chain() && m <= n <= CHUNK_SIZE * |chunks|
      ensures Words(n)[..m] == Words(m)
    {
      if m >= n {
      } else {
        WordsPrefix(m, n - 1);
        assert Words(n)[..n - 1] == Words(n - 1);
        assert Words(n)[..m] == Words(n)[..n - 1][..m];
      }
    }

    /** Open a scope by pushing the mark of the scope that encloses it. */
    method EnterScope(chunkOk: bool) returns (ok: bool)
      requires Linked() && rootCount < MARK_LIMIT
      modifies this, chunks
      ensures Linked() && forall c :: c in chunks ==> c in old(chunks) || fresh(c)
      ensures Model() == if ok then Enter(old(Model())) else old(Model())
      ensures ok <==> chunkOk || old(rootCount) == 0 || old(rootCount) % 256 != 0
    {
      hide Words, Chain;
      var mark := Push(MarkToVal(scopeMark), chunkOk);
      if mark < 0 {
        return false;
      }
      scopeMark := mark;
      return true;
    }

    /** Free the chunks above the one that holds place mark. */
    method FreeChunksAbove(mark: nat)
      requires Linked() && mark < rootCount
      modifies this`topChunk, this`chunks
      ensures Chain() && |chunks| == mark / CHUNK_SIZE + 1 && chunks <= old(chunks)
      ensures mark + 1 <= CHUNK_SIZE * |chunks| <= CHUNK_SIZE * |old(chunks)|
      ensures forall i: nat :: i <= mark ==> i / CHUNK_SIZE < |chunks| && Word(i) == old(Word(i))
    {
      hide Words;
      var m := mark / CHUNK_SIZE;
      var n := (rootCount - 1) / CHUNK_SIZE;
      LastSlot(rootCount - 1, |chunks|);
      while n > m
        invariant m <= n && |chunks| == n + 1 && Chain() && chunks <= old(chunks)
        invariant forall i: nat :: i / CHUNK_SIZE < |chunks| ==> Word(i) == old(Word(i))
      {
        DropChunk();
        n := n - 1;
      }
    }

    /** Close the top scope: pop to its mark, and put a GC-thing in the mark's place unless the scope is
        the outermost. True if nothing is left. */
    method LeaveScope(rval: JSVal) returns (gone: bool)
      requires Linked() && WellFormed(Model()) && scopeMark != NULL_MARK
      modifies this, chunks
      ensures gone <==> old(scopeMark) == 0
      ensures !gone ==> Linked() && rootCount > 0 && Model() == Leave(old(Model()), rval)
      ensures forall c :: c in chunks ==> c in old(chunks)
    {
      hide Words, Word, WellFormed, Chain;
      var mark := scopeMark;
      ghost var was := Model();
      OuterMarkFits(was);
      RoomForMark(mark);
      WordsPrefix(mark, rootCount);
      FreeChunksAbove(mark);
      SameWords(mark);
      RoomForMark(mark);
      var m := mark % CHUNK_SIZE;
      assert topChunk.roots[m] == was.words[mark];
      scopeMark := ValToMark(topChunk.roots[m]);
      rootCount := mark;
      if mark == 0 {
        return true;
      }
      if rval.GCThing? {
        Append(rval);
        return false;
      }
      if m == 0 {
        DropChunk();
      }
      SameWords(mark);
      return false;
    }

    /** The chunk and slot of place mark when no chunk lies above it. */
    lemma RoomForMark(mark: nat)
      requires Chain() && mark + 1 <= CHUNK_SIZE * |chunks|
      ensures mark / CHUNK_SIZE < |chunks| && topChunk in chunks
      ensures |chunks| == mark / CHUNK_SIZE + 1 ==>
                |topChunk.roots| == CHUNK_SIZE && topChunk.roots[mark % CHUNK_SIZE] == Word(mark)
    {
    }

    /** js_ForgetLocalRoot: take one occurrence of v, the topmost, out of the top scope. */
    method ForgetRoot(v: JSVal)
      requires Linked() && WellFormed(Model())
      modifies this, chunks
      ensures Linked() && forall c :: c in chunks ==> c in old(chunks)
      ensures Model() == if old(scopeMark) == NULL_MARK then old(Model()) else Forget(old(Model()), v)
    {
      hide WellFormed, Words, Word, Chain, Forget, Find, Overwritten;
      MarkBelow(Model());
      if rootCount == 0 {
        return;
      }
      ghost var was := Model();
      var n := rootCount - 1;
      if scopeMark <= n {
        ForgetIs(was, v);
      }
      SlotOf(n);
      var top := topChunk.roots[n % CHUNK_SIZE];
      if scopeMark >= n {
        OnlyTheMark(was, v);
        return;
      }
      if top != v {
        var i, chunk := SearchDown(v);
        if i == scopeMark {
          return;
        }
        StoreWord(chunk, i, top);
      }
      Pop();
    }

    /** Where the word at place i is, and where the search goes from the first slot of its chunk. */
    lemma SlotOf(i: nat)
      requires Linked() && i < rootCount
      ensures i / CHUNK_SIZE < |chunks| && |chunks[i / CHUNK_SIZE].roots| == CHUNK_SIZE && topChunk in chunks
      ensures Words(rootCount)[i] == chunks[i / CHUNK_SIZE].roots[i % CHUNK_SIZE]
      ensures i == rootCount - 1 ==> topChunk == chunks[i / CHUNK_SIZE]
      ensures i >= CHUNK_SIZE ==> chunks[i / CHUNK_SIZE].down == chunks[i / CHUNK_SIZE - 1]
      ensures i < CHUNK_SIZE ==> chunks[i / CHUNK_SIZE].down == null
    {
      hide Words;
      LastSlot(rootCount - 1, |chunks|);
    }

    /** Overwrite the word at place i, given its chunk. */
    method StoreWord(chunk: JSLocalRootChunk, i: nat, v: JSVal)
      requires Linked() && i < rootCount && chunk == chunks[i / CHUNK_SIZE]
      modifies chunk
      ensures Linked() && Words(rootCount) == old(Words(rootCount))[i := v]
    {
      hide Words;
      Store(chunk, i / CHUNK_SIZE, i % CHUNK_SIZE, v);
      LastSlot(rootCount - 1, |chunks|);
    }

    lemma FindGoesOn(words: seq<JSVal>, mark: nat, n: nat, v: JSVal)
      requires mark <= n < |words|
      ensures n == mark ==> Find(words, mark, n, v) == None
      ensures n > mark ==> Find(words, mark, n, v) == if words[n] == v then Some(n) else Find(words, mark, n - 1, v)
    {
    }

    /** The search of js_ForgetLocalRoot below a last word that is not v; the mark if there is none. */
    method SearchDown(v: JSVal) returns (i: nat, chunk: JSLocalRootChunk)
      requires Linked() && 0 < rootCount && scopeMark < rootCount - 1 && Words(rootCount)[rootCount - 1] != v
      ensures scopeMark <= i < rootCount && (i > scopeMark ==> chunk == chunks[i / CHUNK_SIZE])
      ensures Find(Words(rootCount), scopeMark, rootCount - 1, v) == if i == scopeMark then None else Some(i)
    {
      hide Words, Word, Chain, Find;
      ghost var words := Words(rootCount);
      var n := rootCount - 1;
      SlotOf(n);
      FindGoesOn(words, scopeMark, n, v);
      i, chunk := n, topChunk;
      var j := n % CHUNK_SIZE;
      while true
        invariant scopeMark < i <= n && chunk == chunks[i / CHUNK_SIZE] && j == i % CHUNK_SIZE
        invariant Find(words, scopeMark, n, v) == Find(words, scopeMark, i - 1, v)
        decreases i
      {
        SlotOf(i);
        SlotOf(i - 1);
        i := i - 1;
        FindGoesOn(words, scopeMark, i, v);
        if i == scopeMark {
          break;
        }
        if j == 0 {
          chunk := chunk.down;
        }
        j := i % CHUNK_SIZE;
        if chunk.roots[j] == v {
          break;
        }
      }
    }

    /** Drop the last word, and its chunk if that was the chunk's first. */
    method Pop()
      requires Linked() && rootCount > 1
      modifies this`rootCount, this`topChunk, this`chunks, topChunk
      ensures Linked() && rootCount == old(rootCount) - 1 && forall c :: c in chunks ==> c in old(chunks)
      ensures Words(rootCount) == old(Words(rootCount))[..rootCount]
    {
      hide Words;
      var n := rootCount - 1;
      LastSlot(n, |chunks|);
      WordsPrefix(n, rootCount);
      Store(topChunk, |chunks| - 1, n % CHUNK_SIZE, Null);
      rootCount := n;
      if n % CHUNK_SIZE == 0 {
        DropChunk();
      }
      SameWords(n);
    }

    /** The chunk of place n - 1, or null when nothing is left. */
    ghost function ChunkOf(n: nat): JSLocalRootChunk?
      requires Linked() && n <= rootCount
      reads this, chunks
    {
      if n == 0 then null else (LastSlot(rootCount - 1, |chunks|); chunks[(n - 1) / CHUNK_SIZE])
    }

    /** Going down a chunk after its first slot leads to the chunk of the place before. */
    lemma StepDown(n: nat)
      requires Linked() && n < rootCount
      ensures ChunkOf(n + 1) != null && |ChunkOf(n + 1).roots| == CHUNK_SIZE
      ensures Words(rootCount)[n] == ChunkOf(n + 1).roots[n % CHUNK_SIZE]
      ensures ChunkOf(n) == if n % CHUNK_SIZE == 0 then ChunkOf(n + 1).down else ChunkOf(n + 1)
    {
      hide Words, Word, Chain;
      SlotOf(n);
      if n > 0 {
        SlotOf(n - 1);
      }
    }

    /** js_TraceLocalRoots: report every root from the top down, stepping over the saved marks. */
    method TraceLocalRoots() returns (t: seq<Report>)
      requires Linked() && WellFormed(Model())
      ensures t == Trace(Model())
    {
      hide Words, Word, Chain, WellFormed, Trace, ChunkOf, Down, ValToMark, MarkToVal;
      t := [];
      var n: nat := rootCount;
      MarkBelow(Model());
      if n == 0 {
        TraceOfNone(Model());
        return;
      }
      var mark: nat := scopeMark;
      var chunk: JSLocalRootChunk? := topChunk;
      ghost var r := Model();
      TopIsChunkOf();
      while true
        invariant 0 < n <= rootCount && chunk == ChunkOf(n)
        invariant r == Roots(Words(rootCount)[..n], mark) && WellFormed(r) && mark < n
        invariant t + Trace(r) == Trace(Model())
        decreases n
      {
        n, chunk, t := TraceScope(n, mark, chunk, r, t);
        StepDown(n);
        TraceUnfolds(r);
        mark := ValToMark(chunk.roots[n % CHUNK_SIZE]);
        if n % CHUNK_SIZE == 0 {
          chunk := chunk.down;
        }
        r := Outer(r);
        assert r.words == Words(rootCount)[..n];
        MarkBelow(r);
        if n == 0 {
          TraceOfNone(r);
          break;
        }
      }
    }

    /** The inner loop: report the roots of one scope down to its mark. */
    method TraceScope(from: nat, mark: nat, top: JSLocalRootChunk?, ghost r: Roots, t0: seq<Report>)
      returns (n: nat, chunk: JSLocalRootChunk?, t: seq<Report>)
      requires Linked() && mark < from <= rootCount && top == ChunkOf(from)
      requires r == Roots(Words(rootCount)[..from], mark)
      ensures n == mark && chunk == ChunkOf(n + 1)
      ensures t == t0 + Down(r.words, from, mark)
    {
      hide Words, Word, Chain, ChunkOf;
      n, chunk, t := from, top, t0;
      assert t0 == t0 + [];
      while true
        invariant mark < n <= from && chunk == ChunkOf(n)
        invariant t + Down(r.words, n, mark) == t0 + Down(r.words, from, mark)
        decreases n
      {
        n := n - 1;
        StepDown(n);
        if n <= mark {
          break;
        }
        t := t + [Report(n, chunk.roots[n % CHUNK_SIZE])];
        if n % CHUNK_SIZE == 0 {
          chunk := chunk.down;
        }
      }
    }

    lemma TopIsChunkOf()
      requires Linked() && rootCount > 0
      ensures ChunkOf(rootCount) == topChunk && Words(rootCount)[..rootCount] == Words(rootCount)
    {
      LastSlot(rootCount - 1, |chunks|);
    }
  }

  /** Leaving and forgetting, which callers may also ask for when no scope is open. */
  function LeaveIn(r: Roots, rval: JSVal): Roots {
    if r.mark < |r.words| then Leave(r, rval) else r
  }

  function ForgetIn(r: Roots, v: JSVal): Roots {
    if r.mark < |r.words| then Forget(r, v) else r
  }

  /** Below an outermost scope there is nothing. */
  lemma LeaveKeepsForm(r: Roots, rval: JSVal)
    requires WellFormed(r)
    ensures WellFormed(LeaveIn(r, rval)) && (|Scopes(r)| == 1 <==> r.mark == 0)
    ensures r.mark == 0 ==> LeaveIn(r, rval) == NO_ROOTS
    ensures LeaveIn(r, rval) == if r.mark == NULL_MARK then r else Leave(r, rval)
    ensures r.mark == NULL_MARK <==> r.words == []
    ensures r.words != [] ==> r.mark < |r.words|
  {
    if r.mark != NULL_MARK {
      LeavePops(r, rval);
    }
  }

  lemma ForgetKeepsForm(r: Roots, v: JSVal)
    requires WellFormed(r)
    ensures WellFormed(ForgetIn(r, v)) && (|ForgetIn(r, v).words| > 0 <==> |r.words| > 0)
    ensures ForgetIn(r, v) == if r.mark == NULL_MARK then r else Forget(r, v)
    ensures r.words != [] ==> r.mark < |r.words| && r.mark != NULL_MARK
  {
    if r.mark != NULL_MARK {
      ForgetRemovesOne(r, v);
    }
  }

  /** The part of a JSContext that local roots use. */
  class JSContext {
    var localRootStack: JSLocalRootStack?
    var lastInternalResult: JSVal

    constructor ()
      ensures Valid() && Scoped() == NO_ROOTS && lastInternalResult == Null
    {
      localRootStack, lastInternalResult := null, Null;
    }

    ghost function Chunks(): seq<JSLocalRootChunk>
      reads this, localRootStack
    {
      if localRootStack == null then [] else localRootStack.chunks
    }

    ghost predicate Valid()
      reads this, localRootStack, Chunks()
    {
      localRootStack != null ==>
        && localRootStack.Linked() && WellFormed(localRootStack.Model()) && localRootStack.rootCount > 0
    }

    ghost function Scoped(): Roots
      requires Valid()
      reads this, localRootStack, Chunks()
    {
      if localRootStack == null then NO_ROOTS else localRootStack.Model()
    }

    /** js_EnterLocalRootScope: make the stack if there is none, and push the old mark. */
    method EnterLocalRootScope(stackOk: bool, chunkOk: bool) returns (ok: bool)
      requires Valid() && |Scoped().words| < MARK_LIMIT
      modifies this, localRootStack, Chunks()
      ensures Valid() && lastInternalResult == old(lastInternalResult)
      ensures forall c :: c in Chunks() ==> c in old(Chunks()) || fresh(c)
      ensures Scoped() == if ok then Enter(old(Scoped())) else old(Scoped())
      ensures var n := |old(Scoped()).words|;
              ok <==> (stackOk || old(localRootStack) != null) && (chunkOk || n == 0 || n % 256 != 0)
    {
      hide WellFormed, JSLocalRootStack.Words, JSLocalRootStack.Chain, JSLocalRootStack.Word, Enter;
      EnterOpensScope(Scoped());
      if localRootStack == null {
        if !stackOk {
          return false;
        }
        localRootStack := new JSLocalRootStack();
      }
      ok := localRootStack.EnterScope(chunkOk);
    }

    /** js_PushLocalRoot on the open scope. */
    method PushLocalRoot(v: JSVal, chunkOk: bool) returns (ok: bool)
      requires Valid() && localRootStack != null && v.GCThing?
      modifies this, localRootStack, Chunks()
      ensures Valid() && lastInternalResult == old(lastInternalResult)
      ensures forall c :: c in Chunks() ==> c in old(Chunks()) || fresh(c)
      ensures localRootStack == old(localRootStack)
      ensures var n := |old(Scoped()).words|;
              var full := n == 0xFFFF_FFFF || (n % 256 == 0 && !chunkOk);
              && Scoped() == (if full then old(Scoped()) else LocalRoots.Push(old(Scoped()), v))
              && (ok <==> !full && n < 0x8000_0000)
    {
      ghost var was := Scoped();
      MarkBelow(was);
      PushAppends(was, v);
      hide WellFormed, JSLocalRootStack.Words, JSLocalRootStack.Chain;
      var place := localRootStack.Push(v, chunkOk);
      ok := place >= 0;
    }

    /** js_LeaveLocalRootScopeWithResult: close the top scope and root a GC-thing result in the scope
        below, or in lastInternalResult when there is none. */
    method LeaveLocalRootScopeWithResult(rval: JSVal)
      requires Valid()
      modifies this, localRootStack, Chunks()
      ensures Valid() && forall c :: c in Chunks() ==> c in old(Chunks())
      ensures Scoped() == LeaveIn(old(Scoped()), rval)
      ensures lastInternalResult ==
                if rval.GCThing? && |old(Scopes(Scoped()))| == 1 then rval else old(lastInternalResult)
    {
      hide WellFormed, JSLocalRootStack.Words, JSLocalRootStack.Chain, JSLocalRootStack.Word, LeaveIn, Leave, Scopes;
      LeaveKeepsForm(Scoped(), rval);
      if localRootStack == null || localRootStack.rootCount == 0 || localRootStack.scopeMark == NULL_MARK {
        return;
      }
      var outermost := localRootStack.scopeMark == 0;
      var gone := localRootStack.LeaveScope(rval);
      if outermost && rval.GCThing? {
        lastInternalResult := rval;
      }
      if gone {
        localRootStack := null;
      }
    }

    /** js_ForgetLocalRoot. */
    method ForgetLocalRoot(v: JSVal)
      requires Valid()
      modifies localRootStack, Chunks()
      ensures Valid() && forall c :: c in Chunks() ==> c in old(Chunks())
      ensures Scoped() == ForgetIn(old(Scoped()), v)
    {
      hide WellFormed, JSLocalRootStack.Words, JSLocalRootStack.Chain, JSLocalRootStack.Word, ForgetIn, Forget, Scopes;
      ForgetKeepsForm(Scoped(), v);
      if localRootStack == null {
        return;
      }
      localRootStack.ForgetRoot(v);
    }
  }
}
