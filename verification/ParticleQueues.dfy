// The auto-recycling particle queue (simpleQ_mpmc_ar.h) as a state machine of atomic steps. The
// threads' operations are sequences of these steps, interleaved in any order.
module ParticleQueues {
  import opened Options

  /** A frame, with the address of its page of memory. */
  datatype Particle = Particle(id: nat, address: nat)

  /** The two queues: free particles for producers, and filled ones for consumers. */
  datatype Which = Pool | PtoC

  /** What a queue entry or a handle holds; null only after a handle's particle was moved out of it. */
  type Item = Option<Particle>

  /** What a running operation is about to do with a particle it holds. */
  datatype Goal = Publish | Enqueue(to: Which) | Wrap(host: Which)

  /** A handle is shared by the pointers referring to it; a task belongs to one running operation. */
  datatype Cell = Handle(item: Item, host: Option<Which>) | Task(item: Item, goal: Goal)

  datatype State = State(
    pageSize: nat,
    particles: set<Particle>,
    pool: multiset<Item>,
    ptoc: multiset<Item>,
    cells: map<nat, Cell>,
    pointers: map<nat, nat>)

  function InitialState(pageSize: nat): State { State(pageSize, {}, multiset{}, multiset{}, map[], map[]) }

  function Other(w: Which): Which { if w.Pool? then PtoC else Pool }

  datatype Step =
    | Allocate(particle: Particle, task: nat)
    | Discard(task: nat)
    | Put(task: nat)
    | Take(from: Which, item: Item, task: nat)
    | MakeHandle(task: nat, handle: nat, pointer: nat, release: nat)
    | Reset(pointer: nat, release: nat)
    | Copy(source: nat, pointer: nat, release: nat)
    | MoveOut(pointer: nat, task: nat)

  function QueueOf(s: State, w: Which): multiset<Item> { if w.Pool? then s.pool else s.ptoc }

  function WithQueue(s: State, w: Which, q: multiset<Item>): State {
    if w.Pool? then s.(pool := q) else s.(ptoc := q)
  }

  predicate Referenced(s: State, handle: nat) { exists p :: p in s.pointers && s.pointers[p] == handle }

  /** The pointer stops referring to its handle. The last pointer to go runs the destructor, which
      puts the particle into the host queue, unless the handle was emptied before. */
  function Release(s: State, pointer: nat, task: nat): State {
    if pointer !in s.pointers then s
    else
      var handle := s.pointers[pointer];
      var t := s.(pointers := s.pointers - {pointer});
      if Referenced(t, handle) || handle !in s.cells then t
      else
        var cell := s.cells[handle];
        var u := t.(cells := t.cells - {handle});
        if cell.Handle? && cell.host.Some? then u.(cells := u.cells[task := Task(cell.item, Enqueue(cell.host.value))]) else u
  }

  /** The pages of two different particles do not overlap. */
  predicate Disjoint(a: Particle, b: Particle, pageSize: nat) {
    a.address + pageSize <= b.address || b.address + pageSize <= a.address
  }

  ghost predicate Enabled(s: State, step: Step) {
    match step
    case Allocate(particle, task) =>
      // What the allocator promises: a new frame with a page that overlaps no other.
      task !in s.cells && forall p :: p in s.particles ==> Disjoint(p, particle, s.pageSize) && p != particle
    case Discard(task) => task in s.cells && s.cells[task].Task? && s.cells[task].goal.Publish? && s.cells[task].item.Some?
    case Put(task) => task in s.cells && s.cells[task].Task? && !s.cells[task].goal.Wrap?
    case Take(from, item, task) => item in QueueOf(s, from) && task !in s.cells
    case MakeHandle(task, handle, pointer, release) =>
      task in s.cells && s.cells[task].Task? && s.cells[task].goal.Wrap? && handle !in s.cells && release !in s.cells
      && handle != release
    case Reset(pointer, release) => release !in s.cells
    case Copy(source, pointer, release) => source in s.pointers && pointer != source && release !in s.cells
    case MoveOut(pointer, task) =>
      pointer in s.pointers && s.pointers[pointer] in s.cells && s.cells[s.pointers[pointer]].Handle? && task !in s.cells
  }

  function Target(goal: Goal): Which { if goal.Enqueue? then goal.to else Pool }

  function Apply(s: State, step: Step): State {
    match step
    case Allocate(particle, task) =>
      s.(particles := s.particles + {particle}, cells := s.cells[task := Task(Some(particle), Publish)])
    case Discard(task) =>
      if task in s.cells && s.cells[task].item.Some?
      then s.(particles := s.particles - {s.cells[task].item.value}, cells := s.cells - {task}) else s
    case Put(task) =>
      if task in s.cells && s.cells[task].Task? then
        var w := Target(s.cells[task].goal);
        var t := WithQueue(s, w, QueueOf(s, w) + multiset{s.cells[task].item});
        t.(cells := t.cells - {task})
      else s
    case Take(from, item, task) =>
      var t := WithQueue(s, from, QueueOf(s, from) - multiset{item});
      t.(cells := t.cells[task := Task(item, Wrap(Other(from)))])
    case MakeHandle(task, handle, pointer, release) =>
      if task in s.cells && s.cells[task].Task? && s.cells[task].goal.Wrap? then
        var cell := Handle(s.cells[task].item, Some(s.cells[task].goal.host));
        var t := Release(s.(cells := (s.cells - {task})[handle := cell]), pointer, release);
        t.(pointers := t.pointers[pointer := handle])
      else s
    case Reset(pointer, release) => Release(s, pointer, release)
    case Copy(source, pointer, release) =>
      if source in s.pointers then
        // The new reference is taken before the old one is given up.
        var shared := s.pointers[source];
        var t := Release(s, pointer, release);
        t.(pointers := t.pointers[pointer := shared])
      else s
    case MoveOut(pointer, task) =>
      if pointer in s.pointers && s.pointers[pointer] in s.cells then
        var handle := s.pointers[pointer];
        s.(cells := s.cells[handle := Handle(None, None)][task := Task(s.cells[handle].item, Enqueue(PtoC))])
      else s
  }

  // ----- conservation -----

  ghost function AnyKey(cells: map<nat, Cell>): (k: nat)
    requires cells != map[]
    ensures k in cells
  {
    NotEmpty(cells);
    var k :| k in cells;
    k
  }

  /** Everything the cells hold. */
  ghost function ItemsOf(cells: map<nat, Cell>): multiset<Item> {
    if cells == map[] then multiset{}
    else
      var k := AnyKey(cells);
      multiset{cells[k].item} + ItemsOf(cells - {k})
  }

  lemma NotEmpty(cells: map<nat, Cell>)
    requires cells != map[]
    ensures exists k :: k in cells
  {
    assert cells.Keys != {};
  }

  lemma {:induction false} ItemsWithout(cells: map<nat, Cell>, k: nat)
    requires k in cells
    ensures ItemsOf(cells) == multiset{cells[k].item} + ItemsOf(cells - {k})
    decreases |cells|
  {
    hide ItemsOf;
    var j := AnyKey(cells);
    PickItem(cells);
    if j != k {
      ItemsWithout(cells - {j}, k);
      ItemsWithout(cells - {k}, j);
      assert cells - {j} - {k} == cells - {k} - {j};
      Exchange(cells[j].item, cells[k].item, ItemsOf(cells - {j} - {k}));
    }
  }

  lemma PickItem(cells: map<nat, Cell>)
    requires cells != map[]
    ensures ItemsOf(cells) == multiset{cells[AnyKey(cells)].item} + ItemsOf(cells - {AnyKey(cells)})
  {
  }

  lemma Exchange(a: Item, b: Item, m: multiset<Item>)
    ensures multiset{a} + (multiset{b} + m) == multiset{b} + (multiset{a} + m)
  {
  }

  lemma ItemsWith(cells: map<nat, Cell>, k: nat, c: Cell)
    requires k !in cells
    ensures ItemsOf(cells[k := c]) == multiset{c.item} + ItemsOf(cells)
  {
    hide ItemsOf;
    ItemsWithout(cells[k := c], k);
    assert cells[k := c] - {k} == cells;
  }

  /** Everything in the queues, in handles, and on its way. */
  ghost function Contents(s: State): multiset<Item> { s.pool + s.ptoc + ItemsOf(s.cells) }

  /** Every allocated particle is in exactly one place, and nothing else is anywhere. */
  ghost predicate Conserved(s: State) {
    forall p: Particle :: Contents(s)[Some(p)] == if p in s.particles then 1 else 0
  }

  /** A handle exists as long as something points to it, except for some that have just been made; an emptied
      one holds nothing. */
  ghost predicate HandlesLiveBut(s: State, unassigned: set<nat>) {
    && (forall p :: p in s.pointers ==> s.pointers[p] in s.cells && s.cells[s.pointers[p]].Handle?)
    && (forall h :: h in s.cells && s.cells[h].Handle? && h !in unassigned ==> Referenced(s, h))
    && (forall h :: h in s.cells && s.cells[h].Handle? && s.cells[h].host.None? ==> s.cells[h].item.None?)
    && (forall h :: h in s.cells && s.cells[h].Task? && s.cells[h].goal.Publish? ==> s.cells[h].item.Some?)
  }

  ghost predicate HandlesLive(s: State) { HandlesLiveBut(s, {}) }

  /** Distinct particles have separate pages. */
  ghost predicate PagesApart(s: State) {
    forall p, q :: p in s.particles && q in s.particles && p != q ==> Disjoint(p, q, s.pageSize)
  }

  ghost predicate Inv(s: State) { Conserved(s) && HandlesLive(s) && PagesApart(s) }

  lemma InitiallyInv(pageSize: nat)
    ensures Inv(InitialState(pageSize))
  {
  }

  /** How often a particle occurs. */
  ghost function CountOf(s: State, p: Particle): nat { Contents(s)[Some(p)] }

  lemma SameCounts(s: State, t: State)
    requires Conserved(s) && t.particles == s.particles
    requires forall p: Particle :: CountOf(t, p) == CountOf(s, p)
    ensures Conserved(t)
  {
    hide Contents;
    forall p: Particle
      ensures Contents(t)[Some(p)] == if p in t.particles then 1 else 0
    {
      assert CountOf(t, p) == CountOf(s, p);
    }
  }

  /** Giving up a pointer loses nothing: the particle stays, or goes into the hands of the destructor. */
  lemma ReleaseKeeps(s: State, pointer: nat, task: nat, unassigned: set<nat>)
    requires HandlesLiveBut(s, unassigned) && task !in s.cells && (pointer in s.pointers ==> s.pointers[pointer] !in unassigned)
    ensures HandlesLiveBut(Release(s, pointer, task), unassigned)
    ensures forall p: Particle :: CountOf(Release(s, pointer, task), p) == CountOf(s, p)
  {
    hide ItemsOf, Contents, Conserved;
    if pointer in s.pointers {
      var handle := s.pointers[pointer];
      var t := s.(pointers := s.pointers - {pointer});
      forall h | h in s.cells && s.cells[h].Handle? && h != handle && h !in unassigned
        ensures Referenced(t, h)
      {
        var p :| p in s.pointers && s.pointers[p] == h;
        assert p in t.pointers && t.pointers[p] == h;
      }
      SameContents(s, t);
      if !Referenced(t, handle) {
        DestroyKeeps(s, handle, task, Release(s, pointer, task));
        Unpointed(s, t, handle);
      }
    }
  }

  lemma SameContents(s: State, t: State)
    requires t.pool == s.pool && t.ptoc == s.ptoc && t.cells == s.cells
    ensures Contents(s) == Contents(t)
  {
  }

  lemma Unpointed(s: State, t: State, handle: nat)
    requires !Referenced(t, handle)
    ensures forall p :: p in t.pointers ==> t.pointers[p] != handle
  {
  }

  lemma ReleaseFacts(s: State, pointer: nat, task: nat)
    ensures var t := Release(s, pointer, task);
      && t.particles == s.particles && t.pageSize == s.pageSize && pointer !in t.pointers
      && forall p :: p in s.pointers && p != pointer ==> p in t.pointers && t.pointers[p] == s.pointers[p]
  {
  }

  lemma DestroyKeeps(s: State, handle: nat, task: nat, t: State)
    requires handle in s.cells && s.cells[handle].Handle? && task !in s.cells
    requires s.cells[handle].host.None? ==> s.cells[handle].item.None?
    requires t.pool == s.pool && t.ptoc == s.ptoc
    requires var cell, rest := s.cells[handle], s.cells - {handle};
      t.cells == if cell.host.Some? then rest[task := Task(cell.item, Enqueue(cell.host.value))] else rest
    ensures forall p: Particle :: CountOf(t, p) == CountOf(s, p)
  {
    hide ItemsOf;
    ItemsWithout(s.cells, handle);
    var cell, rest := s.cells[handle], s.cells - {handle};
    if cell.host.Some? {
      ItemsWith(rest, task, Task(cell.item, Enqueue(cell.host.value)));
    }
    forall p: Particle
      ensures CountOf(t, p) == CountOf(s, p)
    {
      assert multiset{cell.item}[Some(p)] == if cell.item == Some(p) then 1 else 0;
    }
  }

  lemma PointersStay(s: State, t: State)
    requires HandlesLive(s) && t.pointers == s.pointers
    requires forall h :: h in s.cells && s.cells[h].Handle? ==> h in t.cells && t.cells[h].Handle?
    requires forall h :: h in t.cells && t.cells[h].Handle? ==>
      h in s.cells && s.cells[h].Handle? && (t.cells[h].host.None? ==> t.cells[h].item.None?)
    requires forall h :: h in t.cells && t.cells[h].Task? && t.cells[h].goal.Publish? ==> t.cells[h].item.Some?
    ensures HandlesLive(t)
  {
    forall h | h in t.cells && t.cells[h].Handle?
      ensures Referenced(t, h)
    {
      var p :| p in s.pointers && s.pointers[p] == h;
      assert t.pointers[p] == h;
    }
  }

  lemma AllocateKeeps(s: State, particle: Particle, task: nat)
    requires Inv(s) && Enabled(s, Allocate(particle, task))
    ensures Inv(Apply(s, Allocate(particle, task)))
  {
    hide ItemsOf, Contents, Conserved, HandlesLive;
    var t := Apply(s, Allocate(particle, task));
    LiveParts(s);
    PointersStay(s, t);
    AllocateCounts(s, t, particle, task);
  }

  lemma LiveParts(s: State)
    requires HandlesLive(s)
    ensures forall h :: h in s.cells && s.cells[h].Handle? && s.cells[h].host.None? ==> s.cells[h].item.None?
    ensures forall h :: h in s.cells && s.cells[h].Task? && s.cells[h].goal.Publish? ==> s.cells[h].item.Some?
  {
  }

  lemma AllocateCounts(s: State, t: State, particle: Particle, task: nat)
    requires Conserved(s) && task !in s.cells && particle !in s.particles
    requires t == s.(particles := s.particles + {particle}, cells := s.cells[task := Task(Some(particle), Publish)])
    ensures Conserved(t)
  {
    hide ItemsOf;
    ItemsWith(s.cells, task, Task(Some(particle), Publish));
    var added: Item := Some(particle);
    forall p: Particle
      ensures Contents(t)[Some(p)] == if p in t.particles then 1 else 0
    {
      assert Contents(s)[Some(p)] == if p in s.particles then 1 else 0;
      assert Contents(t)[Some(p)] == Contents(s)[Some(p)] + multiset{added}[Some(p)];
    }
  }

  lemma DiscardKeeps(s: State, task: nat)
    requires Inv(s) && Enabled(s, Discard(task))
    ensures Inv(Apply(s, Discard(task)))
  {
    hide ItemsOf, Contents, Conserved, HandlesLive;
    var t := Apply(s, Discard(task));
    LiveParts(s);
    PointersStay(s, t);
    DiscardCounts(s, t, task);
  }

  lemma DiscardCounts(s: State, t: State, task: nat)
    requires Conserved(s) && task in s.cells && s.cells[task].item.Some?
    requires t == s.(particles := s.particles - {s.cells[task].item.value}, cells := s.cells - {task})
    ensures Conserved(t)
  {
    hide ItemsOf;
    ItemsWithout(s.cells, task);
    var gone := s.cells[task].item;
    forall p: Particle
      ensures Contents(t)[Some(p)] == if p in t.particles then 1 else 0
    {
      assert Contents(s)[Some(p)] == if p in s.particles then 1 else 0;
      assert Contents(s)[Some(p)] == Contents(t)[Some(p)] + multiset{gone}[Some(p)];
    }
  }

  lemma PutKeeps(s: State, task: nat)
    requires Inv(s) && Enabled(s, Put(task))
    ensures Inv(Apply(s, Put(task)))
  {
    hide ItemsOf, Contents, Conserved, HandlesLive, CountOf, PagesApart, Target, QueueOf, WithQueue;
    var t, w := Apply(s, Put(task)), Target(s.cells[task].goal);
    LiveParts(s);
    QueueFacts(s, w, QueueOf(s, w) + multiset{s.cells[task].item});
    SameQueues(WithQueue(s, w, QueueOf(s, w) + multiset{s.cells[task].item}), t);
    PointersStay(s, t);
    MovedToQueue(s, t, task, w);
    SameCounts(s, t);
    StillApart(s, t);
  }

  lemma QueueFacts(s: State, w: Which, q: multiset<Item>)
    ensures var t := WithQueue(s, w, q);
      && QueueOf(t, w) == q && QueueOf(t, Other(w)) == QueueOf(s, Other(w))
      && t.pageSize == s.pageSize && t.particles == s.particles && t.cells == s.cells && t.pointers == s.pointers
  {
  }

  lemma SameQueues(s: State, t: State)
    requires s.pool == t.pool && s.ptoc == t.ptoc
    ensures forall w :: QueueOf(s, w) == QueueOf(t, w)
  {
  }

  lemma StillApart(s: State, t: State)
    requires PagesApart(s) && t.particles == s.particles && t.pageSize == s.pageSize
    ensures PagesApart(t)
  {
  }

  lemma PutBack(q: multiset<Item>, item: Item)
    requires item in q
    ensures q == q - multiset{item} + multiset{item}
  {
  }

  lemma MovedToQueue(s: State, t: State, k: nat, w: Which)
    requires k in s.cells && t.cells == s.cells - {k}
    requires QueueOf(t, w) == QueueOf(s, w) + multiset{s.cells[k].item} && QueueOf(t, Other(w)) == QueueOf(s, Other(w))
    ensures forall p: Particle :: CountOf(t, p) == CountOf(s, p)
  {
    hide ItemsOf;
    ItemsWithout(s.cells, k);
    Gather(s.pool, s.ptoc, multiset{s.cells[k].item}, ItemsOf(t.cells));
  }

  lemma Gather(a: multiset<Item>, b: multiset<Item>, c: multiset<Item>, d: multiset<Item>)
    ensures a + b + (c + d) == (a + c) + b + d == a + (b + c) + d
  {
  }

  lemma TakeKeeps(s: State, from: Which, item: Item, task: nat)
    requires Inv(s) && Enabled(s, Take(from, item, task))
    ensures Inv(Apply(s, Take(from, item, task)))
  {
    hide ItemsOf, Contents, Conserved, HandlesLive, CountOf, PagesApart, QueueOf, WithQueue;
    var t := Apply(s, Take(from, item, task));
    LiveParts(s);
    QueueFacts(s, from, QueueOf(s, from) - multiset{item});
    SameQueues(WithQueue(s, from, QueueOf(s, from) - multiset{item}), t);
    PointersStay(s, t);
    assert t.cells - {task} == s.cells;
    PutBack(QueueOf(s, from), item);
    MovedToQueue(t, s, task, from);
    SameCounts(s, t);
    StillApart(s, t);
  }

  lemma MoveOutKeeps(s: State, pointer: nat, task: nat)
    requires Inv(s) && Enabled(s, MoveOut(pointer, task))
    ensures Inv(Apply(s, MoveOut(pointer, task)))
  {
    hide ItemsOf, Contents, Conserved, HandlesLive, CountOf;
    var t := Apply(s, MoveOut(pointer, task));
    LiveParts(s);
    PointersStay(s, t);
    MovedOut(s, t, s.pointers[pointer], task);
    SameCounts(s, t);
  }

  lemma MovedOut(s: State, t: State, handle: nat, task: nat)
    requires handle in s.cells && task !in s.cells && t.pool == s.pool && t.ptoc == s.ptoc
    requires t.cells == s.cells[handle := Handle(None, None)][task := Task(s.cells[handle].item, Enqueue(PtoC))]
    ensures forall p: Particle :: CountOf(t, p) == CountOf(s, p)
  {
    hide ItemsOf;
    var rest, emptied := s.cells - {handle}, s.cells[handle := Handle(None, None)];
    var item := s.cells[handle].item;
    ItemsWithout(s.cells, handle);
    ItemsWith(rest, handle, Handle(None, None));
    assert emptied == rest[handle := Handle(None, None)];
    ItemsWith(emptied, task, Task(item, Enqueue(PtoC)));
    forall p: Particle
      ensures CountOf(t, p) == CountOf(s, p)
    {
      assert ItemsOf(t.cells)[Some(p)] == multiset{item}[Some(p)] + multiset{None}[Some(p)] + ItemsOf(rest)[Some(p)];
      assert ItemsOf(s.cells)[Some(p)] == multiset{item}[Some(p)] + ItemsOf(rest)[Some(p)];
      var none: Item := None;
      assert multiset{none}[Some(p)] == 0;
    }
  }

  lemma MakeHandleKeeps(s: State, task: nat, handle: nat, pointer: nat, release: nat)
    requires Inv(s) && Enabled(s, MakeHandle(task, handle, pointer, release))
    ensures Inv(Apply(s, MakeHandle(task, handle, pointer, release)))
  {
    hide ItemsOf, Contents, Conserved, HandlesLive, CountOf, Release, HandlesLiveBut;
    var cell := Handle(s.cells[task].item, Some(s.cells[task].goal.host));
    var u := s.(cells := (s.cells - {task})[handle := cell]);
    LiveParts(s);
    StillLive(s, u, handle);
    NotPointedTo(s, handle);
    ReleaseKeeps(u, pointer, release, {handle});
    ReleaseFacts(u, pointer, release);
    var v := Release(u, pointer, release);
    NewStays(u, pointer, release, handle);
    Assigned(v, pointer, handle);
    SwapCell(s, u, task, handle, cell);
    var t := v.(pointers := v.pointers[pointer := handle]);
    SameItems(v, t);
    SameCounts(s, t);
  }

  lemma NotPointedTo(s: State, handle: nat)
    requires HandlesLive(s) && handle !in s.cells
    ensures forall p :: p in s.pointers ==> s.pointers[p] != handle
  {
  }

  lemma SameItems(s: State, t: State)
    requires t.pool == s.pool && t.ptoc == s.ptoc && t.cells == s.cells
    ensures forall p: Particle :: CountOf(t, p) == CountOf(s, p)
  {
  }

  lemma SwapCell(s: State, t: State, k: nat, j: nat, cell: Cell)
    requires k in s.cells && j !in s.cells && t.cells == (s.cells - {k})[j := cell] && cell.item == s.cells[k].item
    requires t.pool == s.pool && t.ptoc == s.ptoc
    ensures forall p: Particle :: CountOf(t, p) == CountOf(s, p)
  {
    hide ItemsOf;
    ItemsWithout(s.cells, k);
    ItemsWith(s.cells - {k}, j, cell);
  }

  lemma StillLive(s: State, u: State, handle: nat)
    requires HandlesLive(s) && handle !in s.cells && u.pointers == s.pointers
    requires handle in u.cells && u.cells[handle].Handle? && u.cells[handle].host.Some?
    requires forall k :: k in u.cells && k != handle ==> k in s.cells && u.cells[k] == s.cells[k]
    requires forall k :: k in s.cells && s.cells[k].Handle? ==> k in u.cells
    ensures HandlesLiveBut(u, {handle})
  {
    forall h | h in u.cells && u.cells[h].Handle? && h != handle
      ensures Referenced(u, h)
    {
      var p :| p in s.pointers && s.pointers[p] == h;
      assert u.pointers[p] == h;
    }
  }

  /** Giving up a pointer does not touch a handle it does not refer to. */
  lemma NewStays(s: State, pointer: nat, release: nat, handle: nat)
    requires handle in s.cells && release !in s.cells && (pointer in s.pointers ==> s.pointers[pointer] != handle)
    ensures var t := Release(s, pointer, release); handle in t.cells && t.cells[handle] == s.cells[handle]
  {
  }

  /** Assigning the pointer makes the handle live. */
  lemma Assigned(s: State, pointer: nat, handle: nat)
    requires HandlesLiveBut(s, {handle}) && pointer !in s.pointers && handle in s.cells && s.cells[handle].Handle?
    ensures HandlesLive(s.(pointers := s.pointers[pointer := handle]))
  {
    var t := s.(pointers := s.pointers[pointer := handle]);
    assert t.pointers[pointer] == handle;
    forall h | h in t.cells && t.cells[h].Handle?
      ensures Referenced(t, h)
    {
      if h != handle {
        var p :| p in s.pointers && s.pointers[p] == h;
        assert t.pointers[p] == h;
      }
    }
  }

  lemma CopyKeeps(s: State, source: nat, pointer: nat, release: nat)
    requires Inv(s) && Enabled(s, Copy(source, pointer, release))
    ensures Inv(Apply(s, Copy(source, pointer, release)))
  {
    hide ItemsOf, Contents, Conserved, HandlesLive, CountOf, Release;
    var handle := s.pointers[source];
    NoneUnassigned(s);
    ReleaseKeeps(s, pointer, release, {});
    ReleaseFacts(s, pointer, release);
    var v := Release(s, pointer, release);
    assert v.pointers[source] == handle;
    LiveBut(v, handle);
    Assigned(v, pointer, handle);
    var t := v.(pointers := v.pointers[pointer := handle]);
    SameItems(v, t);
    SameCounts(s, t);
  }

  lemma ResetKeeps(s: State, pointer: nat, release: nat)
    requires Inv(s) && Enabled(s, Reset(pointer, release))
    ensures Inv(Apply(s, Reset(pointer, release)))
  {
    hide ItemsOf, Contents, Conserved, CountOf, Release, HandlesLive, PagesApart;
    NoneUnassigned(s);
    ReleaseKeeps(s, pointer, release, {});
    ReleaseFacts(s, pointer, release);
    var t := Release(s, pointer, release);
    NoneUnassigned(t);
    SameCounts(s, t);
    StillApart(s, t);
  }

  lemma NoneUnassigned(s: State)
    ensures HandlesLiveBut(s, {}) <==> HandlesLive(s)
  {
  }

  lemma LiveBut(s: State, handle: nat)
    requires HandlesLiveBut(s, {}) && handle in s.pointers.Values
    ensures HandlesLiveBut(s, {handle}) && handle in s.cells && s.cells[handle].Handle?
  {
  }

  /** Every atomic step keeps the invariant: no particle is lost, doubled or shared. */
  lemma StepKeeps(s: State, step: Step)
    requires Inv(s) && Enabled(s, step)
    ensures Inv(Apply(s, step))
  {
    hide Inv, Apply, Enabled;
    match step
    case Allocate(particle, task) => AllocateKeeps(s, particle, task);
    case Discard(task) => DiscardKeeps(s, task);
    case Put(task) => PutKeeps(s, task);
    case Take(from, item, task) => TakeKeeps(s, from, item, task);
    case MakeHandle(task, handle, pointer, release) => MakeHandleKeeps(s, task, handle, pointer, release);
    case Reset(pointer, release) => ResetKeeps(s, pointer, release);
    case Copy(source, pointer, release) => CopyKeeps(s, source, pointer, release);
    case MoveOut(pointer, task) => MoveOutKeeps(s, pointer, task);
  }

  /** The states a run of steps goes through. */
  ghost predicate IsRun(states: seq<State>, steps: seq<Step>) {
    && |states| == |steps| + 1
    && (forall i :: 0 <= i < |steps| ==> Enabled(states[i], steps[i]) && states[i + 1] == Apply(states[i], steps[i]))
  }

  /** Conservation over whole runs, whatever the interleaving. */
  lemma {:induction false} RunConserves(states: seq<State>, steps: seq<Step>, pageSize: nat)
    requires IsRun(states, steps) && states[0] == InitialState(pageSize)
    ensures forall i :: 0 <= i < |states| ==> Inv(states[i])
    decreases |steps|
  {
    hide Inv, Enabled, Apply;
    InitiallyInv(pageSize);
    if steps != [] {
      var n := |steps| - 1;
      RunConserves(states[..n + 1], steps[..n], pageSize);
      assert states[..n + 1][n] == states[n];
      StepKeeps(states[n], steps[n]);
      forall i | 0 <= i < |states|
        ensures Inv(states[i])
      {
        if i <= n {
          assert states[..n + 1][i] == states[i];
        }
      }
    }
  }

  // ----- where a particle is -----

  /** The places that can hold a particle. */
  datatype Place = InQueue(which: Which) | InCell(cell: nat)

  ghost predicate Holds(s: State, place: Place, p: Particle) {
    match place
    case InQueue(which) => Some(p) in QueueOf(s, which)
    case InCell(cell) => cell in s.cells && s.cells[cell].item == Some(p)
  }

  /** A particle is never in two places. */
  lemma OnePlace(s: State, a: Place, b: Place, p: Particle)
    requires Conserved(s) && Holds(s, a, p) && Holds(s, b, p)
    ensures a == b && p in s.particles
  {
    var item: Item := Some(p);
    if a.InCell? {
      ItemsWithout(s.cells, a.cell);
      if b.InCell? && b.cell != a.cell {
        ItemsWithout(s.cells - {a.cell}, b.cell);
      }
    } else if b.InCell? {
      ItemsWithout(s.cells, b.cell);
    }
    assert Contents(s)[item] == s.pool[item] + s.ptoc[item] + ItemsOf(s.cells)[item];
  }

  /** A particle that exists is in some place. */
  lemma SomePlace(s: State, p: Particle) returns (a: Place)
    requires Conserved(s) && p in s.particles
    ensures Holds(s, a, p)
  {
    var item: Item := Some(p);
    assert Contents(s)[item] == s.pool[item] + s.ptoc[item] + ItemsOf(s.cells)[item];
    if item in s.pool {
      a := InQueue(Pool);
    } else if item in s.ptoc {
      a := InQueue(PtoC);
    } else {
      var k := FindCell(s.cells, item);
      a := InCell(k);
    }
  }

  lemma {:induction false} FindCell(cells: map<nat, Cell>, item: Item) returns (k: nat)
    requires item in ItemsOf(cells)
    ensures k in cells && cells[k].item == item
    decreases |cells|
  {
    k := AnyKey(cells);
    if cells[k].item != item {
      ItemsWithout(cells, k);
      k := FindCell(cells - {k}, item);
    }
  }

  // ----- null entries -----

  predicate HasItem(c: Cell) { c.item.Some? || (c.Handle? && c.host.None?) }

  /** No queue, task or unemptied handle holds a null. */
  ghost predicate NoNull(s: State) {
    && None !in s.pool && None !in s.ptoc && forall k :: k in s.cells ==> HasItem(s.cells[k])
  }

  /** A step of bulk sending takes the particle out of a handle that still has it. */
  predicate SendsFull(s: State, step: Step) {
    step.MoveOut? && step.pointer in s.pointers && s.pointers[step.pointer] in s.cells ==>
      s.cells[s.pointers[step.pointer]].item.Some?
  }

  lemma ReleaseNoNull(s: State, pointer: nat, task: nat)
    requires NoNull(s)
    ensures NoNull(Release(s, pointer, task))
  {
  }

  /** Nulls enter exactly when a handle is sent in bulk that had been sent in bulk before. */
  lemma NullsEnter(s: State, step: Step)
    requires NoNull(s) && Enabled(s, step)
    ensures NoNull(Apply(s, step)) <==> SendsFull(s, step)
  {
    hide Apply, Enabled, NoNull;
    match step
    case Allocate(particle, task) => NullsAllocate(s, particle, task);
    case Discard(task) => NullsDiscard(s, task);
    case Put(task) => NullsPut(s, task);
    case Take(from, item, task) => NullsTake(s, from, item, task);
    case MakeHandle(task, handle, pointer, release) => NullsMakeHandle(s, task, handle, pointer, release);
    case Reset(pointer, release) => NullsRelease(s, pointer, pointer, release);
    case Copy(source, pointer, release) => NullsRelease(s, source, pointer, release);
    case MoveOut(pointer, task) => NullsMoveOut(s, pointer, task);
  }

  lemma NullsAllocate(s: State, particle: Particle, task: nat)
    requires NoNull(s)
    ensures NoNull(Apply(s, Allocate(particle, task)))
  {
  }

  lemma NullsDiscard(s: State, task: nat)
    requires NoNull(s)
    ensures NoNull(Apply(s, Discard(task)))
  {
  }

  lemma NullsPut(s: State, task: nat)
    requires NoNull(s)
    ensures NoNull(Apply(s, Put(task)))
  {
  }

  lemma NullsTake(s: State, from: Which, item: Item, task: nat)
    requires NoNull(s) && Enabled(s, Take(from, item, task))
    ensures NoNull(Apply(s, Take(from, item, task)))
  {
    assert item.Some?;
  }

  lemma NullsMakeHandle(s: State, task: nat, handle: nat, pointer: nat, release: nat)
    requires NoNull(s)
    ensures NoNull(Apply(s, MakeHandle(task, handle, pointer, release)))
  {
    hide Release;
    if task in s.cells && s.cells[task].Task? && s.cells[task].goal.Wrap? {
      var u := s.(cells := (s.cells - {task})[handle := Handle(s.cells[task].item, Some(s.cells[task].goal.host))]);
      ReleaseNoNull(u, pointer, release);
      NullFree(Apply(s, MakeHandle(task, handle, pointer, release)));
    }
  }

  lemma NullsRelease(s: State, source: nat, pointer: nat, release: nat)
    requires NoNull(s)
    ensures NoNull(Apply(s, Reset(pointer, release))) && NoNull(Apply(s, Copy(source, pointer, release)))
  {
    hide Release;
    ReleaseNoNull(s, pointer, release);
    NullFree(Apply(s, Copy(source, pointer, release)));
  }

  lemma NullsMoveOut(s: State, pointer: nat, task: nat)
    requires NoNull(s) && Enabled(s, MoveOut(pointer, task))
    ensures NoNull(Apply(s, MoveOut(pointer, task))) <==> SendsFull(s, MoveOut(pointer, task))
  {
    var t := Apply(s, MoveOut(pointer, task));
    assert t.cells[task].item == s.cells[s.pointers[pointer]].item;
    if NoNull(t) {
      assert HasItem(t.cells[task]);
    }
  }

  lemma NullFree(s: State)
    requires None !in s.pool && None !in s.ptoc && forall k :: k in s.cells ==> HasItem(s.cells[k])
    ensures NoNull(s)
  {
  }

  /** Over a whole run: no null ever appears if and only if no emptied handle is sent in bulk. */
  lemma {:induction false} RunWithoutNulls(states: seq<State>, steps: seq<Step>, pageSize: nat)
    requires IsRun(states, steps) && states[0] == InitialState(pageSize)
    ensures (forall i :: 0 <= i < |states| ==> NoNull(states[i])) <==> (forall i :: 0 <= i < |steps| ==> SendsFull(states[i], steps[i]))
    decreases |steps|
  {
    hide Enabled, Apply, NoNull, SendsFull;
    NullFree(InitialState(pageSize));
    if steps != [] {
      var n := |steps| - 1;
      var before, done := states[..n + 1], steps[..n];
      RunWithoutNulls(before, done, pageSize);
      assert forall i :: 0 <= i <= n ==> before[i] == states[i];
      assert forall i :: 0 <= i < n ==> done[i] == steps[i];
      if NoNull(states[n]) {
        NullsEnter(states[n], steps[n]);
      } else {
        assert before[n] == states[n];
      }
      assert states[n + 1] == Apply(states[n], steps[n]);
      LastOfRun(states, steps, n);
    }
  }

  const FRAME: Item := Some(Particle(0, 0))
  const NULL: Item := None

  /** A run in which two pointers refer to one handle, and both are sent in bulk. */
  const NULL_STEPS := [Allocate(Particle(0, 0), 0), Put(0), Take(Pool, FRAME, 0), MakeHandle(0, 1, 0, 2), Copy(0, 1, 2), MoveOut(0, 2), MoveOut(1, 3), Put(3)]

  function NullState(pageSize: nat, i: nat): State {
    var none, both := multiset{}, map[0 := 1, 1 := 1];
    var handle, empty, task := Handle(FRAME, Some(PtoC)), Handle(None, None), Task(FRAME, Enqueue(PtoC));
    var s := State(pageSize, {Particle(0, 0)}, none, none, map[], map[]);
    match i
    case 0 => InitialState(pageSize)
    case 1 => s.(cells := map[0 := Task(FRAME, Publish)])
    case 2 => s.(pool := multiset{FRAME})
    case 3 => s.(cells := map[0 := Task(FRAME, Wrap(PtoC))])
    case 4 => s.(cells := map[1 := handle], pointers := map[0 := 1])
    case 5 => s.(cells := map[1 := handle], pointers := both)
    case 6 => s.(cells := map[1 := empty, 2 := task], pointers := both)
    case 7 => s.(cells := map[1 := empty, 2 := task, 3 := Task(None, Enqueue(PtoC))], pointers := both)
    case _ => s.(cells := map[1 := empty, 2 := task], pointers := both, ptoc := multiset{NULL})
  }

  lemma NullStep(pageSize: nat, i: nat)
    requires i < 8
    ensures Enabled(NullState(pageSize, i), NULL_STEPS[i])
    ensures Apply(NullState(pageSize, i), NULL_STEPS[i]) == NullState(pageSize, i + 1)
  {
    if i < 2 {
      FirstNullStep(pageSize, i);
    } else if i < 4 {
      WrapNullStep(pageSize, i);
    } else if i < 6 {
      SharedNullStep(pageSize, i);
    } else {
      LastNullStep(pageSize, i);
    }
  }

  lemma FirstNullStep(pageSize: nat, i: nat)
    requires i < 2
    ensures Enabled(NullState(pageSize, i), NULL_STEPS[i])
    ensures Apply(NullState(pageSize, i), NULL_STEPS[i]) == NullState(pageSize, i + 1)
  {
    assert NullState(pageSize, 1).cells - {0} == map[];
  }

  lemma WrapNullStep(pageSize: nat, i: nat)
    requires 2 <= i < 4
    ensures Enabled(NullState(pageSize, i), NULL_STEPS[i])
    ensures Apply(NullState(pageSize, i), NULL_STEPS[i]) == NullState(pageSize, i + 1)
  {
    assert NullState(pageSize, 3).cells - {0} == map[];
  }

  lemma SharedNullStep(pageSize: nat, i: nat)
    requires 4 <= i < 6
    ensures Enabled(NullState(pageSize, i), NULL_STEPS[i])
    ensures Apply(NullState(pageSize, i), NULL_STEPS[i]) == NullState(pageSize, i + 1)
  {
  }

  lemma LastNullStep(pageSize: nat, i: nat)
    requires 6 <= i < 8
    ensures Enabled(NullState(pageSize, i), NULL_STEPS[i])
    ensures Apply(NullState(pageSize, i), NULL_STEPS[i]) == NullState(pageSize, i + 1)
  {
    assert NullState(pageSize, 7).cells - {3} == NullState(pageSize, 6).cells;
  }

  /** It is a run from the start, it sends an emptied handle, and it puts a null before the consumers. */
  lemma NullRun(pageSize: nat)
    ensures IsRun(seq(9, i requires 0 <= i < 9 => NullState(pageSize, i)), NULL_STEPS)
    ensures NullState(pageSize, 0) == InitialState(pageSize) && None in NullState(pageSize, 8).ptoc
    ensures !SendsFull(NullState(pageSize, 6), NULL_STEPS[6])
  {
    hide Enabled, Apply, NullState, SendsFull;
    NullEnds(pageSize);
    forall i | 0 <= i < 8
      ensures Enabled(NullState(pageSize, i), NULL_STEPS[i])
      ensures Apply(NullState(pageSize, i), NULL_STEPS[i]) == NullState(pageSize, i + 1)
    {
      NullStep(pageSize, i);
    }
  }

  lemma NullEnds(pageSize: nat)
    ensures NullState(pageSize, 0) == InitialState(pageSize) && None in NullState(pageSize, 8).ptoc
    ensures !SendsFull(NullState(pageSize, 6), NULL_STEPS[6]) && |NULL_STEPS| == 8
  {
  }

  lemma LastOfRun(states: seq<State>, steps: seq<Step>, n: nat)
    requires |states| == n + 2 && |steps| == n + 1
    ensures (forall i :: 0 <= i < |states| ==> NoNull(states[i])) <==>
      (forall i :: 0 <= i <= n ==> NoNull(states[i])) && NoNull(states[n + 1])
    ensures (forall i :: 0 <= i < |steps| ==> SendsFull(states[i], steps[i])) <==>
      (forall i :: 0 <= i < n ==> SendsFull(states[i], steps[i])) && SendsFull(states[n], steps[n])
  {
    hide NoNull, SendsFull;
  }
}
