// The operations of simpleQ_mpmc_ar_t. Each is a sequence of the atomic steps of ParticleQueues; the
// methods here run them without interference and say what they achieve, and which steps they take.
module ParticleOperations {
  import opened Options
  import opened Powers
  import opened ParticleQueues

  // ----- sequences of steps -----

  ghost function After(s: State, steps: seq<Step>): State
    decreases |steps|
  {
    if steps == [] then s else Apply(After(s, steps[..|steps| - 1]), steps[|steps| - 1])
  }

  ghost predicate Possible(s: State, steps: seq<Step>)
    decreases |steps|
  {
    steps == []
    || (var n := |steps| - 1; Possible(s, steps[..n]) && Enabled(After(s, steps[..n]), steps[n]))
  }

  /** The steps lead from one state to the other. */
  ghost predicate Leads(s: State, steps: seq<Step>, t: State) { Possible(s, steps) && After(s, steps) == t }

  lemma OneMore(s: State, steps: seq<Step>, t: State, step: Step)
    requires Leads(s, steps, t) && Enabled(t, step)
    ensures Leads(s, steps + [step], Apply(t, step))
  {
    hide Enabled, Apply;
    assert (steps + [step])[..|steps|] == steps;
  }

  lemma {:induction false} Chain(s: State, first: seq<Step>, t: State, second: seq<Step>, u: State)
    requires Leads(s, first, t) && Leads(t, second, u)
    ensures Leads(s, first + second, u)
    decreases |second|
  {
    hide Enabled, Apply;
    if second == [] {
      assert first + second == first;
    } else {
      var n := |second| - 1;
      var rest, last := second[..n], second[n];
      Chain(s, first, t, rest, After(t, rest));
      OneMore(s, first + rest, After(t, rest), last);
      assert first + rest + [last] == first + second;
    }
  }

  lemma {:induction false} SamePageSize(s: State, steps: seq<Step>, t: State)
    requires Leads(s, steps, t)
    ensures t.pageSize == s.pageSize
    decreases |steps|
  {
    hide Enabled, Release, Apply;
    if steps != [] {
      var n := |steps| - 1;
      SamePageSize(s, steps[..n], After(s, steps[..n]));
      KeepsPageSize(After(s, steps[..n]), steps[n]);
    }
  }

  lemma KeepsPageSize(s: State, step: Step)
    ensures Apply(s, step).pageSize == s.pageSize
  {
  }

  /** Such a sequence is a run of the state machine, so what holds in every run holds for the operations. */
  lemma {:induction false} LeadsIsRun(s: State, steps: seq<Step>, t: State) returns (states: seq<State>)
    requires Leads(s, steps, t)
    ensures IsRun(states, steps) && states[0] == s && states[|steps|] == t
    decreases |steps|
  {
    hide Enabled, Apply;
    if steps == [] {
      states := [s];
    } else {
      var n := |steps| - 1;
      states := LeadsIsRun(s, steps[..n], After(s, steps[..n]));
      states := states + [t];
    }
  }

  // ----- giving up a pointer -----

  /** What the handle behind a pointer holds. */
  ghost function ItemAt(s: State, pointer: nat): Item {
    if pointer in s.pointers && s.pointers[pointer] in s.cells then s.cells[s.pointers[pointer]].item else None
  }

  /** Where the destructor puts the particle when this pointer goes: nowhere if the handle is shared
      with another pointer, or was emptied. */
  ghost function HomeOf(s: State, pointer: nat): Option<Which> {
    if pointer !in s.pointers || s.pointers[pointer] !in s.cells || s.cells[s.pointers[pointer]].Task? then None
    else if Referenced(s.(pointers := s.pointers - {pointer}), s.pointers[pointer]) then None
    else s.cells[s.pointers[pointer]].host
  }

  /** What giving up a pointer adds to a queue. */
  ghost function Returned(s: State, pointer: nat, w: Which): multiset<Item> {
    if HomeOf(s, pointer) == Some(w) then multiset{ItemAt(s, pointer)} else multiset{}
  }

  /** No other pointer refers to the same handle. */
  ghost predicate Alone(s: State, pointer: nat) {
    pointer in s.pointers && forall p :: p in s.pointers && p != pointer ==> s.pointers[p] != s.pointers[pointer]
  }

  /** The last pointer to a handle returns its item to the host queue; any other pointer returns nothing. */
  lemma ReturnedIs(s: State, pointer: nat)
    requires Inv(s)
    ensures !Alone(s, pointer) ==> Returned(s, pointer, Pool) == Returned(s, pointer, PtoC) == multiset{}
    ensures Alone(s, pointer) ==> (s.pointers[pointer] in s.cells
      && var cell := s.cells[s.pointers[pointer]];
        && cell.Handle?
        && Returned(s, pointer, Pool) == (if cell.host == Some(Pool) then multiset{cell.item} else multiset{})
        && Returned(s, pointer, PtoC) == (if cell.host == Some(PtoC) then multiset{cell.item} else multiset{}))
  {
    hide Inv;
    LivePointer(s, pointer);
    if pointer in s.pointers {
      var t, h := s.(pointers := s.pointers - {pointer}), s.pointers[pointer];
      if !Alone(s, pointer) {
        var p :| p in s.pointers && p != pointer && s.pointers[p] == h;
        assert p in t.pointers && t.pointers[p] == h;
      }
    }
  }

  lemma ReleaseHome(s: State, pointer: nat, task: nat)
    requires task !in s.cells
    requires pointer in s.pointers ==> s.pointers[pointer] in s.cells && s.cells[s.pointers[pointer]].Handle?
    ensures var t, home := Release(s, pointer, task), HomeOf(s, pointer);
      && t.particles == s.particles && t.pageSize == s.pageSize
      && t.pool == s.pool && t.ptoc == s.ptoc && t.pointers == s.pointers - {pointer}
      && (task in t.cells <==> home.Some?)
      && (home.Some? ==> t.cells[task] == Task(ItemAt(s, pointer), Enqueue(home.value)))
      && (forall k :: k in t.cells && k != task ==> k in s.cells && t.cells[k] == s.cells[k])
      && forall k :: k in s.cells && s.cells[k].Task? ==> k in t.cells && t.cells[k] == s.cells[k]
  {
  }

  lemma LivePointer(s: State, pointer: nat)
    requires Inv(s)
    ensures pointer in s.pointers ==> s.pointers[pointer] in s.cells && s.cells[s.pointers[pointer]].Handle?
  {
  }

  lemma PutFacts(s: State, task: nat)
    requires Enabled(s, Put(task))
    ensures var t, w := Apply(s, Put(task)), Target(s.cells[task].goal);
      && t.particles == s.particles && t.pageSize == s.pageSize && t.pointers == s.pointers && t.cells == s.cells - {task}
      && QueueOf(t, w) == QueueOf(s, w) + multiset{s.cells[task].item} && QueueOf(t, Other(w)) == QueueOf(s, Other(w))
  {
  }

  lemma TakeFacts(s: State, from: Which, item: Item, task: nat)
    requires Enabled(s, Take(from, item, task))
    ensures var t := Apply(s, Take(from, item, task));
      && t.particles == s.particles && t.pageSize == s.pageSize && t.pointers == s.pointers
      && t.cells == s.cells[task := Task(item, Wrap(Other(from)))]
      && QueueOf(t, from) == QueueOf(s, from) - multiset{item} && QueueOf(t, Other(from)) == QueueOf(s, Other(from))
  {
  }

  /** No other operation's task is touched. */
  ghost predicate TasksStay(s: State, t: State, task: nat) {
    forall k :: k in s.cells && k != task && s.cells[k].Task? ==> k in t.cells && t.cells[k] == s.cells[k]
  }

  ghost predicate InHands(s: State, t: State, from: Which, item: Item, task: nat) {
    && t.pointers == s.pointers && task !in s.cells && t.cells == s.cells[task := Task(item, Wrap(Other(from)))]
    && QueueOf(t, from) == QueueOf(s, from) - multiset{item} && QueueOf(t, Other(from)) == QueueOf(s, Other(from))
  }

  /** One entry of a queue is now in a new handle that the pointer refers to. */
  ghost predicate HandedOut(s: State, t: State, from: Which, item: Item, pointer: nat) {
    && item in QueueOf(s, from)
    && pointer in t.pointers && t.pointers == s.pointers[pointer := t.pointers[pointer]]
    && t.pointers[pointer] !in s.cells && t.pointers[pointer] in t.cells
    && t.cells[t.pointers[pointer]] == Handle(item, Some(Other(from)))
    && QueueOf(t, from) == QueueOf(s, from) - multiset{item} + Returned(s, pointer, from)
    && QueueOf(t, Other(from)) == QueueOf(s, Other(from)) + Returned(s, pointer, Other(from))
  }

  /** Nothing else refers to the new handle. */
  lemma OnlyPointer(s: State, t: State, from: Which, item: Item, pointer: nat)
    requires Inv(s) && HandedOut(s, t, from, item, pointer)
    ensures Alone(t, pointer)
  {
    hide Inv, Returned, QueueOf;
    forall p | p in t.pointers && p != pointer
      ensures t.pointers[p] != t.pointers[pointer]
    {
      LivePointer(s, p);
    }
  }

  lemma NoneAlone(s: State, pointer: nat)
    requires Inv(s) && pointer !in s.pointers
    ensures Returned(s, pointer, Pool) == Returned(s, pointer, PtoC) == multiset{}
  {
    hide Inv;
  }

  /** An item of one queue is in the other one now. */
  ghost predicate PassedOn(s: State, t: State, from: Which, item: Item, pointer: nat) {
    if from == Pool then
      && item in s.pool && t.pool == s.pool - multiset{item} + Returned(s, pointer, Pool)
      && item in t.ptoc && t.ptoc == s.ptoc + Returned(s, pointer, PtoC) + multiset{item}
    else
      && item in s.ptoc && t.ptoc == s.ptoc - multiset{item} + Returned(s, pointer, PtoC)
      && item in t.pool && t.pool == s.pool + Returned(s, pointer, Pool) + multiset{item}
  }

  /** After drawing the pointer alone holds the item. */
  lemma DrawnAlone(s: State, t: State, from: Which, item: Item, pointer: nat)
    requires Inv(s) && HandedOut(s, t, from, item, pointer)
    ensures Alone(t, pointer) && t.cells[t.pointers[pointer]] == Handle(item, Some(if from == Pool then PtoC else Pool))
    ensures t.pointers - {pointer} == s.pointers - {pointer}
  {
    hide Inv, Returned, QueueOf;
    OnlyPointer(s, t, from, item, pointer);
  }

  lemma SentOn(s: State, middle: State, t: State, from: Which, item: Item, pointer: nat)
    requires HandedOut(s, middle, from, item, pointer)
    requires t.pool == middle.pool + (if from == PtoC then multiset{item} else multiset{})
    requires t.ptoc == middle.ptoc + (if from == Pool then multiset{item} else multiset{})
    ensures PassedOn(s, t, from, item, pointer)
  {
    hide Returned, Alone;
  }

  lemma TakenAndWrapped(s: State, middle: State, t: State, from: Which, item: Item, task: nat, pointer: nat)
    requires Inv(s) && item in QueueOf(s, from) && InHands(s, middle, from, item, task)
    requires pointer in t.pointers && t.pointers == middle.pointers[pointer := t.pointers[pointer]]
    requires t.pointers[pointer] !in middle.cells && t.pointers[pointer] in t.cells
    requires t.cells[t.pointers[pointer]] == Handle(item, Some(Other(from)))
    requires forall w :: QueueOf(t, w) == QueueOf(middle, w) + Returned(middle, pointer, w)
    ensures HandedOut(s, t, from, item, pointer)
  {
    hide Inv, HomeOf, ItemAt, QueueOf;
    LivePointer(s, pointer);
    SameHome(s, middle, pointer);
  }

  lemma MakeFacts(s: State, task: nat, handle: nat, pointer: nat, release: nat)
    requires Inv(s) && Enabled(s, MakeHandle(task, handle, pointer, release))
    ensures var t, home := Apply(s, MakeHandle(task, handle, pointer, release)), HomeOf(s, pointer);
      && t.particles == s.particles && t.pageSize == s.pageSize && t.pool == s.pool && t.ptoc == s.ptoc
      && t.pointers == s.pointers[pointer := handle]
      && handle in t.cells && t.cells[handle] == Handle(s.cells[task].item, Some(s.cells[task].goal.host))
      && (release in t.cells <==> home.Some?)
      && (home.Some? ==> t.cells[release] == Task(ItemAt(s, pointer), Enqueue(home.value)))
      && (forall k :: k in t.cells && k != handle && k != release ==> k != task && k in s.cells && t.cells[k] == s.cells[k])
      && forall k :: k in s.cells && k != task && s.cells[k].Task? ==> k in t.cells && t.cells[k] == s.cells[k]
  {
    hide Inv, Release, HomeOf, ItemAt, Referenced;
    LivePointer(s, pointer);
    var u := s.(cells := (s.cells - {task})[handle := Handle(s.cells[task].item, Some(s.cells[task].goal.host))]);
    SameHome(s, u, pointer);
    ReleaseHome(u, pointer, release);
    if pointer in s.pointers {
      NewStays(u, pointer, release, handle);
    } else {
      NewStays(u, pointer, release, handle);
    }
  }

  lemma SameHome(s: State, u: State, pointer: nat)
    requires u.pointers == s.pointers
    requires pointer in s.pointers ==> var h := s.pointers[pointer]; h in s.cells && h in u.cells && s.cells[h] == u.cells[h]
    ensures HomeOf(u, pointer) == HomeOf(s, pointer) && ItemAt(u, pointer) == ItemAt(s, pointer)
  {
    if pointer in s.pointers {
      var a, b, h := s.(pointers := s.pointers - {pointer}), u.(pointers := u.pointers - {pointer}), s.pointers[pointer];
      assert a.pointers == b.pointers;
      assert Referenced(a, h) <==> Referenced(b, h);
    }
  }

  /** A pointer assigned from another one shares its handle, which stays even if the pointer was its last. */
  lemma CopyShares(s: State, source: nat, pointer: nat, release: nat)
    requires Inv(s) && source in s.pointers && pointer != source && release !in s.cells
    ensures Enabled(s, Copy(source, pointer, release))
    ensures var t, handle := Apply(s, Copy(source, pointer, release)), s.pointers[source];
      && t.pointers == s.pointers[pointer := handle] && handle in s.cells && handle in t.cells && t.cells[handle] == s.cells[handle]
      && t.pool == s.pool && t.ptoc == s.ptoc
      && (release in t.cells <==> HomeOf(s, pointer).Some?)
      && (release in t.cells ==> t.cells[release] == Task(ItemAt(s, pointer), Enqueue(HomeOf(s, pointer).value)))
  {
    hide Inv, Release, HomeOf, ItemAt;
    LivePointer(s, pointer);
    LivePointer(s, source);
    ReleaseHome(s, pointer, release);
    ReleaseKeepsOthers(s, pointer, release, source);
  }

  lemma ReleaseKeepsOthers(s: State, pointer: nat, task: nat, other: nat)
    requires other in s.pointers && other != pointer && s.pointers[other] in s.cells && task !in s.cells
    ensures var t, handle := Release(s, pointer, task), s.pointers[other]; handle in t.cells && t.cells[handle] == s.cells[handle]
  {
    if pointer in s.pointers && s.pointers[pointer] == s.pointers[other] {
      var t := s.(pointers := s.pointers - {pointer});
      assert other in t.pointers && t.pointers[other] == s.pointers[other];
    }
  }

  // ----- sending in bulk -----

  /** Whether one of the first n pointers refers to the handle. */
  ghost predicate Visited(s: State, pv: seq<nat>, n: nat, handle: nat)
    requires n <= |pv| && forall j :: 0 <= j < |pv| ==> pv[j] in s.pointers
  {
    exists j :: 0 <= j < n && s.pointers[pv[j]] == handle
  }

  /** What bulk sending takes out of the handles: a handle met for the second time is empty. */
  ghost function Bulk(s: State, pv: seq<nat>, i: nat): Item
    requires i < |pv| && forall j :: 0 <= j < |pv| ==> pv[j] in s.pointers
  {
    if Visited(s, pv, i, s.pointers[pv[i]]) then None else ItemAt(s, pv[i])
  }

  /** The first n handles are empty, and what was in them is on its way. */
  ghost predicate MovedFirst(s: State, t: State, pv: seq<nat>, held: seq<nat>, n: nat)
    requires n <= |pv| && forall j :: 0 <= j < |pv| ==> pv[j] in s.pointers
  {
    && t.pool == s.pool && t.ptoc == s.ptoc && t.pointers == s.pointers && |held| == n
    && (forall i, j :: 0 <= i < j < n ==> held[i] != held[j])
    && (forall i :: 0 <= i < n ==> held[i] !in s.cells && held[i] in t.cells && t.cells[held[i]] == Task(Bulk(s, pv, i), Enqueue(PtoC)))
    && (forall k :: k in s.cells ==> k in t.cells)
    && (forall j :: 0 <= j < n ==> s.pointers[pv[j]] in t.cells && t.cells[s.pointers[pv[j]]] == Handle(None, None))
    && (forall k :: k in s.cells && !Visited(s, pv, n, k) ==> t.cells[k] == s.cells[k])
  }

  lemma OneMoved(s: State, t: State, pv: seq<nat>, held: seq<nat>, n: nat, task: nat)
    requires Inv(s) && n < |pv| && forall j :: 0 <= j < |pv| ==> pv[j] in s.pointers
    requires MovedFirst(s, t, pv, held, n) && task !in t.cells
    ensures Enabled(t, MoveOut(pv[n], task))
    ensures MovedFirst(s, Apply(t, MoveOut(pv[n], task)), pv, held + [task], n + 1)
  {
    hide Inv, Contents;
    LivePointer(s, pv[n]);
    var handle := s.pointers[pv[n]];
    var u := Apply(t, MoveOut(pv[n], task));
    if Visited(s, pv, n, handle) {
      assert t.cells[handle].item == None;
    } else {
      assert t.cells[handle] == s.cells[handle];
    }
    forall i | 0 <= i < n
      ensures held[i] != task && held[i] != handle && u.cells[held[i]] == t.cells[held[i]]
    {
      assert held[i] !in s.cells;
    }
    assert u.cells[task] == Task(Bulk(s, pv, n), Enqueue(PtoC));
    var now := held + [task];
    assert forall i, j :: 0 <= i < j < n + 1 ==> now[i] != now[j];
    assert forall i :: 0 <= i < n + 1 ==> now[i] !in s.cells && now[i] in u.cells && u.cells[now[i]] == Task(Bulk(s, pv, i), Enqueue(PtoC));
    assert forall j :: 0 <= j < n + 1 ==> s.pointers[pv[j]] in u.cells && u.cells[s.pointers[pv[j]]] == Handle(None, None);
    forall k | k in s.cells && !Visited(s, pv, n + 1, k)
      ensures u.cells[k] == s.cells[k]
    {
      assert s.pointers[pv[n]] != k;
    }
  }

  // ----- receiving in bulk -----

  /** From n on, tasks hold what was taken out of the queue, to be handed out. */
  ghost predicate InFlight(s: State, tasks: seq<nat>, items: seq<Item>, n: nat)
    requires |items| == |tasks|
  {
    && (forall i, j :: 0 <= i < j < |tasks| ==> tasks[i] != tasks[j])
    && (forall i :: n <= i < |tasks| ==> tasks[i] in s.cells && s.cells[tasks[i]] == Task(items[i], Wrap(Pool)))
  }

  /** The first n slots refer to handles with these items, whose destructors recycle them. */
  ghost predicate Delivered(s: State, slots: seq<nat>, items: seq<Item>, n: nat)
    requires n <= |slots| && n <= |items|
  {
    forall i :: 0 <= i < n ==>
      slots[i] in s.pointers && s.pointers[slots[i]] in s.cells && s.cells[s.pointers[slots[i]]] == Handle(items[i], Some(Pool))
  }

  lemma OneInFlight(s: State, t: State, tasks: seq<nat>, items: seq<Item>, item: Item, task: nat)
    requires |items| == |tasks| && InFlight(s, tasks, items, 0) && InHands(s, t, PtoC, item, task)
    ensures InFlight(t, tasks + [task], items + [item], 0)
  {
    var now := tasks + [task];
    assert forall i :: 0 <= i < |tasks| ==> now[i] == tasks[i] && now[i] != task;
  }

  lemma OneDelivered(s: State, t: State, tasks: seq<nat>, items: seq<Item>, slots: seq<nat>, n: nat)
    requires |items| == |tasks| && n < |tasks| && |tasks| <= |slots| && InFlight(s, tasks, items, n) && Delivered(s, slots, items, n)
    requires forall i, j :: 0 <= i < j < |slots| ==> slots[i] != slots[j]
    requires Inv(s) && Inv(t) && TasksStay(s, t, tasks[n])
    requires slots[n] in t.pointers && t.pointers == s.pointers[slots[n] := t.pointers[slots[n]]]
    requires var handle := t.pointers[slots[n]];
      && handle !in s.cells && handle in t.cells && t.cells[handle] == Handle(items[n], Some(Pool))
      && forall k :: k in t.cells && k != handle ==> k in s.cells && t.cells[k] == s.cells[k]
    ensures InFlight(t, tasks, items, n + 1) && Delivered(t, slots, items, n + 1)
  {
    hide Inv;
    forall i | 0 <= i < n + 1
      ensures slots[i] in t.pointers && t.pointers[slots[i]] in t.cells && t.cells[t.pointers[slots[i]]] == Handle(items[i], Some(Pool))
    {
      LivePointer(t, slots[i]);
      if i < n {
        assert t.pointers[slots[i]] == s.pointers[slots[i]];
      }
    }
  }

  lemma StillInFlight(s: State, t: State, tasks: seq<nat>, items: seq<Item>, task: nat)
    requires |items| == |tasks| && InFlight(s, tasks, items, 0) && TasksStay(s, t, task) && task !in s.cells
    ensures InFlight(t, tasks, items, 0)
  {
  }

  // What giving up several pointers returns: the one given up last of those sharing a handle returns its particle.

  function Without(s: State, ps: seq<nat>): State { s.(pointers := s.pointers - (set p | p in ps)) }

  ghost function ReturnedAll(s: State, ps: seq<nat>, w: Which): multiset<Item> {
    if ps == [] then multiset{}
    else
      var n := |ps| - 1;
      ReturnedAll(s, ps[..n], w) + Returned(Without(s, ps[..n]), ps[n], w)
  }

  /** These pointers are null or refer to new handles; the others, and the old handles there are, stay. */
  ghost predicate GivenUp(s: State, t: State, ps: seq<nat>) {
    && (forall p :: p in s.pointers && p !in ps ==> p in t.pointers && t.pointers[p] == s.pointers[p])
    && (forall p :: p in t.pointers && p !in ps ==> p in s.pointers)
    && (forall p :: p in t.pointers && p in ps ==> t.pointers[p] !in s.cells)
    && (forall k :: k in s.cells && s.cells[k].Handle? && k in t.cells ==> t.cells[k] == s.cells[k])
  }

  lemma SameReturned(s: State, t: State, ps: seq<nat>, pointer: nat, w: Which)
    requires Inv(s) && Inv(t) && GivenUp(s, t, ps) && pointer !in ps
    ensures Returned(t, pointer, w) == Returned(Without(s, ps), pointer, w)
  {
    hide Inv;
    var u := Without(s, ps);
    LivePointer(s, pointer);
    LivePointer(t, pointer);
    if pointer in s.pointers {
      var h := s.pointers[pointer];
      var a, b := u.(pointers := u.pointers - {pointer}), t.(pointers := t.pointers - {pointer});
      if Referenced(a, h) {
        var p :| p in a.pointers && a.pointers[p] == h;
        assert p in b.pointers && b.pointers[p] == h;
      }
      if Referenced(b, h) {
        var p :| p in b.pointers && b.pointers[p] == h;
        assert p in a.pointers && a.pointers[p] == h;
      }
    }
  }

  /** No handle is touched. */
  ghost predicate HandlesStay(s: State, t: State) {
    forall k :: k in s.cells && s.cells[k].Handle? ==> k in t.cells && t.cells[k] == s.cells[k]
  }

  lemma NoneGivenUp(s: State, t: State)
    requires t.pointers == s.pointers && HandlesStay(s, t)
    ensures GivenUp(s, t, [])
  {
  }

  lemma OneGivenUp(s: State, t: State, u: State, ps: seq<nat>, pointer: nat)
    requires GivenUp(s, t, ps) && u.pointers == t.pointers - {pointer}
    requires forall k :: k in u.cells ==> k in t.cells && u.cells[k] == t.cells[k]
    ensures GivenUp(s, u, ps + [pointer])
  {
  }

  lemma OneReplaced(s: State, t: State, u: State, ps: seq<nat>, pointer: nat)
    requires GivenUp(s, t, ps) && pointer in u.pointers && u.pointers == t.pointers[pointer := u.pointers[pointer]]
    requires u.pointers[pointer] !in s.cells
    requires forall k :: k in u.cells && k != u.pointers[pointer] ==> k in t.cells && u.cells[k] == t.cells[k]
    ensures GivenUp(s, u, ps + [pointer])
  {
  }

  /** The queues hold what was given up. */
  ghost predicate Holding(s: State, taken: State, t: State, ps: seq<nat>) {
    && t.pool == taken.pool + ReturnedAll(s, ps, Pool) && t.ptoc == taken.ptoc + ReturnedAll(s, ps, PtoC)
  }

  lemma OneHeld(s: State, taken: State, t: State, u: State, ps: seq<nat>, pointer: nat)
    requires Holding(s, taken, t, ps) && Inv(s) && Inv(t) && GivenUp(s, t, ps) && pointer !in ps
    requires forall w :: QueueOf(u, w) == QueueOf(t, w) + Returned(t, pointer, w)
    ensures Holding(s, taken, u, ps + [pointer])
  {
    hide Inv, GivenUp, Returned;
    assert (ps + [pointer])[..|ps|] == ps;
    SameReturned(s, t, ps, pointer, Pool);
    SameReturned(s, t, ps, pointer, PtoC);
    QueuesAre(t);
    QueuesAre(u);
  }

  lemma NoneHeld(s: State, taken: State)
    ensures Holding(s, taken, taken, [])
  {
    assert taken.pool + multiset{} == taken.pool && taken.ptoc + multiset{} == taken.ptoc;
  }

  lemma OneFewer(q: multiset<Item>, left: multiset<Item>, items: seq<Item>, item: Item)
    requires left + multiset(items) == q && item in left
    ensures left - multiset{item} + multiset(items + [item]) == q && |left - multiset{item}| == |left| - 1
  {
  }

  // ----- growing the pool -----

  /** What the allocator gave: an aligned page for each frame, as far as it went, or one chunk for all. */
  datatype Memory = Frames(pages: seq<nat>) | Chunk(base: Option<nat>)

  /** Where the frames get their pages. */
  function Pages(memory: Memory, pageSize: nat, num: nat): seq<nat> {
    match memory
    case Frames(pages) => if |pages| <= num then pages else pages[..num]
    case Chunk(base) => if base.None? then [] else seq(num, i requires 0 <= i < num => base.value + i * pageSize)
  }

  predicate Beside(a: nat, b: nat, size: nat) { a + size <= b || b + size <= a }

  ghost predicate Apart(particles: set<Particle>, page: nat, size: nat) {
    forall p :: p in particles ==> Beside(p.address, page, size)
  }

  ghost predicate AllBeside(pages: seq<nat>, size: nat) {
    forall i, j :: 0 <= i < j < |pages| ==> Beside(pages[i], pages[j], size)
  }

  /** What the allocator promises: memory in use by nobody. */
  ghost predicate IsFree(s: State, memory: Memory, num: nat) {
    match memory
    case Frames(pages) =>
      && (forall i :: 0 <= i < |pages| ==> Apart(s.particles, pages[i], s.pageSize))
      && AllBeside(pages, s.pageSize)
    case Chunk(base) =>
      base.Some? ==> forall p :: p in s.particles ==> p.address + s.pageSize <= base.value || base.value + num * s.pageSize <= p.address
  }

  /** Cutting a chunk into frames gives pages that do not overlap. */
  lemma PagesAreApart(s: State, memory: Memory, num: nat)
    requires IsFree(s, memory, num)
    ensures var pages := Pages(memory, s.pageSize, num);
      (forall i :: 0 <= i < |pages| ==> Apart(s.particles, pages[i], s.pageSize)) && AllBeside(pages, s.pageSize)
  {
    if memory.Chunk? && memory.base.Some? {
      var pages, base := Pages(memory, s.pageSize, num), memory.base.value;
      forall i | 0 <= i < num
        ensures Apart(s.particles, pages[i], s.pageSize)
      {
        InChunk(i, i + 1, num, s.pageSize);
        assert pages[i] == base + i * s.pageSize;
      }
      forall i, j | 0 <= i < j < num
        ensures Beside(pages[i], pages[j], s.pageSize)
      {
        InChunk(i, j, num, s.pageSize);
        assert pages[i] == base + i * s.pageSize && pages[j] == base + j * s.pageSize;
      }
    }
  }

  lemma InChunk(i: nat, j: nat, num: nat, pageSize: nat)
    requires i < j <= num
    ensures 0 <= i * pageSize && i * pageSize + pageSize <= j * pageSize <= num * pageSize
  {
    MulMono(0, i, pageSize);
    MulMono(i + 1, j, pageSize);
    MulMono(j, num, pageSize);
    Distribute(pageSize, i, 1);
  }

  /** The frames made for these pages, numbered from the first. */
  function FramesAt(first: nat, pages: seq<nat>): (frames: seq<Particle>)
    ensures |frames| == |pages|
    ensures forall i :: 0 <= i < |pages| ==> frames[i] == Particle(first + i, pages[i])
  {
    seq(|pages|, i requires 0 <= i < |pages| => Particle(first + i, pages[i]))
  }

  /** The frames as queue entries. */
  function Entries(frames: seq<Particle>): (items: seq<Item>)
    ensures |items| == |frames|
    ensures forall i :: 0 <= i < |frames| ==> items[i] == Some(frames[i])
  {
    seq(|frames|, i requires 0 <= i < |frames| => Some(frames[i]))
  }

  ghost function AllOf(frames: seq<Particle>): set<Particle> { set p | p in frames }

  /** The operation holds these frames, and is about to put them into the pool. */
  ghost predicate Fresh(s: State, tasks: seq<nat>, frames: seq<Particle>, n: nat)
    requires |tasks| == |frames|
  {
    && (forall i, j :: 0 <= i < j < |tasks| ==> tasks[i] != tasks[j])
    && (forall i :: n <= i < |tasks| ==> tasks[i] in s.cells && s.cells[tasks[i]] == Task(Some(frames[i]), Publish))
  }

  /** The frames P_get_tryBest adds: 64 when the pool is empty. */
  ghost function Grown(s: State, first: nat, memory: Memory): seq<Particle> {
    if s.pool != multiset{} then [] else FramesAt(first, Pages(memory, s.pageSize, 64))
  }

  /** The pointer refers to a new handle with an entry of the pool, after these frames were added to it. */
  ghost predicate Got(s: State, t: State, pointer: nat, frames: seq<Particle>, item: Item) {
    var pool := s.pool + multiset(Entries(frames));
    && pointer in t.pointers && t.pointers == s.pointers[pointer := t.pointers[pointer]]
    && t.pointers[pointer] in t.cells && t.cells[t.pointers[pointer]] == Handle(item, Some(PtoC))
    && item in pool && t.pool == pool - multiset{item} + Returned(s, pointer, Pool)
    && t.ptoc == s.ptoc + Returned(s, pointer, PtoC)
  }

  /** The pointer is null, and nothing else has changed. */
  ghost predicate GaveUp(s: State, t: State, pointer: nat) {
    && t.pointers == s.pointers - {pointer} && t.particles == s.particles
    && t.pool == s.pool + Returned(s, pointer, Pool) && t.ptoc == s.ptoc + Returned(s, pointer, PtoC)
  }

  ghost function Names(pv: seq<nat>): set<nat> { set x | x in pv }

  /** From n on, tasks hold these items, on their way to the consumers. */
  ghost predicate InTasks(s: State, held: seq<nat>, items: seq<Item>, n: nat)
    requires |items| == |held|
  {
    && (forall i, j :: 0 <= i < j < |held| ==> held[i] != held[j])
    && (forall i :: n <= i < |held| ==> held[i] in s.cells && s.cells[held[i]] == Task(items[i], Enqueue(PtoC)))
  }

  /** Whatever these pointers still refer to is empty, and has no queue to go to. */
  ghost predicate Emptied(s: State, pv: seq<nat>) {
    forall j :: 0 <= j < |pv| && pv[j] in s.pointers && s.pointers[pv[j]] in s.cells ==> s.cells[s.pointers[pv[j]]] == Handle(None, None)
  }

  class ParticleQueue {
    var state: State
    var next: nat

    ghost predicate Valid()
      reads this
    {
      Inv(state) && (forall k :: k in state.cells ==> k < next) && forall p :: p in state.particles ==> p.id < next
    }

    constructor (pageSize: nat)
      ensures Valid() && state == InitialState(pageSize)
    {
      state, next := InitialState(pageSize), 0;
      new;
      InitiallyInv(pageSize);
    }

    /** One atomic step. */
    method Do(step: Step, ghost before: State, ghost steps: seq<Step>) returns (ghost more: seq<Step>)
      requires Inv(state) && Enabled(state, step) && Leads(before, steps, state)
      modifies this`state
      ensures state == Apply(old(state), step) && Inv(state) && Leads(before, more, state)
    {
      hide Inv, Enabled, Apply, Leads;
      StepKeeps(state, step);
      OneMore(before, steps, state, step);
      more := steps + [step];
      state := Apply(state, step);
    }

    /** What a destructor still has to do: enqueue the particle. */
    method Finish(task: nat, ghost before: State, ghost steps: seq<Step>) returns (ghost more: seq<Step>)
      requires Valid() && Leads(before, steps, state)
      requires task in state.cells ==> state.cells[task].Task? && state.cells[task].goal.Enqueue?
      modifies this`state
      ensures Valid() && Leads(before, more, state) && state.pointers == old(state.pointers) && state.particles == old(state.particles)
      ensures task in old(state.cells) ==>
        var w, item := old(state.cells[task].goal.to), old(state.cells[task].item);
        state.cells == old(state.cells) - {task}
        && QueueOf(state, w) == QueueOf(old(state), w) + multiset{item} && QueueOf(state, Other(w)) == QueueOf(old(state), Other(w))
      ensures task !in old(state.cells) ==> state == old(state)
    {
      hide Inv, Apply, Leads, QueueOf;
      more := steps;
      if task in state.cells {
        PutFacts(state, task);
        more := Do(Put(task), before, steps);
      }
    }

    /** Giving up a pointer, in P_send and C_return. */
    method Send(pointer: nat) returns (ghost steps: seq<Step>)
      requires Valid()
      modifies this
      ensures Valid() && Leads(old(state), steps, state)
      ensures state.pointers == old(state.pointers) - {pointer}
      ensures forall k :: k in state.cells ==> k in old(state.cells) && state.cells[k] == old(state.cells)[k]
      ensures TasksStay(old(state), state, old(next)) && state.particles == old(state.particles) && next >= old(next)
      ensures forall w :: QueueOf(state, w) == QueueOf(old(state), w) + Returned(old(state), pointer, w)
      ensures !Alone(old(state), pointer) ==> state.pool == old(state.pool) && state.ptoc == old(state.ptoc)
      ensures Alone(old(state), pointer) ==> (old(state).pointers[pointer] in old(state).cells
        && var cell := old(state).cells[old(state).pointers[pointer]];
          && cell.Handle?
          && state.pool == old(state.pool) + (if cell.host == Some(Pool) then multiset{cell.item} else multiset{})
          && state.ptoc == old(state.ptoc) + (if cell.host == Some(PtoC) then multiset{cell.item} else multiset{}))
    {
      hide Inv, Leads, Release, HomeOf, ItemAt, QueueOf, Returned, Alone;
      ghost var before := state;
      ReturnedIs(state, pointer);
      LivePointer(state, pointer);
      ReleaseHome(state, pointer, next);
      NoSteps(state);
      steps := Do(Reset(pointer, next), state, []);
      ghost var middle := state;
      SameQueues(before, middle);
      next := next + 1;
      steps := Finish(next - 1, before, steps);
      forall w
        ensures QueueOf(state, w) == QueueOf(before, w) + Returned(before, pointer, w)
      {
        Reached(before, middle, state, pointer, w);
      }
      QueuesAre(before);
      QueuesAre(state);
    }

    /** Takes a particle out of a queue, into the hands of the operation. */
    method Taken(from: Which, item: Item, ghost before: State, ghost steps: seq<Step>) returns (ghost more: seq<Step>)
      requires Valid() && Leads(before, steps, state) && item in QueueOf(state, from)
      modifies this
      ensures Valid() && Leads(before, more, state) && next == old(next) + 1
      ensures InHands(old(state), state, from, item, old(next))
    {
      hide Inv, Leads, Apply, QueueOf;
      TakeFacts(state, from, item, next);
      more := Do(Take(from, item, next), before, steps);
      next := next + 1;
    }

    /** Wraps a particle that was taken out of a queue into a new handle, and makes the pointer refer
        to it; what the pointer referred to before is given up. */
    method Wrapped(task: nat, pointer: nat, ghost before: State, ghost steps: seq<Step>) returns (ghost more: seq<Step>)
      requires Valid() && Leads(before, steps, state)
      requires task in state.cells && state.cells[task].Task? && state.cells[task].goal.Wrap?
      modifies this
      ensures Valid() && Leads(before, more, state) && next == old(next) + 2
      ensures pointer in state.pointers && state.pointers[pointer] >= old(next) && state.pointers == old(state.pointers)[pointer := state.pointers[pointer]]
      ensures var handle := state.pointers[pointer];
        && handle !in old(state.cells) && handle in state.cells
        && state.cells[handle] == Handle(old(state.cells[task].item), Some(old(state.cells[task].goal.host)))
        && forall k :: k in state.cells && k != handle ==> k != task && k in old(state.cells) && state.cells[k] == old(state.cells)[k]
      ensures TasksStay(old(state), state, task)
      ensures forall w :: QueueOf(state, w) == QueueOf(old(state), w) + Returned(old(state), pointer, w)
    {
      hide Inv, Leads, Apply, HomeOf, ItemAt, QueueOf;
      ghost var start := state;
      MakeFacts(state, task, next, pointer, next + 1);
      more := Do(MakeHandle(task, next, pointer, next + 1), before, steps);
      ghost var middle := state;
      SameQueues(start, middle);
      next := next + 2;
      more := Finish(next - 1, before, more);
      forall w
        ensures QueueOf(state, w) == QueueOf(start, w) + Returned(start, pointer, w)
      {
        Reached(start, middle, state, pointer, w);
      }
    }

    /** P_get and C_recv in all their forms: takes a particle from one queue and hands it out in a handle
        whose destructor will put it into the other. Without a particle the pointer becomes null. */
    method Draw(from: Which, pointer: nat) returns (ok: bool, item: Item, ghost steps: seq<Step>)
      requires Valid()
      modifies this
      ensures Valid() && Leads(old(state), steps, state)
      ensures ok <==> |QueueOf(old(state), from)| != 0
      ensures ok ==> HandedOut(old(state), state, from, item, pointer)
      ensures !ok ==>
        && state.pointers == old(state.pointers) - {pointer}
        && forall w :: QueueOf(state, w) == QueueOf(old(state), w) + Returned(old(state), pointer, w)
    {
      hide Inv, Leads, Apply, HomeOf, ItemAt, QueueOf;
      ghost var before := state;
      ok, item := |QueueOf(state, from)| != 0, None;
      NoSteps(state);
      if ok {
        item :| item in QueueOf(state, from);
        steps := Taken(from, item, before, []);
        ghost var middle := state;
        steps := Wrapped(next - 1, pointer, before, steps);
        TakenAndWrapped(before, middle, state, from, item, next - 3, pointer);
      } else {
        steps := Send(pointer);
      }
    }

    /** A round of a producer or a consumer: what was drawn from one queue and sent on is in the other. What
        the pointer referred to before is given up first. */
    method DrawAndSend(from: Which, pointer: nat) returns (ok: bool, item: Item, ghost steps: seq<Step>)
      requires Valid()
      modifies this
      ensures Valid() && Leads(old(state), steps, state) && state.pointers == old(state.pointers) - {pointer}
      ensures ok <==> (if from == Pool then old(state.pool) else old(state.ptoc)) != multiset{}
      ensures ok ==> PassedOn(old(state), state, from, item, pointer)
      ensures !ok ==> forall w :: QueueOf(state, w) == QueueOf(old(state), w) + Returned(old(state), pointer, w)
      ensures pointer !in old(state.pointers) ==> Returned(old(state), pointer, Pool) == Returned(old(state), pointer, PtoC) == multiset{}
    {
      hide Inv, Leads, HomeOf, ItemAt, QueueOf, Returned, Alone, TasksStay, HandedOut, PassedOn;
      ghost var before := state;
      if pointer !in state.pointers {
        NoneAlone(state, pointer);
      }
      NotEmptyFrames(QueueOf(state, from));
      ok, item, steps := Draw(from, pointer);
      ghost var middle := state;
      QueuesAre(before);
      if ok {
        DrawnAlone(before, middle, from, item, pointer);
        ghost var more := Send(pointer);
        Chain(before, steps, middle, more, state);
        steps := steps + more;
        SentOn(before, middle, state, from, item, pointer);
      }
    }

    method MoveAll(pv: seq<nat>, ghost before: State, ghost steps: seq<Step>) returns (held: seq<nat>, ghost more: seq<Step>)
      requires Valid() && Leads(before, steps, state)
      requires forall j :: 0 <= j < |pv| ==> pv[j] in state.pointers
      modifies this
      ensures Valid() && Leads(before, more, state)
      ensures MovedFirst(old(state), state, pv, held, |pv|)
    {
      hide Inv, Leads, Apply, Enabled, MovedFirst;
      ghost var start := state;
      held, more := [], steps;
      NoneMoved(state, pv);
      for n := 0 to |pv|
        invariant Valid() && Leads(before, more, state)
        invariant MovedFirst(start, state, pv, held, n)
      {
        OneMoved(start, state, pv, held, n, next);
        CellsAfterMove(state, pv[n], next);
        more := Do(MoveOut(pv[n], next), before, more);
        held, next := held + [next], next + 1;
      }
    }

    /** enqueue_bulk, entry by entry. */
    method EnqueueAll(held: seq<nat>, ghost items: seq<Item>, ghost before: State, ghost steps: seq<Step>) returns (ghost more: seq<Step>)
      requires Valid() && Leads(before, steps, state) && |items| == |held|
      requires InTasks(state, held, items, 0)
      modifies this
      ensures Valid() && Leads(before, more, state)
      ensures state.pool == old(state.pool) && state.ptoc == old(state.ptoc) + multiset(items) && state.pointers == old(state.pointers)
      ensures forall k :: k in old(state.cells) && k !in held ==> k in state.cells && state.cells[k] == old(state.cells)[k]
    {
      hide Inv, Leads, Apply, Enabled, InTasks;
      ghost var start := state;
      more := steps;
      for n := 0 to |held|
        invariant Valid() && Leads(before, more, state) && InTasks(state, held, items, n)
        invariant state.pool == start.pool && state.ptoc == start.ptoc + multiset(items[..n]) && state.pointers == start.pointers
        invariant forall k :: k in start.cells && k !in held ==> k in state.cells && state.cells[k] == start.cells[k]
      {
        OneEnqueued(state, held, items, n);
        more := Do(Put(held[n]), before, more);
        assert items[..n + 1] == items[..n] + [items[n]];
      }
      assert items[..|held|] == items;
    }

    /** Emptied handles vanish without a trace. */
    method ClearAll(pv: seq<nat>, ghost before: State, ghost steps: seq<Step>) returns (ghost more: seq<Step>)
      requires Valid() && Leads(before, steps, state)
      requires Emptied(state, pv)
      modifies this
      ensures Valid() && Leads(before, more, state)
      ensures state.pool == old(state.pool) && state.ptoc == old(state.ptoc) && state.pointers == old(state.pointers) - Names(pv)
    {
      hide Inv, Leads, HomeOf, Emptied, Returned;
      ghost var start := state;
      more := steps;
      for n := 0 to |pv|
        invariant Valid() && Leads(before, more, state) && Emptied(state, pv)
        invariant state.pool == start.pool && state.ptoc == start.ptoc && state.pointers == start.pointers - Names(pv[..n])
      {
        ghost var last, soFar := state, more;
        NothingReturned(state, pv, n);
        ghost var now := Send(pv[n]);
        Chain(before, soFar, last, now, state);
        more := soFar + now;
        StillEmptied(last, state, pv, pv[n]);
        BothQueues(last, state);
        assert pv[..n + 1] == pv[..n] + [pv[n]];
      }
      assert pv[..|pv|] == pv;
    }

    /** P_send_bulk: takes the particles out of the handles, enqueues them together, and clears the vector. */
    method SendBulk(pv: seq<nat>) returns (ghost items: seq<Item>, ghost steps: seq<Step>)
      requires Valid() && forall j :: 0 <= j < |pv| ==> pv[j] in state.pointers
      modifies this
      ensures Valid() && Leads(old(state), steps, state)
      ensures |items| == |pv| && forall i :: 0 <= i < |pv| ==> items[i] == Bulk(old(state), pv, i)
      ensures state.ptoc == old(state.ptoc) + multiset(items) && state.pool == old(state.pool)
      ensures state.pointers == old(state.pointers) - Names(pv)
    {
      hide Inv, Leads, Bulk, InTasks, MovedFirst, Emptied;
      ghost var before := state;
      NoSteps(state);
      var held;
      held, steps := MoveAll(pv, before, []);
      items := seq(|pv|, i requires 0 <= i < |pv| => Bulk(before, pv, i));
      MovedToTasks(before, state, pv, held, items);
      ghost var middle := state;
      steps := EnqueueAll(held, items, before, steps);
      StillEmpty(before, middle, state, pv, held);
      steps := ClearAll(pv, before, steps);
    }

    /** Dequeues until there are enough, or no more. */
    method TakeAll(max: nat, ghost before: State) returns (tasks: seq<nat>, ghost items: seq<Item>, ghost steps: seq<Step>)
      requires Valid() && before == state
      modifies this
      ensures Valid() && Leads(before, steps, state) && |items| == |tasks|
      ensures InFlight(state, tasks, items, 0)
      ensures |tasks| == (if max <= |before.ptoc| then max else |before.ptoc|)
      ensures state.ptoc + multiset(items) == before.ptoc && state.pool == before.pool && state.pointers == before.pointers
      ensures HandlesStay(before, state) && next >= old(next)
    {
      hide Inv, Leads, InFlight, QueueOf, HandlesStay;
      ghost var from := next;
      NoneAllocated(state);
      tasks, items, steps := [], [], [];
      NoSteps(state);
      NoneInFlight(state);
      while |tasks| < max && |state.ptoc| != 0
        invariant Valid() && Leads(before, steps, state) && |items| == |tasks| <= max && InFlight(state, tasks, items, 0)
        invariant state.ptoc + multiset(items) == before.ptoc && state.pool == before.pool && state.pointers == before.pointers
        invariant HandlesStay(before, state) && next >= from
        decreases max - |tasks|
      {
        ghost var last := state;
        var item: Item :| item in state.ptoc;
        QueuesAre(state);
        steps := Taken(PtoC, item, before, steps);
        QueuesAre(state);
        OneInFlight(last, state, tasks, items, item, next - 1);
        HandlesStayWith(before, last, state, next - 1);
        OneFewer(before.ptoc, last.ptoc, items, item);
        tasks, items := tasks + [next - 1], items + [item];
      }
    }

    /** C_getBulk_timeout: dequeues up to max entries, makes the vector that long, and fills it with handles.
        The slots of the vector are named by the caller, for as many entries as there may be. What the slots
        referred to before is given up, first beyond the new size and then slot by slot. */
    method ReceiveBulk(slots: seq<nat>, max: nat) returns (ok: bool, m: nat, ghost items: seq<Item>, ghost steps: seq<Step>)
      requires Valid() && max <= |slots| && forall i, j :: 0 <= i < j < |slots| ==> slots[i] != slots[j]
      modifies this
      ensures Valid() && Leads(old(state), steps, state)
      ensures m == |items| == if max <= |old(state.ptoc)| then max else |old(state.ptoc)|
      ensures ok <==> m > 0
      ensures multiset(items) <= old(state.ptoc)
      ensures Delivered(state, slots, items, m) && GivenUp(old(state), state, slots[m..] + slots[..m])
      ensures forall i :: m <= i < |slots| ==> slots[i] !in state.pointers
      ensures state.pool == old(state.pool) + ReturnedAll(old(state), slots[m..] + slots[..m], Pool)
      ensures state.ptoc == old(state.ptoc) - multiset(items) + ReturnedAll(old(state), slots[m..] + slots[..m], PtoC)
    {
      hide Inv, Leads, InFlight, Delivered, GivenUp, Holding, ReturnedAll;
      ghost var before, first := state, next;
      var tasks;
      tasks, items, steps := TakeAll(max, state);
      m, ok := |tasks|, |tasks| > 0;
      ghost var taken := state;
      NoneGivenUp(before, state);
      NoneHeld(before, taken);
      steps := Truncate(slots, m, tasks, items, before, taken, steps);
      steps := FillSlots(slots, tasks, items, first, before, taken, steps);
      EndOfBulk(before, taken, state, slots, m, items);
    }

    /** The vector loses what is beyond its new size. */
    method Truncate(slots: seq<nat>, m: nat, ghost tasks: seq<nat>, ghost items: seq<Item>, ghost before: State, ghost taken: State, ghost steps: seq<Step>)
      returns (ghost more: seq<Step>)
      requires Valid() && Inv(before) && Leads(before, steps, state) && m <= |slots| && |items| == |tasks|
      requires forall i, j :: 0 <= i < j < |slots| ==> slots[i] != slots[j]
      requires InFlight(state, tasks, items, 0) && GivenUp(before, state, []) && Holding(before, taken, state, [])
      modifies this
      ensures Valid() && Leads(before, more, state) && InFlight(state, tasks, items, 0) && next >= old(next)
      ensures GivenUp(before, state, slots[m..]) && Holding(before, taken, state, slots[m..])
      ensures forall i :: m <= i < |slots| ==> slots[i] !in state.pointers
    {
      hide Inv, Leads, InFlight, GivenUp, Holding, HomeOf, Returned, TasksStay, QueueOf;
      more := steps;
      ghost var from := next;
      assert slots[m..m] == [];
      for n := m to |slots|
        invariant Valid() && Leads(before, more, state) && InFlight(state, tasks, items, 0) && next >= from
        invariant GivenUp(before, state, slots[m..n]) && Holding(before, taken, state, slots[m..n])
        invariant forall i :: m <= i < n ==> slots[i] !in state.pointers
      {
        ghost var last, soFar, fresher := state, more, next;
        ghost var now := Send(slots[n]);
        Chain(before, soFar, last, now, state);
        more := soFar + now;
        StillInFlight(last, state, tasks, items, fresher);
        OneGivenUp(before, last, state, slots[m..n], slots[n]);
        OneHeld(before, taken, last, state, slots[m..n], slots[n]);
        assert slots[m..n + 1] == slots[m..n] + [slots[n]];
      }
      assert slots[m..|slots|] == slots[m..];
    }

    /** Each entry gets a handle of its own, to which its slot refers. */
    method FillSlots(slots: seq<nat>, tasks: seq<nat>, ghost items: seq<Item>, ghost first: nat, ghost before: State, ghost taken: State,
        ghost steps: seq<Step>) returns (ghost more: seq<Step>)
      requires Valid() && Inv(before) && Leads(before, steps, state) && |items| == |tasks| <= |slots|
      requires (forall i, j :: 0 <= i < j < |slots| ==> slots[i] != slots[j]) && next >= first && forall k :: k in before.cells ==> k < first
      requires InFlight(state, tasks, items, 0)
      requires GivenUp(before, state, slots[|tasks|..]) && Holding(before, taken, state, slots[|tasks|..])
      requires forall i :: |tasks| <= i < |slots| ==> slots[i] !in state.pointers
      modifies this
      ensures Valid() && Leads(before, more, state) && Delivered(state, slots, items, |tasks|)
      ensures var order := slots[|tasks|..] + slots[..|tasks|]; GivenUp(before, state, order) && Holding(before, taken, state, order)
      ensures forall i :: |tasks| <= i < |slots| ==> slots[i] !in state.pointers
    {
      hide Inv, Leads, InFlight, Delivered, GivenUp, Holding, HomeOf, Returned, TasksStay, QueueOf;
      more := steps;
      ghost var beyond := slots[|tasks|..];
      assert beyond + slots[..0] == beyond;
      NoneDelivered(state, slots, items);
      for n := 0 to |tasks|
        invariant Valid() && Leads(before, more, state) && next >= first
        invariant InFlight(state, tasks, items, n) && Delivered(state, slots, items, n)
        invariant GivenUp(before, state, beyond + slots[..n]) && Holding(before, taken, state, beyond + slots[..n])
        invariant forall i :: |tasks| <= i < |slots| ==> slots[i] !in state.pointers
      {
        ghost var last := state;
        FlightTask(state, tasks, items, n);
        more := Wrapped(tasks[n], slots[n], before, more);
        OneDelivered(last, state, tasks, items, slots, n);
        OneReplaced(before, last, state, beyond + slots[..n], slots[n]);
        OneHeld(before, taken, last, state, beyond + slots[..n], slots[n]);
        assert beyond + slots[..n + 1] == beyond + slots[..n] + [slots[n]];
      }
    }

    /** malloc_particle: a frame for every page the allocator gave. */
    method Malloc(pages: seq<nat>, ghost before: State) returns (tasks: seq<nat>, ghost steps: seq<Step>)
      requires Valid() && before == state
      requires (forall i :: 0 <= i < |pages| ==> Apart(state.particles, pages[i], state.pageSize)) && AllBeside(pages, state.pageSize)
      modifies this
      ensures Valid() && Leads(before, steps, state) && |tasks| == |pages|
      ensures var frames := FramesAt(old(next), pages); Fresh(state, tasks, frames, 0) && state.particles == before.particles + AllOf(frames)
      ensures state.pool == before.pool && state.ptoc == before.ptoc && state.pointers == before.pointers && HandlesStay(before, state)
    {
      hide Inv, Leads, Apply, Enabled, Fresh, AllOf, Apart, AllBeside, HandlesStay, FramesAt;
      tasks, steps := [], [];
      ghost var first, frames := next, FramesAt(next, pages);
      NoSteps(state);
      NoneAllocated(state);
      assert frames[..0] == [];
      for n := 0 to |pages|
        invariant Valid() && next == first + n && Leads(before, steps, state) && |tasks| == n && Fresh(state, tasks, frames[..n], 0)
        invariant state.particles == before.particles + AllOf(frames[..n]) && state.pageSize == before.pageSize
        invariant state.pool == before.pool && state.ptoc == before.ptoc && state.pointers == before.pointers && HandlesStay(before, state)
      {
        OneAllocated(before, state, tasks, first, pages, n, next);
        ghost var last := state;
        steps := Do(Allocate(Particle(next, pages[n]), next), before, steps);
        HandlesStayWith(before, last, state, next);
        tasks, next := tasks + [next], next + 1;
      }
      assert frames[..|pages|] == frames;
    }

    /** init_dataPool: num new frames for the pool, or none at all. */
    method InitDataPool(num: nat, memory: Memory) returns (ok: bool, ghost steps: seq<Step>)
      requires Valid() && IsFree(state, memory, num)
      modifies this
      ensures Valid() && Leads(old(state), steps, state)
      ensures state.ptoc == old(state.ptoc) && state.pointers == old(state.pointers) && state.pageSize == old(state.pageSize)
      ensures HandlesStay(old(state), state)
      ensures ok <==> num > 0 && |Pages(memory, state.pageSize, num)| == num
      ensures var frames := if ok then FramesAt(old(next), Pages(memory, state.pageSize, num)) else [];
        state.pool == old(state.pool) + multiset(Entries(frames)) && state.particles == old(state.particles) + AllOf(frames)
    {
      hide Inv, Leads, Apply, Enabled, Fresh, Apart, AllBeside, IsFree, Pages, Entries, HandlesStay, FramesAt, AllOf;
      ghost var before, first := state, next;
      var pages := Pages(memory, state.pageSize, num);
      PagesAreApart(state, memory, num);
      NewFrames(state.particles, first, pages);
      var tasks;
      tasks, steps := Malloc(pages, state);
      ok := num > 0 && |pages| == num;
      if ok {
        steps := Publish(tasks, FramesAt(first, pages), before, steps);
      } else {
        steps := Forget(tasks, FramesAt(first, pages), before, steps);
        NoneAllocated(state);
      }
      SamePageSize(before, steps, state);
    }

    /** P_get_tryBest: grows the pool when it is empty, and tries again. */
    method GetTryBest(pointer: nat, memory: Memory) returns (ok: bool, item: Item, ghost steps: seq<Step>)
      requires Valid() && IsFree(state, memory, 64)
      modifies this
      ensures Valid() && Leads(old(state), steps, state)
      ensures ok <==> old(state.pool) != multiset{} || |Pages(memory, old(state.pageSize), 64)| == 64
      ensures ok ==> Got(old(state), state, pointer, Grown(old(state), old(next), memory), item)
      ensures !ok ==> GaveUp(old(state), state, pointer)
      decreases state.pool == multiset{}
    {
      hide Inv, Leads, IsFree, Pages, FramesAt, Entries, HomeOf, ItemAt, QueueOf, AllOf, HandlesStay, HandedOut, Got, GaveUp;
      ghost var before, number := state, next;
      NotEmptyFrames(state.pool);
      QueuesAre(state);
      if |state.pool| != 0 {
        ok, item, steps := Draw(Pool, pointer);
        DrawnIsGot(before, state, pointer, item);
        return;
      }
      ghost var first, second;
      ok, first := InitDataPool(64, memory);
      ghost var grown := state;
      HomeStays(before, grown, pointer);
      if ok {
        NoMemory(state);
        NotEmptyFrames(state.pool);
        NotEmptyEntries(before.pool, Entries(Grown(before, number, memory)));
        ok, item, second := GetTryBest(pointer, Frames([]));
        GrownIsGot(before, grown, state, pointer, Grown(before, number, memory), item);
      } else {
        item := None;
        second := Send(pointer);
        GivenUpInVain(before, grown, state, pointer);
      }
      Chain(before, first, grown, second, state);
      steps := first + second;
    }

    method Publish(tasks: seq<nat>, ghost frames: seq<Particle>, ghost before: State, ghost steps: seq<Step>) returns (ghost more: seq<Step>)
      requires Valid() && Leads(before, steps, state) && |tasks| == |frames| && Fresh(state, tasks, frames, 0)
      requires HandlesStay(before, state)
      modifies this`state
      ensures Valid() && Leads(before, more, state) && HandlesStay(before, state)
      ensures state.pool == old(state.pool) + multiset(Entries(frames)) && state.ptoc == old(state.ptoc)
      ensures state.pointers == old(state.pointers) && state.particles == old(state.particles)
    {
      hide Inv, Leads, Apply, Enabled, Fresh, Entries, HandlesStay;
      more := steps;
      ghost var start, entries := state, Entries(frames);
      for n := 0 to |tasks|
        invariant Valid() && Leads(before, more, state) && Fresh(state, tasks, frames, n) && HandlesStay(before, state)
        invariant state.pool == start.pool + multiset(entries[..n]) && state.ptoc == start.ptoc
        invariant state.pointers == start.pointers && state.particles == start.particles
      {
        OnePublished(state, tasks, frames, n);
        HandlesStayWithout(before, state, tasks, frames, n);
        more := Do(Put(tasks[n]), before, more);
        assert entries[..n + 1] == entries[..n] + [entries[n]];
      }
      assert entries[..|tasks|] == entries;
    }

    /** The frames made before the allocator gave up are dropped. */
    method Forget(tasks: seq<nat>, ghost frames: seq<Particle>, ghost before: State, ghost steps: seq<Step>) returns (ghost more: seq<Step>)
      requires Valid() && Leads(before, steps, state) && |tasks| == |frames| && Fresh(state, tasks, frames, 0)
      requires state.particles == before.particles + AllOf(frames) && HandlesStay(before, state)
      requires forall i :: 0 <= i < |frames| ==> frames[i] !in before.particles
      requires forall i, j :: 0 <= i < j < |frames| ==> frames[i] != frames[j]
      modifies this`state
      ensures Valid() && Leads(before, more, state) && HandlesStay(before, state)
      ensures state.pool == old(state.pool) && state.ptoc == old(state.ptoc)
      ensures state.pointers == old(state.pointers) && state.particles == before.particles
    {
      hide Inv, Leads, Apply, Enabled, Fresh, AllOf, HandlesStay;
      more := steps;
      ghost var start := state;
      assert frames[0..] == frames;
      for n := 0 to |tasks|
        invariant Valid() && Leads(before, more, state) && Fresh(state, tasks, frames, n) && HandlesStay(before, state)
        invariant state.pool == start.pool && state.ptoc == start.ptoc
        invariant state.pointers == start.pointers && state.particles == before.particles + AllOf(frames[n..])
      {
        OneDiscarded(state, tasks, frames, n, before.particles);
        HandlesStayWithout(before, state, tasks, frames, n);
        more := Do(Discard(tasks[n]), before, more);
      }
      NoneAllocated(state);
      assert frames[|tasks|..] == [];
    }
  }

  lemma OneAllocated(s: State, t: State, tasks: seq<nat>, first: nat, pages: seq<nat>, n: nat, task: nat)
    requires n < |pages| && |tasks| == n && Fresh(t, tasks, FramesAt(first, pages)[..n], 0) && task !in t.cells && task == first + n
    requires t.particles == s.particles + AllOf(FramesAt(first, pages)[..n]) && t.pageSize == s.pageSize
    requires forall p :: p in t.particles ==> p.id < task
    requires (forall i :: 0 <= i < |pages| ==> Apart(s.particles, pages[i], s.pageSize)) && AllBeside(pages, s.pageSize)
    ensures Enabled(t, Allocate(Particle(task, pages[n]), task))
    ensures var u, frames := Apply(t, Allocate(Particle(task, pages[n]), task)), FramesAt(first, pages);
      && Fresh(u, tasks + [task], frames[..n + 1], 0) && u.particles == s.particles + AllOf(frames[..n + 1])
      && u.particles == t.particles + {Particle(task, pages[n])}
      && u.pool == t.pool && u.ptoc == t.ptoc && u.pointers == t.pointers && u.pageSize == t.pageSize
      && u.cells == t.cells[task := Task(Some(Particle(task, pages[n])), Publish)]
  {
    var now, frames, new_ := tasks + [task], FramesAt(first, pages), Particle(task, pages[n]);
    assert frames[..n + 1] == frames[..n] + [new_];
    forall p | p in t.particles
      ensures Disjoint(p, new_, t.pageSize) && p != new_
    {
      if p in s.particles {
        assert Beside(p.address, pages[n], s.pageSize);
      } else {
        var i :| 0 <= i < n && p == frames[i];
        assert Beside(pages[i], pages[n], s.pageSize);
      }
    }
    assert forall i :: 0 <= i < n ==> now[i] == tasks[i] && now[i] != task;
  }

  lemma OnePublished(s: State, tasks: seq<nat>, frames: seq<Particle>, n: nat)
    requires |tasks| == |frames| && n < |tasks| && Fresh(s, tasks, frames, n)
    ensures Enabled(s, Put(tasks[n]))
    ensures var t := Apply(s, Put(tasks[n]));
      && Fresh(t, tasks, frames, n + 1) && t.ptoc == s.ptoc && t.pool == s.pool + multiset{Entries(frames)[n]}
      && t.pointers == s.pointers && t.cells == s.cells - {tasks[n]} && t.particles == s.particles
  {
    PutFacts(s, tasks[n]);
  }

  lemma OneDiscarded(s: State, tasks: seq<nat>, frames: seq<Particle>, n: nat, before: set<Particle>)
    requires |tasks| == |frames| && n < |tasks| && Fresh(s, tasks, frames, n)
    requires s.particles == before + AllOf(frames[n..])
    requires forall i :: 0 <= i < |frames| ==> frames[i] !in before
    requires forall i, j :: 0 <= i < j < |frames| ==> frames[i] != frames[j]
    ensures Enabled(s, Discard(tasks[n]))
    ensures var t := Apply(s, Discard(tasks[n]));
      && Fresh(t, tasks, frames, n + 1) && t.pool == s.pool && t.ptoc == s.ptoc && t.particles <= s.particles
      && t.pointers == s.pointers && t.cells == s.cells - {tasks[n]} && t.particles == before + AllOf(frames[n + 1..])
  {
    assert frames[n..] == [frames[n]] + frames[n + 1..];
    assert frames[n] !in AllOf(frames[n + 1..]);
  }

  lemma NewFrames(particles: set<Particle>, first: nat, pages: seq<nat>)
    requires forall p :: p in particles ==> p.id < first
    ensures var frames := FramesAt(first, pages);
      && (forall i :: 0 <= i < |frames| ==> frames[i] !in particles)
      && (forall i, j :: 0 <= i < j < |frames| ==> frames[i] != frames[j])
  {
  }

  lemma DrawnIsGot(s: State, t: State, pointer: nat, item: Item)
    requires HandedOut(s, t, Pool, item, pointer)
    ensures Got(s, t, pointer, [], item)
  {
    hide HomeOf, ItemAt;
    assert multiset(Entries([])) == multiset{};
    assert s.pool + multiset{} == s.pool;
  }

  lemma GrownIsGot(s: State, grown: State, t: State, pointer: nat, frames: seq<Particle>, item: Item)
    requires grown.pool == s.pool + multiset(Entries(frames)) && grown.ptoc == s.ptoc && grown.pointers == s.pointers
    requires HomeOf(grown, pointer) == HomeOf(s, pointer) && ItemAt(grown, pointer) == ItemAt(s, pointer)
    requires Got(grown, t, pointer, [], item)
    ensures Got(s, t, pointer, frames, item)
  {
    hide HomeOf, ItemAt;
    assert multiset(Entries([])) == multiset{};
    assert grown.pool + multiset{} == grown.pool;
  }

  lemma GivenUpInVain(s: State, grown: State, t: State, pointer: nat)
    requires grown.pool == s.pool + multiset(Entries([])) && grown.ptoc == s.ptoc && grown.pointers == s.pointers
    requires grown.particles == s.particles + AllOf([])
    requires HomeOf(grown, pointer) == HomeOf(s, pointer) && ItemAt(grown, pointer) == ItemAt(s, pointer)
    requires t.pointers == grown.pointers - {pointer} && t.particles == grown.particles
    requires forall w :: QueueOf(t, w) == QueueOf(grown, w) + Returned(grown, pointer, w)
    ensures GaveUp(s, t, pointer)
  {
    hide HomeOf, ItemAt;
    QueuesAre(t);
    QueuesAre(grown);
    assert multiset(Entries([])) == multiset{};
    assert s.pool + multiset{} == s.pool;
  }

  lemma NotEmptyEntries(pool: multiset<Item>, items: seq<Item>)
    requires items != []
    ensures pool + multiset(items) != multiset{}
  {
    assert items[0] in pool + multiset(items);
  }

  lemma HandlesStayWith(s: State, last: State, t: State, task: nat)
    requires HandlesStay(s, last) && task !in last.cells
    requires forall k :: k in last.cells ==> k in t.cells && t.cells[k] == last.cells[k]
    ensures HandlesStay(s, t)
  {
  }

  lemma HandlesStayWithout(s: State, last: State, tasks: seq<nat>, frames: seq<Particle>, n: nat)
    requires |tasks| == |frames| && n < |tasks| && Fresh(last, tasks, frames, n) && HandlesStay(s, last)
    ensures forall t: State :: t.cells == last.cells - {tasks[n]} ==> HandlesStay(s, t)
  {
  }

  lemma HomeStays(s: State, t: State, pointer: nat)
    requires Inv(s) && HandlesStay(s, t) && t.pointers == s.pointers
    ensures HomeOf(t, pointer) == HomeOf(s, pointer) && ItemAt(t, pointer) == ItemAt(s, pointer)
  {
    hide Inv, HomeOf, ItemAt;
    LivePointer(s, pointer);
    SameHome(s, t, pointer);
  }

  lemma OneEnqueued(s: State, held: seq<nat>, items: seq<Item>, n: nat)
    requires |items| == |held| && n < |held| && InTasks(s, held, items, n)
    ensures Enabled(s, Put(held[n]))
    ensures var t := Apply(s, Put(held[n]));
      && InTasks(t, held, items, n + 1) && t.pool == s.pool && t.ptoc == s.ptoc + multiset{items[n]}
      && t.pointers == s.pointers && t.cells == s.cells - {held[n]} && t.particles == s.particles
  {
    PutFacts(s, held[n]);
  }

  lemma NothingReturned(s: State, pv: seq<nat>, n: nat)
    requires Emptied(s, pv) && n < |pv|
    ensures forall w :: Returned(s, pv[n], w) == multiset{}
  {
  }

  lemma StillEmptied(s: State, t: State, pv: seq<nat>, pointer: nat)
    requires Emptied(s, pv) && t.pointers == s.pointers - {pointer}
    requires forall k :: k in t.cells ==> k in s.cells && t.cells[k] == s.cells[k]
    ensures Emptied(t, pv)
  {
  }

  lemma BothQueues(s: State, t: State)
    requires forall w :: QueueOf(t, w) == QueueOf(s, w) + multiset{}
    ensures t.pool == s.pool && t.ptoc == s.ptoc
  {
    assert QueueOf(t, Pool) == QueueOf(s, Pool) && QueueOf(t, PtoC) == QueueOf(s, PtoC);
  }

  lemma MovedToTasks(s: State, t: State, pv: seq<nat>, held: seq<nat>, items: seq<Item>)
    requires (forall j :: 0 <= j < |pv| ==> pv[j] in s.pointers) && MovedFirst(s, t, pv, held, |pv|)
    requires |items| == |pv| && forall i :: 0 <= i < |pv| ==> items[i] == Bulk(s, pv, i)
    ensures |items| == |held| && InTasks(t, held, items, 0) && t.pool == s.pool && t.ptoc == s.ptoc && t.pointers == s.pointers
  {
    hide Bulk;
  }

  lemma StillEmpty(s: State, middle: State, t: State, pv: seq<nat>, held: seq<nat>)
    requires (forall j :: 0 <= j < |pv| ==> pv[j] in s.pointers) && MovedFirst(s, middle, pv, held, |pv|)
    requires t.pointers == middle.pointers
    requires forall k :: k in middle.cells && k !in held ==> k in t.cells && t.cells[k] == middle.cells[k]
    ensures Emptied(t, pv)
  {
    hide Bulk;
    forall j | 0 <= j < |pv|
      ensures s.pointers[pv[j]] !in held
    {
      assert middle.cells[s.pointers[pv[j]]].Handle?;
      assert forall i :: 0 <= i < |held| ==> middle.cells[held[i]].Task?;
    }
  }

  lemma CellsAfterMove(s: State, pointer: nat, task: nat)
    ensures var t := Apply(s, MoveOut(pointer, task)); t.particles == s.particles && forall k :: k in t.cells ==> k in s.cells || k == task
  {
  }

  lemma NoneMoved(s: State, pv: seq<nat>)
    requires forall j :: 0 <= j < |pv| ==> pv[j] in s.pointers
    ensures MovedFirst(s, s, pv, [], 0)
  {
  }

  lemma NoneInFlight(s: State)
    ensures InFlight(s, [], [], 0)
  {
  }

  lemma NoneDelivered(s: State, slots: seq<nat>, items: seq<Item>)
    ensures Delivered(s, slots, items, 0)
  {
  }

  lemma EndOfBulk(s: State, taken: State, t: State, slots: seq<nat>, m: nat, items: seq<Item>)
    requires m <= |slots| && Holding(s, taken, t, slots[m..] + slots[..m])
    requires taken.ptoc + multiset(items) == s.ptoc && taken.pool == s.pool
    ensures multiset(items) <= s.ptoc
    ensures t.pool == s.pool + ReturnedAll(s, slots[m..] + slots[..m], Pool)
    ensures t.ptoc == s.ptoc - multiset(items) + ReturnedAll(s, slots[m..] + slots[..m], PtoC)
  {
    hide ReturnedAll;
    assert s.ptoc - multiset(items) == taken.ptoc;
  }

  lemma FlightTask(s: State, tasks: seq<nat>, items: seq<Item>, n: nat)
    requires |items| == |tasks| && n < |tasks| && InFlight(s, tasks, items, n)
    ensures tasks[n] in s.cells && s.cells[tasks[n]] == Task(items[n], Wrap(Pool))
  {
  }

  lemma NoneAllocated(s: State)
    ensures Fresh(s, [], [], 0) && AllOf([]) == {} && Entries([]) == [] && HandlesStay(s, s)
  {
  }

  lemma QueuesAre(s: State)
    ensures QueueOf(s, Pool) == s.pool && QueueOf(s, PtoC) == s.ptoc
  {
  }

  lemma NoMemory(s: State)
    ensures IsFree(s, Frames([]), 64) && Pages(Frames([]), s.pageSize, 64) == []
  {
  }

  lemma NotEmptyFrames(items: multiset<Item>)
    ensures |items| == 0 <==> items == multiset{}
  {
  }

  lemma NoSteps(s: State)
    ensures Leads(s, [], s)
  {
  }

  /** What a release followed by the destructor's enqueueing makes of a queue. */
  lemma Reached(s: State, middle: State, t: State, pointer: nat, w: Which)
    requires forall v :: QueueOf(middle, v) == QueueOf(s, v)
    requires HomeOf(s, pointer).None? ==> t == middle
    requires HomeOf(s, pointer).Some? ==>
      var home := HomeOf(s, pointer).value;
      QueueOf(t, home) == QueueOf(middle, home) + multiset{ItemAt(s, pointer)} && QueueOf(t, Other(home)) == QueueOf(middle, Other(home))
    ensures QueueOf(t, w) == QueueOf(s, w) + Returned(s, pointer, w)
  {
    hide HomeOf, ItemAt, QueueOf;
    if HomeOf(s, pointer).Some? && w != HomeOf(s, pointer).value {
      assert w == Other(HomeOf(s, pointer).value);
    }
  }
}
