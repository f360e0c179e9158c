/** The surface-ID allocator: a fixed table, a recycle stack and a high-water mark. */
module SurfaceIds {
  import opened Wrappers
  import Pools

  const MAX_SURFACES := 4096

  /** `live` are the IDs with a table entry, `free` the recycle stack (popped from the end), `next` the
    * last ID ever handed out. */
  datatype Table = Table(live: set<nat>, free: seq<nat>, next: nat)

  const EMPTY := Table({}, [], 0)

  /** Every ID in 1..next is either live or on the recycle stack, and on the stack at most once. */
  ghost predicate Conserves(t: Table) {
    && t.next < MAX_SURFACES
    && Pools.NoDup(t.free)
    && (forall id :: id in t.live ==> 1 <= id <= t.next)
    && (forall id :: id in t.free ==> 1 <= id <= t.next && id !in t.live)
    && (forall id :: 1 <= id <= t.next ==> id in t.live || id in t.free)
  }

  /** The IDs the allocator can still hand out. */
  ghost function Available(t: Table): set<nat> {
    set id: nat | id < MAX_SURFACES && (id in t.free || id > t.next)
  }

  function Push(free: seq<nat>, id: nat): seq<nat> {
    if id >= MAX_SURFACES || |free| >= MAX_SURFACES || id in free then free else free + [id]
  }

  /** Recycle an ID or take the next one; never index past the table. */
  function TakeId(t: Table): Option<(nat, Table)> {
    if |t.free| > 0 then Some((t.free[|t.free| - 1], t.(free := t.free[..|t.free| - 1])))
    else if t.next + 1 < MAX_SURFACES then Some((t.next + 1, t.(next := t.next + 1)))
    else None
  }

  function DestroyOne(t: Table, id: nat): Table {
    if id !in t.live then t else t.(live := t.live - {id}, free := Push(t.free, id))
  }

  function Destroy(t: Table, ids: seq<nat>): Table
    decreases |ids|
  {
    if ids == [] then t else Destroy(DestroyOne(t, ids[0]), ids[1..])
  }

  /** The batch create from its `|created|`-th surface on: `allocs` are the outcomes of the allocations. A
    * failure destroys the surfaces this call has created. */
  function CreateFrom(t: Table, n: nat, allocs: seq<bool>, created: seq<nat>): (Table, Option<seq<nat>>)
    decreases n
  {
    if n == 0 then (t, Some(created))
    else if allocs == [] || !allocs[0] then (Destroy(t, created), None) else
    var taken := TakeId(t);
    if taken.None? then (Destroy(t, created), None) else
    var (id, t1) := taken.value;
    if id in t1.live then (Destroy(t1, created), None)
    else CreateFrom(t1.(live := t1.live + {id}), n - 1, allocs[1..], created + [id])
  }

  function Create(t: Table, n: nat, allocs: seq<bool>): (Table, Option<seq<nat>>) {
    CreateFrom(t, n, allocs, [])
  }

  // ----- conservation

  lemma RecycleFits(t: Table, id: nat)
    requires Conserves(t) && id in t.live
    ensures Push(t.free, id) == t.free + [id] && Pools.NoDup(t.free + [id])
  {
    var s := seq(|t.free|, i requires 0 <= i < |t.free| => t.free[i] as int);
    forall x | x in s ensures 0 <= x < MAX_SURFACES {
      var i :| 0 <= i < |s| && s[i] == x;
      assert t.free[i] in t.free;
    }
    Pools.Pigeonhole(s + [0], MAX_SURFACES) by {
      forall x | x in s + [0] ensures 0 <= x < MAX_SURFACES {}
      forall i | 0 <= i < |s| ensures s[i] != 0 { assert t.free[i] in t.free; }
    }
  }

  lemma DestroyOneConserves(t: Table, id: nat)
    requires Conserves(t)
    ensures Conserves(DestroyOne(t, id)) && DestroyOne(t, id).live == t.live - {id}
    ensures Available(DestroyOne(t, id)) == Available(t) + (if id in t.live then {id} else {})
  {
    if id in t.live {
      RecycleFits(t, id);
    }
  }

  /** Destroying frees exactly the listed live IDs, duplicates and unknown IDs included in the list. */
  lemma {:induction false} DestroyConserves(t: Table, ids: seq<nat>)
    requires Conserves(t)
    ensures var u := Destroy(t, ids);
            && Conserves(u) && u.next == t.next
            && u.live == t.live - (set id | id in ids)
            && Available(u) == Available(t) + (set id | id in ids && id in t.live)
    decreases |ids|
  {
    if ids != [] {
      DestroyOneConserves(t, ids[0]);
      DestroyConserves(DestroyOne(t, ids[0]), ids[1..]);
      assert ids == [ids[0]] + ids[1..];
    }
  }

  /** The ID taken was available and is not live; nothing else changes. */
  lemma TakeConserves(t: Table)
    requires Conserves(t)
    ensures TakeId(t).None? <==> Available(t) == {}
    ensures TakeId(t).Some? ==>
              var (id, t1) := TakeId(t).value;
              && id in Available(t) && id !in t1.live && t1.live == t.live
              && Conserves(t1.(live := t1.live + {id}))
              && Available(t1.(live := t1.live + {id})) == Available(t) - {id}
  {
    if |t.free| > 0 {
      var last, rest := t.free[|t.free| - 1], t.free[..|t.free| - 1];
      assert t.free == rest + [last];
      assert last in t.free && last in Available(t);
      assert forall x :: x in rest ==> x in t.free && x != last;
    } else if t.next + 1 < MAX_SURFACES {
      assert t.next + 1 in Available(t);
    }
  }

  ghost predicate FirstOk(allocs: seq<bool>, n: nat) {
    n <= |allocs| && forall i :: 0 <= i < n ==> allocs[i]
  }

  lemma FirstOkStep(allocs: seq<bool>, n: nat)
    requires n > 0
    ensures FirstOk(allocs, n) <==> allocs != [] && allocs[0] && FirstOk(allocs[1..], n - 1)
  {
    if allocs != [] && allocs[0] && FirstOk(allocs[1..], n - 1) {
      forall i | 0 <= i < n ensures allocs[i] {
        if i > 0 { assert allocs[i] == allocs[1..][i - 1]; }
      }
    }
  }

  /** A failed batch has given back everything in `created`. */
  ghost predicate RolledBack(t: Table, created: seq<nat>, u: Table) {
    && u.live == t.live - (set id | id in created)
    && Available(u) == Available(t) + (set id | id in created)
  }

  /** A finished batch has added distinct, formerly available IDs to `created`. */
  ghost predicate Extended(t: Table, created: seq<nat>, n: nat, u: Table, ids: seq<nat>) {
    && |ids| == |created| + n && created <= ids
    && u.live == t.live + (set id | id in ids)
    && (forall i :: |created| <= i < |ids| ==> ids[i] in Available(t))
    && (forall i, j :: |created| <= i < j < |ids| ==> ids[i] != ids[j])
  }

  lemma RollBack(t: Table, created: seq<nat>)
    requires Conserves(t) && forall id :: id in created ==> id in t.live
    ensures Conserves(Destroy(t, created)) && RolledBack(t, created, Destroy(t, created))
  {
    DestroyConserves(t, created);
    assert (set id | id in created && id in t.live) == (set id | id in created);
  }

  /** One more surface created: what holds of the rest of the batch holds of the whole. */
  lemma Widen(t: Table, t2: Table, created: seq<nat>, id: nat, n: nat, u: Table, r: Option<seq<nat>>)
    requires id in Available(t) && t2.live == t.live + {id} && Available(t2) == Available(t) - {id}
    requires id !in t.live && id !in created && n > 0
    requires r.None? ==> RolledBack(t2, created + [id], u)
    requires r.Some? ==> Extended(t2, created + [id], n - 1, u, r.value)
    ensures r.None? ==> RolledBack(t, created, u)
    ensures r.Some? ==> Extended(t, created, n, u, r.value)
  {
    assert (set x | x in created + [id]) == (set x | x in created) + {id};
    if r.Some? {
      var ids := r.value;
      assert ids[|created|] == (created + [id])[|created|] == id;
      assert created <= ids;
      forall i | |created| <= i < |ids| ensures ids[i] in Available(t) {}
      forall i, j | |created| <= i < j < |ids| ensures ids[i] != ids[j] {}
    }
  }

  /** The batch, from any point on. */
  lemma {:induction false} CreateFromConserves(t: Table, n: nat, allocs: seq<bool>, created: seq<nat>)
    requires Conserves(t) && forall id :: id in created ==> id in t.live
    ensures var (u, r) := CreateFrom(t, n, allocs, created);
            && Conserves(u)
            && (r.Some? <==> FirstOk(allocs, n) && n <= |Available(t)|)
            && (r.None? ==> RolledBack(t, created, u))
            && (r.Some? ==> Extended(t, created, n, u, r.value))
    decreases n
  {
    hide Available, Conserves;
    if n > 0 {
      hide RolledBack, Extended, FirstOk;
      FirstOkStep(allocs, n);
      RollBack(t, created);
      TakeConserves(t);
      if allocs != [] && allocs[0] && TakeId(t).Some? {
        var (id, t1) := TakeId(t).value;
        var t2 := t1.(live := t1.live + {id});
        assert |Available(t2)| == |Available(t)| - 1;
        CreateFromConserves(t2, n - 1, allocs[1..], created + [id]);
        var (u, r) := CreateFrom(t2, n - 1, allocs[1..], created + [id]);
        Widen(t, t2, created, id, n, u, r);
      }
    } else {
      assert (set id | id in created) <= t.live;
    }
  }

  /** Main result for a batch: it succeeds if and only if all its allocations do and enough IDs are left;
    * a failed one leaves the live IDs and the available IDs exactly as they were. */
  lemma CreateConserves(t: Table, n: nat, allocs: seq<bool>)
    requires Conserves(t)
    ensures var (u, r) := Create(t, n, allocs);
            && Conserves(u)
            && (r.Some? <==> FirstOk(allocs, n) && n <= |Available(t)|)
            && (r.None? ==> u.live == t.live && Available(u) == Available(t))
            && (r.Some? ==> |r.value| == n && u.live == t.live + (set id | id in r.value)
                            && (forall i :: 0 <= i < n ==> r.value[i] !in t.live)
                            && (forall i, j :: 0 <= i < j < n ==> r.value[i] != r.value[j]))
  {
    CreateFromConserves(t, n, allocs, []);
  }

  // ----- runs

  datatype Event = CreateBatch(n: nat, allocs: seq<bool>) | DestroyBatch(ids: seq<nat>)

  function Run(t: Table, es: seq<Event>): Table
    decreases |es|
  {
    if es == [] then t else
    Run(match es[0]
        case CreateBatch(n, allocs) => Create(t, n, allocs).0
        case DestroyBatch(ids) => Destroy(t, ids), es[1..])
  }

  /** Main result, whole runs: after any sequence of creates, failed creates and destroys, every ID ever
    * handed out is either live or on the recycle stack exactly once. */
  lemma {:induction false} RunConserves(t: Table, es: seq<Event>)
    requires Conserves(t)
    ensures Conserves(Run(t, es))
    decreases |es|
  {
    if es != [] {
      match es[0]
      case CreateBatch(n, allocs) =>
        CreateConserves(t, n, allocs);
        RunConserves(Create(t, n, allocs).0, es[1..]);
      case DestroyBatch(ids) =>
        DestroyConserves(t, ids);
        RunConserves(Destroy(t, ids), es[1..]);
    }
  }

  // ----- the table in place

  /** The surface table of the driver: each entry is empty or a surface, of which only its surface_id is kept
    * here. */
  class SurfaceTable {
    const entries: array<Option<nat>>
    const freeIds: array<nat>
    var nFree: nat
    var nextId: nat

    ghost predicate Valid()
      reads this, entries
    {
      && entries.Length == MAX_SURFACES && freeIds.Length == MAX_SURFACES && nFree <= MAX_SURFACES
      && forall i :: 0 <= i < MAX_SURFACES && entries[i].Some? ==> entries[i].value == i
    }

    /** The IDs of the surfaces in the table. */
    ghost function Live(): set<nat>
      requires Valid()
      reads this, entries
    {
      set i | 0 <= i < MAX_SURFACES && entries[i].Some? :: entries[i].value
    }

    lemma LiveIs(id: nat)
      requires Valid()
      ensures id in Live() <==> id < MAX_SURFACES && entries[id].Some?
    {
    }

    ghost function View(): Table
      requires Valid()
      reads this, entries, freeIds
    {
      Table(Live(), freeIds[..nFree], nextId)
    }

    constructor ()
      ensures Valid() && View() == EMPTY && fresh(entries) && fresh(freeIds)
    {
      entries := new Option<nat>[MAX_SURFACES](i => None);
      freeIds := new nat[MAX_SURFACES](i => 0);
      nFree, nextId := 0, 0;
    }

    method PushId(id: nat)
      requires Valid()
      modifies this`nFree, freeIds
      ensures Valid() && View() == old(View()).(free := Push(old(View()).free, id))
    {
      if id >= MAX_SURFACES || nFree >= MAX_SURFACES {
        return;
      }
      for i := 0 to nFree
        invariant id !in freeIds[..i]
      {
        if freeIds[i] == id {
          assert id in freeIds[..nFree];
          return;
        }
      }
      freeIds[nFree] := id;
      nFree := nFree + 1;
    }

    /** v4l2sl_surface_by_id: a live ID finds the surface that carries it, any other ID finds none. */
    method SurfaceById(id: nat) returns (r: Option<nat>)
      requires Valid()
      ensures r == if id in View().live then Some(id) else None
    {
      LiveIs(id);
      if id >= MAX_SURFACES {
        return None;
      }
      return entries[id];
    }

    /** The entry of `id` is emptied, or filled with a surface that carries it. */
    method SetEntry(id: nat, entry: Option<nat>)
      requires Valid() && id < MAX_SURFACES && (entry.Some? ==> entry.value == id)
      modifies entries
      ensures Valid() && View() == old(View()).(live := if entry.Some? then old(Live()) + {id} else old(Live()) - {id})
    {
      entries[id] := entry;
      assert Valid();
      forall x: nat ensures x in Live() <==> if x == id then entry.Some? else x in old(Live()) { LiveIs(x); }
    }

    method DestroySurfaces(ids: seq<nat>)
      requires Valid()
      modifies this`nFree, entries, freeIds
      ensures Valid() && View() == Destroy(old(View()), ids)
    {
      for i := 0 to |ids|
        invariant Valid() && Destroy(View(), ids[i..]) == Destroy(old(View()), ids)
      {
        assert ids[i..][1..] == ids[i + 1..];
        var surface := SurfaceById(ids[i]);
        if surface.Some? {
          LiveIs(ids[i]);
          SetEntry(ids[i], None);
          PushId(ids[i]);
        }
      }
    }

    method TakeFreeId() returns (id: Option<nat>)
      requires Valid()
      modifies this`nFree, this`nextId
      ensures Valid()
      ensures TakeId(old(View())) == if id.Some? then Some((id.value, View())) else None
      ensures id.None? ==> View() == old(View())
    {
      if nFree > 0 {
        nFree := nFree - 1;
        assert freeIds[..nFree] == freeIds[..nFree + 1][..nFree] && Live() == old(Live());
        return Some(freeIds[nFree]);
      }
      if nextId + 1 < MAX_SURFACES {
        nextId := nextId + 1;
        assert Live() == old(Live());
        return Some(nextId);
      }
      return None;
    }

    /** One surface of a batch: an ID is taken and its entry, which must be empty, is filled. */
    method AddSurface() returns (id: Option<nat>)
      requires Valid() && Conserves(View())
      modifies this`nFree, this`nextId, entries
      ensures Valid() && Conserves(View()) && (id.None? <==> TakeId(old(View())).None?)
      ensures id.None? ==> View() == old(View())
      ensures id.Some? ==> var (taken, t1) := TakeId(old(View())).value;
                           id.value == taken && taken !in t1.live && View() == t1.(live := t1.live + {taken})
    {
      TakeConserves(View());
      id := TakeFreeId();
      if id.Some? { LiveIs(id.value); }
      if id.None? || entries[id.value].Some? {
        return None;
      }
      SetEntry(id.value, id);
    }

    method CreateSurfaces(n: nat, allocs: seq<bool>) returns (ids: Option<seq<nat>>)
      requires Valid() && Conserves(View())
      modifies this, entries, freeIds
      ensures Valid() && Conserves(View()) && (View(), ids) == Create(old(View()), n, allocs)
    {
      hide Conserves, TakeId, Destroy;
      CreateConserves(View(), n, allocs);
      var created: seq<nat> := [];
      for i := 0 to n
        invariant Valid() && i <= |allocs| && Conserves(View())
        invariant CreateFrom(View(), n - i, allocs[i..], created) == Create(old(View()), n, allocs)
      {
        if i >= |allocs| || !allocs[i] {
          DestroySurfaces(created);
          return None;
        }
        var id := AddSurface();
        if id.None? {
          DestroySurfaces(created);
          return None;
        }
        assert allocs[i..][1..] == allocs[i + 1..];
        created := created + [id.value];
      }
      return Some(created);
    }
  }
}
