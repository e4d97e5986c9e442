/**
 * The value of one signaling room: its sharer slot, its member table and its age.
 *
 * The member table is the room's `viewers` Map, which holds the sharer's own entry
 * too (with role Sharer). A JavaScript Map keeps its keys in insertion order, and
 * the table is keyed by a peer's own id, so it is modelled as a sequence of peers
 * with pairwise distinct ids: `Put` is `Map.set` (overwrite in place, or append a
 * new key at the end) and `Delete` is `Map.delete`.
 */
module RoomState {
  import opened Maybe

  datatype Role = Sharer | Viewer

  datatype Peer = Peer(id: string, role: Role, joinedAt: int)

  datatype Room = Room(sessionId: string, sharerId: Option<string>, members: seq<Peer>, createdAt: int)

  /** A sharer-less room idle for longer than this many milliseconds is swept. */
  const INACTIVE_ROOM_MS: int := 5 * 60 * 1000

  /** How often the sweep runs, in milliseconds (the period of the cleanup timer). */
  const CLEANUP_INTERVAL_MS: int := 60 * 1000

  // ---------------------------------------------------------------------------
  // The member table as an insertion-ordered map keyed by peer id
  // ---------------------------------------------------------------------------

  /** `viewers.has(id)` */
  predicate Has(ms: seq<Peer>, id: string)
  {
    ms != [] && (ms[0].id == id || Has(ms[1..], id))
  }

  /** A key is present exactly when some entry carries it. */
  lemma {:induction false} HasIff(ms: seq<Peer>, id: string)
    ensures Has(ms, id) <==> exists p :: p in ms && p.id == id
  {
    if ms != [] {
      assert ms == [ms[0]] + ms[1..];
      HasIff(ms[1..], id);
    }
  }

  /** No id is a key twice: what makes a sequence of peers a Map keyed by id. */
  predicate DistinctIds(ms: seq<Peer>)
  {
    |ms| == 0 || (!Has(ms[1..], ms[0].id) && DistinctIds(ms[1..]))
  }

  /** `viewers.set(p.id, p)`: a new key goes at the end, an existing key keeps its place. */
  function Put(ms: seq<Peer>, p: Peer): seq<Peer>
  {
    if ms == [] then [p]
    else if ms[0].id == p.id then [p] + ms[1..]
    else [ms[0]] + Put(ms[1..], p)
  }

  /** `viewers.delete(id)` */
  function Delete(ms: seq<Peer>, id: string): seq<Peer>
  {
    if ms == [] then []
    else if ms[0].id == id then Delete(ms[1..], id)
    else [ms[0]] + Delete(ms[1..], id)
  }

  /**
   * Map.set on a table with distinct ids: an absent key is appended, a present
   * key is overwritten where it stands, ids stay distinct, and the entries are
   * the new one plus every old entry under another id.
   */
  lemma {:induction false} PutSpec(ms: seq<Peer>, p: Peer)
    ensures !Has(ms, p.id) ==> Put(ms, p) == ms + [p]
    ensures DistinctIds(ms) && Has(ms, p.id) ==>
      |Put(ms, p)| == |ms| &&
      forall i :: 0 <= i < |ms| ==> Put(ms, p)[i] == if ms[i].id == p.id then p else ms[i]
    ensures DistinctIds(ms) ==> DistinctIds(Put(ms, p))
    ensures DistinctIds(ms) ==> forall q :: q in Put(ms, p) <==> q == p || (q in ms && q.id != p.id)
  {
    if ms == [] {
      assert Put(ms, p) == [p] == ms + [p];
      assert [p][1..] == [];
    } else if ms[0].id == p.id {
      var r := Put(ms, p);
      assert r == [p] + ms[1..] && r[1..] == ms[1..];
      HasIff(ms[1..], p.id);
      assert ms == [ms[0]] + ms[1..];
      if DistinctIds(ms) {
        forall i | 0 <= i < |ms| ensures r[i] == if ms[i].id == p.id then p else ms[i] {
          if i > 0 {
            assert ms[i] == ms[1..][i - 1] && ms[i] in ms[1..];
          }
        }
      }
    } else {
      PutSpec(ms[1..], p);
      var rest := Put(ms[1..], p);
      assert Put(ms, p) == [ms[0]] + rest && Put(ms, p)[1..] == rest;
      assert ms == [ms[0]] + ms[1..];
      if DistinctIds(ms) {
        HasIff(ms[1..], ms[0].id);
        HasIff(rest, ms[0].id);
        assert !Has(rest, ms[0].id);
      }
      if Has(ms, p.id) && DistinctIds(ms) {
        var r := Put(ms, p);
        forall i | 0 <= i < |ms| ensures r[i] == if ms[i].id == p.id then p else ms[i] {
          if i > 0 {
            assert ms[i] == ms[1..][i - 1] && r[i] == rest[i - 1];
          }
        }
      }
    }
  }

  /**
   * Map.delete: the entries are the old ones under other ids, the key is gone,
   * an absent key changes nothing, and one entry less when it was present.
   */
  lemma {:induction false} DeleteSpec(ms: seq<Peer>, id: string)
    ensures forall q :: q in Delete(ms, id) <==> q in ms && q.id != id
    ensures !Has(Delete(ms, id), id)
    ensures !Has(ms, id) ==> Delete(ms, id) == ms
    ensures DistinctIds(ms) ==> DistinctIds(Delete(ms, id))
    ensures DistinctIds(ms) ==> |Delete(ms, id)| == if Has(ms, id) then |ms| - 1 else |ms|
  {
    if ms != [] {
      DeleteSpec(ms[1..], id);
      var rest := Delete(ms[1..], id);
      assert ms == [ms[0]] + ms[1..];
      if ms[0].id == id {
        assert Delete(ms, id) == rest;
        HasIff(ms[1..], id);
      } else {
        var r := Delete(ms, id);
        assert r == [ms[0]] + rest && r[1..] == rest;
        if DistinctIds(ms) {
          HasIff(ms[1..], ms[0].id);
          HasIff(rest, ms[0].id);
        }
      }
    }
  }

  /** Two entries of a table with distinct ids that share an id are the same entry. */
  lemma {:induction false} UniqueEntry(ms: seq<Peer>, p: Peer, q: Peer)
    requires DistinctIds(ms) && p in ms && q in ms && p.id == q.id
    ensures p == q
  {
    assert ms == [ms[0]] + ms[1..];
    HasIff(ms[1..], ms[0].id);
    if p != ms[0] && q != ms[0] {
      UniqueEntry(ms[1..], p, q);
    }
  }

  // ---------------------------------------------------------------------------
  // Viewer ids: what getViewerIds lists and getViewerCount counts
  // ---------------------------------------------------------------------------

  /** The ids of the role-Viewer entries, in table order (the sharer's entry is skipped). */
  function ViewerIds(ms: seq<Peer>): seq<string>
  {
    if ms == [] then []
    else (if ms[0].role == Viewer then [ms[0].id] else []) + ViewerIds(ms[1..])
  }

  /** An id is listed exactly when some entry under it has role Viewer; never more ids than entries. */
  lemma {:induction false} ViewerIdsMembers(ms: seq<Peer>)
    ensures |ViewerIds(ms)| <= |ms|
    ensures forall x :: x in ViewerIds(ms) <==> exists q :: q in ms && q.id == x && q.role == Viewer
  {
    if ms != [] {
      assert ms == [ms[0]] + ms[1..];
      ViewerIdsMembers(ms[1..]);
    }
  }

  predicate NoDuplicates(s: seq<string>)
  {
    forall i, j :: 0 <= i < j < |s| ==> s[i] != s[j]
  }

  /** Listing viewers distributes over splitting the table: the step of a loop over the entries. */
  lemma {:induction false} ViewerIdsConcat(a: seq<Peer>, b: seq<Peer>)
    ensures ViewerIds(a + b) == ViewerIds(a) + ViewerIds(b)
  {
    if a == [] {
      assert a + b == b;
    } else {
      assert (a + b)[1..] == a[1..] + b;
      ViewerIdsConcat(a[1..], b);
    }
  }

  /** A table with distinct ids lists every viewer once. */
  lemma {:induction false} ViewerIdsNoDuplicates(ms: seq<Peer>)
    requires DistinctIds(ms)
    ensures NoDuplicates(ViewerIds(ms))
  {
    if ms != [] {
      ViewerIdsNoDuplicates(ms[1..]);
      var tail := ViewerIds(ms[1..]);
      if ms[0].role == Viewer {
        ViewerIdsMembers(ms[1..]);
        HasIff(ms[1..], ms[0].id);
        assert ms[0].id !in tail;
        var ids := [ms[0].id] + tail;
        forall i, j | 0 <= i < j < |ids| ensures ids[i] != ids[j] {
          if i == 0 {
            assert ids[j] == tail[j - 1];
          } else {
            assert ids[i] == tail[i - 1] && ids[j] == tail[j - 1];
          }
        }
      }
    }
  }

  /** Adding a fresh id as a viewer appends exactly that id to the viewer list. */
  lemma {:induction false} ViewerIdsAfterAdd(ms: seq<Peer>, id: string, now: int)
    requires !Has(ms, id)
    ensures ViewerIds(Put(ms, Peer(id, Viewer, now))) == ViewerIds(ms) + [id]
  {
    PutSpec(ms, Peer(id, Viewer, now));
    ViewerIdsConcat(ms, [Peer(id, Viewer, now)]);
  }

  /** Claiming the sharer slot removes the claimer from the viewer list (if it was a viewer) and adds no one. */
  lemma {:induction false} ViewerIdsAfterClaim(ms: seq<Peer>, id: string, now: int)
    requires DistinctIds(ms)
    ensures ViewerIds(Put(ms, Peer(id, Sharer, now))) == ViewerIds(Delete(ms, id))
  {
    if ms != [] {
      assert ms == [ms[0]] + ms[1..];
      if ms[0].id == id {
        DeleteSpec(ms[1..], id);
        assert Delete(ms, id) == Delete(ms[1..], id) == ms[1..];
      } else {
        ViewerIdsAfterClaim(ms[1..], id, now);
      }
    }
  }

  /** Deleting an id lowers the viewer count by one exactly when that id was listed as a viewer. */
  lemma {:induction false} ViewerCountAfterDelete(ms: seq<Peer>, id: string)
    requires DistinctIds(ms)
    ensures |ViewerIds(Delete(ms, id))| == if id in ViewerIds(ms) then |ViewerIds(ms)| - 1 else |ViewerIds(ms)|
  {
    if ms != [] {
      assert ms == [ms[0]] + ms[1..];
      ViewerCountAfterDelete(ms[1..], id);
      if ms[0].id == id {
        ViewerIdsMembers(ms[1..]);
        HasIff(ms[1..], id);
        assert id !in ViewerIds(ms[1..]);
      }
    }
  }

  // ---------------------------------------------------------------------------
  // Room transitions, one per registry mutation, and the invariants they keep
  // ---------------------------------------------------------------------------

  /** The room `getOrCreateRoom` makes: no sharer, no members, created now. */
  function NewRoom(sessionId: string, now: int): Room
  {
    Room(sessionId, None, [], now)
  }

  /** `setSharer` once the slot is free: take the slot and write a sharer entry. */
  function Claimed(r: Room, id: string, now: int): Room
  {
    r.(sharerId := Some(id), members := Put(r.members, Peer(id, Sharer, now)))
  }

  /** `removeSharer` by the current sharer: free the slot and drop its entry. */
  function Released(r: Room, id: string): Room
  {
    r.(sharerId := None, members := Delete(r.members, id))
  }

  /** `addViewer` of an id not yet in the table. */
  function WithViewer(r: Room, id: string, now: int): Room
  {
    r.(members := Put(r.members, Peer(id, Viewer, now)))
  }

  /** `removeViewer`'s deletion, whatever the role of the entry. */
  function WithoutMember(r: Room, id: string): Room
  {
    r.(members := Delete(r.members, id))
  }

  /**
   * The one-sharer invariant. Every sharer-role entry is keyed by `sharerId`, and
   * a set `sharerId` has its sharer-role entry: a free slot means no sharer entry
   * at all, a taken slot exactly one (ids being distinct).
   */
  ghost predicate OneSharer(r: Room)
  {
    && (forall q :: q in r.members && q.role == Sharer ==> r.sharerId == Some(q.id))
    && (r.sharerId.Some? ==> exists q :: q in r.members && q.id == r.sharerId.value && q.role == Sharer)
  }

  /**
   * Claiming: ids stay distinct, the claimer's sharer entry is in the table, no
   * viewer is added (the claimer's own viewer entry, if any, is overwritten), and
   * the invariant is kept when the slot was free.
   */
  lemma ClaimPreserves(r: Room, id: string, now: int)
    requires DistinctIds(r.members)
    ensures DistinctIds(Claimed(r, id, now).members)
    ensures Peer(id, Sharer, now) in Claimed(r, id, now).members
    ensures ViewerIds(Claimed(r, id, now).members) == ViewerIds(Delete(r.members, id))
    ensures |ViewerIds(Claimed(r, id, now).members)| <= |ViewerIds(r.members)|
    ensures OneSharer(r) && r.sharerId.None? ==> OneSharer(Claimed(r, id, now))
  {
    PutSpec(r.members, Peer(id, Sharer, now));
    ViewerIdsAfterClaim(r.members, id, now);
    ViewerCountAfterDelete(r.members, id);
  }

  /** Releasing: ids stay distinct, the sharer's entry is gone, and the invariant is kept. */
  lemma ReleasePreserves(r: Room, id: string)
    requires DistinctIds(r.members)
    ensures DistinctIds(Released(r, id).members) && !Has(Released(r, id).members, id)
    ensures OneSharer(r) && r.sharerId == Some(id) ==> OneSharer(Released(r, id))
  {
    DeleteSpec(r.members, id);
  }

  /** Adding a fresh viewer: ids stay distinct, its id is appended to the viewer list, and the invariant is kept. */
  lemma AddViewerPreserves(r: Room, id: string, now: int)
    requires DistinctIds(r.members) && !Has(r.members, id)
    ensures DistinctIds(WithViewer(r, id, now).members)
    ensures ViewerIds(WithViewer(r, id, now).members) == ViewerIds(r.members) + [id]
    ensures OneSharer(r) ==> OneSharer(WithViewer(r, id, now))
  {
    PutSpec(r.members, Peer(id, Viewer, now));
    ViewerIdsAfterAdd(r.members, id, now);
    if OneSharer(r) && r.sharerId.Some? {
      var q :| q in r.members && q.id == r.sharerId.value && q.role == Sharer;
      assert q in WithViewer(r, id, now).members;
    }
  }

  /**
   * Removing an entry: ids stay distinct, the viewer count drops by one exactly
   * when the id was a viewer, and the invariant is kept unless the entry removed
   * is the sharer's own.
   */
  lemma RemoveMemberPreserves(r: Room, id: string)
    requires DistinctIds(r.members)
    ensures DistinctIds(WithoutMember(r, id).members)
    ensures |ViewerIds(WithoutMember(r, id).members)| ==
      if id in ViewerIds(r.members) then |ViewerIds(r.members)| - 1 else |ViewerIds(r.members)|
    ensures OneSharer(r) && r.sharerId != Some(id) ==> OneSharer(WithoutMember(r, id))
  {
    DeleteSpec(r.members, id);
    ViewerCountAfterDelete(r.members, id);
    if OneSharer(r) && r.sharerId.Some? && r.sharerId != Some(id) {
      var q :| q in r.members && q.id == r.sharerId.value && q.role == Sharer;
      assert q in WithoutMember(r, id).members;
    }
  }

  /** Under the invariant, the sharer is never listed (or counted) as a viewer. */
  lemma SharerNotAViewer(r: Room)
    requires DistinctIds(r.members) && OneSharer(r) && r.sharerId.Some?
    ensures r.sharerId.value !in ViewerIds(r.members)
  {
    var s := r.sharerId.value;
    var q :| q in r.members && q.id == s && q.role == Sharer;
    ViewerIdsMembers(r.members);
    if s in ViewerIds(r.members) {
      var v :| v in r.members && v.id == s && v.role == Viewer;
      UniqueEntry(r.members, q, v);
    }
  }

  // ---------------------------------------------------------------------------
  // Inactivity, as the sweeper judges it
  // ---------------------------------------------------------------------------

  function Max(a: int, b: int): int
  {
    if a >= b then a else b
  }

  /** `entries.reduce((t, p) => Math.max(t, p.joinedAt), acc)` */
  function LatestJoin(ms: seq<Peer>, acc: int): int
  {
    if ms == [] then acc else LatestJoin(ms[1..], Max(acc, ms[0].joinedAt))
  }

  /** The fold is the maximum of the seed and of every entry's join time. */
  lemma {:induction false} LatestJoinIsMax(ms: seq<Peer>, acc: int)
    ensures LatestJoin(ms, acc) >= acc
    ensures forall q :: q in ms ==> LatestJoin(ms, acc) >= q.joinedAt
    ensures LatestJoin(ms, acc) == acc || exists q :: q in ms && LatestJoin(ms, acc) == q.joinedAt
  {
    if ms != [] {
      assert ms == [ms[0]] + ms[1..];
      LatestJoinIsMax(ms[1..], Max(acc, ms[0].joinedAt));
    }
  }

  /** A room with a (truthy) sharer is active now; otherwise its latest join or its creation. */
  function LastActivity(r: Room, now: int): int
  {
    if Truthy(r.sharerId) then now else LatestJoin(r.members, r.createdAt)
  }

  predicate IsInactive(r: Room, now: int)
  {
    now - LastActivity(r, now) > INACTIVE_ROOM_MS
  }

  /**
   * A room is inactive exactly when it has no sharer and both its creation and
   * every entry's join lie more than INACTIVE_ROOM_MS in the past.
   */
  lemma InactiveIff(r: Room, now: int)
    ensures IsInactive(r, now) <==>
      && !Truthy(r.sharerId)
      && now - r.createdAt > INACTIVE_ROOM_MS
      && forall q :: q in r.members ==> now - q.joinedAt > INACTIVE_ROOM_MS
  {
    LatestJoinIsMax(r.members, r.createdAt);
  }
}
