/**
 * The room registry: the process-wide table from session id to room, the
 * session-id format check, the one-sharer claim and release, viewer add and
 * remove, viewer counting and listing, and the idle-room sweep with its timer.
 *
 * Wall-clock reads become a `now` parameter (milliseconds), and the interval
 * timer becomes the flag `cleanupTimer` plus `OnCleanupTimer`, the callback it fires.
 */
module Rooms {
  import opened Maybe
  import opened RoomState

  // ---------------------------------------------------------------------------
  // Session ids: /^[a-zA-Z0-9_-]{8,64}$/
  // ---------------------------------------------------------------------------

  /** One character of the class `[a-zA-Z0-9_-]`. */
  predicate IsIdChar(c: char)
  {
    ('a' <= c <= 'z') || ('A' <= c <= 'Z') || ('0' <= c <= '9') || c == '_' || c == '-'
  }

  /**
   * The pattern run as a matcher: `n` class characters were consumed so far and
   * `s` is what is left; the repetition stops at 64 and the end anchor needs at least 8.
   */
  function MatchFrom(s: string, n: nat): bool
  {
    if s == [] then 8 <= n
    else n < 64 && IsIdChar(s[0]) && MatchFrom(s[1..], n + 1)
  }

  lemma {:induction false} MatchFromIff(s: string, n: nat)
    requires n <= 64
    ensures MatchFrom(s, n) <==> 8 <= n + |s| <= 64 && forall i :: 0 <= i < |s| ==> IsIdChar(s[i])
  {
    if s != [] && n < 64 {
      MatchFromIff(s[1..], n + 1);
      assert (forall i :: 0 <= i < |s| ==> IsIdChar(s[i])) <==>
             IsIdChar(s[0]) && forall i :: 0 <= i < |s[1..]| ==> IsIdChar(s[1..][i]);
    }
  }

  /** `isValidSessionId`: 8 to 64 characters, each a letter, a digit, `_` or `-`. */
  function IsValidSessionId(sessionId: string): (ok: bool)
    ensures ok <==> 8 <= |sessionId| <= 64 && forall i :: 0 <= i < |sessionId| ==> IsIdChar(sessionId[i])
  {
    MatchFromIff(sessionId, 0);
    MatchFrom(sessionId, 0)
  }

  // ---------------------------------------------------------------------------
  // The registry
  // ---------------------------------------------------------------------------

  class Registry {
    /** The module-level `rooms` Map. */
    var rooms: map<string, Room>
    /** Whether the sweep interval is armed (`cleanupTimer !== null`). */
    var cleanupTimer: bool

    /** Each room sits under its own session id, and its member table is keyed by distinct ids. */
    ghost predicate Valid()
      reads this
    {
      forall s :: s in rooms ==> rooms[s].sessionId == s && DistinctIds(rooms[s].members)
    }

    /** The one-sharer invariant, in every room. */
    ghost predicate AllOneSharer()
      reads this
    {
      forall s :: s in rooms ==> OneSharer(rooms[s])
    }

    /** The ids getViewerIds lists for a session; none for an unknown one. */
    function Viewers(s: string): seq<string>
      reads this
    {
      if s in rooms then ViewerIds(rooms[s].members) else []
    }

    /** The room getOrCreateRoom hands back. */
    function RoomOrNew(s: string, now: int): Room
      reads this
    {
      if s in rooms then rooms[s] else NewRoom(s, now)
    }

    constructor ()
      ensures Valid() && AllOneSharer()
      ensures rooms == map[] && !cleanupTimer
    {
      rooms := map[];
      cleanupTimer := false;
    }

    method GetOrCreateRoom(s: string, now: int) returns (room: Room)
      requires Valid()
      modifies this
      ensures Valid() && cleanupTimer == old(cleanupTimer)
      ensures room == old(RoomOrNew(s, now))
      ensures rooms == old(rooms)[s := room]
      ensures s !in old(rooms) ==> room.sharerId.None? && room.members == [] && room.createdAt == now
      ensures old(AllOneSharer()) ==> AllOneSharer()
    {
      if s in rooms {
        room := rooms[s];
      } else {
        room := NewRoom(s, now);
        rooms := rooms[s := room];
      }
    }

    function GetRoom(s: string): (r: Option<Room>)
      reads this
      requires Valid()
      ensures r.Some? <==> s in rooms
      ensures r.Some? ==> r.value.sessionId == s && DistinctIds(r.value.members)
    {
      if s in rooms then Some(rooms[s]) else None
    }

    /** Claim the sharer slot; fails, changing nothing, when the room already has a sharer. */
    method SetSharer(s: string, id: string, now: int) returns (ok: bool)
      requires Valid()
      modifies this
      ensures Valid() && cleanupTimer == old(cleanupTimer)
      ensures ok <==> !(s in old(rooms) && old(rooms)[s].sharerId.Some?)
      ensures ok ==> rooms == old(rooms)[s := Claimed(old(RoomOrNew(s, now)), id, now)]
      ensures ok ==> Viewers(s) == ViewerIds(Delete(old(RoomOrNew(s, now)).members, id))
      ensures ok ==> |Viewers(s)| <= |old(Viewers(s))|
      ensures !ok ==> rooms == old(rooms)
      ensures old(AllOneSharer()) ==> AllOneSharer()
    {
      // getOrCreateRoom: a room is only created when absent, and then the claim succeeds,
      // so its creation and the claim are one store.
      var room := RoomOrNew(s, now);
      if room.sharerId.Some? {
        return false;
      }
      ClaimPreserves(room, id, now);
      rooms := rooms[s := Claimed(room, id, now)];
      ok := true;
    }

    /** Release the sharer slot; only the current sharer can, and the room stays even if now empty. */
    method RemoveSharer(s: string, id: string) returns (ok: bool)
      requires Valid()
      modifies this
      ensures Valid() && cleanupTimer == old(cleanupTimer)
      ensures ok <==> s in old(rooms) && old(rooms)[s].sharerId == Some(id)
      ensures ok ==> rooms == old(rooms)[s := Released(old(rooms)[s], id)]
      ensures !ok ==> rooms == old(rooms)
      ensures old(AllOneSharer()) ==> AllOneSharer()
    {
      if s !in rooms || rooms[s].sharerId != Some(id) {
        return false;
      }
      ReleasePreserves(rooms[s], id);
      rooms := rooms[s := Released(rooms[s], id)];
      ok := true;
    }

    /** Add a viewer entry; a repeat id (the sharer's included) is refused and changes nothing. */
    method AddViewer(s: string, id: string, now: int) returns (ok: bool)
      requires Valid()
      modifies this
      ensures Valid() && cleanupTimer == old(cleanupTimer)
      ensures ok <==> !(s in old(rooms) && Has(old(rooms)[s].members, id))
      ensures ok ==> rooms == old(rooms)[s := WithViewer(old(RoomOrNew(s, now)), id, now)]
      ensures !ok ==> rooms == old(rooms)
      ensures ok ==> Viewers(s) == old(Viewers(s)) + [id]
      ensures old(AllOneSharer()) ==> AllOneSharer()
    {
      // As in SetSharer, creation of an absent room and the new entry are one store.
      var room := RoomOrNew(s, now);
      if Has(room.members, id) {
        return false;
      }
      AddViewerPreserves(room, id, now);
      rooms := rooms[s := WithViewer(room, id, now)];
      ok := true;
    }

    /**
     * Delete the entry for `id` whatever its role, then delete the room when it is
     * left with no sharer and no entries. An unknown session is a no-op.
     */
    method RemoveViewer(s: string, id: string)
      requires Valid()
      modifies this
      ensures Valid() && cleanupTimer == old(cleanupTimer)
      ensures s !in old(rooms) ==> rooms == old(rooms)
      ensures s in old(rooms) ==>
        var r := WithoutMember(old(rooms)[s], id);
        rooms == if r.sharerId.None? && r.members == [] then old(rooms) - {s} else old(rooms)[s := r]
      ensures |Viewers(s)| == if id in old(Viewers(s)) then |old(Viewers(s))| - 1 else |old(Viewers(s))|
      ensures old(AllOneSharer()) && !(s in old(rooms) && old(rooms)[s].sharerId == Some(id)) ==> AllOneSharer()
    {
      if s !in rooms {
        return;
      }
      RemoveMemberPreserves(rooms[s], id);
      var room := WithoutMember(rooms[s], id);
      rooms := rooms[s := room];
      if room.sharerId.None? && |room.members| == 0 {
        rooms := rooms - {s};
      }
    }

    /** The counting loop of getViewerCount. */
    method GetViewerCount(s: string) returns (count: nat)
      ensures count == |Viewers(s)|
      ensures s !in rooms ==> count == 0
    {
      if s !in rooms {
        return 0;
      }
      var ms := rooms[s].members;
      count := 0;
      var i := 0;
      while i < |ms|
        invariant 0 <= i <= |ms|
        invariant count == |ViewerIds(ms[..i])|
      {
        assert ms[..i + 1] == ms[..i] + [ms[i]];
        ViewerIdsConcat(ms[..i], [ms[i]]);
        if ms[i].role == Viewer {
          count := count + 1;
        }
        i := i + 1;
      }
      assert ms[..i] == ms;
    }

    /** The push loop of getViewerIds: the viewer entries' ids in table order, each once. */
    method GetViewerIds(s: string) returns (ids: seq<string>)
      requires Valid()
      ensures ids == Viewers(s)
      ensures NoDuplicates(ids)
      ensures s in rooms && AllOneSharer() && rooms[s].sharerId.Some? ==> rooms[s].sharerId.value !in ids
    {
      ids := [];
      if s !in rooms {
        return;
      }
      var ms := rooms[s].members;
      var i := 0;
      while i < |ms|
        invariant 0 <= i <= |ms|
        invariant ids == ViewerIds(ms[..i])
      {
        assert ms[..i + 1] == ms[..i] + [ms[i]];
        ViewerIdsConcat(ms[..i], [ms[i]]);
        if ms[i].role == Viewer {
          ids := ids + [ms[i].id];
        }
        i := i + 1;
      }
      assert ms[..i] == ms;
      ViewerIdsNoDuplicates(ms);
      if AllOneSharer() && rooms[s].sharerId.Some? {
        SharerNotAViewer(rooms[s]);
      }
    }

    /** `!!room?.sharerId` */
    function HasSharer(s: string): (b: bool)
      reads this
      ensures b <==> s in rooms && Truthy(rooms[s].sharerId)
      ensures b && AllOneSharer() ==> Has(rooms[s].members, rooms[s].sharerId.value)
    {
      if s in rooms && rooms[s].sharerId.Some? then
        HasIff(rooms[s].members, rooms[s].sharerId.value);
        Truthy(rooms[s].sharerId)
      else
        false
    }

    /** One sweep: delete every inactive room, deleting while iterating over the table. */
    method CleanupInactiveRooms(now: int)
      requires Valid()
      modifies this
      ensures Valid() && cleanupTimer == old(cleanupTimer)
      ensures rooms == map s | s in old(rooms) && !IsInactive(old(rooms)[s], now) :: old(rooms)[s]
      ensures forall s :: s in old(rooms) && Truthy(old(rooms)[s].sharerId) ==> s in rooms
      ensures old(AllOneSharer()) ==> AllOneSharer()
    {
      ghost var before := rooms;
      var pending := rooms.Keys;
      while pending != {}
        invariant Valid() && cleanupTimer == old(cleanupTimer)
        invariant pending <= before.Keys
        invariant rooms == map s | s in before && (s in pending || !IsInactive(before[s], now)) :: before[s]
        decreases pending
      {
        var s :| s in pending;
        if now - LastActivity(rooms[s], now) > INACTIVE_ROOM_MS {
          rooms := rooms - {s};
        }
        pending := pending - {s};
      }
      forall s | s in before && Truthy(before[s].sharerId)
        ensures s in rooms
      {
        InactiveIff(before[s], now);
      }
    }

    /** startRoomCleanup: arm the timer unless it is already armed. */
    method StartRoomCleanup()
      modifies this
      ensures cleanupTimer && rooms == old(rooms)
      ensures old(cleanupTimer) ==> unchanged(this)
    {
      if cleanupTimer {
        return;
      }
      cleanupTimer := true;
    }

    /** stopRoomCleanup: disarm the timer, so a later start arms it again. */
    method StopRoomCleanup()
      modifies this
      ensures !cleanupTimer && rooms == old(rooms)
    {
      if cleanupTimer {
        cleanupTimer := false;
      }
    }

    /** The timer firing, every CLEANUP_INTERVAL_MS: a sweep when armed, nothing once stopped. */
    method OnCleanupTimer(now: int)
      requires Valid()
      modifies this
      ensures Valid() && cleanupTimer == old(cleanupTimer)
      ensures !old(cleanupTimer) ==> rooms == old(rooms)
      ensures old(cleanupTimer) ==>
        rooms == map s | s in old(rooms) && !IsInactive(old(rooms)[s], now) :: old(rooms)[s]
    {
      if cleanupTimer {
        CleanupInactiveRooms(now);
      }
    }
  }
}
