/**
 * The per-connection handler of the signaling server: the state a connection
 * keeps (`currentSessionId`, `currentRole`), the `join-room` state machine, the
 * relays of the two handshakes, the room chat and the clean-up on disconnect.
 *
 * A handler does not talk to the transport; it returns, in order, the transport
 * calls it makes, as `Event`s. Wall-clock reads become a `now` parameter and
 * MAX_VIEWERS_PER_ROOM becomes `maxViewers` (0 for unset, that is, no cap).
 */
module Socket {
  import opened Maybe
  import opened RoomState
  import opened Rooms

  /** A session description or ICE candidate, forwarded without being looked at. */
  type Payload = string

  const MISSING_FIELDS: string := "Missing sessionId or role"
  const INVALID_SESSION: string := "Invalid session ID"
  const SHARER_TAKEN: string := "Room already has a sharer"
  const VIEWER_LIMIT: string := "Viewer limit reached"
  const INVALID_ROLE: string := "Invalid role"

  /** Chat text is cut to this many characters after trimming. */
  const MAX_CHAT_LENGTH: nat := 2000

  /** The second argument of the `join-room` acknowledgement. */
  datatype Reply = Joined(viewerCount: nat) | Rejected(message: string)

  /** Server-to-client messages and their payloads. */
  datatype Message =
    | ViewerJoined(viewerId: string, viewerCount: nat)
    | ViewerLeft(viewerId: string, viewerCount: nat)
    | SharerLeft
    | Offer(from: string, sdp: Payload)
    | Answer(from: string, sdp: Payload)
    | IceCandidate(from: string, candidate: Payload)
    | ChatMessage(from: string, role: Role, text: string, ts: int)
    | ViewerMicOffer(from: string, sdp: Payload)
    | ViewerMicAnswer(from: string, sdp: Payload)
    | ViewerMicIce(from: string, candidate: Payload)

  /** One transport call made by a handler. */
  datatype Event =
    | Ack(reply: Reply)                             // ack?.(null, reply)
    | JoinGroup(room: string)                       // socket.join(room)
    | EmitSelf(msg: Message)                        // socket.emit(...): to this connection only
    | EmitTo(target: string, msg: Message)          // socket.to(target).emit(...): never back to the sender
    | EmitRoomExceptSelf(room: string, msg: Message) // socket.to(room).emit(...): the room but the sender
    | EmitRoomAll(room: string, msg: Message)        // io.to(room).emit(...): the whole room

  /** A `join-room` payload that gets past both checks: both fields present and non-empty, a well-formed session id. */
  predicate PassesValidation(sid: Option<string>, roleName: Option<string>)
  {
    Truthy(sid) && Truthy(roleName) && IsValidSessionId(sid.value)
  }

  /**
   * What a successful sharer join sends: the room subscription, then the
   * `forEach` that tells the new sharer about every viewer already in the room
   * (one `viewer-joined` to itself per id, in order, all with the same count),
   * then the ack with that count.
   */
  method WelcomeSharer(s: string, ids: seq<string>, count: nat) returns (out: seq<Event>)
    ensures |out| == |ids| + 2 && out[0] == JoinGroup(s) && out[|out| - 1] == Ack(Joined(count))
    ensures forall k :: 0 <= k < |ids| ==> out[k + 1] == EmitSelf(ViewerJoined(ids[k], count))
  {
    out := [JoinGroup(s)];
    var i := 0;
    while i < |ids|
      invariant 0 <= i <= |ids|
      invariant |out| == i + 1 && out[0] == JoinGroup(s)
      invariant forall k :: 0 <= k < i ==> out[k + 1] == EmitSelf(ViewerJoined(ids[k], count))
    {
      out := out + [EmitSelf(ViewerJoined(ids[i], count))];
      i := i + 1;
    }
    out := out + [Ack(Joined(count))];
  }

  // ---------------------------------------------------------------------------
  // Chat text: String.prototype.trim, then slice(0, 2000)
  // ---------------------------------------------------------------------------

  /** The characters `trim` strips: ECMAScript WhiteSpace (Zs included) and LineTerminator. */
  predicate IsWhitespace(c: char)
  {
    c == '\t' || c == '\n' || c == '\U{000B}' || c == '\U{000C}' || c == '\r' || c == ' ' ||
    c == '\U{00A0}' || c == '\U{1680}' || ('\U{2000}' <= c <= '\U{200A}') ||
    c == '\U{2028}' || c == '\U{2029}' || c == '\U{202F}' || c == '\U{205F}' ||
    c == '\U{3000}' || c == '\U{FEFF}'
  }

  function TrimStart(s: string): (t: string)
    ensures |t| <= |s|
  {
    if s != [] && IsWhitespace(s[0]) then TrimStart(s[1..]) else s
  }

  function TrimEnd(s: string): (t: string)
    ensures |t| <= |s|
  {
    if s != [] && IsWhitespace(s[|s| - 1]) then TrimEnd(s[..|s| - 1]) else s
  }

  function Trim(s: string): (t: string)
    ensures |t| <= |s|
  {
    TrimEnd(TrimStart(s))
  }

  /** TrimStart drops a whitespace-only prefix and stops at the first other character. */
  lemma {:induction false} TrimStartSpec(s: string)
    ensures |TrimStart(s)| <= |s| && TrimStart(s) == s[|s| - |TrimStart(s)|..]
    ensures forall i :: 0 <= i < |s| - |TrimStart(s)| ==> IsWhitespace(s[i])
    ensures TrimStart(s) != [] ==> !IsWhitespace(TrimStart(s)[0])
  {
    if s != [] && IsWhitespace(s[0]) {
      TrimStartSpec(s[1..]);
    }
  }

  /** TrimEnd drops a whitespace-only suffix and stops at the last other character. */
  lemma {:induction false} TrimEndSpec(s: string)
    ensures |TrimEnd(s)| <= |s| && TrimEnd(s) == s[..|TrimEnd(s)|]
    ensures forall i :: |TrimEnd(s)| <= i < |s| ==> IsWhitespace(s[i])
    ensures TrimEnd(s) != [] ==> !IsWhitespace(TrimEnd(s)[|TrimEnd(s)| - 1])
  {
    if s != [] && IsWhitespace(s[|s| - 1]) {
      TrimEndSpec(s[..|s| - 1]);
    }
  }

  /**
   * Trim keeps a contiguous middle part of its input, drops only whitespace on
   * either side, neither begins nor ends with whitespace, and is empty exactly
   * when the input is all whitespace.
   */
  lemma TrimSpec(s: string)
    ensures var t := Trim(s); var a := |s| - |TrimStart(s)|;
      && a + |t| <= |s| && t == s[a..a + |t|]
      && (forall i :: 0 <= i < a ==> IsWhitespace(s[i]))
      && (forall i :: a + |t| <= i < |s| ==> IsWhitespace(s[i]))
      && (t != [] ==> !IsWhitespace(t[0]) && !IsWhitespace(t[|t| - 1]))
    ensures Trim(s) == [] <==> forall i :: 0 <= i < |s| ==> IsWhitespace(s[i])
  {
    var u := TrimStart(s);
    TrimStartSpec(s);
    TrimEndSpec(u);
    var a := |s| - |u|;
    var t := Trim(s);
    assert t == u[..|t|];
    forall i | a + |t| <= i < |s| ensures IsWhitespace(s[i]) {
      assert s[i] == u[i - a];
    }
    if t != [] {
      assert t[0] == u[0];
    }
  }

  /** `slice(0, n)` */
  function Truncate(s: string, n: nat): string
  {
    if |s| <= n then s else s[..n]
  }

  // ---------------------------------------------------------------------------
  // One connection
  // ---------------------------------------------------------------------------

  class Connection {
    /** `socket.id`, assigned by the transport. */
    const id: string
    /** `currentSessionId` */
    var sessionId: Option<string>
    /** `currentRole` */
    var role: Option<Role>

    /** Session and role are set together, and only ever to a well-formed session id. */
    ghost predicate Valid()
      reads this
    {
      && (sessionId.Some? <==> role.Some?)
      && (sessionId.Some? ==> IsValidSessionId(sessionId.value))
    }

    constructor (id: string)
      ensures this.id == id && sessionId == None && role == None && Valid()
    {
      this.id := id;
      sessionId := None;
      role := None;
    }

    /**
     * `join-room`. A payload with a missing field or a malformed session id is
     * refused with nothing changed; otherwise the role picks the branch, and any
     * role but "sharer" and "viewer" is refused. A connection that already joined
     * is not refused: a later successful join rebinds its session and role.
     */
    method OnJoinRoom(reg: Registry, sid: Option<string>, roleName: Option<string>, maxViewers: nat, now: int)
      returns (out: seq<Event>)
      requires Valid() && reg.Valid()
      modifies this, reg
      ensures Valid() && reg.Valid() && reg.cleanupTimer == old(reg.cleanupTimer)
      ensures old(reg.AllOneSharer()) ==> reg.AllOneSharer()
      ensures !Truthy(sid) || !Truthy(roleName) ==>
        out == [Ack(Rejected(MISSING_FIELDS))] && unchanged(this, reg)
      ensures Truthy(sid) && Truthy(roleName) && !IsValidSessionId(sid.value) ==>
        out == [Ack(Rejected(INVALID_SESSION))] && unchanged(this, reg)
      ensures PassesValidation(sid, roleName) && roleName.value == "sharer" ==>
        var s := sid.value;
        if s in old(reg.rooms) && old(reg.rooms)[s].sharerId.Some? then
          out == [Ack(Rejected(SHARER_TAKEN))] && unchanged(this) && reg.rooms == old(reg.rooms)
        else
          var ids := reg.Viewers(s);
          && reg.rooms == old(reg.rooms)[s := Claimed(old(reg.RoomOrNew(s, now)), id, now)]
          && sessionId == Some(s) && role == Some(Sharer)
          && ids == ViewerIds(Delete(old(reg.RoomOrNew(s, now)).members, id))
          && |ids| <= |old(reg.Viewers(s))|
          && |out| == |ids| + 2 && out[0] == JoinGroup(s) && out[|out| - 1] == Ack(Joined(|ids|))
          && (forall k :: 0 <= k < |ids| ==> out[k + 1] == EmitSelf(ViewerJoined(ids[k], |ids|)))
      ensures PassesValidation(sid, roleName) && roleName.value == "viewer" ==>
        var s := sid.value;
        var before := old(reg.Viewers(s));
        if s in old(reg.rooms) && Has(old(reg.rooms)[s].members, id) then
          out == [Ack(Joined(|before|))] && unchanged(this) && reg.rooms == old(reg.rooms)
        else if maxViewers > 0 && |before| >= maxViewers then
          out == [Ack(Rejected(VIEWER_LIMIT))] && unchanged(this) && reg.rooms == old(reg.rooms)
        else
          && reg.rooms == old(reg.rooms)[s := WithViewer(old(reg.RoomOrNew(s, now)), id, now)]
          && reg.Viewers(s) == before + [id]
          && sessionId == Some(s) && role == Some(Viewer)
          && out == [JoinGroup(s), EmitRoomExceptSelf(s, ViewerJoined(id, |before| + 1)), Ack(Joined(|before| + 1))]
      ensures PassesValidation(sid, roleName) && roleName.value != "sharer" && roleName.value != "viewer" ==>
        out == [Ack(Rejected(INVALID_ROLE))] && unchanged(this, reg)
      ensures Truthy(sid) && maxViewers > 0 && |old(reg.Viewers(sid.value))| <= maxViewers ==>
        |reg.Viewers(sid.value)| <= maxViewers
    {
      if !Truthy(sid) || !Truthy(roleName) {
        return [Ack(Rejected(MISSING_FIELDS))];
      }
      var s := sid.value;
      if !IsValidSessionId(s) {
        return [Ack(Rejected(INVALID_SESSION))];
      }
      if roleName.value == "sharer" {
        out := JoinAsSharer(reg, s, now);
      } else if roleName.value == "viewer" {
        out := JoinAsViewer(reg, s, maxViewers, now);
      } else {
        out := [Ack(Rejected(INVALID_ROLE))];
      }
    }

    /**
     * The sharer branch of `join-room`: claim the slot, then tell the new sharer
     * about every viewer already waiting (all but its own id), each notice with
     * the count, and acknowledge with that count.
     */
    method JoinAsSharer(reg: Registry, s: string, now: int) returns (out: seq<Event>)
      requires Valid() && reg.Valid() && IsValidSessionId(s)
      modifies this, reg
      ensures Valid() && reg.Valid() && reg.cleanupTimer == old(reg.cleanupTimer)
      ensures old(reg.AllOneSharer()) ==> reg.AllOneSharer()
      ensures if s in old(reg.rooms) && old(reg.rooms)[s].sharerId.Some? then
          out == [Ack(Rejected(SHARER_TAKEN))] && unchanged(this) && reg.rooms == old(reg.rooms)
        else
          var ids := reg.Viewers(s);
          && reg.rooms == old(reg.rooms)[s := Claimed(old(reg.RoomOrNew(s, now)), id, now)]
          && sessionId == Some(s) && role == Some(Sharer)
          && ids == ViewerIds(Delete(old(reg.RoomOrNew(s, now)).members, id))
          && |ids| <= |old(reg.Viewers(s))|
          && |out| == |ids| + 2 && out[0] == JoinGroup(s) && out[|out| - 1] == Ack(Joined(|ids|))
          && (forall k :: 0 <= k < |ids| ==> out[k + 1] == EmitSelf(ViewerJoined(ids[k], |ids|)))
    {
      var ok := reg.SetSharer(s, id, now);
      if !ok {
        return [Ack(Rejected(SHARER_TAKEN))];
      }
      var viewerCount := reg.GetViewerCount(s);
      var ids := reg.GetViewerIds(s);
      out := WelcomeSharer(s, ids, viewerCount);
      // currentSessionId and currentRole are set before the count is read; the
      // registry does not depend on them, so the order does not matter here.
      sessionId := Some(s);
      role := Some(Sharer);
    }

    /**
     * The viewer branch of `join-room`: an id already in the room's table (the
     * sharer's own included) only gets the current count; at the cap the join is
     * refused; otherwise the entry is added, the rest of the room hears
     * `viewer-joined`, and the ack carries the new count.
     */
    method JoinAsViewer(reg: Registry, s: string, maxViewers: nat, now: int) returns (out: seq<Event>)
      requires Valid() && reg.Valid() && IsValidSessionId(s)
      modifies this, reg
      ensures Valid() && reg.Valid() && reg.cleanupTimer == old(reg.cleanupTimer)
      ensures old(reg.AllOneSharer()) ==> reg.AllOneSharer()
      ensures var before := old(reg.Viewers(s));
        if s in old(reg.rooms) && Has(old(reg.rooms)[s].members, id) then
          out == [Ack(Joined(|before|))] && unchanged(this) && reg.rooms == old(reg.rooms)
        else if maxViewers > 0 && |before| >= maxViewers then
          out == [Ack(Rejected(VIEWER_LIMIT))] && unchanged(this) && reg.rooms == old(reg.rooms)
        else
          && reg.rooms == old(reg.rooms)[s := WithViewer(old(reg.RoomOrNew(s, now)), id, now)]
          && reg.Viewers(s) == before + [id]
          && sessionId == Some(s) && role == Some(Viewer)
          && out == [JoinGroup(s), EmitRoomExceptSelf(s, ViewerJoined(id, |before| + 1)), Ack(Joined(|before| + 1))]
    {
      // getOrCreateRoom: an absent room always reaches addViewer below, so its
      // creation is folded into that store.
      var room := reg.RoomOrNew(s, now);
      if Has(room.members, id) {
        var count := reg.GetViewerCount(s);
        return [Ack(Joined(count))];
      }
      if maxViewers > 0 {
        var count := reg.GetViewerCount(s);
        if count >= maxViewers {
          return [Ack(Rejected(VIEWER_LIMIT))];
        }
      }
      var _ := reg.AddViewer(s, id, now);
      sessionId := Some(s);
      role := Some(Viewer);
      var viewerCount := reg.GetViewerCount(s);
      out := [JoinGroup(s), EmitRoomExceptSelf(s, ViewerJoined(id, viewerCount)), Ack(Joined(viewerCount))];
    }

    /** `offer`: only from the connection the registry holds as the room's sharer, and cached as sharer. */
    method OnOffer(reg: Registry, to: string, sdp: Payload) returns (out: seq<Event>)
      requires reg.Valid()
      ensures out == [] || out == [EmitTo(to, Offer(id, sdp))]
      ensures out != [] <==>
        Truthy(sessionId) && role == Some(Sharer) && reg.HasSharer(sessionId.value) &&
        reg.rooms[sessionId.value].sharerId == Some(id)
    {
      if !Truthy(sessionId) || role != Some(Sharer) {
        return [];
      }
      var room := reg.GetRoom(sessionId.value);
      if room.None? || !Truthy(room.value.sharerId) || room.value.sharerId.value != id {
        return [];
      }
      return [EmitTo(to, Offer(id, sdp))];
    }

    /** `answer`: only from a joined viewer. */
    method OnAnswer(to: string, sdp: Payload) returns (out: seq<Event>)
      ensures out == [] || out == [EmitTo(to, Answer(id, sdp))]
      ensures out != [] <==> Truthy(sessionId) && role == Some(Viewer)
    {
      if !Truthy(sessionId) || role != Some(Viewer) {
        return [];
      }
      return [EmitTo(to, Answer(id, sdp))];
    }

    /** `ice-candidate`: from any joined connection. */
    method OnIceCandidate(to: string, candidate: Payload) returns (out: seq<Event>)
      ensures out == [] || out == [EmitTo(to, IceCandidate(id, candidate))]
      ensures out != [] <==> Truthy(sessionId)
    {
      if !Truthy(sessionId) {
        return [];
      }
      return [EmitTo(to, IceCandidate(id, candidate))];
    }

    /**
     * `chat-message`: dropped when unjoined or when the text is missing or all
     * whitespace; otherwise the trimmed text, cut to 2000 characters, goes to the
     * whole room, sender included.
     */
    method OnChatMessage(text: Option<string>, now: int) returns (out: seq<Event>)
      ensures out == [] <==>
        !Truthy(sessionId) || text.None? || forall i :: 0 <= i < |text.value| ==> IsWhitespace(text.value[i])
      ensures out != [] ==>
        && |out| == 1 && out[0].EmitRoomAll? && out[0].room == sessionId.value
        && out[0].msg.ChatMessage? && out[0].msg.from == id && out[0].msg.ts == now
        && out[0].msg.role == (if role == Some(Sharer) then Sharer else Viewer)
        && 1 <= |out[0].msg.text| <= MAX_CHAT_LENGTH
        && out[0].msg.text <= Trim(text.value)
        && (|out[0].msg.text| == MAX_CHAT_LENGTH || out[0].msg.text == Trim(text.value))
        && !IsWhitespace(out[0].msg.text[0])
    {
      if text.Some? {
        TrimSpec(text.value);
      }
      if !Truthy(sessionId) || text.None? || Trim(text.value) == "" {
        return [];
      }
      var sender := if role == Some(Sharer) then Sharer else Viewer;
      var body := Truncate(Trim(text.value), MAX_CHAT_LENGTH);
      return [EmitRoomAll(sessionId.value, ChatMessage(id, sender, body, now))];
    }

    /** `viewer-mic-offer`: only from a joined viewer. */
    method OnViewerMicOffer(to: string, sdp: Payload) returns (out: seq<Event>)
      ensures out == [] || out == [EmitTo(to, ViewerMicOffer(id, sdp))]
      ensures out != [] <==> Truthy(sessionId) && role == Some(Viewer)
    {
      if !Truthy(sessionId) || role != Some(Viewer) {
        return [];
      }
      return [EmitTo(to, ViewerMicOffer(id, sdp))];
    }

    /** `viewer-mic-answer`: only from a joined sharer (by cached role alone). */
    method OnViewerMicAnswer(to: string, sdp: Payload) returns (out: seq<Event>)
      ensures out == [] || out == [EmitTo(to, ViewerMicAnswer(id, sdp))]
      ensures out != [] <==> Truthy(sessionId) && role == Some(Sharer)
    {
      if !Truthy(sessionId) || role != Some(Sharer) {
        return [];
      }
      return [EmitTo(to, ViewerMicAnswer(id, sdp))];
    }

    /** `viewer-mic-ice`: from any joined connection. */
    method OnViewerMicIce(to: string, candidate: Payload) returns (out: seq<Event>)
      ensures out == [] || out == [EmitTo(to, ViewerMicIce(id, candidate))]
      ensures out != [] <==> Truthy(sessionId)
    {
      if !Truthy(sessionId) {
        return [];
      }
      return [EmitTo(to, ViewerMicIce(id, candidate))];
    }

    /**
     * `disconnect`: nothing when unjoined; a sharer releases the slot and the room
     * hears `sharer-left`; a viewer's entry is removed and the rest of the room
     * hears `viewer-left` with the count after removal.
     */
    method OnDisconnect(reg: Registry) returns (out: seq<Event>)
      requires Valid() && reg.Valid()
      modifies reg
      ensures reg.Valid() && reg.cleanupTimer == old(reg.cleanupTimer)
      ensures !Truthy(sessionId) ==> out == [] && unchanged(reg)
      ensures Truthy(sessionId) && role == Some(Sharer) ==>
        var s := sessionId.value;
        && out == [EmitRoomAll(s, SharerLeft)]
        && reg.rooms == (if s in old(reg.rooms) && old(reg.rooms)[s].sharerId == Some(id)
                         then old(reg.rooms)[s := Released(old(reg.rooms)[s], id)]
                         else old(reg.rooms))
        && (old(reg.AllOneSharer()) ==> reg.AllOneSharer())
      ensures Truthy(sessionId) && role == Some(Viewer) ==>
        var s := sessionId.value;
        var before := old(reg.Viewers(s));
        && (s !in old(reg.rooms) ==> reg.rooms == old(reg.rooms))
        && (s in old(reg.rooms) ==>
              var r := WithoutMember(old(reg.rooms)[s], id);
              reg.rooms == (if r.sharerId.None? && r.members == [] then old(reg.rooms) - {s} else old(reg.rooms)[s := r]))
        && |reg.Viewers(s)| == (if id in before then |before| - 1 else |before|)
        && out == [EmitRoomExceptSelf(s, ViewerLeft(id, |reg.Viewers(s)|))]
        && (old(reg.AllOneSharer()) && !(s in old(reg.rooms) && old(reg.rooms)[s].sharerId == Some(id)) ==>
              reg.AllOneSharer())
    {
      if !Truthy(sessionId) {
        return [];
      }
      var s := sessionId.value;
      if role == Some(Sharer) {
        var _ := reg.RemoveSharer(s, id);
        out := [EmitRoomAll(s, SharerLeft)];
      } else if role == Some(Viewer) {
        reg.RemoveViewer(s, id);
        var viewerCount := reg.GetViewerCount(s);
        out := [EmitRoomExceptSelf(s, ViewerLeft(id, viewerCount))];
      } else {
        out := [];
      }
    }
  }
}
