# Screen-share signaling core in Dafny

This project models the signaling service of a one-sharer, many-viewer
screen-share application. It has two parts:

- **The room registry** (`rooms.ts`). A process-wide map from session id to
  room. Each room has an optional sharer id, a member table and a creation
  time. The member table holds the viewers and also the sharer's own entry.
- **The per-connection handler** (`socket.ts`). Each connection keeps its
  current session and role. It handles `join-room` through an ack. It relays
  the WebRTC handshake messages (`offer`, `answer`, `ice-candidate`) and the
  viewer-microphone handshake (`viewer-mic-offer/answer/ice`). It broadcasts
  room chat, and it cleans up on `disconnect`.

Files:

- `maybe.dfy`: `Option` and JavaScript truthiness of a nullable string.
- `room_state.dfy`: rooms as values.
  - The member table is a sequence of peers with distinct ids, in insertion
    order. `Put` and `Delete` give it the semantics of a JavaScript `Map`: a set
    on an existing key replaces the entry in place, otherwise it appends.
  - The viewer listing.
  - The one-sharer invariant.
  - The idle-room computation.
- `rooms.dfy`: session-id validation, and the class `Registry`. Its methods
  update the `rooms` map in place and keep the sweep timer flag.
- `socket.dfy`: the class `Connection`. Its fields are the handler's closure
  variables. Each handler method returns the transport calls it makes, in order,
  as a sequence of `Event`s:
  - `Ack`: the join acknowledgement;
  - `JoinGroup`: `socket.join`;
  - `EmitSelf`;
  - `EmitTo`: `socket.to(id)`, which never reaches the sender;
  - `EmitRoomExceptSelf`;
  - `EmitRoomAll`: `io.to(room)`.

## Deployments

The repository carries three copies of the core. Their logic is identical, so
one model covers all of them:

- `apps/server/src/rooms.ts` is the most complete registry.
  - `signaling/src/rooms.ts` is the same code without `hasSharer` and
    `stopRoomCleanup`.
  - The line correspondences: validation :22-28, creation :30-42,
    `setSharer` :48-58, `removeSharer` :60-66, `addViewer` :68-77,
    `removeViewer` :79-86, counting and listing :88-106, the sweep :108-121,
    `startRoomCleanup` :123-128.
- `apps/web/server/socket.ts` is the most complete handler. Its chat and
  viewer-mic handlers are at :138-171.
  - `apps/server/src/socket.ts` and `signaling/src/socket.ts` are the same
    closure without those handlers.
  - Validation is at :50-58 and :39-47.
  - The sharer join is at :60-75 and :49-64.
  - The viewer join is at :78-103 and :67-92.
  - The relays are at :107-131 and :96-114.
  - `disconnect` is at :133-146 and :116-129.
- `apps/web/server/socket.ts` imports a registry from `apps/web/server/rooms.ts`.
  That file is not part of this model. It is taken to have the same operations
  as `apps/server/src/rooms.ts`.

## Behaviour as written

The model follows the code in these places, even where a reader might expect
a stricter or tidier behaviour:

- **A second `join-room` on a joined connection is not refused.** A successful
  second join overwrites the connection's session and role. The room it joined
  first keeps its entry.
  - For example, a connection can claim session A as sharer and then join
    session B as a viewer. On disconnect it then leaves only B, so A keeps a
    sharer that is gone.
  - Such a room refuses every later sharer, and the sweep never removes it.
- **`removeSharer` never deletes a room.** A room that it leaves with no sharer
  and no entries stays until the sweep removes it. Only `removeViewer` deletes
  an empty room at once.
- **`removeViewer` deletes the entry for the id whatever its role.** Removing
  the sharer's own id this way would break the one-sharer invariant. So
  `RemoveViewer` promises to keep the invariant only for other ids.
- **The viewer "already joined" test finds the sharer too.** It checks for any
  entry with the id. So a sharer that re-joins its own room as a viewer just
  gets the count.
- **A sharer is checked by truthiness.** `hasSharer`, the sweep and the `offer`
  guard test `sharerId` by truthiness. `setSharer` and `removeViewer` compare
  it with `null`. These differ only for an empty connection id.
- **The sweep folds over every entry.** It takes the latest `joinedAt` over the
  whole member table, the sharer's entry included, not over viewers only.

## Model

| member | source | states |
|---|---|---|
| RoomState.HasIff | apps/server/src/rooms.ts:91 | `viewers.has(id)` holds exactly when some entry of the table carries that id |
| RoomState.PutSpec | apps/server/src/rooms.ts:67-71 | `Map.set`: a new key is appended at the end; an existing key is replaced at its own position, the length unchanged; ids stay distinct; afterwards the entries are the new one plus every old entry with another id |
| RoomState.DeleteSpec | apps/server/src/rooms.ts:82 | `Map.delete`: the remaining entries are exactly the old ones with another id; the id is gone; a missing key changes nothing; ids stay distinct; the size drops by one exactly when the key was present |
| RoomState.UniqueEntry | apps/server/src/rooms.ts:17 | the member table is keyed by id: two entries with the same id are the same entry |
| RoomState.ViewerIdsMembers | apps/server/src/rooms.ts:128-136 | an id is listed exactly when the table has an entry with that id and the viewer role; the list is no longer than the table |
| RoomState.ViewerIdsConcat | apps/server/src/rooms.ts:132-134 | the listing keeps the table's insertion order: the listing of two table segments is the two listings in order |
| RoomState.ViewerIdsNoDuplicates | apps/server/src/rooms.ts:128-136 | with distinct entry ids, no id is listed twice |
| RoomState.ViewerIdsAfterAdd | apps/server/src/rooms.ts:89-98 | adding a viewer with a fresh id appends exactly that id to the listing |
| RoomState.ViewerIdsAfterClaim | apps/server/src/rooms.ts:66-71 | after the sharer entry is set for an id, the listing is the old listing with that id removed (a viewer that claims the slot stops being listed) |
| RoomState.ViewerCountAfterDelete | apps/server/src/rooms.ts:103-110 | deleting an id lowers the viewer count by one exactly when that id was listed as a viewer, and otherwise leaves it |
| RoomState.ClaimPreserves | apps/server/src/rooms.ts:61-73 | a claim keeps ids distinct, inserts the sharer entry with the claim time, never raises the viewer count, and turns a sharer-less room satisfying the invariant into one that still does |
| RoomState.ReleasePreserves | apps/server/src/rooms.ts:78-84 | a release by the current sharer removes its entry and keeps the one-sharer invariant |
| RoomState.AddViewerPreserves | apps/server/src/rooms.ts:89-98 | adding a fresh viewer keeps ids distinct, appends its id to the listing, and keeps the invariant |
| RoomState.RemoveMemberPreserves | apps/server/src/rooms.ts:103-110 | removing an entry keeps ids distinct, lowers the count by one exactly when the id was a viewer, and keeps the invariant unless the id is the room's sharer |
| RoomState.SharerNotAViewer | apps/server/src/rooms.ts:112-123 | under the invariant the sharer's id is never listed or counted as a viewer |
| RoomState.LatestJoinIsMax | apps/server/src/rooms.ts:154-157 | the `reduce` with `Math.max` gives the maximum of `createdAt` and every entry's `joinedAt`, and is one of them |
| RoomState.InactiveIff | apps/server/src/rooms.ts:149-162 | a room is idle exactly when it has no sharer and both its creation and every entry's join are more than 300000 ms before now |
| Rooms.MatchFromIff | signaling/src/rooms.ts:22-28 | the anchored pattern `[a-zA-Z0-9_-]{8,64}` matches from a count of `n` characters already read exactly when the rest has only id characters and the total length is within 8..64 |
| Rooms.IsValidSessionId | apps/server/src/rooms.ts:23-32 | a session id is valid exactly when its length is 8 to 64 and every character is an ASCII letter, digit, `_` or `-` |
| Rooms.Registry.constructor | apps/server/src/rooms.ts:21 | the registry starts with no rooms and no timer, and satisfies both invariants |
| Rooms.Registry.GetOrCreateRoom | apps/server/src/rooms.ts:37-49 | returns the existing room, or stores and returns a fresh sharer-less, empty room created now; nothing else changes |
| Rooms.Registry.GetRoom | apps/server/src/rooms.ts:54-56 | a room is returned exactly when one is stored under the id, and it is filed under its own id with distinct entry ids |
| Rooms.Registry.SetSharer | apps/server/src/rooms.ts:61-73 | fails with no change exactly when the room exists with a sharer; otherwise stores the (possibly new) room claimed for the id; the viewer listing loses that id and the count never rises; the invariants are kept |
| Rooms.Registry.RemoveSharer | apps/server/src/rooms.ts:78-84 | succeeds exactly when the room exists and its sharer is the id; then clears the slot and deletes the entry but keeps the room; otherwise nothing changes |
| Rooms.Registry.AddViewer | apps/server/src/rooms.ts:89-98 | fails with no change exactly when the room exists and has an entry for the id; otherwise stores the (possibly new) room with one more viewer entry, whose id is appended to the listing |
| Rooms.Registry.RemoveViewer | apps/server/src/rooms.ts:103-110 | an unknown session is a no-op; otherwise the entry for the id goes whatever its role, and the room is deleted exactly when it is then sharer-less and empty; no other room changes; the count drops by one exactly when the id was a viewer |
| Rooms.Registry.GetViewerCount | apps/server/src/rooms.ts:115-123 | the counting loop returns the length of the viewer listing, and 0 for an unknown session |
| Rooms.Registry.GetViewerIds | apps/server/src/rooms.ts:128-136 | the push loop returns the viewer listing in table order, with no duplicates and without the room's sharer |
| Rooms.Registry.HasSharer | apps/server/src/rooms.ts:141-144 | true exactly when the room exists and its sharer id is set and non-empty, and then, under the invariant, the sharer has its entry in the table |
| Rooms.Registry.CleanupInactiveRooms | apps/server/src/rooms.ts:149-162 | the deleting loop leaves exactly the rooms that are not idle, unchanged; a room with a sharer always survives; the invariants are kept |
| Rooms.Registry.StartRoomCleanup | apps/server/src/rooms.ts:166-169 | arms the timer; a second start changes nothing; the rooms are untouched |
| Rooms.Registry.StopRoomCleanup | apps/server/src/rooms.ts:171-176 | disarms the timer so a later start arms it again; the rooms are untouched |
| Rooms.Registry.OnCleanupTimer | apps/server/src/rooms.ts:168 | a tick of the interval sweeps when the timer is armed and changes nothing otherwise |
| Socket.WelcomeSharer | apps/web/server/socket.ts:73-78 | a successful sharer join sends the room subscription, then one `viewer-joined` to itself per listed viewer, in order and all with the same count, then the ack with that count |
| Socket.TrimStartSpec | apps/web/server/socket.ts:139 | the leading part that `trim` drops is all whitespace, and what remains starts with a non-whitespace character |
| Socket.TrimEndSpec | apps/web/server/socket.ts:139 | the trailing part that `trim` drops is all whitespace, and what remains ends with a non-whitespace character |
| Socket.TrimSpec | apps/web/server/socket.ts:139 | `trim` keeps a contiguous middle of its input, drops only whitespace on either side, neither starts nor ends with whitespace, and is empty exactly when the input is all whitespace |
| Socket.Connection.constructor | apps/web/server/socket.ts:45-47 | a new connection has its transport id, no session and no role |
| Socket.Connection.OnJoinRoom | apps/web/server/socket.ts:49-110 | a missing or empty field, or a malformed session id, is refused by ack with nothing changed; a sharer join and a viewer join behave as below; any other role is refused by ack with nothing changed; a join never takes the viewer count above a positive cap it was not already above; the registry invariants are kept |
| Socket.Connection.JoinAsSharer | apps/web/server/socket.ts:65-80 | a taken slot is refused by ack with the connection and rooms unchanged; otherwise the slot is claimed, the connection becomes the session's sharer, and it is told about every viewer listed before the claim except itself, with the resulting count, which is not higher than before |
| Socket.Connection.JoinAsViewer | apps/web/server/socket.ts:82-106 | an id already in the table (the sharer's included) gets the current count with nothing changed; at a positive cap the join is refused with nothing changed; otherwise exactly one viewer is added, the connection becomes a viewer of the session, and the others and the ack get the new count |
| Socket.Connection.OnOffer | apps/web/server/socket.ts:112-120 | the offer goes to the target, from this connection, exactly when the connection is joined as sharer and the registry holds it as the room's sharer; otherwise nothing is sent |
| Socket.Connection.OnAnswer | apps/web/server/socket.ts:122-128 | the answer goes to the target, from this connection, exactly when it is joined as a viewer |
| Socket.Connection.OnIceCandidate | apps/web/server/socket.ts:130-136 | the candidate goes to the target, from this connection, exactly when it is joined |
| Socket.Connection.OnChatMessage | apps/web/server/socket.ts:138-147 | nothing is sent exactly when the connection is unjoined, the text is missing or the text is all whitespace; otherwise one message goes to the whole room with the sender's id and role and the time, and its text is a non-empty prefix of the trimmed text, at most 2000 characters, the whole trimmed text when that fits, and starts with a non-whitespace character |
| Socket.Connection.OnViewerMicOffer | apps/web/server/socket.ts:149-155 | forwarded, from this connection, exactly when it is joined as a viewer |
| Socket.Connection.OnViewerMicAnswer | apps/web/server/socket.ts:157-163 | forwarded, from this connection, exactly when it is joined as sharer (by its own role alone) |
| Socket.Connection.OnViewerMicIce | apps/web/server/socket.ts:165-171 | forwarded, from this connection, exactly when it is joined |
| Socket.Connection.OnDisconnect | apps/web/server/socket.ts:173-186 | unjoined: nothing; a sharer releases the slot if it still holds it, keeps the room, and the whole room hears `sharer-left`; a viewer's entry is removed as by `removeViewer`, and the others hear `viewer-left` with the count after removal; in both cases the one-sharer invariant is kept (for a viewer, unless its id is that room's sharer) |

## Left out

- Transport: the socket.io server, its path, CORS and ping settings, and the
  actual delivery of messages. Each handler returns the calls it makes as
  events; which connections receive them is not modelled.
- Clock: `Date.now()` becomes a `now` parameter. `setSharer` and `addViewer`
  read the clock again after `getOrCreateRoom`; the model uses one `now` for
  both reads.
- Timer: `setInterval`/`clearInterval` become the `cleanupTimer` flag and the
  `OnCleanupTimer` method, which stands for one firing of the interval.
- Environment: `parseInt(MAX_VIEWERS_PER_ROOM)` becomes the `maxViewers`
  parameter. An unset, non-numeric or non-positive setting means no cap and
  corresponds to 0.
- Payload types: a `join-room` field, or a chat text, is either a string or
  missing. Values of other JavaScript types are not modelled: the `typeof` test
  in `isValidSessionId`, and the exception that `trim` throws on a non-string.
  A relay payload without `to` is not modelled either.
- Handshake payloads: `sdp` and `candidate` are opaque strings, forwarded
  unread.
- Socket.Connection.OnChatMessage: counts the 2000-character limit in Unicode
  scalar values, while `slice` counts UTF-16 code units. The two differ for
  characters outside the Basic Multilingual Plane.
- Rooms as objects: `getRoom` and `getOrCreateRoom` hand out the live room
  object; the model hands out its value. The handler only reads what it gets
  back.
- Rooms.Registry.SetSharer and Rooms.Registry.AddViewer: the room creation done
  by `getOrCreateRoom` is folded into the single store each makes. Whenever the
  room is absent, the operation succeeds and stores it anyway, so the final
  state is the same.
- Socket.Connection.JoinAsViewer: folds `getOrCreateRoom` into `AddViewer` in the
  same way. An absent room always reaches `addViewer`: it has no entries and a
  count of 0.
- Rooms.Registry.CleanupInactiveRooms: visits the sessions in an unspecified
  order rather than insertion order. The result does not depend on the order.
- The ack callback is optional in the source. The model always returns the
  `Ack` event; without a callback the transport drops it.
- Concurrency: every handler runs to completion on one event loop, so the
  operations are modelled as sequential steps.
- Process bootstrap, HTTP servers, browser hooks, the UI and the client-side
  chat buffer are outside this core.
