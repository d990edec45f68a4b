/**
 * The server's fixed-capacity slot table (the `ServerClient[] clients`
 * array of KLFServer/Server.cs) as values: one record per slot, the
 * occupancy count `numClients` is kept in step with, the broadcast helpers
 * that append a message to many slots' outgoing queues, and the searches
 * the message handlers run over the table.
 *
 * A socket is reduced to "present" and "connected"; a send through the
 * slot's outgoing queue appends `(kind, payload)` to `outbox`, and a
 * "direct" send appends the frame's bytes to `wire`. Both are logs that
 * only ever grow.
 */
module SlotTable {
  import opened Wrappers
  import opened Wire
  import opened Protocol
  import Text

  /** `tcpClient`: null, or a TcpClient whose `Connected` is the flag. */
  datatype Socket = NoSocket | Tcp(connected: bool)

  /** One call of queueOutgoingMessage. */
  datatype Outgoing = Outgoing(kind: ServerMessageId, payload: seq<byte>)

  /** The fields of a ServerClient that Server.cs reads and writes. */
  datatype Slot = Slot(
    tcp: Socket,
    username: string,
    receivedHandshake: bool,
    canBeReplaced: bool,
    connectionStartTime: int,
    lastMessageTime: int,
    watchPlayerName: string,
    screenshot: Option<seq<byte>>,
    outbox: seq<Outgoing>,
    wire: seq<byte>)

  /**
   * A slot that has never held a connection. ServerClient's constructor is
   * not part of this model; a new slot is taken to be replaceable and
   * without a socket, which is what addClient needs to ever use it.
   */
  const Vacant: Slot := Slot(NoSocket, "", false, true, 0, 0, "", None, [], [])

  /** clientIsValid: the slot has a socket and it reports connected. */
  predicate IsValid(s: Slot) {
    s.tcp.Tcp? && s.tcp.connected
  }

  /** clientIsReady: valid and handshake completed. */
  predicate IsReady(s: Slot) {
    IsValid(s) && s.receivedHandshake
  }

  /** The slot array together with the `numClients` counter. */
  datatype Snapshot = Snapshot(slots: seq<Slot>, numClients: int)

  /** The number of slots that are not replaceable (claimed and not yet released). */
  function Occupied(slots: seq<Slot>): (n: nat)
    ensures n <= |slots|
  {
    if |slots| == 0 then 0
    else (if slots[0].canBeReplaced then 0 else 1) + Occupied(slots[1..])
  }

  /**
   * The invariant every operation of the server keeps: `numClients`
   * counts exactly the claimed slots, a claimed slot holds a socket, and a
   * released slot's socket is not connected.
   */
  predicate WellFormed(st: Snapshot) {
    && st.numClients == Occupied(st.slots)
    && (forall i :: 0 <= i < |st.slots| ==> (!st.slots[i].canBeReplaced ==> st.slots[i].tcp.Tcp?))
    && (forall i :: 0 <= i < |st.slots| ==> (st.slots[i].canBeReplaced ==> !IsValid(st.slots[i])))
  }

  /** Replacing one slot changes the count by that slot's own contribution only. */
  lemma {:induction false} OccupiedUpdate(slots: seq<Slot>, i: nat, x: Slot)
    requires i < |slots|
    ensures Occupied(slots[i := x]) ==
      Occupied(slots) - (if slots[i].canBeReplaced then 0 else 1) + (if x.canBeReplaced then 0 else 1)
  {
    if i == 0 {
      assert slots[i := x][1..] == slots[1..];
    } else {
      OccupiedUpdate(slots[1..], i - 1, x);
      assert slots[i := x][1..] == slots[1..][i - 1 := x];
    }
  }

  /** The count depends only on the `canBeReplaced` flags. */
  lemma {:induction false} OccupiedSameFlags(a: seq<Slot>, b: seq<Slot>)
    requires |a| == |b|
    requires forall i :: 0 <= i < |a| ==> a[i].canBeReplaced == b[i].canBeReplaced
    ensures Occupied(a) == Occupied(b)
  {
    if |a| > 0 {
      OccupiedSameFlags(a[1..], b[1..]);
    }
  }

  /** A claimed slot is counted, so the count is positive. */
  lemma {:induction false} OccupiedPositive(slots: seq<Slot>, i: nat)
    requires i < |slots| && !slots[i].canBeReplaced
    ensures Occupied(slots) >= 1
  {
    if i > 0 {
      OccupiedPositive(slots[1..], i - 1);
    }
  }

  /** A table of released slots counts no clients: the table hostingLoop starts from. */
  lemma {:induction false} OccupiedNoneClaimed(slots: seq<Slot>)
    requires forall i :: 0 <= i < |slots| ==> slots[i].canBeReplaced
    ensures Occupied(slots) == 0
  {
    if |slots| > 0 {
      OccupiedNoneClaimed(slots[1..]);
    }
  }

  /** A table whose slots are all released and unconnected, counting no clients, is well formed. */
  lemma ReleasedTableWellFormed(slots: seq<Slot>)
    requires forall i :: 0 <= i < |slots| ==> slots[i].canBeReplaced && !IsValid(slots[i])
    ensures WellFormed(Snapshot(slots, 0))
  {
    OccupiedNoneClaimed(slots);
  }

  /** In a well-formed table a valid slot is claimed, so `numClients` is at least one. */
  lemma ValidSlotCounted(st: Snapshot, i: nat)
    requires WellFormed(st) && i < |st.slots| && IsValid(st.slots[i])
    ensures st.numClients >= 1
  {
    OccupiedPositive(st.slots, i);
  }

  /** `b` is `a` with messages appended to its outgoing queue and nothing else changed. */
  predicate SameExceptOutbox(a: Slot, b: Slot) {
    a.(outbox := b.outbox) == b && a.outbox <= b.outbox
  }

  /** One call of queueOutgoingMessage on a slot. */
  function Enqueue(s: Slot, m: Outgoing): Slot {
    s.(outbox := s.outbox + [m])
  }

  /** Queue `m` on slot `i` only (sendServerMessage, sendScreenshot, ...). */
  function SendTo(slots: seq<Slot>, i: nat, m: Outgoing): (r: seq<Slot>)
    requires i < |slots|
    ensures |r| == |slots|
  {
    slots[i := Enqueue(slots[i], m)]
  }

  /**
   * sendServerMessageToAll / sendTextMessageToAll: queue `m` on every ready
   * slot except `exclude` (-1 excludes nobody).
   */
  function BroadcastReady(slots: seq<Slot>, exclude: int, m: Outgoing): (r: seq<Slot>)
    ensures |r| == |slots|
  {
    seq(|slots|, i requires 0 <= i < |slots| =>
      if i != exclude && IsReady(slots[i]) then Enqueue(slots[i], m) else slots[i])
  }

  /** sendServerSettingsToAll: queue `m` on every valid slot, handshaken or not. */
  function BroadcastValid(slots: seq<Slot>, m: Outgoing): (r: seq<Slot>)
    ensures |r| == |slots|
  {
    seq(|slots|, i requires 0 <= i < |slots| => if IsValid(slots[i]) then Enqueue(slots[i], m) else slots[i])
  }

  /** Broadcasting only appends to outgoing queues, so the invariant survives it. */
  lemma BroadcastReadyKeepsWellFormed(st: Snapshot, exclude: int, m: Outgoing)
    requires WellFormed(st)
    ensures WellFormed(Snapshot(BroadcastReady(st.slots, exclude, m), st.numClients))
  {
    OccupiedSameFlags(st.slots, BroadcastReady(st.slots, exclude, m));
  }

  lemma BroadcastValidKeepsWellFormed(st: Snapshot, m: Outgoing)
    requires WellFormed(st)
    ensures WellFormed(Snapshot(BroadcastValid(st.slots, m), st.numClients))
  {
    OccupiedSameFlags(st.slots, BroadcastValid(st.slots, m));
  }

  lemma SendToKeepsWellFormed(st: Snapshot, i: nat, m: Outgoing)
    requires WellFormed(st) && i < |st.slots|
    ensures WellFormed(Snapshot(SendTo(st.slots, i, m), st.numClients))
  {
    OccupiedSameFlags(st.slots, SendTo(st.slots, i, m));
  }

  /** What a handler looks for in the other ready slots. */
  datatype Criterion =
    | AnyUser                  // the occupancy reply: any other ready user
    | Named(name: string)      // the watch command: the user with this exact name
    | Watching(name: string)   // a screenshot share: the user watching this name

  predicate Matches(s: Slot, c: Criterion) {
    match c
    case AnyUser => true
    case Named(name) => s.username == name
    case Watching(name) => s.watchPlayerName == name
  }

  /** Slot `j` is one the search stops at: not the requester, ready, and matching. */
  predicate Hit(slots: seq<Slot>, exclude: int, c: Criterion, j: nat)
    requires j < |slots|
  {
    j != exclude && IsReady(slots[j]) && Matches(slots[j], c)
  }

  /** The first hit at or after `k`: what the source's `for ... break` loops find. */
  function FirstHitFrom(slots: seq<Slot>, exclude: int, c: Criterion, k: nat): (r: Option<nat>)
    requires k <= |slots|
    ensures r.Some? ==> k <= r.value < |slots| && Hit(slots, exclude, c, r.value)
    ensures r.Some? ==> forall j :: k <= j < r.value ==> !Hit(slots, exclude, c, j)
    ensures r.None? ==> forall j :: k <= j < |slots| ==> !Hit(slots, exclude, c, j)
    decreases |slots| - k
  {
    if k == |slots| then None
    else if Hit(slots, exclude, c, k) then Some(k)
    else FirstHitFrom(slots, exclude, c, k + 1)
  }

  function FirstHit(slots: seq<Slot>, exclude: int, c: Criterion): Option<nat> {
    FirstHitFrom(slots, exclude, c, 0)
  }

  /** The search depends only on which slots are hits. */
  lemma {:induction false} FirstHitSameHits(a: seq<Slot>, b: seq<Slot>, exclude: int, c: Criterion, k: nat)
    requires |a| == |b| && k <= |a|
    requires forall i :: 0 <= i < |a| ==> Hit(a, exclude, c, i) == Hit(b, exclude, c, i)
    ensures FirstHitFrom(a, exclude, c, k) == FirstHitFrom(b, exclude, c, k)
    decreases |a| - k
  {
    if k < |a| {
      FirstHitSameHits(a, b, exclude, c, k + 1);
    }
  }

  /** The roster splits where the table splits. */
  lemma {:induction false} ReadyNamesAppend(a: seq<Slot>, b: seq<Slot>)
    ensures ReadyNames(a + b) == ReadyNames(a) + ReadyNames(b)
  {
    if |a| == 0 {
      assert a + b == b;
    } else {
      assert (a + b)[0] == a[0];
      assert (a + b)[1..] == a[1..] + b;
      ReadyNamesAppend(a[1..], b);
    }
  }

  /**
   * The `!list` roster holds each ready user's name on its own line, in
   * slot order: the part before it lists the slots before it, the part
   * after it the slots after it.
   */
  lemma ReadyNamesLists(slots: seq<Slot>, j: nat)
    requires j < |slots| && IsReady(slots[j])
    ensures ReadyNames(slots) == ReadyNames(slots[..j]) + slots[j].username + "\n" + ReadyNames(slots[j + 1..])
  {
    var tail := [slots[j]] + slots[j + 1..];
    assert slots == slots[..j] + tail;
    ReadyNamesAppend(slots[..j], tail);
    assert ReadyNames(tail) == slots[j].username + "\n" + ReadyNames(slots[j + 1..]) by {
      assert tail[0] == slots[j];
      assert tail[1..] == slots[j + 1..];
    }
  }

  /** A slot addClient may claim. */
  predicate IsFree(s: Slot) {
    s.canBeReplaced && !IsValid(s)
  }

  /** The lowest free slot at or after `k`. */
  function FirstFreeFrom(slots: seq<Slot>, k: nat): (r: Option<nat>)
    requires k <= |slots|
    ensures r.Some? ==> k <= r.value < |slots| && IsFree(slots[r.value])
    ensures r.Some? ==> forall j :: k <= j < r.value ==> !IsFree(slots[j])
    ensures r.None? ==> forall j :: k <= j < |slots| ==> !IsFree(slots[j])
    decreases |slots| - k
  {
    if k == |slots| then None
    else if IsFree(slots[k]) then Some(k)
    else FirstFreeFrom(slots, k + 1)
  }

  /** The `!list` roster: each ready slot's username and a newline, in slot order. */
  function ReadyNames(slots: seq<Slot>): string {
    if |slots| == 0 then ""
    else (if IsReady(slots[0]) then slots[0].username + "\n" else "") + ReadyNames(slots[1..])
  }

  /** The roster is empty exactly when no slot is ready. */
  lemma {:induction false} ReadyNamesEmpty(slots: seq<Slot>)
    ensures ReadyNames(slots) == "" <==> forall j :: 0 <= j < |slots| ==> !IsReady(slots[j])
  {
    if |slots| > 0 {
      ReadyNamesEmpty(slots[1..]);
      if forall j :: 0 <= j < |slots[1..]| ==> !IsReady(slots[1..][j]) {
        forall j | 1 <= j < |slots| ensures !IsReady(slots[j]) {
          assert slots[j] == slots[1..][j - 1];
        }
      }
    }
  }


  /** Some ready slot other than `exclude` has this name once lower-cased. */
  predicate NameTaken(slots: seq<Slot>, exclude: int, lowerName: string) {
    exists j :: 0 <= j < |slots| && j != exclude && IsReady(slots[j]) && Text.ToLowerAscii(slots[j].username) == lowerName
  }
}
