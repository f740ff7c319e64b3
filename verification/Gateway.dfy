/** One gateway instance: the rooms of its sockets, and what it sends into them. What each
    method does to a room is a move of the delivery machine. */
module Gateway {
  import opened Wrappers
  import opened Outbox
  import D = Delivery
  import Log = OperationLog

  class WebSocket {
    var open: bool
    /** What initial-state messages held, and the binary frames sent. */
    var initial: Log.Update
    var received: seq<Bytes>
  }

  // ----- a room as a value -----

  datatype Contents = Contents(open: bool, initial: Log.Update, received: seq<Bytes>)

  /** One document's room in an instance, and whether the instance is subscribed to it. */
  datatype View = View(sockets: map<WebSocket, Contents>, subscribed: bool)

  /** An update sent to the open sockets of the room, except one. */
  function SentTo(view: View, except: WebSocket?, update: Bytes): View {
    view.(sockets := map w | w in view.sockets ::
                       var c := view.sockets[w];
                       if c.open && w != except then c.(received := c.received + [update]) else c)
  }

  class Instance {
    const id: Bytes
    var rooms: map<string, set<WebSocket>>
    var subscribed: set<string>

    /** No room is empty. A document may be subscribed that has no room any more. */
    ghost predicate Valid()
      reads this
    {
      forall document | document in rooms :: rooms[document] != {}
    }

    function Room(document: string): set<WebSocket>
      reads this
    {
      if document in rooms then rooms[document] else {}
    }

    ghost function Seen(document: string): View
      reads this, Room(document)
    {
      View(map w | w in Room(document) :: Contents(w.open, w.initial, w.received), document in subscribed)
    }

    constructor (id: Bytes)
      ensures Valid() && this.id == id && rooms == map[] && subscribed == {}
    {
      this.id, rooms, subscribed := id, map[], {};
    }

    method EnterRoom(document: string, client: WebSocket)
      requires Valid()
      modifies this`rooms
      ensures Valid() && (forall other | other != document :: Room(other) == old(Room(other)))
      ensures var before := old(Seen(document));
              Seen(document) == before.(sockets := before.sockets[client := Contents(client.open, client.initial, client.received)])
    {
      if document !in rooms {
        rooms := rooms[document := {}];
      }
      rooms := rooms[document := rooms[document] + {client}];
    }

    method Subscribe(document: string)
      requires Valid()
      modifies this`subscribed
      ensures Valid() && subscribed == old(subscribed) + {document}
      ensures Seen(document) == old(Seen(document)).(subscribed := true)
    {
      if document !in subscribed {
        subscribed := subscribed + {document};
      }
    }

    /** The initial state, as one message to a joining socket. */
    method SendInitialState(document: string, client: WebSocket, content: Log.Update)
      requires client in Room(document)
      modifies client`initial
      ensures var before := old(Seen(document));
              var c := before.sockets[client];
              Seen(document) == before.(sockets := before.sockets[client := c.(initial := c.initial + content)])
    {
      client.initial := client.initial + content;
    }

    method SendToEach(room: set<WebSocket>, except: WebSocket?, update: Bytes)
      modifies room
      ensures forall socket | socket in room ::
                && socket.open == old(socket.open) && socket.initial == old(socket.initial)
                && socket.received == if socket.open && socket != except then old(socket.received) + [update] else old(socket.received)
    {
      var left := room;
      while left != {}
        invariant left <= room
        invariant forall socket | socket in room :: socket.open == old(socket.open) && socket.initial == old(socket.initial)
        invariant forall socket | socket in left :: socket.received == old(socket.received)
        invariant forall socket | socket in room - left ::
                    socket.received == if socket.open && socket != except then old(socket.received) + [update] else old(socket.received)
        decreases |left|
      {
        var socket :| socket in left;
        left := left - {socket};
        if socket != except && socket.open {
          socket.received := socket.received + [update];
        }
      }
    }

    method SendToRoom(document: string, except: WebSocket?, update: Bytes)
      modifies Room(document)
      ensures Seen(document) == SentTo(old(Seen(document)), except, update)
    {
      SendToEach(Room(document), except, update);
    }

    /** The subscriber of a document's channel. Its own frames it skips; of every other frame,
        each open socket in the room receives exactly what is behind the header. */
    method OnFrame(document: string, frame: Bytes)
      modifies Room(document)
      ensures Seen(document) == match Relayed(id, frame)
                                case None => old(Seen(document))
                                case Some(update) => SentTo(old(Seen(document)), null, update)
    {
      var size := if |frame| < HEADER_SIZE then |frame| else HEADER_SIZE;
      if frame[..size] == id {
        return;
      }
      SendToRoom(document, null, frame[size..]);
    }

    /** The teardown of a disconnect: the last socket takes room and subscription with it. */
    method Leave(document: string, client: WebSocket)
      requires Valid()
      modifies this
      ensures Valid() && (forall other | other != document :: Room(other) == old(Room(other)))
      ensures subscribed == if document in old(rooms) && Room(document) == {} then old(subscribed) - {document} else old(subscribed)
      ensures Seen(document) == Departed(old(Seen(document)), client)
    {
      if document in rooms {
        var room := rooms[document] - {client};
        rooms := rooms[document := room];
        if room == {} {
          rooms := rooms - {document};
          if document in subscribed {
            subscribed := subscribed - {document};
          }
        }
      }
      ghost var before := old(Seen(document));
      assert Seen(document).sockets == before.sockets - {client};
      assert before.sockets.Keys == old(Room(document));
      assert Seen(document).sockets.Keys == Room(document);
    }
  }

  /** Without a room there is nothing to tear down. */
  function Departed(view: View, client: WebSocket): View {
    var rest := view.sockets - {client};
    View(rest, view.subscribed && (rest != map[] || view.sockets == map[]))
  }

  // ----- rooms and the delivery machine -----

  type Decoder = Bytes -> Log.Update

  ghost function Decoded(frames: seq<Bytes>, decode: Decoder): Log.Update
    decreases |frames|
  {
    if frames == [] then {} else Decoded(frames[..|frames| - 1], decode) + decode(frames[|frames| - 1])
  }

  /** All changes a socket has been sent. */
  ghost function Held(c: Contents, decode: Decoder): Log.Update { c.initial + Decoded(c.received, decode) }

  /** How the machine calls the instance and the sockets of the room. */
  datatype Names = Names(instance: nat, sockets: map<nat, WebSocket>)

  /** The names are those of the room's sockets, one each, and of the machine's sockets of
      this instance. */
  ghost predicate Named(room: set<WebSocket>, v: Names, s: D.System) {
    && (forall n :: n in v.sockets <==> n in s.sockets && s.sockets[n].instance == v.instance)
    && (forall n | n in v.sockets :: v.sockets[n] in room)
    && (forall w | w in room :: exists n :: n in v.sockets && v.sockets[n] == w)
    && (forall m, n | m in v.sockets && n in v.sockets && m != n :: v.sockets[m] != v.sockets[n])
  }

  ghost predicate Alike(c: Contents, socket: D.Socket, decode: Decoder) {
    socket.open == c.open && socket.held == Held(c, decode)
  }

  /** The room is what the machine has for this instance: the same sockets, holding the
      same, and the same subscription. */
  ghost predicate Shows(view: View, v: Names, s: D.System, decode: Decoder) {
    && Named(view.sockets.Keys, v, s)
    && (forall n | n in v.sockets :: Alike(view.sockets[v.sockets[n]], s.sockets[n], decode))
    && (view.subscribed <==> v.instance in s.subscribed)
  }

  lemma HeldMore(c: Contents, update: Bytes, decode: Decoder)
    ensures Held(c.(received := c.received + [update]), decode) == Held(c, decode) + decode(update)
  {
    assert (c.received + [update])[..|c.received|] == c.received;
  }

  lemma NamedEnters(room: set<WebSocket>, v: Names, s: D.System, client: WebSocket, n: nat, socket: D.Socket)
    requires Named(room, v, s) && client !in room && n !in s.sockets && socket.instance == v.instance
    ensures Named(room + {client}, v.(sockets := v.sockets[n := client]), s.(sockets := s.sockets[n := socket]))
  {
    var names := v.sockets[n := client];
    forall w | w in room + {client} ensures exists m :: m in names && names[m] == w {
      if w == client {
        assert names[n] == w;
      } else {
        var m :| m in v.sockets && v.sockets[m] == w;
        assert names[m] == w;
      }
    }
  }

  /** Entering a room with a socket that is open and has been sent nothing is `Enter`. */
  lemma EntersAsEnter(view: View, v: Names, s: D.System, decode: Decoder, client: WebSocket, n: nat)
    requires Shows(view, v, s, decode) && client !in view.sockets && n !in s.sockets
    ensures Shows(view.(sockets := view.sockets[client := Contents(true, {}, [])]), v.(sockets := v.sockets[n := client]),
                  D.Go(s, D.Enter(n, v.instance)), decode)
  {
    var c, socket := Contents(true, {}, []), D.Socket(v.instance, true, D.InRoom, {});
    NamedEnters(view.sockets.Keys, v, s, client, n, socket);
    assert view.sockets[client := c].Keys == view.sockets.Keys + {client};
    assert Alike(c, socket, decode);
    hide Alike, Named, Held;
    EnteredRest(view, v, s, client, n);
  }

  lemma EnteredRest(view: View, v: Names, s: D.System, client: WebSocket, n: nat)
    requires Named(view.sockets.Keys, v, s) && client !in view.sockets && n !in s.sockets
    ensures n !in v.sockets && forall m | m in v.sockets :: m in s.sockets && v.sockets[m] != client && v.sockets[m] in view.sockets
  {
  }

  lemma SubscribesAsSubscribe(view: View, v: Names, s: D.System, decode: Decoder)
    requires Shows(view, v, s, decode)
    ensures Shows(view.(subscribed := true), v, D.Go(s, D.Subscribe(v.instance)), decode)
  {
    hide Alike;
  }

  /** The same names serve as long as neither side gains or loses a socket. */
  lemma NamedKept(room: set<WebSocket>, v: Names, s: D.System, t: D.System)
    requires Named(room, v, s) && t.sockets.Keys == s.sockets.Keys
    requires forall n | n in s.sockets :: t.sockets[n].instance == s.sockets[n].instance
    ensures Named(room, v, t)
  {
    assert forall n :: n in v.sockets <==> n in t.sockets && t.sockets[n].instance == v.instance;
  }

  lemma InitialAsSendInitialState(view: View, v: Names, s: D.System, decode: Decoder, n: nat)
    requires Shows(view, v, s, decode) && n in v.sockets && n in s.sockets && s.sockets[n].phase.HasInitialState?
    ensures v.sockets[n] in view.sockets
    ensures var c, client := view.sockets[v.sockets[n]], v.sockets[n];
            var after := c.(initial := c.initial + s.sockets[n].phase.content);
            Shows(view.(sockets := view.sockets[client := after]), v, D.Go(s, D.SendInitialState(n)), decode)
  {
    var c, client, t := view.sockets[v.sockets[n]], v.sockets[n], D.Go(s, D.SendInitialState(n));
    var after := c.(initial := c.initial + s.sockets[n].phase.content);
    assert Held(after, decode) == Held(c, decode) + s.sockets[n].phase.content;
    assert Alike(c, s.sockets[n], decode) && Alike(after, t.sockets[n], decode);
    NamedKept(view.sockets.Keys, v, s, t);
    assert view.sockets[client := after].Keys == view.sockets.Keys;
    hide Held, Decoded, Alike;
  }

  /** What a socket of the room holds after sending is what `Send` gives it. */
  lemma SentAsSend(view: View, v: Names, s: D.System, decode: Decoder, except: WebSocket?, name: Option<nat>,
                   update: Bytes, n: nat)
    requires Shows(view, v, s, decode) && n in v.sockets && (v.sockets[n] == except <==> name == Some(n))
    ensures n in s.sockets && v.sockets[n] in view.sockets
    ensures Alike(SentTo(view, except, update).sockets[v.sockets[n]],
                  D.Send(s.sockets, v.instance, name, decode(update))[n], decode)
  {
    var c := view.sockets[v.sockets[n]];
    assert Alike(c, s.sockets[n], decode);
    HeldMore(c, update, decode);
    hide Held;
  }

  lemma SendShows(view: View, v: Names, s: D.System, t: D.System, decode: Decoder, except: WebSocket?, name: Option<nat>,
                  update: Bytes)
    requires Shows(view, v, s, decode) && forall n | n in v.sockets :: v.sockets[n] == except <==> name == Some(n)
    requires t.sockets == D.Send(s.sockets, v.instance, name, decode(update)) && t.subscribed == s.subscribed
    ensures Shows(SentTo(view, except, update), v, t, decode)
  {
    NamedKept(view.sockets.Keys, v, s, t);
    assert SentTo(view, except, update).sockets.Keys == view.sockets.Keys;
    hide Alike, Named, D.Send;
    forall n | n in v.sockets ensures n in t.sockets && v.sockets[n] in view.sockets
                                && Alike(SentTo(view, except, update).sockets[v.sockets[n]], t.sockets[n], decode)
    {
      SentAsSend(view, v, s, decode, except, name, update, n);
    }
  }

  /** Sending to the sockets of the room, except the sender if it is still there, is
      `SendToPeers`. */
  lemma SendsAsSendToPeers(view: View, v: Names, s: D.System, decode: Decoder, except: WebSocket?, name: Option<nat>,
                           row: Log.Row, update: Bytes)
    requires Shows(view, v, s, decode) && row in s.log.committed && decode(update) == row.update
    requires forall n | n in v.sockets :: v.sockets[n] == except <==> name == Some(n)
    ensures Shows(SentTo(view, except, update), v, D.Go(s, D.SendToPeers(row, v.instance, name)), decode)
  {
    SendShows(view, v, s, D.Go(s, D.SendToPeers(row, v.instance, name)), decode, except, name, update);
  }

  /** Relaying a frame of the outbox is `Relay`. */
  lemma RelaysAsRelay(view: View, v: Names, s: D.System, decode: Decoder, f: D.Frame, instanceId: Bytes, payload: Bytes)
    requires Shows(view, v, s, decode) && f in s.frames && f.instance == v.instance && decode(payload) == f.row.update
    requires |instanceId| == HEADER_SIZE && exists i :: 0 <= i < HEADER_SIZE && instanceId[i] != 0
    ensures Relayed(instanceId, FrameOf(payload)) == Some(payload)
    ensures Shows(SentTo(view, null, payload), v, D.Go(s, D.Relay(f)), decode)
  {
    FramesRelay(instanceId, payload);
    hide FrameOf, Relayed;
    SendShows(view, v, s, D.Go(s, D.Relay(f)), decode, null, None, payload);
  }

  lemma NamedLeaves(room: set<WebSocket>, v: Names, s: D.System, n: nat, t: D.System)
    requires Named(room, v, s) && n in v.sockets && t.sockets == s.sockets - {n}
    ensures Named(room - {v.sockets[n]}, v.(sockets := v.sockets - {n}), t)
    ensures room - {v.sockets[n]} != {} <==> D.Occupied(t.sockets, v.instance)
  {
    var names, rest := v.sockets - {n}, room - {v.sockets[n]};
    forall w | w in rest ensures exists m :: m in names && names[m] == w {
      var m :| m in v.sockets && v.sockets[m] == w;
      assert names[m] == w;
    }
    if w :| w in rest {
      var m :| m in names && names[m] == w;
      assert t.sockets[m].instance == v.instance;
    }
    if m :| m in t.sockets && t.sockets[m].instance == v.instance {
      assert v.sockets[m] in rest;
    }
  }

  /** Leaving a room is `Disconnect`: the subscription goes exactly when the machine's does. */
  lemma LeavesAsDisconnect(view: View, v: Names, s: D.System, decode: Decoder, n: nat)
    requires Shows(view, v, s, decode) && n in v.sockets && n in s.sockets && !s.sockets[n].open
    ensures Shows(Departed(view, v.sockets[n]), v.(sockets := v.sockets - {n}), D.Go(s, D.Disconnect(n)), decode)
  {
    var client, t := v.sockets[n], D.Go(s, D.Disconnect(n));
    assert n in s.sockets && s.sockets[n].instance == v.instance && client in view.sockets;
    NamedLeaves(view.sockets.Keys, v, s, n, t);
    assert Departed(view, client).sockets.Keys == view.sockets.Keys - {client};
    assert Departed(view, client).sockets == map[] <==> view.sockets.Keys - {client} == {};
    assert forall m | m in v.sockets && m != n :: v.sockets[m] != client && v.sockets[m] in view.sockets && m in s.sockets;
    hide Alike, Named, D.Occupied;
  }
}
