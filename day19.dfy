/**
 * The sequential state machine behind the /19 websockets (src/day_19.rs): the shared `WsState`
 * record, the serve/ping/pong session, the view counter endpoints, the room table and the rule
 * by which a room reader forwards frames. Sockets, tasks, locking and the broadcast channel's
 * delivery are not modelled; a channel is an object that records what was sent into it.
 */
module Websocket {
  import opened Wrappers
  import opened MachineInt
  import Http
  import Decimal

  /** A websocket message; only the payload of a text frame matters here. */
  datatype Message = Text(text: string) | Binary | Ping | Pong | Close

  /** One result of `recv`: a message, or a receive error. */
  datatype Received = Frame(message: Message) | Failure

  /** A room's broadcast sender: the texts sent into it, in order. */
  class Channel {
    var sent: seq<string>

    constructor ()
      ensures sent == []
    {
      sent := [];
    }

    /** `broadcast_channel.send(text)`: appends the text and changes nothing else. */
    method Send(text: string)
      modifies this
      ensures sent == old(sent) + [text]
    {
      sent := sent + [text];
    }
  }

  /** A room: its number and its broadcast channel. */
  datatype Room = Room(num: int, channel: Channel)

  // ---------------------------------------------------------------- the ping session

  /** What one received item does to the game flag, and the replies it sends. */
  function Step(running: bool, item: Received): (r: (bool, seq<string>))
    requires item.Frame?
    ensures r.1 == [] || r.1 == ["pong"]
    ensures r.1 == ["pong"] <==> item.message == Text("ping") && running
    ensures r.0 <==> running || item.message == Text("serve")
  {
    if item.message == Text("serve") then (true, [])
    else if item.message == Text("ping") && running then (running, ["pong"])
    else (running, [])
  }

  /**
   * A whole ping session from the given flag: items are handled in order until the stream ends
   * or a receive error closes it. The result is the final flag and everything sent back.
   */
  function Session(running: bool, items: seq<Received>): (bool, seq<string>)
    decreases |items|
  {
    if items == [] || items[0].Failure? then (running, [])
    else
      var step := Step(running, items[0]);
      var rest := Session(step.0, items[1..]);
      (rest.0, step.1 + rest.1)
  }

  /**
   * A session from `start` over `items` is half done at item `i`: the flag is `running`, the
   * replies so far are `sent`, and the rest of the session yields the whole session's result.
   */
  ghost predicate ResumesAt(start: bool, items: seq<Received>, i: nat, running: bool, sent: seq<string>)
    requires i <= |items|
  {
    Session(start, items) == (Session(running, items[i..]).0, sent + Session(running, items[i..]).1)
  }

  /** Handling a frame moves the session one item on. */
  lemma ResumeFrame(start: bool, items: seq<Received>, i: nat, running: bool, sent: seq<string>)
    requires i < |items| && items[i].Frame? && ResumesAt(start, items, i, running, sent)
    ensures ResumesAt(start, items, i + 1, Step(running, items[i]).0, sent + Step(running, items[i]).1)
  {
    assert items[i..][0] == items[i] && items[i..][1..] == items[i + 1..];
    var step := Step(running, items[i]);
    var rest := Session(step.0, items[i + 1..]);
    assert sent + (step.1 + rest.1) == (sent + step.1) + rest.1;
  }

  /** A receive error, or the end of the stream, ends the session where it stands. */
  lemma ResumeEnd(start: bool, items: seq<Received>, i: nat, running: bool, sent: seq<string>)
    requires i <= |items| && (i < |items| ==> items[i].Failure?) && ResumesAt(start, items, i, running, sent)
    ensures Session(start, items) == (running, sent)
  {
    if i < |items| {
      assert items[i..][0] == items[i];
    } else {
      assert items[i..] == [];
    }
    assert sent + [] == sent;
  }

  /** Everything a session sends is "pong". */
  lemma {:induction false} OnlyPongs(running: bool, items: seq<Received>)
    ensures forall i :: 0 <= i < |Session(running, items).1| ==> Session(running, items).1[i] == "pong"
    ensures |Session(running, items).1| <= |items|
    decreases |items|
  {
    if items != [] && items[0].Frame? {
      OnlyPongs(Step(running, items[0]).0, items[1..]);
    }
  }

  /** Before any "serve", a session on a stopped game sends nothing and leaves the game stopped. */
  lemma {:induction false} NoServeNoPong(items: seq<Received>)
    requires forall i :: 0 <= i < |items| ==> items[i] != Frame(Text("serve"))
    ensures Session(false, items) == (false, [])
  {
    if items != [] && items[0].Frame? {
      assert items[0] == Frame(items[0].message);
      assert Step(false, items[0]) == (false, []);
      NoServeNoPong(items[1..]);
      var r := Session(false, items[1..]);
      assert Session(false, items) == (r.0, [] + r.1);
      assert r == (false, []);
      assert [] + r.1 == [];
    }
  }

  /** Once the game runs, each "ping" before the first error earns one "pong". */
  lemma {:induction false} RunningAnswersPings(items: seq<Received>)
    ensures Session(true, items).0
    ensures |Session(true, items).1| == PingsBeforeFailure(items)
  {
    if items != [] && items[0].Frame? {
      RunningAnswersPings(items[1..]);
    }
  }

  /** The number of "ping" texts before the first receive error. */
  function PingsBeforeFailure(items: seq<Received>): nat {
    if items == [] || items[0].Failure? then 0
    else (if items[0].message == Text("ping") then 1 else 0) + PingsBeforeFailure(items[1..])
  }

  /** Nothing after a receive error is handled. */
  lemma FailureEnds(running: bool, before: seq<Received>, after: seq<Received>)
    requires forall i :: 0 <= i < |before| ==> before[i].Frame?
    ensures Session(running, before + [Failure] + after) == Session(running, before + [Failure])
    decreases |before|
  {
    if before != [] {
      assert (before + [Failure] + after)[1..] == before[1..] + [Failure] + after;
      assert (before + [Failure])[1..] == before[1..] + [Failure];
      FailureEnds(Step(running, before[0]).0, before[1..], after);
    }
  }

  /** "serve" twice in a row does what it does once. */
  lemma ServeIdempotent(running: bool, rest: seq<Received>)
    ensures Session(running, [Frame(Text("serve")), Frame(Text("serve"))] + rest)
         == Session(running, [Frame(Text("serve"))] + rest)
  {
    var serve := Frame(Text("serve"));
    ServeStarts(running, rest);
    ServeStarts(true, rest);
    assert [serve, serve] + rest == [serve] + ([serve] + rest);
    ServeStarts(running, [serve] + rest);
  }

  /** A "serve" starts the game and sends nothing. */
  lemma ServeStarts(running: bool, rest: seq<Received>)
    ensures Session(running, [Frame(Text("serve"))] + rest) == Session(true, rest)
  {
    var items := [Frame(Text("serve"))] + rest;
    assert items[0] == Frame(Text("serve")) && items[1..] == rest;
    var r := Session(true, rest);
    assert Session(running, items) == (r.0, [] + r.1);
    assert [] + r.1 == r.1;
  }

  // ---------------------------------------------------------------- room readers

  /** The texts a room reader forwards: the text frames, verbatim, everything else skipped. */
  function Forwarded(items: seq<Received>): (texts: seq<string>)
    ensures |texts| <= |items|
  {
    if items == [] then []
    else
      var head := if items[0].Frame? && items[0].message.Text? then [items[0].message.text] else [];
      head + Forwarded(items[1..])
  }

  /** Forwarding a stream in two parts forwards each part in turn. */
  lemma {:induction false} ForwardedAppend(a: seq<Received>, b: seq<Received>)
    ensures Forwarded(a + b) == Forwarded(a) + Forwarded(b)
  {
    if a == [] {
      assert a + b == b;
    } else {
      var head := if a[0].Frame? && a[0].message.Text? then [a[0].message.text] else [];
      assert (a + b)[0] == a[0] && (a + b)[1..] == a[1..] + b;
      assert Forwarded(a + b) == head + Forwarded(a[1..] + b);
      ForwardedAppend(a[1..], b);
      assert head + (Forwarded(a[1..]) + Forwarded(b)) == (head + Forwarded(a[1..])) + Forwarded(b);
    }
  }

  /**
   * A receive error or a frame that is not text forwards nothing, and the reader carries on:
   * what comes after it is forwarded as if it had not been there.
   */
  lemma {:induction false} ForwardedSkips(a: seq<Received>, m: Message, b: seq<Received>)
    ensures Forwarded([Failure]) == []
    ensures !m.Text? ==> Forwarded([Frame(m)]) == []
    ensures Forwarded(a + [Failure] + b) == Forwarded(a) + Forwarded(b)
    ensures !m.Text? ==> Forwarded(a + [Frame(m)] + b) == Forwarded(a) + Forwarded(b)
  {
    assert [Failure][1..] == [];
    assert [Frame(m)][1..] == [];
    ForwardedAppend(a, [Failure]);
    ForwardedAppend(a + [Failure], b);
    ForwardedAppend(a, [Frame(m)]);
    ForwardedAppend(a + [Frame(m)], b);
    assert Forwarded(a) + [] == Forwarded(a);
  }

  /** A stream of text frames only is forwarded as exactly those texts, in order. */
  lemma {:induction false} ForwardedTexts(texts: seq<string>)
    ensures Forwarded(seq(|texts|, i requires 0 <= i < |texts| => Frame(Text(texts[i])))) == texts
  {
    var items := seq(|texts|, i requires 0 <= i < |texts| => Frame(Text(texts[i])));
    if texts != [] {
      ForwardedTexts(texts[1..]);
      assert items[1..] == seq(|texts[1..]|, i requires 0 <= i < |texts[1..]| => Frame(Text(texts[1..][i])));
      assert texts == [texts[0]] + texts[1..];
    }
  }

  /**
   * `read`: every item of the reader's stream is handled in turn; a text is sent into the
   * room's channel (a failed send is ignored), other frames and receive errors are skipped.
   */
  method Read(items: seq<Received>, channel: Channel)
    modifies channel
    ensures channel.sent == old(channel.sent) + Forwarded(items)
  {
    var i := 0;
    assert items[0..] == items;
    while i < |items|
      invariant 0 <= i <= |items|
      invariant channel.sent + Forwarded(items[i..]) == old(channel.sent) + Forwarded(items)
    {
      assert items[i..][1..] == items[i + 1..];
      if items[i].Frame? && items[i].message.Text? {
        channel.Send(items[i].message.text);
      }
      i := i + 1;
    }
  }

  // ---------------------------------------------------------------- the shared state

  /** The shared `WsState` behind the mutex. */
  class WsState {
    var gameRunning: bool
    var views: int
    var rooms: map<int, Room>

    /** `views` is an `i32`, room 0 is never present and every room is filed under its number. */
    predicate Valid()
      reads this
    {
      IsI32(views) && 0 !in rooms && forall n :: n in rooms ==> rooms[n].num == n
    }

    /** `init_websocket`: no game, no views, no rooms. */
    constructor ()
      ensures Valid()
      ensures !gameRunning && views == 0 && rooms == map[]
    {
      gameRunning, views, rooms := false, 0, map[];
    }

    /**
     * `ping_websocket`: handles the received items until the stream ends or fails, and answers
     * with what `Session` sends; the flag ends as `Session` leaves it, and nothing else changes.
     */
    method PingSession(items: seq<Received>) returns (replies: seq<string>)
      requires Valid()
      modifies this
      ensures Valid()
      ensures (gameRunning, replies) == Session(old(gameRunning), items)
      ensures views == old(views) && rooms == old(rooms)
    {
      replies := [];
      var i := 0;
      assert items[0..] == items && [] + Session(gameRunning, items).1 == Session(gameRunning, items).1;
      while i < |items|
        invariant 0 <= i <= |items|
        invariant views == old(views) && rooms == old(rooms)
        invariant ResumesAt(old(gameRunning), items, i, gameRunning, replies)
      {
        if items[i].Failure? {
          ResumeEnd(old(gameRunning), items, i, gameRunning, replies);
          return;
        }
        ResumeFrame(old(gameRunning), items, i, gameRunning, replies);
        ghost var step := Step(gameRunning, items[i]);
        ghost var sent := replies;
        var message := items[i].message;
        if message == Text("serve") {
          gameRunning := true;
        } else if message == Text("ping") && gameRunning {
          replies := replies + ["pong"];
        } else {
          assert replies + [] == replies;
        }
        assert gameRunning == step.0 && replies == sent + step.1;
        i := i + 1;
      }
      ResumeEnd(old(gameRunning), items, i, gameRunning, replies);
    }

    /** `day19_room_reset_views`: views back to 0 and the game stopped; the rooms stay. */
    method ResetViews() returns (status: Http.StatusCode)
      requires Valid()
      modifies this
      ensures Valid()
      ensures views == 0 && !gameRunning && rooms == old(rooms)
      ensures status == Http.OK
    {
      views := 0;
      gameRunning := false;
      status := Http.OK;
    }

    /** `day19_room_get_views`: 200 and the view count in decimal, which reads back as the count. */
    method GetViews() returns (status: Http.StatusCode, body: string)
      requires Valid()
      ensures status == Http.OK
      ensures body == Decimal.Show(views) && Decimal.ParseI32(body) == Some(views)
    {
      Decimal.ShowParses(views, I32_MIN, I32_MAX);
      status, body := Http.OK, Decimal.Show(views);
    }

    /**
     * The table part of `room_websocket`: a non-zero room number files a new room with a fresh
     * channel under that number (replacing any room there) and the session gets that channel;
     * room 0 is never filed, so looking it up fails (the `unwrap` at the lookup panics), which
     * is `None` here.
     */
    method JoinRoom(num: int) returns (channel: Option<Channel>)
      requires Valid()
      modifies this
      ensures Valid()
      ensures num == 0 ==> channel == None && rooms == old(rooms)
      ensures num != 0 ==> channel.Some? && fresh(channel.value) && channel.value.sent == []
      ensures num != 0 ==> channel.Some? && rooms == old(rooms)[num := Room(num, channel.value)]
      ensures gameRunning == old(gameRunning) && views == old(views)
    {
      if num != 0 {
        var c := new Channel();
        rooms := rooms[num := Room(num, c)];
      }
      if num in rooms {
        channel := Some(rooms[num].channel);
      } else {
        channel := None;
      }
    }
  }
}
