/**
  The shared state of app.py and the WebSocket edit loop: a canvas of
  `size * size` colour names, all `"green"` at start (app.py:31-32), the
  connection manager (app.py:28), and the body of `websocket_endpoint`
  (app.py:41-51), which reads frames until one of them raises or the
  client disconnects.
 */
module App {
  import opened Wrappers
  import opened Command
  import opened Connections

  /** `size`: the canvas is `Size` by `Size` cells. */
  const Size: nat := 10
  /** The number of cells, `size * size`. */
  const Cells: nat := Size * Size
  /** The colour every cell starts with. */
  const Green: string := "green"

  /** What handling one frame produced: the broadcast text and the sends
      it made, or the exception that ended the loop. */
  datatype Outcome = Delivered(message: string, sends: seq<Send>) | Failed(error: EditError)

  /** How a session ended: an uncaught exception, a `WebSocketDisconnect`
      (after which the connection was removed), or still waiting for the
      next frame once the given ones were handled. */
  datatype SessionEnd = Crashed(error: EditError) | Disconnected | Waiting

  /** The effect of a run of frames handled one after another from
      `canvas0`: the canvas after, how many frames were handled without
      error, the error that stopped the run if any, and the texts
      broadcast, in order. */
  datatype Trace = Trace(canvas: seq<string>, handled: nat, error: Option<EditError>, messages: seq<string>)

  /** One pass of the loop body on the state a run without error has
      reached: the frame is decided on the canvas as it stands, and either
      raises (the run stops) or writes one cell and broadcasts. */
  function Step(t: Trace, frame: string): (t': Trace)
    requires t.error.None? && |t.messages| == t.handled
    ensures |t'.canvas| == |t.canvas| && |t'.messages| == t'.handled
    ensures t'.error.None? <==> t'.handled == t.handled + 1
    ensures t'.error.Some? ==> t'.handled == t.handled && t'.canvas == t.canvas
  {
    match Decide(frame, |t.canvas|)
    case Err(e) => Trace(t.canvas, t.handled, Some(e), t.messages)
    case Ok(edit) =>
      Trace(t.canvas[edit.cell := edit.color], t.handled + 1, None, t.messages + [edit.message])
  }

  /** The loop of app.py:44-49 over `frames`: the frames are handled in
      order; the first error stops the loop, and no later frame is read. */
  function Replay(canvas0: seq<string>, frames: seq<string>): (t: Trace)
    ensures |t.canvas| == |canvas0|
    ensures t.handled <= |frames| && |t.messages| == t.handled
    ensures t.error.None? <==> t.handled == |frames|
    decreases |frames|
  {
    if frames == [] then Trace(canvas0, 0, None, [])
    else
      var t := Replay(canvas0, frames[..|frames| - 1]);
      if t.error.Some? then t else Step(t, frames[|frames| - 1])
  }

  /** Handling one more frame after an error-free run extends the run by
      one step. */
  lemma ReplayExtend(canvas0: seq<string>, frames: seq<string>, i: nat)
    requires i < |frames| && Replay(canvas0, frames[..i]).error.None?
    ensures Replay(canvas0, frames[..i + 1]) == Step(Replay(canvas0, frames[..i]), frames[i])
  {
    assert frames[..i + 1][..i] == frames[..i];
  }

  /** Once a frame has raised, the loop is dead: frames that arrive later
      change nothing. */
  lemma {:induction false} ReplayDeadAfterError(canvas0: seq<string>, frames: seq<string>, later: seq<string>)
    requires Replay(canvas0, frames).error.Some?
    ensures Replay(canvas0, frames + later) == Replay(canvas0, frames)
    decreases |later|
  {
    if later == [] {
      assert frames + later == frames;
    } else {
      var init := later[..|later| - 1];
      ReplayDeadAfterError(canvas0, frames, init);
      assert (frames + later)[..|frames + later| - 1] == frames + init;
    }
  }

  /** A run that has raised within its first `i` frames ends there. */
  lemma ReplayDeadAt(canvas0: seq<string>, frames: seq<string>, i: nat)
    requires i <= |frames| && Replay(canvas0, frames[..i]).error.Some?
    ensures Replay(canvas0, frames) == Replay(canvas0, frames[..i])
  {
    ReplayDeadAfterError(canvas0, frames[..i], frames[i..]);
    assert frames[..i] + frames[i..] == frames;
  }

  /** The frame that stopped a run is the one after the handled ones, it is
      the one that raised the error, and the run up to it had none. */
  lemma {:induction false} ReplayStopsAtError(canvas0: seq<string>, frames: seq<string>)
    requires Replay(canvas0, frames).error.Some?
    ensures var t := Replay(canvas0, frames);
            var before := Replay(canvas0, frames[..t.handled]);
            before.error.None?
            && before.canvas == t.canvas
            && Decide(frames[t.handled], |canvas0|) == Err(t.error.value)
    decreases |frames|
  {
    var last := |frames| - 1;
    var t := Replay(canvas0, frames);
    var prefix := frames[..last];
    if Replay(canvas0, prefix).error.Some? {
      ReplayStopsAtError(canvas0, prefix);
      assert prefix[..t.handled] == frames[..t.handled];
    } else {
      assert t.handled == last;
    }
  }

  /** Each handled frame was decided as a write, and the text the run
      broadcast for it is that write's text: the index field, a space and
      the colour. */
  lemma {:induction false} ReplayMessages(canvas0: seq<string>, frames: seq<string>, k: nat)
    requires k < Replay(canvas0, frames).handled
    ensures Decide(frames[k], |canvas0|).Ok?
    ensures Replay(canvas0, frames).messages[k] == Decide(frames[k], |canvas0|).value.message
    decreases |frames|
  {
    var prefix := frames[..|frames| - 1];
    var t := Replay(canvas0, prefix);
    if t.error.Some? || k < t.handled {
      ReplayMessages(canvas0, prefix, k);
      assert prefix[k] == frames[k];
    } else {
      assert k == |frames| - 1;
    }
  }

  /** If no frame among `frames[k+1..h]` that decides as a write writes
      cell `j`, neither does any frame among `prefix[k+1..h']` for a
      prefix of `frames` and `h' <= h`. */
  lemma NoLaterWriterInPrefix(n: nat, frames: seq<string>, prefix: seq<string>, j: nat, k: nat, h: nat, h': nat)
    requires prefix <= frames && h' <= h && h' <= |prefix|
    requires forall m :: k < m < h && m < |frames| && Decide(frames[m], n).Ok? ==>
               Decide(frames[m], n).value.cell != j
    ensures forall m :: k < m < h' && Decide(prefix[m], n).Ok? ==>
              Decide(prefix[m], n).value.cell != j
  {
    assert forall m :: 0 <= m < |prefix| ==> prefix[m] == frames[m];
  }

  /** A last frame that does not write cell `j` leaves it as the run
      without that frame left it. */
  lemma ReplayLastKeeps(canvas0: seq<string>, frames: seq<string>, j: nat)
    requires frames != [] && j < |canvas0|
    requires forall m :: |frames| - 1 <= m < Replay(canvas0, frames).handled && Decide(frames[m], |canvas0|).Ok? ==>
               Decide(frames[m], |canvas0|).value.cell != j
    ensures Replay(canvas0, frames).canvas[j] == Replay(canvas0, frames[..|frames| - 1]).canvas[j]
  {
  }

  /** A frame the run handled but the run without its last frame did not is
      that last frame, and it wrote its cell. */
  lemma ReplayLastWrites(canvas0: seq<string>, frames: seq<string>, k: nat)
    requires frames != []
    requires Replay(canvas0, frames[..|frames| - 1]).handled <= k < Replay(canvas0, frames).handled
    ensures k == |frames| - 1 && Decide(frames[k], |canvas0|).Ok?
    ensures Replay(canvas0, frames).canvas[Decide(frames[k], |canvas0|).value.cell]
            == Decide(frames[k], |canvas0|).value.color
  {
    var t := Replay(canvas0, frames[..|frames| - 1]);
    assert t.error.None?;
    assert Replay(canvas0, frames) == Step(t, frames[|frames| - 1]);
  }

  /** A cell ends a run with the colour of the last handled frame that
      wrote it. */
  lemma {:induction false} ReplayLastWriter(canvas0: seq<string>, frames: seq<string>, j: nat, k: nat)
    requires k < Replay(canvas0, frames).handled
    requires Decide(frames[k], |canvas0|).Ok? && Decide(frames[k], |canvas0|).value.cell == j
    requires forall m :: k < m < Replay(canvas0, frames).handled && Decide(frames[m], |canvas0|).Ok? ==>
               Decide(frames[m], |canvas0|).value.cell != j
    ensures j < |canvas0|
    ensures Replay(canvas0, frames).canvas[j] == Decide(frames[k], |canvas0|).value.color
    decreases |frames|
  {
    var last := |frames| - 1;
    var prefix := frames[..last];
    var t, r := Replay(canvas0, prefix), Replay(canvas0, frames);
    if k < t.handled {
      assert prefix[k] == frames[k];
      NoLaterWriterInPrefix(|canvas0|, frames, prefix, j, k, r.handled, t.handled);
      ReplayLastWriter(canvas0, prefix, j, k);
      if t.error.None? && Decide(frames[last], |canvas0|).Ok? {
        assert r == Step(t, frames[last]);
        assert k < last < r.handled;
      }
      ReplayLastKeeps(canvas0, frames, j);
    } else {
      ReplayLastWrites(canvas0, frames, k);
    }
  }

  /** No run of frames changes the number of cells, and a cell that no
      handled frame wrote keeps its colour; frames after the one that
      raised are never read, so they do not matter. */
  lemma {:induction false} ReplayWrites(canvas0: seq<string>, frames: seq<string>, j: nat)
    requires j < |canvas0|
    requires forall k :: 0 <= k < Replay(canvas0, frames).handled && Decide(frames[k], |canvas0|).Ok? ==>
               Decide(frames[k], |canvas0|).value.cell != j
    ensures |Replay(canvas0, frames).canvas| == |canvas0|
    ensures Replay(canvas0, frames).canvas[j] == canvas0[j]
    decreases |frames|
  {
    if frames != [] {
      var prefix := frames[..|frames| - 1];
      assert forall k :: 0 <= k < |prefix| ==> prefix[k] == frames[k];
      ReplayWrites(canvas0, prefix, j);
    }
  }

  class Server {
    /** `image`: the colour of each cell, in row-major order. */
    const image: array<string>
    /** `manager`: the registry of open connections. */
    const manager: ConnectionManager

    ghost predicate Valid()
      reads this
    {
      image.Length == Cells
    }

    /** Module start-up: `manager = ConnectionManager()` and
        `image = ["green" for i in range(size * size)]`. */
    constructor ()
      ensures Valid() && image.Length == 100 && fresh(image) && fresh(manager)
      ensures forall i :: 0 <= i < image.Length ==> image[i] == Green
      ensures manager.active == []
    {
      image := new string[Cells](_ => Green);
      manager := new ConnectionManager();
    }

    /** One pass of the loop body, app.py:46-49. A frame that fails to
        split into two fields, whose index is not an integer, or whose index
        is outside the list raises: the canvas is untouched and nothing is
        sent. Otherwise the cell is written and then the index field, a
        space and the colour go to every registered connection in order. */
    method HandleCommand(data: string) returns (out: Outcome)
      requires Valid()
      modifies image
      ensures Valid()
      ensures match Decide(data, Cells)
              case Err(e) =>
                image[..] == old(image[..]) && out == Failed(e)
              case Ok(edit) =>
                image[..] == old(image[..])[edit.cell := edit.color]
                && out == Delivered(edit.message, Fanout(manager.active, edit.message))
    {
      match Decide(data, image.Length)
      case Err(e) =>
        out := Failed(e);
      case Ok(edit) =>
        image[edit.cell] := edit.color;
        var sends := manager.Broadcast(edit.message);
        out := Delivered(edit.message, sends);
    }

    /** `websocket_endpoint` for one connection `conn` that sends `frames`
        and then, if `closes`, disconnects. The connection is registered
        first; frames are handled in order until one raises. Only the
        disconnect is caught and unregisters the connection: a session that
        crashes on a bad frame leaves its connection registered. Other
        sessions are taken not to run in between. */
    method Session(conn: ConnId, frames: seq<string>, closes: bool)
      returns (end: SessionEnd, broadcasts: seq<seq<Send>>)
      requires Valid()
      modifies image, manager
      ensures Valid()
      ensures image[..] == Replay(old(image[..]), frames).canvas
      ensures |broadcasts| == Replay(old(image[..]), frames).handled
      ensures forall k :: 0 <= k < |broadcasts| ==>
                broadcasts[k] == Fanout(old(manager.active) + [conn], Replay(old(image[..]), frames).messages[k])
      ensures Replay(old(image[..]), frames).error.Some? ==>
                end == Crashed(Replay(old(image[..]), frames).error.value)
                && manager.active == old(manager.active) + [conn]
      ensures Replay(old(image[..]), frames).error.None? && !closes ==>
                end == Waiting && manager.active == old(manager.active) + [conn]
      ensures Replay(old(image[..]), frames).error.None? && closes ==>
                end == Disconnected && manager.active == RemoveFirst(old(manager.active) + [conn], conn)
    {
      ghost var canvas0 := image[..];
      ghost var registered := manager.active + [conn];
      manager.Connect(conn);
      broadcasts := [];
      var i := 0;
      ghost var t := Replay(canvas0, frames[..0]);
      while i < |frames|
        invariant Valid()
        invariant 0 <= i <= |frames|
        invariant manager.active == registered
        invariant t == Replay(canvas0, frames[..i]) && t.error.None?
        invariant image[..] == t.canvas
        invariant |broadcasts| == i
        invariant forall k :: 0 <= k < i ==> broadcasts[k] == Fanout(registered, t.messages[k])
      {
        ReplayExtend(canvas0, frames, i);
        var out := HandleCommand(frames[i]);
        ghost var t' := Step(t, frames[i]);
        if out.Failed? {
          assert t'.canvas == t.canvas && t'.handled == i && t'.error == Some(out.error);
          ReplayDeadAt(canvas0, frames, i + 1);
          end := Crashed(out.error);
          return;
        }
        assert t'.messages == t.messages + [out.message];
        broadcasts := broadcasts + [out.sends];
        i := i + 1;
        t := t';
      }
      assert frames[..i] == frames;
      if closes {
        var ok := manager.Disconnect(conn);
        end := Disconnected;
      } else {
        end := Waiting;
      }
    }
  }
}
