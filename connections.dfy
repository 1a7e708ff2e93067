/**
  `ConnectionManager` (app.py:9-25): the list of open WebSocket
  connections, appended to on connect, with the first occurrence removed on
  disconnect, and visited in list order on broadcast.
 */
module Connections {

  /** A connection, compared by identity as Python compares WebSocket
      objects; the socket itself is not modelled. */
  type ConnId = nat

  /** One `send_text` call: the connection written to and the text. */
  datatype Send = Send(to: ConnId, message: string)

  /** The sends a broadcast of `message` performs over `conns`, in order. */
  function Fanout(conns: seq<ConnId>, message: string): (sends: seq<Send>)
    ensures |sends| == |conns|
    ensures forall i :: 0 <= i < |conns| ==> sends[i] == Send(conns[i], message)
  {
    if conns == [] then [] else [Send(conns[0], message)] + Fanout(conns[1..], message)
  }

  /** `list.remove(c)`: `s` without its first occurrence of `c`; `s` itself
      when `c` does not occur. */
  function RemoveFirst(s: seq<ConnId>, c: ConnId): (r: seq<ConnId>)
    ensures c !in s ==> r == s
    ensures c in s ==> |r| == |s| - 1
  {
    if s == [] then []
    else if s[0] == c then s[1..]
    else [s[0]] + RemoveFirst(s[1..], c)
  }

  /** Only the entry at the first occurrence goes; the entries before and
      after it keep their order. */
  lemma {:induction false} RemoveFirstAt(s: seq<ConnId>, c: ConnId, i: nat)
    requires i < |s| && s[i] == c && c !in s[..i]
    ensures RemoveFirst(s, c) == s[..i] + s[i + 1..]
    decreases i
  {
    if i > 0 {
      assert s[0] in s[..i];
      assert s[1..][..i - 1] == s[1..i];
      RemoveFirstAt(s[1..], c, i - 1);
      assert s[1..][i..] == s[i + 1..];
      assert s[..i] == [s[0]] + s[1..i];
    }
  }

  /** Removal takes away exactly one `c`, and only when there is one. */
  lemma {:induction false} RemoveFirstCounts(s: seq<ConnId>, c: ConnId)
    ensures multiset(RemoveFirst(s, c)) == multiset(s) - multiset{c}
    decreases |s|
  {
    if s != [] {
      assert s == [s[0]] + s[1..];
      if s[0] != c {
        RemoveFirstCounts(s[1..], c);
      }
    }
  }

  /** A connection that was not registered before it connected is gone
      again once it disconnects: the registry is back where it was. */
  lemma {:induction false} ConnectThenDisconnect(s: seq<ConnId>, c: ConnId)
    requires c !in s
    ensures RemoveFirst(s + [c], c) == s
  {
    RemoveFirstAt(s + [c], c, |s|);
    assert (s + [c])[..|s|] == s;
  }

  class ConnectionManager {
    /** `active_connections`, in connection order. */
    var active: seq<ConnId>

    /** `ConnectionManager()`: no connection yet. */
    constructor ()
      ensures active == []
    {
      active := [];
    }

    /** `connect`: the new connection goes at the end; the earlier ones stay
        as they were. Accepting the socket is I/O and is not modelled. */
    method Connect(c: ConnId)
      modifies this
      ensures active == old(active) + [c]
    {
      active := active + [c];
    }

    /** `disconnect`: `list.remove`, which raises `ValueError` (`ok` is
        false, nothing changes) when `c` is not registered. */
    method Disconnect(c: ConnId) returns (ok: bool)
      modifies this
      ensures ok <==> c in old(active)
      ensures active == RemoveFirst(old(active), c)
      ensures ok ==> multiset(active) == multiset(old(active)) - multiset{c}
    {
      var i := 0;
      while i < |active| && active[i] != c
        invariant 0 <= i <= |active|
        invariant c !in active[..i]
      {
        i := i + 1;
      }
      if i == |active| {
        assert active[..i] == active;
        ok := false;
      } else {
        RemoveFirstAt(active, c, i);
        RemoveFirstCounts(active, c);
        active := active[..i] + active[i + 1..];
        ok := true;
      }
    }

    /** `broadcast`: one send of `message` to each registered connection,
        in list order. */
    method Broadcast(message: string) returns (sends: seq<Send>)
      ensures sends == Fanout(active, message)
    {
      sends := [];
      for i := 0 to |active|
        invariant |sends| == i
        invariant forall j :: 0 <= j < i ==> sends[j] == Send(active[j], message)
      {
        sends := sends + [Send(active[i], message)];
      }
    }
  }
}
