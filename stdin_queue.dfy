/**
 * The line input queue behind standard input: a 512-byte buffer filled by
 * the receive path one character at a time, with DEL erasing the last
 * queued character, and drained from the front by _read_r.
 */
module StdinQueue {
  import opened Bytes

  /** Size of stdin_buf. */
  const STDIN_BUFLEN: nat := 512

  /**
   * The queued bytes after receiving c: DEL erases the newest byte (if any),
   * any other byte is appended while there is room and dropped otherwise.
   */
  function Edit(q: seq<Byte>, c: Byte): (r: seq<Byte>)
    requires |q| <= STDIN_BUFLEN
    ensures |r| <= STDIN_BUFLEN
  {
    if c == DEL then (if q == [] then [] else q[..|q| - 1])
    else if |q| < STDIN_BUFLEN then q + [c]
    else q
  }

  /** The queued bytes after receiving the bytes of s in order. */
  function EditAll(q: seq<Byte>, s: seq<Byte>): (r: seq<Byte>)
    requires |q| <= STDIN_BUFLEN
    ensures |r| <= STDIN_BUFLEN
  {
    if s == [] then q else Edit(EditAll(q, s[..|s| - 1]), s[|s| - 1])
  }

  /**
   * What the receive path echoes to standard error for c: a destructive
   * backspace when DEL erases something, nothing for DEL on an empty queue,
   * otherwise c itself unless receive echo is suppressed.
   */
  function Echo(q: seq<Byte>, c: Byte, dropRx: bool): (r: seq<Byte>)
    ensures |r| <= 3
    ensures r == [] <==> (c == DEL && q == []) || (c != DEL && dropRx)
    ensures c != DEL && r != [] ==> r == [c]
  {
    if c == DEL then (if q == [] then [] else [BS, SPACE, BS])
    else if dropRx then []
    else [c]
  }

  /** The echo for receiving the bytes of s in order. */
  function EchoAll(q: seq<Byte>, s: seq<Byte>, dropRx: bool): (r: seq<Byte>)
    requires |q| <= STDIN_BUFLEN
    ensures |r| <= 3 * |s|
  {
    if s == [] then []
    else EchoAll(q, s[..|s| - 1], dropRx) + Echo(EditAll(q, s[..|s| - 1]), s[|s| - 1], dropRx)
  }

  /** Receiving one more byte of line: the step the receive loops take. */
  lemma ReceiveStep(q0: seq<Byte>, line: seq<Byte>, i: nat, dropRx: bool)
    requires |q0| <= STDIN_BUFLEN && i < |line|
    ensures EditAll(q0, line[..i + 1]) == Edit(EditAll(q0, line[..i]), line[i])
    ensures EchoAll(q0, line[..i + 1], dropRx) ==
              EchoAll(q0, line[..i], dropRx) + Echo(EditAll(q0, line[..i]), line[i], dropRx)
    ensures multiset(line[..i + 1])[LF] == multiset(line[..i])[LF] + (if line[i] == LF then 1 else 0)
  {
    assert line[..i + 1][..i] == line[..i];
    assert line[..i + 1] == line[..i] + [line[i]];
  }

  /** Bytes that are not DEL are queued in order as long as they fit. */
  lemma {:induction false} EditAllAppends(q: seq<Byte>, s: seq<Byte>)
    requires DEL !in s && |q| + |s| <= STDIN_BUFLEN
    ensures EditAll(q, s) == q + s
  {
    if s != [] {
      var p := s[..|s| - 1];
      assert forall k :: 0 <= k < |p| ==> p[k] == s[k];
      EditAllAppends(q, p);
      assert q + p + [s[|s| - 1]] == q + s;
    }
  }

  /** Without DEL bytes the echo is the received text itself, or nothing when suppressed. */
  lemma {:induction false} EchoAllPlain(q: seq<Byte>, s: seq<Byte>, dropRx: bool)
    requires |q| <= STDIN_BUFLEN && DEL !in s
    ensures EchoAll(q, s, dropRx) == if dropRx then [] else s
  {
    if s != [] {
      var p := s[..|s| - 1];
      assert forall k :: 0 <= k < |p| ==> p[k] == s[k];
      var c := s[|s| - 1];
      assert c in s;
      EchoAllPlain(q, p, dropRx);
      assert Echo(EditAll(q, p), c, dropRx) == (if dropRx then [] else [c]);
      assert EchoAll(q, s, dropRx) == EchoAll(q, p, dropRx) + (if dropRx then [] else [c]);
      assert p + [c] == s;
    }
  }

  /** Once the queue is full, bytes other than DEL are dropped. */
  lemma {:induction false} EditAllFull(q: seq<Byte>, s: seq<Byte>)
    requires DEL !in s && |q| == STDIN_BUFLEN
    ensures EditAll(q, s) == q
  {
    if s != [] {
      var p := s[..|s| - 1];
      assert forall k :: 0 <= k < |p| ==> p[k] == s[k];
      EditAllFull(q, p);
    }
  }

  /** A character followed by DEL leaves the queue as it was, if there was room for it. */
  lemma EraseUndoes(q: seq<Byte>, c: Byte)
    requires |q| < STDIN_BUFLEN && c != DEL
    ensures EditAll(q, [c, DEL]) == q
  {
    var s := [c, DEL];
    assert s[..1] == [c] && [c][..0] == [];
    assert EditAll(q, [c]) == Edit(q, c) == q + [c];
    assert EditAll(q, s) == Edit(q + [c], DEL);
    assert (q + [c])[..|q|] == q;
  }

  /**
   * Typing "ab", DEL, "c" and a newline queues "ac" and the newline. The input
   * is a parameter fixed by the requires, so the verifier unfolds EditAll
   * one step at a time under the proof's control rather than on the literal.
   */
  lemma EditExample(s: seq<Byte>)
    requires s == [0x61, 0x62, DEL, 0x63, LF]
    ensures EditAll([], s) == [0x61, 0x63, LF]
  {
    var s1, s2, s3, s4 := s[..1], s[..2], s[..3], s[..4];
    assert s1 == [] + [s[0]] && s2 == s1 + [s[1]] && s3 == s2 + [s[2]];
    assert s4 == s3 + [s[3]] && s == s4 + [s[4]];
    EditAllSnoc([], [], s[0]);
    EditAllSnoc([], s1, s[1]);
    EditAllSnoc([], s2, s[2]);
    EditAllSnoc([], s3, s[3]);
    EditAllSnoc([], s4, s[4]);
    assert EditAll([], s2) == [s[0], s[1]];
    assert EditAll([], s4) == [s[0], s[3]];
  }

  lemma EditAllSnoc(q: seq<Byte>, s: seq<Byte>, c: Byte)
    requires |q| <= STDIN_BUFLEN
    ensures EditAll(q, s + [c]) == Edit(EditAll(q, s), c)
  {
    assert (s + [c])[..|s|] == s;
  }

  /** What _read_r does: returns the bytes it read, or has to wait for input. */
  datatype ReadOutcome = Read(bytes: seq<Byte>) | MustWait

  class LineQueue {
    /** stdin_buf. */
    const buf: array<Byte>
    /** bufoff: number of queued bytes, at the front of buf. */
    var bufoff: nat

    ghost predicate Valid()
      reads this
    {
      buf.Length == STDIN_BUFLEN && bufoff <= STDIN_BUFLEN
    }

    /** The queued bytes, oldest first. */
    function Queued(): (r: seq<Byte>)
      reads this, buf
      requires Valid()
      ensures |r| == bufoff
    {
      buf[..bufoff]
    }

    constructor ()
      ensures Valid() && fresh(buf) && Queued() == []
    {
      buf := new Byte[STDIN_BUFLEN];
      bufoff := 0;
    }

    /**
     * queue_rx_char: edits the queue as Edit says, returns the echo for
     * standard error, and whether the newline event fires. The slot DEL
     * frees is zeroed; no other slot changes beyond the appended byte.
     */
    method QueueRxChar(c: Byte, dropRx: bool) returns (echo: seq<Byte>, wake: bool)
      requires Valid()
      modifies this`bufoff, buf
      ensures Valid()
      ensures Queued() == Edit(old(Queued()), c)
      ensures echo == Echo(old(Queued()), c, dropRx)
      ensures wake <==> c == LF
      ensures buf[..] ==
                if c == DEL then (if old(bufoff) == 0 then old(buf[..]) else old(buf[..])[bufoff := NUL])
                else if old(bufoff) < STDIN_BUFLEN then old(buf[..])[old(bufoff) := c]
                else old(buf[..])
    {
      if c == DEL {
        if bufoff > 0 {
          bufoff := bufoff - 1;
          buf[bufoff] := NUL;
          echo := [BS, SPACE, BS];
        } else {
          echo := [];
        }
        return echo, false;
      }
      echo := if dropRx then [] else [c];
      if bufoff < STDIN_BUFLEN {
        buf[bufoff] := c;
        bufoff := bufoff + 1;
      }
      wake := c == LF;
    }

    /**
     * queue_rx_string: receives the characters of a NUL-terminated string,
     * up to the terminator. Returns the echo and how many newline events fired.
     */
    method QueueRxString(s: seq<Byte>, dropRx: bool) returns (echo: seq<Byte>, wakes: nat)
      requires Valid() && NUL in s
      modifies this`bufoff, buf
      ensures Valid()
      ensures Queued() == EditAll(old(Queued()), UpToNul(s))
      ensures echo == EchoAll(old(Queued()), UpToNul(s), dropRx)
      ensures wakes == multiset(UpToNul(s))[LF]
    {
      ghost var q0 := Queued();
      ghost var line := UpToNul(s);
      assert |line| < |s| by {
        assert line == s[..|line|];
      }
      echo, wakes := [], 0;
      var i := 0;
      while s[i] != NUL
        invariant Valid()
        invariant 0 <= i <= |line|
        invariant Queued() == EditAll(q0, line[..i])
        invariant echo == EchoAll(q0, line[..i], dropRx)
        invariant wakes == multiset(line[..i])[LF]
        decreases |line| - i
      {
        ReceiveStep(q0, line, i, dropRx);
        var e, w := QueueRxChar(s[i], dropRx);
        echo := echo + e;
        if w {
          wakes := wakes + 1;
        }
        i := i + 1;
      }
      assert line[..i] == line;
    }

    /**
     * _read_r: a zero-length read returns at once; on an empty queue the
     * reader must wait for input; otherwise the first min(bufoff, n) queued
     * bytes are returned and the rest move to the front, in order.
     */
    method ReadR(n: nat) returns (outcome: ReadOutcome)
      requires Valid()
      modifies this`bufoff, buf
      ensures Valid()
      ensures n == 0 ==> outcome == Read([]) && bufoff == old(bufoff) && buf[..] == old(buf[..])
      ensures n > 0 && old(bufoff) == 0 ==> outcome == MustWait && bufoff == 0 && buf[..] == old(buf[..])
      ensures n > 0 && old(bufoff) > 0 ==>
                outcome.Read? && |outcome.bytes| == Min(old(bufoff), n) &&
                old(Queued()) == outcome.bytes + Queued()
      ensures forall k :: bufoff <= k < STDIN_BUFLEN ==> buf[k] == old(buf[k])
    {
      if n == 0 {
        return Read([]);
      }
      if bufoff == 0 {
        // event_wait(&stdin_ev): nothing is read until input arrives.
        return MustWait;
      }
      ghost var q0 := Queued();
      var readln := Min(bufoff, n);
      var bytes := buf[..readln];
      if bufoff > n {
        ShiftDown(readln);
      }
      bufoff := bufoff - readln;
      assert bytes + Queued() == q0;
      outcome := Read(bytes);
    }

    /** The copy that moves the unread bytes to the front of stdin_buf. */
    method ShiftDown(d: nat)
      requires Valid() && 0 < d < bufoff
      modifies buf
      ensures forall k :: 0 <= k < bufoff - d ==> buf[k] == old(buf[d + k])
      ensures forall k :: bufoff - d <= k < STDIN_BUFLEN ==> buf[k] == old(buf[k])
    {
      for k := 0 to bufoff - d
        invariant forall j :: 0 <= j < k ==> buf[j] == old(buf[d + j])
        invariant forall j :: k <= j < STDIN_BUFLEN ==> buf[j] == old(buf[j])
      {
        buf[k] := buf[d + k];
      }
    }
  }
}
