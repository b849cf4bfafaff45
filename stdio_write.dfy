/**
 * The write side of the stdio layer (_write_r): routing each byte of a write
 * to the UART and screen sinks according to the stream's logging flags, then
 * for standard output, appending the bytes to the stdout ring.
 */
module StdioWrite {
  import opened Bytes
  import opened StdoutRing
  import opened StdioLog

  /** The bytes the UART receives for s: a carriage return goes out before every NUL. */
  function UartEcho(s: seq<Byte>): (r: seq<Byte>)
    ensures |r| >= |s|
    ensures s != [] ==> r[|r| - 1] == s[|s| - 1]
  {
    if s == [] then []
    else
      UartEcho(s[..|s| - 1]) + (if s[|s| - 1] == NUL then [CR, NUL] else [s[|s| - 1]])
  }

  /** Reading the UART stream back: a carriage return right before a NUL is dropped. */
  function UartDecode(t: seq<Byte>): (r: seq<Byte>)
    ensures |r| <= |t|
  {
    if t == [] then []
    else if |t| >= 2 && t[|t| - 2] == CR && t[|t| - 1] == NUL then UartDecode(t[..|t| - 2]) + [NUL]
    else UartDecode(t[..|t| - 1]) + [t[|t| - 1]]
  }

  /** The UART sees the written bytes unaltered apart from the inserted carriage returns. */
  lemma {:induction false} UartRoundTrip(s: seq<Byte>)
    ensures UartDecode(UartEcho(s)) == s
  {
    if s != [] {
      var p, b := s[..|s| - 1], s[|s| - 1];
      UartRoundTrip(p);
      var e := UartEcho(p) + (if b == NUL then [CR, NUL] else [b]);
      assert UartEcho(s) == e;
      UartDecodeSnoc(UartEcho(p), b);
      assert UartDecode(e) == p + [b] == s;
    }
  }

  /** Decoding one more echoed byte: a CR-NUL pair gives back the NUL, any other byte itself. */
  lemma UartDecodeSnoc(t: seq<Byte>, b: Byte)
    ensures UartDecode(t + (if b == NUL then [CR, NUL] else [b])) == UartDecode(t) + [b]
  {
    var u := t + (if b == NUL then [CR, NUL] else [b]);
    if b == NUL {
      assert u[..|u| - 2] == t;
    } else {
      assert u[..|u| - 1] == t;
    }
  }

  /** Each NUL costs exactly one extra UART byte. */
  lemma {:induction false} UartEchoLength(s: seq<Byte>)
    ensures |UartEcho(s)| == |s| + multiset(s)[NUL]
  {
    if s != [] {
      var p, b := s[..|s| - 1], s[|s| - 1];
      UartEchoLength(p);
      assert s == p + [b];
      assert multiset(s) == multiset(p) + multiset{b};
    }
  }

  /** Data without NUL bytes reaches the UART unchanged. */
  lemma {:induction false} UartEchoNulFree(s: seq<Byte>)
    requires NUL !in s
    ensures UartEcho(s) == s
  {
    if s != [] {
      var p := s[..|s| - 1];
      assert forall k :: 0 <= k < |p| ==> p[k] == s[k];
      UartEchoNulFree(p);
      assert s == p + [s[|s| - 1]];
    }
  }

  datatype PanicReason = UnknownFd(fd: int) | StdoutWithInterruptsDisabled

  /**
   * How a write ends: it returns a count, it is suspended in the ring's
   * blocking wait with rest still to be written, or the kernel panics.
   */
  datatype WriteOutcome = Returned(count: nat) | Suspended(rest: seq<Byte>) | Panicked(reason: PanicReason)

  /** The bytes of a write still waiting for room in the ring. */
  function Pending(outcome: WriteOutcome): seq<Byte>
  {
    if outcome.Suspended? then outcome.rest else []
  }

  /**
   * The stream whose flags a write to fd uses: standard output (1) or
   * standard error (2); once preemption is over standard output is treated
   * as standard error. Any other descriptor is refused.
   */
  function Stream(fd: int, preemptionOver: bool): (r: Option<nat>)
    ensures r.Some? <==> fd == 1 || fd == 2
    ensures r.Some? ==> 1 <= r.value <= 2 && (r.value == 1 <==> fd == 1 && !preemptionOver)
  {
    if fd == 1 then Some(if preemptionOver then 2 else 1)
    else if fd == 2 then Some(2)
    else None
  }

  predicate ToUart(flags: bv8)
  {
    flags & LOG_UART != 0
  }

  predicate ToScreen(flags: bv8)
  {
    flags & LOG_SCREEN != 0
  }

  /** A stream flagged for neither sink is flagged for none of LOG_MAX. */
  lemma AnySink(flags: bv8)
    ensures flags & LOG_MAX != 0 <==> ToUart(flags) || ToScreen(flags)
  {
  }

  /** What the UART receives for a write of s on a stream with these flags. */
  function UartOut(flags: bv8, s: seq<Byte>): seq<Byte>
  {
    if ToUart(flags) then UartEcho(s) else []
  }

  /** What the screen receives for a write of s on a stream with these flags. */
  function ScreenOut(flags: bv8, s: seq<Byte>): seq<Byte>
  {
    if ToScreen(flags) then s else []
  }

  /** The stdio layer: the stdout ring, the logging flags and the two output sinks. */
  class Stdio {
    const ring: Ring
    const log: LogFlags
    /** Everything sent to the serial port, oldest first. */
    var uart: seq<Byte>
    /** Everything sent to the framebuffer console, oldest first. */
    var screen: seq<Byte>

    ghost predicate Valid()
      reads this, ring, ring.page, log
    {
      ring.Valid() && log.Valid() && log.flags as object != ring.page
    }

    /** Start-up state: an empty non-blocking ring and the default flags. */
    constructor (bufLen: nat)
      requires 0 < bufLen
      ensures Valid() && fresh(ring) && fresh(ring.page) && fresh(log) && fresh(log.flags)
      ensures ring.cap == bufLen && ring.Contents == [] && !ring.blocking
      ensures log.flags[..] == [0, LOG_MAX, LOG_MAX]
      ensures uart == [] && screen == []
    {
      ring := new Ring(bufLen);
      log := new LogFlags();
      uart := [];
      screen := [];
    }

    /** The per-byte routing loop of _write_r. */
    method Route(flags: bv8, str: seq<Byte>)
      modifies this`uart, this`screen
      ensures uart == old(uart) + UartOut(flags, str)
      ensures screen == old(screen) + ScreenOut(flags, str)
    {
      AnySink(flags);
      if flags & LOG_MAX != 0 {
        for i := 0 to |str|
          invariant uart == old(uart) + UartOut(flags, str[..i])
          invariant screen == old(screen) + ScreenOut(flags, str[..i])
        {
          assert str[..i + 1][..i] == str[..i];
          PutByte(flags, str[i]);
        }
        assert str[..|str|] == str;
      }
    }

    /** One pass of the routing loop: a NUL goes to the UART after a carriage return. */
    method PutByte(flags: bv8, c: Byte)
      modifies this`uart, this`screen
      ensures uart == old(uart) + (if ToUart(flags) then (if c == NUL then [CR, NUL] else [c]) else [])
      ensures screen == old(screen) + (if ToScreen(flags) then [c] else [])
    {
      if ToUart(flags) {
        if c == NUL {
          uart := uart + [CR];
        }
        uart := uart + [c];
      }
      if ToScreen(flags) {
        screen := screen + [c];
      }
    }

    /**
     * _write_r: refuses descriptors other than 1 and 2, routes the bytes to
     * the sinks the stream is flagged for, and for standard output appends
     * them to the ring (a panic if interrupts are disabled). Standard error
     * returns the full count; standard output returns 0 once every byte is
     * in the ring.
     */
    method WriteR(fd: int, str: seq<Byte>, preemptionOver: bool, interruptsDisabled: bool)
      returns (outcome: WriteOutcome)
      requires Valid()
      modifies this`uart, this`screen, ring`off, ring`len, ring`Contents, ring.page
      ensures Valid() && ring.blocking == old(ring.blocking)
      ensures Stream(fd, preemptionOver).None? ==>
                outcome == Panicked(UnknownFd(fd)) && uart == old(uart) && screen == old(screen)
      ensures Stream(fd, preemptionOver).Some? ==>
                var flags := log.flags[Stream(fd, preemptionOver).value];
                uart == old(uart) + UartOut(flags, str) && screen == old(screen) + ScreenOut(flags, str)
      ensures Stream(fd, preemptionOver) != Some(1) || interruptsDisabled ==>
                ring.Contents == old(ring.Contents) && ring.off == old(ring.off) && ring.len == old(ring.len)
      ensures Stream(fd, preemptionOver) == Some(2) ==> outcome == Returned(|str|)
      ensures Stream(fd, preemptionOver) == Some(1) && interruptsDisabled ==>
                outcome == Panicked(StdoutWithInterruptsDisabled)
      ensures Stream(fd, preemptionOver) == Some(1) && !interruptsDisabled ==>
                (outcome == Returned(0) || (outcome.Suspended? && outcome.rest != [])) &&
                WriteEffect(ring.blocking, ring.cap, old(ring.Contents), old(ring.off), old(ring.len),
                            str, Pending(outcome), ring.Contents, ring.off, ring.len)
    {
      var stream := Stream(fd, preemptionOver);
      if stream.None? {
        return Panicked(UnknownFd(fd));
      }
      var file := stream.value;
      var flags := log.flags[file];
      Route(flags, str);
      if file == 1 {
        if interruptsDisabled {
          return Panicked(StdoutWithInterruptsDisabled);
        }
        var rest := ring.Write(str);
        assert log.flags[file] == flags;
        outcome := if rest == [] then Returned(0) else Suspended(rest);
      } else {
        outcome := Returned(|str|);
      }
    }
  }
}
