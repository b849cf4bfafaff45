/**
 * The USB loader: the upload buffer that bulk OUT transfers on endpoint 2
 * fill, and the class requests on the control endpoint that start uploads,
 * discard them, inject standard input, switch the stdio mode, read back
 * standard output and poll for command completion.
 */
module UsbLoader {
  import opened Bytes
  import opened StdoutRing
  import opened StdinQueue

  /** Initial size of the upload buffer (1 MiB). */
  const UPLOADSZ: nat := 1024 * 1024
  /** Largest upload buffer (128 MiB). */
  const UPLOADSZ_MAX: nat := 1024 * 1024 * 128
  /** The USB bulk packet size that upload sizes are rounded up to. */
  const BULK_PACKET: nat := 0x200
  const TWO32: nat := 0x1_0000_0000
  /** The bulk OUT endpoint uploads arrive on. */
  const UPLOAD_ENDPOINT: nat := 2

  type U16 = x: int | 0 <= x < 0x1_0000

  /** The value of a 32-bit word stored least significant byte first. */
  function LittleEndian32(p: seq<Byte>): (v: nat)
    requires |p| == 4
    ensures v < TWO32
  {
    p[0] as int + 0x100 * p[1] as int + 0x1_0000 * p[2] as int + 0x100_0000 * p[3] as int
  }

  /** The four bytes of a 32-bit word, least significant first. */
  function LittleEndianBytes(v: nat): (p: seq<Byte>)
    requires v < TWO32
    ensures |p| == 4
  {
    [v % 0x100, v / 0x100 % 0x100, v / 0x1_0000 % 0x100, v / 0x100_0000]
  }

  lemma LittleEndianDecodeEncode(v: nat)
    requires v < TWO32
    ensures LittleEndian32(LittleEndianBytes(v)) == v
  {
    var p := LittleEndianBytes(v);
    assert v / 0x100 == v / 0x100 / 0x100 * 0x100 + p[1];
    assert v / 0x1_0000 == v / 0x100 / 0x100;
    assert v / 0x1_0000 == v / 0x1_0000 / 0x100 * 0x100 + p[2];
    assert v / 0x100_0000 == v / 0x1_0000 / 0x100;
  }

  lemma LittleEndianEncodeDecode(p: seq<Byte>)
    requires |p| == 4
    ensures LittleEndianBytes(LittleEndian32(p)) == p
  {
    var v := LittleEndian32(p);
    var b0, b1, b2, b3 := p[0] as int, p[1] as int, p[2] as int, p[3] as int;
    var hi1, hi2 := b1 + 0x100 * b2 + 0x1_0000 * b3, b2 + 0x100 * b3;
    ModUnique(v, hi1, 0x100);
    ModUnique(hi1, hi2, 0x100);
    ModUnique(v, hi2, 0x1_0000);
    ModUnique(hi2, b3, 0x100);
    ModUnique(v, b3, 0x100_0000);
    var r := LittleEndianBytes(v);
    assert r[0] == p[0] && r[1] == p[1] && r[2] == p[2] && r[3] == p[3];
  }

  /**
   * (v + 0x1ff) & ~0x1ff in 32-bit unsigned arithmetic: the sum wraps
   * modulo 2^32 and the mask clears its low nine bits. The result is the
   * smallest multiple of the bulk packet size not below v, except that
   * sizes above the last such multiple wrap around to 0.
   */
  function RoundUp(v: nat): (r: nat)
    requires v < TWO32
    ensures r % BULK_PACKET == 0 && r < TWO32
    ensures v <= TWO32 - BULK_PACKET ==> v <= r < v + BULK_PACKET
    ensures v > TWO32 - BULK_PACKET ==> r == 0
  {
    var x := (v + 0x1ff) % TWO32;
    x - x % BULK_PACKET
  }

  lemma RoundUpExamples()
    ensures RoundUp(0) == 0 && RoundUp(1) == 512 && RoundUp(512) == 512 && RoundUp(513) == 1024
    ensures RoundUp(0xFFFF_FE01) == 0 && RoundUp(0xFFFF_FFFF) == 0
  {
  }

  /** A control-endpoint setup packet. */
  datatype Setup = Setup(requestType: Byte, request: Byte, value: U16, index: U16, length: U16)

  /** Bit 7 of bmRequestType: the data stage runs from device to host. */
  predicate DeviceToHost(requestType: Byte)
  {
    requestType >= 0x80
  }

  /** Bits 6..5 of bmRequestType: 0 standard, 1 class, 2 vendor. */
  function Kind(requestType: Byte): nat
  {
    requestType / 0x20 % 4
  }

  /** Bits 4..0 of bmRequestType: 0 device, 1 interface, 2 endpoint, 3 other. */
  function Recipient(requestType: Byte): nat
  {
    requestType % 0x20
  }

  const KIND_CLASS: nat := 1
  const RECIPIENT_INTERFACE: nat := 1

  datatype Mode =
    | WaitForCommand  // stdin injection waits for the command handler; stdout overwrites
    | BlockStdout     // stdout writers wait for the host to read; no waiting on stdin
    | ResetAll        // neither

  /** The requests ep0_device_request understands. */
  datatype Request =
    | Unhandled
    | UploadWithSize        // OUT 1, wLength 4: the new size follows in a data stage
    | UploadNow             // OUT 1, wLength 0: upload with the current size
    | Discard               // OUT 2
    | InjectStdin           // OUT 3: the bytes follow in a data stage
    | SetMode(mode: Mode)   // OUT 4
    | ReadStdout(max: nat)  // IN 1
    | Poll                  // IN 2

  predicate HostToDeviceRequest(r: Request)
  {
    r.UploadWithSize? || r.UploadNow? || r.Discard? || r.InjectStdin? || r.SetMode?
  }

  /** The setup packet's wLength: the size of the data stage the request carries. */
  predicate DataStageFits(r: Request, length: nat)
  {
    match r
    case Unhandled => true
    case UploadWithSize => length == 4
    case InjectStdin => 1 <= length <= STDIN_BUFLEN
    case ReadStdout(max) => max == length && (length == 0x200 || length == 0x1000)
    case Poll => length == 1
    case _ => length == 0
  }

  /**
   * The request-validation part of ep0_device_request. Everything it
   * accepts is a class request addressed with wIndex 0, travels in the
   * direction its bmRequestType names, and carries a data stage of the
   * length the request needs; an upload cannot start while one is pending.
   */
  function Decide(s: Setup, waiting: bool): (r: Request)
    ensures r != Unhandled ==>
              Kind(s.requestType) == KIND_CLASS && Recipient(s.requestType) == RECIPIENT_INTERFACE &&
              s.index == 0 && (HostToDeviceRequest(r) <==> !DeviceToHost(s.requestType))
    ensures DataStageFits(r, s.length)
    ensures waiting ==> !r.UploadWithSize? && !r.UploadNow?
    ensures r.UploadWithSize? || r.UploadNow? ==> s.requestType == 0x21 && s.request == 1
    ensures r.Discard? ==> s.requestType == 0x21 && s.request == 2
    ensures r.InjectStdin? ==> s.requestType == 0x21 && s.request == 3
    ensures r.SetMode? ==> s.requestType == 0x21 && s.request == 4
    ensures r.ReadStdout? ==> s.requestType == 0xA1 && s.request == 1
    ensures r.Poll? ==> s.requestType == 0xA1 && s.request == 2
    ensures r != Unhandled && !r.SetMode? ==> s.value == 0
    ensures r.SetMode? ==>
              (r.mode == WaitForCommand <==> s.value == 0) &&
              (r.mode == BlockStdout <==> s.value == 1) &&
              (r.mode == ResetAll <==> s.value == 0xFFFF)
  {
    if s.requestType == 0x21 then
      if s.request == 1 then
        if s.value != 0 || s.index != 0 || waiting then Unhandled
        else if s.length == 4 then UploadWithSize
        else if s.length == 0 then UploadNow
        else Unhandled
      else if s.request == 2 then
        if s.value != 0 || s.index != 0 || s.length != 0 then Unhandled else Discard
      else if s.request == 3 then
        if s.value != 0 || s.index != 0 || s.length == 0 || s.length > 512 then Unhandled else InjectStdin
      else if s.request == 4 then
        if s.index != 0 || s.length != 0 then Unhandled
        else if s.value == 0 then SetMode(WaitForCommand)
        else if s.value == 1 then SetMode(BlockStdout)
        else if s.value == 0xFFFF then SetMode(ResetAll)
        else Unhandled
      else Unhandled
    else if s.requestType == 0xA1 then
      if s.request == 1 then
        if s.value != 0 || s.index != 0 || (s.length != 512 && s.length != 0x1000) then Unhandled
        else ReadStdout(s.length)
      else if s.request == 2 then
        if s.value != 0 || s.index != 0 || s.length != 1 then Unhandled else Poll
      else Unhandled
    else Unhandled
  }

  /**
   * Conversely, every packet that meets a request's conditions is accepted
   * as that request: its type and number, wValue and wIndex 0 (wIndex 0 and
   * one of the three values for a mode change), the length the request
   * needs, and for an upload no upload pending.
   */
  lemma DecideAccepts(s: Setup, waiting: bool)
    ensures s.requestType == 0x21 && s.request == 1 && s.value == 0 && s.index == 0 && !waiting ==>
              (s.length == 4 ==> Decide(s, waiting) == UploadWithSize) &&
              (s.length == 0 ==> Decide(s, waiting) == UploadNow)
    ensures s.requestType == 0x21 && s.request == 2 && s.value == 0 && s.index == 0 && s.length == 0 ==>
              Decide(s, waiting) == Discard
    ensures s.requestType == 0x21 && s.request == 3 && s.value == 0 && s.index == 0 &&
            1 <= s.length <= STDIN_BUFLEN ==>
              Decide(s, waiting) == InjectStdin
    ensures s.requestType == 0x21 && s.request == 4 && s.index == 0 && s.length == 0 ==>
              (s.value == 0 ==> Decide(s, waiting) == SetMode(WaitForCommand)) &&
              (s.value == 1 ==> Decide(s, waiting) == SetMode(BlockStdout)) &&
              (s.value == 0xFFFF ==> Decide(s, waiting) == SetMode(ResetAll))
    ensures s.requestType == 0xA1 && s.request == 1 && s.value == 0 && s.index == 0 &&
            (s.length == 0x200 || s.length == 0x1000) ==>
              Decide(s, waiting) == ReadStdout(s.length)
    ensures s.requestType == 0xA1 && s.request == 2 && s.value == 0 && s.index == 0 && s.length == 1 ==>
              Decide(s, waiting) == Poll
  {
  }

  /** The data stage a handled request leads to, which the USB stack runs. */
  datatype OutStage = UploadSizeStage | StdinStage

  datatype Action =
    | NoAction
    | DataOut(stage: OutStage)
    | DataIn(bytes: seq<Byte>)
    | BulkOutDma(endpoint: nat, length: nat)

  /** How usbloader_bulk_upload_start ends. */
  datatype Start = Started(dma: Action) | Refused | BadPayload

  class Loader {
    /** The stdout ring read back by IN request 1. */
    const ring: Ring
    /** The line input queue fed by OUT request 3. */
    const stdin: LineQueue
    /** usbloader_is_waiting_xfer: a bulk upload is in progress. */
    var waiting: bool
    /** loader_xfer_recv_data: the upload buffer. */
    var recvData: seq<Byte>
    /** loader_xfer_recv_size: the upload buffer's size. */
    var recvSize: nat
    /** loader_xfer_recv_count: bytes received by the last upload. */
    var recvCount: nat
    /** loader_xfer_size: length of the bulk transfers started. */
    var xferSize: nat
    /** should_wait_for_cmd_handler. */
    var waitForCmd: bool

    /** The received bytes and every transfer fit the upload buffer, which never exceeds 128 MiB. */
    ghost predicate Valid()
      reads this, ring, ring.page, stdin
      ensures Valid() ==> recvCount <= |recvData| && xferSize <= |recvData| <= UPLOADSZ_MAX
    {
      ring.Valid() && stdin.Valid() && stdin.buf != ring.page &&
      recvCount <= xferSize <= recvSize <= UPLOADSZ_MAX && |recvData| == recvSize
    }

    /** usbloader_init: a 1 MiB buffer, transfers of 1 MiB, nothing received. */
    constructor (ring: Ring, stdin: LineQueue)
      requires ring.Valid() && stdin.Valid() && stdin.buf != ring.page
      ensures Valid() && this.ring == ring && this.stdin == stdin
      ensures xferSize == UPLOADSZ && recvSize == UPLOADSZ && recvCount == 0
      ensures !waiting && !waitForCmd
    {
      this.ring := ring;
      this.stdin := stdin;
      waiting := false;
      recvData := seq(UPLOADSZ, _ => NUL);
      recvSize := UPLOADSZ;
      xferSize := UPLOADSZ;
      recvCount := 0;
      waitForCmd := false;
    }

    /**
     * resize_loader_xfer_data: a size above the ceiling panics; a larger
     * size replaces the buffer with one of that size holding the bytes
     * received so far; the buffer never shrinks.
     */
    method Resize(newsz: nat) returns (panicked: bool)
      requires Valid()
      modifies this`recvData, this`recvSize
      ensures Valid() && recvSize >= old(recvSize)
      ensures panicked <==> newsz > UPLOADSZ_MAX
      ensures panicked || newsz <= old(recvSize) ==> recvSize == old(recvSize) && recvData == old(recvData)
      ensures !panicked && newsz > old(recvSize) ==>
                recvSize == newsz && recvData[..recvCount] == old(recvData)[..recvCount]
    {
      if newsz > UPLOADSZ_MAX {
        return true;
      }
      if newsz > recvSize {
        // alloc_contig's contents are not known; the model fills with zeros.
        var grown := recvData[..recvCount] + seq(newsz - recvCount, _ => NUL);
        recvData := grown;
        recvSize := newsz;
      }
      panicked := false;
    }

    /**
     * usbloader_bulk_upload_start, with the payload of the data stage (if
     * any): the payload must be a 4-byte size; a rounded size above the
     * ceiling is refused with nothing changed; otherwise a new upload starts
     * at count 0, with the buffer resized and the transfer length set when
     * a size was given, and a bulk OUT transfer of that length begins.
     */
    method UploadStart(payload: Option<seq<Byte>>) returns (outcome: Start)
      requires Valid()
      modifies this`recvData, this`recvSize, this`recvCount, this`waiting, this`xferSize
      ensures Valid() && recvSize >= old(recvSize)
      ensures payload.Some? && |payload.value| != 4 ==> outcome == BadPayload && unchanged(this)
      ensures payload.Some? && |payload.value| == 4 && RoundUp(LittleEndian32(payload.value)) > UPLOADSZ_MAX ==>
                outcome == Refused && unchanged(this)
      ensures payload.None? ==>
                outcome == Started(BulkOutDma(UPLOAD_ENDPOINT, old(xferSize))) &&
                waiting && recvCount == 0 && xferSize == old(xferSize) &&
                recvSize == old(recvSize) && recvData == old(recvData)
      ensures payload.Some? && |payload.value| == 4 && RoundUp(LittleEndian32(payload.value)) <= UPLOADSZ_MAX ==>
                var newsz := RoundUp(LittleEndian32(payload.value));
                outcome == Started(BulkOutDma(UPLOAD_ENDPOINT, newsz)) &&
                waiting && recvCount == 0 && xferSize == newsz &&
                recvSize == (if newsz > old(recvSize) then newsz else old(recvSize))
    {
      var newsz := 0;
      if payload.Some? {
        if |payload.value| != 4 {
          return BadPayload;
        }
        newsz := RoundUp(LittleEndian32(payload.value));
        if newsz > UPLOADSZ_MAX {
          return Refused;
        }
      }
      recvCount := 0;
      waiting := true;
      if payload.Some? {
        var panicked := Resize(newsz);
        xferSize := newsz;
      }
      outcome := Started(BulkOutDma(UPLOAD_ENDPOINT, xferSize));
    }

    /**
     * usbloader_bulk_upload_done, with the bytes the bulk transfer put at
     * the start of the buffer (no more than the transfer length): panics
     * unless an upload was pending, otherwise records the count and ends it.
     */
    method UploadDone(received: seq<Byte>) returns (panicked: bool)
      requires Valid() && |received| <= xferSize
      modifies this`recvData, this`recvCount, this`waiting
      ensures Valid()
      ensures panicked <==> !old(waiting)
      ensures panicked ==> unchanged(this)
      ensures !panicked ==>
                !waiting && recvCount == |received| && recvData == received + old(recvData)[|received|..]
    {
      if !waiting {
        return true;
      }
      recvData := received + recvData[|received|..];
      recvCount := |received|;
      waiting := false;
      panicked := false;
    }

    /**
     * usbloader_write_stdin: queues the data stage's bytes up to the first
     * NUL, as the receive path does, and reports whether it then waits for
     * the command handler.
     */
    method WriteStdin(data: seq<Byte>, dropRx: bool) returns (echo: seq<Byte>, wakes: nat, waitsForCommand: bool)
      requires Valid()
      modifies stdin`bufoff, stdin.buf
      ensures Valid()
      ensures stdin.Queued() == EditAll(old(stdin.Queued()), UpToNul(data))
      ensures echo == EchoAll(old(stdin.Queued()), UpToNul(data), dropRx)
      ensures wakes == multiset(UpToNul(data))[LF]
      ensures waitsForCommand == waitForCmd
    {
      ghost var q0 := stdin.Queued();
      ghost var line := UpToNul(data);
      echo, wakes := [], 0;
      var i := 0;
      while i < |data| && data[i] != NUL
        invariant stdin.Valid()
        invariant 0 <= i <= |line|
        invariant stdin.Queued() == EditAll(q0, line[..i])
        invariant echo == EchoAll(q0, line[..i], dropRx)
        invariant wakes == multiset(line[..i])[LF]
        decreases |data| - i
      {
        ReceiveStep(q0, line, i, dropRx);
        var e, w := stdin.QueueRxChar(data[i], dropRx);
        echo := echo + e;
        if w {
          wakes := wakes + 1;
        }
        i := i + 1;
      }
      assert line[..i] == line;
      waitsForCommand := waitForCmd;
    }

    /**
     * ep0_device_request: a request Decide rejects is not handled and
     * changes nothing. Otherwise: an upload with a size defers to its data
     * stage; an upload without one starts at once; discard clears the count
     * unless an upload is pending; stdin injection defers to its data stage;
     * a mode change sets the two stdio switches; reading stdout drains up to
     * wLength bytes from the ring's head; polling returns the command flag.
     */
    method DeviceRequest(s: Setup, commandInProgress: Byte) returns (handled: bool, action: Action)
      requires Valid()
      modifies this, ring`off, ring`len, ring`Contents, ring`blocking
      ensures Valid()
      ensures handled <==> Decide(s, old(waiting)) != Unhandled
      ensures match Decide(s, old(waiting))
              case Unhandled => action == NoAction && unchanged(this) && unchanged(ring)
              case UploadWithSize => action == DataOut(UploadSizeStage) && unchanged(this) && unchanged(ring)
              case UploadNow =>
                action == BulkOutDma(UPLOAD_ENDPOINT, xferSize) && waiting && recvCount == 0 &&
                xferSize == old(xferSize) && recvSize == old(recvSize) && recvData == old(recvData) &&
                waitForCmd == old(waitForCmd) && unchanged(ring)
              case Discard =>
                action == NoAction && recvCount == (if old(waiting) then old(recvCount) else 0) &&
                waiting == old(waiting) && xferSize == old(xferSize) && recvSize == old(recvSize) &&
                recvData == old(recvData) && waitForCmd == old(waitForCmd) && unchanged(ring)
              case InjectStdin => action == DataOut(StdinStage) && unchanged(this) && unchanged(ring)
              case SetMode(mode) =>
                action == NoAction && waitForCmd == (mode == WaitForCommand) &&
                ring.blocking == (mode == BlockStdout) &&
                waiting == old(waiting) && recvCount == old(recvCount) && xferSize == old(xferSize) &&
                recvSize == old(recvSize) && recvData == old(recvData) &&
                ring.Contents == old(ring.Contents) && ring.off == old(ring.off) && ring.len == old(ring.len)
              case ReadStdout(max) =>
                action == DataIn(old(ring.Contents)[..Min(max, old(ring.len))]) &&
                ring.Contents == old(ring.Contents)[Min(max, old(ring.len))..] &&
                ring.blocking == old(ring.blocking) && unchanged(this)
              case Poll => action == DataIn([commandInProgress]) && unchanged(this) && unchanged(ring)
    {
      var r := Decide(s, waiting);
      handled := r != Unhandled;
      action := NoAction;
      match r {
        case Unhandled =>
        case UploadWithSize =>
          action := DataOut(UploadSizeStage);
        case UploadNow =>
          var started := UploadStart(None);
          action := started.dma;
        case Discard =>
          if !waiting {
            recvCount := 0;
          }
        case InjectStdin =>
          action := DataOut(StdinStage);
        case SetMode(mode) =>
          waitForCmd := mode == WaitForCommand;
          ring.SetBlocking(mode == BlockStdout);
        case ReadStdout(max) =>
          var got := ring.Fetch(max);
          if |got| > max {
            // The trim to the newest wLength bytes cannot happen: the fetch is capped at wLength.
            assert false;
          }
          action := DataIn(got);
        case Poll =>
          action := DataIn([commandInProgress]);
      }
    }
  }
}
