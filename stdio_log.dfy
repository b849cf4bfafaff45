/**
 * Per-stream logging flags of the stdio layer and the `log` console command
 * that changes them: `log [stdout|stderr] [uart|screen] on|off`.
 */
module StdioLog {
  import opened Bytes

  const LOG_UART: bv8 := 1
  const LOG_SCREEN: bv8 := 2
  const LOG_MAX: bv8 := 3

  /** Stream bits of the `files` mask: bit 1 is stdout, bit 2 is stderr. */
  const FILES_STDOUT: bv8 := 0x2
  const FILES_STDERR: bv8 := 0x4
  const FILES_BOTH: bv8 := 0x6

  const USAGE: string := "Usage: log [stdout|stderr] [uart|screen] on|off\n"

  /** strchr: index of the first c in s. */
  function IndexOf(s: string, c: char): (r: Option<nat>)
    ensures r.Some? ==> r.value < |s| && s[r.value] == c && c !in s[..r.value]
    ensures r.None? ==> c !in s
  {
    if s == [] then None
    else if s[0] == c then Some(0)
    else match IndexOf(s[1..], c)
      case None => None
      case Some(k) =>
        assert s[..k + 1] == [s[0]] + s[1..][..k];
        Some(k + 1)
  }

  /** The maximal runs of non-space characters of s, left to right. */
  function Words(s: string): seq<string>
    decreases |s|
  {
    if s == [] then []
    else if s[0] == ' ' then Words(s[1..])
    else match IndexOf(s, ' ')
      case None => [s]
      case Some(e) => [s[..e]] + Words(s[e..])
  }

  /** Every word is non-empty and holds no space. */
  lemma {:induction false} WordsShape(s: string)
    ensures forall k :: 0 <= k < |Words(s)| ==> Words(s)[k] != [] && ' ' !in Words(s)[k]
    decreases |s|
  {
    if s == [] {
    } else if s[0] == ' ' {
      WordsShape(s[1..]);
    } else {
      match IndexOf(s, ' ')
      case None =>
      case Some(e) => WordsShape(s[e..]);
    }
  }

  /**
   * The argument slots that log_cmd fills in: the words of args, plus one
   * empty slot when fewer than three words were found and the text ends in
   * a space (or is blank); None when there are more than three words.
   */
  function Tokens(args: string): (r: Option<seq<string>>)
    ensures r.None? <==> |Words(args)| > 3
    ensures r.Some? ==> 1 <= |r.value| <= 3 && forall k :: 0 <= k < |r.value| ==> ' ' !in r.value[k]
    ensures r.Some? && r.value[0] == "" ==> Words(args) == []
  {
    var w := Words(args);
    WordsShape(args);
    if |w| > 3 then None
    else if |w| < 3 && (args == [] || args[|args| - 1] == ' ') then Some(w + [""])
    else if w == [] then Some([""])
    else Some(w)
  }

  lemma WordsSkipSpace(s: string, pos: nat)
    requires pos < |s| && s[pos] == ' '
    ensures Words(s[pos..]) == Words(s[pos + 1..])
  {
    assert s[pos..][1..] == s[pos + 1..];
  }

  lemma WordsAtWord(s: string, pos: nat, d: nat)
    requires pos < d < |s| && s[pos] != ' ' && s[d] == ' ' && ' ' !in s[pos..d]
    ensures Words(s[pos..]) == [s[pos..d]] + Words(s[d + 1..])
  {
    var t := s[pos..];
    assert t[..d - pos] == s[pos..d];
    assert IndexOf(t, ' ') == Some(d - pos);
    assert t[d - pos..] == s[d..];
    WordsSkipSpace(s, d);
  }

  lemma WordsLastWord(s: string, pos: nat)
    requires pos < |s| && s[pos] != ' ' && ' ' !in s[pos..]
    ensures Words(s[pos..]) == [s[pos..]]
  {
  }

  /** Text that starts with a non-space character holds at least one word. */
  lemma WordsAtNonSpace(s: string, pos: nat)
    requires pos < |s| && s[pos] != ' '
    ensures Words(s[pos..]) != []
  {
    assert s[pos..][0] != ' ';
  }

  /** `while(*args == ' ') ++args;`: skips a run of spaces, which holds no word. */
  method SkipSpaces(args: string, from: nat) returns (pos: nat)
    requires from <= |args|
    ensures from <= pos <= |args|
    ensures pos < |args| ==> args[pos] != ' '
    ensures pos > from ==> args[pos - 1] == ' '
    ensures Words(args[pos..]) == Words(args[from..])
  {
    pos := from;
    while pos < |args| && args[pos] == ' '
      invariant from <= pos <= |args|
      invariant pos > from ==> args[pos - 1] == ' '
      invariant Words(args[pos..]) == Words(args[from..])
    {
      WordsSkipSpace(args, pos);
      pos := pos + 1;
    }
  }

  /** A word ending at d, then the run of spaces up to next: the word is followed by the words from next. */
  lemma WordThenSpaces(s: string, pos: nat, d: nat, next: nat)
    requires pos < d < next <= |s| && s[pos] != ' ' && s[d] == ' ' && ' ' !in s[pos..d]
    requires Words(s[next..]) == Words(s[d + 1..])
    ensures Words(s[pos..]) == [s[pos..d]] + Words(s[next..])
  {
    WordsAtWord(s, pos, d);
  }

  /**
   * One slot of log_cmd's loop: strchr finds the next space; the token ends
   * there, or at the end of the text when there is none (the last slot), and
   * the spaces after it are skipped.
   */
  method NextToken(args: string, pos: nat) returns (token: string, last: bool, next: nat)
    requires pos <= |args| && (pos < |args| ==> args[pos] != ' ')
    ensures last ==> token == args[pos..] && Words(args[pos..]) == (if token == "" then [] else [token])
    ensures last && token != "" ==> args[|args| - 1] != ' '
    ensures !last ==> pos < next <= |args| && Words(args[pos..]) == [token] + Words(args[next..])
    ensures !last ==> args[next - 1] == ' ' && (next < |args| ==> args[next] != ' ')
  {
    var delim := IndexOf(args[pos..], ' ');
    if delim.None? {
      token, last, next := args[pos..], true, pos;
      if pos < |args| {
        WordsLastWord(args, pos);
        assert args[|args| - 1] == args[pos..][|args| - 1 - pos];
      } else {
        assert token == [];
      }
      return;
    }
    var d := pos + delim.value;
    assert args[pos..][..delim.value] == args[pos..d];
    assert args[d] == ' ';
    token, last := args[pos..d], false;
    next := SkipSpaces(args, d + 1);
    WordThenSpaces(args, pos, d, next);
    assert args[next - 1] == ' ' by {
      if next == d + 1 {
        assert args[next - 1] == args[d];
      }
    }
  }

  /** The slots found when the last token runs to the end of the text. */
  lemma TokensAtLast(args: string, before: seq<string>, token: string, pos: nat)
    requires |before| < 3 && pos <= |args| && before + Words(args[pos..]) == Words(args)
    requires pos > 0 ==> args[pos - 1] == ' '
    requires token == args[pos..] && Words(args[pos..]) == (if token == "" then [] else [token])
    requires token != "" ==> args[|args| - 1] != ' '
    ensures Tokens(args) == Some(before + [token])
  {
    var w := Words(args);
    if token == "" {
      assert |args| - pos == |token| == 0;
      assert w == before + [] == before;
      assert |w| < 3 && (args == [] || args[|args| - 1] == ' ');
    } else {
      assert w == before + [token];
      assert |w| <= 3 && w != [] && args[|args| - 1] != ' ';
    }
  }

  /** After three tokens, any text left means too many arguments; none means the three are the slots. */
  lemma TokensAfterThree(args: string, parts: seq<string>, pos: nat)
    requires |parts| == 3 && pos <= |args| && parts + Words(args[pos..]) == Words(args)
    requires pos < |args| ==> args[pos] != ' '
    ensures Tokens(args).None? <==> pos < |args|
    ensures pos == |args| ==> Tokens(args) == Some(parts)
  {
    var w := Words(args);
    if pos < |args| {
      WordsAtNonSpace(args, pos);
      assert |w| > 3;
    } else {
      assert |args[pos..]| == 0;
      assert w == parts + [] == parts;
    }
  }

  /**
   * The tokenising loop of log_cmd: skip leading spaces, then cut up to
   * three space-terminated tokens, each followed by a run of spaces. Text
   * left over after the third token means too many arguments.
   */
  method Tokenize(args: string) returns (parts: seq<string>, tooMany: bool)
    ensures tooMany <==> Tokens(args).None?
    ensures !tooMany ==> parts == Tokens(args).value
  {
    var pos := SkipSpaces(args, 0);
    assert args[0..] == args;
    parts := [];
    tooMany := false;
    for i := 0 to 3
      invariant |parts| == i && pos <= |args|
      invariant pos < |args| ==> args[pos] != ' '
      invariant pos > 0 ==> args[pos - 1] == ' '
      invariant parts + Words(args[pos..]) == Words(args)
    {
      var token, last, next := NextToken(args, pos);
      ghost var before := parts;
      parts := parts + [token];
      if last {
        TokensAtLast(args, before, token, pos);
        return;
      }
      assert parts + Words(args[next..]) == before + ([token] + Words(args[next..]));
      pos := next;
    }
    tooMany := pos < |args|;
    TokensAfterThree(args, parts, pos);
  }

  datatype LogError = NoArguments | TooManyArguments | TooFewArguments | BadArguments

  /** What a well-formed `log` command asks for. */
  datatype LogRequest = LogRequest(files: bv8, mask: bv8, on: bool)

  datatype Parsed = Ok(req: LogRequest) | Err(error: LogError)

  /** Requests the command line can express: a stream set and a sink set. */
  predicate Canonical(req: LogRequest)
  {
    req.files in {FILES_STDOUT, FILES_STDERR, FILES_BOTH} &&
    req.mask in {LOG_UART, LOG_SCREEN, LOG_MAX}
  }

  /**
   * The keyword matching of log_cmd over the argument slots: an optional
   * stream keyword, an optional sink keyword, then on or off. Slots after
   * the on/off keyword are not looked at.
   */
  function Interpret(parts: seq<string>): (r: Parsed)
    requires 1 <= |parts| <= 3
    ensures r.Ok? ==> Canonical(r.req)
  {
    var (files, i) :=
      if parts[0] == "stdout" then (FILES_STDOUT, 1)
      else if parts[0] == "stderr" then (FILES_STDERR, 1)
      else (FILES_BOTH, 0);
    if i >= |parts| then Err(TooFewArguments)
    else
      var (mask, j) :=
        if parts[i] == "uart" then (LOG_UART, i + 1)
        else if parts[i] == "screen" then (LOG_SCREEN, i + 1)
        else (LOG_MAX, i);
      if j >= |parts| then Err(TooFewArguments)
      else if parts[j] == "on" then Ok(LogRequest(files, mask, true))
      else if parts[j] == "off" then Ok(LogRequest(files, mask, false))
      else Err(BadArguments)
  }

  /** The shortest argument list that asks for req. */
  function Render(req: LogRequest): seq<string>
  {
    (if req.files == FILES_STDOUT then ["stdout"] else if req.files == FILES_STDERR then ["stderr"] else []) +
    (if req.mask == LOG_UART then ["uart"] else if req.mask == LOG_SCREEN then ["screen"] else []) +
    [if req.on then "on" else "off"]
  }

  /** Every expressible request is understood when written out in full. */
  lemma InterpretRender(req: LogRequest)
    requires Canonical(req)
    ensures 1 <= |Render(req)| <= 3 && Interpret(Render(req)) == Ok(req)
  {
  }

  /**
   * Conversely, whatever is accepted begins with the full spelling of the
   * request; anything after the on/off keyword is ignored.
   */
  lemma InterpretAccepted(parts: seq<string>, req: LogRequest)
    requires 1 <= |parts| <= 3 && Interpret(parts) == Ok(req)
    ensures |Render(req)| <= |parts| && parts[..|Render(req)|] == Render(req)
  {
  }

  /** The whole argument parser of log_cmd. */
  function ParseLog(args: string): (r: Parsed)
    ensures r == Err(NoArguments) <==> Words(args) == []
    ensures r == Err(TooManyArguments) <==> |Words(args)| > 3
    ensures r.Ok? ==> Canonical(r.req) && 1 <= |Words(args)| <= 3
  {
    match Tokens(args)
    case None => Err(TooManyArguments)
    case Some(parts) => if parts[0] == "" then Err(NoArguments) else Interpret(parts)
  }

  /** The text log_cmd prints for a rejected command line. */
  function Diagnostic(e: LogError): (r: string)
    ensures |r| >= |USAGE| && r[|r| - |USAGE|..] == USAGE
    ensures r == USAGE <==> e == NoArguments
  {
    match e
    case NoArguments => USAGE
    case TooManyArguments => "Too many arguments\n" + USAGE
    case TooFewArguments => "Too few arguments\n" + USAGE
    case BadArguments => "Bad arguments\n" + USAGE
  }

  /** After switching, the mask bits are all set ("on") or all clear ("off"); no other bit moved. */
  predicate FlagSwitched(before: bv8, after: bv8, mask: bv8, on: bool)
  {
    after & mask == (if on then mask else 0) && after & !mask == before & !mask
  }

  /** The new value of one stream's flags. */
  function UpdatedFlag(flag: bv8, mask: bv8, on: bool): (r: bv8)
    ensures FlagSwitched(flag, r, mask, on)
  {
    if on then flag | mask else flag & !mask
  }

  /** `1 << f` for the three stream slots. */
  const STREAM_BIT: seq<bv8> := [1, 2, 4]

  /** Whether the `files` mask selects stream f. */
  predicate Selected(files: bv8, f: nat)
    requires f < 3
  {
    files & STREAM_BIT[f] != 0
  }

  /** The new value of stream f's flags under req. */
  function UpdatedSlot(flags: seq<bv8>, req: LogRequest, f: nat): (r: bv8)
    requires |flags| == 3 && f < 3
    ensures !Selected(req.files, f) ==> r == flags[f]
    ensures Selected(req.files, f) ==> FlagSwitched(flags[f], r, req.mask, req.on)
  {
    if Selected(req.files, f) then UpdatedFlag(flags[f], req.mask, req.on) else flags[f]
  }

  /** stdio_flags after a request: the selected streams get the mask set or cleared. */
  function Updated(flags: seq<bv8>, req: LogRequest): (r: seq<bv8>)
    requires |flags| == 3
    ensures |r| == 3 && forall f :: 0 <= f < 3 ==> r[f] == UpdatedSlot(flags, req, f)
  {
    [UpdatedSlot(flags, req, 0), UpdatedSlot(flags, req, 1), UpdatedSlot(flags, req, 2)]
  }

  /** The stream sets the command line can name select exactly the streams they say. */
  lemma SelectedStreams(req: LogRequest)
    requires Canonical(req)
    ensures !Selected(req.files, 0)
    ensures Selected(req.files, 1) <==> req.files != FILES_STDERR
    ensures Selected(req.files, 2) <==> req.files != FILES_STDOUT
  {
  }

  /**
   * An update never touches stdin's slot, changes the selected streams as
   * UpdatedFlag says and leaves the other streams alone.
   */
  lemma UpdatedEffect(flags: seq<bv8>, req: LogRequest)
    requires |flags| == 3 && Canonical(req)
    ensures Updated(flags, req)[0] == flags[0]
    ensures Updated(flags, req)[1] == if req.files == FILES_STDERR then flags[1] else UpdatedFlag(flags[1], req.mask, req.on)
    ensures Updated(flags, req)[2] == if req.files == FILES_STDOUT then flags[2] else UpdatedFlag(flags[2], req.mask, req.on)
  {
    SelectedStreams(req);
  }

  /** A word followed by a space starts the word list. */
  lemma WordsCons(w: string, rest: string)
    requires w != [] && ' ' !in w
    ensures Words(w + " " + rest) == [w] + Words(rest)
  {
    var s := w + " " + rest;
    assert s[..|w|] == w && s[|w|] == ' ';
    WordsAtWord(s, 0, |w|);
    assert s[0..] == s && s[|w| + 1..] == rest;
  }

  /** A single word is its own word list. */
  lemma WordsOne(w: string)
    requires w != [] && ' ' !in w
    ensures Words(w) == [w]
  {
    WordsLastWord(w, 0);
    assert w[0..] == w;
  }

  /** Three words separated by single spaces are the three words. */
  lemma WordsThree(a: string, b: string, c: string)
    requires a != [] && b != [] && c != []
    requires ' ' !in a && ' ' !in b && ' ' !in c
    ensures Words(a + " " + b + " " + c) == [a, b, c]
  {
    WordsOne(c);
    WordsCons(b, c);
    WordsCons(a, b + " " + c);
    assert a + " " + b + " " + c == a + " " + (b + " " + c);
  }

  /** Three space-separated words are parsed as the three argument slots. */
  lemma ParseThree(a: string, b: string, c: string)
    requires a != [] && b != [] && c != []
    requires ' ' !in a && ' ' !in b && ' ' !in c
    ensures ParseLog(a + " " + b + " " + c) == Interpret([a, b, c])
  {
    var args := a + " " + b + " " + c;
    WordsThree(a, b, c);
    assert args[|args| - 1] == c[|c| - 1] != ' ';
    assert Tokens(args) == Some([a, b, c]);
  }

  /**
   * "stdout uart off" turns off UART logging of stdout only. The words are
   * parameters fixed by the requires, so the verifier unfolds the tokenizer
   * through WordsThree rather than character by character on the literal.
   */
  lemma ParseStdoutUartOff(stdout: string, uart: string, off: string)
    requires stdout == "stdout" && uart == "uart" && off == "off"
    ensures ParseLog(stdout + " " + uart + " " + off) == Ok(LogRequest(FILES_STDOUT, LOG_UART, false))
  {
    ParseThree(stdout, uart, off);
  }

  /** stdio_flags, one routing mask per stream: 0 stdin, 1 stdout, 2 stderr. */
  class LogFlags {
    const flags: array<bv8>

    ghost predicate Valid()
      reads this
    {
      flags.Length == 3
    }

    /** The static initialiser: both output streams log to both sinks. */
    constructor ()
      ensures Valid() && fresh(flags)
      ensures flags[..] == [0, LOG_MAX, LOG_MAX]
    {
      flags := new bv8[3] [0, LOG_MAX, LOG_MAX];
    }

    /** The flag-update loop of log_cmd. */
    method Apply(req: LogRequest)
      requires Valid()
      modifies flags
      ensures flags[..] == Updated(old(flags[..]), req)
    {
      ghost var before := flags[..];
      for f := 0 to 3
        invariant forall k :: 0 <= k < f ==> flags[k] == UpdatedSlot(before, req, k)
        invariant forall k :: f <= k < 3 ==> flags[k] == before[k]
      {
        ApplyTo(req, f);
      }
      assert flags[..] == [flags[0], flags[1], flags[2]];
    }

    /** One iteration of the flag-update loop: stream f, if selected. */
    method ApplyTo(req: LogRequest, f: nat)
      requires Valid() && f < 3
      modifies flags
      ensures flags[f] == UpdatedSlot(old(flags[..]), req, f)
      ensures forall k :: 0 <= k < 3 && k != f ==> flags[k] == old(flags[k])
    {
      if Selected(req.files, f) {
        flags[f] := UpdatedFlag(flags[f], req.mask, req.on);
      }
    }

    /**
     * log_cmd: on a well-formed command line updates the selected streams'
     * flags and prints nothing; otherwise prints the diagnostic and usage
     * text and changes nothing.
     */
    method LogCmd(args: string) returns (printed: string)
      requires Valid()
      modifies flags
      ensures ParseLog(args).Ok? ==> printed == "" && flags[..] == Updated(old(flags[..]), ParseLog(args).req)
      ensures ParseLog(args).Err? ==> printed == Diagnostic(ParseLog(args).error) && flags[..] == old(flags[..])
    {
      var parts, tooMany := Tokenize(args);
      if tooMany {
        return Diagnostic(TooManyArguments);
      }
      if parts[0] == "" {
        return Diagnostic(NoArguments);
      }
      var r := Interpret(parts);
      match r {
        case Err(e) =>
          printed := Diagnostic(e);
        case Ok(req) =>
          Apply(req);
          printed := "";
      }
    }
  }
}
