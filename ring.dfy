/**
 * The standard-output ring of the kernel's stdio layer: one physical page of
 * STDOUT_BUFLEN bytes mapped three times back to back, a read offset, a
 * length, and the blocking/overwrite policy flag.
 */
module StdoutRing {
  import opened Bytes

  /**
   * Offset within the physical page of byte x of the three consecutive
   * mappings of that page: the triple mapping is indexing modulo the page size.
   */
  function Mapped(base: nat, j: nat, cap: nat): (p: nat)
    requires 0 < cap && base + j < 3 * cap
    ensures p < cap
  {
    var x := base + j;
    if x < cap then x else if x < 2 * cap then x - cap else x - 2 * cap
  }

  /** Reading i bytes past an offset already advanced by d is reading d + i bytes past the old one. */
  lemma MappedShift(base: nat, d: nat, i: nat, cap: nat)
    requires 0 < cap && base + d + i < 3 * cap && base + d < 3 * cap && i < cap
    ensures Mapped(Mapped(base, d, cap), i, cap) == Mapped(base, d + i, cap)
  {
  }

  /** The triple mapping agrees with indexing modulo the page size. */
  lemma MappedIsMod(base: nat, j: nat, cap: nat)
    requires 0 < cap && base + j < 3 * cap
    ensures Mapped(base, j, cap) == (base + j) % cap
  {
    var x := base + j;
    if x < cap {
      ModUnique(x, 0, cap);
    } else if x < 2 * cap {
      ModUnique(x, 1, cap);
    } else {
      ModUnique(x, 2, cap);
    }
  }

  lemma MulMono(a: int, c: int)
    requires a >= 1 && c > 0
    ensures a * c >= c
  {
  }

  lemma MulGap(a: int, b: int, c: int)
    requires a > b && c > 0
    ensures a * c - b * c >= c
  {
    MulMono(a - b, c);
    assert a * c - b * c == (a - b) * c;
  }

  /** x / c is the one k that leaves a remainder x - k * c in [0, c), and x % c is that remainder. */
  lemma ModUnique(x: int, k: int, c: int)
    requires c > 0 && 0 <= x - k * c < c
    ensures x / c == k && x % c == x - k * c
  {
    var q := x / c;
    if q > k {
      MulGap(q, k, c);
    } else if q < k {
      MulGap(k, q, c);
    }
  }

  /** The newest n bytes of s, or all of s when it is shorter. */
  function Last(s: seq<Byte>, n: nat): (r: seq<Byte>)
    ensures |r| == Min(|s|, n)
    ensures r == s[|s| - |r|..]
  {
    if |s| <= n then s else s[|s| - n..]
  }

  /** Cutting to the newest n bytes early does not change the newest n bytes later. */
  lemma LastOfLastPrefix(a: seq<Byte>, b: seq<Byte>, n: nat)
    ensures Last(Last(a, n) + b, n) == Last(a + b, n)
  {
    var la := Last(a, n);
    assert a + b == a[..|a| - |la|] + (la + b);
  }

  /** Keeping only the newest n bytes of the incoming data loses nothing that the ring keeps. */
  lemma LastOfLastSuffix(a: seq<Byte>, b: seq<Byte>, n: nat)
    ensures Last(a + Last(b, n), n) == Last(a + b, n)
  {
    var lb := Last(b, n);
    if |b| > n {
      assert (a + b)[|a + b| - n..] == lb;
    }
  }

  /**
   * Contents of the ring after a write in overwrite mode: only the tail of
   * the incoming bytes that fits enters the ring, then the oldest resident
   * bytes are evicted. The result is the newest cap bytes of everything.
   */
  function Overwrite(q: seq<Byte>, str: seq<Byte>, cap: nat): (r: seq<Byte>)
    ensures |r| == Min(|q| + |str|, cap)
    ensures r == Last(q + str, cap)
  {
    LastOfLastSuffix(q, str, cap);
    Last(q + Last(str, cap), cap)
  }

  function Flatten(ws: seq<seq<Byte>>): seq<Byte>
  {
    if ws == [] then [] else ws[0] + Flatten(ws[1..])
  }

  /** Contents after a series of overwrite-mode writes, oldest first. */
  function OverwriteAll(q: seq<Byte>, ws: seq<seq<Byte>>, cap: nat): seq<Byte>
    decreases |ws|
  {
    if ws == [] then q else OverwriteAll(Overwrite(q, ws[0], cap), ws[1..], cap)
  }

  /**
   * After any series of overwrite-mode writes the ring holds exactly the
   * newest bytes written across the whole series, at most cap of them.
   */
  lemma {:induction false} OverwriteAllKeepsNewest(q: seq<Byte>, ws: seq<seq<Byte>>, cap: nat)
    requires |q| <= cap
    ensures OverwriteAll(q, ws, cap) == Last(q + Flatten(ws), cap)
    decreases |ws|
  {
    if ws == [] {
      assert q + Flatten(ws) == q;
    } else {
      var q1 := Overwrite(q, ws[0], cap);
      OverwriteAllKeepsNewest(q1, ws[1..], cap);
      OverwriteThen(q, ws[0], Flatten(ws[1..]), cap);
    }
  }

  /** One overwrite-mode write followed by more bytes keeps what writing them all at once keeps. */
  lemma OverwriteThen(q: seq<Byte>, w: seq<Byte>, rest: seq<Byte>, cap: nat)
    ensures Last(Overwrite(q, w, cap) + rest, cap) == Last(q + (w + rest), cap)
  {
    LastOfLastPrefix(q + w, rest, cap);
    assert q + w + rest == q + (w + rest);
  }

  /**
   * The page after an overwrite-mode copy, seen through the advanced offset,
   * holds the newest cap bytes of the old contents followed by the copied
   * bytes.
   */
  lemma OverwriteWindow(before: seq<Byte>, after: seq<Byte>, q: seq<Byte>, kept: seq<Byte>,
                        oldoff: nat, cap: nat, newoff: nat)
    requires 0 < cap && |before| == cap && |after| == cap && oldoff < cap
    requires |q| <= cap && |kept| <= cap
    requires forall i :: 0 <= i < |q| ==> q[i] == before[Mapped(oldoff, i, cap)]
    requires forall i :: 0 <= i < |kept| ==> after[Mapped(oldoff, |q| + i, cap)] == kept[i]
    requires forall j :: 0 <= j < |q| && |q| + |kept| - cap <= j ==>
               after[Mapped(oldoff, j, cap)] == before[Mapped(oldoff, j, cap)]
    requires newoff == Mapped(oldoff, |q| + |kept| - Min(|q| + |kept|, cap), cap)
    ensures forall i :: 0 <= i < Min(|q| + |kept|, cap) ==>
              after[Mapped(newoff, i, cap)] == Last(q + kept, cap)[i]
  {
    OverwriteWindowFromOld(before, after, q, kept, oldoff, cap);
    WindowShift(after, q + kept, oldoff, cap, newoff);
  }

  /**
   * When the slots from the old offset hold the tail of all, the window from
   * the new offset, past the dropped bytes, holds the newest cap bytes of all.
   */
  lemma WindowShift(after: seq<Byte>, all: seq<Byte>, oldoff: nat, cap: nat, newoff: nat)
    requires 0 < cap && |after| == cap && oldoff < cap && |all| <= 2 * cap
    requires forall j :: |all| - cap <= j < |all| && 0 <= j ==> after[Mapped(oldoff, j, cap)] == all[j]
    requires newoff == Mapped(oldoff, |all| - Min(|all|, cap), cap)
    ensures forall i :: 0 <= i < Min(|all|, cap) ==> after[Mapped(newoff, i, cap)] == Last(all, cap)[i]
  {
    var drop := |all| - Min(|all|, cap);
    forall i | 0 <= i < Min(|all|, cap)
      ensures after[Mapped(newoff, i, cap)] == Last(all, cap)[i]
    {
      MappedShift(oldoff, drop, i, cap);
      assert Last(all, cap)[i] == all[drop + i];
    }
  }

  /**
   * Seen from the old offset, the page after the copy holds the old contents
   * followed by the copied bytes, except for the slots the copy overwrote:
   * old slots past the evicted ones are untouched and the copied bytes sit
   * right after the old tail.
   */
  lemma OverwriteWindowFromOld(before: seq<Byte>, after: seq<Byte>, q: seq<Byte>, kept: seq<Byte>,
                               oldoff: nat, cap: nat)
    requires 0 < cap && |before| == cap && |after| == cap && oldoff < cap
    requires |q| <= cap && |kept| <= cap
    requires forall i :: 0 <= i < |q| ==> q[i] == before[Mapped(oldoff, i, cap)]
    requires forall i :: 0 <= i < |kept| ==> after[Mapped(oldoff, |q| + i, cap)] == kept[i]
    requires forall j :: 0 <= j < |q| && |q| + |kept| - cap <= j ==>
               after[Mapped(oldoff, j, cap)] == before[Mapped(oldoff, j, cap)]
    ensures forall j :: |q + kept| - cap <= j < |q + kept| && 0 <= j ==>
              after[Mapped(oldoff, j, cap)] == (q + kept)[j]
  {
    forall j | |q + kept| - cap <= j < |q + kept| && 0 <= j
      ensures after[Mapped(oldoff, j, cap)] == (q + kept)[j]
    {
      if j >= |q| {
        var k := j - |q|;
        assert after[Mapped(oldoff, |q| + k, cap)] == kept[k];
      }
    }
  }

  /**
   * The offset after an overwrite-mode write of n bytes to a ring holding
   * len0 bytes from off0: when the min(n, cap) kept bytes overflow the
   * ring, the offset moves past the evicted bytes, wrapping at cap.
   */
  function EvictedOff(off0: nat, len0: nat, n: nat, cap: nat): (r: nat)
    requires off0 < cap
    ensures r < cap
  {
    if len0 + Min(cap, n) > cap then (off0 + (len0 + Min(cap, n) - cap)) % cap else off0
  }

  /**
   * The effect of one ring write of str under the given policy: from the
   * resident bytes q0 at offset off0 (len0 of them) to q at offset off (len
   * of them), with rest the suffix of str left unwritten at a yield.
   */
  ghost predicate WriteEffect(blocking: bool, cap: nat, q0: seq<Byte>, off0: nat, len0: nat,
                              str: seq<Byte>, rest: seq<Byte>, q: seq<Byte>, off: nat, len: nat)
    requires off0 < cap
    ensures WriteEffect(blocking, cap, q0, off0, len0, str, rest, q, off, len) ==>
              if blocking then q + rest == q0 + str
              else rest == [] && q == Last(q0 + str, cap) && (len0 + |str| <= cap ==> off == off0)
  {
    |rest| <= |str| && rest == str[|str| - |rest|..] &&
    if blocking then
      q == q0 + str[..|str| - |rest|] && off == off0 &&
      |str| - |rest| == Min(cap - len0, |str|) && (rest != [] ==> len == cap)
    else
      rest == [] && q == Overwrite(q0, str, cap) &&
      off == EvictedOff(off0, len0, |str|, cap)
  }

  class Ring {
    /** STDOUT_BUFLEN: the size of the physical page. */
    const cap: nat
    /** The physical page behind the three mappings. */
    const page: array<Byte>
    /** stdout_buf_off: offset of the oldest resident byte. */
    var off: nat
    /** stdout_buf_len: number of resident bytes. */
    var len: nat
    /** stdout_blocking: writers wait for space instead of evicting. */
    var blocking: bool
    /** The resident bytes, oldest first. */
    ghost var Contents: seq<Byte>

    ghost predicate Valid()
      reads this, page
    {
      0 < cap && page.Length == cap && off < cap && len <= cap &&
      |Contents| == len &&
      forall i :: 0 <= i < len ==> Contents[i] == page[Mapped(off, i, cap)]
    }

    /** The ring part of io_init: an empty ring in overwrite mode. */
    constructor (bufLen: nat)
      requires 0 < bufLen
      ensures Valid() && fresh(page)
      ensures cap == bufLen && off == 0 && Contents == [] && !blocking
    {
      cap := bufLen;
      page := new Byte[bufLen](_ => 0);
      off, len, blocking := 0, 0, false;
      Contents := [];
    }

    /** set_stdout_blocking: takes effect on the next write. */
    method SetBlocking(block: bool)
      requires Valid()
      modifies this`blocking
      ensures Valid() && blocking == block
    {
      blocking := block;
    }

    /**
     * memcpy(STDOUT_TAIL, src, |src|): copies src into the mapped window
     * starting at off + len. The copy stays inside the three mappings, so it
     * overwrites exactly the page slots of the |src| positions after the tail.
     */
    method CopyToTail(src: seq<Byte>)
      requires 0 < cap && page.Length == cap && off < cap && len <= cap && |src| <= cap
      modifies page
      ensures off + len + |src| <= 3 * cap
      ensures forall i :: 0 <= i < |src| ==> page[Mapped(off, len + i, cap)] == src[i]
      ensures forall j :: 0 <= j < len && len + |src| - cap <= j ==>
                page[Mapped(off, j, cap)] == old(page[Mapped(off, j, cap)])
    {
      var i := 0;
      while i < |src|
        invariant 0 <= i <= |src|
        invariant forall k :: 0 <= k < i ==> page[Mapped(off, len + k, cap)] == src[k]
        invariant forall j :: 0 <= j < len && len + |src| - cap <= j ==>
                    page[Mapped(off, j, cap)] == old(page[Mapped(off, j, cap)])
      {
        page[Mapped(off, len + i, cap)] := src[i];
        i := i + 1;
      }
    }

    /** memcpy(to, STDOUT_HEAD, n): the n oldest resident bytes, read through the mapping. */
    function Head(n: nat): (r: seq<Byte>)
      reads this, page
      requires Valid() && n <= len
      ensures r == Contents[..n]
    {
      if off + n <= cap then page[off..off + n] else page[off..] + page[..off + n - cap]
    }

    /**
     * fetch_stdoutbuf: removes and returns up to want bytes from the head of
     * the ring.
     */
    method Fetch(want: nat) returns (got: seq<Byte>)
      requires Valid()
      modifies this`off, this`len, this`Contents
      ensures Valid()
      ensures got == old(Contents)[..Min(want, old(len))]
      ensures Contents == old(Contents)[|got|..]
      ensures off == (old(off) + |got|) % cap && len == old(len) - |got|
    {
      var sz := want;
      if sz > len {
        sz := len;
      }
      ghost var oldoff := off;
      got := Head(sz);
      MappedIsMod(off, sz, cap);
      off := Mapped(off, sz, cap);
      len := len - sz;
      Contents := Contents[sz..];
      forall i | 0 <= i < len
        ensures Contents[i] == page[Mapped(off, i, cap)]
      {
        MappedShift(oldoff, sz, i, cap);
      }
    }

    /** Two fetches in a row return consecutive, non-overlapping prefixes of the resident bytes. */
    method FetchTwice(n1: nat, n2: nat) returns (got1: seq<Byte>, got2: seq<Byte>)
      requires Valid()
      modifies this`off, this`len, this`Contents
      ensures Valid()
      ensures |got1| == Min(n1, |old(Contents)|) && |got2| == Min(n2, |old(Contents)| - |got1|)
      ensures got1 + got2 == old(Contents)[..|got1| + |got2|]
      ensures Contents == old(Contents)[|got1| + |got2|..]
    {
      got1 := Fetch(n1);
      got2 := Fetch(n2);
    }

    /**
     * One blocking pass under the lock: copies as many bytes of str as there
     * is free room for and appends them to the resident bytes. On a full ring
     * it copies nothing.
     */
    method BlockingPass(str: seq<Byte>) returns (copied: nat)
      requires Valid()
      modifies this`len, this`Contents, page
      ensures Valid()
      ensures copied == Min(cap - old(len), |str|)
      ensures Contents == old(Contents) + str[..copied]
      ensures len == old(len) + copied
    {
      var oldlen := len;
      var max := cap - oldlen;
      if max > |str| {
        max := |str|;
      }
      CopyToTail(str[..max]);
      len := oldlen + max;
      Contents := Contents + str[..max];
      copied := max;
    }

    /**
     * The bookkeeping after an overwrite-mode copy of n bytes: when the ring
     * overflows, the offset moves past the evicted bytes and the length is
     * clamped to the capacity.
     */
    method Evict(n: nat)
      requires 0 < cap && off < cap && len <= cap && n <= cap
      modifies this`off, this`len
      ensures len == Min(old(len) + n, cap)
      ensures off == EvictedOff(old(off), old(len), n, cap)
      ensures off == Mapped(old(off), old(len) + n - len, cap)
    {
      var newlen := len + n;
      if newlen > cap {
        MappedIsMod(off, newlen - cap, cap);
        off := (off + (newlen - cap)) % cap;
        newlen := cap;
      }
      len := newlen;
    }

    /**
     * The overwrite pass: copies the newest min(|str|, cap) bytes of str
     * after the tail and, when the ring overflows, advances the offset past
     * the evicted oldest bytes and clamps the length to the capacity.
     */
    method OverwritePass(str: seq<Byte>)
      requires Valid()
      modifies this`off, this`len, this`Contents, page
      ensures Valid()
      ensures Contents == Overwrite(old(Contents), str, cap)
      ensures len == Min(old(len) + Min(cap, |str|), cap)
      ensures off == EvictedOff(old(off), old(len), |str|, cap)
    {
      var oldlen := len;
      var max := cap;
      if max > |str| {
        max := |str|;
      }
      ghost var q, oldoff, before := Contents, off, page[..];
      ghost var kept := Last(str, cap);
      assert str[|str| - max..] == kept;
      CopyToTail(str[|str| - max..]);
      ghost var after := page[..];
      Evict(max);
      assert Min(cap, max) == Min(cap, |str|);
      assert EvictedOff(oldoff, oldlen, max, cap) == EvictedOff(oldoff, oldlen, |str|, cap);
      OverwriteWindow(before, after, q, kept, oldoff, cap, off);
      Contents := Last(q + Last(str, cap), cap);
    }

    /**
     * The ring part of _write_r for standard output. In blocking mode each
     * pass copies what fits; when the ring is full the writer yields, and the
     * bytes still to be written are returned in rest (the writer resumes by
     * writing rest). In overwrite mode a single pass keeps the tail of str
     * and evicts the oldest resident bytes; rest is then empty.
     */
    method Write(str: seq<Byte>) returns (rest: seq<Byte>)
      requires Valid()
      modifies this`off, this`len, this`Contents, page
      ensures Valid() && blocking == old(blocking)
      ensures WriteEffect(blocking, cap, old(Contents), old(off), old(len), str, rest, Contents, off, len)
    {
      if blocking {
        rest := BlockingWrite(str);
      } else {
        // The copy loop makes a single pass in overwrite mode, and none for an empty write.
        if |str| > 0 {
          OverwritePass(str);
        } else {
          assert old(Contents) + str == old(Contents);
        }
        rest := [];
      }
    }

    /** The copy loop of _write_r in blocking mode. */
    method BlockingWrite(str: seq<Byte>) returns (rest: seq<Byte>)
      requires Valid() && blocking
      modifies this`len, this`Contents, page
      ensures Valid()
      ensures WriteEffect(true, cap, old(Contents), old(off), old(len), str, rest, Contents, off, len)
    {
      rest := str;
      while |rest| > 0
        invariant Valid()
        invariant |rest| <= |str| && rest == str[|str| - |rest|..]
        invariant len == old(len) + (|str| - |rest|)
        invariant Contents == old(Contents) + str[..|str| - |rest|]
        invariant rest != str ==> rest == [] || len == cap
        decreases |rest|
      {
        var max := BlockingPass(rest);
        if max == 0 {
          // task_yield(): the writer is suspended until a reader makes room.
          break;
        }
        assert str[..|str| - |rest|] + rest[..max] == str[..|str| - |rest| + max];
        rest := rest[max..];
      }
    }
  }
}
