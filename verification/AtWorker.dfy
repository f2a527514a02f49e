/**
 The receive side of the AT command parser (framework/atparser/atparser.c): a worker reads the
 UART a byte at a time, cuts the stream at the receive delimiter or when its buffer is full,
 and hands the pieces to the task at the head of the list until a status line ends the reply. A
 buffer equal to an out-of-band prefix is dropped after a call of the prefix's callback.

 The suffix tests are taken as "the buffer ends with". An out-of-band callback is only counted.
 */
module AtWorker {
  import opened Sequences
  import opened Wrappers
  import opened Slist

  const RECV_BUFFER_SIZE: nat := 512

  const STATUS_OK: string := "OK\r\n"
  const STATUS_ERROR: string := "ERROR\r\n"

  // ---------------------------------------------------------------- specification

  // A waiting task: the memory at rsp, how much of it is used, the caller's size for it, and how often the
  // task's semaphore has been signalled.
  datatype Reply = Reply(mem: string, off: nat, len: nat, signals: nat) {
    predicate Valid() {
      off <= |mem| && len <= |mem|
    }

    function Text(): string
      requires Valid()
    {
      mem[..off]
    }
  }

  predicate EndsWith(s: string, t: string) {
    |t| <= |s| && s[|s| - |t|..] == t
  }

  predicate IsStatus(text: string) {
    EndsWith(text, STATUS_OK) || EndsWith(text, STATUS_ERROR)
  }

  // The buffer is handed on: it is full, or ends with the delimiter.
  predicate IsCut(text: string, delim: string) {
    |text| >= RECV_BUFFER_SIZE - 2 || EndsWith(text, delim)
  }

  // Writing data at off, past the end of mem if need be.
  function Overlay(mem: string, off: nat, data: string): (r: string)
    requires off <= |mem|
    ensures |r| == if off + |data| <= |mem| then |mem| else off + |data|
    ensures r[..off] == mem[..off] && r[off..off + |data|] == data
  {
    mem[..off] + data + (if off + |data| <= |mem| then mem[off + |data|..] else [])
  }

  // memcpy of data to rsp + off
  function Append(r: Reply, data: string): (r': Reply)
    requires r.Valid()
    ensures r'.Valid() && r'.Text() == r.Text() + data
  {
    r.(mem := Overlay(r.mem, r.off, data), off := r.off + |data|)
  }

  // The reply does not fit: the memory is cleared and an error text stored instead.
  function Overflow(r: Reply): (r': Reply)
    requires r.Valid()
    ensures r'.Valid() && STATUS_ERROR <= r'.mem
  {
    r.(mem := Overlay(Overlay(r.mem, 0, seq(r.len, _ => '\0')), 0, STATUS_ERROR + ['\0']))
  }

  // What the head task gets from the text in the buffer.
  function Serve(r: Reply, text: string, delim: string): (r': Reply)
    requires r.Valid()
    ensures r'.Valid()
  {
    if IsStatus(text) then Append(r, text).(signals := r.signals + 1)
    else if IsCut(text, delim) then
      (if r.off + |text| < r.len then Append(r, text) else Overflow(r).(signals := r.signals + 1))
    else r
  }

  // The buffer after the out-of-band prefixes from k on have been compared with it.
  function AfterOob(text: string, oobs: seq<string>, k: nat): string
    decreases |oobs| - k
  {
    if k >= |oobs| then text
    else AfterOob(if text == oobs[k] then [] else text, oobs, k + 1)
  }

  // How many callbacks that calls.
  function Calls(text: string, oobs: seq<string>, k: nat): nat
    decreases |oobs| - k
  {
    if k >= |oobs| then 0
    else if text == oobs[k] then 1 + Calls([], oobs, k + 1)
    else Calls(text, oobs, k + 1)
  }

  // What the worker goes by: the buffer, the callbacks so far, and the reply of the head task if there is one.
  datatype State = State(text: string, calls: nat, reply: Option<Reply>) {
    predicate Valid() {
      reply.Some? ==> reply.value.Valid()
    }
  }

  // One byte goes to the end of the buffer and is compared with the prefixes.
  function Taken(w: State, c: char, oobs: seq<string>): State {
    var line := w.text + [c];
    w.(text := AfterOob(line, oobs, 0), calls := w.calls + Calls(line, oobs, 0))
  }

  // What is then in the buffer is served and, if it is a cut, removed.
  function HandedOn(w: State, delim: string): (w': State)
    requires w.Valid()
    ensures w'.Valid()
  {
    w.(
      text := if IsCut(w.text, delim) then [] else w.text,
      reply := if w.reply.Some? then Some(Serve(w.reply.value, w.text, delim)) else None
    )
  }

  // One turn of the loop.
  function Feed(w: State, c: char, delim: string, oobs: seq<string>): (w': State)
    requires w.Valid()
    ensures w'.Valid()
  {
    HandedOn(Taken(w, c, oobs), delim)
  }

  lemma {:induction false} OobNeverGrows(text: string, oobs: seq<string>, k: nat)
    ensures |AfterOob(text, oobs, k)| <= |text|
    decreases |oobs| - k
  {
    if k < |oobs| { OobNeverGrows(if text == oobs[k] then [] else text, oobs, k + 1); }
  }

  // A text that is not empty is dropped exactly if it is one of the prefixes, and its callback is called once
  // however often it is registered. (An empty prefix would be called whenever the buffer is empty.)
  lemma {:induction false} OobFires(text: string, oobs: seq<string>, k: nat)
    requires k <= |oobs|
    ensures AfterOob(text, oobs, k) == if text in oobs[k..] then [] else text
    ensures [] !in oobs ==> Calls(text, oobs, k) == if text in oobs[k..] then 1 else 0
    decreases |oobs| - k
  {
    if k < |oobs| {
      OobFires(if text == oobs[k] then [] else text, oobs, k + 1);
      assert oobs[k..] == [oobs[k]] + oobs[k + 1..];
      assert forall x :: x in oobs[k + 1..] ==> x in oobs;
    }
  }

  // ---------------------------------------------------------------- whole streams

  // A stream, a byte at a time.
  function FeedAll(w: State, s: string, delim: string, oobs: seq<string>): (w': State)
    requires w.Valid()
    ensures w'.Valid()
  {
    if s == [] then w
    else
      var n := |s| - 1;
      Feed(FeedAll(w, s[..n], delim, oobs), s[n], delim, oobs)
  }

  // The buffer always has room for two bytes more, whatever the stream, the delimiter, the out-of-band
  // prefixes and the reply.
  lemma BufferNeverFull(w: State, s: string, delim: string, oobs: seq<string>)
    requires w.Valid() && |w.text| <= RECV_BUFFER_SIZE - 3
    ensures |FeedAll(w, s, delim, oobs).text| <= RECV_BUFFER_SIZE - 3
  {}

  // A stream cut into chunks, and what is left in the buffer. A chunk ends at a cut, or is a prefix that fired.
  datatype Chunk = Piece(text: string) | Fired(text: string)
  datatype Frames = Frames(chunks: seq<Chunk>, rest: string)

  function Texts(chunks: seq<Chunk>): seq<string> {
    seq(|chunks|, i requires 0 <= i < |chunks| => chunks[i].text)
  }

  // The pieces one after the other, without the prefixes.
  function Kept(chunks: seq<Chunk>): string {
    if chunks == [] then []
    else
      var n := |chunks| - 1;
      Kept(chunks[..n]) + if chunks[n].Piece? then chunks[n].text else []
  }

  function Firings(chunks: seq<Chunk>): nat {
    if chunks == [] then 0
    else
      var n := |chunks| - 1;
      Firings(chunks[..n]) + if chunks[n].Fired? then 1 else 0
  }

  // A buffer with this text is emptied.
  predicate Ends(text: string, delim: string, oobs: seq<string>) {
    text in oobs || IsCut(text, delim)
  }

  // Filling up from base to text a byte at a time, the buffer is not emptied.
  predicate Grows(base: string, text: string, delim: string, oobs: seq<string>) {
    base <= text && forall k {:trigger text[..k]} :: |base| < k <= |text| ==> !Ends(text[..k], delim, oobs)
  }

  // What is in the buffer when the i-th chunk begins.
  function Base(left: string, i: nat): string {
    if i == 0 then left else []
  }

  predicate IsChunk(base: string, c: Chunk, delim: string, oobs: seq<string>) {
    && |base| < |c.text|
    && Grows(base, c.text[..|c.text| - 1], delim, oobs)
    && Ends(c.text, delim, oobs)
    && (c.Fired? <==> c.text in oobs)
  }

  // The chunks and the rest make up the stream, and every chunk ends as soon as it can.
  predicate IsFraming(left: string, s: string, f: Frames, delim: string, oobs: seq<string>) {
    && left + s == Concat(Texts(f.chunks)) + f.rest
    && (forall i :: 0 <= i < |f.chunks| ==> IsChunk(Base(left, i), f.chunks[i], delim, oobs))
    && Grows(Base(left, |f.chunks|), f.rest, delim, oobs)
  }

  function Extend(f: Frames, c: char, delim: string, oobs: seq<string>): Frames {
    var text := f.rest + [c];
    if text in oobs then Frames(f.chunks + [Fired(text)], [])
    else if IsCut(text, delim) then Frames(f.chunks + [Piece(text)], [])
    else Frames(f.chunks, text)
  }

  // How the worker cuts a stream, with left in the buffer at first.
  function Frame(left: string, s: string, delim: string, oobs: seq<string>): Frames {
    if s == [] then Frames([], left)
    else Extend(Frame(left, s[..|s| - 1], delim, oobs), s[|s| - 1], delim, oobs)
  }

  lemma FrameSnoc(left: string, s: string, c: char, delim: string, oobs: seq<string>)
    ensures Line(left, s + [c], delim, oobs) == Frame(left, s, delim, oobs).rest + [c]
    ensures Frame(left, s + [c], delim, oobs) == Extend(Frame(left, s, delim, oobs), c, delim, oobs)
  {
    assert (s + [c])[..|s|] == s;
  }

  lemma TextsSnoc(chunks: seq<Chunk>, c: Chunk)
    ensures Concat(Texts(chunks + [c])) == Concat(Texts(chunks)) + c.text
  {
    assert Texts(chunks + [c]) == Texts(chunks) + [c.text];
    ConcatSnoc(Texts(chunks), c.text);
  }

  lemma GrowsSnoc(base: string, text: string, c: char, delim: string, oobs: seq<string>)
    requires base <= text
    ensures Grows(base, text + [c], delim, oobs) <==>
      Grows(base, text, delim, oobs) && !Ends(text + [c], delim, oobs)
  {
    var t := text + [c];
    assert t[..|t|] == t;
    forall k | 0 <= k <= |text| ensures text[..k] == t[..k] {}
  }

  lemma {:induction false} FrameIsFraming(left: string, s: string, delim: string, oobs: seq<string>)
    ensures IsFraming(left, s, Frame(left, s, delim, oobs), delim, oobs)
  {
    if s == [] {
      assert left + s == left;
    } else {
      FrameIsFraming(left, s[..|s| - 1], delim, oobs);
      ExtendKeepsFraming(left, s, Frame(left, s[..|s| - 1], delim, oobs), delim, oobs);
    }
  }

  lemma ExtendKeepsFraming(left: string, s: string, f: Frames, delim: string, oobs: seq<string>)
    requires s != [] && IsFraming(left, s[..|s| - 1], f, delim, oobs)
    ensures IsFraming(left, s, Extend(f, s[|s| - 1], delim, oobs), delim, oobs)
  {
    var c := s[|s| - 1];
    var text := f.rest + [c];
    OneByteBehind(left, s, Concat(Texts(f.chunks)), f.rest);
    GrowsSnoc(Base(left, |f.chunks|), f.rest, c, delim, oobs);
    if Ends(text, delim, oobs) {
      assert text[..|text| - 1] == f.rest;
      OneChunkMore(left, s, f, if text in oobs then Fired(text) else Piece(text), delim, oobs);
    }
  }

  lemma OneChunkMore(left: string, s: string, f: Frames, c: Chunk, delim: string, oobs: seq<string>)
    requires left + s == Concat(Texts(f.chunks)) + c.text
    requires forall i :: 0 <= i < |f.chunks| ==> IsChunk(Base(left, i), f.chunks[i], delim, oobs)
    requires IsChunk(Base(left, |f.chunks|), c, delim, oobs)
    ensures IsFraming(left, s, Frames(f.chunks + [c], []), delim, oobs)
  {
    TextsSnoc(f.chunks, c);
  }

  // There is only one way to frame a stream.
  lemma {:induction false} FramingIsUnique(left: string, s: string, f: Frames, delim: string, oobs: seq<string>)
    requires IsFraming(left, s, f, delim, oobs)
    ensures f == Frame(left, s, delim, oobs)
    decreases |s|
  {
    if s == [] {
      NoChunks(left, f, delim, oobs);
    } else {
      var g := OneByteLess(left, s, f, delim, oobs);
      FramingIsUnique(left, s[..|s| - 1], g, delim, oobs);
      FrameSnoc(left, s[..|s| - 1], s[|s| - 1], delim, oobs);
      assert s == s[..|s| - 1] + [s[|s| - 1]];
    }
  }

  lemma NoChunks(left: string, f: Frames, delim: string, oobs: seq<string>)
    requires IsFraming(left, [], f, delim, oobs)
    ensures f == Frames([], left)
  {
    assert left + [] == left;
  }

  lemma OneByteLess(left: string, s: string, f: Frames, delim: string, oobs: seq<string>) returns (g: Frames)
    requires IsFraming(left, s, f, delim, oobs) && s != []
    ensures IsFraming(left, s[..|s| - 1], g, delim, oobs) && f == Extend(g, s[|s| - 1], delim, oobs)
  {
    if |f.rest| > |Base(left, |f.chunks|)| {
      g := RestShorter(left, s, f, delim, oobs);
    } else {
      assert f.chunks != [];
      g := ChunkShorter(left, s, f, delim, oobs);
    }
  }

  lemma ButLast(x: string, y: string)
    requires y != []
    ensures (x + y)[..|x + y| - 1] == x + y[..|y| - 1] && (x + y)[|x + y| - 1] == y[|y| - 1]
    ensures y == y[..|y| - 1] + [y[|y| - 1]]
  {}

  lemma RestShorter(left: string, s: string, f: Frames, delim: string, oobs: seq<string>) returns (g: Frames)
    requires IsFraming(left, s, f, delim, oobs) && s != [] && |f.rest| > |Base(left, |f.chunks|)|
    ensures IsFraming(left, s[..|s| - 1], g, delim, oobs) && f == Extend(g, s[|s| - 1], delim, oobs)
  {
    var m := |f.rest| - 1;
    g := Frames(f.chunks, f.rest[..m]);
    ButLast(Concat(Texts(f.chunks)), f.rest);
    ButLast(left, s);
    GrowsSnoc(Base(left, |f.chunks|), g.rest, f.rest[m], delim, oobs);
  }

  lemma ChunkShorter(left: string, s: string, f: Frames, delim: string, oobs: seq<string>) returns (g: Frames)
    requires IsFraming(left, s, f, delim, oobs) && s != [] && f.rest == [] && f.chunks != []
    ensures IsFraming(left, s[..|s| - 1], g, delim, oobs) && f == Extend(g, s[|s| - 1], delim, oobs)
  {
    var m := |f.chunks| - 1;
    var before, c := f.chunks[..m], f.chunks[m];
    assert IsChunk(Base(left, m), c, delim, oobs);
    assert f.chunks == before + [c];
    g := Frames(before, c.text[..|c.text| - 1]);
    TextsSnoc(before, c);
    ButLast(Concat(Texts(before)), c.text);
    ButLast(left, s);
  }

  // The text in the buffer after the last byte of a stream, before anything is done with it.
  function Line(left: string, s: string, delim: string, oobs: seq<string>): string
    requires s != []
  {
    Frame(left, s[..|s| - 1], delim, oobs).rest + [s[|s| - 1]]
  }

  lemma LineEndsStream(left: string, s: string, delim: string, oobs: seq<string>)
    requires s != []
    ensures left + s == Concat(Texts(Frame(left, s[..|s| - 1], delim, oobs).chunks)) + Line(left, s, delim, oobs)
    ensures EndsWith(left + s, Line(left, s, delim, oobs))
  {
    var f := Frame(left, s[..|s| - 1], delim, oobs);
    FrameIsFraming(left, s[..|s| - 1], delim, oobs);
    OneByteBehind(left, s, Concat(Texts(f.chunks)), f.rest);
  }

  lemma OneByteBehind(left: string, s: string, x: string, y: string)
    requires s != [] && left + s[..|s| - 1] == x + y
    ensures var z := y + [s[|s| - 1]]; left + s == x + z && EndsWith(left + s, z)
  {
    var z := y + [s[|s| - 1]];
    assert left + s == (left + s[..|s| - 1]) + [s[|s| - 1]] == x + z;
    assert (x + z)[|x|..] == z;
  }

  // The worker sees a status at the end of the stream.
  predicate Seen(left: string, s: string, delim: string, oobs: seq<string>) {
    s != [] && Line(left, s, delim, oobs) !in oobs && IsStatus(Line(left, s, delim, oobs))
  }

  lemma EndsWithin(s: string, t: string, u: string)
    requires EndsWith(s, t)
    ensures EndsWith(s, u) && |u| <= |t| ==> EndsWith(t, u)
    ensures EndsWith(t, u) ==> EndsWith(s, u)
  {}

  // A status at the end of the stream is seen unless the buffer was emptied in the middle of it, or by it.
  lemma SeenIff(left: string, s: string, delim: string, oobs: seq<string>)
    requires s != []
    ensures Seen(left, s, delim, oobs) <==>
      && Line(left, s, delim, oobs) !in oobs
      && (|| (EndsWith(left + s, STATUS_OK) && |Line(left, s, delim, oobs)| >= |STATUS_OK|)
          || (EndsWith(left + s, STATUS_ERROR) && |Line(left, s, delim, oobs)| >= |STATUS_ERROR|))
  {
    LineEndsStream(left, s, delim, oobs);
    EndsWithin(left + s, Line(left, s, delim, oobs), STATUS_OK);
    EndsWithin(left + s, Line(left, s, delim, oobs), STATUS_ERROR);
  }

  // No status is seen before the end of the stream.
  ghost predicate NoneSeen(left: string, s: string, delim: string, oobs: seq<string>) {
    forall k {:trigger s[..k]} :: 0 < k < |s| ==> !Seen(left, s[..k], delim, oobs)
  }

  lemma NoneSeenBefore(left: string, s: string, delim: string, oobs: seq<string>)
    requires NoneSeen(left, s, delim, oobs) && s != []
    ensures NoneSeen(left, s[..|s| - 1], delim, oobs) && !Seen(left, s[..|s| - 1], delim, oobs)
  {
    var s' := s[..|s| - 1];
    forall k | 0 < k < |s'| ensures !Seen(left, s'[..k], delim, oobs) { assert s'[..k] == s[..k]; }
  }

  // ---------------------------------------------------------------- what the waiting task gets

  // Whatever task there is, the buffer holds the rest of the stream, and each prefix that fired was one call.
  lemma {:induction false} BufferIsRest(w: State, s: string, delim: string, oobs: seq<string>)
    requires w.Valid()
    ensures var w', f := FeedAll(w, s, delim, oobs), Frame(w.text, s, delim, oobs);
      w'.text == f.rest && ([] !in oobs ==> w'.calls == w.calls + Firings(f.chunks))
  {
    if s != [] {
      var n := |s| - 1;
      var f := Frame(w.text, s[..n], delim, oobs);
      BufferIsRest(w, s[..n], delim, oobs);
      OobFires(f.rest + [s[n]], oobs, 0);
      assert oobs[0..] == oobs;
      ExtendKept(f, s[n], delim, oobs);
    }
  }

  lemma KeptSnoc(chunks: seq<Chunk>, c: Chunk)
    ensures Kept(chunks + [c]) == Kept(chunks) + if c.Piece? then c.text else []
    ensures Firings(chunks + [c]) == Firings(chunks) + if c.Fired? then 1 else 0
  {
    assert (chunks + [c])[..|chunks|] == chunks;
  }

  lemma ExtendKept(f: Frames, c: char, delim: string, oobs: seq<string>)
    ensures var line, f' := f.rest + [c], Extend(f, c, delim, oobs);
      && f'.rest == (if Ends(line, delim, oobs) then [] else line)
      && Kept(f'.chunks) == Kept(f.chunks) + (if line !in oobs && IsCut(line, delim) then line else [])
      && Firings(f'.chunks) == Firings(f.chunks) + (if line in oobs then 1 else 0)
  {
    KeptSnoc(f.chunks, Piece(f.rest + [c]));
    KeptSnoc(f.chunks, Fired(f.rest + [c]));
  }

  // No prefix fires on the stream.
  ghost predicate NoneFires(left: string, s: string, delim: string, oobs: seq<string>) {
    forall k {:trigger s[..k]} :: 0 < k <= |s| ==> Line(left, s[..k], delim, oobs) !in oobs
  }

  lemma NoneFiresSnoc(left: string, s: string, delim: string, oobs: seq<string>)
    requires s != []
    ensures NoneFires(left, s, delim, oobs) <==>
      NoneFires(left, s[..|s| - 1], delim, oobs) && Line(left, s, delim, oobs) !in oobs
  {
    var s' := s[..|s| - 1];
    assert s[..|s|] == s;
    forall k | 0 < k < |s| ensures s'[..k] == s[..k] {}
    if NoneFires(left, s, delim, oobs) {
      forall k | 0 < k <= |s'| ensures Line(left, s'[..k], delim, oobs) !in oobs {
        assert Line(left, s[..k], delim, oobs) !in oobs;
      }
    }
  }

  lemma {:induction false} NoneFiresIff(left: string, s: string, delim: string, oobs: seq<string>)
    ensures NoneFires(left, s, delim, oobs) <==> Firings(Frame(left, s, delim, oobs).chunks) == 0
  {
    if s != [] {
      NoneFiresIff(left, s[..|s| - 1], delim, oobs);
      NoneFiresSnoc(left, s, delim, oobs);
      ExtendKept(Frame(left, s[..|s| - 1], delim, oobs), s[|s| - 1], delim, oobs);
    }
  }

  // Prefixes that do not fire make no difference, to any task.
  lemma {:induction false} SilentPrefixes(w: State, s: string, delim: string, oobs: seq<string>)
    requires w.Valid() && NoneFires(w.text, s, delim, oobs)
    ensures FeedAll(w, s, delim, oobs) == FeedAll(w, s, delim, [])
  {
    if s != [] {
      var n := |s| - 1;
      NoneFiresSnoc(w.text, s, delim, oobs);
      SilentPrefixes(w, s[..n], delim, oobs);
      BufferIsRest(w, s[..n], delim, oobs);
      SilentByte(FeedAll(w, s[..n], delim, oobs), s[n], delim, oobs);
    }
  }

  lemma SilentByte(w: State, c: char, delim: string, oobs: seq<string>)
    requires w.Valid() && w.text + [c] !in oobs
    ensures Feed(w, c, delim, oobs) == Feed(w, c, delim, [])
  {
    OobSilent(w.text + [c], oobs, 0);
  }

  lemma {:induction false} OobSilent(text: string, oobs: seq<string>, k: nat)
    requires text !in oobs
    ensures AfterOob(text, oobs, k) == text && Calls(text, oobs, k) == 0
    decreases |oobs| - k
  {
    if k < |oobs| { OobSilent(text, oobs, k + 1); }
  }

  // The pieces that are copied to the task before the status, or up to now.
  function Due(left: string, s: string, delim: string, oobs: seq<string>): string {
    Kept(Frame(left, if Seen(left, s, delim, oobs) then s[..|s| - 1] else s, delim, oobs).chunks)
  }

  // All of what is copied to the task.
  function Given(left: string, s: string, delim: string, oobs: seq<string>): string {
    Due(left, s, delim, oobs) + if Seen(left, s, delim, oobs) then Line(left, s, delim, oobs) else []
  }

  // From w to w' the task got given, and it was woken if a status was seen.
  ghost predicate Served(w: State, w': State, given: string, seen: bool)
    requires w.Valid() && w'.Valid() && w.reply.Some?
  {
    && w'.reply.Some? && w'.reply.value.len == w.reply.value.len
    && w'.reply.value.Text() == w.reply.value.Text() + given
    && w'.reply.value.signals == w.reply.value.signals + (if seen then 1 else 0)
  }

  // Up to the first status the worker sees, the task at the head gets the pieces of the stream in order, each
  // copied once, and then the line with that status and a signal. A prefix that fires is left out of the reply. This
  // holds for every delimiter, every list of prefixes and whatever was left in the buffer, as long as the pieces fit.
  lemma {:induction false} ReplyIsTheStream(w: State, s: string, delim: string, oobs: seq<string>)
    requires w.Valid() && w.reply.Some? && NoneSeen(w.text, s, delim, oobs)
    requires w.reply.value.off + |Due(w.text, s, delim, oobs)| < w.reply.value.len
    ensures Served(w, FeedAll(w, s, delim, oobs), Given(w.text, s, delim, oobs), Seen(w.text, s, delim, oobs))
  {
    if s == [] {
      assert w.reply.value.Text() + [] == w.reply.value.Text();
    } else {
      var n := |s| - 1;
      NoneSeenBefore(w.text, s, delim, oobs);
      GivenBefore(w.text, s[..n], delim, oobs);
      GivenNow(w.text, s, delim, oobs);
      ReplyIsTheStream(w, s[..n], delim, oobs);
      BufferIsRest(w, s[..n], delim, oobs);
      ServeByte(w, FeedAll(w, s[..n], delim, oobs), Given(w.text, s[..n], delim, oobs), s[n], delim, oobs);
    }
  }

  // What is copied to the task as part of a piece, and in all, when the buffer holds this line.
  function CopiedPiece(line: string, delim: string, oobs: seq<string>): string {
    if line !in oobs && !IsStatus(line) && IsCut(line, delim) then line else []
  }

  function Copied(line: string, delim: string, oobs: seq<string>): string {
    if line !in oobs && (IsStatus(line) || IsCut(line, delim)) then line else []
  }

  lemma GivenBefore(left: string, s: string, delim: string, oobs: seq<string>)
    requires !Seen(left, s, delim, oobs)
    ensures Given(left, s, delim, oobs) == Due(left, s, delim, oobs) == Kept(Frame(left, s, delim, oobs).chunks)
  {}

  lemma GivenNow(left: string, s: string, delim: string, oobs: seq<string>)
    requires s != []
    ensures var kept, line := Kept(Frame(left, s[..|s| - 1], delim, oobs).chunks), Line(left, s, delim, oobs);
      && Given(left, s, delim, oobs) == kept + Copied(line, delim, oobs)
      && Due(left, s, delim, oobs) == kept + CopiedPiece(line, delim, oobs)
  {
    ExtendKept(Frame(left, s[..|s| - 1], delim, oobs), s[|s| - 1], delim, oobs);
  }

  // One byte more.
  lemma ServeByte(w: State, before: State, given: string, c: char, delim: string, oobs: seq<string>)
    requires w.Valid() && before.Valid() && w.reply.Some? && Served(w, before, given, false)
    requires w.reply.value.off + |given + CopiedPiece(before.text + [c], delim, oobs)| < w.reply.value.len
    ensures var line := before.text + [c];
      Served(w, Feed(before, c, delim, oobs), given + Copied(line, delim, oobs), line !in oobs && IsStatus(line))
  {
    var line := before.text + [c];
    OffIsLength(w.reply.value, before.reply.value, given);
    FeedLine(before, c, delim, oobs);
    ServedTwice(w, before, Feed(before, c, delim, oobs), given, Copied(line, delim, oobs),
      line !in oobs && IsStatus(line));
  }

  lemma ServedTwice(w: State, w': State, w'': State, given: string, given': string, seen: bool)
    requires w.Valid() && w'.Valid() && w''.Valid() && w.reply.Some?
    requires Served(w, w', given, false) && Served(w', w'', given', seen)
    ensures Served(w, w'', given + given', seen)
  {
    var text := w.reply.value.Text();
    assert (text + given) + given' == text + (given + given');
  }

  lemma OffIsLength(r: Reply, r': Reply, data: string)
    requires r.Valid() && r'.Valid() && r'.Text() == r.Text() + data
    ensures r'.off == r.off + |data|
  {
    assert |r.Text()| == r.off && |r'.Text()| == r'.off;
  }

  // One turn, by the line that is then in the buffer.
  lemma FeedLine(w: State, c: char, delim: string, oobs: seq<string>)
    requires w.Valid() && w.reply.Some?
    requires w.reply.value.off + |CopiedPiece(w.text + [c], delim, oobs)| < w.reply.value.len
    ensures var line := w.text + [c];
      Served(w, Feed(w, c, delim, oobs), Copied(line, delim, oobs), line !in oobs && IsStatus(line))
  {
    var line := w.text + [c];
    OobFires(line, oobs, 0);
    assert oobs[0..] == oobs;
    ServeText(w.reply.value, if line in oobs then [] else line, delim);
  }

  lemma ServeText(before: Reply, text: string, delim: string)
    requires before.Valid()
    requires !IsStatus(text) && IsCut(text, delim) ==> before.off + |text| < before.len
    ensures var after := Serve(before, text, delim);
      && after.len == before.len
      && after.Text() == before.Text() + (if IsStatus(text) || IsCut(text, delim) then text else [])
      && after.signals == before.signals + (if IsStatus(text) then 1 else 0)
  {
    assert before.Text() + [] == before.Text();
  }

  lemma {:induction false} KeptOrFired(chunks: seq<Chunk>)
    requires forall i :: 0 <= i < |chunks| ==> chunks[i].text != []
    ensures Firings(chunks) == 0 ==> Kept(chunks) == Concat(Texts(chunks))
    ensures |Kept(chunks)| + Firings(chunks) <= |Concat(Texts(chunks))|
  {
    if chunks != [] {
      var n := |chunks| - 1;
      KeptOrFired(chunks[..n]);
      assert chunks == chunks[..n] + [chunks[n]];
      TextsSnoc(chunks[..n], chunks[n]);
    }
  }

  // The reply is then the whole stream exactly if no prefix fired on it.
  lemma WholeStreamIff(left: string, s: string, delim: string, oobs: seq<string>)
    requires Seen(left, s, delim, oobs)
    ensures Given(left, s, delim, oobs) == left + s <==> NoneFires(left, s, delim, oobs)
  {
    var f := Frame(left, s[..|s| - 1], delim, oobs);
    FrameIsFraming(left, s[..|s| - 1], delim, oobs);
    forall i | 0 <= i < |f.chunks| ensures f.chunks[i].text != [] {
      assert IsChunk(Base(left, i), f.chunks[i], delim, oobs);
    }
    KeptOrFired(f.chunks);
    LineEndsStream(left, s, delim, oobs);
    NoneFiresSnoc(left, s, delim, oobs);
    NoneFiresIff(left, s[..|s| - 1], delim, oobs);
  }

  // After the status the buffer is empty exactly when the last line also ends the piece. A delimiter in which
  // both statuses end always empties it.
  lemma NothingLeftBehindIff(w: State, s: string, delim: string, oobs: seq<string>)
    requires w.Valid() && Seen(w.text, s, delim, oobs)
    ensures var line := Line(w.text, s, delim, oobs);
      && FeedAll(w, s, delim, oobs).text == (if IsCut(line, delim) then [] else line)
      && (EndsWith(STATUS_OK, delim) && EndsWith(STATUS_ERROR, delim) ==> IsCut(line, delim))
  {
    BufferIsRest(w, s, delim, oobs);
    var line := Line(w.text, s, delim, oobs);
    if EndsWith(line, STATUS_OK) { EndsWithin(line, STATUS_OK, delim); }
    if EndsWith(line, STATUS_ERROR) { EndsWithin(line, STATUS_ERROR, delim); }
  }

  // Otherwise the line stays, and the next task's reply is that line followed by the stream up to its own status
  // unless a prefix fires.
  lemma LineIsCopiedAgain(w: State, s1: string, r: Reply, s2: string, delim: string, oobs: seq<string>)
    requires w.Valid() && Seen(w.text, s1, delim, oobs)
    requires !IsCut(Line(w.text, s1, delim, oobs), delim)
    requires var line := Line(w.text, s1, delim, oobs);
      && NoneSeen(line, s2, delim, oobs) && Seen(line, s2, delim, oobs)
      && r.Valid() && r.off + |Due(line, s2, delim, oobs)| < r.len
    ensures var line, w' := Line(w.text, s1, delim, oobs), FeedAll(w, s1, delim, oobs);
      var out := FeedAll(w'.(reply := Some(r)), s2, delim, oobs).reply;
      && w'.text == line
      && out.Some? && out.value.Text() == r.Text() + Given(line, s2, delim, oobs)
      && (Given(line, s2, delim, oobs) == line + s2 <==> NoneFires(line, s2, delim, oobs))
  {
    NothingLeftBehindIff(w, s1, delim, oobs);
    ReplyIsTheStream(FeedAll(w, s1, delim, oobs).(reply := Some(r)), s2, delim, oobs);
    WholeStreamIff(Line(w.text, s1, delim, oobs), s2, delim, oobs);
  }

  // ---------------------------------------------------------------- the caller's memory

  // A piece that does not fit is not copied: the reply becomes an error text and the task is woken.
  lemma PieceTooLong(w: State, s: string, delim: string, oobs: seq<string>)
    requires w.Valid() && w.reply.Some? && s != [] && NoneSeen(w.text, s, delim, oobs)
    requires w.reply.value.off + |Due(w.text, s[..|s| - 1], delim, oobs)| < w.reply.value.len
    requires w.reply.value.off + |Due(w.text, s, delim, oobs)| >= w.reply.value.len
    ensures var r, out := w.reply.value, FeedAll(w, s, delim, oobs).reply;
      && out.Some? && STATUS_ERROR <= out.value.mem && out.value.signals == r.signals + 1
      && out.value.off == r.off + |Due(w.text, s[..|s| - 1], delim, oobs)|
  {
    var s', r := s[..|s| - 1], w.reply.value;
    var before := FeedAll(w, s', delim, oobs);
    NoneSeenBefore(w.text, s, delim, oobs);
    GivenBefore(w.text, s', delim, oobs);
    GivenNow(w.text, s, delim, oobs);
    ReplyIsTheStream(w, s', delim, oobs);
    BufferIsRest(w, s', delim, oobs);
    OffIsLength(r, before.reply.value, Due(w.text, s', delim, oobs));
    OobSilent(Line(w.text, s, delim, oobs), oobs, 0);
  }

  // The memory at rsp has the caller's size, and no more of it is used.
  predicate Within(r: Reply) {
    |r.mem| == r.len && r.off <= r.len
  }

  // Storing the error text takes eight bytes.
  lemma OverflowFitsIff(r: Reply)
    requires Within(r)
    ensures Within(Overflow(r)) <==> r.len >= 8
  {}

  // What a turn does not copy as a status stays within the memory; a status is copied without a test.
  lemma ServeWithinIff(r: Reply, text: string, delim: string)
    requires Within(r) && r.len >= 8
    ensures Within(Serve(r, text, delim)) <==> !IsStatus(text) || r.off + |text| <= r.len
  {}

  lemma FeedWithinIff(w: State, c: char, delim: string, oobs: seq<string>)
    requires w.reply.Some? && Within(w.reply.value) && w.reply.value.len >= 8
    ensures var r, line, out := w.reply.value, w.text + [c], Feed(w, c, delim, oobs).reply;
      && out.Some? && out.value.len == r.len
      && (Within(out.value) <==> line in oobs || !IsStatus(line) || r.off + |line| <= r.len)
  {
    var line := w.text + [c];
    OobFires(line, oobs, 0);
    assert oobs[0..] == oobs;
    ServeWithinIff(w.reply.value, if line in oobs then [] else line, delim);
  }

  // Up to the first status every run stays within the caller's memory, even if pieces did not fit. With the status
  // it does exactly if the line fits behind what is there.
  lemma {:induction false} StatusFitsIff(w: State, s: string, delim: string, oobs: seq<string>)
    requires w.reply.Some? && Within(w.reply.value) && w.reply.value.len >= 8
    requires s != [] && NoneSeen(w.text, s, delim, oobs)
    ensures var before, after := FeedAll(w, s[..|s| - 1], delim, oobs).reply, FeedAll(w, s, delim, oobs).reply;
      && before.Some? && Within(before.value) && before.value.len == w.reply.value.len
      && after.Some? && after.value.len == w.reply.value.len
      && (Within(after.value) <==>
          Seen(w.text, s, delim, oobs) ==> before.value.off + |Line(w.text, s, delim, oobs)| <= w.reply.value.len)
  {
    var n := |s| - 1;
    NoneSeenBefore(w.text, s, delim, oobs);
    if n > 0 { StatusFitsIff(w, s[..n], delim, oobs); }
    BufferIsRest(w, s[..n], delim, oobs);
    FeedWithinIff(FeedAll(w, s[..n], delim, oobs), s[n], delim, oobs);
  }

  // ---------------------------------------------------------------- examples

  lemma {:induction false} FrameAppend(left: string, s: string, t: string, delim: string, oobs: seq<string>)
    ensures var f := Frame(left, s, delim, oobs);
      Frame(left, s + t, delim, oobs) == Behind(f.chunks, Frame(f.rest, t, delim, oobs))
  {
    var f := Frame(left, s, delim, oobs);
    if t == [] {
      assert s + t == s && f.chunks + [] == f.chunks;
    } else {
      var n := |t| - 1;
      FrameAppend(left, s, t[..n], delim, oobs);
      assert s + t == (s + t[..n]) + [t[n]];
      FrameSnoc(left, s + t[..n], t[n], delim, oobs);
      ExtendBehind(f.chunks, Frame(f.rest, t[..n], delim, oobs), t[n], delim, oobs);
    }
  }

  function Behind(chunks: seq<Chunk>, f: Frames): Frames {
    Frames(chunks + f.chunks, f.rest)
  }

  lemma ExtendBehind(chunks: seq<Chunk>, f: Frames, c: char, delim: string, oobs: seq<string>)
    ensures Extend(Behind(chunks, f), c, delim, oobs) == Behind(chunks, Extend(f, c, delim, oobs))
  {
    assert forall x: Chunk :: (chunks + f.chunks) + [x] == chunks + (f.chunks + [x]);
  }

  lemma {:induction false} NoDelimiter(s: string, d: char)
    requires d !in s && |s| < RECV_BUFFER_SIZE - 2
    ensures Frame([], s, [d], []) == Frames([], s)
  {
    if s != [] {
      NoDelimiter(s[..|s| - 1], d);
      RestGrows(s, d);
    }
  }

  lemma RestGrows(s: string, d: char)
    requires d !in s && 0 < |s| < RECV_BUFFER_SIZE - 2
    ensures Extend(Frames([], s[..|s| - 1]), s[|s| - 1], [d], []) == Frames([], s)
  {
    assert s == s[..|s| - 1] + [s[|s| - 1]];
    NotAtEnd(s, d);
  }

  lemma NotAtEnd(s: string, d: char)
    requires d !in s && |s| < RECV_BUFFER_SIZE - 2
    ensures !IsCut(s, [d])
  {
    if s != [] { assert s[|s| - 1..] == [s[|s| - 1]] && s[|s| - 1] in s; }
  }

  lemma NoStatusBefore(s: string, delim: string)
    requires forall k :: 0 < k < |s| ==> !IsStatus(s[..k])
    ensures NoneSeen([], s, delim, [])
  {
    forall k | 0 < k < |s| ensures !Seen([], s[..k], delim, []) {
      SeenIff([], s[..k], delim, []);
      assert [] + s[..k] == s[..k];
    }
  }

  // With the delimiter "X" the status line stays in the buffer, to be copied to a task once more.
  lemma StatusLineStays(len: nat)
    requires len > 0
    ensures var out := FeedAll(State([], 0, Some(Reply(seq(len, _ => '\0'), 0, len, 0))), STATUS_OK, "X", []);
      out.reply.Some? && out.reply.value.Text() == STATUS_OK && out.text == STATUS_OK
  {
    var w := State([], 0, Some(Reply(seq(len, _ => '\0'), 0, len, 0)));
    NoDelimiter(STATUS_OK, 'X');
    NoDelimiter(STATUS_OK[..3], 'X');
    NoStatusBefore(STATUS_OK, "X");
    ReplyIsTheStream(w, STATUS_OK, "X", []);
    NothingLeftBehindIff(w, STATUS_OK, "X", []);
  }

  lemma TwoLines(a: string, b: string, d: char)
    requires d !in a && d !in b && |a| < RECV_BUFFER_SIZE - 2 && |b| < RECV_BUFFER_SIZE - 2
    ensures Frame([], (a + [d]) + b, [d], []) == Frames([Piece(a + [d])], b)
  {
    NoDelimiter(a, d);
    NoDelimiter(b, d);
    FrameSnoc([], a, d, [d], []);
    assert EndsWith(a + [d], [d]);
    FrameAppend([], a + [d], b, [d], []);
  }

  lemma LineThenStatus(line: string)
    requires '\n' !in line && |line| < RECV_BUFFER_SIZE - 2
    ensures var s := (line + "\n") + STATUS_OK;
      && Seen([], s, "\n", [])
      && Due([], s, "\n", []) == line + "\n"
      && Given([], s, "\n", []) == s
  {
    var s := (line + "\n") + STATUS_OK;
    TwoLines(line, STATUS_OK[..3], '\n');
    assert s[..|s| - 1] == (line + "\n") + STATUS_OK[..3];
    assert STATUS_OK == STATUS_OK[..3] + "\n";
    assert Line([], s, "\n", []) == STATUS_OK;
    KeptSnoc([], Piece(line + "\n"));
    assert [] + [Piece(line + "\n")] == [Piece(line + "\n")];
  }

  // Where a line leaves fewer than four bytes of the memory, the status behind it goes past the end.
  lemma StatusOverruns(line: string, len: nat)
    requires '\r' !in line && '\n' !in line && |line| < RECV_BUFFER_SIZE - 2
    requires |line| + 1 < len < |line| + 5
    ensures var w := State([], 0, Some(Reply(seq(len, _ => '\0'), 0, len, 0)));
      var out := FeedAll(w, (line + "\n") + STATUS_OK, "\n", []).reply;
      out.Some? && out.value.Text() == (line + "\n") + STATUS_OK && !Within(out.value)
  {
    var r, s := Reply(seq(len, _ => '\0'), 0, len, 0), (line + "\n") + STATUS_OK;
    LineThenStatus(line);
    StatusEndsOnce(line);
    NoStatusBefore(s, "\n");
    ReplyIsTheStream(State([], 0, Some(r)), s, "\n", []);
    OffIsLength(r, FeedAll(State([], 0, Some(r)), s, "\n", []).reply.value, s);
  }

  lemma StatusEndsOnce(line: string)
    requires '\r' !in line && '\n' !in line
    ensures var s := (line + "\n") + STATUS_OK; forall k :: 0 < k < |s| ==> !IsStatus(s[..k])
  {
    var s := (line + "\n") + STATUS_OK;
    forall k | 0 < k < |s| ensures !IsStatus(s[..k]) {
      if IsStatus(s[..k]) { StatusEnds(s[..k]); }
      assert 2 <= k <= |line| + 1 ==> s[k - 2] in line;
    }
  }

  lemma StatusEnds(text: string)
    requires IsStatus(text)
    ensures |text| >= 4 && text[|text| - 2] == '\r' && text[|text| - 1] == '\n'
  {
    var n := |text|;
    if EndsWith(text, STATUS_OK) {
      assert text[n - 4..][2] == '\r' && text[n - 4..][3] == '\n';
    } else {
      assert text[n - 7..][5] == '\r' && text[n - 7..][6] == '\n';
    }
  }

  function Filler(n: nat): string {
    seq(n, _ => '.')
  }

  // After a line of 508 other characters the buffer is full in the middle of "OK", and the status is not seen.
  lemma StatusCutInTwo()
    ensures var s := Filler(508) + STATUS_OK;
      EndsWith(s, STATUS_OK) && Line([], s, "\n", []) == "\r\n" && !Seen([], s, "\n", [])
  {
    var s, full := Filler(508) + STATUS_OK, Filler(508) + "OK";
    assert full == (Filler(508) + "O") + ['K'] && s == (full + ['\r']) + ['\n'];
    NoDelimiter(Filler(508) + "O", '\n');
    AfterFull(Filler(508) + "O", 'K');
  }

  lemma AfterFull(s: string, c: char)
    requires |s| == RECV_BUFFER_SIZE - 3 && Frame([], s, "\n", []).rest == s
    ensures Line([], ((s + [c]) + ['\r']) + ['\n'], "\n", []) == "\r\n"
  {
    FrameSnoc([], s, c, "\n", []);
    FrameSnoc([], s + [c], '\r', "\n", []);
    FrameSnoc([], (s + [c]) + ['\r'], '\n', "\n", []);
  }

  // ---------------------------------------------------------------- the worker

  ghost predicate AllValid(chain: seq<SNode<Reply>>)
    reads chain`data
  {
    forall i :: 0 < i < |chain| ==> chain[i].data.Valid()
  }

  class Worker {
    const buf: array<char>
    var offset: nat
    var oobs: seq<string>
    var oobCalls: nat
    var delim: string
    const head: SNode<Reply>
    ghost var chain: seq<SNode<Reply>>

    ghost predicate Valid()
      reads this, chain`next, chain`data
    {
      && buf.Length == RECV_BUFFER_SIZE
      && offset <= RECV_BUFFER_SIZE - 3
      && Chain(chain) && chain[0] == head
      && AllValid(chain)
    }

    constructor (delim: string)
      ensures Valid() && offset == 0 && chain == [head] && this.delim == delim && oobs == []
    {
      buf := new char[RECV_BUFFER_SIZE](_ => '\0');
      offset, oobCalls, oobs := 0, 0, [];
      this.delim := delim;
      var node := new SNode<Reply>(Reply([], 0, 0, 0));
      head := node;
      chain := [node];
      new;
      assert LinkedAt(chain, 0);
    }

    // at_send_raw puts its task at the end of the list.
    method Submit(task: SNode<Reply>)
      requires Valid() && task !in chain && task.data.Valid()
      modifies this`chain, task`next, chain`next
      ensures Valid() && chain == old(chain) + [task]
    {
      AddTail(task, head, chain);
      chain := chain + [task];
    }

    // The woken task takes itself off the list.
    method Finish(task: SNode<Reply>)
      requires Valid() && task != head
      modifies this`chain, chain`next
      ensures Valid()
      ensures task !in old(chain) ==> chain == old(chain)
      ensures forall k :: 0 <= k < |old(chain)| && old(chain)[k] == task ==> chain == Drop(old(chain), k)
    {
      ghost var l := chain;
      chain := Del(task, head, l);
      if task in l {
        ghost var k :| 0 <= k < |l| && l[k] == task;
        assert chain == Drop(l, k);
      }
    }

    // The reply of the task at the head of the list.
    ghost function HeadReply(): Option<Reply>
      reads this, chain`data
    {
      if |chain| > 1 then Some(chain[1].data) else None
    }

    // What the worker goes by.
    ghost function View(): State
      requires offset <= buf.Length
      reads this, buf, chain`data
    {
      State(buf[..offset], oobCalls, HeadReply())
    }

    // The out-of-band prefixes are compared with the buffer one after the other; a match empties it.
    method CheckOob(n: nat) returns (m: nat)
      requires n <= buf.Length
      modifies this`oobCalls, buf
      ensures m <= n && m <= buf.Length && buf[..m] == AfterOob(old(buf[..n]), oobs, 0)
      ensures oobCalls == old(oobCalls) + Calls(old(buf[..n]), oobs, 0)
    {
      m := n;
      for k := 0 to |oobs|
        invariant m <= n <= buf.Length
        invariant AfterOob(buf[..m], oobs, k) == AfterOob(old(buf[..n]), oobs, 0)
        invariant oobCalls + Calls(buf[..m], oobs, k) == old(oobCalls) + Calls(old(buf[..n]), oobs, 0)
      {
        if m == |oobs[k]| && buf[..m] == oobs[k] {
          oobCalls := oobCalls + 1;
          forall i | 0 <= i < m { buf[i] := '\0'; }
          m := 0;
          assert buf[..0] == [];
        }
      }
    }

    // The buffer's text goes to a task; a status, or a reply that has outgrown rsp, wakes it.
    static method Hand(task: SNode<Reply>, text: string, delim: string)
      requires task.data.Valid()
      modifies task`data
      ensures task.data == Serve(old(task.data), text, delim)
    {
      if IsStatus(text) {
        task.data := Append(task.data, text);
        task.data := task.data.(signals := task.data.signals + 1);
      } else if IsCut(text, delim) {
        if task.data.off + |text| < task.data.len {
          task.data := Append(task.data, text);
        } else {
          task.data := Overflow(task.data);
          task.data := task.data.(signals := task.data.signals + 1);
        }
      }
    }

    // Only the first task of the list is served.
    method ServeHead(text: string)
      requires Valid()
      modifies chain`data
      ensures Valid()
      ensures old(HeadReply()).None? ==> HeadReply().None?
      ensures old(HeadReply()).Some? ==> HeadReply() == Some(Serve(old(HeadReply().value), text, delim))
      ensures forall i :: 2 <= i < |chain| ==> chain[i].data == old(chain[i].data)
    {
      var empty := Empty(head, chain);
      if !empty {
        assert LinkedAt(chain, 0);
        Hand(head.next, text, delim);
      }
    }

    // The buffer is emptied if it was full or ended with the delimiter.
    method CheckBuffer(n: nat)
      requires n < buf.Length == RECV_BUFFER_SIZE
      modifies this`offset, buf
      ensures offset <= RECV_BUFFER_SIZE - 3
      ensures buf[..offset] == if IsCut(old(buf[..n]), delim) then [] else old(buf[..n])
    {
      offset := n;
      if IsCut(buf[..n], delim) {
        forall i | 0 <= i < n { buf[i] := '\0'; }
        offset := 0;
        assert buf[..0] == [];
      }
    }

    // The byte goes to the end of the buffer.
    method Store(c: char) returns (n: nat)
      requires offset + 1 < buf.Length
      modifies buf
      ensures n == offset + 1 && buf[..n] == old(buf[..offset]) + [c]
    {
      buf[offset] := c;
      n := offset + 1;
      assert buf[..n] == buf[..offset] + [c];
    }

    // The assertion that the buffer has room never fails.
    method Take(c: char) returns (n: nat)
      requires Valid()
      modifies this`oobCalls, buf
      ensures Valid() && n < buf.Length && old(View()).Valid()
      ensures State(buf[..n], oobCalls, HeadReply()) == Taken(old(View()), c, oobs)
    {
      assert offset + 1 < RECV_BUFFER_SIZE;
      n := Store(c);
      n := CheckOob(n);
    }

    method HandOn(n: nat)
      requires Valid() && n < buf.Length
      modifies this`offset, buf, chain`data
      ensures Valid() && State(old(buf[..n]), old(oobCalls), old(HeadReply())).Valid()
      ensures View() == HandedOn(State(old(buf[..n]), old(oobCalls), old(HeadReply())), delim)
      ensures forall i :: 2 <= i < |chain| ==> chain[i].data == old(chain[i].data)
    {
      ServeHead(buf[..n]);
      CheckBuffer(n);
    }

    // One turn of at_worker's loop, with the byte that was read.
    method OnByte(c: char)
      requires Valid()
      modifies this`offset, this`oobCalls, buf, chain`data
      ensures Valid()
      ensures old(View()).Valid() && View() == Feed(old(View()), c, delim, oobs)
      ensures forall i :: 2 <= i < |chain| ==> chain[i].data == old(chain[i].data)
    {
      var n := Take(c);
      HandOn(n);
    }

    // at_worker's loop over a stretch of input during which no task comes or goes.
    method Work(input: string)
      requires Valid()
      modifies this`offset, this`oobCalls, buf, chain`data
      ensures Valid()
      ensures old(View()).Valid() && View() == FeedAll(old(View()), input, delim, oobs)
      ensures forall i :: 2 <= i < |chain| ==> chain[i].data == old(chain[i].data)
    {
      ghost var was := View();
      for k := 0 to |input|
        invariant Valid()
        invariant was.Valid() && View() == FeedAll(was, input[..k], delim, oobs)
        invariant forall i :: 2 <= i < |chain| ==> chain[i].data == old(chain[i].data)
      {
        assert input[..k + 1][..k] == input[..k];
        OnByte(input[k]);
      }
      assert input[..|input|] == input;
    }
  }
}
