/** PM4 type-3 packets: framing a command buffer and lowering packets to operations. */
module Pm4 {
  import opened Machine
  import opened Arithmetic

  type RawWord = s: seq<byte> | |s| == 4 witness [0, 0, 0, 0]

  function WordValue(w: RawWord): (v: u32) {
    Widths();
    FromLittleEndian(w)
  }

  function RawWordAt(buffer: seq<byte>, i: nat): (w: RawWord)
    requires 4 * i + 4 <= |buffer|
  {
    buffer[4 * i..4 * i + 4]
  }

  /** The value of the `i`-th word of a buffer. */
  function WordAt(buffer: seq<byte>, i: nat): (v: u32)
    requires 4 * i + 4 <= |buffer|
  {
    WordValue(RawWordAt(buffer, i))
  }

  datatype Header = Header(raw: u32, opcode: nat, count: nat, control: nat, body: nat, total: nat)
  datatype Frame = Frame(offset: nat, header: Header, words: seq<RawWord>)

  function TypeOf(raw: u32): (t: nat) { raw / 0x4000_0000 }

  function HeaderOf(raw: u32): (h: Header) {
    var count := raw / 0x1_0000 % 0x4000;
    Header(raw, raw / 0x100 % 0x100, count, raw % 0x100, count + 1, count + 2)
  }

  /** Type, count, opcode and control bits make up the whole header word. */
  lemma HeaderFieldsRecombine(raw: u32)
    ensures var h := HeaderOf(raw);
            && TypeOf(raw) * 0x4000_0000 + h.count * 0x1_0000 + h.opcode * 0x100 + h.control == h.raw == raw
            && TypeOf(raw) < 4 && h.count < 0x4000 && h.opcode < 0x100 && h.control < 0x100
            && h.total == h.body + 1 == h.count + 2
  {
    var high: int, low: int := raw / 0x1_0000, raw % 0x1_0000;
    HighHalf(raw, high, low);
    LowHalf(raw, high, low);
  }

  lemma HighHalf(raw: u32, high: int, low: int)
    requires raw == high * 0x1_0000 + low && 0 <= low < 0x1_0000
    ensures raw / 0x4000_0000 == high / 0x4000 < 4 && raw / 0x1_0000 == high
  {
    var kind, count := high / 0x4000, high % 0x4000;
    DivMod(raw, 0x4000_0000, kind, count * 0x1_0000 + low);
    DivMod(raw, 0x1_0000, high, low);
  }

  lemma LowHalf(raw: u32, high: int, low: int)
    requires raw == high * 0x1_0000 + low && 0 <= low < 0x1_0000
    ensures raw / 0x100 % 0x100 == low / 0x100 && raw % 0x100 == low % 0x100
  {
    var opcode, control := low / 0x100, low % 0x100;
    DivMod(raw, 0x100, high * 0x100 + opcode, control);
    DivMod(high * 0x100 + opcode, 0x100, high, opcode);
  }

  /** A whole type-3 packet starts at this word. */
  predicate FrameFits(buffer: seq<byte>, offset: nat) {
    && 4 * offset + 4 <= |buffer| && TypeOf(WordAt(buffer, offset)) == 3
    && 4 * (offset + HeaderOf(WordAt(buffer, offset)).total) <= |buffer|
  }

  function RawWords(buffer: seq<byte>, offset: nat, n: nat): (ws: seq<RawWord>)
    requires 4 * (offset + n) <= |buffer|
    ensures |ws| == n && forall i :: 0 <= i < n ==> ws[i] == RawWordAt(buffer, offset + i)
    decreases n
  {
    if n == 0 then [] else RawWords(buffer, offset, n - 1) + [RawWordAt(buffer, offset + n - 1)]
  }

  function FrameAt(buffer: seq<byte>, offset: nat): (f: Frame)
    requires FrameFits(buffer, offset)
    ensures f.offset == offset && f.header.total == |f.words| == f.header.count + 2
  {
    var header := HeaderOf(WordAt(buffer, offset));
    Frame(offset, header, RawWords(buffer, offset, header.total))
  }

  // ----- what a framing is -----

  function End(f: Frame): (n: nat) { f.offset + f.header.total }

  function EndOf(frames: seq<Frame>): (n: nat) {
    if frames == [] then 0 else End(frames[|frames| - 1])
  }

  /** Packets one after the other, from the first word on. */
  ghost predicate Consecutive(buffer: seq<byte>, frames: seq<Frame>) {
    forall i :: 0 <= i < |frames| ==> Placed(buffer, frames, i)
  }

  ghost predicate Placed(buffer: seq<byte>, frames: seq<Frame>, i: nat)
    requires i < |frames|
  {
    && frames[i].offset == EndOf(frames[..i])
    && FrameFits(buffer, frames[i].offset) && frames[i] == FrameAt(buffer, frames[i].offset)
  }

  ghost predicate IsFraming(buffer: seq<byte>, frames: seq<Frame>) {
    |buffer| % 4 == 0 && Consecutive(buffer, frames) && 4 * EndOf(frames) == |buffer|
  }

  lemma ConsecutivePrefix(buffer: seq<byte>, frames: seq<Frame>, n: nat)
    requires Consecutive(buffer, frames) && n <= |frames|
    ensures Consecutive(buffer, frames[..n])
  {
    hide FrameFits;
    forall i | 0 <= i < n
      ensures Placed(buffer, frames[..n], i)
    {
      assert Placed(buffer, frames, i);
      assert frames[..n][..i] == frames[..i];
    }
  }

  lemma Extend(buffer: seq<byte>, frames: seq<Frame>)
    requires Consecutive(buffer, frames) && FrameFits(buffer, EndOf(frames))
    ensures Consecutive(buffer, frames + [FrameAt(buffer, EndOf(frames))])
  {
    hide FrameFits, FrameAt;
    var longer := frames + [FrameAt(buffer, EndOf(frames))];
    forall i | 0 <= i < |longer|
      ensures Placed(buffer, longer, i)
    {
      if i < |frames| {
        assert Placed(buffer, frames, i);
        assert longer[..i] == frames[..i];
      } else {
        assert longer[..i] == frames;
      }
    }
  }

  /** The frames found so far stay inside the buffer and only move forward. */
  lemma {:induction false} EndsIncrease(buffer: seq<byte>, frames: seq<Frame>, i: nat)
    requires Consecutive(buffer, frames) && i <= |frames|
    ensures EndOf(frames[..i]) + 2 * (|frames| - i) <= EndOf(frames)
    ensures 4 * EndOf(frames) <= |buffer|
    decreases |frames|
  {
    if frames != [] {
      var n := |frames| - 1;
      assert Placed(buffer, frames, n);
      if i <= n {
        ConsecutivePrefix(buffer, frames, n);
        EndsIncrease(buffer, frames[..n], i);
        assert frames[..n][..i] == frames[..i];
      } else {
        assert frames[..i] == frames;
      }
    }
  }

  /** Framing is deterministic. */
  lemma {:induction false} FramesAgree(buffer: seq<byte>, f: seq<Frame>, g: seq<Frame>)
    requires Consecutive(buffer, f) && Consecutive(buffer, g) && |f| <= |g|
    ensures f == g[..|f|]
    decreases |f|
  {
    hide FrameFits, FrameAt;
    if f != [] {
      var n := |f| - 1;
      ConsecutivePrefix(buffer, f, n);
      FramesAgree(buffer, f[..n], g);
      assert Placed(buffer, f, n) && Placed(buffer, g, n);
      assert f == f[..n] + [f[n]] && g[..|f|] == g[..n] + [g[n]];
    }
  }

  lemma UniqueFraming(buffer: seq<byte>, f: seq<Frame>, g: seq<Frame>)
    requires IsFraming(buffer, f) && IsFraming(buffer, g)
    ensures f == g
  {
    if |f| <= |g| {
      FramesAgree(buffer, f, g);
      EndsIncrease(buffer, g, |f|);
      assert g[..|g|] == g;
    } else {
      FramesAgree(buffer, g, f);
      EndsIncrease(buffer, f, |g|);
    }
  }

  /** Framing stops inside the buffer at a word where no packet starts. */
  ghost predicate StuckAfter(buffer: seq<byte>, frames: seq<Frame>) {
    Consecutive(buffer, frames) && 4 * EndOf(frames) < |buffer| && !FrameFits(buffer, EndOf(frames))
  }

  lemma NextFits(buffer: seq<byte>, frames: seq<Frame>, n: nat)
    requires Consecutive(buffer, frames) && n < |frames|
    ensures FrameFits(buffer, EndOf(frames[..n]))
  {
    assert Placed(buffer, frames, n);
  }

  lemma StuckHasNoFraming(buffer: seq<byte>, frames: seq<Frame>, g: seq<Frame>)
    requires StuckAfter(buffer, frames)
    ensures !IsFraming(buffer, g)
  {
    hide FrameFits;
    if IsFraming(buffer, g) {
      if |g| <= |frames| {
        FramesAgree(buffer, g, frames);
        EndsIncrease(buffer, frames, |g|);
      } else {
        FramesAgree(buffer, frames, g);
        NextFits(buffer, g, |frames|);
      }
    }
  }

  /** Cutting the buffer at the end of a frame cuts the framing there. */
  lemma FramingPrefix(buffer: seq<byte>, frames: seq<Frame>, n: nat)
    requires IsFraming(buffer, frames) && n <= |frames|
    ensures 4 * EndOf(frames[..n]) <= |buffer|
    ensures IsFraming(buffer[..4 * EndOf(frames[..n])], frames[..n])
  {
    hide FrameFits, FrameAt;
    EndsIncrease(buffer, frames, n);
    ConsecutivePrefix(buffer, frames, n);
    var cut := buffer[..4 * EndOf(frames[..n])];
    forall i | 0 <= i < n
      ensures Placed(cut, frames[..n], i)
    {
      assert Placed(buffer, frames[..n], i);
      EndsIncrease(buffer, frames[..n], i + 1);
      assert frames[..n][..i + 1][i] == frames[i];
      SameFrame(buffer, cut, frames[i].offset);
    }
  }

  /** A packet only depends on its own words. */
  lemma SameFrame(buffer: seq<byte>, cut: seq<byte>, offset: nat)
    requires cut <= buffer && FrameFits(buffer, offset) && 4 * End(FrameAt(buffer, offset)) <= |cut|
    ensures FrameFits(cut, offset) && FrameAt(cut, offset) == FrameAt(buffer, offset)
  {
    hide FromLittleEndian;
    var n := FrameAt(buffer, offset).header.total;
    forall w: nat | offset <= w < offset + n
      ensures RawWordAt(cut, w) == RawWordAt(buffer, w)
    {
    }
    assert RawWordAt(cut, offset) == RawWordAt(buffer, offset);
    var a, b := RawWords(cut, offset, n), RawWords(buffer, offset, n);
    assert forall i :: 0 <= i < n ==> a[i] == b[i];
  }

  // ----- the framed words are the buffer -----

  function WordBytes(ws: seq<RawWord>): (s: seq<byte>) {
    if ws == [] then [] else WordBytes(ws[..|ws| - 1]) + ws[|ws| - 1]
  }

  function FrameBytes(frames: seq<Frame>): (s: seq<byte>) {
    if frames == [] then [] else FrameBytes(frames[..|frames| - 1]) + WordBytes(frames[|frames| - 1].words)
  }

  lemma {:induction false} WordsAreBytes(buffer: seq<byte>, offset: nat, n: nat)
    requires 4 * (offset + n) <= |buffer|
    ensures WordBytes(RawWords(buffer, offset, n)) == buffer[4 * offset..4 * (offset + n)]
    decreases n
  {
    hide WordBytes;
    if n == 0 {
      NoWords();
    } else {
      WordsAreBytes(buffer, offset, n - 1);
      var from, middle := 4 * offset, 4 * (offset + n - 1);
      WordBytesStep(RawWords(buffer, offset, n - 1), RawWordAt(buffer, offset + n - 1));
      assert buffer[from..middle + 4] == buffer[from..middle] + buffer[middle..middle + 4];
    }
  }

  lemma NoWords()
    ensures WordBytes([]) == []
  {
  }

  lemma WordBytesStep(ws: seq<RawWord>, w: RawWord)
    ensures WordBytes(ws + [w]) == WordBytes(ws) + w
  {
    assert (ws + [w])[..|ws|] == ws;
  }

  lemma {:induction false} FramesAreBytes(buffer: seq<byte>, frames: seq<Frame>)
    requires Consecutive(buffer, frames)
    ensures 4 * EndOf(frames) <= |buffer| && FrameBytes(frames) == buffer[..4 * EndOf(frames)]
    decreases |frames|
  {
    hide FrameFits;
    EndsIncrease(buffer, frames, 0);
    if frames != [] {
      var n := |frames| - 1;
      assert Placed(buffer, frames, n);
      ConsecutivePrefix(buffer, frames, n);
      FramesAreBytes(buffer, frames[..n]);
      var f := frames[n];
      WordsAreBytes(buffer, f.offset, f.header.total);
      assert buffer[..4 * f.offset] + buffer[4 * f.offset..4 * End(f)] == buffer[..4 * End(f)];
    }
  }

  /** The raw words of a framing, put end to end, are the command buffer. */
  lemma FramingTiles(buffer: seq<byte>, frames: seq<Frame>)
    requires IsFraming(buffer, frames)
    ensures FrameBytes(frames) == buffer
  {
    FramesAreBytes(buffer, frames);
    assert buffer[..|buffer|] == buffer;
  }

  // ----- framing -----

  datatype FrameError =
    | NotWordAligned
    | UnsupportedPacketType(offset: nat, packetType: nat, available: nat)
    | TruncatedPacket(offset: nat, required: nat, available: nat)

  method ReadWord(buffer: seq<byte>, i: nat) returns (v: u32)
    requires 4 * i + 4 <= |buffer|
    ensures v == WordAt(buffer, i)
  {
    Widths();
    v := ReadLittleEndian(buffer, 4 * i, 4);
  }

  datatype PacketError = PacketNotAligned | EmptyPacket | PacketRangeOverflow | PacketOutOfBounds

  /** `parse_raw_packet`: the words of an extent inside the buffer, or the first reason there are none.
      No error is reachable from framing. */
  method ParseRawPacket(buffer: seq<byte>, offset: u64, count: u64) returns (r: Result<seq<RawWord>, PacketError>)
    ensures r.Ok? <==> |buffer| % 4 == 0 && count > 0 && offset + count < TWO64 && 4 * (offset + count) <= |buffer|
    ensures r.Ok? ==> r.value == RawWords(buffer, offset, count)
    ensures r.Err? ==>
              r.error == if |buffer| % 4 != 0 then PacketNotAligned else if count == 0 then EmptyPacket
                         else if offset + count >= TWO64 then PacketRangeOverflow else PacketOutOfBounds
  {
    if |buffer| % 4 != 0 {
      return Err(PacketNotAligned);
    }
    if count == 0 {
      return Err(EmptyPacket);
    }
    if offset > U64_MAX - count {
      return Err(PacketRangeOverflow);
    }
    var available := |buffer| / 4;
    if offset >= available || offset + count > available {
      return Err(PacketOutOfBounds);
    }
    var words: seq<RawWord> := [];
    while |words| < count
      invariant |words| <= count
      invariant forall k :: 0 <= k < |words| ==> words[k] == RawWordAt(buffer, offset + k)
    {
      var at := 4 * (offset + |words|);
      words := words + [[buffer[at], buffer[at + 1], buffer[at + 2], buffer[at + 3]]];
    }
    return Ok(words);
  }

  /** Why framing failed. */
  ghost predicate FramingFails(buffer: seq<byte>, e: FrameError) {
    if |buffer| % 4 != 0 then e == NotWordAligned
    else exists frames ::
      && StuckAfter(buffer, frames)
      && var at, available := EndOf(frames), |buffer| / 4 - EndOf(frames);
         var raw := WordAt(buffer, at);
         e == if TypeOf(raw) != 3 then UnsupportedPacketType(at, TypeOf(raw), available)
              else TruncatedPacket(at, HeaderOf(raw).total, available)
  }

  /** `frame_pm4_type3_stream`: finds the framing if there is one. */
  method FrameStream(buffer: seq<byte>) returns (r: Result<seq<Frame>, FrameError>)
    requires |buffer| < TWO64
    ensures r.Ok? ==> IsFraming(buffer, r.value)
    ensures r.Err? ==> FramingFails(buffer, r.error) && forall g :: !IsFraming(buffer, g)
  {
    hide Consecutive, FromLittleEndian;
    if |buffer| % 4 != 0 {
      return Err(NotWordAligned);
    }
    var count := |buffer| / 4;
    var offset := 0;
    var frames: seq<Frame> := [];
    NoFrames(buffer);
    while offset < count
      invariant Consecutive(buffer, frames) && offset == EndOf(frames) && offset <= count
    {
      var raw := ReadWord(buffer, offset);
      var available := count - offset;
      if TypeOf(raw) != 3 {
        assert StuckAfter(buffer, frames);
        NoFramingHere(buffer, frames);
        return Err(UnsupportedPacketType(offset, TypeOf(raw), available));
      }
      var header := HeaderOf(raw);
      if header.total > available {
        assert StuckAfter(buffer, frames);
        NoFramingHere(buffer, frames);
        return Err(TruncatedPacket(offset, header.total, available));
      }
      var words := ParseRawPacket(buffer, offset, header.total);
      assert words.Ok?;
      var frame := Frame(offset, header, words.value);
      assert frame == FrameAt(buffer, offset);
      Extend(buffer, frames);
      frames := frames + [frame];
      offset := offset + header.total;
    }
    return Ok(frames);
  }

  lemma NoFrames(buffer: seq<byte>)
    ensures Consecutive(buffer, [])
  {
  }

  lemma NoFramingHere(buffer: seq<byte>, frames: seq<Frame>)
    requires StuckAfter(buffer, frames)
    ensures forall g :: !IsFraming(buffer, g)
  {
    hide StuckAfter, IsFraming;
    forall g
      ensures !IsFraming(buffer, g)
    {
      StuckHasNoFraming(buffer, frames, g);
    }
  }
}
