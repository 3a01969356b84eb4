/** The wire format of the controller/worker protocol. */
module Wire {
  import opened Machine

  const MAGIC: u32 := 0x52545341
  const VERSION: u16 := 1
  const HEADER_SIZE: nat := 12
  const MAX_PAYLOAD: nat := 128

  const STOP_GUEST_FAULT: u32 := 3
  const STOP_DIAGNOSTIC_BOUNDARY: u32 := 7
  const TERMINATE_USER_REQUEST: u32 := 0
  const TERMINATE_FATAL_FAULT: u32 := 2
  const TERMINATE_UNSUPPORTED: u32 := 3

  type Arguments = s: seq<u64> | |s| == 6 witness [0, 0, 0, 0, 0, 0]

  /** A message as a C++ value: enum fields can hold any 32-bit code, so validity is a separate check. */
  datatype Message =
    | Hello(version: u32)
    | Ready(version: u32, worker: u64)
    | RunRequest(budget: u64)
    | SyscallRequest(request: u64, worker: u64, thread: u64, number: u64, arguments: Arguments, rip: u64)
    | SyscallResult(request: u64, worker: u64, thread: u64, returned: i64, errno: i32)
    | Stop(worker: u64, thread: u64, reason: u32, rip: u64)
    | Fault(worker: u64, thread: u64, fault: u32, rip: u64, address: u64)
    | Terminate(cause: u32)
    | Diagnostic(worker: u64, thread: u64, boundary: u32, rip: u64, detail0: u64, detail1: u64)

  predicate Valid(m: Message) {
    match m
    case RunRequest(budget) => budget != 0
    case Fault(_, _, fault, _, _) => fault <= 3
    case Diagnostic(_, _, boundary, _, _, _) => 1 <= boundary <= 9
    case Stop(_, _, reason, _) => reason <= 7
    case Terminate(cause) => cause <= 4
    case _ => true
  }

  type Kind = k: nat | 1 <= k <= 9 witness 1

  function KindOf(m: Message): (k: Kind) {
    match m
    case Hello(_) => 1
    case Ready(_, _) => 2
    case RunRequest(_) => 3
    case SyscallRequest(_, _, _, _, _, _) => 4
    case SyscallResult(_, _, _, _, _) => 5
    case Stop(_, _, _, _) => 6
    case Fault(_, _, _, _, _) => 7
    case Terminate(_) => 8
    case Diagnostic(_, _, _, _, _, _) => 9
  }

  function PayloadSize(k: Kind): (n: nat)
    ensures 0 < n <= MAX_PAYLOAD
  {
    match k
    case 1 => 4
    case 2 => 12
    case 3 => 8
    case 4 => 88
    case 5 => 36
    case 6 => 28
    case 7 => 36
    case 8 => 4
    case _ => 44
  }

  /** Two's complement, as a bit cast gives it. */
  function Unsigned64(v: i64): (u: u64) { if v < 0 then v + TWO64 else v }
  function Signed64(u: u64): (v: i64)
    ensures Unsigned64(v) == u
  {
    if u >= TWO63 then u - TWO64 else u
  }
  function Unsigned32(v: i32): (u: u32) { if v < 0 then v + TWO32 else v }
  function Signed32(u: u32): (v: i32)
    ensures Unsigned32(v) == u
  {
    if u >= 0x8000_0000 then u - TWO32 else u
  }

  // ----- the format -----

  /** One field: its width in bytes and its value. */
  datatype Field = Field(width: nat, value: nat)

  function W(v: u32): (f: Field) { Field(4, v) }
  function D(v: u64): (f: Field) { Field(8, v) }

  /** The fields of a message in wire order. */
  function Fields(m: Message): (fs: seq<Field>) {
    match m
    case Hello(version) => [W(version)]
    case Ready(version, worker) => [W(version), D(worker)]
    case RunRequest(budget) => [D(budget)]
    case SyscallRequest(request, worker, thread, number, a, rip) =>
      [D(request), D(worker), D(thread), D(number), D(a[0]), D(a[1]), D(a[2]), D(a[3]), D(a[4]), D(a[5]), D(rip)]
    case SyscallResult(request, worker, thread, returned, errno) =>
      [D(request), D(worker), D(thread), D(Unsigned64(returned)), W(Unsigned32(errno))]
    case Stop(worker, thread, reason, rip) => [D(worker), D(thread), W(reason), D(rip)]
    case Fault(worker, thread, fault, rip, address) => [D(worker), D(thread), W(fault), D(rip), D(address)]
    case Terminate(cause) => [W(cause)]
    case Diagnostic(worker, thread, boundary, rip, detail0, detail1) =>
      [D(worker), D(thread), W(boundary), D(rip), D(detail0), D(detail1)]
  }

  function HeaderFields(k: Kind): (fs: seq<Field>) {
    [W(MAGIC), Field(2, VERSION), Field(2, k), W(PayloadSize(k))]
  }

  /** Fields written one after the other, least significant byte first. */
  function Pack(fs: seq<Field>): (s: seq<byte>) {
    if fs == [] then [] else Pack(fs[..|fs| - 1]) + LittleEndian(fs[|fs| - 1].width, fs[|fs| - 1].value)
  }

  function Frame(m: Message): (s: seq<byte>) {
    Pack(HeaderFields(KindOf(m)) + Fields(m))
  }

  function Frames(ms: seq<Message>): (s: seq<byte>) {
    if ms == [] then [] else Frames(ms[..|ms| - 1]) + Frame(ms[|ms| - 1])
  }

  // ----- packing is injective -----

  predicate Fitting(fs: seq<Field>) {
    forall i :: 0 <= i < |fs| ==> fs[i].value < Pow256(fs[i].width)
  }

  predicate SameWidths(fs: seq<Field>, gs: seq<Field>) {
    |fs| == |gs| && forall i :: 0 <= i < |fs| ==> fs[i].width == gs[i].width
  }

  /** Where field `n` starts. */
  function Offset(fs: seq<Field>, n: nat): (w: nat)
    requires n <= |fs|
  {
    if n == 0 then 0 else Offset(fs, n - 1) + fs[n - 1].width
  }

  lemma {:induction false} OffsetAgrees(fs: seq<Field>, gs: seq<Field>, n: nat)
    requires n <= |fs| && n <= |gs| && forall i :: 0 <= i < n ==> fs[i].width == gs[i].width
    ensures Offset(fs, n) == Offset(gs, n)
  {
    if n > 0 {
      OffsetAgrees(fs, gs, n - 1);
    }
  }

  lemma {:induction false} PackLength(fs: seq<Field>)
    ensures |Pack(fs)| == Offset(fs, |fs|)
  {
    if fs != [] {
      PackLength(fs[..|fs| - 1]);
      OffsetAgrees(fs, fs[..|fs| - 1], |fs| - 1);
    }
  }

  /** Values that fit their fields are determined by the packed bytes. */
  lemma {:induction false} PackInjective(fs: seq<Field>, gs: seq<Field>)
    requires Fitting(fs) && Fitting(gs) && SameWidths(fs, gs) && Pack(fs) == Pack(gs)
    ensures fs == gs
  {
    hide LittleEndian, FromLittleEndian, Pow256;
    if fs != [] {
      var n := |fs| - 1;
      var f, g := fs[n], gs[n];
      var a, b := Pack(fs[..n]), Pack(gs[..n]);
      PackLength(fs[..n]);
      PackLength(gs[..n]);
      OffsetAgrees(fs[..n], gs[..n], n);
      assert a == Pack(fs)[..|a|] && b == Pack(gs)[..|a|];
      assert LittleEndian(f.width, f.value) == Pack(fs)[|a|..] == LittleEndian(g.width, g.value);
      PackInjective(fs[..n], gs[..n]);
      DecodeEncode(f.width, f.value);
      DecodeEncode(g.width, g.value);
      assert fs == fs[..n] + [f] && gs == gs[..n] + [g];
    }
  }

  lemma {:induction false} PackAppend(fs: seq<Field>, gs: seq<Field>)
    ensures Pack(fs + gs) == Pack(fs) + Pack(gs)
    decreases |gs|
  {
    if gs == [] {
      assert fs + gs == fs;
    } else {
      var n := |gs| - 1;
      assert (fs + gs)[..|fs + gs| - 1] == fs + gs[..n];
      PackAppend(fs, gs[..n]);
    }
  }

  /** Field `i` was read from its place in `s`. */
  predicate ReadFrom(fs: seq<Field>, i: nat, s: seq<byte>)
    requires i < |fs|
  {
    var f := fs[i];
    Offset(fs, i) + f.width <= |s| && f.value == FromLittleEndian(s[Offset(fs, i)..Offset(fs, i) + f.width])
  }

  /** Packing fields that were read from their places gives the bytes back. */
  lemma {:induction false} PackRead(fs: seq<Field>, n: nat, s: seq<byte>)
    requires n <= |fs| && Offset(fs, n) <= |s| && forall i :: 0 <= i < n ==> ReadFrom(fs, i, s)
    ensures Pack(fs[..n]) == s[..Offset(fs, n)]
  {
    hide LittleEndian, FromLittleEndian, Pow256;
    if n > 0 {
      PackRead(fs, n - 1, s);
      assert ReadFrom(fs, n - 1, s);
      assert fs[..n][..n - 1] == fs[..n - 1];
      var from, to := Offset(fs, n - 1), Offset(fs, n);
      EncodeDecode(s[from..to]);
      assert s[..from] + s[from..to] == s[..to];
    }
  }

  lemma FieldsFit(m: Message)
    ensures Fitting(Fields(m)) && Fitting(HeaderFields(KindOf(m)))
  {
    Widths();
    hide Pow256;
  }

  /** Field offsets of a payload made of eight-byte fields only. */
  lemma {:induction false} UniformOffsets(fs: seq<Field>, n: nat)
    requires n <= |fs| && forall i :: 0 <= i < n ==> fs[i].width == 8
    ensures Offset(fs, n) == 8 * n
  {
    if n > 0 {
      UniformOffsets(fs, n - 1);
    }
  }

  /** Field offsets of a payload whose third field is a four-byte code. */
  lemma CodedOffsets(fs: seq<Field>, n: nat)
    requires 3 <= n <= |fs| && fs[0].width == 8 && fs[1].width == 8 && fs[2].width == 4
    requires forall i :: 3 <= i < n ==> fs[i].width == 8
    ensures Offset(fs, 0) == 0 && Offset(fs, 1) == 8 && Offset(fs, 2) == 16
    ensures Offset(fs, n) == 8 * n - 4
    decreases n
  {
    if n > 3 {
      CodedOffsets(fs, n - 1);
    } else {
      UniformOffsets(fs, 2);
      UniformOffsets(fs, 1);
    }
  }

  /** Field offsets of every message, as the decoder writes them. */
  lemma FieldOffsets(m: Message, i: nat)
    requires i <= |Fields(m)|
    ensures Offset(Fields(m), i) == FieldOffset(KindOf(m), i)
  {
    hide Offset;
    var fs := Fields(m);
    match m
    case Hello(_) => ShortOffsets(fs);
    case Ready(_, _) => ShortOffsets(fs);
    case Terminate(_) => ShortOffsets(fs);
    case RunRequest(_) => UniformOffsets(fs, i);
    case SyscallRequest(_, _, _, _, _, _) => UniformOffsets(fs, i);
    case SyscallResult(_, _, _, _, _) =>
      ShortOffsets(fs);
      if i <= 4 { UniformOffsets(fs, i); } else { UniformOffsets(fs, 4); LastOffset(fs); }
    case Stop(_, _, _, _) => CodedOffsets(fs, if i < 3 then 3 else i);
    case Fault(_, _, _, _, _) => CodedOffsets(fs, if i < 3 then 3 else i);
    case Diagnostic(_, _, _, _, _, _) => CodedOffsets(fs, if i < 3 then 3 else i);
  }

  lemma ShortOffsets(fs: seq<Field>)
    requires |fs| > 0
    ensures Offset(fs, 0) == 0 && Offset(fs, 1) == fs[0].width
    ensures |fs| >= 2 ==> Offset(fs, 2) == fs[0].width + fs[1].width
  {
    assert Offset(fs, 1) == Offset(fs, 0) + fs[0].width;
  }

  lemma LastOffset(fs: seq<Field>)
    requires |fs| > 0
    ensures Offset(fs, |fs|) == Offset(fs, |fs| - 1) + fs[|fs| - 1].width
  {
  }

  /** The byte offset, inside the payload, at which the decoder reads field `i`. */
  function FieldOffset(k: Kind, i: nat): (n: nat) {
    match k
    case 1 => 4 * i
    case 8 => 4 * i
    case 2 => if i == 0 then 0 else 8 * i - 4
    case 3 => 8 * i
    case 4 => 8 * i
    case 5 => if i <= 4 then 8 * i else 8 * i - 4
    case _ => if i <= 2 then 8 * i else 8 * i - 4
  }

  function FieldCount(k: Kind): (n: nat) {
    match k
    case 1 => 1
    case 2 => 2
    case 3 => 1
    case 4 => 11
    case 5 => 5
    case 6 => 4
    case 7 => 5
    case 8 => 1
    case _ => 6
  }

  /** The declared payload size is the size of the payload. */
  lemma PayloadLength(m: Message)
    ensures |Fields(m)| == FieldCount(KindOf(m))
    ensures |Pack(Fields(m))| == PayloadSize(KindOf(m))
  {
    PackLength(Fields(m));
    FieldOffsets(m, |Fields(m)|);
  }

  lemma HeaderLength(k: Kind)
    ensures |Pack(HeaderFields(k))| == HEADER_SIZE
    ensures Offset(HeaderFields(k), 0) == 0 && Offset(HeaderFields(k), 1) == 4 && Offset(HeaderFields(k), 2) == 6
    ensures Offset(HeaderFields(k), 3) == 8 && Offset(HeaderFields(k), 4) == 12
  {
    var fs := HeaderFields(k);
    PackLength(fs);
    assert Offset(fs, 1) == Offset(fs, 0) + fs[0].width;
    assert Offset(fs, 2) == Offset(fs, 1) + fs[1].width;
    assert Offset(fs, 3) == Offset(fs, 2) + fs[2].width;
    assert Offset(fs, 4) == Offset(fs, 3) + fs[3].width;
  }

  /** A frame is a twelve-byte header followed by the payload. */
  lemma FrameParts(m: Message)
    ensures Frame(m) == Pack(HeaderFields(KindOf(m))) + Pack(Fields(m))
    ensures |Pack(HeaderFields(KindOf(m)))| == HEADER_SIZE
    ensures |Frame(m)| == HEADER_SIZE + PayloadSize(KindOf(m))
  {
    PackAppend(HeaderFields(KindOf(m)), Fields(m));
    HeaderLength(KindOf(m));
    PayloadLength(m);
  }

  lemma HeaderInjective(j: Kind, k: Kind)
    requires Pack(HeaderFields(j)) == Pack(HeaderFields(k))
    ensures j == k
  {
    Widths();
    PackInjective(HeaderFields(j), HeaderFields(k));
    assert HeaderFields(j)[2].value == j && HeaderFields(k)[2].value == k;
  }

  lemma SameKindSameWidths(a: Message, b: Message)
    requires KindOf(a) == KindOf(b)
    ensures SameWidths(Fields(a), Fields(b))
  {
  }

  /** A message is determined by its fields. */
  lemma FieldsInjective(a: Message, b: Message)
    requires KindOf(a) == KindOf(b) && Fields(a) == Fields(b)
    ensures a == b
  {
    var fs, gs := Fields(a), Fields(b);
    assert forall i :: 0 <= i < |fs| ==> fs[i] == gs[i];
    match a
    case SyscallRequest(_, _, _, _, x, _) =>
      assert fs[4] == gs[4] && fs[5] == gs[5] && fs[6] == gs[6] && fs[7] == gs[7] && fs[8] == gs[8] && fs[9] == gs[9];
      assert x == [x[0], x[1], x[2], x[3], x[4], x[5]];
      var y := b.arguments;
      assert y == [y[0], y[1], y[2], y[3], y[4], y[5]];
    case SyscallResult(_, _, _, _, _) =>
      assert fs[3] == gs[3] && fs[4] == gs[4];
    case _ =>
  }

  /** Two frames that begin the same bytes are the same frame: the code is prefix-free. */
  lemma PrefixFree(a: Message, b: Message, s: seq<byte>, t: seq<byte>)
    requires Frame(a) + s == Frame(b) + t
    ensures a == b && s == t
  {
    hide Pack, Fields, PayloadSize;
    FrameParts(a);
    FrameParts(b);
    var h, g := Pack(HeaderFields(KindOf(a))), Pack(HeaderFields(KindOf(b)));
    assert h == (Frame(a) + s)[..HEADER_SIZE] && g == (Frame(b) + t)[..HEADER_SIZE];
    HeaderInjective(KindOf(a), KindOf(b));
    var n := |Frame(a)|;
    assert Pack(Fields(a)) == (Frame(a) + s)[HEADER_SIZE..n] && Pack(Fields(b)) == (Frame(b) + t)[HEADER_SIZE..n];
    assert s == (Frame(a) + s)[n..] && t == (Frame(b) + t)[n..];
    FieldsFit(a);
    FieldsFit(b);
    SameKindSameWidths(a, b);
    PackInjective(Fields(a), Fields(b));
    FieldsInjective(a, b);
  }

  /** The encoding loses nothing. */
  lemma FrameInjective(a: Message, b: Message)
    requires Frame(a) == Frame(b)
    ensures a == b
  {
    assert Frame(a) + [] == Frame(b) + [];
    PrefixFree(a, b, [], []);
  }

  /** A byte stream is a concatenation of frames in at most one way, up to what is left over. */
  lemma {:induction false} FramesFromFront(m: Message, ms: seq<Message>)
    ensures Frames([m] + ms) == Frame(m) + Frames(ms)
    decreases |ms|
  {
    hide Frame;
    if ms == [] {
      assert [m] + ms == [m] && [m][..0] == [];
      assert Frames([]) == [];
    } else {
      var n := |ms| - 1;
      assert ([m] + ms)[..|ms|] == [m] + ms[..n];
      FramesFromFront(m, ms[..n]);
    }
  }

  lemma {:induction false} UniquelySplit(ms: seq<Message>, ns: seq<Message>, s: seq<byte>, t: seq<byte>)
    requires Frames(ms) + s == Frames(ns) + t && |ms| <= |ns|
    ensures ms == ns[..|ms|] && s == Frames(ns[|ms|..]) + t
  {
    hide Frame, Frames;
    if ms == [] {
      NoFrames();
      assert ns[0..] == ns;
      assert [] + s == s;
    } else {
      var m, n := ms[0], ns[0];
      assert ms == [m] + ms[1..] && ns == [n] + ns[1..];
      FramesFromFront(m, ms[1..]);
      FramesFromFront(n, ns[1..]);
      assert Frames(ms) + s == Frame(m) + (Frames(ms[1..]) + s);
      assert Frames(ns) + t == Frame(n) + (Frames(ns[1..]) + t);
      PrefixFree(m, n, Frames(ms[1..]) + s, Frames(ns[1..]) + t);
      UniquelySplit(ms[1..], ns[1..], s, t);
      assert ns[1..][|ms| - 1..] == ns[|ms|..];
    }
  }

  lemma NoFrames()
    ensures Frames([]) == []
  {
  }

  // ----- the codec -----

  datatype WireErrorCode =
    | FrameTooShort | InvalidMagic | UnsupportedWireVersion | UnknownMessageKind
    | PayloadTooLarge | PayloadSizeMismatch | InvalidMessageValue
  datatype WireError = WireError(code: WireErrorCode, offset: nat, actual: nat)
  datatype Header = Header(kind: Kind, payloadSize: nat, frameSize: nat)

  method AppendFields(bytes: seq<byte>, fs: seq<Field>) returns (r: seq<byte>)
    ensures r == bytes + Pack(fs)
  {
    r := bytes;
    var i := 0;
    assert bytes + [] == bytes;
    while i < |fs|
      invariant 0 <= i <= |fs|
      invariant r == bytes + Pack(fs[..i])
    {
      assert fs[..i + 1][..i] == fs[..i];
      r := AppendLittleEndian(r, fs[i].width, fs[i].value);
      i := i + 1;
    }
    assert fs[..i] == fs;
  }

  /** `encode_guest_worker_wire_message`: the size exit is unreachable. */
  method EncodeMessage(m: Message) returns (r: Result<seq<byte>, WireError>)
    ensures r == if Valid(m) then Ok(Frame(m)) else Err(WireError(InvalidMessageValue, 0, 0))
  {
    hide Pack, Frame, Fields;
    if !Valid(m) {
      return Err(WireError(InvalidMessageValue, 0, 0));
    }
    var kind := KindOf(m);
    var size := PayloadSize(kind);
    assert size <= MAX_PAYLOAD;
    var bytes := AppendFields([], [W(MAGIC), Field(2, VERSION), Field(2, kind), W(size)]);
    assert bytes == Pack(HeaderFields(kind));
    bytes := AppendFields(bytes, Fields(m));
    FrameParts(m);
    assert bytes == Frame(m);
    return Ok(bytes);
  }

  /** Packed fields read back from their places. */
  lemma {:induction false} ReadPacked(fs: seq<Field>, i: nat)
    requires Fitting(fs) && i < |fs|
    ensures ReadFrom(fs, i, Pack(fs))
  {
    hide LittleEndian, FromLittleEndian, Pow256;
    var n := |fs| - 1;
    var front, s := Pack(fs[..n]), Pack(fs);
    PackLength(fs);
    PackLength(fs[..n]);
    OffsetAgrees(fs, fs[..n], n);
    var from, to := Offset(fs, i), Offset(fs, i) + fs[i].width;
    if i == n {
      assert s[from..to] == LittleEndian(fs[n].width, fs[n].value);
      DecodeEncode(fs[n].width, fs[n].value);
    } else {
      ReadPacked(fs[..n], i);
      OffsetAgrees(fs, fs[..n], i);
      assert to <= |front| && s[..|front|] == front;
      assert s[from..to] == front[from..to];
    }
  }

  /** Field `i` of a header as the decoder reads it. */
  function HeaderWord(s: seq<byte>, from: nat, to: nat): (v: nat)
    requires |s| == HEADER_SIZE && from <= to <= HEADER_SIZE
  {
    FromLittleEndian(s[from..to])
  }

  /** The header that the decoder accepts is the one the encoder writes. */
  predicate HeaderReads(s: seq<byte>, k: Kind) {
    && |s| == HEADER_SIZE
    && HeaderWord(s, 0, 4) == MAGIC && HeaderWord(s, 4, 6) == VERSION
    && HeaderWord(s, 6, 8) == k && HeaderWord(s, 8, 12) == PayloadSize(k)
  }

  lemma HeaderReadsIffPacked(s: seq<byte>, k: Kind)
    ensures HeaderReads(s, k) <==> s == Pack(HeaderFields(k))
  {
    hide Pack, FromLittleEndian, PayloadSize;
    var fs := HeaderFields(k);
    HeaderLength(k);
    if HeaderReads(s, k) {
      assert ReadFrom(fs, 0, s) && ReadFrom(fs, 1, s) && ReadFrom(fs, 2, s) && ReadFrom(fs, 3, s);
      PackRead(fs, 4, s);
      assert fs[..4] == fs && s[..12] == s;
    }
    if s == Pack(fs) {
      Widths();
      assert Fitting(fs);
      ReadPacked(fs, 0);
      ReadPacked(fs, 1);
      ReadPacked(fs, 2);
      ReadPacked(fs, 3);
    }
  }

  /** The first thing wrong with a header. */
  ghost predicate HeaderRefused(s: seq<byte>, e: WireError) {
    if |s| != HEADER_SIZE then e == WireError(FrameTooShort, |s|, 0)
    else if HeaderWord(s, 0, 4) != MAGIC then e == WireError(InvalidMagic, 0, HeaderWord(s, 0, 4))
    else if HeaderWord(s, 4, 6) != VERSION then e == WireError(UnsupportedWireVersion, 4, HeaderWord(s, 4, 6))
    else if !(1 <= HeaderWord(s, 6, 8) <= 9) then e == WireError(UnknownMessageKind, 6, HeaderWord(s, 6, 8))
    else if HeaderWord(s, 8, 12) > MAX_PAYLOAD then e == WireError(PayloadTooLarge, 8, HeaderWord(s, 8, 12))
    else HeaderWord(s, 8, 12) != PayloadSize(HeaderWord(s, 6, 8))
         && e == WireError(PayloadSizeMismatch, 8, HeaderWord(s, 8, 12))
  }

  /** `decode_guest_worker_wire_header`. */
  method DecodeHeader(s: seq<byte>) returns (r: Result<Header, WireError>)
    ensures r.Ok? ==>
              && s == Pack(HeaderFields(r.value.kind))
              && r.value.payloadSize == PayloadSize(r.value.kind)
              && r.value.frameSize == HEADER_SIZE + r.value.payloadSize
    ensures r.Err? ==> HeaderRefused(s, r.error) && forall k: Kind :: s != Pack(HeaderFields(k))
  {
    hide Pack, FromLittleEndian;
    forall k: Kind
      ensures HeaderReads(s, k) <==> s == Pack(HeaderFields(k))
    {
      HeaderReadsIffPacked(s, k);
    }
    if |s| != HEADER_SIZE {
      return Err(WireError(FrameTooShort, |s|, 0));
    }
    var magic := ReadLittleEndian(s, 0, 4);
    if magic != MAGIC {
      return Err(WireError(InvalidMagic, 0, magic));
    }
    var version := ReadLittleEndian(s, 4, 2);
    if version != VERSION {
      return Err(WireError(UnsupportedWireVersion, 4, version));
    }
    var kind := ReadLittleEndian(s, 6, 2);
    if !(1 <= kind <= 9) {
      return Err(WireError(UnknownMessageKind, 6, kind));
    }
    var declared := ReadLittleEndian(s, 8, 4);
    if declared > MAX_PAYLOAD {
      return Err(WireError(PayloadTooLarge, 8, declared));
    }
    if declared != PayloadSize(kind) {
      return Err(WireError(PayloadSizeMismatch, 8, declared));
    }
    assert HeaderReads(s, kind);
    return Ok(Header(kind, declared, HEADER_SIZE + declared));
  }

  method Read64(s: seq<byte>, at: nat) returns (v: u64)
    requires at + 8 <= |s|
    ensures v == FromLittleEndian(s[at..at + 8])
  {
    Widths();
    v := ReadLittleEndian(s, at, 8);
  }

  method Read32(s: seq<byte>, at: nat) returns (v: u32)
    requires at + 4 <= |s|
    ensures v == FromLittleEndian(s[at..at + 4])
  {
    Widths();
    v := ReadLittleEndian(s, at, 4);
  }

  /** Every field of `m` was read from the payload at the decoder's offsets. */
  ghost predicate ReadAs(payload: seq<byte>, m: Message) {
    |payload| == PayloadSize(KindOf(m)) && forall i :: 0 <= i < |Fields(m)| ==> FieldRead(payload, m, i)
  }

  ghost predicate FieldRead(payload: seq<byte>, m: Message, i: nat)
    requires i < |Fields(m)|
  {
    var from, f := FieldOffset(KindOf(m), i), Fields(m)[i];
    from + f.width <= |payload| && f.value == FromLittleEndian(payload[from..from + f.width])
  }

  /** Reading every field determines the payload. */
  lemma ReadAsMeansPacked(payload: seq<byte>, m: Message)
    requires ReadAs(payload, m)
    ensures payload == Pack(Fields(m))
  {
    hide Pack, FromLittleEndian, Offset, FieldOffset, Fields, PayloadSize;
    var fs := Fields(m);
    forall i | 0 <= i < |fs|
      ensures ReadFrom(fs, i, payload)
    {
      FieldOffsets(m, i);
      assert FieldRead(payload, m, i);
    }
    PayloadLength(m);
    PackLength(fs);
    PackRead(fs, |fs|, payload);
    assert fs[..|fs|] == fs && payload[..|payload|] == payload;
  }

  /** The payload switch of the decoder: fields are read at fixed offsets. */
  method ReadPayload(kind: Kind, s: seq<byte>) returns (m: Message)
    requires |s| == PayloadSize(kind)
    ensures KindOf(m) == kind && s == Pack(Fields(m))
  {
    hide Pack, ReadAs, Fields;
    match kind {
      case 1 => m := ReadHello(s);
      case 2 => m := ReadReady(s);
      case 3 => m := ReadRunRequest(s);
      case 4 => m := ReadSyscallRequest(s);
      case 5 => m := ReadSyscallResult(s);
      case 6 => m := ReadStop(s);
      case 7 => m := ReadFault(s);
      case 8 => m := ReadTerminate(s);
      case _ => m := ReadDiagnostic(s);
    }
    ReadAsMeansPacked(s, m);
  }

  method ReadHello(s: seq<byte>) returns (m: Message)
    requires |s| == PayloadSize(1)
    ensures KindOf(m) == 1 && ReadAs(s, m)
  {
    hide FromLittleEndian;
    var version := Read32(s, 0);
    m := Hello(version);
    assert forall i :: 0 <= i < |Fields(m)| ==> FieldRead(s, m, i);
  }

  method ReadReady(s: seq<byte>) returns (m: Message)
    requires |s| == PayloadSize(2)
    ensures KindOf(m) == 2 && ReadAs(s, m)
  {
    hide FromLittleEndian;
    var version := Read32(s, 0);
    var worker := Read64(s, 4);
    m := Ready(version, worker);
    assert forall i :: 0 <= i < |Fields(m)| ==> FieldRead(s, m, i);
  }

  method ReadRunRequest(s: seq<byte>) returns (m: Message)
    requires |s| == PayloadSize(3)
    ensures KindOf(m) == 3 && ReadAs(s, m)
  {
    hide FromLittleEndian;
    var budget := Read64(s, 0);
    m := RunRequest(budget);
    assert forall i :: 0 <= i < |Fields(m)| ==> FieldRead(s, m, i);
  }

  method ReadSyscallResult(s: seq<byte>) returns (m: Message)
    requires |s| == PayloadSize(5)
    ensures KindOf(m) == 5 && ReadAs(s, m)
  {
    hide FromLittleEndian;
    var request := Read64(s, 0);
    var worker := Read64(s, 8);
    var thread := Read64(s, 16);
    var returned := Read64(s, 24);
    var errno := Read32(s, 32);
    m := SyscallResult(request, worker, thread, Signed64(returned), Signed32(errno));
    assert forall i :: 0 <= i < |Fields(m)| ==> FieldRead(s, m, i);
  }

  method ReadStop(s: seq<byte>) returns (m: Message)
    requires |s| == PayloadSize(6)
    ensures KindOf(m) == 6 && ReadAs(s, m)
  {
    hide FromLittleEndian;
    var worker := Read64(s, 0);
    var thread := Read64(s, 8);
    var reason := Read32(s, 16);
    var rip := Read64(s, 20);
    m := Stop(worker, thread, reason, rip);
    assert forall i :: 0 <= i < |Fields(m)| ==> FieldRead(s, m, i);
  }

  method ReadFault(s: seq<byte>) returns (m: Message)
    requires |s| == PayloadSize(7)
    ensures KindOf(m) == 7 && ReadAs(s, m)
  {
    hide FromLittleEndian;
    var worker := Read64(s, 0);
    var thread := Read64(s, 8);
    var fault := Read32(s, 16);
    var rip := Read64(s, 20);
    var address := Read64(s, 28);
    m := Fault(worker, thread, fault, rip, address);
    assert forall i :: 0 <= i < |Fields(m)| ==> FieldRead(s, m, i);
  }

  method ReadTerminate(s: seq<byte>) returns (m: Message)
    requires |s| == PayloadSize(8)
    ensures KindOf(m) == 8 && ReadAs(s, m)
  {
    hide FromLittleEndian;
    var cause := Read32(s, 0);
    m := Terminate(cause);
    assert forall i :: 0 <= i < |Fields(m)| ==> FieldRead(s, m, i);
  }

  method ReadDiagnostic(s: seq<byte>) returns (m: Message)
    requires |s| == PayloadSize(9)
    ensures KindOf(m) == 9 && ReadAs(s, m)
  {
    hide FromLittleEndian;
    var worker := Read64(s, 0);
    var thread := Read64(s, 8);
    var boundary := Read32(s, 16);
    var rip := Read64(s, 20);
    var detail0 := Read64(s, 28);
    var detail1 := Read64(s, 36);
    m := Diagnostic(worker, thread, boundary, rip, detail0, detail1);
    assert forall i :: 0 <= i < |Fields(m)| ==> FieldRead(s, m, i);
  }

  method ReadSyscallRequest(s: seq<byte>) returns (m: Message)
    requires |s| == PayloadSize(4)
    ensures KindOf(m) == 4 && ReadAs(s, m)
  {
    hide FromLittleEndian;
    var request := Read64(s, 0);
    var worker := Read64(s, 8);
    var thread := Read64(s, 16);
    var number := Read64(s, 24);
    var rip := Read64(s, 80);
    var arguments: seq<u64> := [];
    while |arguments| < 6
      invariant |arguments| <= 6
      invariant forall j :: 0 <= j < |arguments| ==> arguments[j] == FromLittleEndian(s[32 + 8 * j..40 + 8 * j])
    {
      var argument := Read64(s, 32 + 8 * |arguments|);
      arguments := arguments + [argument];
    }
    m := SyscallRequest(request, worker, thread, number, arguments, rip);
    forall i | 0 <= i < |Fields(m)|
      ensures FieldRead(s, m, i)
    {
      assert 4 <= i < 10 ==> Fields(m)[i] == D(arguments[i - 4]);
    }
  }

  /** Where the decoder reports a bad enum or a zero budget. */
  function InvalidField(m: Message): (e: WireError) {
    match m
    case Stop(_, _, reason, _) => WireError(InvalidMessageValue, HEADER_SIZE + 16, reason)
    case Fault(_, _, fault, _, _) => WireError(InvalidMessageValue, HEADER_SIZE + 16, fault)
    case Diagnostic(_, _, boundary, _, _, _) => WireError(InvalidMessageValue, HEADER_SIZE + 16, boundary)
    case Terminate(cause) => WireError(InvalidMessageValue, HEADER_SIZE, cause)
    case _ => WireError(InvalidMessageValue, HEADER_SIZE, 0)
  }

  /** Why a frame is refused. */
  ghost predicate FrameRefused(s: seq<byte>, e: WireError) {
    if |s| < HEADER_SIZE then e == WireError(FrameTooShort, |s|, 0)
    else
      || HeaderRefused(s[..HEADER_SIZE], e)
      || (e == WireError(PayloadSizeMismatch, |s|, |s|)
          && exists k: Kind :: s[..HEADER_SIZE] == Pack(HeaderFields(k)) && |s| != HEADER_SIZE + PayloadSize(k))
      || (exists m :: s == Frame(m) && !Valid(m) && e == InvalidField(m))
  }

  /** `decode_guest_worker_wire_message`: accepts exactly the frames of valid messages. */
  method DecodeMessage(s: seq<byte>) returns (r: Result<Message, WireError>)
    ensures r.Ok? ==> Valid(r.value) && s == Frame(r.value)
    ensures r.Err? ==> FrameRefused(s, r.error) && forall m :: Valid(m) ==> s != Frame(m)
  {
    hide Pack, Fields, Frame, HeaderRefused;
    forall m
      ensures |Frame(m)| == HEADER_SIZE + PayloadSize(KindOf(m))
      ensures Frame(m)[..HEADER_SIZE] == Pack(HeaderFields(KindOf(m)))
    {
      FrameParts(m);
    }
    if |s| < HEADER_SIZE {
      return Err(WireError(FrameTooShort, |s|, 0));
    }
    var header := DecodeHeader(s[..HEADER_SIZE]);
    if header.Err? {
      return Err(header.error);
    }
    var kind := header.value.kind;
    if |s| != header.value.frameSize {
      forall m | s == Frame(m)
        ensures false
      {
        HeaderInjective(KindOf(m), kind);
      }
      return Err(WireError(PayloadSizeMismatch, |s|, |s|));
    }
    var message := ReadPayload(kind, s[HEADER_SIZE..]);
    FrameParts(message);
    assert s == Frame(message);
    if !Valid(message) {
      forall m | Valid(m)
        ensures s != Frame(m)
      {
        if s == Frame(m) {
          FrameInjective(m, message);
        }
      }
      return Err(InvalidField(message));
    }
    return Ok(message);
  }

  // ----- the transport -----

  datatype ReceiveError = EndOfStream | BadFrame(error: WireError)

  /** A valid frame at the front of a stream. */
  ghost predicate StartsWith(s: seq<byte>, m: Message) {
    Valid(m) && |Frame(m)| <= |s| && s[..|Frame(m)|] == Frame(m)
  }

  /** `receive_message` on a byte stream that ends after `s`: header first, then exactly the payload. */
  method ReceiveMessage(s: seq<byte>) returns (r: Result<Message, ReceiveError>, rest: seq<byte>)
    ensures r.Ok? ==> Valid(r.value) && s == Frame(r.value) + rest
    ensures r.Err? ==> forall m :: !StartsWith(s, m)
  {
    hide Pack, Frame, Fields, FrameRefused, HeaderRefused;
    rest := s;
    forall m
      ensures |Frame(m)| == HEADER_SIZE + PayloadSize(KindOf(m))
      ensures Frame(m)[..HEADER_SIZE] == Pack(HeaderFields(KindOf(m)))
    {
      FrameParts(m);
    }
    if |s| < HEADER_SIZE {
      return Err(EndOfStream), rest;
    }
    assert forall m :: StartsWith(s, m) ==> s[..HEADER_SIZE] == Frame(m)[..HEADER_SIZE];
    var header := DecodeHeader(s[..HEADER_SIZE]);
    if header.Err? {
      return Err(BadFrame(header.error)), rest;
    }
    var kind, size := header.value.kind, header.value.frameSize;
    forall m | StartsWith(s, m)
      ensures KindOf(m) == kind && |Frame(m)| == size
    {
      HeaderInjective(KindOf(m), kind);
    }
    if |s| < size {
      return Err(EndOfStream), rest;
    }
    var decoded := DecodeMessage(s[..size]);
    if decoded.Err? {
      return Err(BadFrame(decoded.error)), rest;
    }
    assert s == s[..size] + s[size..];
    return Ok(decoded.value), s[size..];
  }

  ghost predicate AllValid(ms: seq<Message>) {
    forall i :: 0 <= i < |ms| ==> Valid(ms[i])
  }

  /** Receiving until nothing more can be received splits the stream. */
  method ReceiveAll(s: seq<byte>) returns (ms: seq<Message>, rest: seq<byte>)
    ensures AllValid(ms) && s == Frames(ms) + rest && forall m :: !StartsWith(rest, m)
  {
    hide Frame, Frames, StartsWith;
    ms, rest := [], s;
    NoFrames();
    assert [] + s == s;
    while true
      invariant AllValid(ms) && s == Frames(ms) + rest
      decreases |rest|
    {
      var next, remaining := ReceiveMessage(rest);
      if next.Err? {
        return;
      }
      FramesStep(ms, next.value);
      assert s == Frames(ms + [next.value]) + remaining;
      FrameParts(next.value);
      ms, rest := ms + [next.value], remaining;
    }
  }

  lemma FramesStep(ms: seq<Message>, m: Message)
    ensures Frames(ms + [m]) == Frames(ms) + Frame(m)
  {
    hide Frame;
    assert (ms + [m])[..|ms|] == ms;
  }

  lemma FirstFrame(ms: seq<Message>, t: seq<byte>)
    requires ms != [] && AllValid(ms)
    ensures StartsWith(Frames(ms) + t, ms[0])
  {
    hide Frame, Frames;
    assert ms == [ms[0]] + ms[1..];
    FramesFromFront(ms[0], ms[1..]);
  }

  /** Whatever was sent as frames is received as the same messages: any split of a concatenation of
      valid frames into valid frames and an unreadable rest is the original one. */
  lemma StreamSplits(sent: seq<Message>, received: seq<Message>, rest: seq<byte>)
    requires AllValid(sent) && AllValid(received) && Frames(sent) == Frames(received) + rest
    requires forall m :: !StartsWith(rest, m)
    ensures received == sent && rest == []
  {
    hide Frame, Frames, StartsWith;
    assert Frames(sent) + [] == Frames(sent);
    NoFrames();
    if |received| > |sent| {
      UniquelySplit(sent, received, [], rest);
      FirstFrame(received[|sent|..], rest);
      NothingStarts(received[|sent|]);
    } else {
      UniquelySplit(received, sent, rest, []);
      var missing := sent[|received|..];
      assert rest == Frames(missing) + [];
      if missing != [] {
        FirstFrame(missing, []);
      }
    }
  }

  lemma NothingStarts(m: Message)
    ensures !StartsWith([], m)
  {
    FrameParts(m);
  }

  /** The codec round trip through the two operations. */
  method RoundTrip(m: Message) returns (back: Result<Message, WireError>)
    ensures back == if Valid(m) then Ok(m) else Err(WireError(InvalidMessageValue, 0, 0))
  {
    hide Frame, FrameRefused;
    var encoded := EncodeMessage(m);
    if encoded.Err? {
      return Err(encoded.error);
    }
    back := DecodeMessage(encoded.value);
    if back.Ok? {
      FrameInjective(back.value, m);
    }
  }

  /** The transport round trip: messages sent one after the other are received one by one. */
  method SendAndReceive(ms: seq<Message>) returns (received: seq<Message>)
    requires AllValid(ms)
    ensures received == ms
  {
    hide Frame, Frames, StartsWith;
    NoFrames();
    var stream: seq<byte> := [];
    var i := 0;
    while i < |ms|
      invariant 0 <= i <= |ms| && stream == Frames(ms[..i])
    {
      var encoded := EncodeMessage(ms[i]);
      FramesStep(ms[..i], ms[i]);
      assert ms[..i + 1] == ms[..i] + [ms[i]];
      stream := stream + encoded.value;
      i := i + 1;
    }
    assert ms[..i] == ms;
    var rest;
    received, rest := ReceiveAll(stream);
    StreamSplits(ms, received, rest);
  }

  // ----- the layout, byte by byte -----

  function U16At(s: seq<byte>, at: nat): (v: nat)
    requires at + 2 <= |s|
  {
    FromLittleEndian(s[at..at + 2])
  }

  function U32At(s: seq<byte>, at: nat): (v: nat)
    requires at + 4 <= |s|
  {
    FromLittleEndian(s[at..at + 4])
  }

  function U64At(s: seq<byte>, at: nat): (v: nat)
    requires at + 8 <= |s|
  {
    FromLittleEndian(s[at..at + 8])
  }

  /** A frame of this kind with this many payload bytes: magic, version, kind, size, then the payload. */
  predicate HeaderLaid(s: seq<byte>, kind: nat, size: nat) {
    && |s| == 12 + size
    && U32At(s, 0) == 0x5254_5341 && U16At(s, 4) == 1 && U16At(s, 6) == kind && U32At(s, 8) == size
  }

  /** Where every field of every message lies in its frame. */
  predicate Laid(m: Message, s: seq<byte>) {
    match m
    case Hello(version) => HeaderLaid(s, 1, 4) && U32At(s, 12) == version
    case Ready(version, worker) => HeaderLaid(s, 2, 12) && U32At(s, 12) == version && U64At(s, 16) == worker
    case RunRequest(budget) => HeaderLaid(s, 3, 8) && U64At(s, 12) == budget
    case SyscallRequest(request, worker, thread, number, arguments, rip) =>
      HeaderLaid(s, 4, 88) && U64At(s, 12) == request && U64At(s, 20) == worker && U64At(s, 28) == thread
      && U64At(s, 36) == number && U64At(s, 44) == arguments[0] && U64At(s, 52) == arguments[1]
      && U64At(s, 60) == arguments[2] && U64At(s, 68) == arguments[3] && U64At(s, 76) == arguments[4]
      && U64At(s, 84) == arguments[5] && U64At(s, 92) == rip
    case SyscallResult(request, worker, thread, returned, errno) =>
      HeaderLaid(s, 5, 36) && U64At(s, 12) == request && U64At(s, 20) == worker && U64At(s, 28) == thread
      && U64At(s, 36) == (if returned < 0 then returned + TWO64 else returned)
      && U32At(s, 44) == (if errno < 0 then errno + TWO32 else errno)
    case Stop(worker, thread, reason, rip) =>
      HeaderLaid(s, 6, 28) && U64At(s, 12) == worker && U64At(s, 20) == thread && U32At(s, 28) == reason
      && U64At(s, 32) == rip
    case Fault(worker, thread, fault, rip, address) =>
      HeaderLaid(s, 7, 36) && U64At(s, 12) == worker && U64At(s, 20) == thread && U32At(s, 28) == fault
      && U64At(s, 32) == rip && U64At(s, 40) == address
    case Terminate(cause) => HeaderLaid(s, 8, 4) && U32At(s, 12) == cause
    case Diagnostic(worker, thread, boundary, rip, detail0, detail1) =>
      HeaderLaid(s, 9, 44) && U64At(s, 12) == worker && U64At(s, 20) == thread && U32At(s, 28) == boundary
      && U64At(s, 32) == rip && U64At(s, 40) == detail0 && U64At(s, 48) == detail1
  }

  /** A field of the payload is a field of the frame, twelve bytes further on. */
  lemma PayloadShift(s: seq<byte>, from: nat, to: nat)
    requires 12 <= |s| && from <= to <= |s| - 12
    ensures s[12..][from..to] == s[12 + from..12 + to]
  {
  }

  /** Reading the payload at the decoder's offsets is reading the frame at the listed places. */
  lemma LaidMeansRead(m: Message, s: seq<byte>)
    ensures Laid(m, s) <==> HeaderLaid(s, KindOf(m), PayloadSize(KindOf(m))) && ReadAs(s[12..], m)
  {
    hide FromLittleEndian, FieldLaid, FieldRead, Fields;
    if HeaderLaid(s, KindOf(m), PayloadSize(KindOf(m))) {
      forall i | 0 <= i < |Fields(m)|
        ensures FieldRead(s[12..], m, i) <==> FieldLaid(m, s, i)
      {
        FieldReadIsLaid(m, s, i);
      }
      LaidFields(m, s);
    }
  }

  lemma FieldReadIsLaid(m: Message, s: seq<byte>, i: nat)
    requires |s| == 12 + PayloadSize(KindOf(m)) && i < |Fields(m)|
    ensures FieldRead(s[12..], m, i) <==> FieldLaid(m, s, i)
  {
    hide FromLittleEndian;
    FieldFits(m, i);
    PayloadShift(s, FieldOffset(KindOf(m), i), FieldOffset(KindOf(m), i) + Fields(m)[i].width);
  }

  lemma FieldFits(m: Message, i: nat)
    requires i < |Fields(m)|
    ensures FieldOffset(KindOf(m), i) + Fields(m)[i].width <= PayloadSize(KindOf(m))
  {
  }

  ghost predicate FieldsLaid(m: Message, s: seq<byte>) {
    forall i :: 0 <= i < |Fields(m)| ==> FieldLaid(m, s, i)
  }

  lemma LaidHello(m: Message, s: seq<byte>)
    requires m.Hello? && |s| == 16
    ensures FieldsLaid(m, s) <==>
            && U32At(s, 12) == m.version
  {
    hide FromLittleEndian;
    var fs := Fields(m);
    assert FieldLaid(m, s, 0) <==> U32At(s, 12) == m.version;
  }

  lemma LaidReady(m: Message, s: seq<byte>)
    requires m.Ready? && |s| == 24
    ensures FieldsLaid(m, s) <==>
            && U32At(s, 12) == m.version
            && U64At(s, 16) == m.worker
  {
    hide FromLittleEndian;
    var fs := Fields(m);
    assert FieldLaid(m, s, 0) <==> U32At(s, 12) == m.version;
    assert FieldLaid(m, s, 1) <==> U64At(s, 16) == m.worker;
  }

  lemma LaidRunRequest(m: Message, s: seq<byte>)
    requires m.RunRequest? && |s| == 20
    ensures FieldsLaid(m, s) <==>
            && U64At(s, 12) == m.budget
  {
    hide FromLittleEndian;
    var fs := Fields(m);
    assert FieldLaid(m, s, 0) <==> U64At(s, 12) == m.budget;
  }

  lemma LaidSyscallRequest(m: Message, s: seq<byte>)
    requires m.SyscallRequest? && |s| == 100
    ensures FieldsLaid(m, s) <==>
            && U64At(s, 12) == m.request
            && U64At(s, 20) == m.worker
            && U64At(s, 28) == m.thread
            && U64At(s, 36) == m.number
            && U64At(s, 44) == m.arguments[0]
            && U64At(s, 52) == m.arguments[1]
            && U64At(s, 60) == m.arguments[2]
            && U64At(s, 68) == m.arguments[3]
            && U64At(s, 76) == m.arguments[4]
            && U64At(s, 84) == m.arguments[5]
            && U64At(s, 92) == m.rip
  {
    hide FromLittleEndian, FieldLaid, U64At;
    forall i | 0 <= i < 11
      ensures FieldLaid(m, s, i) <==> U64At(s, 12 + 8 * i) == Fields(m)[i].value
    {
      RequestFieldLaid(m, s, i);
    }
    RequestFields(m);
    assert FieldsLaid(m, s) ==>
        && FieldLaid(m, s, 0) && FieldLaid(m, s, 1) && FieldLaid(m, s, 2) && FieldLaid(m, s, 3) && FieldLaid(m, s, 4)
        && FieldLaid(m, s, 5) && FieldLaid(m, s, 6) && FieldLaid(m, s, 7) && FieldLaid(m, s, 8) && FieldLaid(m, s, 9)
        && FieldLaid(m, s, 10);
  }

  lemma RequestFieldLaid(m: Message, s: seq<byte>, i: nat)
    requires m.SyscallRequest? && |s| == 100 && i < 11
    ensures |Fields(m)| == 11 && (FieldLaid(m, s, i) <==> U64At(s, 12 + 8 * i) == Fields(m)[i].value)
  {
    hide FromLittleEndian;
  }

  lemma RequestFields(m: Message)
    requires m.SyscallRequest?
    ensures var fs, a := Fields(m), m.arguments;
            && |fs| == 11 && fs[0].value == m.request && fs[1].value == m.worker && fs[2].value == m.thread
            && fs[3].value == m.number && fs[4].value == a[0] && fs[5].value == a[1] && fs[6].value == a[2]
            && fs[7].value == a[3] && fs[8].value == a[4] && fs[9].value == a[5] && fs[10].value == m.rip
  {
  }

  lemma LaidSyscallResult(m: Message, s: seq<byte>)
    requires m.SyscallResult? && |s| == 48
    ensures FieldsLaid(m, s) <==>
            && U64At(s, 12) == m.request
            && U64At(s, 20) == m.worker
            && U64At(s, 28) == m.thread
            && U64At(s, 36) == Unsigned64(m.returned)
            && U32At(s, 44) == Unsigned32(m.errno)
  {
    hide FromLittleEndian;
    var fs := Fields(m);
    assert FieldLaid(m, s, 0) <==> U64At(s, 12) == m.request;
    assert FieldLaid(m, s, 1) <==> U64At(s, 20) == m.worker;
    assert FieldLaid(m, s, 2) <==> U64At(s, 28) == m.thread;
    assert FieldLaid(m, s, 3) <==> U64At(s, 36) == Unsigned64(m.returned);
    assert FieldLaid(m, s, 4) <==> U32At(s, 44) == Unsigned32(m.errno);
  }

  lemma LaidStop(m: Message, s: seq<byte>)
    requires m.Stop? && |s| == 40
    ensures FieldsLaid(m, s) <==>
            && U64At(s, 12) == m.worker
            && U64At(s, 20) == m.thread
            && U32At(s, 28) == m.reason
            && U64At(s, 32) == m.rip
  {
    hide FromLittleEndian;
    var fs := Fields(m);
    assert FieldLaid(m, s, 0) <==> U64At(s, 12) == m.worker;
    assert FieldLaid(m, s, 1) <==> U64At(s, 20) == m.thread;
    assert FieldLaid(m, s, 2) <==> U32At(s, 28) == m.reason;
    assert FieldLaid(m, s, 3) <==> U64At(s, 32) == m.rip;
  }

  lemma LaidFault(m: Message, s: seq<byte>)
    requires m.Fault? && |s| == 48
    ensures FieldsLaid(m, s) <==>
            && U64At(s, 12) == m.worker
            && U64At(s, 20) == m.thread
            && U32At(s, 28) == m.fault
            && U64At(s, 32) == m.rip
            && U64At(s, 40) == m.address
  {
    hide FromLittleEndian;
    var fs := Fields(m);
    assert FieldLaid(m, s, 0) <==> U64At(s, 12) == m.worker;
    assert FieldLaid(m, s, 1) <==> U64At(s, 20) == m.thread;
    assert FieldLaid(m, s, 2) <==> U32At(s, 28) == m.fault;
    assert FieldLaid(m, s, 3) <==> U64At(s, 32) == m.rip;
    assert FieldLaid(m, s, 4) <==> U64At(s, 40) == m.address;
  }

  lemma LaidTerminate(m: Message, s: seq<byte>)
    requires m.Terminate? && |s| == 16
    ensures FieldsLaid(m, s) <==>
            && U32At(s, 12) == m.cause
  {
    hide FromLittleEndian;
    var fs := Fields(m);
    assert FieldLaid(m, s, 0) <==> U32At(s, 12) == m.cause;
  }

  lemma LaidDiagnostic(m: Message, s: seq<byte>)
    requires m.Diagnostic? && |s| == 56
    ensures FieldsLaid(m, s) <==>
            && U64At(s, 12) == m.worker
            && U64At(s, 20) == m.thread
            && U32At(s, 28) == m.boundary
            && U64At(s, 32) == m.rip
            && U64At(s, 40) == m.detail0
            && U64At(s, 48) == m.detail1
  {
    hide FromLittleEndian;
    var fs := Fields(m);
    assert FieldLaid(m, s, 0) <==> U64At(s, 12) == m.worker;
    assert FieldLaid(m, s, 1) <==> U64At(s, 20) == m.thread;
    assert FieldLaid(m, s, 2) <==> U32At(s, 28) == m.boundary;
    assert FieldLaid(m, s, 3) <==> U64At(s, 32) == m.rip;
    assert FieldLaid(m, s, 4) <==> U64At(s, 40) == m.detail0;
    assert FieldLaid(m, s, 5) <==> U64At(s, 48) == m.detail1;
  }

  /** The listed places, field by field. */
  lemma LaidFields(m: Message, s: seq<byte>)
    requires HeaderLaid(s, KindOf(m), PayloadSize(KindOf(m)))
    ensures Laid(m, s) <==> FieldsLaid(m, s)
  {
    hide FromLittleEndian, Fields, FieldsLaid;
    match m
    case Hello(_) => LaidHello(m, s);
    case Ready(_, _) => LaidReady(m, s);
    case RunRequest(_) => LaidRunRequest(m, s);
    case SyscallRequest(_, _, _, _, _, _) => LaidSyscallRequest(m, s);
    case SyscallResult(_, _, _, _, _) => LaidSyscallResult(m, s);
    case Stop(_, _, _, _) => LaidStop(m, s);
    case Fault(_, _, _, _, _) => LaidFault(m, s);
    case Terminate(_) => LaidTerminate(m, s);
    case Diagnostic(_, _, _, _, _, _) => LaidDiagnostic(m, s);
  }

  ghost predicate FieldLaid(m: Message, s: seq<byte>, i: nat)
    requires i < |Fields(m)|
  {
    var at, f := 12 + FieldOffset(KindOf(m), i), Fields(m)[i];
    at + f.width <= |s| && f.value == FromLittleEndian(s[at..at + f.width])
  }

  /** The frame of a message is the one byte string that is laid out like this. */
  lemma FrameLayout(m: Message, s: seq<byte>)
    ensures s == Frame(m) <==> Laid(m, s)
  {
    hide Pack, FromLittleEndian, Laid, Fields, ReadAs, Frame;
    FrameParts(m);
    LaidMeansRead(m, s);
    if s == Frame(m) {
      LaidForward(m);
    }
    if Laid(m, s) {
      assert s[..12] + s[12..] == s;
      HeaderSlices(s);
      HeaderReadsIffPacked(s[..12], KindOf(m));
      ReadAsMeansPacked(s[12..], m);
    }
  }

  lemma HeaderSlices(s: seq<byte>)
    requires |s| >= 12
    ensures s[..12][0..4] == s[0..4] && s[..12][4..6] == s[4..6]
    ensures s[..12][6..8] == s[6..8] && s[..12][8..12] == s[8..12]
  {
  }

  lemma LaidForward(m: Message)
    ensures HeaderLaid(Frame(m), KindOf(m), PayloadSize(KindOf(m))) && ReadAs(Frame(m)[12..], m)
  {
    hide Pack, FromLittleEndian, Fields, Frame, FieldOffset, Offset;
    var s := Frame(m);
    FrameParts(m);
    HeaderSlices(s);
    assert s[..12] == Pack(HeaderFields(KindOf(m))) && s[12..] == Pack(Fields(m));
    HeaderReadsIffPacked(s[..12], KindOf(m));
    FieldsFit(m);
    PayloadLength(m);
    forall i | 0 <= i < |Fields(m)|
      ensures FieldRead(s[12..], m, i)
    {
      ReadPacked(Fields(m), i);
      FieldOffsets(m, i);
    }
  }

  /** Which code values are valid on the wire, and that a run request needs a budget. */
  lemma ValidCodes(m: Message)
    ensures m.Stop? ==> (Valid(m) <==> m.reason in {0, 1, 2, 3, 4, 5, 6, 7})
    ensures m.Fault? ==> (Valid(m) <==> m.fault in {0, 1, 2, 3})
    ensures m.Terminate? ==> (Valid(m) <==> m.cause in {0, 1, 2, 3, 4})
    ensures m.Diagnostic? ==> (Valid(m) <==> m.boundary in {1, 2, 3, 4, 5, 6, 7, 8, 9})
    ensures m.RunRequest? ==> (Valid(m) <==> m.budget > 0)
    ensures m.Hello? || m.Ready? || m.SyscallRequest? || m.SyscallResult? ==> Valid(m)
  {
  }

  /** A refused value is reported where it lies: the bytes at the reported offset are that value. */
  lemma InvalidFieldIsThere(m: Message)
    requires !Valid(m)
    ensures var e := InvalidField(m);
            && e.code == InvalidMessageValue && 12 <= e.offset && e.offset + 4 <= |Frame(m)|
            && U32At(Frame(m), e.offset) == e.actual
  {
    hide Pack, Frame, Fields, FromLittleEndian;
    FrameLayout(m, Frame(m));
    if m.RunRequest? {
      LowHalfOfZero(Frame(m));
    }
  }

  lemma LowHalfOfZero(s: seq<byte>)
    requires |s| >= 20 && U64At(s, 12) == 0
    ensures U32At(s, 12) == 0
  {
    EncodeDecode(s[12..20]);
    var z := LittleEndian(8, 0);
    assert s[12..20] == z;
    ZeroBytes(8);
    assert s[12..16] == z[..4];
    ZeroBytes(4);
    assert s[12..16] == LittleEndian(4, 0);
    DecodeEncode(4, 0);
  }

  lemma {:induction false} ZeroBytes(n: nat)
    ensures forall i :: 0 <= i < n ==> LittleEndian(n, 0)[i] == 0
  {
    if n > 0 {
      ZeroBytes(n - 1);
    }
  }
}
