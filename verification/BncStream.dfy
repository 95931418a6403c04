/**
 Whole runs of BNC's decoder: Decode of c/BNC/RTCM3Decoder.cpp over chunks of a
 stream.  Decoding the messages themselves is left out; a run yields the
 blocks that Decode hands on, each with the id GetMessage gave it.

 One kind of input sends the inner loop of Decode round for ever.  The model
 recognises the first repetition and ends the run with spins set.
 */
module BncStream {
  import opened Bits
  import opened Crc24q
  import opened Frames
  import opened BncFramer

  datatype Block = Block(id: nat, bytes: seq<byte>)

  /** while ((id = GetMessage())) { ... } */
  datatype Drained = Drained(blocks: seq<Block>, decoder: Decoder, spins: bool)

  function Drain(d: Decoder): (r: Drained)
    requires Valid(d)
    ensures Valid(r.decoder)
    decreases |Pending(d)|
  {
    var c := Next(d);
    if c.id == 0 then Drained([], c.next, false)
    else if c.next.skip == 0 then Drained([], c.next, true)
    else
      NextLooks(d);
      var rest := Drain(c.next);
      Drained([Block(c.id, c.next.message[..c.block])] + rest.blocks, rest.decoder, rest.spins)
  }

  /** A call of GetMessage in terms of the scan. */
  lemma NextLooks(d: Decoder)
    requires Valid(d)
    ensures var s, c := Pending(d), Next(d); var rest := s[Dropped(s)..];
            match LookAt(rest)
            case Take(n) =>
              && 6 <= n <= |rest| && c.next.skip == c.block == n && c.next.message[..n] == rest[..n]
              && c.id == MessageType(rest[..n]) && c.need == 0 && Pending(c.next) == rest[n..]
            case Stop =>
              && c.next.skip == 0 && c.need == (if |rest| < 3 then 3 else HeaderLength(rest)) && Pending(c.next) == rest
              && (c.id != 0 <==> ZeroHeader(rest) && Id(c.next.message) != 0)
            case Drop => false
  {
    hide LookAt, Next, FramesIn, Residue, Benign, Moved;
    var s := Pending(d);
    DropsAreOneScan(s);
    match LookAt(s[Dropped(s)..])
    case Take(n) => NextTakes(d, s[Dropped(s)..], n);
    case Stop => NextStops(d, s[Dropped(s)..]);
    case Drop =>
  }

  lemma NextTakes(d: Decoder, rest: seq<byte>, n: nat)
    requires Valid(d) && rest == Pending(d)[Dropped(Pending(d))..] && LookAt(rest) == Take(n)
    ensures var c := Next(d);
            && 6 <= n <= |rest| && c.next.skip == c.block == n && c.next.message[..n] == rest[..n]
            && c.id == MessageType(rest[..n]) && c.need == 0 && Pending(c.next) == rest[n..]
  {
    hide LookAt, Next, FramesIn, Residue, Benign, Moved, Dropped, IsFrame, Id, MessageType;
    LookBounds(rest);
    NextUnfolds(d);
    SliceSuffix(d.message, d.skip, d.skip + Dropped(Pending(d)), d.size);
    MovedFront(d.message, d.size, d.skip + Dropped(Pending(d)), rest, n);
    IdOfFront(Next(d).next.message, rest[..n]);
  }

  lemma IdOfFront(message: seq<byte>, f: seq<byte>)
    requires 5 <= |f| <= |message| && message[..|f|] == f
    ensures Id(message) == MessageType(f)
  {
  }

  lemma NextStops(d: Decoder, rest: seq<byte>)
    requires Valid(d) && rest == Pending(d)[Dropped(Pending(d))..] && LookAt(rest).Stop?
    ensures var c := Next(d);
            && c.next.skip == 0 && c.need == (if |rest| < 3 then 3 else HeaderLength(rest)) && Pending(c.next) == rest
            && (c.id != 0 <==> ZeroHeader(rest) && Id(c.next.message) != 0)
  {
  }

  lemma MovedFront(message: seq<byte>, size: nat, m: nat, rest: seq<byte>, n: nat)
    requires m <= size <= |message| && rest == message[m..size] && n <= |rest|
    ensures Moved(message, size, m)[..n] == rest[..n]
    ensures Moved(message, size, m)[n..size - m] == rest[n..]
  {
  }

  /**
   When GetMessage reports a message without skipping any bytes, every later
   call does the same: the inner loop of Decode does not end.
   */
  lemma PhantomRepeats(d: Decoder)
    requires Valid(d) && Next(d).id != 0 && Next(d).next.skip == 0
    ensures Next(Next(d).next) == Next(d)
    ensures ZeroHeader(Pending(Next(d).next)) && |Pending(Next(d).next)| < 6
  {
    var e := Next(d).next;
    NextLooks(d);
    ZeroHeaderStops(Pending(e));
    NextUnfolds(d);
    NextUnfolds(e);
    hide LookAt, Next, FramesIn, Residue, Benign, HeaderLength;
    assert Pending(e)[0..] == Pending(e);
    assert Moved(e.message, e.size, 0) == e.message;
  }

  lemma ZeroHeaderStops(s: seq<byte>)
    ensures LookAt(s).Stop? ==> Dropped(s) == 0 && (ZeroHeader(s) ==> |s| < 6)
    ensures ZeroHeader(s) ==> |s| >= 3 && HeaderLength(s) == 0
  {
  }

  /**
   When GetMessage reports no message, at most 1028 bytes stay buffered, so
   there is room for more; or a frame of type 0 is at the front of the buffer,
   to be skipped by the next call.
   */
  lemma BufferBound(d: Decoder)
    requires Valid(d) && Next(d).id == 0
    ensures var e := Next(d).next;
            if e.skip == 0 then e.size <= 1028
            else IsFrame(e.message[..e.skip]) && MessageType(e.message[..e.skip]) == 0
  {
    hide Next, LookAt, FramesIn, Residue, Benign, IsFrame, MessageType, ZeroHeader;
    var s := Pending(d);
    NextLooks(d);
    LookBounds(s[Dropped(s)..]);
  }

  // ------------------------------------------------------ the inner loop

  /** The blocks for a sequence of frames. */
  function Blocks(fs: seq<seq<byte>>): (bs: seq<Block>)
    requires forall k :: 0 <= k < |fs| ==> |fs[k]| >= 5
  {
    if fs == [] then [] else [Block(MessageType(fs[0]), fs[0])] + Blocks(fs[1..])
  }

  function BytesOf(bs: seq<Block>): (r: seq<seq<byte>>)
    ensures |r| == |bs|
  {
    if bs == [] then [] else [bs[0].bytes] + BytesOf(bs[1..])
  }

  predicate NoTypeZero(fs: seq<seq<byte>>) {
    fs == [] || ((|fs[0]| >= 5 ==> MessageType(fs[0]) != 0) && NoTypeZero(fs[1..]))
  }

  lemma {:induction false} FramesAreFrames(s: seq<byte>)
    ensures forall k :: 0 <= k < |FramesIn(s)| ==> IsFrame(FramesIn(s)[k])
    decreases |s|
  {
    LookBounds(s);
    hide LookAt, IsFrame;
    match LookAt(s)
    case Stop =>
    case Drop => FramesAreFrames(s[1..]);
    case Take(n) => FramesAreFrames(s[n..]);
  }

  lemma {:induction false} BlocksConcat(a: seq<seq<byte>>, b: seq<seq<byte>>)
    requires forall k :: 0 <= k < |a| ==> |a[k]| >= 5
    requires forall k :: 0 <= k < |b| ==> |b[k]| >= 5
    ensures Blocks(a + b) == Blocks(a) + Blocks(b)
  {
    if a == [] {
      assert a + b == b;
    } else {
      assert (a + b)[1..] == a[1..] + b;
      BlocksConcat(a[1..], b);
    }
  }

  /** The blocks of the frames that one scan of s extracts. */
  function BlocksIn(s: seq<byte>): seq<Block> {
    FramesAreFrames(s);
    Blocks(FramesIn(s))
  }

  lemma BlocksResume(a: seq<byte>, b: seq<byte>)
    ensures BlocksIn(a + b) == BlocksIn(a) + BlocksIn(Residue(a) + b)
  {
    hide FramesIn, Residue, IsFrame;
    ScanResumes(a, b);
    FramesAreFrames(a);
    FramesAreFrames(Residue(a) + b);
    FramesAreFrames(a + b);
    FramesAreLong(FramesIn(a));
    FramesAreLong(FramesIn(Residue(a) + b));
    BlocksConcat(FramesIn(a), FramesIn(Residue(a) + b));
  }

  lemma FramesAreLong(fs: seq<seq<byte>>)
    requires forall k :: 0 <= k < |fs| ==> IsFrame(fs[k])
    ensures forall k :: 0 <= k < |fs| ==> |fs[k]| >= 5
  {
  }

  lemma BlocksHoldFrames(s: seq<byte>)
    ensures BytesOf(BlocksIn(s)) == FramesIn(s)
  {
    FramesAreFrames(s);
    BytesOfBlocks(FramesIn(s));
  }

  lemma {:induction false} BytesOfBlocks(fs: seq<seq<byte>>)
    requires forall k :: 0 <= k < |fs| ==> |fs[k]| >= 5
    ensures BytesOf(Blocks(fs)) == fs
  {
    if fs != [] {
      BytesOfBlocks(fs[1..]);
    }
  }

  /** The fourth and fifth byte of the buffer, which GetMessage takes for the type, stale or not. */
  datatype TypeBytes = TypeBytes(hi: byte, lo: byte)

  function IdOf(x: TypeBytes): nat {
    x.hi as int * 16 + x.lo as int / 16
  }

  function TypeBytesOf(message: seq<byte>): (x: TypeBytes)
    requires |message| >= 5
    ensures IdOf(x) == Id(message)
  {
    TypeBytes(message[3], message[4])
  }

  /** The two bytes when the buffer held x there and f has come to lie at its front. */
  function Over(f: seq<byte>, x: TypeBytes): TypeBytes {
    TypeBytes(if |f| > 3 then f[3] else x.hi, if |f| > 4 then f[4] else x.lo)
  }

  /**
   The two bytes when s has been scanned in a buffer that held x there: they
   are those of what is left over, as far as it goes, and behind it those of
   the last frame, or else x.
   */
  function Behind(s: seq<byte>, x: TypeBytes): TypeBytes {
    Over(Residue(s), OfLast(FramesIn(s), x))
  }

  function OfLast(fs: seq<seq<byte>>, x: TypeBytes): TypeBytes {
    if fs == [] then x else Over(fs[|fs| - 1], x)
  }

  lemma OfLastCons(f: seq<byte>, fs: seq<seq<byte>>, x: TypeBytes)
    requires forall k :: 0 <= k < |fs| ==> |fs[k]| >= 5
    ensures OfLast([f] + fs, x) == OfLast(fs, Over(f, x))
  {
    assert fs != [] ==> ([f] + fs)[|fs|] == fs[|fs| - 1];
  }

  /** A scan of s ends at a zero-length header for which GetMessage reports a message. */
  predicate Phantom(s: seq<byte>, x: TypeBytes) {
    ZeroHeader(Residue(s)) && IdOf(Behind(s, x)) != 0
  }

  lemma NextTypeBytes(d: Decoder)
    requires Valid(d)
    ensures var s := Pending(d);
            TypeBytesOf(Next(d).next.message) == Over(s[Dropped(s)..], TypeBytesOf(d.message))
  {
    hide LookAt, Next, Dropped;
    NextUnfolds(d);
  }

  lemma BehindStep(s: seq<byte>, rest: seq<byte>, x: TypeBytes)
    requires FramesIn(s) == FramesIn(rest) && Residue(s) == Residue(rest)
    ensures match LookAt(rest)
            case Stop => Behind(s, x) == Over(rest, x)
            case Take(n) => n <= |rest| && Behind(s, x) == Behind(rest[n..], Over(rest[..n], x))
            case Drop => true
  {
    hide LookAt, Over, OfLast, IsFrame;
    LookBounds(rest);
    match LookAt(rest)
    case Stop => NoLast(x);
    case Drop =>
    case Take(n) =>
      FramesAreFrames(rest[n..]);
      FramesAreLong(FramesIn(rest[n..]));
      OfLastCons(rest[..n], FramesIn(rest[n..]), x);
  }

  lemma NoLast(x: TypeBytes)
    ensures OfLast([], x) == x
  {
  }

  /**
   Without frames of type 0 the loop hands on the frames of one scan and keeps
   what that scan leaves.  It goes on for ever exactly when the scan ends at a
   zero-length header and the two type bytes, as Behind computes them from
   the input, are not those of type 0.
   */
  lemma {:induction false} DrainRuns(d: Decoder)
    requires Valid(d) && NoTypeZero(FramesIn(Pending(d)))
    ensures var s, x, r := Pending(d), TypeBytesOf(d.message), Drain(d);
            && r.blocks == BlocksIn(s) && r.decoder.skip == 0 && Pending(r.decoder) == Residue(s)
            && TypeBytesOf(r.decoder.message) == Behind(s, x)
            && (r.spins <==> Phantom(s, x))
    decreases |Pending(d)|
  {
    var s, c := Pending(d), Next(d);
    var rest := s[Dropped(s)..];
    FramesAreFrames(s);
    NextLooks(d);
    DropsAreOneScan(s);
    NextTypeBytes(d);
    BehindStep(s, rest, TypeBytesOf(d.message));
    hide Next, LookAt, ZeroHeader, Id, Dropped, MessageType, Behind, Over, OfLast, IdOf;
    match LookAt(rest)
    case Stop =>
    case Take(n) =>
      OverFrame(rest, n, TypeBytesOf(d.message));
      assert FramesIn(rest)[1..] == FramesIn(rest[n..]);
      DrainRuns(c.next);
  }

  lemma OverFrame(rest: seq<byte>, n: nat, x: TypeBytes)
    requires 5 <= n <= |rest|
    ensures Over(rest, x) == Over(rest[..n], x)
  {
  }

  /** Nothing of type 0 is ever handed on. */
  lemma {:induction false} DrainHandsOnTyped(d: Decoder)
    requires Valid(d)
    ensures NoTypeZero(BytesOf(Drain(d).blocks))
    decreases |Pending(d)|
  {
    var s, c := Pending(d), Next(d);
    NextLooks(d);
    hide Next, LookAt, ZeroHeader, Id, Dropped, MessageType;
    if c.id != 0 && c.next.skip != 0 {
      DrainHandsOnTyped(c.next);
      assert BytesOf(Drain(d).blocks)[1..] == BytesOf(Drain(c.next).blocks);
    }
  }

  /**
   The loop ends, having handed on all the frames that are in the pending
   bytes, exactly when none of them is of type 0 and there is no phantom
   behind them.
   */
  lemma DrainExact(d: Decoder)
    requires Valid(d)
    ensures var s, r := Pending(d), Drain(d);
            !r.spins && BytesOf(r.blocks) == FramesIn(s) <==>
            NoTypeZero(FramesIn(s)) && !Phantom(s, TypeBytesOf(d.message))
  {
    hide Drain, FramesIn, Phantom, BlocksIn, Residue;
    DrainHandsOnTyped(d);
    BlocksHoldFrames(Pending(d));
    if NoTypeZero(FramesIn(Pending(d))) {
      DrainRuns(d);
    }
  }

  /** Behind a frame the bare three bytes of a zero-length header are always a phantom. */
  lemma BareHeaderIsPhantom(s: seq<byte>, x: TypeBytes)
    requires FramesIn(s) != [] && NoTypeZero(FramesIn(s)) && ZeroHeader(Residue(s)) && |Residue(s)| == 3
    ensures Phantom(s, x)
  {
    hide FramesIn, Residue, IsFrame, ParityOk;
    FramesAreFrames(s);
    FramesAreLong(FramesIn(s));
    LastTyped(FramesIn(s), |FramesIn(s)| - 1);
    OverShort(FramesIn(s)[|FramesIn(s)| - 1], Residue(s), x);
  }

  lemma OverShort(f: seq<byte>, front: seq<byte>, x: TypeBytes)
    requires |f| >= 5 && |front| == 3
    ensures IdOf(Over(front, Over(f, x))) == MessageType(f)
  {
  }

  lemma {:induction false} LastTyped(fs: seq<seq<byte>>, k: nat)
    requires k < |fs| && NoTypeZero(fs) && |fs[k]| >= 5
    ensures MessageType(fs[k]) != 0
  {
    if k > 0 {
      LastTyped(fs[1..], k - 1);
    }
  }

  // -------------------------------------------------------------- Decode

  /** left is what Decode does not take from its argument. */
  datatype Decoded = Decoded(blocks: seq<Block>, decoder: Decoder, left: seq<byte>, spins: bool)

  /** The chunk that fits is copied behind the bytes already there. */
  function Filled(d: Decoder, chunk: seq<byte>): Decoder
    requires d.size + |chunk| <= |d.message|
  {
    Decoder(d.message[..d.size] + chunk + d.message[d.size + |chunk|..], d.size + |chunk|, d.skip)
  }

  function Fitting(d: Decoder, buffer: seq<byte>): (l: nat)
    requires d.size <= BUFFER_SIZE
    ensures l <= |buffer| && d.size + l <= BUFFER_SIZE
    ensures l == 0 ==> buffer == [] || d.size == BUFFER_SIZE
  {
    if BUFFER_SIZE - d.size > |buffer| then |buffer| else BUFFER_SIZE - d.size
  }

  function DecodeFrom(d: Decoder, buffer: seq<byte>): (r: Decoded)
    requires Valid(d)
    ensures Valid(r.decoder)
    decreases |buffer|
  {
    if buffer == [] || d.size == BUFFER_SIZE then Decoded([], d, buffer, false)
    else
      var l := Fitting(d, buffer);
      var r := Drain(Filled(d, buffer[..l]));
      if r.spins then Decoded(r.blocks, r.decoder, buffer[l..], true)
      else
        var rest := DecodeFrom(r.decoder, buffer[l..]);
        Decoded(r.blocks + rest.blocks, rest.decoder, rest.left, rest.spins)
  }

  lemma DrainUnfolds(d: Decoder, before: seq<Block>)
    requires Valid(d)
    ensures var c, r := Next(d), Drain(d);
            if c.id == 0 then r == Drained([], c.next, false)
            else if c.next.skip == 0 then r == Drained([], c.next, true)
            else
              var b, rest := Block(c.id, c.next.message[..c.block]), Drain(c.next);
              && |Pending(c.next)| < |Pending(d)|
              && before + r.blocks == before + [b] + rest.blocks && r.decoder == rest.decoder && r.spins == rest.spins
  {
    hide Next;
    NextLooks(d);
    var c := Next(d);
    if c.id != 0 && c.next.skip != 0 {
      Regroup(before, [Block(c.id, c.next.message[..c.block])], Drain(c.next).blocks);
    }
  }

  lemma Regroup(a: seq<Block>, b: seq<Block>, c: seq<Block>)
    ensures a + (b + c) == a + b + c
  {
  }

  lemma DecodeEnds(d: Decoder, buffer: seq<byte>, before: seq<Block>)
    requires Valid(d) && (buffer == [] || d.size == BUFFER_SIZE)
    ensures DecodeFrom(d, buffer) == Decoded([], d, buffer, false) && before + [] == before
  {
  }

  lemma DecodeUnfolds(d: Decoder, buffer: seq<byte>, before: seq<Block>)
    requires Valid(d) && buffer != [] && d.size < BUFFER_SIZE
    ensures var l, whole := Fitting(d, buffer), DecodeFrom(d, buffer);
            var r := Drain(Filled(d, buffer[..l]));
            && l > 0
            && if r.spins then whole == Decoded(r.blocks, r.decoder, buffer[l..], true)
               else
                 var rest := DecodeFrom(r.decoder, buffer[l..]);
                 && before + whole.blocks == before + r.blocks + rest.blocks && whole.decoder == rest.decoder
                 && whole.left == rest.left && whole.spins == rest.spins
  {
    hide Drain, Filled;
    var l := Fitting(d, buffer);
    PendingFilled(d, buffer[..l]);
    var r := Drain(Filled(d, buffer[..l]));
    Regroup(before, r.blocks, DecodeFrom(r.decoder, buffer[l..]).blocks);
  }

  method DrainMessages(decoder: RTCM3Decoder) returns (blocks: seq<Block>, spins: bool)
    requires decoder.IsValid()
    modifies decoder, decoder.message
    ensures decoder.IsValid()
    ensures Drained(blocks, decoder.Abs(), spins) == Drain(old(decoder.Abs()))
  {
    hide Next, Drain, Pending;
    ghost var whole := Drain(decoder.Abs());
    blocks, spins := [], false;
    var id := 1;
    while id != 0
      invariant decoder.IsValid()
      invariant if id == 0 then whole == Drained(blocks, decoder.Abs(), false)
                else var rest := Drain(decoder.Abs()); whole == Drained(blocks + rest.blocks, rest.decoder, rest.spins)
      decreases id != 0, |Pending(decoder.Abs())|
    {
      ghost var d := decoder.Abs();
      DrainUnfolds(d, blocks);
      id := decoder.GetMessage();
      if id != 0 {
        if decoder.skipBytes == 0 {
          return blocks, true;  // PhantomRepeats: GetMessage has no other answer from here on
        }
        blocks := blocks + [Block(id, decoder.message[..decoder.blockSize])];
      }
    }
  }

  method Decode(decoder: RTCM3Decoder, buffer: seq<byte>)
    returns (blocks: seq<Block>, left: seq<byte>, spins: bool)
    requires decoder.IsValid()
    modifies decoder, decoder.message
    ensures decoder.IsValid()
    ensures Decoded(blocks, decoder.Abs(), left, spins) == DecodeFrom(old(decoder.Abs()), buffer)
  {
    hide Drain, DecodeFrom, Filled;
    ghost var whole := DecodeFrom(decoder.Abs(), buffer);
    blocks, left, spins := [], buffer, false;
    while left != [] && decoder.messageSize < BUFFER_SIZE
      invariant decoder.IsValid() && !spins
      invariant var rest := DecodeFrom(decoder.Abs(), left);
                whole == Decoded(blocks + rest.blocks, rest.decoder, rest.left, rest.spins)
      decreases |left|
    {
      DecodeUnfolds(decoder.Abs(), left, blocks);
      var l := if BUFFER_SIZE - decoder.messageSize > |left| then |left| else BUFFER_SIZE - decoder.messageSize;
      Fill(decoder, left[..l]);
      left := left[l..];
      var more, stuck := DrainMessages(decoder);
      blocks := blocks + more;
      if stuck {
        return blocks, left, true;
      }
    }
    DecodeEnds(decoder.Abs(), left, blocks);
  }

  method Fill(decoder: RTCM3Decoder, chunk: seq<byte>)
    requires decoder.IsValid() && decoder.messageSize + |chunk| <= BUFFER_SIZE
    modifies decoder`messageSize, decoder.message
    ensures decoder.IsValid() && decoder.Abs() == Filled(old(decoder.Abs()), chunk)
  {
    var size := decoder.messageSize;
    forall j | 0 <= j < |chunk| {
      decoder.message[size + j] := chunk[j];
    }
    decoder.messageSize := size + |chunk|;
  }

  lemma PendingFilled(d: Decoder, chunk: seq<byte>)
    requires Valid(d) && d.size + |chunk| <= BUFFER_SIZE
    ensures Valid(Filled(d, chunk)) && Pending(Filled(d, chunk)) == Pending(d) + chunk
  {
  }

  /** The state in which Decode leaves a decoder on benign input: everything scanned, little kept. */
  predicate Idle(d: Decoder) {
    Valid(d) && d.skip == 0 && LookAt(Pending(d)).Stop?
  }

  // ------------------------------------------- what a run does, from its input

  /** What the decoder holds between two fills of its buffer: bytes left over, and the two type bytes. */
  datatype Held = Held(rest: seq<byte>, typeBytes: TypeBytes)

  function HeldBy(d: Decoder): Held
    requires Valid(d)
  {
    Held(Pending(d), TypeBytesOf(d.message))
  }

  predicate Small(h: Held) {
    |h.rest| <= 1028
  }

  /** What it holds when a chunk has been copied behind the rest and all has been scanned. */
  function AfterFill(h: Held, chunk: seq<byte>): (r: Held)
    ensures Small(r)
  {
    ResidueStops(h.rest + chunk);
    Held(Residue(h.rest + chunk), Behind(h.rest + chunk, Over(h.rest + chunk, h.typeBytes)))
  }

  predicate PhantomAtFill(h: Held, chunk: seq<byte>) {
    Phantom(h.rest + chunk, Over(h.rest + chunk, h.typeBytes))
  }

  /** How much of the input goes into the buffer at once. */
  function FillSize(h: Held, buffer: seq<byte>): (l: nat)
    requires Small(h)
    ensures l <= |buffer| && (buffer != [] ==> l > 0)
  {
    if BUFFER_SIZE - |h.rest| > |buffer| then |buffer| else BUFFER_SIZE - |h.rest|
  }

  function AfterBuffer(h: Held, buffer: seq<byte>): (r: Held)
    requires Small(h)
    ensures Small(r)
    decreases |buffer|
  {
    if buffer == [] then h
    else var l := FillSize(h, buffer); AfterBuffer(AfterFill(h, buffer[..l]), buffer[l..])
  }

  /** At one of the fills that the input goes into there is a phantom. */
  predicate Phantoms(h: Held, buffer: seq<byte>)
    requires Small(h)
    decreases |buffer|
  {
    buffer != [] &&
    var l := FillSize(h, buffer);
    PhantomAtFill(h, buffer[..l]) || Phantoms(AfterFill(h, buffer[..l]), buffer[l..])
  }

  predicate PhantomsIn(h: Held, chunks: seq<seq<byte>>)
    requires Small(h)
    decreases |chunks|
  {
    chunks != [] && (Phantoms(h, chunks[0]) || PhantomsIn(AfterBuffer(h, chunks[0]), chunks[1..]))
  }

  lemma IdleIsSmall(d: Decoder)
    requires Idle(d)
    ensures Small(HeldBy(d)) && d.size <= 1028 && Residue(Pending(d)) == Pending(d) && BlocksIn(Pending(d)) == []
  {
    LookBounds(Pending(d));
  }

  /** One round of the outer loop. */
  lemma FillRuns(d: Decoder, chunk: seq<byte>, rest: seq<byte>)
    requires Idle(d) && d.size + |chunk| <= BUFFER_SIZE && NoTypeZero(FramesIn(Pending(d) + (chunk + rest)))
    ensures var h, r := HeldBy(d), Drain(Filled(d, chunk));
            && (r.spins <==> PhantomAtFill(h, chunk))
            && Idle(r.decoder) && HeldBy(r.decoder) == AfterFill(h, chunk)
            && NoTypeZero(FramesIn(Pending(r.decoder) + rest))
            && BlocksIn(Pending(d) + (chunk + rest)) == r.blocks + BlocksIn(Pending(r.decoder) + rest)
            && Residue(Pending(d) + (chunk + rest)) == Residue(Pending(r.decoder) + rest)
  {
    hide Drain, LookAt, Residue, FramesIn, BlocksIn, Phantom, Behind;
    var a := Pending(d) + chunk;
    assert Pending(d) + (chunk + rest) == a + rest;
    PendingFilled(d, chunk);
    FilledTypeBytes(d, chunk);
    ScanResumes(a, rest);
    NoTypeZeroSplits(FramesIn(a), FramesIn(Residue(a) + rest));
    DrainRuns(Filled(d, chunk));
    ResidueStops(a);
    BlocksResume(a, rest);
    ResidueResumes(a, rest);
  }

  lemma FilledTypeBytes(d: Decoder, chunk: seq<byte>)
    requires Valid(d) && d.skip == 0 && d.size + |chunk| <= BUFFER_SIZE
    ensures TypeBytesOf(Filled(d, chunk).message) == Over(Pending(d) + chunk, TypeBytesOf(d.message))
  {
  }

  lemma {:induction false} NoTypeZeroSplits(a: seq<seq<byte>>, b: seq<seq<byte>>)
    ensures NoTypeZero(a + b) <==> NoTypeZero(a) && NoTypeZero(b)
  {
    hide MessageType;
    if a == [] {
      assert a + b == b;
    } else {
      assert (a + b)[1..] == a[1..] + b;
      NoTypeZeroSplits(a[1..], b);
    }
  }

  /**
   One call of Decode on input without frames of type 0: it spins exactly if
   there is a phantom at one of its fills.  Else it takes all of its argument,
   hands on the blocks that one scan of the pending bytes and the argument
   extracts, and keeps what that scan leaves, which is at most 1028 bytes.
   */
  lemma {:induction false} DecodeRuns(d: Decoder, buffer: seq<byte>)
    requires Idle(d) && NoTypeZero(FramesIn(Pending(d) + buffer))
    ensures Small(HeldBy(d))
    ensures var s, h, r := Pending(d) + buffer, HeldBy(d), DecodeFrom(d, buffer);
            && (r.spins <==> Phantoms(h, buffer))
            && (!r.spins ==>
                  && r.left == [] && r.blocks == BlocksIn(s)
                  && Idle(r.decoder) && r.decoder.size <= 1028
                  && HeldBy(r.decoder) == AfterBuffer(h, buffer) && Pending(r.decoder) == Residue(s))
    decreases |buffer|
  {
    hide Drain, Filled, LookAt, Residue, FramesIn, BlocksIn, PhantomAtFill, AfterFill, HeldBy, Idle;
    IdleIsSmall(d);
    IdleHolds(d);
    if buffer == [] {
      assert Pending(d) + buffer == Pending(d);
    } else {
      var l := Fitting(d, buffer);
      PendingFilled(d, buffer[..l]);
      var next := Drain(Filled(d, buffer[..l])).decoder;
      assert buffer == buffer[..l] + buffer[l..];
      FillRuns(d, buffer[..l], buffer[l..]);
      IdleHolds(next);
      DecodeRuns(next, buffer[l..]);
    }
  }

  lemma IdleHolds(d: Decoder)
    requires Idle(d)
    ensures Valid(d) && HeldBy(d).rest == Pending(d) && |Pending(d)| == d.size
  {
  }

  // --------------------------------------------------- runs of Decode calls

  /** Successive calls of Decode, one for each chunk. */
  function DecodeAll(d: Decoder, chunks: seq<seq<byte>>): (r: Decoded)
    requires Valid(d)
    ensures Valid(r.decoder)
    decreases |chunks|
  {
    if chunks == [] then Decoded([], d, [], false)
    else
      var r := DecodeFrom(d, chunks[0]);
      if r.spins || r.left != [] then r
      else
        var rest := DecodeAll(r.decoder, chunks[1..]);
        Decoded(r.blocks + rest.blocks, rest.decoder, rest.left, rest.spins)
  }

  /** The same for successive calls. */
  lemma {:induction false} DecodeAllRuns(d: Decoder, chunks: seq<seq<byte>>)
    requires Idle(d) && NoTypeZero(FramesIn(Pending(d) + Flatten(chunks)))
    ensures Small(HeldBy(d))
    ensures var s, h, r := Pending(d) + Flatten(chunks), HeldBy(d), DecodeAll(d, chunks);
            && (r.spins <==> PhantomsIn(h, chunks))
            && (!r.spins ==>
                  && r.left == [] && r.blocks == BlocksIn(s)
                  && Idle(r.decoder) && r.decoder.size <= 1028 && Pending(r.decoder) == Residue(s))
    decreases |chunks|
  {
    hide BlocksIn, Residue, FramesIn, DecodeFrom, LookAt, Phantoms, AfterBuffer, HeldBy, Idle;
    IdleIsSmall(d);
    IdleHolds(d);
    if chunks == [] {
      assert Pending(d) + Flatten(chunks) == Pending(d);
    } else {
      var a, rest := Pending(d) + chunks[0], Flatten(chunks[1..]);
      assert Pending(d) + Flatten(chunks) == a + rest;
      ScanResumes(a, rest);
      NoTypeZeroSplits(FramesIn(a), FramesIn(Residue(a) + rest));
      DecodeRuns(d, chunks[0]);
      if !DecodeFrom(d, chunks[0]).spins {
        BlocksResume(a, rest);
        ResidueResumes(a, rest);
        DecodeAllRuns(DecodeFrom(d, chunks[0]).decoder, chunks[1..]);
      }
    }
  }

  lemma {:induction false} BytesOfConcat(a: seq<Block>, b: seq<Block>)
    ensures BytesOf(a + b) == BytesOf(a) + BytesOf(b)
  {
    if a == [] {
      assert a + b == b;
    } else {
      assert (a + b)[1..] == a[1..] + b;
      BytesOfConcat(a[1..], b);
    }
  }

  lemma {:induction false} DecodeHandsOnTyped(d: Decoder, buffer: seq<byte>)
    requires Valid(d)
    ensures NoTypeZero(BytesOf(DecodeFrom(d, buffer).blocks))
    decreases |buffer|
  {
    hide Drain, Filled, MessageType;
    if buffer != [] && d.size != BUFFER_SIZE {
      var l := Fitting(d, buffer);
      PendingFilled(d, buffer[..l]);
      var r := Drain(Filled(d, buffer[..l]));
      DrainHandsOnTyped(Filled(d, buffer[..l]));
      if !r.spins {
        DecodeHandsOnTyped(r.decoder, buffer[l..]);
        var more := DecodeFrom(r.decoder, buffer[l..]).blocks;
        BytesOfConcat(r.blocks, more);
        NoTypeZeroSplits(BytesOf(r.blocks), BytesOf(more));
      }
    }
  }

  lemma {:induction false} DecodeAllHandsOnTyped(d: Decoder, chunks: seq<seq<byte>>)
    requires Valid(d)
    ensures NoTypeZero(BytesOf(DecodeAll(d, chunks).blocks))
    decreases |chunks|
  {
    hide DecodeFrom, MessageType;
    if chunks != [] {
      var r := DecodeFrom(d, chunks[0]);
      DecodeHandsOnTyped(d, chunks[0]);
      if !r.spins && r.left == [] {
        DecodeAllHandsOnTyped(r.decoder, chunks[1..]);
        var more := DecodeAll(r.decoder, chunks[1..]).blocks;
        BytesOfConcat(r.blocks, more);
        NoTypeZeroSplits(BytesOf(r.blocks), BytesOf(more));
      }
    }
  }

  /**
   Any stream, cut up in any way: the calls of Decode end, take everything and
   hand on exactly the frames that one scan of the whole extracts, if and only
   if none of these is of type 0 and there is no phantom at any of the fills.
   */
  lemma ChunksExact(d: Decoder, chunks: seq<seq<byte>>)
    requires Idle(d)
    ensures Small(HeldBy(d))
    ensures var s, r := Pending(d) + Flatten(chunks), DecodeAll(d, chunks);
            !r.spins && r.left == [] && BytesOf(r.blocks) == FramesIn(s) <==>
            NoTypeZero(FramesIn(s)) && !PhantomsIn(HeldBy(d), chunks)
  {
    hide DecodeAll, FramesIn, BlocksIn, PhantomsIn, HeldBy, Residue, Idle;
    IdleIsSmall(d);
    IdleHolds(d);
    var s := Pending(d) + Flatten(chunks);
    DecodeAllHandsOnTyped(d, chunks);
    BlocksHoldFrames(s);
    if NoTypeZero(FramesIn(s)) {
      DecodeAllRuns(d, chunks);
    }
  }

  // ------------------------------------------------------------ benign streams

  lemma {:induction false} BenignHasTypes(s: seq<byte>)
    requires Benign(s)
    ensures NoTypeZero(FramesIn(s)) && !ZeroHeader(Residue(s))
    decreases |s|
  {
    LookBounds(s);
    hide LookAt, ZeroHeader, MessageType;
    match LookAt(s)
    case Stop =>
    case Drop => BenignHasTypes(s[1..]);
    case Take(n) =>
      BenignHasTypes(s[n..]);
      assert FramesIn(s)[1..] == FramesIn(s[n..]);
  }

  lemma {:induction false} BenignHasNoPhantoms(h: Held, buffer: seq<byte>, rest: seq<byte>)
    requires Small(h) && Benign(h.rest + (buffer + rest))
    ensures !Phantoms(h, buffer) && Benign(AfterBuffer(h, buffer).rest + rest)
    decreases |buffer|
  {
    hide Benign, Residue, FramesIn, Behind, ZeroHeader;
    if buffer == [] {
      assert buffer + rest == rest;
    } else {
      var l := FillSize(h, buffer);
      var a, later := h.rest + buffer[..l], buffer[l..] + rest;
      assert h.rest + (buffer + rest) == a + later;
      BenignSplits(a, later);
      BenignHasTypes(a);
      BenignHasNoPhantoms(AfterFill(h, buffer[..l]), buffer[l..], rest);
    }
  }

  /** So one call on benign input takes all of it, hands on the frames of one scan, and keeps at most 1028 bytes. */
  lemma DecodeBenign(d: Decoder, buffer: seq<byte>)
    requires Idle(d) && Benign(Pending(d) + buffer)
    ensures var s, r := Pending(d) + buffer, DecodeFrom(d, buffer);
            && !r.spins && r.left == [] && r.blocks == BlocksIn(s)
            && Idle(r.decoder) && Pending(r.decoder) == Residue(s) && r.decoder.size <= 1028
  {
    hide DecodeFrom, FramesIn, BlocksIn, Phantoms, HeldBy, Residue, Idle, Benign;
    IdleIsSmall(d);
    IdleHolds(d);
    BenignHasTypes(Pending(d) + buffer);
    assert buffer + [] == buffer;
    BenignHasNoPhantoms(HeldBy(d), buffer, []);
    DecodeRuns(d, buffer);
  }

  lemma {:induction false} BenignChunks(h: Held, chunks: seq<seq<byte>>)
    requires Small(h) && Benign(h.rest + Flatten(chunks))
    ensures !PhantomsIn(h, chunks)
    decreases |chunks|
  {
    hide Benign, Phantoms, AfterBuffer;
    if chunks != [] {
      BenignHasNoPhantoms(h, chunks[0], Flatten(chunks[1..]));
      BenignChunks(AfterBuffer(h, chunks[0]), chunks[1..]);
    }
  }

  /**
   Chunk independence: however a benign stream is cut up, the calls of Decode
   together hand on exactly the blocks that one scan of the whole extracts, in
   order, and leave what that scan leaves, which is at most 1028 bytes.
   */
  lemma ChunkIndependence(d: Decoder, chunks: seq<seq<byte>>)
    requires Idle(d) && Benign(Pending(d) + Flatten(chunks))
    ensures var s, r := Pending(d) + Flatten(chunks), DecodeAll(d, chunks);
            && !r.spins && r.left == [] && r.blocks == BlocksIn(s)
            && Idle(r.decoder) && Pending(r.decoder) == Residue(s) && r.decoder.size <= 1028
  {
    hide DecodeAll, FramesIn, BlocksIn, PhantomsIn, HeldBy, Residue, Idle, Benign;
    IdleIsSmall(d);
    IdleHolds(d);
    BenignHasTypes(Pending(d) + Flatten(chunks));
    BenignChunks(HeldBy(d), chunks);
    DecodeAllRuns(d, chunks);
  }

  /** A decoder that has just been made. */
  predicate Fresh(d: Decoder) {
    Valid(d) && d.size == d.skip == 0
  }

  lemma FreshIsIdle(d: Decoder)
    requires Fresh(d)
    ensures Idle(d) && Pending(d) == []
  {
  }

  /** The run from the start, over the benign stream s cut in two different ways. */
  lemma CutsDoNotMatter(d: Decoder, one: seq<seq<byte>>, other: seq<seq<byte>>)
    requires Fresh(d) && Flatten(one) == Flatten(other) && Benign(Flatten(one))
    ensures DecodeAll(d, one).blocks == DecodeAll(d, other).blocks == BlocksIn(Flatten(one))
    ensures Pending(DecodeAll(d, one).decoder) == Pending(DecodeAll(d, other).decoder)
  {
    assert Pending(d) == [] && [] + Flatten(one) == Flatten(one);
    hide DecodeAll, BlocksIn, Residue, Benign;
    ChunkIndependence(d, one);
    ChunkIndependence(d, other);
  }

  // ------------------------------------------ what the conditions are there for

  /** The beginning of a zero-length frame, if its chunk ends before its parity is complete. */
  const PARTIAL_ZERO_HEADER: seq<byte> := [0xD3, 0x00, 0x00, 0x47, 0xEA]

  /** On it a fresh decoder's loop does not end. */
  lemma PartialZeroHeaderSpins(d: Decoder)
    requires Fresh(d)
    ensures DecodeFrom(d, PARTIAL_ZERO_HEADER).spins
  {
    var s := PARTIAL_ZERO_HEADER;
    hide DecodeFrom, FramesIn, Residue, LookAt, HeaderLength, Phantoms;
    assert Pending(d) + s == s;
    ZeroHeaderWaits(s);
    DecodeRuns(d, s);
    OneFill(HeldBy(d), s);
  }

  lemma ZeroHeaderWaits(s: seq<byte>)
    requires 3 <= |s| < 6 && s[0] == PREAMBLE && s[1] == s[2] == 0
    ensures LookAt([]).Stop? && ZeroHeader(s) && Residue(s) == s && FramesIn(s) == []
  {
    assert HeaderLength(s) == 0 && LookAt(s) == Stop;
  }

  lemma OneFill(h: Held, buffer: seq<byte>)
    requires Small(h) && buffer != [] && |h.rest| + |buffer| <= BUFFER_SIZE
    ensures Phantoms(h, buffer) <==> PhantomAtFill(h, buffer)
  {
    hide PhantomAtFill, AfterFill;
    assert buffer[..FillSize(h, buffer)] == buffer && buffer[FillSize(h, buffer)..] == [];
  }

  /** A frame of type 0 ends the loop while frames behind it are still waiting. */
  lemma TypeZeroEndsLoop(d: Decoder, f: seq<byte>, rest: seq<byte>)
    requires Valid(d) && Pending(d) == f + rest && IsFrame(f) && MessageType(f) == 0
    ensures Drain(d).blocks == [] && !Drain(d).spins && Pending(Drain(d).decoder) == rest
    ensures FramesIn(Pending(d)) == [f] + FramesIn(rest)
  {
    FrameIsTaken(f, rest);
    NextLooks(d);
    hide Next, LookAt, IsFrame, MessageType;
    assert (f + rest)[0..] == f + rest && (f + rest)[..|f|] == f && (f + rest)[|f|..] == rest;
  }

  /** A frame of type 0 with two bytes inside. */
  const TYPE_ZERO_FRAME: seq<byte> := [0xD3, 0x00, 0x02, 0x00, 0x00, 0x30, 0x8F, 0xB6]

  lemma TypeZeroExists()
    ensures ValidFrame(TYPE_ZERO_FRAME) && MessageType(TYPE_ZERO_FRAME) == 0
  {
    CrcOfFive(0xD3, 0x00, 0x02, 0x00, 0x00);
    assert ByteStep(ByteStep(ByteStep(ByteStep(ByteStep(0, 0xD3), 0x00), 0x02), 0x00), 0x00) == 0x308FB6;
    assert TYPE_ZERO_FRAME[..|TYPE_ZERO_FRAME| - 3] == [0xD3, 0x00, 0x02, 0x00, 0x00];
    GoParityTest(TYPE_ZERO_FRAME, 0x308FB6);
  }

  /** It and any stream behind it, in one chunk that fits the buffer: a fresh decoder's call hands on nothing at all. */
  lemma TypeZeroHidesFrames(d: Decoder, rest: seq<byte>)
    requires Fresh(d) && |rest| <= BUFFER_SIZE - 8
    ensures DecodeFrom(d, TYPE_ZERO_FRAME + rest).blocks == []
    ensures FramesIn(TYPE_ZERO_FRAME + rest) == [TYPE_ZERO_FRAME] + FramesIn(rest)
  {
    var s := TYPE_ZERO_FRAME + rest;
    TypeZeroExists();
    PendingFilled(d, s);
    assert Pending(d) + s == s && s[..Fitting(d, s)] == s && s[Fitting(d, s)..] == [];
    TypeZeroEndsLoop(Filled(d, s), TYPE_ZERO_FRAME, rest);
    hide Drain, FramesIn, MessageType, ValidFrame;
  }

  lemma FrameIsTaken(f: seq<byte>, rest: seq<byte>)
    requires IsFrame(f)
    ensures LookAt(f + rest) == Take(|f|) && Dropped(f + rest) == 0
  {
    assert (f + rest)[..|f|] == f;
  }
}
