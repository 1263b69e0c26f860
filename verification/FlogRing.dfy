/** The bytes behind flog/flog.c: how frames lie in a thread's ring, how they are filled in and taken out.

    FlogPipeline treats a ring as a sequence of frames; here the same operations are the ones the C code runs
    on an fmbuf, and each is proved to do to the bytes what the pipeline's step does to the frames.
 */
module FlogRing {
  import opened Bytes
  import opened Fmbuf
  import opened FlogPipeline

  const PTO_FETCH_MSG: byte := 0
  const PTO_THREAD_QUIT: byte := 1
  const NEWLINE: byte := 10

  // ------------------------------------------------------------------ layout

  function Pow256(w: nat): nat { if w == 0 then 1 else 256 * Pow256(w - 1) }

  /** `w` bytes of `n`, least significant first. */
  function LittleEndian(n: nat, w: nat): (bytes: seq<byte>)
    ensures |bytes| == w
  {
    if w == 0 then [] else [n % 256] + LittleEndian(n / 256, w - 1)
  }

  function FromLittleEndian(bytes: seq<byte>): nat {
    if bytes == [] then 0 else bytes[0] + 256 * FromLittleEndian(bytes[1..])
  }

  lemma {:induction false} LittleEndianRoundTrip(n: nat, w: nat)
    requires n < Pow256(w)
    ensures FromLittleEndian(LittleEndian(n, w)) == n
  {
    if w > 0 {
      LittleEndianRoundTrip(n / 256, w - 1);
      assert LittleEndian(n, w)[1..] == LittleEndian(n / 256, w - 1);
    }
  }

  /** log_fetch_msg_head_t: id, file pointer, aid and body length, packed. */
  function EncodeHead(file: FileId, aid: nat, len: nat): (bytes: seq<byte>)
    ensures |bytes| == HEAD_SIZE
  {
    [PTO_FETCH_MSG] + LittleEndian(file, 8) + LittleEndian(aid, 4) + LittleEndian(len, 2)
  }

  function Encode(x: Frame): (bytes: seq<byte>)
    ensures |bytes| == FrameSize(x) > 0
  {
    match x
    case Msg(file, aid, body) => EncodeHead(file, aid, |body|) + body
    case Quit => [PTO_THREAD_QUIT]
  }

  function EncodeAll(ring: seq<Frame>): seq<byte> {
    if ring == [] then [] else EncodeAll(ring[..|ring| - 1]) + Encode(ring[|ring| - 1])
  }

  /** The fields fit the widths of the packed struct (pointer, int, unsigned short). */
  predicate Encodable(x: Frame) {
    x.Msg? ==> x.file < Pow256(8) && x.aid < Pow256(4) / 2 && |x.body| < Pow256(2)
  }

  datatype Head = Head(file: FileId, aid: nat, len: nat)

  function DecodeHead(bytes: seq<byte>): Head
    requires |bytes| == HEAD_SIZE
  {
    Head(FromLittleEndian(bytes[1..9]), FromLittleEndian(bytes[9..13]), FromLittleEndian(bytes[13..15]))
  }

  lemma HeadRoundTrip(x: Frame, rest: seq<byte>)
    requires x.Msg? && Encodable(x)
    ensures DecodeHead((Encode(x) + rest)[..HEAD_SIZE]) == Head(x.file, x.aid, |x.body|)
  {
    var bytes := EncodeHead(x.file, x.aid, |x.body|);
    assert (Encode(x) + rest)[..HEAD_SIZE] == bytes;
    assert bytes[1..9] == LittleEndian(x.file, 8);
    assert bytes[9..13] == LittleEndian(x.aid, 4);
    assert bytes[13..15] == LittleEndian(|x.body|, 2);
    LittleEndianRoundTrip(x.file, 8);
    LittleEndianRoundTrip(x.aid, 4);
    LittleEndianRoundTrip(|x.body|, 2);
  }

  lemma EncodePush(ring: seq<Frame>, x: Frame)
    ensures EncodeAll(ring + [x]) == EncodeAll(ring) + Encode(x)
  {
    assert (ring + [x])[..|ring|] == ring;
  }

  lemma {:induction false} EncodePop(ring: seq<Frame>)
    requires ring != []
    ensures EncodeAll(ring) == Encode(ring[0]) + EncodeAll(ring[1..])
  {
    var n := |ring| - 1;
    if n == 0 {
      assert ring[1..] == [] && ring[..0] == [];
      assert EncodeAll([]) == [];
    } else {
      var inner := ring[..n][1..];
      assert ring[1..] == inner + [ring[n]] && ring[..n][0] == ring[0];
      EncodePop(ring[..n]);
      EncodePush(inner, ring[n]);
      Reassociate(Encode(ring[0]), EncodeAll(inner), Encode(ring[n]));
    }
  }

  lemma Reassociate(a: seq<byte>, b: seq<byte>, c: seq<byte>)
    ensures (a + b) + c == a + (b + c)
  {
  }

  /** The pipeline's room accounting is the fmbuf's: a ring's weight is its length in bytes. */
  lemma {:induction false} WeightIsBytes(ring: seq<Frame>)
    ensures |EncodeAll(ring)| == Weight(ring)
    ensures Weight(ring) == 0 <==> ring == []
  {
    if ring != [] {
      WeightIsBytes(ring[..|ring| - 1]);
    }
  }

  /** Byte contents determine the frames: no ring content can be read in two ways. */
  lemma {:induction false} DecodingIsUnique(a: seq<Frame>, b: seq<Frame>)
    requires EncodeAll(a) == EncodeAll(b)
    requires forall i :: 0 <= i < |a| ==> Encodable(a[i])
    requires forall i :: 0 <= i < |b| ==> Encodable(b[i])
    ensures a == b
    decreases |a|
  {
    WeightIsBytes(a);
    WeightIsBytes(b);
    if a != [] {
      EncodePop(a);
      EncodePop(b);
      assert Encode(a[0])[0] == EncodeAll(a)[0] == Encode(b[0])[0];
      if a[0].Msg? {
        HeadRoundTrip(a[0], EncodeAll(a[1..]));
        HeadRoundTrip(b[0], EncodeAll(b[1..]));
        assert a[0].body == EncodeAll(a)[HEAD_SIZE..HEAD_SIZE + |a[0].body|];
        assert b[0].body == EncodeAll(b)[HEAD_SIZE..HEAD_SIZE + |b[0].body|];
      }
      assert EncodeAll(a[1..]) == EncodeAll(a)[FrameSize(a[0])..];
      assert EncodeAll(b[1..]) == EncodeAll(b)[FrameSize(b[0])..];
      DecodingIsUnique(a[1..], b[1..]);
    }
  }

  /** `bytes` is a concatenation of whole frames, of which only the last may be QUIT. */
  ghost predicate Layout(bytes: seq<byte>, ring: seq<Frame>) {
    && bytes == EncodeAll(ring)
    && (forall i :: 0 <= i < |ring| ==> Encodable(ring[i]))
    && (forall i :: 0 <= i < |ring| - 1 ==> ring[i].Msg?)
  }

  lemma LayoutPush(bytes: seq<byte>, ring: seq<Frame>, x: Frame)
    requires Layout(bytes, ring) && Quit !in ring && Encodable(x)
    ensures Layout(bytes + Encode(x), ring + [x])
    ensures |bytes| == Weight(ring)
  {
    hide Encode, Encodable;
    EncodePush(ring, x);
    WeightIsBytes(ring);
  }

  /** What can be read at the head of a non-empty ring, and what is left when the head frame goes. */
  lemma LayoutHead(bytes: seq<byte>, ring: seq<Frame>)
    requires Layout(bytes, ring) && ring != []
    ensures |bytes| >= FrameSize(ring[0]) && Encodable(ring[0])
    ensures bytes[0] == if ring[0].Quit? then PTO_THREAD_QUIT else PTO_FETCH_MSG
    ensures ring[0].Msg? ==> DecodeHead(bytes[..HEAD_SIZE]) == Head(ring[0].file, ring[0].aid, |ring[0].body|)
    ensures ring[0].Msg? ==> bytes[HEAD_SIZE..FrameSize(ring[0])] == ring[0].body
    ensures Layout(bytes[FrameSize(ring[0])..], ring[1..])
    ensures ring[0].Quit? ==> |ring| == 1
  {
    hide EncodeAll;
    EncodePop(ring);
    if ring[0].Msg? {
      HeadRoundTrip(ring[0], EncodeAll(ring[1..]));
    }
  }

  lemma LayoutEmpty(bytes: seq<byte>, ring: seq<Frame>)
    requires Layout(bytes, ring)
    ensures bytes == [] <==> ring == []
  {
    WeightIsBytes(ring);
  }

  // ------------------------------------------------------------------ what one pass over a ring does

  datatype Outcome = Outcome(
    ring: seq<Frame>, currAid: map<FileId, nat>, written: map<FileId, seq<Body>>, n: nat, quit: bool)

  predicate NextFor(x: Frame, currAid: map<FileId, nat>) {
    x.Msg? && x.file in currAid && x.aid == currAid[x.file] + 1
  }

  /** Frames leave from the head while each is the next of its file; QUIT ends the pass and the ring. */
  function PassOver(ring: seq<Frame>, currAid: map<FileId, nat>, written: map<FileId, seq<Body>>, n: nat): Outcome {
    if ring == [] then Outcome(ring, currAid, written, n, false)
    else
      var x := ring[0];
      if x.Quit? then Outcome(ring[1..], currAid, written, n, true)
      else if NextFor(x, currAid) && x.file in written then
        PassOver(ring[1..], currAid[x.file := x.aid], written[x.file := written[x.file] + [x.body]], n + 1)
      else Outcome(ring, currAid, written, n, false)
  }

  /** A pass stops only where it must: at QUIT, at the end, or before a message that is not next for its file.
      It counts the messages that have left, and they left from the head. */
  lemma {:induction false} PassEnds(ring: seq<Frame>, currAid: map<FileId, nat>,
                                    written: map<FileId, seq<Body>>, n: nat)
    ensures var o := PassOver(ring, currAid, written, n); var gone := |ring| - |o.ring|;
      && o.currAid.Keys == currAid.Keys && o.written.Keys == written.Keys
      && gone >= 0 && o.ring == ring[gone..]
      && o.n - n == gone - (if o.quit then 1 else 0)
      && (o.quit ==> gone > 0 && ring[gone - 1] == Quit)
      && (!o.quit && o.ring != [] ==> o.ring[0].Msg? && !(NextFor(o.ring[0], o.currAid) && o.ring[0].file in o.written))
    decreases |ring|
  {
    if ring != [] && !ring[0].Quit? && NextFor(ring[0], currAid) && ring[0].file in written {
      var x := ring[0];
      PassEnds(ring[1..], currAid[x.file := x.aid], written[x.file := written[x.file] + [x.body]], n + 1);
    }
  }

  // ------------------------------------------------------------------ texts that do not fit

  /** _log_snprintf: the length wanted, or one less if that was too much for `max` bytes. */
  function CopyLen(wanted: nat, max: nat): nat
    requires max > 0
  {
    if wanted < max then wanted else wanted - 1
  }

  /** The length _log_fill_async_msg reports, and moves the tail by, for a text of `wanted` bytes. */
  function FilledLen(headerLen: nat, debugLen: nat, wanted: nat): nat
    requires debugLen <= MAX_MSG_LEN
  {
    HEAD_SIZE + headerLen + debugLen + CopyLen(wanted, MAX_MSG_LEN - debugLen + 1) + 1
  }

  /** A filled frame stays inside its reservation exactly when debug text and text together are at most one byte
      over the limit; a longer text moves the tail over bytes that were not reserved. */
  lemma FillFitsIff(headerLen: nat, debugLen: nat, wanted: nat)
    requires debugLen <= MAX_MSG_LEN
    ensures (FilledLen(headerLen, debugLen, wanted) <= HEAD_SIZE + headerLen + MAX_MSG_LEN + 1)
              <==> debugLen + wanted <= MAX_MSG_LEN + 1
  {
  }

  // ------------------------------------------------------------------ what one write does to a ring

  datatype Write = Write(ring: seq<Frame>, lastAid: map<FileId, nat>, dropped: bool)

  /** The body of a message: header, debug text, text, newline. */
  function BodyOf(header: seq<byte>, debug: seq<byte>, text: seq<byte>): Body {
    header + debug + text + [NEWLINE]
  }

  /** A message is dropped, and takes no id, unless the largest frame fits; otherwise its frame is the last. */
  function WriteOver(ring: seq<Frame>, cap: nat, lastAid: map<FileId, nat>,
                     f: FileId, header: seq<byte>, debug: nat -> seq<byte>, text: seq<byte>): Write
    requires f in lastAid
  {
    if cap < Weight(ring) + HEAD_SIZE + (|header| + MAX_MSG_LEN + 1) then Write(ring, lastAid, true)
    else
      var aid := lastAid[f] + 1;
      Write(ring + [Msg(f, aid, BodyOf(header, debug(aid), text))], lastAid[f := aid], false)
  }

  lemma WriteOverIs(ring: seq<Frame>, cap: nat, lastAid: map<FileId, nat>,
                    f: FileId, header: seq<byte>, debug: nat -> seq<byte>, text: seq<byte>)
    requires f in lastAid
    ensures var w, aid := WriteOver(ring, cap, lastAid, f, header, debug, text), lastAid[f] + 1;
      if cap - Weight(ring) < HEAD_SIZE + (|header| + MAX_MSG_LEN + 1) then w == Write(ring, lastAid, true)
      else w == Write(ring + [Msg(f, aid, BodyOf(header, debug(aid), text))], lastAid[f := aid], false)
    ensures BodyOf(header, debug(lastAid[f] + 1), text) == header + debug(lastAid[f] + 1) + text + [NEWLINE]
  {
  }

  // ------------------------------------------------------------------ the operations

  /** The counters of the open files, and what has been written to them. */
  class Files {
    var lastAid: map<FileId, nat>
    var currAid: map<FileId, nat>
    var written: map<FileId, seq<Body>>

    constructor ()
      ensures lastAid == map[] && currAid == map[] && written == map[]
    {
      lastAid, currAid, written := map[], map[], map[];
    }
  }

  class LogRing {
    const buf: Fmbuf
    ghost var frames: seq<Frame>

    ghost predicate Valid()
      reads this, buf, buf.buf
    {
      buf.Valid() && Layout(buf.Contents(), frames)
    }

    ghost predicate Open()
      reads this
    {
      Quit !in frames
    }

    constructor (capacity: nat)
      ensures Valid() && frames == [] && buf.size == capacity && fresh(buf) && fresh(buf.buf)
    {
      buf := new Fmbuf(capacity);
      frames := [];
    }

    /** _log_fill_async_msg: take the next id and lay out one frame. */
    method FillAsyncMsg(files: Files, f: FileId, header: seq<byte>, debug: nat -> seq<byte>, text: seq<byte>)
      returns (bytes: seq<byte>)
      requires f in files.lastAid && f < Pow256(8) && files.lastAid[f] + 1 < Pow256(4) / 2
      requires |header| + MAX_MSG_LEN + 1 < Pow256(2)
      requires forall a :: |debug(a)| + |text| <= MAX_MSG_LEN
      modifies files`lastAid
      ensures files.lastAid == old(files.lastAid)[f := old(files.lastAid)[f] + 1]
      ensures var x := Msg(f, files.lastAid[f], BodyOf(header, debug(files.lastAid[f]), text));
              bytes == Encode(x) && Encodable(x)
      ensures bytes[HEAD_SIZE..] == header + debug(files.lastAid[f]) + text + [NEWLINE]
      ensures |bytes| <= HEAD_SIZE + |header| + MAX_MSG_LEN + 1
    {
      var aid := files.lastAid[f] + 1;
      files.lastAid := files.lastAid[f := aid];
      var body := header + debug(aid);
      body := body + text;
      body := body + [NEWLINE];
      bytes := EncodeHead(f, aid, |body|) + body;
    }

    /** _log_async_write_f: reserve for the largest frame, then fill in place or by a copy; dropped if full.
        `tails` are the values the tail took; there are two exactly when a copied frame lands. */
    method AsyncWriteF(files: Files, f: FileId, header: seq<byte>, debug: nat -> seq<byte>, text: seq<byte>)
      returns (dropped: bool, ghost copied: bool, ghost tails: seq<nat>)
      requires Valid() && Open()
      requires f in files.lastAid && f < Pow256(8) && files.lastAid[f] + 1 < Pow256(4) / 2
      requires |header| + MAX_MSG_LEN + 1 < Pow256(2)
      requires forall a :: |debug(a)| + |text| <= MAX_MSG_LEN
      modifies this, files`lastAid, buf`tail, buf.buf
      ensures Valid() && Open()
      ensures Write(frames, files.lastAid, dropped)
           == WriteOver(old(frames), buf.size, old(files.lastAid), f, header, debug, text)
      ensures dropped <==> buf.size - |old(buf.Contents())| < HEAD_SIZE + (|header| + MAX_MSG_LEN + 1)
      ensures dropped ==> frames == old(frames) && files.lastAid == old(files.lastAid)
      ensures !dropped ==> var aid := old(files.lastAid)[f] + 1;
        && frames == old(frames) + [Msg(f, aid, header + debug(aid) + text + [NEWLINE])]
        && files.lastAid == old(files.lastAid)[f := aid]
      ensures dropped ==> buf.tail == old(buf.tail) && tails == []
      ensures !dropped ==> var n := FrameSize(frames[|frames| - 1]);
        && buf.tail == TailAfter(buf.size, old(buf.tail), n)
        && tails == (if copied && Lands(buf.size, old(buf.tail), n) then [buf.size + 1, 0] else [buf.tail])
        && (!copied ==> old(buf.tail) + n <= buf.size)
        && copied == Copies(buf.size, old(buf.tail), Weight(old(frames)), HEAD_SIZE + (|header| + MAX_MSG_LEN + 1))
    {
      hide Layout, Weight, EncodeAll, Encode, Window, EncodeHead, BodyOf, TailAfter, WriteOver, Copies, Lands;
      ghost var was, bytesWere, lastWas := frames, buf.Contents(), files.lastAid;
      LayoutPush(bytesWere, was, Quit);
      WriteOverIs(was, buf.size, lastWas, f, header, debug, text);
      var maxMsgLen := HEAD_SIZE + |header| + MAX_MSG_LEN + 1;
      if buf.Free() < maxMsgLen {
        return true, false, [];
      }
      var bytes := FillAsyncMsg(files, f, header, debug, text);
      copied, tails := Append(bytes, maxMsgLen);
      ghost var x := Msg(f, files.lastAid[f], BodyOf(header, debug(files.lastAid[f]), text));
      LayoutPush(bytesWere, was, x);
      frames := was + [x];
      return false, copied, tails;
    }

    /** The two ways to bring a filled frame in: in place when `reserved` bytes lie contiguous behind tail. */
    method Append(bytes: seq<byte>, reserved: nat) returns (ghost copied: bool, ghost tails: seq<nat>)
      requires buf.Valid() && 0 < |bytes| <= reserved <= buf.size - |buf.Contents()|
      modifies buf`tail, buf.buf
      ensures buf.Valid() && buf.Contents() == old(buf.Contents()) + bytes
      ensures copied <==> (if old(buf.tail) < buf.head then old(buf.Free()) else old(buf.TailFree())) < reserved
      ensures copied == Copies(buf.size, old(buf.tail), |old(buf.Contents())|, reserved)
      ensures buf.tail == TailAfter(buf.size, old(buf.tail), |bytes|)
      ensures tails == (if copied && Lands(buf.size, old(buf.tail), |bytes|) then [buf.size + 1, 0] else [buf.tail])
      ensures !copied ==> old(buf.tail) + |bytes| <= buf.size
    {
      var tailFree := if buf.tail < buf.head then buf.Free() else buf.TailFree();
      if tailFree >= reserved {
        copied := false;
        tails := AppendInPlace(bytes);
      } else {
        copied := true;
        var _, published := buf.Push(bytes);
        tails := published;
      }
    }

    /** Write behind tail without wrapping, then seek the tail: allowed when the space there is contiguous.
        The tail moves once and stays inside the cells. */
    method AppendInPlace(bytes: seq<byte>) returns (ghost tails: seq<nat>)
      requires buf.Valid() && |bytes| <= buf.size - |buf.Contents()|
      requires buf.tail < buf.head || |bytes| <= buf.size - buf.tail
      modifies buf`tail, buf.buf
      ensures buf.Valid() && buf.Contents() == old(buf.Contents()) + bytes
      ensures tails == [buf.tail] && buf.tail == old(buf.tail) + |bytes| <= buf.size
    {
      ghost var was, t := buf.buf[..], buf.tail;
      buf.Store(buf.tail, bytes);
      buf.TailSeek(|bytes|, true);
      tails := [buf.tail];
      WindowAppend(was, buf.head, t, bytes, buf.buf[..], buf.tail);
    }

    /** _user_thread_destroy: QUIT is lost exactly when not one byte is free, and lands exactly when the tail
        stands on the last cell. */
    method PushQuit() returns (lost: bool, ghost tails: seq<nat>)
      requires Valid() && Open()
      modifies this, buf`tail, buf.buf
      ensures Valid()
      ensures lost <==> Weight(old(frames)) == buf.size
      ensures frames == old(frames) + (if lost then [] else [Quit])
      ensures lost ==> tails == []
      ensures !lost ==> tails == if old(buf.TailFree()) == 0 then [buf.size + 1, 0] else [old(buf.tail) + 1]
    {
      hide Layout, Weight, EncodeAll;
      LayoutPush(buf.Contents(), frames, Quit);
      lost, tails := buf.Push([PTO_THREAD_QUIT]);
      if !lost {
        frames := frames + [Quit];
      }
    }

    /** _log_pto_fetch_msg: parse the head frame where it lies, wrapped or not, and take out exactly it. */
    method FetchMsg(files: Files) returns (wait: bool)
      requires Valid() && frames != [] && frames[0].Msg?
      requires frames[0].file in files.currAid && frames[0].file in files.written
      modifies this, files`currAid, files`written, buf`head
      ensures Valid()
      ensures wait <==> !NextFor(old(frames)[0], old(files.currAid))
      ensures wait ==>
        frames == old(frames) && files.currAid == old(files.currAid) && files.written == old(files.written)
      ensures !wait ==> var x := old(frames)[0];
        && frames == old(frames)[1..]
        && files.currAid == old(files.currAid)[x.file := old(files.currAid)[x.file] + 1]
        && files.written == old(files.written)[x.file := old(files.written)[x.file] + [x.body]]
    {
      hide Layout, EncodeAll, Encode, Window, DecodeHead;
      ghost var x := frames[0];
      LayoutHead(buf.Contents(), frames);
      if buf.Used() < HEAD_SIZE {
        return true;
      }
      var raw := buf.RawGet(true, HEAD_SIZE);
      var head := DecodeHead(raw.value);
      if head.aid != files.currAid[head.file] + 1 {
        return true;
      }
      files.currAid := files.currAid[head.file := files.currAid[head.file] + 1];
      var whole := buf.RawGet(true, HEAD_SIZE + head.len);
      if whole.None? {
        return true;
      }
      var body := whole.value[HEAD_SIZE..];
      assert body == x.body;
      files.written := files.written[head.file := files.written[head.file] + [body]];
      var _, _ := buf.Pop(HEAD_SIZE + head.len);
      frames := frames[1..];
      return false;
    }

    /** _log_async_process on the bytes: the protocol id at the head picks the handler. */
    method AsyncProcess(files: Files) returns (n: nat, quit: bool)
      requires Valid()
      requires forall i :: 0 <= i < |frames| && frames[i].Msg? ==>
                 frames[i].file in files.currAid && frames[i].file in files.written
      modifies this, files`currAid, files`written, buf`head
      ensures Valid()
      ensures Outcome(frames, files.currAid, files.written, n, quit)
           == PassOver(old(frames), old(files.currAid), old(files.written), 0)
      ensures quit ==> frames == []
      ensures n + |frames| + (if quit then 1 else 0) == |old(frames)|
      ensures quit || frames == [] ||
        var x := frames[0]; x.Msg? && x.file in files.currAid && x.aid != files.currAid[x.file] + 1
    {
      hide Layout, EncodeAll, Encode, Window, Weight, DecodeHead, EncodeHead;
      PassEnds(frames, files.currAid, files.written, 0);
      n, quit := 0, false;
      ghost var goal := PassOver(frames, files.currAid, files.written, 0);
      while true
        invariant Valid() && !quit
        invariant forall i :: 0 <= i < |frames| && frames[i].Msg? ==>
                    frames[i].file in files.currAid && frames[i].file in files.written
        invariant PassOver(frames, files.currAid, files.written, n) == goal
        decreases |frames|
      {
        LayoutEmpty(buf.Contents(), frames);
        if buf.Empty() {
          return;
        }
        LayoutHead(buf.Contents(), frames);
        var raw := buf.RawGet(true, 1);
        var id := raw.value[0];
        if id == PTO_THREAD_QUIT {
          var _, _ := buf.Pop(QUIT_SIZE);
          frames := frames[1..];
          quit := true;
          return;
        }
        var wait := FetchMsg(files);
        if wait {
          return;
        }
        n := n + 1;
      }
    }
  }
}
