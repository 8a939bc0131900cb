/** The image reassembly machine of GeoscanImageReceiver, as pure functions
    from one receiver state to the next. The class in receiver.dfy performs
    the same steps in place and is proved to agree with them; the lemmas
    here state what those steps promise. */
module Reassembly {
  import opened Codec
  import opened AppFrame

  const MarkerImg := 0x0001
  const CmdImgStart := 0x0901
  const CmdImgFrame := 0x0905
  const BaseOffset: nat := 0

  /** Identifiers of output files. The source derives them from the wall
      clock; here they are handed out by a counter, so each is new. */
  type FileId = nat

  /** An output file: its bytes and whether its handle is still open. */
  datatype ImageFile = ImageFile(content: seq<byte>, open: bool)

  datatype State = State(
    files: map<FileId, ImageFile>,
    mergeMode: bool,
    baseOffset: nat,
    hasStarter: bool,
    hasSoi: nat,            // the offset of the last SOI seen, 0 meaning none
    currentFid: Option<FileId>,
    prevDataSz: int,
    missCnt: nat,
    clock: nat)             // identifiers handed out so far

  /** The three outcomes of push_data: None, 1 and 2. */
  datatype PushResult = Ignored | Written | Completed

  function Init(): State
  {
    State(map[], false, BaseOffset, false, 0, None, -1, 0, 0)
  }

  /** Every identifier in use was handed out before, and the current file,
      if it has a handle, has an open one. */
  predicate Valid(st: State)
  {
    && (forall id :: id in st.files ==> id < st.clock)
    && (st.currentFid.Some? ==> st.currentFid.value < st.clock)
    && (st.currentFid.Some? && st.currentFid.value in st.files ==> st.files[st.currentFid.value].open)
  }

  // ------------------------------------------------------------ file writes

  function Zeros(n: nat): (z: seq<byte>)
    ensures |z| == n && forall i :: 0 <= i < n ==> z[i] == 0
  {
    seq(n, _ => 0)
  }

  /** seek(off) then write(p) on a file holding c: the file grows to cover
      the write, a gap past the old end reads as zero bytes, bytes
      [off, off + |p|) become p and every other byte is kept. */
  function WriteAt(c: seq<byte>, off: nat, p: seq<byte>): (r: seq<byte>)
    ensures |r| == if off + |p| > |c| then off + |p| else |c|
    ensures forall i :: 0 <= i < |r| ==>
              r[i] == if off <= i < off + |p| then p[i - off] else if i < |c| then c[i] else 0
  {
    var head := if off <= |c| then c[..off] else c + Zeros(off - |c|);
    var tail := if off + |p| < |c| then c[off + |p|..] else [];
    var r := head + p + tail;
    assert forall i :: 0 <= i < off ==> r[i] == head[i];
    assert forall i :: off <= i < off + |p| ==> r[i] == p[i - off];
    assert forall i :: off + |p| <= i < |r| ==> r[i] == tail[i - off - |p|];
    r
  }

  /** Writing the same bytes at the same place a second time changes nothing. */
  lemma WriteAtIdempotent(c: seq<byte>, off: nat, p: seq<byte>)
    ensures WriteAt(WriteAt(c, off, p), off, p) == WriteAt(c, off, p)
  {
    var once := WriteAt(c, off, p);
    var twice := WriteAt(once, off, p);
    assert |twice| == |once|;
    forall i | 0 <= i < |once| ensures twice[i] == once[i] {
    }
  }

  function CloseFile(files: map<FileId, ImageFile>, fid: FileId): map<FileId, ImageFile>
  {
    if fid in files then files[fid := files[fid].(open := false)] else files
  }

  // ------------------------------------------------------- file identity

  /** generate_fid: a new identifier unless one is current and merge mode is on. */
  function GenerateFid(st: State): State
  {
    if st.currentFid.Some? && st.mergeMode then st
    else st.(currentFid := Some(st.clock), clock := st.clock + 1)
  }

  /** new_file: open (and truncate) the file of fid. */
  function NewFile(st: State, fid: FileId): State
  {
    st.(files := st.files[fid := ImageFile([], true)])
  }

  /** force_new: close the current file, clear the flags and the current id,
      and open a file under a freshly generated id. */
  function ForceNew(st: State): State
  {
    var st1 := if st.currentFid.Some? then st.(files := CloseFile(st.files, st.currentFid.value)) else st;
    var st2 := st1.(hasStarter := false, hasSoi := 0, currentFid := None);
    var st3 := GenerateFid(st2);
    NewFile(st3, st3.currentFid.value)
  }

  /** generate_fid keeps the current id exactly when one is set and merge mode
      is on; otherwise the id it installs is not the old one and names no
      existing file. Nothing else but the id counter changes. */
  lemma GenerateFidSpec(st: State)
    requires Valid(st)
    ensures GenerateFid(st).currentFid.Some?
    ensures GenerateFid(st).currentFid == st.currentFid <==> st.currentFid.Some? && st.mergeMode
    ensures GenerateFid(st).currentFid != st.currentFid ==> GenerateFid(st).currentFid.value !in st.files
    ensures GenerateFid(st).(currentFid := st.currentFid, clock := st.clock) == st
    ensures Valid(GenerateFid(st))
  {
  }

  /** force_new closes the old current file but keeps it in the table, opens
      an empty file under a new id that becomes current, and clears
      has_starter and has_soi; base_offset, _prev_data_sz, merge mode and the
      miss counter are left as they were. */
  lemma ForceNewSpec(st: State)
    requires Valid(st)
    ensures var r := ForceNew(st);
      && r.currentFid == Some(st.clock) && st.clock !in st.files
      && r.files.Keys == st.files.Keys + {st.clock}
      && r.files[st.clock] == ImageFile([], true)
      && (forall id :: id in st.files && Some(id) != st.currentFid ==> r.files[id] == st.files[id])
      && (st.currentFid.Some? && st.currentFid.value in st.files ==>
            r.files[st.currentFid.value] == st.files[st.currentFid.value].(open := false))
      && !r.hasStarter && r.hasSoi == 0
      && r.baseOffset == st.baseOffset && r.prevDataSz == st.prevDataSz
      && r.mergeMode == st.mergeMode && r.missCnt == st.missCnt
      && Valid(r)
  {
  }

  // ----------------------------------------------------------- parse_data

  /** A FRAME starts an image implicitly when neither a START nor an SOI has
      been seen and its payload begins with FF D8. */
  predicate ImplicitStart(st: State, f: Frame)
  {
    !st.hasStarter && st.hasSoi == 0 && StartsWithSoi(f.data)
  }

  /** parse_data: decode the frame, count a wrong marker as a miss, and for
      START and FRAME messages update the offsets and flags and return the
      frame with its offset rewritten to the position to write at. */
  function ParseData(st: State, raw: seq<byte>): (State, Option<Frame>)
  {
    match ParseFrame(raw)
    case Err(_) => (st, None)
    case Ok(f) =>
      if f.marker != MarkerImg then
        (st.(missCnt := st.missCnt + 1), None)
      else if f.mtype == CmdImgStart then
        var st1 := if StartsWithSoi(f.data) then st.(hasSoi := f.offset) else st;
        var st2 := st1.(hasStarter := true, baseOffset := f.offset);
        (GenerateFid(st2), Some(f.(offset := 0)))
      else if f.mtype == CmdImgFrame then
        var st1 := if ImplicitStart(st, f) then GenerateFid(st.(baseOffset := f.offset, hasSoi := f.offset)) else st;
        var x := f.offset - st1.baseOffset;
        if x < 0 then
          var st2 := ForceNew(st1).(baseOffset := BaseOffset);
          (st2, Some(f.(offset := f.offset - st2.baseOffset)))
        else
          (st1, Some(f.(offset := x)))
      else
        (st, None)
  }

  /** A frame that does not decode returns None with no field changed. */
  lemma RejectMalformed(st: State, raw: seq<byte>)
    requires ParseFrame(raw).Err?
    ensures ParseData(st, raw) == (st, None)
  {
  }

  /** A frame with a marker other than 0x0001 returns None and only the miss
      counter changes, by exactly one. */
  lemma RejectMarker(st: State, raw: seq<byte>)
    requires ParseFrame(raw).Ok? && ParseFrame(raw).value.marker != MarkerImg
    ensures ParseData(st, raw) == (st.(missCnt := st.missCnt + 1), None)
  {
  }

  /** A frame with the image marker and any type other than START or FRAME
      returns None with no field changed. */
  lemma RejectType(st: State, raw: seq<byte>)
    requires ParseFrame(raw).Ok? && ParseFrame(raw).value.marker == MarkerImg
    requires ParseFrame(raw).value.mtype != CmdImgStart && ParseFrame(raw).value.mtype != CmdImgFrame
    ensures ParseData(st, raw) == (st, None)
  {
  }

  /** parse_data returns a frame exactly for decodable START and FRAME
      messages with the image marker; the frame it returns is the decoded one
      with its offset made relative to the new base_offset, which never lies
      past the declared offset. Every ParseData step keeps Valid. */
  lemma AcceptedOffset(st: State, raw: seq<byte>)
    requires Valid(st)
    ensures ParseData(st, raw).1.Some? <==>
              ParseFrame(raw).Ok? && ParseFrame(raw).value.marker == MarkerImg
              && (ParseFrame(raw).value.mtype == CmdImgStart || ParseFrame(raw).value.mtype == CmdImgFrame)
    ensures ParseData(st, raw).1.Some? ==>
              var f := ParseFrame(raw).value;
              var st' := ParseData(st, raw).0;
              && st'.baseOffset <= f.offset
              && ParseData(st, raw).1.value == f.(offset := f.offset - st'.baseOffset)
    ensures Valid(ParseData(st, raw).0)
  {
    GenerateFidSpec(st);
    ForceNewSpec(st);
    if ParseFrame(raw).Ok? {
      var f := ParseFrame(raw).value;
      GenerateFidSpec(st.(baseOffset := f.offset, hasSoi := f.offset));
      GenerateFidSpec(st.(hasStarter := true, baseOffset := f.offset));
      GenerateFidSpec(st.(hasSoi := f.offset, hasStarter := true, baseOffset := f.offset));
    }
  }

  /** START: the write goes to offset 0, base_offset becomes the declared
      offset, has_starter is set, has_soi takes the declared offset only when
      the payload begins with FF D8, and a file id is current (the old one
      exactly when one was set and merge mode is on). Files, the miss counter
      and _prev_data_sz are unchanged. */
  lemma StartSpec(st: State, raw: seq<byte>)
    requires Valid(st)
    requires ParseFrame(raw).Ok? && ParseFrame(raw).value.marker == MarkerImg
    requires ParseFrame(raw).value.mtype == CmdImgStart
    ensures var f := ParseFrame(raw).value;
      var (st', g) := ParseData(st, raw);
      && g == Some(f.(offset := 0))
      && st'.baseOffset == f.offset
      && st'.hasStarter
      && st'.hasSoi == (if StartsWithSoi(f.data) then f.offset else st.hasSoi)
      && st'.currentFid.Some?
      && (st'.currentFid == st.currentFid <==> st.currentFid.Some? && st.mergeMode)
      && st'.files == st.files && st'.missCnt == st.missCnt && st'.prevDataSz == st.prevDataSz
      && st'.mergeMode == st.mergeMode
  {
    var f := ParseFrame(raw).value;
    var st1 := if StartsWithSoi(f.data) then st.(hasSoi := f.offset) else st;
    GenerateFidSpec(st1.(hasStarter := true, baseOffset := f.offset));
  }

  /** FRAME, when the declared offset is not below the (possibly implicitly
      started) base: an implicit start happens exactly when ImplicitStart
      holds and sets base_offset and has_soi to the declared offset and makes
      a file id current (the old one exactly when one was set and merge mode
      is on), keeping the files, the miss counter, _prev_data_sz and merge
      mode; without one the state is unchanged. */
  lemma FrameInOrder(st: State, raw: seq<byte>)
    requires Valid(st)
    requires ParseFrame(raw).Ok? && ParseFrame(raw).value.marker == MarkerImg
    requires ParseFrame(raw).value.mtype == CmdImgFrame
    requires var f := ParseFrame(raw).value;
      ImplicitStart(st, f) || f.offset >= st.baseOffset
    ensures var f := ParseFrame(raw).value;
      var (st', g) := ParseData(st, raw);
      && (ImplicitStart(st, f) ==>
            && st'.baseOffset == f.offset && st'.hasSoi == f.offset && !st'.hasStarter
            && st'.currentFid.Some? && st'.files == st.files
            && (st'.currentFid == st.currentFid <==> st.currentFid.Some? && st.mergeMode)
            && st'.missCnt == st.missCnt && st'.prevDataSz == st.prevDataSz && st'.mergeMode == st.mergeMode
            && g == Some(f.(offset := 0)))
      && (!ImplicitStart(st, f) ==> st' == st && g == Some(f.(offset := f.offset - st.baseOffset)))
  {
    var f := ParseFrame(raw).value;
    GenerateFidSpec(st.(baseOffset := f.offset, hasSoi := f.offset));
  }

  /** FRAME with the declared offset below base_offset (so no implicit
      start): force_new runs, giving a new current id whose file is open and
      empty, cleared flags and the old current file closed; base_offset
      becomes BASE_OFFSET and the write goes to the declared offset minus it. */
  lemma FrameBackward(st: State, raw: seq<byte>)
    requires Valid(st)
    requires ParseFrame(raw).Ok? && ParseFrame(raw).value.marker == MarkerImg
    requires ParseFrame(raw).value.mtype == CmdImgFrame
    requires var f := ParseFrame(raw).value;
      !ImplicitStart(st, f) && f.offset < st.baseOffset
    ensures var f := ParseFrame(raw).value;
      var (st', g) := ParseData(st, raw);
      && st' == ForceNew(st).(baseOffset := BaseOffset)
      && g == Some(f.(offset := f.offset - BaseOffset))
      && st'.currentFid == Some(st.clock) && st.clock !in st.files
      && st'.files[st.clock] == ImageFile([], true)
      && !st'.hasStarter && st'.hasSoi == 0
  {
    ForceNewSpec(st);
  }

  /** has_soi records the offset, so an SOI at offset 0 leaves it at 0 and
      the next FRAME whose payload begins with FF D8 starts an image again. */
  lemma SoiAtZeroStaysUnset(st: State, raw: seq<byte>, next: Frame)
    requires Valid(st)
    requires ParseFrame(raw).Ok? && ParseFrame(raw).value.marker == MarkerImg
    requires ParseFrame(raw).value.mtype == CmdImgFrame && ParseFrame(raw).value.offset == 0
    requires ImplicitStart(st, ParseFrame(raw).value)
    requires StartsWithSoi(next.data)
    ensures ParseData(st, raw).0.hasSoi == 0
    ensures ImplicitStart(ParseData(st, raw).0, next)
  {
    FrameInOrder(st, raw);
  }

  // --------------------------------------------------------- is_last_data

  /** is_last_data: remember this payload's size; the image is complete when
      the payload is strictly shorter than the previous one and holds FF D9. */
  function IsLastData(st: State, data: seq<byte>): (State, bool)
  {
    (st.(prevDataSz := |data|), |data| < st.prevDataSz && HasEoi(data))
  }

  /** is_last_data always records the payload size, and reports the end of
      an image exactly when the payload is strictly shorter than the one
      before and FF D9 occurs somewhere in it. */
  lemma IsLastDataSpec(st: State, data: seq<byte>)
    ensures IsLastData(st, data).0 == st.(prevDataSz := |data|)
    ensures IsLastData(st, data).1 <==> |data| < st.prevDataSz && exists i :: EoiAt(data, i)
  {
  }

  /** The first payload after construction never completes an image. */
  lemma FirstIsNeverLast(data: seq<byte>)
    ensures !IsLastData(Init(), data).1
  {
  }

  /** Payload sizes 200, 200, 150 with FF D9 in the last one (or any sizes
      n, n, m with m < n) complete exactly on the third payload, whether or
      not the first two hold FF D9, from any state whose previous size is
      at most n. */
  lemma CompletesOnShrink(st: State, p1: seq<byte>, p2: seq<byte>, p3: seq<byte>)
    requires st.prevDataSz <= |p1| && |p1| == |p2| && |p3| < |p2| && HasEoi(p3)
    ensures var (s1, l1) := IsLastData(st, p1);
      var (s2, l2) := IsLastData(s1, p2);
      var (s3, l3) := IsLastData(s2, p3);
      !l1 && !l2 && l3 && s3.prevDataSz == |p3|
  {
  }


  // ------------------------------------------------------------ push_data

  /** The id push_data writes under, given the state parse_data left: the
      current id, or the one generate_fid hands out when none is current. */
  function Target(st: State): FileId
  {
    if st.currentFid.Some? then st.currentFid.value else st.clock
  }

  /** Make Target(st) current and give it a handle, opening a new file only
      when the table has none for it. */
  function SelectTarget(st: State): State
  {
    var st1 := if st.currentFid.Some? then st else GenerateFid(st);
    var fid := Target(st);
    if fid in st1.files then st1 else NewFile(st1, fid)
  }

  /** The handle selected is open, it is the old one when there was one and
      an empty file otherwise, and no other file changes. */
  lemma SelectTargetSpec(st: State)
    requires Valid(st)
    ensures var r := SelectTarget(st);
      var t := Target(st);
      && r.currentFid == Some(t)
      && r.files.Keys == st.files.Keys + {t}
      && r.files[t] == (if t in st.files then st.files[t] else ImageFile([], true))
      && r.files[t].open
      && (forall id :: id in st.files && id != t ==> r.files[id] == st.files[id])
      && r.(files := st.files, currentFid := st.currentFid, clock := st.clock) == st
      && Valid(r)
  {
  }

  /** seek(offset); write(data) on the handle of fid. */
  function WriteFrame(st: State, fid: FileId, f: Frame): State
    requires fid in st.files
  {
    st.(files := st.files[fid := st.files[fid].(content := WriteAt(st.files[fid].content, f.offset, f.data))])
  }

  /** What push_data does once an image is complete outside merge mode. */
  function Complete(st: State, fid: FileId): State
  {
    st.(files := CloseFile(st.files, fid), currentFid := None, baseOffset := BaseOffset,
        hasStarter := false, hasSoi := 0)
  }

  /** The part of push_data after a frame was accepted: write the payload
      at its rewritten offset into the target file (generating an id and
      opening the file when needed), run is_last_data, and when it holds
      outside merge mode close the file and reset the image state. The
      handle written is always open, so the error Python raises on a write
      to a closed file never arises. */
  function Store(st: State, f: Frame): (State, PushResult)
    requires Valid(st)
  {
    SelectTargetSpec(st);
    var fid := Target(st);
    var (st1, last) := IsLastData(WriteFrame(SelectTarget(st), fid, f), f.data);
    if last && !st1.mergeMode then (Complete(st1, fid), Completed) else (st1, Written)
  }

  /** push_data: parse the frame, then store it when it is accepted. */
  function PushData(st: State, raw: seq<byte>): (State, PushResult)
    requires Valid(st)
  {
    var (st1, parsed) := ParseData(st, raw);
    if parsed.None? then
      (st1, Ignored)
    else
      AcceptedOffset(st, raw);
      Store(st1, parsed.value)
  }

  /** push_data returns None exactly when parse_data does, keeping its state;
      otherwise it stores the frame parse_data returned. */
  lemma PushIgnored(st: State, raw: seq<byte>)
    requires Valid(st)
    ensures PushData(st, raw).1 == Ignored <==> ParseData(st, raw).1.None?
    ensures PushData(st, raw).1 == Ignored ==> PushData(st, raw).0 == ParseData(st, raw).0
    ensures ParseData(st, raw).1.Some? ==>
              Valid(ParseData(st, raw).0) && PushData(st, raw) == Store(ParseData(st, raw).0, ParseData(st, raw).1.value)
  {
    AcceptedOffset(st, raw);
  }

  /** A stored frame goes to the target file, which is open when written:
      its new content is the positioned write of the payload into its old
      content, or into an empty file when it had none. No other file changes
      and none is removed; _prev_data_sz becomes the payload size. Valid is
      kept. */
  lemma StoreWrites(st: State, f: Frame)
    requires Valid(st)
    ensures var fid := Target(st);
      var r := Store(st, f).0;
      && (fid in st.files ==> st.files[fid].open)
      && r.files.Keys == st.files.Keys + {fid}
      && r.files[fid].content == WriteAt(if fid in st.files then st.files[fid].content else [], f.offset, f.data)
      && (forall id :: id in st.files && id != fid ==> r.files[id] == st.files[id])
      && r.prevDataSz == |f.data|
      && r.mergeMode == st.mergeMode && r.missCnt == st.missCnt
      && Valid(r)
  {
    SelectTargetSpec(st);
  }

  /** The result is 2 exactly when the payload is shorter than the previous
      one, holds FF D9, and merge mode is off; then the file is closed, no id
      is current, base_offset is BASE_OFFSET and both flags are clear.
      Otherwise it is 1, the target is current and open, and the offsets and
      flags are unchanged. */
  lemma StoreOutcome(st: State, f: Frame)
    requires Valid(st)
    ensures var fid := Target(st);
      var (r, res) := Store(st, f);
      && res != Ignored
      && (res == Completed <==> |f.data| < st.prevDataSz && HasEoi(f.data) && !st.mergeMode)
      && (res == Completed ==>
            !r.files[fid].open && r.currentFid.None? && r.baseOffset == BaseOffset
            && !r.hasStarter && r.hasSoi == 0)
      && (res == Written ==>
            r.files[fid].open && r.currentFid == Some(fid)
            && r.baseOffset == st.baseOffset && r.hasStarter == st.hasStarter && r.hasSoi == st.hasSoi)
  {
    SelectTargetSpec(st);
  }

  /** Every push keeps Valid and never removes a file from the table. */
  lemma PushValid(st: State, raw: seq<byte>)
    requires Valid(st)
    ensures Valid(PushData(st, raw).0)
    ensures st.files.Keys <= PushData(st, raw).0.files.Keys
  {
    AcceptedOffset(st, raw);
    var (st1, g) := ParseData(st, raw);
    assert st.files.Keys <= st1.files.Keys by {
      var f := ParseFrame(raw);
      if f.Ok? && f.value.marker == MarkerImg && f.value.mtype == CmdImgFrame
         && !ImplicitStart(st, f.value) && f.value.offset < st.baseOffset {
        ForceNewSpec(st);
      }
    }
    if g.Some? {
      StoreWrites(st1, g.value);
    }
  }

  /** Replaying a START: pushing the same START frame twice in a row leaves
      the bytes of every file that existed after the first push unchanged,
      and the second push never completes an image. In merge mode both
      writes go to the same place of the same file; outside it the replay
      opens a new file. */
  lemma ReplayStart(st: State, raw: seq<byte>)
    requires Valid(st)
    requires ParseFrame(raw).Ok? && ParseFrame(raw).value.marker == MarkerImg
    requires ParseFrame(raw).value.mtype == CmdImgStart
    ensures Valid(PushData(st, raw).0)
    ensures var st1 := PushData(st, raw).0;
      var (st2, res) := PushData(st1, raw);
      && res == Written
      && (st1.mergeMode ==> st2.currentFid == st1.currentFid)
      && (forall id :: id in st1.files ==> id in st2.files && st2.files[id].content == st1.files[id].content)
  {
    ReplayFirstPush(st, raw);
    ReplaySecondPush(PushData(st, raw).0, raw);
  }

  /** After one push of a START frame: the file it went to holds exactly the
      positioned write of its payload at 0, _prev_data_sz is the payload
      size, and in merge mode that file stays current. */
  lemma ReplayFirstPush(st: State, raw: seq<byte>)
    requires Valid(st)
    requires ParseFrame(raw).Ok? && ParseFrame(raw).value.marker == MarkerImg
    requires ParseFrame(raw).value.mtype == CmdImgStart
    ensures var st1 := PushData(st, raw).0;
      var p := ParseFrame(raw).value.data;
      && Valid(st1)
      && st1.prevDataSz == |p|
      && (st1.mergeMode ==>
            && st1.currentFid.Some? && st1.currentFid.value in st1.files
            && exists c :: st1.files[st1.currentFid.value].content == WriteAt(c, 0, p))
  {
    PushValid(st, raw);
    PushIgnored(st, raw);
    StartSpec(st, raw);
    var (p1, g1) := ParseData(st, raw);
    StoreWrites(p1, g1.value);
    StoreOutcome(p1, g1.value);
    var fid := Target(p1);
    var c0 := if fid in p1.files then p1.files[fid].content else [];
    assert PushData(st, raw).0.files[fid].content == WriteAt(c0, 0, g1.value.data);
  }

  /** The second push of that START frame: it returns 1, keeps the current
      file in merge mode, and leaves every existing file's bytes as they were. */
  lemma ReplaySecondPush(st1: State, raw: seq<byte>)
    requires Valid(st1)
    requires ParseFrame(raw).Ok? && ParseFrame(raw).value.marker == MarkerImg
    requires ParseFrame(raw).value.mtype == CmdImgStart
    requires var p := ParseFrame(raw).value.data;
      && st1.prevDataSz == |p|
      && (st1.mergeMode ==>
            && st1.currentFid.Some? && st1.currentFid.value in st1.files
            && exists c :: st1.files[st1.currentFid.value].content == WriteAt(c, 0, p))
    ensures var (st2, res) := PushData(st1, raw);
      && res == Written
      && (st1.mergeMode ==> st2.currentFid == st1.currentFid)
      && (forall id :: id in st1.files ==> id in st2.files && st2.files[id].content == st1.files[id].content)
  {
    PushIgnored(st1, raw);
    StartSpec(st1, raw);
    var (p2, g2) := ParseData(st1, raw);
    StoreWrites(p2, g2.value);
    StoreOutcome(p2, g2.value);
    var fid := Target(p2);
    if fid in st1.files {
      // Only a kept id names an existing file, and ids are kept only in merge mode.
      assert st1.mergeMode && st1.currentFid == Some(fid);
      var c :| st1.files[fid].content == WriteAt(c, 0, g2.value.data);
      WriteAtIdempotent(c, 0, g2.value.data);
    }
  }

  /** Recovery from an offset that goes backwards: after a FRAME that starts
      an image implicitly at a positive offset and does not complete it, a
      FRAME with a smaller offset closes that image's file, keeping its
      bytes, and is written at its own declared offset into a new, empty
      file under a new id. */
  lemma BackwardOffsetRecovery(st: State, raw1: seq<byte>, raw2: seq<byte>)
    requires Valid(st) && !st.hasStarter && st.hasSoi == 0
    requires ParseFrame(raw1).Ok? && ParseFrame(raw1).value.marker == MarkerImg
    requires ParseFrame(raw1).value.mtype == CmdImgFrame
    requires StartsWithSoi(ParseFrame(raw1).value.data) && !HasEoi(ParseFrame(raw1).value.data)
    requires ParseFrame(raw2).Ok? && ParseFrame(raw2).value.marker == MarkerImg
    requires ParseFrame(raw2).value.mtype == CmdImgFrame
    requires ParseFrame(raw2).value.offset < ParseFrame(raw1).value.offset
    ensures Valid(PushData(st, raw1).0)
    ensures var st1 := PushData(st, raw1).0;
      var st2 := PushData(st1, raw2).0;
      var f2 := ParseFrame(raw2).value;
      && st1.currentFid.Some? && st1.clock !in st1.files
      && st1.currentFid.value in st1.files && st1.currentFid.value in st2.files && st1.clock in st2.files
      && st2.files[st1.currentFid.value] == st1.files[st1.currentFid.value].(open := false)
      && st2.files[st1.clock].content == WriteAt([], f2.offset, f2.data)
  {
    PushValid(st, raw1);
    var st1 := PushData(st, raw1).0;
    PushIgnored(st, raw1);
    PushIgnored(st1, raw2);
    FrameInOrder(st, raw1);
    var (p1, g1) := ParseData(st, raw1);
    StoreWrites(p1, g1.value);
    StoreOutcome(p1, g1.value);
    FrameBackward(st1, raw2);
    ForceNewSpec(st1);
    var (p2, g2) := ParseData(st1, raw2);
    StoreWrites(p2, g2.value);
  }
}
