/** GeoscanImageReceiver: the object that reassembles image fragments into
    files. Its methods update its fields in place, step by step, and each is
    proved to leave the object in the state the matching step function of
    Reassembly computes, so the lemmas proved there hold of the object. */
module Receiver {
  import opened Codec
  import opened AppFrame
  import opened Reassembly

  class GeoscanImageReceiver {
    /** Open (or closed) output files by id. */
    var files: map<FileId, ImageFile>
    var mergeMode: bool
    var baseOffset: nat
    var hasStarter: bool
    var hasSoi: nat
    var currentFid: Option<FileId>
    var prevDataSz: int
    var missCnt: nat
    /** Stands for the wall clock the source reads to name files. */
    var clock: nat

    /** The receiver's fields as a Reassembly state. */
    function Abs(): State
      reads this
    {
      State(files, mergeMode, baseOffset, hasStarter, hasSoi, currentFid, prevDataSz, missCnt, clock)
    }

    predicate Valid()
      reads this
    {
      Reassembly.Valid(Abs())
    }

    /** No files, merge mode off, no image in progress, no payload seen. */
    constructor ()
      ensures Abs() == Init() && Valid()
    {
      files := map[];
      mergeMode := false;
      baseOffset := BaseOffset;
      hasStarter, hasSoi := false, 0;
      currentFid := None;
      prevDataSz := -1;
      missCnt := 0;
      clock := 0;
    }

    method SetMergeMode(val: bool)
      modifies this
      ensures Abs() == old(Abs()).(mergeMode := val)
      ensures old(Valid()) ==> Valid()
    {
      mergeMode := val;
    }

    method GenerateFid() returns (fid: FileId)
      modifies this
      ensures Abs() == Reassembly.GenerateFid(old(Abs()))
      ensures currentFid == Some(fid)
    {
      if !(currentFid.Some? && mergeMode) {
        currentFid := Some(clock);
        clock := clock + 1;
      }
      fid := currentFid.value;
    }

    method NewFile(fid: FileId)
      modifies this
      ensures Abs() == Reassembly.NewFile(old(Abs()), fid)
    {
      files := files[fid := ImageFile([], true)];
    }

    method ForceNew()
      modifies this
      ensures Abs() == Reassembly.ForceNew(old(Abs()))
    {
      if currentFid.Some? && currentFid.value in files {
        files := files[currentFid.value := files[currentFid.value].(open := false)];
      }
      hasStarter, hasSoi, currentFid := false, 0, None;
      var fid := GenerateFid();
      NewFile(fid);
    }

    method ParseData(raw: seq<byte>) returns (frame: Option<Frame>)
      modifies this
      ensures (Abs(), frame) == Reassembly.ParseData(old(Abs()), raw)
    {
      var parsed := ParseFrame(raw);
      if parsed.Err? {
        return None;
      }
      var data := parsed.value;
      if data.marker != MarkerImg {
        missCnt := missCnt + 1;
        return None;
      }
      if data.mtype == CmdImgStart {
        if StartsWithSoi(data.data) {
          hasSoi := data.offset;
        }
        hasStarter := true;
        baseOffset := data.offset;
        data := data.(offset := 0);
        var _ := GenerateFid();
      } else if data.mtype == CmdImgFrame {
        if !hasStarter && hasSoi == 0 && StartsWithSoi(data.data) {
          baseOffset := data.offset;
          hasSoi := data.offset;
          var _ := GenerateFid();
        }
        var x := data.offset - baseOffset;
        if x < 0 {
          ForceNew();
          baseOffset := BaseOffset;
          x := data.offset - baseOffset;
        }
        data := data.(offset := x);
      } else {
        return None;
      }
      return Some(data);
    }

    method IsLastData(data: seq<byte>) returns (last: bool)
      modifies this
      ensures (Abs(), last) == Reassembly.IsLastData(old(Abs()), data)
    {
      var prevSz := prevDataSz;
      prevDataSz := |data|;
      last := prevDataSz < prevSz && HasEoi(data);
    }

    /** push_data: parse the frame and, when it is accepted, store it. */
    method PushData(raw: seq<byte>) returns (result: PushResult)
      requires Valid()
      modifies this
      ensures Valid()
      ensures (Abs(), result) == Reassembly.PushData(old(Abs()), raw)
    {
      ghost var st0 := Abs();
      var data := ParseData(raw);
      if data.None? {
        result := Ignored;
      } else {
        AcceptedOffset(st0, raw);
        result := Store(data.value);
      }
      PushIgnored(st0, raw);
      PushValid(st0, raw);
    }

    /** The rest of push_data once parse_data accepted a frame: write it
        into the current file, then check for the end of the image. */
    method Store(data: Frame) returns (result: PushResult)
      requires Valid()
      modifies this
      ensures Valid()
      ensures (Abs(), result) == Reassembly.Store(old(Abs()), data)
    {
      ghost var st1 := Abs();
      var fid := CurrentFile();
      var f := files[fid];
      files := files[fid := f.(content := WriteAt(f.content, data.offset, data.data))];
      ghost var written := Abs();
      assert written == WriteFrame(SelectTarget(st1), fid, data);
      var last := IsLastData(data.data);
      if last && !mergeMode {
        // Close the file and reset the image state.
        files, currentFid, baseOffset, hasStarter, hasSoi := CloseFile(files, fid), None, BaseOffset, false, 0;
        result := Completed;
      } else {
        result := Written;
      }
      assert (Abs(), result) == Reassembly.Store(st1, data);
      assert Valid() by {
        StoreWrites(st1, data);
      }
    }

    /** The id and handle push_data writes to: the current id or a generated
        one, with a file opened for it when the table has no handle. The
        handle is open, so the write that follows cannot meet a closed file. */
    method CurrentFile() returns (fid: FileId)
      requires Valid()
      modifies this
      ensures Abs() == SelectTarget(old(Abs())) && fid == Target(old(Abs()))
      ensures fid in files && files[fid].open
    {
      ghost var st1 := Abs();
      SelectTargetSpec(st1);
      // generate_fid always yields an id, so the source's second fallback
      // to current_fid never runs.
      if currentFid.Some? {
        fid := currentFid.value;
      } else {
        fid := GenerateFid();
      }
      if fid !in files {
        NewFile(fid);
      }
      currentFid := Some(fid);
    }
  }
}
