/** The package state of torrent2http.go and the functions that steer the download: choosing
    a file, laying priorities over its pieces and reporting how the buffer fills. */
module Sessions {
  import opened Numbers
  import opened Layouts
  import opened Schedules
  import opened Progress
  import opened Handles
  import opened Swarms
  import opened TorrentFiles

  const MIN_CANDIDATE_SIZE := 80 * 1024 * 1024
  const SMALL_FILE_SIZE := 10485760

  /** The pieces a head-and-tail plan hurries. */
  function Hurried(p: Plan): (s: set<int>)
    ensures forall q :: q in s <==> p.Urgent(q)
  {
    set q | p.startPiece <= q <= Max(p.endPiece, p.startPiece + p.headPieces) && p.Urgent(q)
  }

  /** The view an open file has of one file of the torrent. */
  ghost predicate IsViewOf(sh: Share, info: TorrentInfo, ind: nat)
    requires ind < |info.files|
  {
    && sh.pieceLength == info.pieceLength && sh.numPieces == info.numPieces && |sh.truth| == info.total
    && sh.fileOffset == info.files[ind].offset && sh.fileSize == info.files[ind].size
  }

  /** The file chosen for a configured index: that one if it is big enough, else the first of
      the biggest, and -1 exactly when no file has bytes. */
  ghost predicate IsChoice(files: seq<FileEntry>, fileIndex: int, chosen: int) {
    if 0 <= fileIndex < |files| && files[fileIndex].size > 83886080 then chosen == fileIndex
    else if chosen == -1 then forall i :: 0 <= i < |files| ==> files[i].size <= 0
    else
      && 0 <= chosen < |files| && files[chosen].size > 0
      && (forall i :: 0 <= i < |files| ==> files[i].size <= files[chosen].size)
      && (forall i :: 0 <= i < chosen ==> files[i].size < files[chosen].size)
  }

  /** Deadlines after a small file was chosen: 0 for its pieces, 1000 for every other wanted
      piece, the rest as before. */
  ghost predicate SmallFileDeadlines(before: map<int, int>, after: map<int, int>, w: World, range: (int, int)) {
    && (forall q :: range.0 <= q <= range.1 ==> q in after && after[q] == 0)
    && (forall q :: !(range.0 <= q <= range.1) && w.PriorityOf(q) > 0 ==> q in after && after[q] == 1000)
    && (forall q :: !(range.0 <= q <= range.1) && w.PriorityOf(q) <= 0 ==>
          (q in after <==> q in before) && (q in after ==> after[q] == before[q]))
  }

  /** Of the handle only the priorities, the deadlines and the number of pieces matter here. */
  class Session {
    const info: TorrentInfo
    const fileIndex: int
    const buffer: real
    const handle: Handle
    var fileEntryIdx: int
    var lastEntryIdx: int
    var filePriorities: seq<int>
    var bufferPiecesProgress: map<int, real>

    ghost predicate Valid()
      reads this, handle
    {
      && handle.Valid()
      && info.WellLaid()
      && handle.share.numPieces == info.numPieces
      && |filePriorities| == |info.files|
    }

    constructor (info: TorrentInfo, fileIndex: int, buffer: real, handle: Handle, filePriorities: seq<int>)
      requires handle.Valid() && info.WellLaid() && handle.share.numPieces == info.numPieces
      requires |filePriorities| == |info.files|
      ensures Valid() && this.info == info && this.handle == handle && this.filePriorities == filePriorities
      ensures fileEntryIdx == 0 && lastEntryIdx == 0 && bufferPiecesProgress == map[]
    {
      this.info, this.fileIndex, this.buffer, this.handle := info, fileIndex, buffer, handle;
      this.filePriorities, fileEntryIdx, lastEntryIdx, bufferPiecesProgress := filePriorities, 0, 0, map[];
    }

    /** The first of the biggest files, unless the configured one is big enough. */
    method ChooseFile() returns (chosen: int)
      ensures IsChoice(info.files, fileIndex, chosen) && -1 <= chosen < |info.files|
      ensures if 0 <= fileIndex < |info.files| && info.files[fileIndex].size > 83886080 then chosen == fileIndex
              else if chosen == -1 then forall i :: 0 <= i < |info.files| ==> info.files[i].size <= 0
              else
                && info.files[chosen].size > 0
                && (forall i :: 0 <= i < |info.files| ==> info.files[i].size <= info.files[chosen].size)
                && (forall i :: 0 <= i < chosen ==> info.files[i].size < info.files[chosen].size)
    {
      var biggestFileIndex, maxSize := -1, 0;
      var candidateFiles: set<int> := {};
      for i := 0 to |info.files|
        invariant -1 <= biggestFileIndex < i && maxSize >= 0
        invariant biggestFileIndex == -1 <==> maxSize == 0
        invariant biggestFileIndex >= 0 ==> maxSize == info.files[biggestFileIndex].size
        invariant forall k :: 0 <= k < i ==> info.files[k].size <= maxSize
        invariant forall k :: 0 <= k < biggestFileIndex ==> info.files[k].size < maxSize
        invariant forall k :: k in candidateFiles <==> 0 <= k < i && info.files[k].size > MIN_CANDIDATE_SIZE
      {
        var size := info.files[i].size;
        if size > maxSize {
          maxSize := size;
          biggestFileIndex := i;
        }
        if size > MIN_CANDIDATE_SIZE {
          candidateFiles := candidateFiles + {i};
        }
      }
      if fileIndex >= 0 {
        if fileIndex in candidateFiles {
          return fileIndex;
        }
      }
      return biggestFileIndex;
    }

    /** Lays head and tail of the chosen file: the urgent pieces are the tracked pieces are the
        pieces hurried in this call, and all progress restarts from 0. */
    method PrioritizePieces() returns (piecesPriorities: seq<int>)
      requires Valid() && 0 <= fileEntryIdx < |info.files|
      modifies this`bufferPiecesProgress, handle`world, handle`deadlines
      ensures Valid()
      ensures var p := PlanFor(info, fileEntryIdx, buffer);
              && |piecesPriorities| == p.Length(info.numPieces)
              && (forall q :: 0 <= q < |piecesPriorities| ==> piecesPriorities[q] == p.Priority(q))
              && (forall q :: q in Hurried(p) <==> 0 <= q < |piecesPriorities| && piecesPriorities[q] == 7)
              && bufferPiecesProgress == (map q | q in Hurried(p) :: 0.0)
              && handle.deadlines ==
                   (if lastEntryIdx >= 0 then map[] else old(handle.deadlines)) + (map q | q in Hurried(p) :: 0)
              && handle.world == old(handle.world).(prio := handle.world.prio)
              && forall q :: 0 <= q < info.numPieces ==> handle.world.prio[q] == p.Priority(q)
      ensures IsHeadAndTail(piecesPriorities, info.files[fileEntryIdx], info.pieceLength, buffer)
    {
      var v, urgent := ScheduleVector(info, fileEntryIdx, buffer);
      piecesPriorities := v;
      bufferPiecesProgress := map q | q in urgent :: 0.0;
      if lastEntryIdx >= 0 {
        handle.ClearPieceDeadlines();
      }
      handle.Hurry(urgent);
      handle.PrioritizePieces(v);
    }

    /** All pieces of the range that an open file is about to read are in this set. */
    ghost predicate RangeIn(file: TorrentFile, count: nat, wanted: set<int>)
      requires file.handle.share.WellLaid()
      reads file
    {
      forall o :: file.position <= o < file.position + count ==> file.handle.share.PieceAt(o) in wanted
    }

    /** The first missing piece of that range is not in the set. */
    ghost predicate StallsOutside(file: TorrentFile, count: nat, wanted: set<int>)
      requires file.handle.share.WellLaid()
      reads file, file.handle
    {
      exists o :: file.position <= o < file.position + count && file.HeldTo(file.position, o)
        && file.handle.share.PieceAt(o) !in file.handle.world.have && file.handle.share.PieceAt(o) !in wanted
    }

    /** The others rest, the file is open and the next look is right. */
    ghost predicate Undisturbed(file: TorrentFile)
      requires file.Valid()
      reads file, file.pieces, file.handle
    {
      file.handle.Quiet() && file.Fresh() && !file.handle.world.closed
    }

    /** A read inside a file when just these pieces are wanted. */
    method ReadWanted(file: TorrentFile, data: array<Byte>, ghost wanted: set<int>) returns (n: nat, err: Error)
      requires file.Valid() && data as object != file.pieces && file.position + data.Length <= file.handle.share.fileSize
      requires forall q :: 0 <= q < file.handle.share.numPieces ==> (file.handle.world.prio[q] != 0 <==> q in wanted)
      modifies file, file.handle`world, file.handle`turns, file.handle`deadlines, data
      ensures n <= data.Length && data[..n] == TrueBytes(file.handle.share, old(file.position), n)
      ensures old(RangeIn(file, data.Length, wanted)) ==>
                && (ScriptLeavesPriorities(file.handle.script) && err == Gone ==> file.handle.world.closed)
                && (old(file.handle.Quiet() && !file.handle.world.closed) ==> err != Gone)
      ensures old(Undisturbed(file)) ==> (err == Gone <==> old(StallsOutside(file, data.Length, wanted)))
    {
      forall o | file.position <= o < file.position + data.Length
        ensures 0 <= file.handle.share.PieceAt(o) < file.handle.share.numPieces
      {
        file.InFileMeansInTorrent(o);
      }
      ghost var es;
      n, err, es := file.Read(data);
      if n == 0 {
        assert data[..n] == TrueBytes(file.handle.share, old(file.position), n);
      }
    }

    /** The pieces that the schedule of the present file wants. */
    ghost function PlannedPieces(): set<int>
      requires info.WellLaid() && 0 <= fileEntryIdx < |info.files|
      reads this
    {
      set q | 0 <= q < info.numPieces && PlanFor(info, fileEntryIdx, buffer).Priority(q) != 0
    }

    /** Those of the present file, and every piece wanted before. */
    ghost function SelectedPieces(): set<int>
      requires Valid() && 0 <= fileEntryIdx < |info.files|
      reads this, handle
    {
      var (startPiece, endPiece, _) := info.GetFilePiecesAndOffset(fileEntryIdx);
      set q | 0 <= q < info.numPieces && (startPiece <= q <= endPiece || handle.world.prio[q] != 0)
    }

    /** Schedule one file, then read anywhere inside any file: a read of the scheduled file
        gives up only because the file was closed, unless somebody else changes priorities; a
        read of another one, undisturbed, exactly when its first missing piece is not in the plan. */
    method ScheduleThenRead(file: TorrentFile, ind: nat, data: array<Byte>) returns (n: nat, err: Error)
      requires Valid() && 0 <= fileEntryIdx < |info.files| && ind < |info.files|
      requires file.Valid() && file.handle == handle && IsViewOf(handle.share, info, ind)
      requires data as object != file.pieces && file.position + data.Length <= handle.share.fileSize
      modifies this`bufferPiecesProgress, file, handle`world, handle`turns, handle`deadlines, data
      ensures n <= data.Length && data[..n] == TrueBytes(handle.share, old(file.position), n)
      ensures ind == fileEntryIdx || old(RangeIn(file, data.Length, PlannedPieces())) ==>
                && (ScriptLeavesPriorities(handle.script) && err == Gone ==> handle.world.closed)
                && (old(handle.Quiet() && !handle.world.closed) ==> err != Gone)
      ensures old(Undisturbed(file)) ==>
                (err == Gone <==> old(StallsOutside(file, data.Length, PlannedPieces())))
    {
      var _ := PrioritizePieces();
      if ind == fileEntryIdx {
        forall o | file.position <= o < file.position + data.Length
          ensures handle.share.PieceAt(o) in PlannedPieces()
        {
          WholeFileIsWanted(info, ind, buffer, o);
          file.InFileMeansInTorrent(o);
        }
      }
      n, err := ReadWanted(file, data, PlannedPieces());
    }

    /** Select one small file, then read anywhere inside any file: a read of the selected file
        gives up only because the file was closed; a read of another one, undisturbed, exactly
        when its first missing piece was not wanted before and is not selected either. */
    method SelectThenRead(file: TorrentFile, ind: nat, data: array<Byte>) returns (n: nat, err: Error)
      requires Valid() && 0 <= fileEntryIdx < |info.files| && ind < |info.files|
      requires file.Valid() && file.handle == handle && IsViewOf(handle.share, info, ind)
      requires data as object != file.pieces && file.position + data.Length <= handle.share.fileSize
      modifies file, handle`world, handle`turns, handle`deadlines, data
      ensures n <= data.Length && data[..n] == TrueBytes(handle.share, old(file.position), n)
      ensures ind == fileEntryIdx || old(RangeIn(file, data.Length, SelectedPieces())) ==>
                && (ScriptLeavesPriorities(handle.script) && err == Gone ==> handle.world.closed)
                && (old(handle.Quiet() && !handle.world.closed) ==> err != Gone)
      ensures old(Undisturbed(file)) ==>
                (err == Gone <==> old(StallsOutside(file, data.Length, SelectedPieces())))
    {
      ghost var wanted := SelectedPieces();
      SelectSmallFile();
      if ind == fileEntryIdx {
        forall o | file.position <= o < file.position + data.Length
          ensures handle.share.PieceAt(o) in wanted
        {
          QuotientIsMonotone(info.files[ind].offset, info.files[ind].offset + o, info.pieceLength);
          QuotientIsMonotone(info.files[ind].offset + o, info.files[ind].offset + info.files[ind].size, info.pieceLength);
          file.InFileMeansInTorrent(o);
        }
      }
      n, err := ReadWanted(file, data, wanted);
    }

    /** One of the two outer loops over a small file's surroundings. */
    method Demote(from: int, limit: int) returns (curPiece: int)
      requires Valid() && from >= 0
      modifies handle`world, handle`deadlines
      ensures Valid() && curPiece == Max(from, limit)
      ensures handle.world == old(handle.world).(prio := handle.world.prio)
      ensures forall q :: 0 <= q < info.numPieces ==>
                handle.world.prio[q] ==
                  if from <= q < limit && old(handle.world).prio[q] > 0 then 1 else old(handle.world).prio[q]
      ensures forall q :: from <= q < limit && old(handle.world).PriorityOf(q) > 0 ==>
                q in handle.deadlines && handle.deadlines[q] == 1000
      ensures forall q :: !(from <= q < limit && old(handle.world).PriorityOf(q) > 0) ==>
                && (q in handle.deadlines <==> q in old(handle.deadlines))
                && (q in handle.deadlines ==> handle.deadlines[q] == old(handle.deadlines)[q])
    {
      curPiece := from;
      while curPiece < limit
        invariant Valid() && from <= curPiece <= Max(from, limit)
        invariant handle.world == old(handle.world).(prio := handle.world.prio)
        invariant forall q :: 0 <= q < info.numPieces ==>
                    handle.world.prio[q] ==
                      if from <= q < curPiece && old(handle.world).prio[q] > 0 then 1 else old(handle.world).prio[q]
        invariant forall q :: from <= q < curPiece && old(handle.world).PriorityOf(q) > 0 ==>
                    q in handle.deadlines && handle.deadlines[q] == 1000
        invariant forall q :: !(from <= q < curPiece && old(handle.world).PriorityOf(q) > 0) ==>
                  && (q in handle.deadlines <==> q in old(handle.deadlines))
                  && (q in handle.deadlines ==> handle.deadlines[q] == old(handle.deadlines)[q])
      {
        if handle.world.PriorityOf(curPiece) > 0 {
          handle.SetPiecePriority(curPiece, 1);
          handle.SetPieceDeadline(curPiece, 1000);
        }
        curPiece := curPiece + 1;
      }
    }

    /** The middle loop: the small file's own pieces. */
    method Promote(from: int, last: int) returns (curPiece: int)
      requires Valid() && from >= 0
      modifies handle`world, handle`deadlines
      ensures Valid() && curPiece == Max(from, last + 1)
      ensures handle.world == old(handle.world).(prio := handle.world.prio)
      ensures forall q :: 0 <= q < info.numPieces ==>
                handle.world.prio[q] == if from <= q <= last then 7 else old(handle.world).prio[q]
      ensures forall q :: from <= q <= last ==> q in handle.deadlines && handle.deadlines[q] == 0
      ensures forall q :: !(from <= q <= last) ==>
                && (q in handle.deadlines <==> q in old(handle.deadlines))
                && (q in handle.deadlines ==> handle.deadlines[q] == old(handle.deadlines)[q])
    {
      curPiece := from;
      while curPiece <= last
        invariant Valid() && from <= curPiece <= Max(from, last + 1)
        invariant handle.world == old(handle.world).(prio := handle.world.prio)
        invariant forall q :: 0 <= q < info.numPieces ==>
                    handle.world.prio[q] == if from <= q < curPiece then 7 else old(handle.world).prio[q]
        invariant forall q :: from <= q < curPiece ==> q in handle.deadlines && handle.deadlines[q] == 0
        invariant forall q :: !(from <= q < curPiece) ==>
                  && (q in handle.deadlines <==> q in old(handle.deadlines))
                  && (q in handle.deadlines ==> handle.deadlines[q] == old(handle.deadlines)[q])
      {
        handle.SetPiecePriority(curPiece, 7);
        handle.SetPieceDeadline(curPiece, 0);
        curPiece := curPiece + 1;
      }
    }

    /** The small-file branch: three loops over one counter. */
    method SelectSmallFile()
      requires Valid() && 0 <= fileEntryIdx < |info.files|
      modifies handle`world, handle`deadlines
      ensures Valid()
      ensures var f, pl := info.files[fileEntryIdx], info.pieceLength;
              var s, e, w := f.offset / pl, (f.offset + f.size) / pl, old(handle.world);
              && handle.world == w.(prio := Selected(w.prio, (s, e)))
              && (forall q :: 0 <= q < info.numPieces ==>
                    handle.world.prio[q] == if s <= q <= e then 7 else if w.prio[q] > 0 then 1 else w.prio[q])
              && (forall q :: s <= q <= e ==> q in handle.deadlines && handle.deadlines[q] == 0)
              && (forall q :: !(s <= q <= e) && w.PriorityOf(q) > 0 ==> q in handle.deadlines && handle.deadlines[q] == 1000)
              && (forall q :: !(s <= q <= e) && w.PriorityOf(q) <= 0 ==>
                    && (q in handle.deadlines <==> q in old(handle.deadlines))
                    && (q in handle.deadlines ==> handle.deadlines[q] == old(handle.deadlines)[q]))
    {
      var (startPiece, endPiece, _) := info.GetFilePiecesAndOffset(fileEntryIdx);
      PlanIsOrderly(info, fileEntryIdx, buffer);
      var curPiece := Demote(0, startPiece);
      curPiece := Promote(curPiece, endPiece);
      curPiece := Demote(curPiece, info.numPieces);
      assert handle.world.prio == Selected(old(handle.world).prio, (startPiece, endPiece));
    }

    /** The request handler.  A priority that did not parse leaves everything alone; the index
        is taken as parsed, and 9999 starts all files. */
    method PrioHandler(index: int, priority: int, parsed: bool)
      requires Valid()
      requires parsed && index != fileEntryIdx && priority != 9999 ==> 0 <= index < |info.files|
      requires parsed && index == fileEntryIdx ==> 0 <= index < |info.files|
      modifies this`fileEntryIdx, this`lastEntryIdx, this`filePriorities, this`bufferPiecesProgress
      modifies handle`world, handle`deadlines
      ensures Valid()
      ensures var asked := parsed && (index != old(fileEntryIdx) || old(filePriorities)[index] != priority);
              && (!asked ==> unchanged(this) && unchanged(handle))
              && (asked && priority == 9999 ==>
                    && filePriorities == seq(|info.files|, _ => 4)
                    && fileEntryIdx == old(fileEntryIdx) && lastEntryIdx == old(lastEntryIdx)
                    && handle.world == old(handle.world) && handle.deadlines == old(handle.deadlines))
              && (asked && priority != 9999 ==>
                    && filePriorities == old(filePriorities)[index := priority]
                    && fileEntryIdx == index && lastEntryIdx == old(fileEntryIdx)
                    && (if info.files[index].size > 10485760 then
                          && bufferPiecesProgress == (map q | q in Hurried(PlanFor(info, index, buffer)) :: 0.0)
                          && handle.deadlines ==
                               (if old(fileEntryIdx) >= 0 then map[] else old(handle.deadlines))
                                 + (map q | q in Hurried(PlanFor(info, index, buffer)) :: 0)
                          && forall q :: 0 <= q < info.numPieces ==>
                               handle.world.prio[q] == PlanFor(info, index, buffer).Priority(q)
                        else
                          var (startPiece, endPiece, _) := info.GetFilePiecesAndOffset(index);
                          && handle.world.prio == Selected(old(handle.world).prio, (startPiece, endPiece))
                          && SmallFileDeadlines(old(handle.deadlines), handle.deadlines, old(handle.world),
                                                (startPiece, endPiece))
                          && bufferPiecesProgress == old(bufferPiecesProgress)))
    {
      if parsed {
        if index != fileEntryIdx || filePriorities[index] != priority {
          if priority == 9999 {
            for i := 0 to |info.files|
              modifies this`filePriorities
              invariant |filePriorities| == |info.files|
              invariant forall k :: 0 <= k < i ==> filePriorities[k] == 4
            {
              filePriorities := filePriorities[i := 4];
            }
          } else {
            lastEntryIdx := fileEntryIdx;
            fileEntryIdx := index;
            filePriorities := filePriorities[index := priority];
            if info.files[index].size > SMALL_FILE_SIZE {
              var _ := PrioritizePieces();
            } else {
              SelectSmallFile();
            }
          }
        }
      }
    }

    method LayFilePriorities()
      requires |filePriorities| == |info.files|
      modifies this`filePriorities
      ensures |filePriorities| == |info.files|
      ensures forall i :: 0 <= i < |info.files| ==>
                filePriorities[i] == if fileIndex == 9999 then 4 else if fileIndex != -1 && i == fileEntryIdx then 7 else 0
    {
      for i := 0 to |info.files|
        invariant |filePriorities| == |info.files|
        invariant forall k :: 0 <= k < i ==>
                    filePriorities[k] ==
                      if fileIndex == 9999 then 4 else if fileIndex != -1 && k == fileEntryIdx then 7 else 0
      {
        if fileIndex == 9999 || fileIndex == -1 {
          filePriorities := filePriorities[i := if fileIndex == 9999 then 4 else 0];
        } else {
          filePriorities := filePriorities[i := if i == fileEntryIdx then 7 else 0];
        }
      }
    }

    /** Metadata has come: choose a file and, unless all or none were asked for, schedule it.
        Some file must have bytes in that case, or there is no file to schedule. */
    method OnMetadataReceived()
      requires Valid()
      requires fileIndex !in {9999, -1} ==> exists i :: 0 <= i < |info.files| && info.files[i].size > 0
      modifies this`fileEntryIdx, this`filePriorities, this`bufferPiecesProgress, handle`world, handle`deadlines
      ensures Valid()
      ensures forall i :: 0 <= i < |info.files| ==>
                filePriorities[i] == if fileIndex == 9999 then 4 else if fileIndex != -1 && i == fileEntryIdx then 7 else 0
      ensures IsChoice(info.files, fileIndex, fileEntryIdx)
      ensures fileIndex in {9999, -1} ==>
                && handle.deadlines == old(handle.deadlines) && handle.world == old(handle.world)
                && bufferPiecesProgress == old(bufferPiecesProgress)
      ensures fileIndex !in {9999, -1} ==>
                && 0 <= fileEntryIdx < |info.files|
                && handle.deadlines ==
                     (if lastEntryIdx >= 0 then map[] else old(handle.deadlines))
                       + (map q | q in Hurried(PlanFor(info, fileEntryIdx, buffer)) :: 0)
                && bufferPiecesProgress == (map q | q in Hurried(PlanFor(info, fileEntryIdx, buffer)) :: 0.0)
                && forall q :: 0 <= q < info.numPieces ==>
                     handle.world.prio[q] == PlanFor(info, fileEntryIdx, buffer).Priority(q)
    {
      fileEntryIdx := ChooseFile();
      LayFilePriorities();
      if fileIndex != 9999 && fileIndex != -1 {
        var _ := PrioritizePieces();
      }
    }

    /** Refreshes the tracked pieces in place, keys in any order and then the queue in order. */
    method PiecesProgress(o: Observation)
      requires o.Sane()
      modifies this`bufferPiecesProgress
      ensures bufferPiecesProgress == Refreshed(old(bufferPiecesProgress), o)
    {
      ghost var before := bufferPiecesProgress;
      var rest := bufferPiecesProgress.Keys;
      while rest != {}
        invariant rest <= bufferPiecesProgress.Keys && bufferPiecesProgress.Keys == before.Keys
        invariant forall q :: q in before ==>
                    bufferPiecesProgress[q] == if q in rest then before[q] else AfterHave(before, o.have)[q]
        decreases rest
      {
        assert (forall q :: q !in rest) ==> rest == {};
        var piece :| piece in rest;
        rest := rest - {piece};
        if piece in o.have {
          bufferPiecesProgress := bufferPiecesProgress[piece := 1.0];
        }
      }
      assert forall q :: q in bufferPiecesProgress ==> bufferPiecesProgress[q] == AfterHave(before, o.have)[q];
      assert bufferPiecesProgress == AfterHave(before, o.have);
      for i := 0 to |o.queue|
        invariant bufferPiecesProgress == AfterQueue(AfterHave(old(bufferPiecesProgress), o.have), o, i)
      {
        var ppi := o.queue[i];
        if ppi.piece in bufferPiecesProgress && bufferPiecesProgress[ppi.piece] != 1.0 {
          bufferPiecesProgress := bufferPiecesProgress[ppi.piece := Ratio(ppi, o.blockSize)];
        }
      }
    }

    /** The buffer value of the file report: the average of the refreshed values, or 0 while the
        torrent is being checked or nothing is tracked. */
    method BufferProgress(checking: bool, o: Observation) returns (bufferProgress: real)
      requires o.Sane()
      modifies this`bufferPiecesProgress
      ensures checking || old(bufferPiecesProgress) == map[] ==>
                bufferProgress == 0.0 && bufferPiecesProgress == old(bufferPiecesProgress)
      ensures !checking && old(bufferPiecesProgress) != map[] ==>
                && bufferPiecesProgress == Refreshed(old(bufferPiecesProgress), o) && bufferPiecesProgress != map[]
                && bufferProgress * |bufferPiecesProgress| as real == Total(bufferPiecesProgress)
                && bufferProgress == Average(bufferPiecesProgress)
    {
      bufferProgress := 0.0;
      if !checking {
        var length := |bufferPiecesProgress|;
        if length > 0 {
          PiecesProgress(o);
          var totalProgress := Sum();
          bufferProgress := totalProgress / length as real;
        }
      }
    }

    /** Adds the values up, keys in any order. */
    method Sum() returns (totalProgress: real)
      ensures totalProgress == Total(bufferPiecesProgress)
    {
      totalProgress := 0.0;
      var rest := bufferPiecesProgress;
      while rest.Keys != {}
        invariant rest.Keys <= bufferPiecesProgress.Keys
        invariant totalProgress + Total(rest) == Total(bufferPiecesProgress)
        decreases rest.Keys
      {
        SomeKey(rest);
        var piece :| piece in rest.Keys;
        TotalWithout(rest, piece);
        totalProgress := totalProgress + rest[piece];
        rest := rest - {piece};
      }
    }
  }
}
