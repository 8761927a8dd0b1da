/** Whether the reported buffer can ever become full. */
module Buffering {
  import opened Numbers
  import opened Layouts
  import opened Schedules
  import opened Progress
  import Sessions

  /** libtorrent only ever speaks of pieces that exist. */
  ghost predicate Existing(o: Observation, numPieces: int) {
    && (forall q :: q in o.have ==> 0 <= q < numPieces)
    && (forall i :: 0 <= i < |o.queue| ==> 0 <= o.queue[i].piece < numPieces)
  }

  ghost predicate EndsTorrentOnBoundary(info: TorrentInfo, ind: nat)
    requires info.WellLaid() && ind < |info.files|
  {
    var end := info.files[ind].offset + info.files[ind].size;
    end == info.total && end % info.pieceLength == 0
  }

  ghost predicate CompletedAt(os: seq<Observation>, q: int) {
    exists o :: o in os && Completes(o, q)
  }

  /** After scheduling a file, however often progress is asked for, the reported buffer is 1
      exactly when every tracked piece was at some look held or had all its blocks -- unless
      the file ends the torrent on a piece boundary: then a piece that does not exist is
      tracked too, and the report never reaches 1. */
  lemma BufferFillsUnlessFileEndsTorrent(info: TorrentInfo, ind: nat, buffer: real, os: seq<Observation>)
    requires info.WellLaid() && ind < |info.files| && info.files[ind].size > 0
    requires 0.0 <= buffer <= 1.0
    requires forall o :: o in os ==> o.Sane() && Existing(o, info.numPieces)
    ensures var tracked := Sessions.Hurried(PlanFor(info, ind, buffer));
            var after := RefreshedInTurn(map q | q in tracked :: 0.0, os);
            && after.Keys == tracked && after != map[] && 0.0 <= Average(after) <= 1.0
            && (Average(after) == 1.0 <==>
                  !EndsTorrentOnBoundary(info, ind) && forall q :: q in tracked && q < info.numPieces ==> CompletedAt(os, q))
  {
    var p := PlanFor(info, ind, buffer);
    TrackedPieces(info, ind, buffer);
    TrackedAverage(Sessions.Hurried(p), p.endPiece, os);
    var after := RefreshedInTurn(map q | q in Sessions.Hurried(p) :: 0.0, os);
    if EndsTorrentOnBoundary(info, ind) {
      assert !CompletedAt(os, info.numPieces);
    }
  }

  /** Tracked are pieces that exist, and the first that does not exactly when the file ends
      the torrent on a piece boundary. */
  lemma TrackedPieces(info: TorrentInfo, ind: nat, buffer: real)
    requires info.WellLaid() && ind < |info.files| && info.files[ind].size > 0
    requires 0.0 <= buffer <= 1.0
    ensures var p := PlanFor(info, ind, buffer);
            && p.Urgent(p.endPiece)
            && (forall q :: p.Urgent(q) ==> 0 <= q <= info.numPieces)
            && (p.Urgent(info.numPieces) <==> EndsTorrentOnBoundary(info, ind))
  {
    var f := info.files[ind];
    OvershootIsOnePiece(info, ind, buffer);
    PlanIsOrderly(info, ind, buffer);
    EndsInTorrent(info, f.offset + f.size);
    SuccessorQuotient(f.offset + f.size - 1, info.pieceLength);
    QuotientIsMonotone(0, f.offset, info.pieceLength);
  }

  /** The average over pieces tracked from 0 is 1 exactly when each was complete at some look. */
  lemma TrackedAverage(tracked: set<int>, someone: int, os: seq<Observation>)
    requires someone in tracked && forall o :: o in os ==> o.Sane()
    ensures var after := RefreshedInTurn(map q | q in tracked :: 0.0, os);
            && after.Keys == tracked && after != map[] && 0.0 <= Average(after) <= 1.0
            && (Average(after) == 1.0 <==> forall q :: q in tracked ==> CompletedAt(os, q))
  {
    var start := map q | q in tracked :: 0.0;
    var after := RefreshedInTurn(start, os);
    forall q | q in tracked
      ensures after.Keys == tracked && InUnit(after)
      ensures after[q] == 1.0 <==> CompletedAt(os, q)
    {
      ProgressOverRuns(start, os, q);
    }
    assert someone in after;
    AverageIsOneWhenAllAre(after);
    assert forall q :: q in after <==> q in tracked;
  }
}
