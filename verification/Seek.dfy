/** The priority vector of a seek: nothing before the target, a short urgent stretch from it,
    the rest of the file behind that, nothing after. */
module Seeking {
  import opened Numbers
  import opened Layouts
  import opened Swarms

  /** What a vector of priorities makes of the present ones. */
  function Overlay(prio: seq<int>, v: seq<int>): (r: seq<int>)
    ensures |r| == |prio|
    ensures forall q :: 0 <= q < |prio| ==> r[q] == if q < |v| then v[q] else prio[q]
  {
    seq(|prio|, q requires 0 <= q < |prio| => if q < |v| then v[q] else prio[q])
  }

  const START_BUFFER_PERCENT: real := 0.005

  /** Length of the urgent stretch: half a percent of the file, at least one piece, but never
      as far as the last piece of the file. */
  function BuffPieces(startPiece: int, endPiece: int, piece: int): (n: int)
    ensures endPiece - startPiece > -200 ==>
              n == Min(Max(1, Ceil((endPiece - startPiece) as real * START_BUFFER_PERCENT)), endPiece - piece)
    ensures piece + n <= endPiece
  {
    var n := Ceil((endPiece - startPiece) as real * START_BUFFER_PERCENT);
    var m := if n == 0 then 1 else n;
    if piece + m > endPiece then endPiece - piece else m
  }

  function SeekPriority(piece: int, buffPieces: int, endPiece: int, q: int): int {
    if q < piece then 0
    else if q < piece + buffPieces then 7
    else if q <= endPiece then 1
    else 0
  }

  /** How far the four loops count. */
  function VectorLength(piece: int, endPiece: int, numPieces: int): int {
    Max(0, Max(piece, Max(endPiece + 1, numPieces)))
  }

  /** The four loops over one counter. */
  method SeekVector(piece: int, buffPieces: int, endPiece: int, numPieces: int) returns (v: seq<int>, urgent: seq<int>)
    requires piece + buffPieces <= endPiece
    ensures |v| == Max(0, Max(piece, Max(endPiece + 1, numPieces)))
    ensures forall q :: 0 <= q < |v| ==>
              v[q] == if q < piece then 0 else if q < piece + buffPieces then 7 else if q <= endPiece then 1 else 0
    ensures forall q :: q in urgent <==> 0 <= q < |v| && v[q] == 7
  {
    v, urgent := [], [];
    var curPiece := 0;
    while curPiece < piece
      invariant curPiece == |v| <= Max(0, piece)
      invariant forall q :: 0 <= q < |v| ==> v[q] == 0
    {
      v := v + [0];
      curPiece := curPiece + 1;
    }
    ghost var before := curPiece;
    while curPiece < piece + buffPieces
      invariant curPiece == |v| && before <= curPiece <= Max(before, piece + buffPieces)
      invariant forall q :: 0 <= q < |v| ==> v[q] == if q < before then 0 else 7
      invariant forall q :: q in urgent <==> before <= q < curPiece
    {
      v := v + [7];
      urgent := urgent + [curPiece];
      curPiece := curPiece + 1;
    }
    while curPiece <= endPiece
      invariant curPiece == |v| <= Max(|v|, endPiece + 1) && Max(before, piece + buffPieces) <= curPiece
      invariant curPiece <= Max(Max(before, piece + buffPieces), endPiece + 1)
      invariant forall q :: 0 <= q < |v| ==> v[q] == SeekPriority(piece, buffPieces, endPiece, q)
    {
      v := v + [1];
      curPiece := curPiece + 1;
    }
    while curPiece < numPieces
      invariant curPiece == |v| && Max(before, endPiece + 1) <= curPiece <= Max(Max(before, endPiece + 1), numPieces)
      invariant forall q :: 0 <= q < |v| ==> v[q] == SeekPriority(piece, buffPieces, endPiece, q)
    {
      v := v + [0];
      curPiece := curPiece + 1;
    }
  }

  /** What a seek to `offset` makes of piece `q`. */
  function SeekPlan(sh: Share, offset: int, q: int): int
    requires sh.WellLaid()
  {
    var (startPiece, endPiece) := GetPieces(sh.pieceLength, sh.fileOffset, sh.fileSize);
    SeekPriority(sh.PieceAt(offset), BuffPieces(startPiece, endPiece, sh.PieceAt(offset)), endPiece, q)
  }

  /** In numbers: 7 on the target piece and the half percent of the file behind it, but not on
      the file's last piece; 1 on the rest of the file from the target on; 0 elsewhere. */
  lemma SeekPlanOnNumbers(sh: Share, offset: int, q: int)
    requires sh.WellLaid() && offset >= 0 && sh.fileSize > 0
    ensures var piece, last := (sh.fileOffset + offset) / sh.pieceLength, (sh.fileOffset + sh.fileSize - 1) / sh.pieceLength;
            var span := last - (sh.fileOffset + 1) / sh.pieceLength;
            SeekPlan(sh, offset, q) ==
              if piece <= q < last && (q == piece || (q - piece) as real < span as real * 0.005) then 7
              else if piece <= q <= last then 1 else 0
  {
    FileSpansFewPiecesBackward(sh);
    var (startPiece, endPiece) := GetPieces(sh.pieceLength, sh.fileOffset, sh.fileSize);
    BelowCeiling(q - sh.PieceAt(offset), (endPiece - startPiece) as real * START_BUFFER_PERCENT);
  }

  lemma LastPieceIsInTorrent(sh: Share)
    requires sh.WellLaid()
    ensures GetPieces(sh.pieceLength, sh.fileOffset, sh.fileSize).1 <= sh.numPieces
  {
    var last := sh.fileOffset + sh.fileSize - 1;
    if last >= 0 {
      QuotientBelow(last, sh.pieceLength, sh.numPieces);
    } else {
      QuotientBelow(1, sh.pieceLength, 0);
    }
  }

  /** Even for an empty file the last piece is at most two before the first. */
  lemma FileSpansFewPiecesBackward(sh: Share)
    requires sh.WellLaid()
    ensures var (startPiece, endPiece) := GetPieces(sh.pieceLength, sh.fileOffset, sh.fileSize); endPiece - startPiece >= -2
  {
    var a, b := sh.fileOffset, sh.pieceLength;
    SuccessorQuotient(a, b);
    if a > 0 {
      SuccessorQuotient(a - 1, b);
      QuotientIsMonotone(a - 1, a + sh.fileSize - 1, b);
    } else if sh.fileSize > 0 {
      QuotientIsMonotone(0, sh.fileSize - 1, b);
    } else {
      QuotientBelow(1, b, 1);
    }
  }

  /** For a seek into the file the vector has one entry per piece; in general it has one entry
      per piece exactly when neither the target nor the file's last piece lies behind them all. */
  lemma InFileVectorFits(sh: Share, offset: int)
    requires sh.WellLaid()
    ensures var (_, endPiece) := GetPieces(sh.pieceLength, sh.fileOffset, sh.fileSize);
            && (0 <= offset < sh.fileSize ==> VectorLength(sh.PieceAt(offset), endPiece, sh.numPieces) == sh.numPieces)
            && (VectorLength(sh.PieceAt(offset), endPiece, sh.numPieces) == sh.numPieces <==>
                  sh.PieceAt(offset) <= sh.numPieces && endPiece < sh.numPieces)
  {
    LastPieceIsInTorrent(sh);
    if 0 <= offset < sh.fileSize {
      SeekCoversTheRest(sh, offset, offset);
    }
  }

  /** After a seek into the file the pieces wanted are exactly those from the target's to the
      file's last; so of the file's bytes exactly those from the start of the target piece on
      are wanted, and a later read before it waits for a piece of priority 0. */
  lemma SeekCoversTheRest(sh: Share, offset: int, at: int)
    requires sh.WellLaid() && 0 <= offset < sh.fileSize && 0 <= at < sh.fileSize
    ensures 0 <= sh.PieceAt(at) <= sh.PieceAt(sh.fileSize - 1) < sh.numPieces
    ensures SeekPlan(sh, offset, sh.PieceAt(at)) > 0 <==> sh.PieceAt(offset) <= sh.PieceAt(at)
    ensures offset <= at ==> sh.PieceAt(offset) <= sh.PieceAt(at)
    ensures forall q :: SeekPlan(sh, offset, q) > 0 <==> sh.PieceAt(offset) <= q <= sh.PieceAt(sh.fileSize - 1)
  {
    if offset <= at {
      QuotientIsMonotone(sh.fileOffset + offset, sh.fileOffset + at, sh.pieceLength);
    }
    QuotientIsMonotone(sh.fileOffset + at, sh.fileOffset + sh.fileSize - 1, sh.pieceLength);
    QuotientBelow(sh.fileOffset + sh.fileSize - 1, sh.pieceLength, sh.numPieces);
  }

  /** The urgent stretch begins at the target and has the promised length; the target is in it
      unless it is the file's last piece. */
  lemma SeekHurriesTheTarget(sh: Share, offset: int)
    requires sh.WellLaid() && 0 <= offset < sh.fileSize
    ensures forall q :: SeekPlan(sh, offset, q) == 7 <==>
                          sh.PieceAt(offset) <= q < sh.PieceAt(offset) + UrgentPieces(sh, offset)
    ensures SeekPlan(sh, offset, sh.PieceAt(offset)) == 7 <==> sh.PieceAt(offset) < sh.PieceAt(sh.fileSize - 1)
  {
    QuotientIsMonotone(sh.fileOffset + offset, sh.fileOffset + sh.fileSize - 1, sh.pieceLength);
    FileSpansFewPiecesBackward(sh);
  }

  /** max(1, ceil(0.5% of the file's pieces)), capped by the pieces left before the last. */
  function UrgentPieces(sh: Share, offset: int): int
    requires sh.WellLaid()
  {
    var (startPiece, endPiece) := GetPieces(sh.pieceLength, sh.fileOffset, sh.fileSize);
    Min(Max(1, Ceil((endPiece - startPiece) as real * START_BUFFER_PERCENT)), endPiece - sh.PieceAt(offset))
  }

  /** The vector of a seek to `offset`: the plan, and the pieces it hurries. */
  method PlanVector(sh: Share, offset: int) returns (v: seq<int>, urgent: seq<int>)
    requires sh.WellLaid()
    ensures var (_, endPiece) := GetPieces(sh.pieceLength, sh.fileOffset, sh.fileSize);
            |v| == VectorLength(sh.PieceAt(offset), endPiece, sh.numPieces)
    ensures |v| >= sh.numPieces && forall q :: 0 <= q < |v| ==> v[q] == SeekPlan(sh, offset, q)
    ensures forall q :: q in urgent <==> 0 <= q < sh.numPieces && SeekPlan(sh, offset, q) == 7
  {
    var (startPiece, endPiece) := GetPieces(sh.pieceLength, sh.fileOffset, sh.fileSize);
    var piece := sh.PieceAt(offset);
    LastPieceIsInTorrent(sh);
    v, urgent := SeekVector(piece, BuffPieces(startPiece, endPiece, piece), endPiece, sh.numPieces);
  }
}
