/** Where files lie in the torrent, and the three ways the program turns a file into a
    range of pieces. */
module Layouts {
  import opened Numbers

  /** A path below some root, as its components. */
  type Path = seq<string>

  /** A torrent of `total` bytes falls into pieces, the last one possibly short. */
  predicate Divided(pieceLength: int, total: int, numPieces: int) {
    pieceLength > 0 && total >= 0 && numPieces == CeilDiv(total, pieceLength)
  }

  predicate LiesIn(offset: int, size: int, total: int) {
    0 <= offset && 0 <= size && offset + size <= total
  }

  datatype FileEntry = FileEntry(path: Path, offset: int, size: int)

  datatype TorrentInfo = TorrentInfo(pieceLength: int, total: int, numPieces: int, files: seq<FileEntry>) {
    predicate WellLaid() {
      Divided(pieceLength, total, numPieces) && forall f :: f in files ==> LiesIn(f.offset, f.size, total)
    }

    /** The piece holding a byte of the torrent, and the byte's place in that piece. */
    function PieceFromOffset(offset: int): (int, int)
      requires pieceLength > 0
    {
      (GoDiv(offset, pieceLength), GoMod(offset, pieceLength))
    }

    /** First piece, last piece and offset in the first piece, as the schedulers take them. */
    function GetFilePiecesAndOffset(ind: nat): (int, int, int)
      requires pieceLength > 0 && ind < |files|
    {
      var (startPiece, offset) := PieceFromOffset(files[ind].offset);
      var (endPiece, _) := PieceFromOffset(files[ind].offset + files[ind].size);
      (startPiece, endPiece, offset)
    }
  }

  /** First and last piece as an open file takes them: it asks for its bytes 1 and size-1. */
  function GetPieces(pieceLength: int, fileOffset: int, fileSize: int): (int, int)
    requires pieceLength > 0
  {
    (GoDiv(fileOffset + 1, pieceLength), GoDiv(fileOffset + fileSize - 1, pieceLength))
  }

  /** The piece range a non-empty file really occupies is first byte to last byte.  The
      schedulers end one piece late exactly when the file ends on a piece boundary; an open
      file starts one piece late exactly when it begins on the last byte of a piece. */
  lemma RangesDisagreeOnlyAtBoundaries(info: TorrentInfo, ind: nat)
    requires info.WellLaid() && ind < |info.files| && info.files[ind].size > 0
    ensures var f := info.files[ind];
            var first := f.offset / info.pieceLength;
            var last := (f.offset + f.size - 1) / info.pieceLength;
            var (schedStart, schedEnd, _) := info.GetFilePiecesAndOffset(ind);
            var (openStart, openEnd) := GetPieces(info.pieceLength, f.offset, f.size);
            && schedStart == first
            && schedEnd == (if (f.offset + f.size) % info.pieceLength == 0 then last + 1 else last)
            && openEnd == last
            && openStart == (if f.offset % info.pieceLength == info.pieceLength - 1 then first + 1 else first)
  {
    var f := info.files[ind];
    SuccessorQuotient(f.offset + f.size - 1, info.pieceLength);
    SuccessorQuotient(f.offset, info.pieceLength);
  }

  /** One step on moves the quotient exactly when it lands on a multiple, that is, when it
      starts from the last remainder. */
  lemma SuccessorQuotient(a: int, b: int)
    requires b > 0 && a >= 0
    ensures (a + 1) / b == (if (a + 1) % b == 0 then a / b + 1 else a / b)
    ensures (a + 1) % b == 0 <==> a % b == b - 1
  {
    if a % b == b - 1 {
      NextPieceStartsAt(a, b, 1);
    } else {
      SamePiece(a, b, 1);
    }
  }
}
