/** Concrete runs of an open file in which what one might expect of torrentfs.go fails. */
module Runs {
  import opened Bitfields
  import opened Swarms
  import opened Handles
  import opened TorrentFiles
  import Seeking

  /** A file just opened, the schedule being these turns and then a hundred still ones less
      than 500 ms apart. */
  method Open(share: Share, world: World, turns: seq<Turn>) returns (file: TorrentFile)
    requires share.WellLaid() && Consistent(share, world)
    ensures file.Valid() && fresh(file) && fresh(file.handle) && fresh(file.pieces)
    ensures !file.updated && file.position == 0
    ensures file.handle.share == share && file.handle.world == world && file.handle.turns == 0
    ensures |file.handle.script| == |turns| + 100 && (forall k :: 0 <= k < |turns| ==> file.handle.script[k] == turns[k])
    ensures forall k :: |turns| <= k < |file.handle.script| ==> file.handle.script[k] == QUIET
  {
    var handle := new Handle(share, world, turns + seq(100, _ => QUIET));
    file := new TorrentFile(handle);
  }

  /** A seek forth and back: three pieces of one byte, the first held, all wanted.  The seek to
      the last piece leaves the middle one unwanted, the seek back lays nothing because its
      target is held, and the read gives up at the middle piece though the file is open.
      Only the first look refreshes the cache. */
  method SeekForthAndBack() returns (err: Error, open: bool)
    ensures err == Gone && open
  {
    var share := Share([10, 11, 12], 1, 3, 0, 3);
    assert share.PieceAt(0) == 0 && share.PieceAt(1) == 1 && share.PieceAt(2) == 2;
    var file := Open(share, World([10], {0}, [1, 1, 1], false, false), []);
    assert file.handle.Quiet();
    ghost var planned;
    var ok;
    ok, planned := file.Seek(2, Start);
    Seeking.SeekCoversTheRest(share, 2, 1);
    var data := new Byte[2];
    assert file.HeldTo(0, 1) && file.handle.world.PriorityOf(share.PieceAt(1)) == 0;
    var n;
    n, err, planned := file.SeekThenRead(0, data);
    open := !file.handle.world.closed;
  }

  /** The first look of an open file misses a piece that arrives right after it. */
  method LookBeforeArrival(file: TorrentFile)
    requires file.Valid() && !file.updated && file.handle.share.numPieces > 0
    requires Sound(file.handle.share, file.handle.world.disk, 0) && 0 !in file.handle.world.have
    requires file.handle.turns == 0 && |file.handle.script| > 4
    requires file.handle.script[0] == QUIET && file.handle.script[1] == QUIET.(actions := [GainPiece(0)])
    requires forall k :: 2 <= k < |file.handle.script| ==> file.handle.script[k] == QUIET
    modifies file`pieces, file`cached, file`updated, file.handle`world, file.handle`turns
    ensures file.Valid() && file.handle.Quiet() && file.Overlooked(0) && file.handle.turns == 2
    ensures file.handle.world == old(file.handle.world).(have := old(file.handle.world).have + {0})
  {
    var handle := file.handle;
    ghost var w0, actions := handle.world, [];
    var has;
    has, actions := file.HasPiece(0);
    assert handle.world == w0;
    var turn := handle.Yield();
    ghost var gained := w0.(have := w0.have + {0});
    assert turn.actions[0] == GainPiece(0) && turn.actions[1..] == [];
    assert Apply(handle.share, w0, turn.actions[0]) == gained;
    assert Play(handle.share, gained, []) == gained;
  }

  /** A file of three unwanted pieces, the first of which arrived after the only look so far. */
  method MissedArrival() returns (file: TorrentFile)
    ensures file.Valid() && fresh(file) && fresh(file.handle)
    ensures file.handle.Quiet() && file.Overlooked(0) && |file.handle.script| == file.handle.turns + 100
    ensures 0 in file.handle.world.have && file.handle.world.PriorityOf(0) == 0 && !file.handle.world.closed
    ensures file.handle.share.numPieces == 3
  {
    var share := Share([10, 11, 12], 1, 3, 0, 3);
    assert share.PieceAt(0) == 0 && share.PieceAt(1) == 1 && share.PieceAt(2) == 2;
    var arrival := QUIET.(actions := [GainPiece(0)]);
    file := Open(share, World([10], {}, [0, 0, 0], false, false), [QUIET, arrival]);
    var handle := file.handle;
    assert handle.script[0] == QUIET && handle.script[1] == arrival;
    LookBeforeArrival(file);
  }

  /** A held piece given up: it arrives after the first look, nobody wants it, and a
      wait that ends within 500 ms of that look does not see it. */
  method HeldButGivenUp() returns (err: Error, held: bool, open: bool)
    ensures err == Gone && held && open
  {
    var file := MissedArrival();
    ghost var actions;
    err, actions := file.WaitForPiece(0);
    held, open := 0 in file.handle.world.have, !file.handle.world.closed;
  }

  /** A seek from the end of a file of which nothing is on disk yet goes to the start. */
  method SeekFromShortEnd() returns (position: nat, size: nat)
    ensures position == 0 && size == 3
  {
    var share := Share([10, 11, 12], 1, 3, 0, 3);
    assert share.PieceAt(0) == 0 && share.PieceAt(1) == 1 && share.PieceAt(2) == 2;
    var file := Open(share, World([], {}, [1, 1, 1], false, false), []);
    assert file.handle.Quiet();
    var ok;
    ghost var planned;
    ok, planned := file.Seek(0, End);
    position, size := file.position, share.fileSize;
  }
}
