/** The open file of torrentfs.go: a cached bitfield, a wait for each piece, a chunked read
    and a seek that lays piece priorities. */
module TorrentFiles {
  import opened Numbers
  import opened Layouts
  import opened Bitfields
  import opened Swarms
  import opened Handles
  import Seeking

  datatype Whence = Start | Current | End

  /** A bitfield that shows only pieces held, and one that shows just the pieces held. */
  ghost predicate SoundIndex(bits: seq<bool>, numPieces: int, have: set<int>) {
    forall i :: 0 <= i < numPieces && i < |bits| && bits[i] ==> i in have
  }

  ghost predicate ExactIndex(bits: seq<bool>, numPieces: int, have: set<int>) {
    forall i :: 0 <= i < numPieces ==> i < |bits| && bits[i] == (i in have)
  }

  class TorrentFile {
    const handle: Handle
    var pieces: array<bv8>
    var updated: bool
    var position: nat
    /** The cached bitfield as booleans. */
    ghost var cached: seq<bool>

    /** The cache never claims a piece that is not held. */
    ghost predicate Valid()
      reads this, pieces, handle
    {
      handle.Valid() && cached == Bits(pieces[..]) && SoundIndex(cached, handle.share.numPieces, handle.world.have)
    }

    constructor (handle: Handle)
      requires handle.Valid()
      ensures Valid() && this.handle == handle && !updated && position == 0 && fresh(pieces)
    {
      this.handle, updated, position := handle, false, 0;
      pieces, cached := new bv8[0], [];
    }

    /** The piece of a file position and the place in that piece. */
    function PieceFromOffset(offset: int): (int, int)
      requires handle.share.pieceLength > 0
    {
      (GoDiv(handle.share.fileOffset + offset, handle.share.pieceLength),
       GoMod(handle.share.fileOffset + offset, handle.share.pieceLength))
    }

    /** The cache shows this piece. */
    ghost predicate Shows(idx: int)
      reads this
    {
      0 <= Slot(idx) < |cached| && cached[Slot(idx)]
    }

    /** The cache shows just what is held. */
    ghost predicate CacheIsExact()
      reads this, handle
    {
      ExactIndex(cached, handle.share.numPieces, handle.world.have)
    }

    /** The next look finds the cache due: never filled yet, or old enough. */
    ghost predicate DueNext()
      requires handle.Valid()
      reads this, handle
    {
      !updated || handle.NextTurn().elapsed
    }

    /** The next look refreshes the cache: it is due, in a valid torrent state. */
    ghost predicate RefreshesNext()
      requires handle.Valid()
      reads this, handle
    {
      DueNext() && !handle.NextTurn().invalid
    }

    /** The next look will be right. */
    ghost predicate Fresh()
      requires handle.Valid()
      reads this, handle
    {
      RefreshesNext() || CacheIsExact()
    }

    /** Refreshes the cache when it is due, and fails, leaving it alone, when it is due in an
        invalid torrent state.  A fresh cache is long enough for every piece and agrees with
        the held set. */
    method UpdatePieces() returns (ok: bool, ghost actions: seq<Action>)
      requires Valid()
      modifies this`pieces, this`cached, this`updated, handle`world, handle`turns
      ensures Valid() && handle.turns == old(handle.AfterNext())
      ensures handle.Passed(old(handle.world), actions) && actions == old(handle.NextTurn()).actions
      ensures handle.world == handle.Later(old(handle.world), old(handle.turns), handle.turns)
      ensures old(handle.Quiet()) ==> handle.world == old(handle.world)
      ensures var turn := old(handle.NextTurn());
              && ok == ((old(updated) && !turn.elapsed) || !turn.invalid)
              && if (!old(updated) || turn.elapsed) && !turn.invalid then updated && fresh(pieces) && CacheIsExact()
                 else pieces == old(pieces) && cached == old(cached) && updated == old(updated)
    {
      var turn := handle.Yield();
      actions := turn.actions;
      if !updated || turn.elapsed {
        if turn.invalid {
          return false, actions;
        }
        var piecesBitsSize := handle.share.numPieces + 1;
        var piecesSliceSize := piecesBitsSize / 8;
        if piecesBitsSize % 8 > 0 {
          piecesSliceSize := piecesSliceSize + 1;
        }
        pieces := handle.PieceBytes(piecesSliceSize, turn.padding);
        updated, cached := true, Bits(pieces[..]);
      }
      ok := true;
    }

    /** Judged from the cache; a true answer is right now, whatever has happened since. */
    method HasPiece(idx: int) returns (has: bool, ghost actions: seq<Action>)
      requires Valid() && idx > -8
      modifies this`pieces, this`cached, this`updated, handle`world, handle`turns
      ensures Valid() && handle.turns == old(handle.AfterNext())
      ensures handle.Passed(old(handle.world), actions) && actions == old(handle.NextTurn()).actions
      ensures handle.world == handle.Later(old(handle.world), old(handle.turns), handle.turns)
      ensures var turn := old(handle.NextTurn());
              && (has <==> ((old(updated) && !turn.elapsed) || !turn.invalid) && Shows(idx))
              && if (!old(updated) || turn.elapsed) && !turn.invalid then updated && fresh(pieces) && CacheIsExact()
                 else pieces == old(pieces) && cached == old(cached) && updated == old(updated)
      ensures has && Slot(idx) < handle.share.numPieces ==> Slot(idx) in handle.world.have
      ensures old(handle.Quiet()) ==> handle.world == old(handle.world)
      ensures old(handle.Quiet() && Fresh()) ==> CacheIsExact()
      ensures old(handle.Quiet() && Fresh()) && 0 <= idx < handle.share.numPieces ==> (has <==> idx in handle.world.have)
    {
      var ok;
      ok, actions := UpdatePieces();
      if !ok {
        return false, actions;
      }
      has := GetBit(pieces, idx);
    }

    /** The next two looks will not refresh a cache that does not show this piece. */
    ghost predicate Overlooked(piece: nat)
      reads this, handle
    {
      && updated && !Shows(piece)
      && handle.turns + 1 < |handle.script|
      && !handle.script[handle.turns].elapsed && !handle.script[handle.turns + 1].elapsed
    }

    /** Since it stood as `before`, the cache was left alone or made exact. */
    ghost predicate CacheMoved(before: seq<bool>)
      reads this, handle
    {
      CacheIsExact() || cached == before
    }

    /** The piece is missing, or this cache does not show it. */
    ghost predicate MissingOrUnseen(cache: seq<bool>, piece: int)
      reads handle
    {
      piece in handle.world.have ==> !(0 <= Slot(piece) < |cache| && cache[Slot(piece)])
    }

    /** The very next look finds this piece. */
    ghost predicate FoundAtOnce(piece: nat)
      requires handle.Valid()
      reads this, handle
    {
      var turn := handle.NextTurn();
      if !updated || turn.elapsed then !turn.invalid && piece in Play(handle.share, handle.world, turn.actions).have
      else Shows(piece)
    }

    /** A wait would go on for ever: the others rest, the file is open, and the piece is wanted
        and missing. */
    ghost predicate Endless(piece: int)
      reads handle
    {
      && handle.Rested() && !handle.world.closed && handle.world.PriorityOf(piece) != 0
      && piece !in handle.world.have
    }

    /** Ends when the piece is there, when its priority is 0 or the file was closed, or --
        standing for a wait that goes on for ever -- when the others rest and the piece is
        missing, wanted, and the file open.  On the way no two turns in a row that would
        refresh the cache pass with the piece held, and after the first look no two turns with
        the file closed or the priority 0.  While the others rest the wait gives up exactly
        when it is bound to fail and the piece is missing, or held but overlooked by the first
        two looks, which are all that come before the tick. */
    method WaitForPiece(piece: nat) returns (err: Error, ghost actions: seq<Action>)
      requires Valid()
      modifies this`pieces, this`cached, this`updated, handle`world, handle`turns, handle`deadlines
      ensures Valid() && (pieces == old(pieces) || fresh(pieces))
      ensures handle.Passed(old(handle.world), actions) && handle.turns >= old(handle.turns)
      ensures err in {None, Gone, Pending}
      ensures err == None && piece < handle.share.numPieces ==> piece in handle.world.have
      ensures err == Gone ==> handle.world.closed || handle.world.PriorityOf(piece) == 0
      ensures err == Pending ==> Endless(piece)
      ensures old(handle.Doomed(piece)) ==> err != Pending && handle.turns <= old(handle.turns) + 3
      // what every turn of the wait left to be seen
      ensures handle.world == handle.Later(old(handle.world), old(handle.turns), handle.turns)
      ensures forall k :: old(handle.turns) < k < handle.turns - 1 ==>
                handle.KeepsWaiting(piece, old(handle.world), old(handle.turns), k)
      // while the others rest
      ensures old(handle.Quiet()) ==> handle.world == old(handle.world)
      ensures old(handle.Quiet()) ==> CacheMoved(old(cached)) && (err == Gone ==> !Shows(piece))
      ensures old(handle.Quiet() && Fresh()) ==> CacheIsExact()
      ensures old(handle.Quiet() && Fresh()) && piece < handle.share.numPieces ==>
                (err == None <==> piece in handle.world.have)
      ensures old(handle.Quiet()) && piece < handle.share.numPieces ==>
                (err == Gone <==> old(handle.Doomed(piece) && (piece !in handle.world.have || Overlooked(piece))))
      // the piece and the two behind it are asked for unless the first look finds it
      ensures piece < handle.share.numPieces && old(FoundAtOnce(piece)) ==>
                err == None && handle.turns == old(handle.AfterNext()) && handle.deadlines == old(handle.deadlines)
      ensures err != None || (piece < handle.share.numPieces && !old(FoundAtOnce(piece))) ==>
                handle.deadlines == old(handle.deadlines)[piece := piece - piece * 100]
                                      [piece + 1 := piece + 1 - piece * 100][piece + 2 := piece + 2 - piece * 100]
    {
      ghost var from, t0 := handle.world, handle.turns;
      var has;
      has, actions := HasPiece(piece);
      err := None;
      if !has {
        handle.AskFor(piece);
        err, actions := PollForPiece(piece, from, t0, actions);
      }
      assert handle.WaitedFor(piece, from, t0, handle.turns - 1);
    }

    /** What it means that a wait has ended so; `Retry` is a wait that goes on. */
    ghost predicate WaitEndsAs(piece: nat, err: Error)
      reads handle
    {
      match err
      case None => piece < handle.share.numPieces ==> piece in handle.world.have
      case Gone => handle.world.closed || handle.world.PriorityOf(piece) == 0
      case Pending => Endless(piece)
      case Retry => true
      case _ => false
    }

    /** The second look of a wait that began in the world `from` at turn `t0`, and the polling
        after it. */
    method PollForPiece(piece: nat, ghost from: World, ghost t0: nat, ghost earlier: seq<Action>)
      returns (err: Error, ghost actions: seq<Action>)
      requires Valid() && handle.Passed(from, earlier) && handle.Since(from, t0)
      requires handle.turns <= t0 + 1 && (handle.Rested() || handle.turns == t0 + 1)
      modifies this`pieces, this`cached, this`updated, handle`world, handle`turns
      ensures Valid() && (pieces == old(pieces) || fresh(pieces))
      ensures handle.Passed(from, actions) && handle.turns >= old(handle.turns)
      ensures WaitEndsAs(piece, err) && err != Retry
      ensures old(handle.Doomed(piece)) ==> err != Pending && handle.turns <= old(handle.turns) + 2
      ensures handle.Since(from, t0) && handle.WaitedFor(piece, from, t0, handle.turns - 1)
      ensures old(handle.Quiet()) ==> handle.world == old(handle.world)
      ensures old(handle.Quiet()) ==> CacheMoved(old(cached)) && (err == Gone ==> !Shows(piece))
      ensures old(handle.Quiet() && Fresh()) ==> CacheIsExact()
      ensures old(handle.Quiet() && Fresh()) && piece < handle.share.numPieces ==>
                (err == None <==> piece in handle.world.have)
      ensures old(handle.Quiet() && handle.Doomed(piece)) && piece < handle.share.numPieces ==>
                (err == None <==> if old(RefreshesNext()) then piece in old(handle.world).have else old(Shows(piece)))
    {
      ghost var middle, more, t1 := handle.world, [], handle.turns;
      var has;
      has, more := HasPiece(piece);
      handle.Chain(from, middle, earlier, more);
      handle.SinceStill(from, t0, middle, t1);
      handle.WaitBegins(piece, from, t0);
      err, actions := KeepPolling(piece, has, from, t0, earlier + more);
    }

    /** The polling loop, after a look with this result. */
    method KeepPolling(piece: nat, found: bool, ghost from: World, ghost t0: nat, ghost earlier: seq<Action>)
      returns (err: Error, ghost actions: seq<Action>)
      requires Valid() && handle.Passed(from, earlier) && handle.Since(from, t0)
      requires found && piece < handle.share.numPieces ==> piece in handle.world.have
      requires handle.turns <= t0 + 2 && handle.WaitedFor(piece, from, t0, handle.turns - 1)
      requires !found && !handle.Rested() ==>
                 handle.turns == t0 + 2 && handle.JustMissed(piece) && handle.WaitedFor(piece, from, t0, handle.turns)
      modifies this`pieces, this`cached, this`updated, handle`world, handle`turns
      ensures Valid() && (pieces == old(pieces) || fresh(pieces))
      ensures handle.Passed(from, actions) && handle.turns >= old(handle.turns)
      ensures WaitEndsAs(piece, err) && err != Retry
      ensures old(handle.Doomed(piece)) ==> err == (if found then None else Gone) && handle.turns <= old(handle.turns) + 1
      ensures handle.Since(from, t0) && handle.WaitedFor(piece, from, t0, handle.turns - 1)
      ensures old(handle.Quiet()) ==> handle.world == old(handle.world)
      ensures old(handle.Quiet()) ==> CacheMoved(old(cached))
      ensures old(handle.Quiet() && !Shows(piece)) && err == Gone ==> !Shows(piece)
      ensures found ==> err == None && handle.turns == old(handle.turns)
    {
      err, actions := if found then None else Retry, earlier;
      while err == Retry
        invariant Valid() && (pieces == old(pieces) || fresh(pieces))
        invariant handle.Passed(from, actions) && handle.turns >= old(handle.turns)
        invariant WaitEndsAs(piece, err)
        invariant old(handle.Doomed(piece)) && !found ==>
                    if err == Retry then handle.Doomed(piece) && handle.turns == old(handle.turns)
                    else err == Gone && handle.turns <= old(handle.turns) + 1
        invariant handle.Since(from, t0) && handle.WaitedFor(piece, from, t0, handle.turns - 1)
        invariant err == Retry && !handle.Rested() ==>
                    handle.turns >= t0 + 2 && handle.JustMissed(piece) && handle.WaitedFor(piece, from, t0, handle.turns)
        invariant old(handle.Quiet()) ==> handle.world == old(handle.world) && CacheMoved(old(cached))
        invariant old(handle.Quiet() && !Shows(piece)) && err != None ==> !Shows(piece)
        invariant found ==> err == None && handle.turns == old(handle.turns)
        decreases |handle.script| - handle.turns, err == Retry
      {
        var resting := handle.turns == |handle.script|;
        ghost var middle, t := handle.world, handle.turns;
        err, actions := Poll(piece, from, actions);
        handle.WaitGoesOn(piece, from, t0, middle, t, err == Gone);
        if resting && err == Retry {
          err := Pending;
        }
      }
    }

    /** One tick of the polling loop: it gives up or looks again. */
    method Poll(piece: nat, ghost from: World, ghost earlier: seq<Action>) returns (err: Error, ghost actions: seq<Action>)
      requires Valid() && handle.Passed(from, earlier)
      modifies this`pieces, this`cached, this`updated, handle`world, handle`turns
      ensures Valid() && (pieces == old(pieces) || fresh(pieces))
      ensures handle.Passed(from, actions) && old(handle.turns) <= handle.turns <= old(handle.turns) + 2
      ensures handle.world == handle.Later(old(handle.world), old(handle.turns), handle.turns)
      ensures WaitEndsAs(piece, err) && err != Pending && (err == Gone ==> handle.turns <= old(handle.turns) + 1)
      ensures err == Retry ==> handle.turns > old(handle.turns) || Endless(piece)
      ensures err == Retry && !handle.Rested() ==> handle.turns == old(handle.turns) + 2 && handle.JustMissed(piece)
      ensures err != Gone && !old(handle.Rested()) ==>
                var ticked := handle.Later(old(handle.world), old(handle.turns), old(handle.turns) + 1);
                !ticked.closed && ticked.PriorityOf(piece) != 0
      ensures old(handle.Doomed(piece)) ==> err == Gone
      ensures old(handle.Quiet()) ==> handle.world == old(handle.world) && CacheMoved(old(cached))
      ensures old(handle.Quiet() && !Shows(piece)) && err != None ==> !Shows(piece)
    {
      ghost var start, t := handle.world, handle.turns;
      var tick := handle.Yield();
      handle.Chain(from, start, earlier, tick.actions);
      actions := earlier + tick.actions;
      if handle.world.PriorityOf(piece) == 0 || handle.world.closed {
        return Gone, actions;
      }
      ghost var middle, more, t1 := handle.world, [], handle.turns;
      var has;
      has, more := HasPiece(piece);
      handle.Chain(from, middle, actions, more);
      handle.LaterJoins(start, t, t1, handle.turns);
      err, actions := if has then None else Retry, actions + more;
    }

    /** The piece at hand, and how much of what is left fits in it.  The chunk lies in that
        piece alone, and a position inside the file lies in a piece of the torrent. */
    method NextChunk(left: nat) returns (piece: nat, size: nat)
      requires handle.share.WellLaid() && left > 0
      ensures piece == handle.share.PieceAt(position) && 0 < size <= left
      ensures size < left ==> handle.share.PieceAt(position + size) == piece + 1
      ensures position < handle.share.fileSize ==> piece < handle.share.numPieces
      ensures forall o :: position <= o < position + size ==> handle.share.PieceAt(o) == piece
    {
      var sh := handle.share;
      var (p, pieceOffset) := PieceFromOffset(position);
      QuotientAndRemainder(sh.fileOffset + position, sh.pieceLength);
      QuotientIsMonotone(0, sh.fileOffset + position, sh.pieceLength);
      if position < sh.fileSize {
        QuotientBelow(sh.fileOffset + position, sh.pieceLength, sh.numPieces);
      }
      piece, size := p, left;
      if pieceOffset + size > sh.pieceLength {
        size := sh.pieceLength - pieceOffset;
        NextPieceStartsAt(sh.fileOffset + position, sh.pieceLength, size);
      }
      forall o | position <= o < position + size
        ensures sh.PieceAt(o) == piece
      {
        SamePiece(sh.fileOffset + position, sh.pieceLength, o - position);
      }
    }

    /** What each ending means: a wait is given up only when the file was closed or the piece
        at hand has priority 0, the end of the file is the true end however short the file on
        disk is, a failure is one of the file underneath, and a read goes on for ever only
        when a wait does. */
    ghost predicate EndsAs(err: Error)
      requires handle.share.WellLaid()
      reads this, handle
    {
      match err
      case Gone => handle.world.closed || handle.world.PriorityOf(handle.share.PieceAt(position)) == 0
      case Eof => position >= handle.share.fileSize
      case Failed => handle.world.shut || !ScriptWorks(handle.script)
      case Pending => Endless(handle.share.PieceAt(position))
      case _ => true
    }

    /** These bytes of the file lie in held pieces. */
    ghost predicate HeldTo(from: nat, to: nat)
      requires handle.share.WellLaid()
      reads handle
    {
      forall o :: from <= o < to ==> handle.share.PieceAt(o) in handle.world.have
    }

    /** The others rest, the next look will be right, and a read of so many bytes stays inside
        a file that is not shut. */
    ghost predicate Calm(from: nat, count: nat)
      requires handle.Valid()
      reads this, handle
    {
      handle.Quiet() && Fresh() && !handle.world.shut && from + count <= handle.share.fileSize
    }

    /** Reads a chunk that lies in held pieces as far as it lies in the file, after a wait that
        handed out nothing. */
    method ReadChunk(data: array<Byte>, pos: nat, size: nat, ghost w0: World, ghost waited: seq<Event>)
      returns (n1: nat, err: Error, ghost es: seq<Event>)
      requires Valid() && data as object != pieces
      requires size > 0 && pos + size <= data.Length && HeldTo(position, Min(position + size, handle.share.fileSize))
      requires handle.Streamed(w0, position, waited) && Delivered(waited) == []
      modifies this`position, handle`world, handle`turns, data
      ensures Valid() && n1 <= size && position == old(position) + n1
      ensures handle.Copied(w0, old(position), old(data[..]), data[..], pos, n1, es)
      ensures EndsAs(err) && (err != None ==> n1 == 0) && err != Gone && err != Pending
      ensures err == None && n1 == 0 ==> !ScriptTransfers(handle.script)
      ensures old(handle.turns) <= handle.turns <= old(handle.turns) + 1 + n1
      ensures err == Retry ==> handle.turns > old(handle.turns)
      ensures old(handle.Quiet()) ==> handle.world == old(handle.world)
      ensures old(handle.Quiet() && !handle.world.shut) && old(position) + size <= handle.share.fileSize ==>
                err == None && n1 == size
    {
      n1, err, es := handle.ReadAfter(position, data, pos, size, w0, waited);
      position := position + n1;
    }

    /** The wait of a round: it ends with a chunk that may be read, or without. */
    method WaitForChunk(left: nat) returns (size: nat, err: Error, ghost es: seq<Event>)
      requires Valid() && left > 0
      modifies this`pieces, this`cached, this`updated, handle`world, handle`turns, handle`deadlines
      ensures Valid() && (pieces == old(pieces) || fresh(pieces)) && 0 < size <= left
      ensures handle.Streamed(old(handle.world), position, es) && Delivered(es) == []
      ensures EndsAs(err) && err in {None, Gone, Pending}
      ensures err == None ==> HeldTo(position, Min(position + size, handle.share.fileSize))
      ensures handle.turns >= old(handle.turns) && (old(handle.Quiet()) ==> handle.world == old(handle.world))
      ensures old(handle.Quiet()) ==> CacheMoved(old(cached))
      ensures old(handle.Quiet()) && err == Gone ==> !Shows(handle.share.PieceAt(position))
      ensures old(handle.Quiet() && Fresh()) ==> CacheIsExact()
      ensures old(Calm(position, left)) ==>
                && (err == None ==> HeldTo(position, position + size))
                && (err != None ==> handle.share.PieceAt(position) !in handle.world.have)
    {
      var piece;
      ghost var w0, actions := handle.world, [];
      piece, size := NextChunk(left);
      err, actions := WaitForPiece(piece);
      es := [Burst(actions)];
      handle.BurstStreams(w0, position, actions);
    }

    /** One round of the read loop: wait for the piece, then read no further than its end.
        While the others rest, a held piece is read and a missing one is waited for. */
    method ReadPiece(data: array<Byte>, pos: nat, left: nat) returns (n1: nat, err: Error, ghost es: seq<Event>)
      requires Valid() && data as object != pieces
      requires left > 0 && pos + left <= data.Length
      modifies this`pieces, this`cached, this`updated, this`position, handle`world, handle`turns, handle`deadlines, data
      ensures Valid() && data as object != pieces && n1 <= left && position == old(position) + n1
      ensures handle.Copied(old(handle.world), old(position), old(data[..]), data[..], pos, n1, es)
      ensures EndsAs(err) && (err != None ==> n1 == 0)
      ensures err == None && n1 == 0 ==> !ScriptTransfers(handle.script)
      ensures handle.turns >= old(handle.turns) && (err == Retry ==> handle.turns > old(handle.turns))
      ensures old(handle.Quiet()) ==> handle.world == old(handle.world) && CacheMoved(old(cached))
      ensures old(handle.Quiet()) && err == Gone ==> !Shows(handle.share.PieceAt(position))
      ensures old(handle.Quiet() && Fresh()) ==> CacheIsExact()
      ensures old(Calm(position, left)) ==> Round(old(position), n1, err)
    {
      ghost var w0 := handle.world;
      var size;
      size, err, es := WaitForChunk(left);
      n1 := 0;
      if err == None {
        n1, err, es := ReadChunk(data, pos, size, w0, es);
      }
    }

    /** How a calm round settles: something read from a held piece, or a wait for a missing one
        that is given up when the file is closed or the piece unwanted, and never ends if not. */
    ghost predicate Round(start: nat, n1: nat, err: Error)
      requires handle.share.WellLaid()
      reads this, handle
    {
      && HeldTo(start, position) && (err == None <==> n1 > 0)
      && (err != None ==> handle.share.PieceAt(position) !in handle.world.have && err in {Gone, Pending})
    }

    /** How a calm read settles: it hands out the bytes before the first missing piece, all of
        them if none is missing; at that piece it gives up if the file is closed or the piece
        has priority 0, and else goes on for ever. */
    ghost predicate Settled(start: nat, count: nat, n: nat, err: Error)
      requires handle.share.WellLaid()
      reads this, handle
    {
      && position == start + n && HeldTo(start, position)
      && (n == count <==> err == None)
      && (err != None ==>
            && n < count && handle.share.PieceAt(position) !in handle.world.have
            && err == if handle.world.closed || handle.world.PriorityOf(handle.share.PieceAt(position)) == 0
                      then Gone else Pending)
    }

    /** A calm read under way: nothing missed so far. */
    ghost predicate UnderWay(start: nat, count: nat, n: nat, err: Error)
      requires handle.share.WellLaid()
      reads this, handle
    {
      if err == None then position == start + n && HeldTo(start, position) else Settled(start, count, n, err)
    }

    /** One more calm round. */
    lemma RoundGoesOn(start: nat, count: nat, n: nat, n1: nat, err: Error)
      requires handle.share.WellLaid() && Round(start + n, n1, err) && EndsAs(err)
      requires position == start + n + n1 && n < count && n + n1 <= count && (err != None ==> n1 == 0)
      requires HeldTo(start, start + n)
      ensures UnderWay(start, count, n + n1, err)
    {
    }

    /** One round on top of those before it. */
    method ReadRound(data: array<Byte>, n: nat, left: nat,
                     ghost w0: World, ghost start: nat, ghost buffer: seq<Byte>, ghost earlier: seq<Event>)
      returns (n1: nat, err: Error, ghost es: seq<Event>)
      requires Valid() && data as object != pieces && left > 0 && n + left == data.Length
      requires position == start + n && handle.Copied(w0, start, buffer, data[..], 0, n, earlier)
      modifies this`pieces, this`cached, this`updated, this`position, handle`world, handle`turns, handle`deadlines, data
      ensures Valid() && data as object != pieces && n1 <= left && position == start + n + n1
      ensures handle.Copied(w0, start, buffer, data[..], 0, n + n1, es)
      ensures EndsAs(err) && (err != None ==> n1 == 0)
      ensures err == None && n1 == 0 ==> !ScriptTransfers(handle.script)
      ensures handle.turns >= old(handle.turns) && (err == Retry ==> handle.turns > old(handle.turns))
      ensures old(handle.Quiet()) ==> handle.world == old(handle.world) && CacheMoved(old(cached))
      ensures old(handle.Quiet()) && err == Gone ==> !Shows(handle.share.PieceAt(position))
      ensures old(handle.Quiet() && Fresh()) ==> CacheIsExact()
      ensures old(Calm(position, left)) ==> Round(old(position), n1, err)
    {
      ghost var middle, before, chunk := handle.world, data[..], [];
      n1, err, chunk := ReadPiece(data, n, left);
      handle.CopyOn(w0, start, middle, buffer, before, data[..], n, n1, earlier, chunk);
      es := earlier + chunk;
    }

    /** The read loop is a run of the byte-by-byte gated reader. */
    method ReadPieces(data: array<Byte>) returns (n: nat, err: Error, ghost es: seq<Event>)
      requires Valid() && data as object != pieces
      modifies this`pieces, this`cached, this`updated, this`position, handle`world, handle`turns, handle`deadlines, data
      ensures Valid() && data as object != pieces && n <= data.Length && position == old(position) + n
      ensures handle.Copied(old(handle.world), old(position), old(data[..]), data[..], 0, n, es)
      ensures EndsAs(err) && err != Retry && (err != None ==> n < data.Length)
      ensures err == None && n < data.Length ==> !ScriptTransfers(handle.script)
      ensures handle.turns >= old(handle.turns) && (old(handle.Quiet()) ==> handle.world == old(handle.world))
      ensures old(handle.Quiet()) && err == Gone ==> MissingOrUnseen(old(cached), handle.share.PieceAt(position))
      ensures old(Calm(position, data.Length)) ==> Settled(old(position), data.Length, n, err)
    {
      ghost var w0, start, t0 := handle.world, position, handle.turns;
      ghost var calm := Calm(position, data.Length);
      var left := data.Length;
      n, err, es := 0, None, [];
      while left > 0 && err == None
        invariant Valid() && data as object != pieces
        invariant left >= 0 && n + left == data.Length && position == start + n
        invariant handle.Copied(w0, start, old(data[..]), data[..], 0, n, es)
        invariant EndsAs(err) && err != Retry && (err != None ==> n < data.Length)
        invariant handle.turns >= t0 && (old(handle.Quiet()) ==> handle.world == w0)
        invariant old(handle.Quiet()) ==> CacheMoved(old(cached)) && (err == Gone ==> !Shows(handle.share.PieceAt(position)))
        invariant calm ==> UnderWay(start, data.Length, n, err) && Fresh()
        decreases |handle.script| - handle.turns, left, err == None
      {
        var n1;
        n1, err, es := ReadRound(data, n, left, w0, start, old(data[..]), es);
        if calm {
          RoundGoesOn(start, data.Length, n, n1, err);
        }
        n := n + n1;
        left := left - n1;
        if err == Retry {
          err := None;
        } else if err == None && n1 == 0 {
          break;
        }
      }
    }

    /** Every piece of a range inside the file has a priority. */
    ghost predicate RangeIsWanted(from: nat, count: nat)
      requires handle.share.WellLaid()
      reads handle
    {
      && from + count <= handle.share.fileSize
      && forall o :: from <= o < from + count ==> handle.world.PriorityOf(handle.share.PieceAt(o)) != 0
    }

    /** The first missing piece of a range has priority 0. */
    ghost predicate StallsUnwanted(from: nat, count: nat)
      requires handle.share.WellLaid()
      reads handle
    {
      exists o :: from <= o < from + count && HeldTo(from, o)
        && handle.share.PieceAt(o) !in handle.world.have
        && handle.world.PriorityOf(handle.share.PieceAt(o)) == 0
    }

    /** The first missing byte of a range is one place only. */
    lemma FirstMissing(start: nat, count: nat, n: nat, err: Error)
      requires handle.share.WellLaid() && Settled(start, count, n, err) && !handle.world.closed
      ensures err == Gone <==> StallsUnwanted(start, count)
    {
      if err == Gone {
        assert HeldTo(start, position);
      }
      if StallsUnwanted(start, count) {
        var o :| start <= o < start + count && HeldTo(start, o)
          && handle.share.PieceAt(o) !in handle.world.have
          && handle.world.PriorityOf(handle.share.PieceAt(o)) == 0;
        assert position == o;
      }
    }

    /** In every interleaving with the others, judged from a stale cache and copied while they
        write, the bytes handed out are the true bytes of the file at the position read.  A
        read of wanted pieces gives up only because the file was closed.  While the others
        rest and the file is open, a read whose first look is right gives up exactly when the
        first missing piece of its range has priority 0; whatever the cache, it gives up only
        at a piece of priority 0 that is missing or was not shown by the cache. */
    method Read(data: array<Byte>) returns (n: nat, err: Error, ghost es: seq<Event>)
      requires Valid() && data as object != pieces
      modifies this`pieces, this`cached, this`updated, this`position, handle`world, handle`turns, handle`deadlines, data
      ensures Valid() && n <= data.Length && position == old(position) + n
      ensures n > 0 ==> old(position) + n <= handle.share.fileSize && data[..n] == TrueBytes(handle.share, old(position), n)
      ensures data[n..] == old(data[n..])
      ensures handle.Streamed(old(handle.world), old(position), es) && Delivered(es) == data[..n]
      ensures err != Retry && (err != None ==> n < data.Length || old(handle.world).shut)
      // what each ending means for the piece at hand
      ensures var piece := handle.share.PieceAt(position);
              && (err == Gone ==> handle.world.closed || handle.world.PriorityOf(piece) == 0)
              && (err == Eof ==> position >= handle.share.fileSize)
              && (err == Failed ==> handle.world.shut || !ScriptWorks(handle.script))
              && (err == Pending ==>
                    && handle.turns == |handle.script| && !handle.world.closed
                    && handle.world.PriorityOf(piece) != 0 && piece !in handle.world.have)
      ensures err == None && n < data.Length ==> !ScriptTransfers(handle.script)
      ensures old(handle.world).shut ==> n == 0 && err == Failed
      ensures ScriptLeavesPriorities(handle.script) && old(RangeIsWanted(position, data.Length)) && err == Gone ==>
                handle.world.closed
      ensures old(handle.Quiet()) ==> handle.world == old(handle.world)
      ensures old(handle.Quiet()) && !old(handle.world).closed && err == Gone ==>
                var piece := handle.share.PieceAt(position);
                handle.world.PriorityOf(piece) == 0 && MissingOrUnseen(old(cached), piece)
      ensures old(Calm(position, data.Length)) ==> Settled(old(position), data.Length, n, err)
      ensures old(Calm(position, data.Length)) && !old(handle.world).closed ==>
                (err == Gone <==> old(StallsUnwanted(position, data.Length)))
    {
      if handle.world.shut {
        return 0, Failed, [];
      }
      ghost var w0, start, before := handle.world, position, data[..];
      n, err, es := ReadPieces(data);
      GatedBytesAreTrue(handle.share, w0, start, es);
      assert data[..n] == data[..][0..n] && data[n..] == data[..][n..] && before[n..] == old(data[n..]);
      if old(Calm(position, data.Length)) && !w0.closed {
        FirstMissing(start, data.Length, n, err);
      }
    }

    /** The reprioritising branch of a seek: the others may act before the vector is handed over. */
    method LayPriorities(offset: int)
      requires Valid()
      modifies handle`world, handle`turns, handle`deadlines
      ensures Valid() && old(handle.turns) <= handle.turns <= old(handle.turns) + 1
      ensures old(handle.world).have <= handle.world.have
      ensures old(handle.Quiet()) ==> handle.world == old(handle.world).(prio := handle.world.prio)
      ensures forall q :: 0 <= q < handle.share.numPieces ==>
                handle.world.prio[q] == Seeking.SeekPlan(handle.share, offset, q)
      ensures offset >= 0 && handle.share.fileSize > 0 ==>
                var sh := handle.share;
                var piece := (sh.fileOffset + offset) / sh.pieceLength;
                var last := (sh.fileOffset + sh.fileSize - 1) / sh.pieceLength;
                var span := last - (sh.fileOffset + 1) / sh.pieceLength;
                forall q :: 0 <= q < sh.numPieces ==>
                  handle.world.prio[q] ==
                    if piece <= q < last && (q == piece || (q - piece) as real < span as real * 0.005) then 7
                    else if piece <= q <= last then 1 else 0
      ensures handle.deadlines == old(handle.deadlines)
                + map q | 0 <= q < handle.share.numPieces && Seeking.SeekPlan(handle.share, offset, q) == 7 :: 0
    {
      var v, urgent := Seeking.PlanVector(handle.share, offset);
      handle.Hurry(urgent);
      var _ := handle.Yield();
      handle.PrioritizePieces(v);
      if offset >= 0 && handle.share.fileSize > 0 {
        forall q | 0 <= q < handle.share.numPieces {
          Seeking.SeekPlanOnNumbers(handle.share, offset, q);
        }
      }
    }

    /** Then the file on disk is as long as the file. */
    ghost predicate LastPieceIsHeld()
      requires handle.share.WellLaid()
      reads handle
    {
      handle.share.fileSize > 0 && handle.share.PieceAt(handle.share.fileSize - 1) in handle.world.have
    }

    /** Moves the position of the file underneath; a shut file and a negative target refuse. */
    method SeekFile(offset: int, whence: Whence) returns (ok: bool)
      requires Valid()
      modifies this`position, handle`world, handle`turns
      ensures Valid() && old(handle.turns) <= handle.turns <= old(handle.turns) + 1
      ensures var target := match whence
                case Start => offset
                case Current => old(position) + offset
                case End => |handle.world.disk| + offset;
              ok == (!handle.world.shut && target >= 0) && position == if ok then target else old(position)
      ensures ok && whence == End ==>
                && (LastPieceIsHeld() ==> position == handle.share.fileSize + offset)
                && (position == handle.share.fileSize + offset <==> |handle.world.disk| == handle.share.fileSize)
      ensures old(handle.world).have <= handle.world.have && (old(handle.Quiet()) ==> handle.world == old(handle.world))
      ensures ScriptLeavesPriorities(handle.script) ==> handle.world.prio == old(handle.world).prio
    {
      var _ := handle.Yield();
      var target := match whence
        case Start => offset
        case Current => position + offset
        case End => |handle.world.disk| + offset;
      ok := !handle.world.shut && target >= 0;
      if ok {
        position := target;
      }
      if LastPieceIsHeld() {
        handle.HeldIsOnDisk(handle.share.fileSize - 1);
      }
    }

    /** While the next look is right, priorities are laid exactly for a missing target. */
    ghost predicate PlansRightly(offset: int, planned: bool)
      requires handle.share.WellLaid()
      reads this, handle
    {
      && CacheIsExact()
      && (0 <= offset < handle.share.fileSize ==> (planned <==> handle.share.PieceAt(offset) !in handle.world.have))
    }

    /** What a seek from the start does first: when the cache does not show the target piece it
        lays priorities. */
    method Prepare(offset: int) returns (planned: bool)
      requires Valid() && PieceFromOffset(offset).0 > -8
      modifies this`pieces, this`cached, this`updated, handle`world, handle`turns, handle`deadlines
      ensures Valid() && (pieces == old(pieces) || fresh(pieces))
      ensures old(handle.turns) <= handle.turns <= old(handle.turns) + 2
      ensures planned ==> forall q :: 0 <= q < handle.share.numPieces ==>
                handle.world.prio[q] == Seeking.SeekPlan(handle.share, offset, q)
      ensures handle.deadlines == if planned
                then old(handle.deadlines)
                       + map q | 0 <= q < handle.share.numPieces && Seeking.SeekPlan(handle.share, offset, q) == 7 :: 0
                else old(handle.deadlines)
      ensures !planned && ScriptLeavesPriorities(handle.script) ==> handle.world.prio == old(handle.world).prio
      ensures old(handle.world).have <= handle.world.have
      ensures 0 <= offset < handle.share.fileSize ==>
                && (!planned ==> handle.share.PieceAt(offset) in handle.world.have)
                && (planned && old(RefreshesNext()) ==> handle.share.PieceAt(offset) !in old(handle.world).have)
      ensures old(handle.Quiet()) ==>
                handle.world == if planned then old(handle.world).(prio := handle.world.prio) else old(handle.world)
      ensures old(handle.Quiet() && Fresh()) ==> PlansRightly(offset, planned)
    {
      planned := false;
      var (piece, _) := PieceFromOffset(offset);
      var has;
      ghost var actions;
      has, actions := HasPiece(piece);
      if !has {
        LayPriorities(offset);
        planned := true;
      }
      if 0 <= offset < handle.share.fileSize {
        InFileMeansInTorrent(offset);
      }
    }

    /** Seeks the embedded file; a seek from the start to a piece that the cache does not show
        lays priorities first.  Go panics on a piece of -8 or below. */
    method Seek(offset: int, whence: Whence) returns (ok: bool, ghost planned: bool)
      requires Valid() && (whence == Start ==> PieceFromOffset(offset).0 > -8)
      modifies this`pieces, this`cached, this`updated, this`position, handle`world, handle`turns, handle`deadlines
      ensures Valid() && (pieces == old(pieces) || fresh(pieces))
      ensures old(handle.turns) <= handle.turns <= old(handle.turns) + 3
      ensures var target := match whence
                case Start => offset
                case Current => old(position) + offset
                case End => |handle.world.disk| + offset;
              ok == (!handle.world.shut && target >= 0) && position == if ok then target else old(position)
      ensures ok && whence == End ==>
                && (LastPieceIsHeld() ==> position == handle.share.fileSize + offset)
                && (position == handle.share.fileSize + offset <==> |handle.world.disk| == handle.share.fileSize)
      // the plan stands until somebody else changes it, and dooms every wait before the target
      ensures planned ==> whence == Start
      ensures planned && (ScriptLeavesPriorities(handle.script) || old(handle.Quiet())) ==>
                forall q :: 0 <= q < handle.share.numPieces ==>
                  handle.world.prio[q] == Seeking.SeekPlan(handle.share, offset, q)
      ensures planned && (ScriptLeavesPriorities(handle.script) || old(handle.Quiet())) ==>
                forall q :: q < handle.share.PieceAt(offset) ==> handle.Doomed(q)
      ensures planned && (ScriptLeavesPriorities(handle.script) || old(handle.Quiet())) &&
              offset >= 0 && handle.share.fileSize > 0 ==>
                var sh := handle.share;
                var piece := (sh.fileOffset + offset) / sh.pieceLength;
                var last := (sh.fileOffset + sh.fileSize - 1) / sh.pieceLength;
                var span := last - (sh.fileOffset + 1) / sh.pieceLength;
                forall q :: 0 <= q < sh.numPieces ==>
                  handle.world.prio[q] ==
                    if piece <= q < last && (q == piece || (q - piece) as real < span as real * 0.005) then 7
                    else if piece <= q <= last then 1 else 0
      ensures handle.deadlines == if planned
                then old(handle.deadlines)
                       + map q | 0 <= q < handle.share.numPieces && Seeking.SeekPlan(handle.share, offset, q) == 7 :: 0
                else old(handle.deadlines)
      ensures !planned && ScriptLeavesPriorities(handle.script) ==> handle.world.prio == old(handle.world).prio
      // priorities are laid when the target piece is missing
      ensures old(handle.world).have <= handle.world.have
      ensures whence == Start && 0 <= offset < handle.share.fileSize ==>
                && (!planned ==> handle.share.PieceAt(offset) in handle.world.have)
                && (planned && old(RefreshesNext()) ==> handle.share.PieceAt(offset) !in old(handle.world).have)
      ensures old(handle.Quiet()) ==>
                handle.world == if planned then old(handle.world).(prio := handle.world.prio) else old(handle.world)
      ensures old(handle.Quiet() && Fresh()) && whence == Start ==> PlansRightly(offset, planned)
    {
      planned := false;
      if whence == Start {
        planned := Prepare(offset);
      }
      ok := SeekFile(offset, whence);
      if offset >= 0 && handle.share.fileSize > 0 {
        forall q | 0 <= q < handle.share.numPieces {
          Seeking.SeekPlanOnNumbers(handle.share, offset, q);
        }
      }
    }

    lemma InFileMeansInTorrent(at: nat)
      requires handle.share.WellLaid() && at < handle.share.fileSize
      ensures 0 <= handle.share.PieceAt(at) < handle.share.numPieces
    {
      QuotientIsMonotone(0, handle.share.fileOffset + at, handle.share.pieceLength);
      QuotientBelow(handle.share.fileOffset + at, handle.share.pieceLength, handle.share.numPieces);
    }

    /** After a plan for `offset` every range from there on is wanted, so none stalls unwanted. */
    lemma PlanWantsTheRest(offset: nat, count: nat)
      requires Valid() && offset + count <= handle.share.fileSize
      requires forall q :: 0 <= q < handle.share.numPieces ==>
                 handle.world.prio[q] == Seeking.SeekPlan(handle.share, offset, q)
      ensures RangeIsWanted(offset, count) && !StallsUnwanted(offset, count)
    {
      forall o | offset <= o < offset + count
        ensures handle.world.PriorityOf(handle.share.PieceAt(o)) != 0
      {
        Seeking.SeekCoversTheRest(handle.share, offset, o);
      }
    }

    /** A range request: seek from the start, then read.  If the seek laid priorities, or the
        range was wanted before, then the read gives up only because the file was closed.  While
        the others rest, the file is open and the seek's look is right, it gives up exactly when
        the target piece was held -- so that nothing was laid -- and the first missing piece had
        priority 0. */
    method SeekThenRead(offset: nat, data: array<Byte>) returns (n: nat, err: Error, ghost planned: bool)
      requires Valid() && data as object != pieces
      requires offset + data.Length <= handle.share.fileSize
      modifies this`pieces, this`cached, this`updated, this`position, handle`world, handle`turns, handle`deadlines, data
      ensures Valid() && n <= data.Length && data[..n] == TrueBytes(handle.share, offset, n)
      ensures err != Eof
      ensures ScriptLeavesPriorities(handle.script) && (planned || old(RangeIsWanted(offset, data.Length))) ==>
                (err == Gone ==> handle.world.closed)
      ensures old(handle.Quiet()) ==> handle.world.closed == old(handle.world).closed
      ensures old(handle.Quiet() && Fresh() && !handle.world.closed) ==>
                (err == Gone <==>
                   old(handle.share.PieceAt(offset) in handle.world.have && StallsUnwanted(offset, data.Length)))
    {
      QuotientIsMonotone(0, handle.share.fileOffset + offset, handle.share.pieceLength);
      var ok;
      ok, planned := Seek(offset, Start);
      if !ok {
        assert data[..0] == TrueBytes(handle.share, offset, 0);
        return 0, Failed, planned;
      }
      if planned && (ScriptLeavesPriorities(handle.script) || old(handle.Quiet())) {
        PlanWantsTheRest(offset, data.Length);
      }
      ghost var es;
      n, err, es := Read(data);
      if n == 0 {
        assert data[..n] == TrueBytes(handle.share, offset, n);
      }
    }

    /** Closing marks the file and shuts what is underneath; a second close does nothing. */
    method Close() returns (err: Error)
      requires Valid()
      modifies handle`world, handle`turns
      ensures Valid() && handle.world.closed && err in {None, Failed}
      ensures old(handle.world).closed ==> err == None && handle.world == old(handle.world)
      ensures !old(handle.world).closed ==> handle.world.shut
      ensures !old(handle.world).closed && old(handle.Quiet()) ==>
                err == None && handle.world == old(handle.world).(closed := true, shut := true)
    {
      if handle.world.closed {
        return None;
      }
      handle.world := handle.world.(closed := true);
      var _ := handle.Yield();
      err := if handle.world.shut then Failed else None;
      handle.world := handle.world.(shut := true);
    }
  }
}
