/** The torrent handle and the disk, shared by an open file with every other thread. */
module Handles {
  import opened Numbers
  import opened Bitfields
  import opened Swarms
  import Seeking

  /** How one underlying file read ends: all that fits, at most so many bytes, or an error. */
  datatype Io = Whole | Part(n: nat) | ShortBuffer | Broken

  /** One turn of everybody else, and the chances of that moment: whether 500 ms have passed
      since the last refresh, whether the torrent state is invalid, what the padding bits of
      a status bitfield hold, and how an underlying read goes. */
  datatype Turn = Turn(actions: seq<Action>, elapsed: bool, invalid: bool, padding: seq<bool>, io: Io)

  /** A turn in which nobody else acts and nothing goes wrong, whatever time has passed. */
  predicate Still(t: Turn) {
    t.actions == [] && !t.invalid && t.io == Whole
  }

  const QUIET := Turn([], false, false, [], Whole)

  /** Every turn once the schedule is used up: the others rest and time passes. */
  const REST := Turn([], true, false, [], Whole)

  datatype Error = None | Gone | Eof | Failed | Retry | Pending

  ghost predicate ScriptLeavesPriorities(script: seq<Turn>) {
    forall t :: t in script ==> LeavesPriorities(t.actions)
  }

  ghost predicate ScriptTransfers(script: seq<Turn>) {
    forall t :: t in script ==> t.io != Part(0)
  }

  ghost predicate ScriptWorks(script: seq<Turn>) {
    forall t :: t in script ==> t.io != Broken
  }

  /** A buffer after bytes were written into it from some index on. */
  function Fill(s: seq<Byte>, from: nat, bytes: seq<Byte>): (r: seq<Byte>)
    requires from + |bytes| <= |s|
    ensures |r| == |s| && r[from..from + |bytes|] == bytes
  {
    s[..from] + bytes + s[from + |bytes|..]
  }

  lemma FillOn(s: seq<Byte>, from: nat, a: seq<Byte>, b: seq<Byte>)
    requires from + |a| + |b| <= |s|
    ensures Fill(Fill(s, from, a), from + |a|, b) == Fill(s, from, a + b)
  {
  }

  /** Deadlines after asking for a piece and the two behind it. */
  function AskedFor(deadlines: map<int, int>, piece: int): map<int, int> {
    deadlines[piece := piece - piece * 100][piece + 1 := piece + 1 - piece * 100][piece + 2 := piece + 2 - piece * 100]
  }

  /** The torrent handle and the disk, shared with every other thread.  The script is the
      schedule of the run: it is arbitrary and finite, and once it is used up the others rest. */
  class Handle {
    const share: Share
    var world: World
    const script: seq<Turn>
    var turns: nat
    var deadlines: map<int, int>

    ghost predicate Valid()
      reads this
    {
      share.WellLaid() && Consistent(share, world) && turns <= |script|
    }

    ghost predicate Rested()
      reads this
    {
      turns == |script|
    }

    /** All turns from here on are still. */
    ghost predicate Quiet()
      reads this
    {
      forall k :: turns <= k < |script| ==> Still(script[k])
    }

    constructor (share: Share, world: World, script: seq<Turn>)
      requires share.WellLaid() && Consistent(share, world)
      ensures Valid() && this.share == share && this.world == world && this.script == script
      ensures turns == 0 && deadlines == map[]
    {
      this.share, this.world, this.script, turns, deadlines := share, world, script, 0, map[];
    }

    /** Only the others acted since the world was `from`, and they did these actions. */
    ghost predicate Passed(from: World, actions: seq<Action>)
      requires Valid()
      reads this
    {
      && world == Play(share, from, actions)
      && from.have <= world.have
      && (from.closed ==> world.closed)
      && (ScriptLeavesPriorities(script) ==> world.prio == from.prio)
    }

    ghost function AfterNext(): nat
      reads this
    {
      if turns == |script| then turns else turns + 1
    }

    /** What the next turn will be. */
    ghost function NextTurn(): Turn
      requires Valid()
      reads this
    {
      if Rested() then REST else script[turns]
    }

    /** The world once these turns of the schedule have been played. */
    ghost function Later(w: World, from: nat, upto: nat): World
      requires share.WellLaid() && from <= upto <= |script|
    {
      if from == upto then w else Play(share, Later(w, from, upto - 1), script[upto - 1].actions)
    }

    lemma {:induction false} LaterJoins(w: World, from: nat, mid: nat, upto: nat)
      requires share.WellLaid() && from <= mid <= upto <= |script|
      ensures Later(Later(w, from, mid), mid, upto) == Later(w, from, upto)
      decreases upto
    {
      if mid < upto {
        LaterJoins(w, from, mid, upto - 1);
      }
    }

    lemma {:induction false} LaterGrows(w: World, from: nat, mid: nat, upto: nat)
      requires share.WellLaid() && Consistent(share, w) && from <= mid <= upto <= |script|
      ensures Consistent(share, Later(w, from, upto)) && Later(w, from, mid).have <= Later(w, from, upto).have
      ensures Later(w, from, mid).closed ==> Later(w, from, upto).closed
      decreases upto
    {
      if from < upto {
        LaterGrows(w, from, if mid < upto then mid else upto - 1, upto - 1);
        PlayKeepsConsistency(share, Later(w, from, upto - 1), script[upto - 1].actions);
      }
    }

    /** A look in this turn would refresh any cache. */
    ghost predicate Refreshing(k: nat)
      requires k < |script|
    {
      script[k].elapsed && !script[k].invalid
    }

    /** Nothing but the schedule has changed the world since it was `from` at turn `t0`. */
    ghost predicate Since(from: World, t0: nat)
      requires Valid()
      reads this
    {
      Consistent(share, from) && t0 <= turns && world == Later(from, t0, turns)
    }

    /** What a wait that began at turn `t0` and outlasts turn `k` did not meet: turns k - 1 and k
        would both refresh the cache and the piece was held from the first of them on; or, after
        the first look, the file was closed by then, or the priority was 0 in both turns. */
    ghost predicate KeepsWaiting(piece: nat, from: World, t0: nat, k: nat)
      requires share.WellLaid() && t0 < k < |script|
    {
      var w, next := Later(from, t0, k), Later(from, t0, k + 1);
      && !(piece < share.numPieces && piece in w.have && Refreshing(k - 1) && Refreshing(k))
      && (k > t0 + 1 ==> !w.closed && !(w.PriorityOf(piece) == 0 && next.PriorityOf(piece) == 0))
    }

    ghost predicate WaitedFor(piece: nat, from: World, t0: nat, upto: int)
      requires share.WellLaid() && t0 <= |script| && upto <= |script|
    {
      forall k :: t0 < k < upto ==> KeepsWaiting(piece, from, t0, k)
    }

    /** If the last turn was a look that refreshed the cache, the piece was missing. */
    ghost predicate JustMissed(piece: nat)
      requires Valid()
      reads this
    {
      turns > 0 && Refreshing(turns - 1) && piece < share.numPieces ==> piece !in world.have
    }

    /** The first two looks of a wait. */
    lemma WaitBegins(piece: nat, from: World, t0: nat)
      requires Valid() && Since(from, t0) && turns <= t0 + 2
      ensures WaitedFor(piece, from, t0, turns - 1)
      ensures JustMissed(piece) ==> WaitedFor(piece, from, t0, turns)
    {
      if turns == t0 + 2 {
        LaterGrows(from, t0, t0 + 1, turns);
      }
    }

    /** A tick at turn `t`, in the world `middle`, that did not end the wait, and the look
        behind it. */
    lemma WaitGoesOn(piece: nat, from: World, t0: nat, middle: World, t: nat, gone: bool)
      requires Valid() && Consistent(share, from) && t0 <= t <= turns <= t + 2
      requires middle == Later(from, t0, t) && world == Later(middle, t, turns)
      requires WaitedFor(piece, from, t0, t - 1)
      requires t < |script| ==>
                 && t >= t0 + 2 && WaitedFor(piece, from, t0, t)
                 && (Refreshing(t - 1) && piece < share.numPieces ==> piece !in middle.have)
      requires gone ==> turns <= t + 1
      requires !gone && t < |script| ==>
                 var ticked := Later(middle, t, t + 1); !ticked.closed && ticked.PriorityOf(piece) != 0
      ensures Since(from, t0) && WaitedFor(piece, from, t0, turns - 1)
      ensures !gone && turns == t + 2 && JustMissed(piece) ==> WaitedFor(piece, from, t0, turns)
    {
      SinceStill(from, t0, middle, t);
      if t < |script| {
        LaterJoins(from, t0, t, t + 1);
        LaterGrows(from, t0, t, t + 1);
        if turns == t + 2 {
          LaterGrows(from, t0, t + 1, turns);
        }
      }
    }

    lemma SinceStill(from: World, t0: nat, middle: World, t: nat)
      requires Valid() && Consistent(share, from) && t0 <= t <= turns
      requires middle == Later(from, t0, t) && world == Later(middle, t, turns)
      ensures Since(from, t0)
    {
      LaterJoins(from, t0, t, turns);
    }

    /** A wait for this piece is bound to fail: the file is closed, or the piece has priority 0
        and nobody will change that. */
    ghost predicate Doomed(piece: int)
      reads this
    {
      world.closed || ((ScriptLeavesPriorities(script) || Quiet()) && world.PriorityOf(piece) == 0)
    }

    /** Since the world was `from`, the others acted and true gated bytes were handed out. */
    ghost predicate Streamed(from: World, start: nat, es: seq<Event>)
      requires Valid()
      reads this
    {
      && Gated(share, from, start, es)
      && world == WorldAfter(share, from, es)
      && from.have <= world.have
      && (ScriptLeavesPriorities(script) ==> world.prio == from.prio)
    }

    /** The point where other threads run. */
    method Yield() returns (turn: Turn)
      requires Valid()
      modifies `world, `turns
      ensures Valid()
      ensures turn == old(NextTurn())
      ensures turns == old(AfterNext())
      ensures Passed(old(world), turn.actions)
      ensures |old(world).disk| <= |world.disk|
      ensures old(Quiet()) ==> Still(turn) && world == old(world)
    {
      turn := REST;
      if turns < |script| {
        turn, turns := script[turns], turns + 1;
      }
      PlayKeepsConsistency(share, world, turn.actions);
      world := Play(share, world, turn.actions);
    }

    lemma BurstStreams(from: World, start: nat, actions: seq<Action>)
      requires Valid() && Passed(from, actions)
      ensures Streamed(from, start, [Burst(actions)]) && Delivered([Burst(actions)]) == []
    {
      EventsAppend(share, from, start, [], Burst(actions));
    }

    lemma StreamOn(from: World, start: nat, middle: World, first: seq<Event>, second: seq<Event>)
      requires Valid() && Gated(share, from, start, first) && middle == WorldAfter(share, from, first)
      requires from.have <= middle.have && (ScriptLeavesPriorities(script) ==> middle.prio == from.prio)
      requires Streamed(middle, start + |Delivered(first)|, second)
      ensures Streamed(from, start, first + second)
      ensures Delivered(first + second) == Delivered(first) + Delivered(second)
    {
      GatedStretchesJoin(share, from, start, first, second);
    }

    lemma Chain(from: World, middle: World, first: seq<Action>, second: seq<Action>)
      requires Valid() && Passed(middle, second)
      requires middle == Play(share, from, first) && from.have <= middle.have && (from.closed ==> middle.closed)
      requires ScriptLeavesPriorities(script) ==> middle.prio == from.prio
      ensures Passed(from, first + second)
    {
      PlayAppends(share, from, first, second);
    }

    /** The bytes behind a status bitfield: bit i for piece i, anything in the padding. */
    method PieceBytes(size: nat, padding: seq<bool>) returns (bytes: array<bv8>)
      requires Valid()
      ensures fresh(bytes) && bytes.Length == size
      ensures forall i :: 0 <= i < share.numPieces && i < 8 * size ==> Bits(bytes[..])[i] == (i in world.have)
    {
      bytes := new bv8[size](_ => 0);
      for i := 0 to 8 * size
        invariant fresh(bytes)
        invariant forall k :: 0 <= k < i && k < share.numPieces ==> Bits(bytes[..])[k] == (k in world.have)
      {
        var bit := if i < share.numPieces then i in world.have
                   else i - share.numPieces < |padding| && padding[i - share.numPieces];
        SetBit(bytes, i, bit);
      }
    }

    /** The others may act before every byte of a copy. */
    method CopyByte(at: nat, data: array<Byte>, index: nat) returns (ghost es: seq<Event>)
      requires Valid() && index < data.Length && at < |world.disk| && share.PieceAt(at) in world.have
      modifies `world, `turns, data
      ensures Valid() && turns >= old(turns) && |old(world).disk| <= |world.disk|
      ensures turns <= old(turns) + 1 && (old(Quiet()) ==> world == old(world))
      ensures Streamed(old(world), at, es)
      ensures |Delivered(es)| == 1 && data[..] == Fill(old(data[..]), index, Delivered(es))
    {
      ghost var w0 := world;
      var turn := Yield();
      es := [Burst(turn.actions)];
      BurstStreams(w0, at, turn.actions);
      var value := world.disk[at];
      EventsAppend(share, w0, at, es, Deliver(value));
      es := es + [Deliver(value)];
      data[index] := value;
    }

    /** The copy inside a file read. */
    method CopyBytes(at: nat, data: array<Byte>, from: nat, count: nat) returns (ghost es: seq<Event>)
      requires Valid() && from + count <= data.Length && at + count <= |world.disk|
      requires forall o :: at <= o < at + count ==> share.PieceAt(o) in world.have
      modifies `world, `turns, data
      ensures Valid() && old(turns) <= turns <= old(turns) + count && (old(Quiet()) ==> world == old(world))
      ensures Streamed(old(world), at, es)
      ensures |Delivered(es)| == count && data[..] == Fill(old(data[..]), from, Delivered(es))
    {
      es := [];
      ghost var w0 := world;
      for k := 0 to count
        invariant Valid() && old(turns) <= turns <= old(turns) + k && (old(Quiet()) ==> world == w0)
        invariant Streamed(w0, at, es)
        invariant |Delivered(es)| == k && data[..] == Fill(old(data[..]), from, Delivered(es))
        invariant at + count <= |world.disk|
      {
        ghost var middle, chunk := world, [];
        chunk := CopyByte(at + k, data, from + k);
        StreamOn(w0, at, middle, es, chunk);
        FillOn(old(data[..]), from, Delivered(es), Delivered(chunk));
        es := es + chunk;
      }
    }

    lemma HeldIsOnDisk(at: nat)
      requires Valid() && at < share.fileSize && share.PieceAt(at) in world.have
      ensures at < |world.disk|
    {
    }

    /** How a read of the file underneath will end, and how much it will transfer: an error
        transfers nothing, and so does a file that has been shut. */
    method BeginRead(at: nat, size: nat) returns (n1: nat, err: Error, ghost actions: seq<Action>)
      requires Valid() && size > 0
      requires forall o :: at <= o < at + size && o < share.fileSize ==> share.PieceAt(o) in world.have
      modifies `world, `turns
      ensures Valid() && n1 <= size && old(turns) <= turns <= old(turns) + 1
      ensures Passed(old(world), actions) && (old(Quiet()) ==> world == old(world))
      ensures err in {None, Eof, Failed, Retry}
      ensures if err == None then at + n1 <= |world.disk| else n1 == 0
      ensures err == Eof ==> at >= share.fileSize
      ensures err == Failed ==> world.shut || !ScriptWorks(script)
      ensures err == Retry ==> turns > old(turns)
      ensures err == None && n1 == 0 ==> !ScriptTransfers(script)
      ensures old(Quiet()) && !old(world).shut && at + size <= share.fileSize ==> err == None && n1 == size
    {
      var turn := Yield();
      actions := turn.actions;
      if at < share.fileSize {
        HeldIsOnDisk(at);
      }
      if at + size <= share.fileSize {
        HeldIsOnDisk(at + size - 1);
      }
      if turn.io == Broken || world.shut {
        return 0, Failed, actions;
      } else if turn.io == ShortBuffer {
        return 0, Retry, actions;
      } else if at >= |world.disk| {
        return 0, Eof, actions;
      }
      n1 := Min(size, |world.disk| - at);
      if turn.io.Part? {
        n1 := Min(n1, turn.io.n);
      }
      err := None;
    }

    /** A read of the file underneath. */
    method ReadAt(at: nat, data: array<Byte>, from: nat, size: nat) returns (n1: nat, err: Error, ghost es: seq<Event>)
      requires Valid() && size > 0 && from + size <= data.Length
      requires forall o :: at <= o < at + size && o < share.fileSize ==> share.PieceAt(o) in world.have
      modifies `world, `turns, data
      ensures Valid() && n1 <= size && old(turns) <= turns <= old(turns) + 1 + n1
      ensures Streamed(old(world), at, es) && (old(Quiet()) ==> world == old(world))
      ensures |Delivered(es)| == n1 && data[..] == Fill(old(data[..]), from, Delivered(es))
      ensures err in {None, Eof, Failed, Retry} && (err != None ==> n1 == 0)
      ensures err == Eof ==> at >= share.fileSize
      ensures err == Failed ==> world.shut || !ScriptWorks(script)
      ensures err == Retry ==> turns > old(turns)
      ensures err == None && n1 == 0 ==> !ScriptTransfers(script)
      ensures old(Quiet()) && !old(world).shut && at + size <= share.fileSize ==> err == None && n1 == size
    {
      ghost var w0, actions := world, [];
      n1, err, actions := BeginRead(at, size);
      es := [Burst(actions)];
      BurstStreams(w0, at, actions);
      if err == None {
        ghost var middle, chunk := world, [];
        chunk := CopyBytes(at, data, from, n1);
        StreamOn(w0, at, middle, es, chunk);
        es := es + chunk;
      }
    }

    /** libtorrent takes the entries that stand for pieces. */
    method PrioritizePieces(v: seq<int>)
      requires Valid()
      modifies `world
      ensures Valid()
      ensures world == old(world).(prio := Seeking.Overlay(old(world).prio, v))
    {
      world := world.(prio := Seeking.Overlay(world.prio, v));
    }

    /** Setting one piece's priority; a piece that does not exist is ignored. */
    method SetPiecePriority(piece: int, level: int)
      requires Valid()
      modifies `world
      ensures Valid()
      ensures world == if 0 <= piece < |old(world).prio|
                       then old(world).(prio := old(world).prio[piece := level])
                       else old(world)
    {
      if 0 <= piece < |world.prio| {
        world := world.(prio := world.prio[piece := level]);
      }
    }

    method ClearPieceDeadlines()
      modifies `deadlines
      ensures deadlines == map[]
    {
      deadlines := map[];
    }

    /** The three deadlines of a wait. */
    method AskFor(piece: int)
      modifies `deadlines
      ensures deadlines == AskedFor(old(deadlines), piece)
    {
      for i := piece to piece + 3
        invariant deadlines == if i == piece then old(deadlines)
                               else if i == piece + 1 then old(deadlines)[piece := piece - piece * 100]
                               else if i == piece + 2 then
                                 old(deadlines)[piece := piece - piece * 100][piece + 1 := piece + 1 - piece * 100]
                               else AskedFor(old(deadlines), piece)
      {
        SetPieceDeadline(i, i - piece * 100);
      }
    }

    /** A buffer that stood as `before` has been filled from `pos` on with a gated stretch. */
    ghost predicate Copied(from: World, start: nat, before: seq<Byte>, now: seq<Byte>, pos: nat, n: nat, es: seq<Event>)
      requires Valid()
      reads this
    {
      && Streamed(from, start, es)
      && |Delivered(es)| == n && pos + n <= |before|
      && now == Fill(before, pos, Delivered(es))
    }

    /** Filling on. */
    lemma CopyOn(from: World, start: nat, middle: World, before: seq<Byte>, mid: seq<Byte>, now: seq<Byte>,
                 n: nat, n1: nat, first: seq<Event>, second: seq<Event>)
      requires Valid() && Gated(share, from, start, first) && middle == WorldAfter(share, from, first)
      requires from.have <= middle.have && (ScriptLeavesPriorities(script) ==> middle.prio == from.prio)
      requires |Delivered(first)| == n && n <= |before| && mid == Fill(before, 0, Delivered(first))
      requires Copied(middle, start + n, mid, now, n, n1, second)
      ensures Copied(from, start, before, now, 0, n + n1, first + second)
    {
      StreamOn(from, start, middle, first, second);
      FillOn(before, 0, Delivered(first), Delivered(second));
    }

    /** A read after a wait that handed out nothing. */
    method ReadAfter(at: nat, data: array<Byte>, from: nat, size: nat, ghost w0: World, ghost waited: seq<Event>)
      returns (n1: nat, err: Error, ghost es: seq<Event>)
      requires Valid() && size > 0 && from + size <= data.Length
      requires forall o :: at <= o < at + size && o < share.fileSize ==> share.PieceAt(o) in world.have
      requires Streamed(w0, at, waited) && Delivered(waited) == []
      modifies `world, `turns, data
      ensures Valid() && n1 <= size && old(turns) <= turns <= old(turns) + 1 + n1
      ensures Copied(w0, at, old(data[..]), data[..], from, n1, es)
      ensures old(world).have <= world.have && (old(Quiet()) ==> world == old(world))
      ensures err in {None, Eof, Failed, Retry} && (err != None ==> n1 == 0)
      ensures err == Eof ==> at >= share.fileSize
      ensures err == Failed ==> world.shut || !ScriptWorks(script)
      ensures err == Retry ==> turns > old(turns)
      ensures err == None && n1 == 0 ==> !ScriptTransfers(script)
      ensures old(Quiet()) && !old(world).shut && at + size <= share.fileSize ==> err == None && n1 == size
    {
      ghost var middle, chunk := world, [];
      n1, err, chunk := ReadAt(at, data, from, size);
      StreamOn(w0, at, middle, waited, chunk);
      es := waited + chunk;
    }

    /** Deadline 0 for each of these pieces. */
    method Hurry(urgent: seq<int>)
      modifies `deadlines
      ensures deadlines == old(deadlines) + map q | q in urgent :: 0
    {
      for i := 0 to |urgent|
        invariant deadlines == old(deadlines) + map q | q in urgent[..i] :: 0
      {
        SetPieceDeadline(urgent[i], 0);
        assert forall q :: q in urgent[..i + 1] <==> q in urgent[..i] || q == urgent[i];
      }
      assert urgent[..|urgent|] == urgent;
    }

    method SetPieceDeadline(piece: int, deadline: int)
      modifies `deadlines
      ensures deadlines == old(deadlines)[piece := deadline]
    {
      deadlines := deadlines[piece := deadline];
    }
  }
}
