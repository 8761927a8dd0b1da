/** The world an open file lives in: its bytes on disk, the pieces libtorrent holds, the
    piece priorities, and everything that other threads may do to them meanwhile.  On top
    of it stands the byte-by-byte gated reader, the simple machine that the chunked reader
    of torrentfs.go refines. */
module Swarms {
  import opened Numbers
  import opened Layouts

  newtype Byte = x: int | 0 <= x < 256

  /** What never changes: the true torrent content and where one file lies in it. */
  datatype Share = Share(truth: seq<Byte>, pieceLength: int, numPieces: int, fileOffset: int, fileSize: int) {
    predicate WellLaid() {
      Divided(pieceLength, |truth|, numPieces) && LiesIn(fileOffset, fileSize, |truth|)
    }

    function PieceAt(position: int): int
      requires pieceLength > 0
    {
      GoDiv(fileOffset + position, pieceLength)
    }
  }

  /** What does change: the file as it is on disk (possibly shorter than it will be), the
      held pieces, the priority of each piece, whether the open file has been marked closed,
      and whether the file underneath has been shut. */
  datatype World = World(disk: seq<Byte>, have: set<int>, prio: seq<int>, closed: bool, shut: bool) {
    /** Out-of-range pieces read as priority 0. */
    function PriorityOf(piece: int): int {
      if 0 <= piece < |prio| then prio[piece] else 0
    }
  }

  /** Every byte that the file has in this piece is on disk and true. */
  predicate Sound(sh: Share, disk: seq<Byte>, piece: int)
    requires sh.WellLaid()
  {
    forall o :: 0 <= o < sh.fileSize && sh.PieceAt(o) == piece ==> o < |disk| && disk[o] == sh.truth[sh.fileOffset + o]
  }

  ghost predicate Consistent(sh: Share, w: World)
    requires sh.WellLaid()
  {
    && |w.disk| <= sh.fileSize
    && |w.prio| == sh.numPieces
    && (w.shut ==> w.closed)
    && forall piece :: piece in w.have ==> 0 <= piece < sh.numPieces && Sound(sh, w.disk, piece)
  }

  /** One step of anybody else: libtorrent writes a byte of a piece it does not hold, or
      takes a piece whose bytes check out; another caller changes a priority, or closes the file
      by marking it and then shutting the file underneath. */
  datatype Action =
    | WriteByte(at: int, value: Byte)
    | GainPiece(piece: int)
    | SetPriority(target: int, level: int)
    | CloseFile
    | ShutFile

  predicate Enabled(sh: Share, w: World, a: Action)
    requires sh.WellLaid()
  {
    match a
    case WriteByte(at, _) => 0 <= at < sh.fileSize && sh.PieceAt(at) !in w.have
    case GainPiece(piece) => 0 <= piece < sh.numPieces && Sound(sh, w.disk, piece)
    case SetPriority(target, _) => 0 <= target < |w.prio|
    case CloseFile => true
    case ShutFile => w.closed
  }

  /** A write past the end of the file grows it; the gap reads as zeros. */
  function Patch(disk: seq<Byte>, at: nat, value: Byte): (r: seq<Byte>)
    ensures |r| == Max(|disk|, at + 1) && r[at] == value
    ensures forall o :: 0 <= o < |disk| && o != at ==> r[o] == disk[o]
  {
    if at < |disk| then disk[at := value] else disk + seq(at - |disk|, _ => 0) + [value]
  }

  /** A step that is not enabled does not happen. */
  function Apply(sh: Share, w: World, a: Action): World
    requires sh.WellLaid()
  {
    if !Enabled(sh, w, a) then w
    else match a
      case WriteByte(at, value) => w.(disk := Patch(w.disk, at, value))
      case GainPiece(piece) => w.(have := w.have + {piece})
      case SetPriority(target, level) => w.(prio := w.prio[target := level])
      case CloseFile => w.(closed := true)
      case ShutFile => w.(shut := true)
  }

  function Play(sh: Share, w: World, actions: seq<Action>): World
    requires sh.WellLaid()
    decreases actions
  {
    if actions == [] then w else Play(sh, Apply(sh, w, actions[0]), actions[1..])
  }

  predicate LeavesPriorities(actions: seq<Action>) {
    forall a :: a in actions ==> !a.SetPriority?
  }

  lemma {:induction false} PlayAppends(sh: Share, w: World, a: seq<Action>, b: seq<Action>)
    requires sh.WellLaid()
    ensures Play(sh, w, a + b) == Play(sh, Play(sh, w, a), b)
    decreases a
  {
    if a == [] {
      assert a + b == b;
    } else {
      PlayAppends(sh, Apply(sh, w, a[0]), a[1..], b);
      assert (a + b)[1..] == a[1..] + b;
    }
  }

  /** Whatever the others do, held pieces stay held and true, and the file never shrinks. */
  lemma {:induction false} PlayKeepsConsistency(sh: Share, w: World, actions: seq<Action>)
    requires sh.WellLaid() && Consistent(sh, w)
    ensures Consistent(sh, Play(sh, w, actions))
    ensures w.have <= Play(sh, w, actions).have
    ensures |w.disk| <= |Play(sh, w, actions).disk|
    ensures w.closed ==> Play(sh, w, actions).closed
    ensures LeavesPriorities(actions) ==> Play(sh, w, actions).prio == w.prio
    decreases actions
  {
    if actions != [] {
      PlayKeepsConsistency(sh, Apply(sh, w, actions[0]), actions[1..]);
    }
  }

  /** The gated reader: between any two deliveries the others act, and a byte is handed out
      only while the piece it lies in is held. */
  datatype Event = Burst(actions: seq<Action>) | Deliver(value: Byte)

  function WorldAfter(sh: Share, w: World, es: seq<Event>): World
    requires sh.WellLaid()
  {
    if es == [] then w
    else
      var before := WorldAfter(sh, w, es[..|es| - 1]);
      match es[|es| - 1]
      case Burst(actions) => Play(sh, before, actions)
      case Deliver(_) => before
  }

  function Delivered(es: seq<Event>): seq<Byte> {
    if es == [] then []
    else
      var before := Delivered(es[..|es| - 1]);
      match es[|es| - 1]
      case Burst(_) => before
      case Deliver(value) => before + [value]
  }

  /** The bytes of `es`, read from `start`, each come off the disk of a held piece. */
  predicate Gated(sh: Share, w: World, start: nat, es: seq<Event>)
    requires sh.WellLaid()
  {
    if es == [] then true
    else
      var before := es[..|es| - 1];
      && Gated(sh, w, start, before)
      && match es[|es| - 1]
         case Burst(_) => true
         case Deliver(value) =>
           var here := WorldAfter(sh, w, before);
           var at := start + |Delivered(before)|;
           at < |here.disk| && value == here.disk[at] && sh.PieceAt(at) in here.have
  }

  /** The part of the torrent that a file's bytes from `start` on should be. */
  function TrueBytes(sh: Share, start: nat, n: nat): seq<Byte>
    requires sh.WellLaid() && start + n <= sh.fileSize
  {
    sh.truth[sh.fileOffset + start..sh.fileOffset + start + n]
  }

  /** Safety over every run: whatever the others do in between, the bytes a gated reader
      hands out are the true bytes of the file. */
  lemma {:induction false} GatedBytesAreTrue(sh: Share, w: World, start: nat, es: seq<Event>)
    requires sh.WellLaid() && Consistent(sh, w)
    requires Gated(sh, w, start, es)
    ensures Consistent(sh, WorldAfter(sh, w, es))
    ensures Delivered(es) != [] ==> start + |Delivered(es)| <= sh.fileSize
    ensures Delivered(es) != [] ==> Delivered(es) == TrueBytes(sh, start, |Delivered(es)|)
    decreases es
  {
    if es != [] {
      var before := es[..|es| - 1];
      GatedBytesAreTrue(sh, w, start, before);
      var here := WorldAfter(sh, w, before);
      match es[|es| - 1]
      case Burst(actions) =>
        PlayKeepsConsistency(sh, here, actions);
      case Deliver(value) =>
        var n := |Delivered(before)|;
        assert value == sh.truth[sh.fileOffset + start + n];
        assert TrueBytes(sh, start, n + 1) == TrueBytes(sh, start, n) + [value];
    }
  }

  lemma EventsAppend(sh: Share, w: World, start: nat, es: seq<Event>, e: Event)
    requires sh.WellLaid() && Gated(sh, w, start, es)
    requires e.Deliver? ==>
      var here := WorldAfter(sh, w, es);
      var at := start + |Delivered(es)|;
      at < |here.disk| && e.value == here.disk[at] && sh.PieceAt(at) in here.have
    ensures Gated(sh, w, start, es + [e])
    ensures WorldAfter(sh, w, es + [e]) ==
      (match e case Burst(actions) => Play(sh, WorldAfter(sh, w, es), actions) case Deliver(_) => WorldAfter(sh, w, es))
    ensures Delivered(es + [e]) == (match e case Burst(_) => Delivered(es) case Deliver(value) => Delivered(es) + [value])
  {
    assert (es + [e])[..|es + [e]| - 1] == es;
  }

  lemma LastApart<T>(a: seq<T>, b: seq<T>)
    requires b != []
    ensures a + b == (a + b[..|b| - 1]) + [b[|b| - 1]]
  {
  }

  /** Two gated stretches, the second starting where and when the first ended, are one. */
  lemma {:induction false} GatedStretchesJoin(sh: Share, w: World, start: nat, a: seq<Event>, b: seq<Event>)
    requires sh.WellLaid() && Gated(sh, w, start, a)
    requires Gated(sh, WorldAfter(sh, w, a), start + |Delivered(a)|, b)
    ensures Gated(sh, w, start, a + b)
    ensures WorldAfter(sh, w, a + b) == WorldAfter(sh, WorldAfter(sh, w, a), b)
    ensures Delivered(a + b) == Delivered(a) + Delivered(b)
    decreases b
  {
    if b == [] {
      assert a + b == a;
    } else {
      var before := b[..|b| - 1];
      GatedStretchesJoin(sh, w, start, a, before);
      EventsAppend(sh, w, start, a + before, b[|b| - 1]);
      LastApart(a, b);
    }
  }

  /** A reader without the gate: it takes whatever the disk shows. */
  predicate Ungated(sh: Share, w: World, start: nat, es: seq<Event>)
    requires sh.WellLaid()
  {
    if es == [] then true
    else
      var before := es[..|es| - 1];
      && Ungated(sh, w, start, before)
      && match es[|es| - 1]
         case Burst(_) => true
         case Deliver(value) =>
           var here := WorldAfter(sh, w, before);
           var at := start + |Delivered(before)|;
           at < |here.disk| && value == here.disk[at]
  }

  /** Over held pieces the gate changes nothing. */
  lemma {:induction false} HeldPiecesNeedNoGate(sh: Share, w: World, start: nat, es: seq<Event>)
    requires sh.WellLaid() && Consistent(sh, w) && Ungated(sh, w, start, es)
    requires forall o :: start <= o < start + |Delivered(es)| ==> sh.PieceAt(o) in w.have
    ensures Gated(sh, w, start, es) && w.have <= WorldAfter(sh, w, es).have && Consistent(sh, WorldAfter(sh, w, es))
    decreases es
  {
    if es != [] {
      var before := es[..|es| - 1];
      HeldPiecesNeedNoGate(sh, w, start, before);
      if es[|es| - 1].Burst? {
        PlayKeepsConsistency(sh, WorldAfter(sh, w, before), es[|es| - 1].actions);
      }
    }
  }

  /** Delivering what is on the disk now, byte after byte. */
  function Dump(disk: seq<Byte>, start: nat, n: nat): seq<Event>
    requires start + n <= |disk|
  {
    if n == 0 then [] else Dump(disk, start, n - 1) + [Deliver(disk[start + n - 1])]
  }

  /** One more byte off the disk. */
  lemma UngatedAppend(sh: Share, w: World, start: nat, es: seq<Event>, value: Byte)
    requires sh.WellLaid() && Ungated(sh, w, start, es)
    requires var here := WorldAfter(sh, w, es);
             start + |Delivered(es)| < |here.disk| && value == here.disk[start + |Delivered(es)|]
    ensures Ungated(sh, w, start, es + [Deliver(value)])
    ensures WorldAfter(sh, w, es + [Deliver(value)]) == WorldAfter(sh, w, es)
    ensures Delivered(es + [Deliver(value)]) == Delivered(es) + [value]
  {
    assert (es + [Deliver(value)])[..|es + [Deliver(value)]| - 1] == es;
  }

  lemma BurstAlone(sh: Share, w: World, actions: seq<Action>, start: nat)
    requires sh.WellLaid()
    ensures Ungated(sh, w, start, [Burst(actions)]) && WorldAfter(sh, w, [Burst(actions)]) == Play(sh, w, actions)
    ensures Delivered([Burst(actions)]) == []
  {
    assert [Burst(actions)][..0] == [];
  }

  /** After one burst of others, an ungated reader may hand out what the disk then shows. */
  lemma {:induction false} DumpIsUngated(sh: Share, w: World, actions: seq<Action>, start: nat, n: nat)
    requires sh.WellLaid() && start + n <= |Play(sh, w, actions).disk|
    ensures var later := Play(sh, w, actions);
            var es := [Burst(actions)] + Dump(later.disk, start, n);
            && Ungated(sh, w, start, es) && WorldAfter(sh, w, es) == later
            && Delivered(es) == later.disk[start..start + n]
    decreases n
  {
    var disk := Play(sh, w, actions).disk;
    if n == 0 {
      BurstAlone(sh, w, actions, start);
      assert [Burst(actions)] + Dump(disk, start, 0) == [Burst(actions)];
    } else {
      DumpIsUngated(sh, w, actions, start, n - 1);
      var before, value := [Burst(actions)] + Dump(disk, start, n - 1), disk[start + n - 1];
      UngatedAppend(sh, w, start, before, value);
      assert [Burst(actions)] + Dump(disk, start, n) == before + [Deliver(value)];
    }
  }

  /** Others can spoil a byte of a piece not held, and bring every byte up to `end` on disk. */
  lemma SpoiltByte(sh: Share, w: World, at: nat, end: nat) returns (actions: seq<Action>)
    requires sh.WellLaid() && Consistent(sh, w)
    requires at < end <= sh.fileSize && sh.PieceAt(at) !in w.have
    ensures var later := Play(sh, w, actions); end <= |later.disk| && later.disk[at] != sh.truth[sh.fileOffset + at]
  {
    var wrong: Byte := if sh.truth[sh.fileOffset + at] == 0 then 1 else 0;
    var grow, spoil := WriteByte(end - 1, 0), WriteByte(at, wrong);
    actions := [grow, spoil];
    var grown := Apply(sh, w, grow);
    assert sh.PieceAt(end - 1) in w.have ==> end - 1 < |w.disk|;
    assert end <= |grown.disk| && grown.have == w.have;
    assert actions[1..] == [spoil] && [spoil][1..] == [];
    assert Play(sh, grown, [spoil]) == Play(sh, Apply(sh, grown, spoil), []);
    assert Play(sh, w, actions).disk == Patch(grown.disk, at, wrong);
  }

  lemma UngatedReadsOfHeldPieces(sh: Share, w: World, start: nat, n: nat, es: seq<Event>)
    requires sh.WellLaid() && Consistent(sh, w) && start + n <= sh.fileSize
    requires forall o :: start <= o < start + n ==> sh.PieceAt(o) in w.have
    requires Ungated(sh, w, start, es) && |Delivered(es)| == n
    ensures Delivered(es) == TrueBytes(sh, start, n)
  {
    HeldPiecesNeedNoGate(sh, w, start, es);
    GatedBytesAreTrue(sh, w, start, es);
  }

  lemma UngatedReadOfMissingPiece(sh: Share, w: World, start: nat, n: nat, o: nat) returns (es: seq<Event>)
    requires sh.WellLaid() && Consistent(sh, w) && start + n <= sh.fileSize
    requires start <= o < start + n && sh.PieceAt(o) !in w.have
    ensures Ungated(sh, w, start, es) && |Delivered(es)| == n && Delivered(es) != TrueBytes(sh, start, n)
  {
    var actions := SpoiltByte(sh, w, o, start + n);
    DumpIsUngated(sh, w, actions, start, n);
    es := [Burst(actions)] + Dump(Play(sh, w, actions).disk, start, n);
    assert Delivered(es)[o - start] != TrueBytes(sh, start, n)[o - start];
  }

  /** What the gate is for: read without it, a range of the file is true in every run exactly
      when all its pieces are held to begin with. */
  lemma UngatedReadsAreTrueIffHeld(sh: Share, w: World, start: nat, n: nat)
    requires sh.WellLaid() && Consistent(sh, w) && start + n <= sh.fileSize
    ensures (forall es :: Ungated(sh, w, start, es) && |Delivered(es)| == n ==> Delivered(es) == TrueBytes(sh, start, n))
       <==> (forall o :: start <= o < start + n ==> sh.PieceAt(o) in w.have)
  {
    if forall o :: start <= o < start + n ==> sh.PieceAt(o) in w.have {
      forall es | Ungated(sh, w, start, es) && |Delivered(es)| == n
        ensures Delivered(es) == TrueBytes(sh, start, n)
      {
        UngatedReadsOfHeldPieces(sh, w, start, n, es);
      }
    } else {
      var o :| start <= o < start + n && sh.PieceAt(o) !in w.have;
      var es := UngatedReadOfMissingPiece(sh, w, start, n, o);
    }
  }
}
