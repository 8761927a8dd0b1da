/** Buffer progress: how far each hurried piece has come, and the average shown to clients. */
module Progress {

  /** One entry of libtorrent's download queue, and one look at libtorrent. */
  datatype Partial = Partial(piece: int, finished: int, blocks: int)

  datatype Observation = Observation(have: set<int>, queue: seq<Partial>, blockSize: int) {
    predicate Sane() {
      blockSize > 0 && forall e :: e in queue ==> 0 <= e.finished <= e.blocks && e.blocks > 0
    }
  }

  function Ratio(e: Partial, blockSize: int): (r: real)
    requires blockSize > 0 && 0 <= e.finished <= e.blocks && e.blocks > 0
    ensures 0.0 <= r <= 1.0
    ensures r == 1.0 <==> e.finished == e.blocks
  {
    RatioIsFraction(e.finished, e.blocks, blockSize);
    (e.finished * blockSize) as real / (e.blocks * blockSize) as real
  }

  /** The ratio is that of the blocks, whatever their size. */
  lemma RatioOfBlocks(e: Partial, blockSize: int)
    requires blockSize > 0 && 0 <= e.finished <= e.blocks && e.blocks > 0
    ensures Ratio(e, blockSize) * e.blocks as real == e.finished as real
  {
    var a, b, k := e.finished as real, e.blocks as real, blockSize as real;
    RatioIsFraction(e.finished, e.blocks, blockSize);
    assert (e.blocks * blockSize) as real == b * k && (e.finished * blockSize) as real == a * k;
    FactorCancels(a, b, k);
  }

  lemma FactorCancels(a: real, b: real, k: real)
    requires b > 0.0 && k > 0.0
    ensures b * k > 0.0 && (a * k) / (b * k) * b == a
  {
    assert b * k > 0.0;
    var r := (a * k) / (b * k);
    assert r * (b * k) == a * k;
    assert (r * b - a) * k == 0.0;
  }

  lemma RatioIsFraction(a: int, b: int, k: int)
    requires 0 <= a <= b && b > 0 && k > 0
    ensures b * k > 0 && 0 <= a * k <= b * k && (a * k == b * k <==> a == b)
    ensures var r := (a * k) as real / (b * k) as real;
            0.0 <= r <= 1.0 && (r == 1.0 <==> a == b)
  {
    assert (b - a) * k == b * k - a * k;
    FractionBounds((a * k) as real, (b * k) as real);
  }

  lemma FractionBounds(x: real, y: real)
    requires 0.0 <= x <= y && y > 0.0
    ensures 0.0 <= x / y <= 1.0 && (x / y == 1.0 <==> x == y)
  {
    assert (x / y) * y == x;
  }

  ghost predicate InUnit(m: map<int, real>) {
    forall q :: q in m ==> 0.0 <= m[q] <= 1.0
  }

  /** Pieces held count as complete. */
  function AfterHave(m: map<int, real>, have: set<int>): (r: map<int, real>)
    ensures r.Keys == m.Keys
  {
    map q | q in m :: if q in have then 1.0 else m[q]
  }

  /** A queued piece that is not yet at 1 takes its ratio of finished blocks. */
  function AfterEntry(m: map<int, real>, e: Partial, blockSize: int): map<int, real>
    requires blockSize > 0 && 0 <= e.finished <= e.blocks && e.blocks > 0
  {
    if e.piece in m && m[e.piece] != 1.0 then m[e.piece := Ratio(e, blockSize)] else m
  }

  function AfterQueue(m: map<int, real>, o: Observation, count: nat): (r: map<int, real>)
    requires o.Sane() && count <= |o.queue|
    ensures r.Keys == m.Keys
  {
    if count == 0 then m else AfterEntry(AfterQueue(m, o, count - 1), o.queue[count - 1], o.blockSize)
  }

  function Refreshed(m: map<int, real>, o: Observation): map<int, real>
    requires o.Sane()
  {
    AfterQueue(AfterHave(m, o.have), o, |o.queue|)
  }

  function RefreshedInTurn(m: map<int, real>, os: seq<Observation>): map<int, real>
    requires forall o :: o in os ==> o.Sane()
  {
    if os == [] then m else Refreshed(RefreshedInTurn(m, os[..|os| - 1]), os[|os| - 1])
  }

  ghost predicate Finishes(o: Observation, count: nat, q: int)
    requires count <= |o.queue|
  {
    exists i :: 0 <= i < count && o.queue[i].piece == q && o.queue[i].finished == o.queue[i].blocks
  }

  ghost predicate Completes(o: Observation, q: int) {
    q in o.have || Finishes(o, |o.queue|, q)
  }

  lemma {:induction false} QueueMarks(m: map<int, real>, o: Observation, count: nat, q: int)
    requires o.Sane() && count <= |o.queue| && InUnit(m) && q in m
    ensures AfterQueue(m, o, count).Keys == m.Keys && InUnit(AfterQueue(m, o, count))
    ensures AfterQueue(m, o, count)[q] == 1.0 <==> m[q] == 1.0 || Finishes(o, count, q)
    decreases count
  {
    if count > 0 {
      QueueMarks(m, o, count - 1, q);
      var e := o.queue[count - 1];
      assert Finishes(o, count, q) <==> Finishes(o, count - 1, q) || (e.piece == q && e.finished == e.blocks);
    }
  }

  /** The last entry of the queue that speaks of a piece. */
  ghost predicate LastEntry(o: Observation, count: nat, q: int, i: nat)
    requires count <= |o.queue|
  {
    i < count && o.queue[i].piece == q && forall j :: i < j < count ==> o.queue[j].piece != q
  }

  lemma {:induction false} QueuePasses(m: map<int, real>, o: Observation, count: nat, q: int)
    requires o.Sane() && count <= |o.queue| && q in m
    requires forall j :: 0 <= j < count ==> o.queue[j].piece != q
    ensures AfterQueue(m, o, count)[q] == m[q]
    decreases count
  {
    if count > 0 {
      QueuePasses(m, o, count - 1, q);
    }
  }

  lemma {:induction false} QueueTakesLast(m: map<int, real>, o: Observation, count: nat, q: int, i: nat)
    requires o.Sane() && count <= |o.queue| && InUnit(m) && q in m && m[q] != 1.0
    requires LastEntry(o, count, q, i) && !Finishes(o, count, q)
    ensures AfterQueue(m, o, count)[q] == Ratio(o.queue[i], o.blockSize)
    decreases count
  {
    assert forall j :: 0 <= j < count && o.queue[j].piece == q ==> o.queue[j].finished != o.queue[j].blocks;
    if i < count - 1 {
      QueueTakesLast(m, o, count - 1, q, i);
    } else {
      QueueMarks(m, o, count - 1, q);
    }
  }

  /** What one look makes of a tracked piece: 1 if it was there, is held, or has an entry with
      all its blocks; else the fraction of its last entry's blocks that are finished, or what
      it was when the queue does not speak of it. */
  lemma ValueAfterOneLook(m: map<int, real>, o: Observation, q: int)
    requires o.Sane() && InUnit(m) && q in m
    ensures var after := Refreshed(m, o);
            && after.Keys == m.Keys
            && (after[q] == 1.0 <==>
                  m[q] == 1.0 || q in o.have
                  || exists i :: 0 <= i < |o.queue| && o.queue[i].piece == q && o.queue[i].finished == o.queue[i].blocks)
            && (after[q] != 1.0 ==>
                  if exists i :: 0 <= i < |o.queue| && o.queue[i].piece == q then
                    forall i: nat :: LastEntry(o, |o.queue|, q, i) ==>
                      after[q] * o.queue[i].blocks as real == o.queue[i].finished as real
                  else after[q] == m[q])
  {
    QueueMarks(AfterHave(m, o.have), o, |o.queue|, q);
    if Refreshed(m, o)[q] != 1.0 {
      if exists i :: 0 <= i < |o.queue| && o.queue[i].piece == q {
        forall i: nat | LastEntry(o, |o.queue|, q, i)
          ensures Refreshed(m, o)[q] * o.queue[i].blocks as real == o.queue[i].finished as real
        {
          LookTakesLast(m, o, q, i);
        }
      } else {
        QueuePasses(AfterHave(m, o.have), o, |o.queue|, q);
      }
    }
  }

  lemma LookTakesLast(m: map<int, real>, o: Observation, q: int, i: nat)
    requires o.Sane() && InUnit(m) && q in m && q in Refreshed(m, o) && Refreshed(m, o)[q] != 1.0
    requires LastEntry(o, |o.queue|, q, i)
    ensures Refreshed(m, o)[q] * o.queue[i].blocks as real == o.queue[i].finished as real
  {
    var had := AfterHave(m, o.have);
    QueueMarks(had, o, |o.queue|, q);
    QueueTakesLast(had, o, |o.queue|, q, i);
    RatioOfBlocks(o.queue[i], o.blockSize);
  }

  /** Over any run of refreshes the tracked pieces stay the same, every value stays in [0,1],
      and a value is 1 at the end exactly when it was 1 at the start or at some look the piece
      was held or had all its blocks: once at 1 it stays there. */
  lemma {:induction false} ProgressOverRuns(m: map<int, real>, os: seq<Observation>, q: int)
    requires (forall o :: o in os ==> o.Sane()) && InUnit(m) && q in m
    ensures var after := RefreshedInTurn(m, os);
            && after.Keys == m.Keys && InUnit(after)
            && (after[q] == 1.0 <==> m[q] == 1.0 || exists o :: o in os && Completes(o, q))
    decreases os
  {
    if os != [] {
      var earlier, last := os[..|os| - 1], os[|os| - 1];
      ProgressOverRuns(m, earlier, q);
      assert os == earlier + [last];
      var before := RefreshedInTurn(m, earlier);
      QueueMarks(AfterHave(before, last.have), last, |last.queue|, q);
      assert (exists o :: o in os && Completes(o, q))
        <==> (exists o :: o in earlier && Completes(o, q)) || Completes(last, q) by {
        assert last in os && forall o :: o in earlier ==> o in os;
      }
    }
  }

  lemma SomeKey(m: map<int, real>)
    requires m != map[]
    ensures exists q :: q in m.Keys
  {
    assert (forall q :: q !in m.Keys) ==> m == map[];
  }

  /** The sum of the values, in whatever order a map gives them. */
  ghost function Total(m: map<int, real>): real
    decreases m.Keys
  {
    if m == map[] then 0.0
    else
      SomeKey(m);
      var q :| q in m.Keys;
      m[q] + Total(m - {q})
  }

  lemma {:induction false} TotalWithout(m: map<int, real>, q: int)
    requires q in m
    ensures Total(m) == m[q] + Total(m - {q})
    decreases m.Keys
  {
    var p :| p in m.Keys && Total(m) == m[p] + Total(m - {p});
    if p != q {
      TotalWithout(m - {p}, q);
      TotalWithout(m - {q}, p);
      assert m - {p} - {q} == m - {q} - {p};
    }
  }

  /** Values in the unit interval add up to at most their number, and to all of it exactly
      when each is 1. */
  lemma {:induction false} TotalOfUnits(m: map<int, real>)
    requires InUnit(m)
    ensures 0.0 <= Total(m) <= |m| as real
    ensures Total(m) == |m| as real <==> AllOne(m)
    decreases m.Keys
  {
    if m != map[] {
      SomeKey(m);
      var q :| q in m.Keys;
      TotalWithout(m, q);
      OneKeyLess(m, q);
      TotalOfUnits(m - {q});
    }
  }

  ghost predicate AllOne(m: map<int, real>) {
    forall q :: q in m ==> m[q] == 1.0
  }

  lemma OneKeyLess(m: map<int, real>, q: int)
    requires InUnit(m) && q in m
    ensures |m| == |m - {q}| + 1 && InUnit(m - {q})
    ensures AllOne(m) <==> m[q] == 1.0 && AllOne(m - {q})
  {
    var rest := m - {q};
    assert m.Keys == rest.Keys + {q};
    assert forall p :: p in m <==> p in rest || p == q;
  }

  ghost function Average(m: map<int, real>): real
    requires m != map[]
  {
    Total(m) / |m| as real
  }

  lemma AverageIsOneWhenAllAre(m: map<int, real>)
    requires InUnit(m) && m != map[]
    ensures 0.0 <= Average(m) <= 1.0
    ensures Average(m) == 1.0 <==> forall q :: q in m ==> m[q] == 1.0
  {
    TotalOfUnits(m);
    FractionBounds(Total(m), |m| as real);
  }
}
