/** The two schedules of torrent2http.go: head and tail of a big file, and the whole of a
    small one. */
module Schedules {
  import opened Numbers
  import opened Layouts

  const END_BUFFER_SIZE := 10 * 1024 * 1024

  /** A head-and-tail plan: the pieces from `startPiece` through `headPieces` more, and the
      last `tailPieces` before `endPiece` together with `endPiece` itself. */
  datatype Plan = Plan(startPiece: int, headPieces: int, endPiece: int, tailPieces: int) {
    predicate Urgent(q: int) {
      startPiece <= q <= startPiece + headPieces || (startPiece <= q && endPiece - tailPieces <= q <= endPiece)
    }

    function Priority(q: int): int {
      if Urgent(q) then 7 else if startPiece <= q <= endPiece then 1 else 0
    }

    function Length(numPieces: int): int {
      Max(numPieces, Max(endPiece, startPiece + headPieces) + 1)
    }
  }

  function PlanFor(info: TorrentInfo, ind: nat, buffer: real): Plan
    requires info.pieceLength > 0 && ind < |info.files|
  {
    var pieceLength := info.pieceLength;
    var startPiece := GoDiv(info.files[ind].offset, pieceLength);
    var endPiece := GoDiv(info.files[ind].offset + info.files[ind].size, pieceLength);
    var startLength := (endPiece - startPiece) as real * pieceLength as real * buffer;
    Plan(startPiece, Ceil(startLength / pieceLength as real), endPiece, Ceil(END_BUFFER_SIZE as real / pieceLength as real))
  }

  /** Five loops over one counter: the vector handed to libtorrent and the pieces hurried. */
  method HeadTailVector(p: Plan, numPieces: int) returns (v: seq<int>, urgent: seq<int>)
    requires 0 <= p.startPiece <= p.endPiece && p.tailPieces >= 0
    ensures |v| == Max(numPieces, Max(p.endPiece, p.startPiece + p.headPieces) + 1)
    ensures forall q :: 0 <= q < |v| ==>
              v[q] ==
                if p.startPiece <= q && (q <= p.startPiece + p.headPieces || p.endPiece - p.tailPieces <= q <= p.endPiece)
                then 7 else if p.startPiece <= q <= p.endPiece then 1 else 0
    ensures forall q :: q in urgent <==> 0 <= q < |v| && v[q] == 7
  {
    v, urgent := [], [];
    var curPiece := 0;
    while curPiece < p.startPiece
      invariant curPiece == |v| <= p.startPiece
      invariant forall q :: 0 <= q < |v| ==> v[q] == p.Priority(q)
    {
      v := v + [0];
      curPiece := curPiece + 1;
    }
    while curPiece <= p.startPiece + p.headPieces
      invariant p.startPiece <= curPiece == |v| <= Max(p.startPiece, p.startPiece + p.headPieces + 1)
      invariant forall q :: 0 <= q < |v| ==> v[q] == p.Priority(q)
      invariant forall q :: q in urgent <==> p.startPiece <= q < curPiece
    {
      v := v + [7];
      urgent := urgent + [curPiece];
      curPiece := curPiece + 1;
    }
    ghost var head := curPiece;
    while curPiece < p.endPiece - p.tailPieces
      invariant head <= curPiece == |v| <= Max(head, p.endPiece - p.tailPieces)
      invariant forall q :: 0 <= q < |v| ==> v[q] == p.Priority(q)
    {
      v := v + [1];
      curPiece := curPiece + 1;
    }
    ghost var tail := curPiece;
    while curPiece <= p.endPiece
      invariant tail <= curPiece == |v| <= Max(tail, p.endPiece + 1)
      invariant forall q :: 0 <= q < |v| ==> v[q] == p.Priority(q)
      invariant forall q :: q in urgent <==> p.startPiece <= q < head || tail <= q < curPiece
    {
      v := v + [7];
      urgent := urgent + [curPiece];
      curPiece := curPiece + 1;
    }
    while curPiece < numPieces
      invariant Max(head, p.endPiece + 1) <= curPiece == |v| <= Max(Max(head, p.endPiece + 1), numPieces)
      invariant forall q :: 0 <= q < |v| ==> v[q] == p.Priority(q)
    {
      v := v + [0];
      curPiece := curPiece + 1;
    }
  }

  /** Offsets and sizes in a well-laid torrent give a plan the loops can carry out: the head
      length is the ceiling of the file's piece count times the buffer fraction. */
  lemma PlanIsOrderly(info: TorrentInfo, ind: nat, buffer: real)
    requires info.WellLaid() && ind < |info.files|
    ensures var p := PlanFor(info, ind, buffer);
            && 0 <= p.startPiece <= p.endPiece && p.tailPieces >= 1
            && p.headPieces == Ceil((p.endPiece - p.startPiece) as real * buffer)
            && p.tailPieces * info.pieceLength >= END_BUFFER_SIZE
  {
    var pl, f := info.pieceLength, info.files[ind];
    var p := PlanFor(info, ind, buffer);
    QuotientIsMonotone(0, f.offset, pl);
    QuotientIsMonotone(f.offset, f.offset + f.size, pl);
    HeadLength((p.endPiece - p.startPiece) as real, pl as real, buffer);
    CeilTimes(END_BUFFER_SIZE, pl);
  }

  /** In numbers, with the file from piece `s` to piece `e`: 7 on the first piece and as many
      behind it as make up `buffer` times e - s, rounded up, and on those that begin less than
      10 MiB and a piece before the start of `e`; 1 on the rest of the file; 0 elsewhere. */
  lemma PlanOnNumbers(info: TorrentInfo, ind: nat, buffer: real, q: int)
    requires info.WellLaid() && ind < |info.files|
    ensures var f, pl := info.files[ind], info.pieceLength;
            var s, e := f.offset / pl, (f.offset + f.size) / pl;
            PlanFor(info, ind, buffer).Priority(q) ==
              if s <= q && ((q - s - 1) as real < (e - s) as real * buffer || (q <= e && (e - q - 1) * pl < 10485760)) then 7
              else if s <= q <= e then 1 else 0
  {
    var p := PlanFor(info, ind, buffer);
    PlanIsOrderly(info, ind, buffer);
    BelowCeiling(q - p.startPiece - 1, (p.endPiece - p.startPiece) as real * buffer);
    BelowCeilingOfQuotient(p.endPiece - q - 1, END_BUFFER_SIZE, info.pieceLength);
  }

  /** The same of a whole vector, without the plan. */
  ghost predicate IsHeadAndTail(v: seq<int>, f: FileEntry, pl: int, buffer: real)
    requires pl > 0
  {
    var s, e := f.offset / pl, (f.offset + f.size) / pl;
    forall q :: 0 <= q < |v| ==>
      v[q] ==
        if s <= q && ((q - s - 1) as real < (e - s) as real * buffer || (q <= e && (e - q - 1) * pl < 10485760)) then 7
        else if s <= q <= e then 1 else 0
  }

  /** The vector for a file, and the pieces hurried. */
  method ScheduleVector(info: TorrentInfo, ind: nat, buffer: real) returns (v: seq<int>, urgent: seq<int>)
    requires info.WellLaid() && ind < |info.files|
    ensures var p := PlanFor(info, ind, buffer);
            && |v| == p.Length(info.numPieces)
            && (forall q :: 0 <= q < |v| ==> v[q] == p.Priority(q))
            && (forall q :: q in urgent <==> p.Urgent(q))
            && (forall q :: p.Urgent(q) <==> 0 <= q < |v| && v[q] == 7)
    ensures IsHeadAndTail(v, info.files[ind], info.pieceLength, buffer)
  {
    PlanIsOrderly(info, ind, buffer);
    v, urgent := HeadTailVector(PlanFor(info, ind, buffer), info.numPieces);
    forall q | 0 <= q < |v| {
      PlanOnNumbers(info, ind, buffer, q);
    }
  }

  /** Going through bytes and back leaves the head length at span times buffer. */
  lemma HeadLength(span: real, pl: real, buffer: real)
    requires pl > 0.0
    ensures span * pl * buffer / pl == span * buffer
  {
    assert span * pl * buffer == (span * buffer) * pl;
  }

  lemma CeilTimes(a: int, b: int)
    requires a > 0 && b > 0
    ensures Ceil(a as real / b as real) >= 1 && Ceil(a as real / b as real) * b >= a
  {
    var q := a as real / b as real;
    assert q * b as real == a as real;
    assert q > 0.0;
    var c := Ceil(q);
    assert c as real * b as real >= q * b as real;
    assert (c * b) as real == c as real * b as real;
  }

  /** Head coverage: every byte of the file at distance up to buffer times its size from the
      start lies in a piece of priority 7, however file and pieces are aligned. */
  lemma HeadIsUrgent(info: TorrentInfo, ind: nat, buffer: real, at: int)
    requires info.WellLaid() && ind < |info.files|
    requires 0 <= at < info.files[ind].size
    requires at as real <= buffer * info.files[ind].size as real
    ensures PlanFor(info, ind, buffer).Priority((info.files[ind].offset + at) / info.pieceLength) == 7
  {
    PlanIsOrderly(info, ind, buffer);
    HeadOfPlan(PlanFor(info, ind, buffer), info.files[ind].offset, info.files[ind].size, info.pieceLength, buffer, at);
  }

  lemma HeadOfPlan(p: Plan, offset: int, size: int, pl: int, buffer: real, at: int)
    requires pl > 0 && 0 <= offset && 0 <= at < size
    requires at as real <= buffer * size as real
    requires p.startPiece == offset / pl && p.endPiece == (offset + size) / pl
    requires p.headPieces as real >= (p.endPiece - p.startPiece) as real * buffer
    ensures p.Priority((offset + at) / pl) == 7
  {
    QuotientIsMonotone(offset, offset + at, pl);
    HeadReaches(offset, size, pl, buffer, at, p.headPieces);
  }

  lemma HeadReaches(offset: int, size: int, pl: int, buffer: real, at: int, head: int)
    requires pl > 0 && 0 <= offset && 0 <= at < size
    requires at as real <= buffer * size as real
    requires head as real >= ((offset + size) / pl - offset / pl) as real * buffer
    ensures (offset + at) / pl <= offset / pl + head
  {
    FractionIsNotNegative(buffer, size as real, at as real);
    if buffer >= 1.0 {
      WholeHeadReaches(offset, size, pl, buffer, at, head);
    } else {
      PartialHeadReaches(offset, size, pl, buffer, at, head);
    }
  }

  lemma WholeHeadReaches(offset: int, size: int, pl: int, buffer: real, at: int, head: int)
    requires pl > 0 && 0 <= offset && 0 <= at < size && buffer >= 1.0
    requires head as real >= ((offset + size) / pl - offset / pl) as real * buffer
    ensures (offset + at) / pl <= offset / pl + head
  {
    QuotientIsMonotone(offset, offset + size, pl);
    QuotientIsMonotone(offset + at, offset + size, pl);
    WholeHead((offset + size) / pl - offset / pl, buffer, head);
  }

  lemma WholeHead(span: int, buffer: real, head: int)
    requires span >= 0 && buffer >= 1.0 && head as real >= span as real * buffer
    ensures head >= span
  {
    ProductAtLeast(span as real, buffer);
  }

  lemma PartialHeadReaches(offset: int, size: int, pl: int, buffer: real, at: int, head: int)
    requires pl > 0 && 0 <= offset && 0 <= at < size && 0.0 <= buffer < 1.0
    requires at as real <= buffer * size as real
    requires head as real >= ((offset + size) / pl - offset / pl) as real * buffer
    ensures (offset + at) / pl <= offset / pl + head
  {
    var s, e, r, r2 := offset / pl, (offset + size) / pl, offset % pl, (offset + size) % pl;
    QuotientBrackets(offset, pl);
    QuotientBrackets(offset + size, pl);
    assert size == e * pl + r2 - (s * pl + r);
    HeadBound(s, e, r, r2, pl, buffer, at, head);
    QuotientBelow(offset + at, pl, s + head + 1);
  }

  lemma FractionIsNotNegative(w: real, size: real, at: real)
    requires 0.0 <= at < size && at <= w * size
    ensures w >= 0.0
  {
  }

  lemma ProductAtLeast(k: real, w: real)
    requires k >= 0.0 && w >= 1.0
    ensures k * w >= k
  {
    ProductIsNonNegative(k, w - 1.0);
    assert k * (w - 1.0) == k * w - k;
  }

  lemma HeadBound(s: int, e: int, r: int, r2: int, pl: int, buffer: real, at: int, head: int)
    requires 0 <= r < pl && 0 <= r2 < pl && 0.0 <= buffer < 1.0
    requires at as real <= buffer * (e * pl + r2 - (s * pl + r)) as real
    requires head as real >= (e - s) as real * buffer
    ensures s * pl + r + at < (s + head + 1) * pl
  {
    assert e * pl - s * pl == (e - s) * pl;
    assert ((e - s) * pl) as real == (e - s) as real * pl as real;
    assert (e * pl + r2 - (s * pl + r)) as real == (e - s) as real * pl as real + r2 as real - r as real;
    HeadArithmetic(buffer, (e - s) as real, pl as real, r as real, r2 as real, head as real, at as real);
    assert (head * pl) as real == head as real * pl as real;
    assert (s + head + 1) * pl == s * pl + head * pl + pl;
  }

  /** The heart of the head bound: a weighted mean of two remainders is below the modulus. */
  lemma HeadArithmetic(w: real, k: real, l: real, r: real, r2: real, h: real, at: real)
    requires 0.0 <= w < 1.0 && 0.0 <= r < l && 0.0 <= r2 < l
    requires h >= k * w && at <= w * (k * l + r2 - r)
    ensures r + at < h * l + l
  {
    ProductIsNonNegative(h - k * w, l);
    assert (h - k * w) * l == h * l - w * (k * l);
    assert w * (k * l + r2 - r) == w * (k * l) + w * (r2 - r);
    if r2 > r {
      ProductIsNonNegative(1.0 - w, r2 - r);
      assert (1.0 - w) * (r2 - r) == (r2 - r) - w * (r2 - r);
    } else {
      ProductIsNonNegative(w, r - r2);
      assert w * (r - r2) == -(w * (r2 - r));
    }
  }

  lemma ProductIsNonNegative(a: real, b: real)
    requires a >= 0.0 && b >= 0.0
    ensures a * b >= 0.0
  {
  }

  /** Tail coverage: each of the last min(size, 10 MiB) bytes lies in a piece of priority 7. */
  lemma TailIsUrgent(info: TorrentInfo, ind: nat, buffer: real, at: int)
    requires info.WellLaid() && ind < |info.files|
    requires 0 <= at < info.files[ind].size && at >= info.files[ind].size - END_BUFFER_SIZE
    ensures PlanFor(info, ind, buffer).Priority((info.files[ind].offset + at) / info.pieceLength) == 7
  {
    PlanIsOrderly(info, ind, buffer);
    TailOfPlan(PlanFor(info, ind, buffer), info.files[ind].offset, info.files[ind].size, info.pieceLength, at);
  }

  lemma TailOfPlan(p: Plan, offset: int, size: int, pl: int, at: int)
    requires pl > 0 && 0 <= offset && 0 <= at < size && at >= size - END_BUFFER_SIZE
    requires p.startPiece == offset / pl && p.endPiece == (offset + size) / pl
    requires p.tailPieces * pl >= END_BUFFER_SIZE
    ensures p.Priority((offset + at) / pl) == 7
  {
    QuotientIsMonotone(offset, offset + at, pl);
    QuotientIsMonotone(offset + at, offset + size, pl);
    QuotientBrackets(offset + size, pl);
    var e, t := p.endPiece, p.tailPieces;
    assert (e - t) * pl == e * pl - t * pl;
    QuotientBelow(offset + at, pl, e - t);
  }

  /** Whatever the buffer fraction, every byte of the scheduled file lies in a wanted piece: a
      read inside it never waits for a piece of priority 0. */
  lemma WholeFileIsWanted(info: TorrentInfo, ind: nat, buffer: real, at: int)
    requires info.WellLaid() && ind < |info.files| && 0 <= at < info.files[ind].size
    ensures PlanFor(info, ind, buffer).Priority((info.files[ind].offset + at) / info.pieceLength) in {1, 7}
  {
    var pl, f := info.pieceLength, info.files[ind];
    QuotientIsMonotone(f.offset, f.offset + at, pl);
    QuotientIsMonotone(f.offset + at, f.offset + f.size, pl);
  }

  /** With a buffer fraction in [0,1] the wanted pieces are those the file lies in, and one
      more exactly when the file ends on a piece boundary; the vector has one entry per piece,
      and one too many exactly when moreover the file ends the torrent. */
  lemma OvershootIsOnePiece(info: TorrentInfo, ind: nat, buffer: real)
    requires info.WellLaid() && ind < |info.files| && info.files[ind].size > 0
    requires 0.0 <= buffer <= 1.0
    ensures var f, p := info.files[ind], PlanFor(info, ind, buffer);
            var first, last := f.offset / info.pieceLength, (f.offset + f.size - 1) / info.pieceLength;
            var aligned := (f.offset + f.size) % info.pieceLength == 0;
            && last < info.numPieces
            && (forall q :: p.Priority(q) > 0 <==> first <= q <= last || (aligned && q == last + 1))
            && (aligned ==> p.Urgent(last + 1))
            && p.Length(info.numPieces) ==
                 (if aligned && f.offset + f.size == info.total then info.numPieces + 1 else info.numPieces)
  {
    var pl, f, p := info.pieceLength, info.files[ind], PlanFor(info, ind, buffer);
    PlanIsOrderly(info, ind, buffer);
    var k := (p.endPiece - p.startPiece) as real;
    ProductIsNonNegative(k, 1.0 - buffer);
    assert k * (1.0 - buffer) == k - k * buffer;
    assert p.startPiece + p.headPieces <= p.endPiece;
    SuccessorQuotient(f.offset + f.size - 1, pl);
    EndsInTorrent(info, f.offset + f.size);
    QuotientBelow(f.offset + f.size - 1, pl, info.numPieces);
  }

  /** The quotient of an exclusive end is an existing piece unless it is the torrent's own end
      on a piece boundary; then it is the piece count. */
  lemma EndsInTorrent(info: TorrentInfo, end: int)
    requires info.WellLaid() && 0 <= end <= info.total
    ensures end / info.pieceLength == info.numPieces <==> end == info.total && end % info.pieceLength == 0
    ensures end / info.pieceLength <= info.numPieces
  {
    var pl, n := info.pieceLength, info.numPieces;
    var q := end / pl;
    QuotientBrackets(end, pl);
    QuotientBelow(end, pl, n);
    QuotientBelow(end, pl, n + 1);
    assert (n + 1) * pl == n * pl + pl;
    if q < n {
      ProductIsMonotone(q, n - 1, pl);
    }
  }

  /** Choosing a small file: its pieces go to 7, every other wanted piece to 1. */
  function Selected(prio: seq<int>, range: (int, int)): (r: seq<int>)
    ensures |r| == |prio|
    ensures forall q :: 0 <= q < |prio| ==> r[q] == if range.0 <= q <= range.1 then 7 else if prio[q] > 0 then 1 else prio[q]
  {
    seq(|prio|, q requires 0 <= q < |prio| => if range.0 <= q <= range.1 then 7 else if prio[q] > 0 then 1 else prio[q])
  }

  function SelectedInTurn(prio: seq<int>, ranges: seq<(int, int)>): (r: seq<int>)
    ensures |r| == |prio|
  {
    if ranges == [] then prio
    else Selected(SelectedInTurn(prio, ranges[..|ranges| - 1]), ranges[|ranges| - 1])
  }

  ghost predicate InSome(ranges: seq<(int, int)>, q: int) {
    exists range :: range in ranges && range.0 <= q <= range.1
  }

  /** After any sequence of selections, from any vector at all, exactly the last range stands
      at 7, every other wanted piece at 1, and wanted are the pieces wanted before together
      with all the ranges chosen; the unwanted keep what they had. */
  lemma {:induction false} SelectionsInTurn(prio: seq<int>, ranges: seq<(int, int)>, q: int)
    requires 0 <= q < |prio|
    ensures var after := SelectedInTurn(prio, ranges)[q];
            && (after > 0 <==> prio[q] > 0 || InSome(ranges, q))
            && (after <= 0 ==> after == prio[q])
            && (ranges != [] && after > 0 ==>
                  var last := ranges[|ranges| - 1]; after == if last.0 <= q <= last.1 then 7 else 1)
    decreases ranges
  {
    if ranges != [] {
      var before, last := ranges[..|ranges| - 1], ranges[|ranges| - 1];
      SelectionsInTurn(prio, before, q);
      assert ranges == before + [last];
      assert InSome(ranges, q) <==> InSome(before, q) || last.0 <= q <= last.1 by {
        assert last in ranges && forall range :: range in before ==> range in ranges;
      }
    }
  }

  /** Choosing the same file again changes nothing. */
  lemma SelectionRepeats(prio: seq<int>, range: (int, int))
    ensures Selected(Selected(prio, range), range) == Selected(prio, range)
  {
    var once := Selected(prio, range);
    assert forall q :: 0 <= q < |prio| ==> Selected(once, range)[q] == once[q];
  }
}
