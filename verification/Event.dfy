/** The event latch of event.go, used from one goroutine at a time. */
module Events {

  datatype Op = C | Set | Clear | SetBool(b: bool) {
    predicate TurnsOn() { Set? || (SetBool? && b) }

    predicate TurnsOff() { Clear? || (SetBool? && !b) }
  }

  /** The latch as a value: how often each channel made so far has been closed, which of them
      is the present one (-1 for none), and the flag. */
  datatype Latch = Latch(closings: seq<nat>, current: int, on: bool) {
    /** Each channel was closed once at most, all but the present one were closed, and that one
        exactly when the latch is on. */
    predicate Good() {
      && -1 <= current < |closings| && (on ==> current >= 0)
      && (current >= 0 ==> closings[current] == if on then 1 else 0)
      && forall k :: 0 <= k < |closings| && k != current ==> closings[k] == 1
    }

    function WithChannel(): (l: Latch)
      requires Good()
      ensures l.Good() && l.current >= 0 && l.on == on
    {
      if current >= 0 then this else Latch(closings + [0], |closings|, on)
    }

    function Step(op: Op): (l: Latch)
      requires Good()
      ensures l.Good()
    {
      if op.TurnsOn() then
        if on then this
        else
          var l := WithChannel();
          Latch(l.closings[l.current := l.closings[l.current] + 1], l.current, true)
      else if op.TurnsOff() then
        if on then Latch(closings, -1, false) else this
      else WithChannel()
    }
  }

  /** A new latch after a series of calls. */
  function After(ops: seq<Op>): (l: Latch)
    ensures l.Good()
  {
    if ops == [] then Latch([], -1, false) else After(ops[..|ops| - 1]).Step(ops[|ops| - 1])
  }

  lemma AfterOne(ops: seq<Op>, op: Op)
    ensures After(ops + [op]) == After(ops).Step(op)
  {
    assert (ops + [op])[..|ops|] == ops;
  }

  lemma SetBoolIsSetOrClear(ops: seq<Op>, b: bool)
    ensures After(ops + [SetBool(b)]) == After(ops + [if b then Set else Clear])
  {
    var op := if b then Set else Clear;
    AfterOne(ops, SetBool(b));
    AfterOne(ops, op);
    StepOfSetBool(After(ops), b);
  }

  lemma StepOfSetBool(l: Latch, b: bool)
    requires l.Good()
    ensures l.Step(SetBool(b)) == l.Step(if b then Set else Clear)
  {
  }

  /** The last call that writes the flag turns it on. */
  ghost predicate LastWriteIsOn(ops: seq<Op>) {
    exists i :: 0 <= i < |ops| && ops[i].TurnsOn() && forall j :: i < j < |ops| ==> !ops[j].TurnsOff()
  }

  /** How many calls found the latch off and turned it on. */
  ghost function Rises(ops: seq<Op>): nat {
    if ops == [] then 0
    else
      var before, op := ops[..|ops| - 1], ops[|ops| - 1];
      Rises(before) + if op.TurnsOn() && !LastWriteIsOn(before) then 1 else 0
  }

  lemma LastWriteOfOneMore(ops: seq<Op>, op: Op)
    ensures LastWriteIsOn(ops + [op]) <==> op.TurnsOn() || (!op.TurnsOff() && LastWriteIsOn(ops))
  {
    var all := ops + [op];
    if LastWriteIsOn(ops) && !op.TurnsOff() {
      var i :| 0 <= i < |ops| && ops[i].TurnsOn() && forall j :: i < j < |ops| ==> !ops[j].TurnsOff();
      assert all[i].TurnsOn() && forall j :: i < j < |all| ==> !all[j].TurnsOff();
    }
    if op.TurnsOn() {
      assert all[|ops|].TurnsOn();
    }
    if LastWriteIsOn(all) && !op.TurnsOn() {
      var i :| 0 <= i < |all| && all[i].TurnsOn() && forall j :: i < j < |all| ==> !all[j].TurnsOff();
      assert !all[|ops|].TurnsOff();
      assert ops[i].TurnsOn() && forall j :: i < j < |ops| ==> ops[j] == all[j];
    }
  }

  /** After any series of calls the latch is on exactly when the last write turned it on, no
      channel has been closed twice, and one has been closed for each time it was turned on:
      closed are all channels made, save a present one while the latch is off. */
  lemma {:induction false} LatchOverRuns(ops: seq<Op>)
    ensures var l := After(ops);
            && (l.on <==> LastWriteIsOn(ops))
            && (forall k :: 0 <= k < |l.closings| ==> l.closings[k] <= 1 && (l.closings[k] == 0 ==> k == l.current && !l.on))
            && |l.closings| == Rises(ops) + if l.current >= 0 && !l.on then 1 else 0
    decreases ops
  {
    if ops != [] {
      var before, op := ops[..|ops| - 1], ops[|ops| - 1];
      LatchOverRuns(before);
      assert before + [op] == ops;
      LastWriteOfOneMore(before, op);
    }
  }

  /** A channel stays, and one more call closes it exactly when that call turns the event on. */
  lemma StepWakes(l: Latch, op: Op, k: nat)
    requires l.Good() && k < |l.closings|
    ensures k < |l.Step(op).closings| && (l.Step(op).closings[k] == 1 <==> l.closings[k] == 1 || op.TurnsOn())
  {
  }

  /** Whoever waits on a channel wakes exactly when the event is turned on later: a channel made
      so far stays the same channel, and is closed after more calls exactly when it was closed
      before or one of them turns the event on. */
  lemma {:induction false} WaitersWakeIffTurnedOn(ops: seq<Op>, more: seq<Op>, k: nat)
    requires k < |After(ops).closings|
    ensures k < |After(ops + more).closings|
    ensures After(ops + more).closings[k] == 1 <==> After(ops).closings[k] == 1 || exists op :: op in more && op.TurnsOn()
    decreases more
  {
    if more == [] {
      assert ops + more == ops;
    } else {
      var init, last := more[..|more| - 1], more[|more| - 1];
      WaitersWakeIffTurnedOn(ops, init, k);
      assert (ops + init) + [last] == ops + more;
      AfterOne(ops + init, last);
      StepWakes(After(ops + init), last, k);
      assert forall op :: op in more <==> op in init || op == last;
    }
  }

  /** A Go channel that is only ever closed; closing it twice panics. */
  class Channel {
    var isClosed: bool

    constructor ()
      ensures !isClosed
    {
      isClosed := false;
    }

    method Close()
      requires !isClosed
      modifies this
      ensures isClosed
    {
      isClosed := true;
    }
  }

  ghost predicate Distinct(channels: seq<Channel>) {
    forall j, k :: 0 <= j < k < |channels| ==> channels[j] != channels[k]
  }

  class Event {
    var ch: Channel?
    var closed: bool
    /** The channels made, in order, and the calls so far. */
    ghost var made: seq<Channel>
    ghost var calls: seq<Op>

    /** The event stands for this latch. */
    ghost predicate Shows(l: Latch)
      reads this, made
    {
      && l.Good() && closed == l.on && |made| == |l.closings|
      && (if l.current >= 0 then ch == made[l.current] else ch == null)
      && (forall k :: 0 <= k < |made| ==> made[k].isClosed == (l.closings[k] == 1))
      && Distinct(made)
    }

    /** It stands for the latch after its calls. */
    ghost predicate Valid()
      reads this, made
    {
      Shows(After(calls))
    }

    constructor ()
      ensures Valid() && calls == [] && made == [] && !closed
    {
      ch, closed, made, calls := null, false, [], [];
    }

    /** Makes the present channel when there is none. */
    method MakeChannel()
      requires ch == null
      modifies this
      ensures ch != null && fresh(ch) && !ch.isClosed
      ensures made == old(made) + [ch] && closed == old(closed) && calls == old(calls)
    {
      ch := new Channel();
      made := made + [ch];
    }

    /** A channel that is closed when the event is on. */
    method C() returns (c: Channel)
      requires Valid()
      modifies this
      ensures Valid() && calls == old(calls) + [Op.C] && old(made) <= made
      ensures c == ch && c in made && closed == old(closed) && c.isClosed == closed
      ensures old(ch) != null ==> c == old(ch) && made == old(made)
    {
      AfterOne(calls, Op.C);
      if ch == null {
        MakeChannel();
      }
      calls := calls + [Op.C];
      c := ch;
    }

    /** Turning off forgets the closed channel; an event that is off is left alone. */
    method Clear()
      requires Valid()
      modifies this
      ensures Valid() && calls == old(calls) + [Op.Clear] && made == old(made)
      ensures !closed && ch == if old(closed) then null else old(ch)
    {
      AfterOne(calls, Op.Clear);
      ghost var l := After(calls);
      assert l.Step(Op.Clear) == if closed then Latch(l.closings, -1, false) else l;
      if closed {
        ch := null;
        closed := false;
      }
      assert Shows(l.Step(Op.Clear));
      calls := calls + [Op.Clear];
    }

    /** Closes the present channel, made for the purpose if there is none. */
    method TurnOn(ghost l: Latch)
      requires Shows(l) && !l.on
      modifies this, ch
      ensures Shows(l.Step(Op.Set)) && closed && old(made) <= made && calls == old(calls)
    {
      assert l.Step(Op.Set).closings == l.WithChannel().closings[l.WithChannel().current := 1];
      if ch == null {
        MakeChannel();
      }
      ch.Close();
      closed := true;
    }

    /** Turning on for the first time closes every channel ever handed out, each only once. */
    method Set() returns (first: bool)
      requires Valid()
      modifies this, ch
      ensures Valid() && calls == old(calls) + [Op.Set] && old(made) <= made
      ensures closed && first == !old(closed)
      ensures forall c :: c in made ==> c.isClosed
      ensures !first ==> ch == old(ch) && made == old(made)
    {
      AfterOne(calls, Op.Set);
      first := !closed;
      if first {
        TurnOn(After(calls));
      }
      calls := calls + [Op.Set];
    }

    method SetBool(b: bool)
      requires Valid()
      modifies this, ch
      ensures Valid() && calls == old(calls) + [Op.SetBool(b)] && old(made) <= made
      ensures closed == b
      ensures b ==> forall c :: c in made ==> c.isClosed
      ensures !b ==> made == old(made) && ch == if old(closed) then null else old(ch)
    {
      SetBoolIsSetOrClear(calls, b);
      ghost var before := calls;
      if b {
        var _ := Set();
      } else {
        Clear();
      }
      assert Shows(After(before + [Op.SetBool(b)]));
      calls := before + [Op.SetBool(b)];
    }

    method IsSet() returns (on: bool)
      requires Valid()
      ensures on <==> ch != null && ch.isClosed
      ensures on <==> LastWriteIsOn(calls)
    {
      LatchOverRuns(calls);
      on := closed;
    }
  }
}
