/**
  The milk bucket (src/bucket/milk.rs): a stock of liters with a fixed
  capacity `full` and a level `filled`. The source keeps `filled` behind an
  async mutex; here every operation runs to completion on its own, which is
  the order the mutex imposes, and a refill tick is one `FillBy` call.
 */
module Milk {
  import opened BucketUnit

  /** The receipt of a withdrawal: what was actually handed out. */
  datatype Pack = Pack(liters: Liters)

  /** A `std::time::Duration`, in nanoseconds. */
  datatype Duration = Duration(nanos: nat)

  const ONE_SECOND: Duration := Duration(1_000_000_000)

  /** Refill by `amount` every `duration`; `RefillRate::new` is the constructor. */
  datatype RefillRate = RefillRate(amount: Liters, duration: Duration)

  /** `RefillRate::per_sec`. */
  function PerSec(amount: Liters): (r: RefillRate)
    ensures r.amount == amount && r.duration.nanos == 1_000_000_000
  {
    RefillRate(amount, ONE_SECOND)
  }

  function Min(a: real, b: real): real {
    if a <= b then a else b
  }

  /** The level after `fill_by(amount)`: saturates at `full`. */
  function FilledLevel(level: real, amount: real, full: real): (r: real)
    ensures r <= full
    ensures r == full || r == level + amount
    ensures level + amount <= full ==> r == level + amount
    ensures level + amount >= full ==> r == full
  {
    Min(level + amount, full)
  }

  /** The level and receipt of `withdraw_by(request)`: all or nothing. */
  function Withdrawal(level: real, request: real): (r: (real, Pack))
    ensures level - request >= 0.0 ==> r.0 == level - request && r.0 >= 0.0 && r.1 == Pack(Liters(request))
    ensures level - request < 0.0 ==> r.0 == level && r.1 == Pack(Liters(0.0))
  {
    var after := level - request;
    if after >= 0.0 then (after, Pack(Liters(request))) else (level, Pack(Liters(0.0)))
  }

  /** The level after `ticks` refill ticks of `amount` each. */
  function RefilledLevel(level: real, amount: real, full: real, ticks: nat): (r: real)
    ensures ticks >= 1 ==> r <= full
    decreases ticks
  {
    if ticks == 0 then level else FilledLevel(RefilledLevel(level, amount, full, ticks - 1), amount, full)
  }

  /** A tick of a non-negative amount never lowers a level at or below capacity. */
  lemma FillNeverLowers(level: real, amount: real, full: real)
    requires amount >= 0.0 && level <= full
    ensures level <= FilledLevel(level, amount, full) <= full
  {
  }

  /** `ticks` times `amount`, as repeated addition. */
  function Repeated(amount: real, ticks: nat): real
    decreases ticks
  {
    if ticks == 0 then 0.0 else Repeated(amount, ticks - 1) + amount
  }

  /**
    After at least one tick of a non-negative amount the level is the starting
    level plus all the ticks, cut off at capacity, whatever the starting level.
   */
  lemma {:induction false} RefilledClosedForm(level: real, amount: real, full: real, ticks: nat)
    requires amount >= 0.0 && ticks >= 1
    ensures RefilledLevel(level, amount, full, ticks) == Min(level + Repeated(amount, ticks), full)
    decreases ticks
  {
    if ticks > 1 {
      RefilledClosedForm(level, amount, full, ticks - 1);
    }
  }

  /** Refill ticks of a non-negative amount move the level monotonically up to capacity. */
  lemma {:induction false} RefillMonotone(level: real, amount: real, full: real, ticks: nat)
    requires amount >= 0.0 && level <= full
    ensures level <= RefilledLevel(level, amount, full, ticks) <= full
    ensures RefilledLevel(level, amount, full, ticks) <= RefilledLevel(level, amount, full, ticks + 1)
    decreases ticks
  {
    if ticks > 0 {
      RefillMonotone(level, amount, full, ticks - 1);
    }
  }

  /**
    Two withdrawals of the whole level, one after the other (the order the
    mutex imposes on two racing callers): the first gets it all, the second
    gets nothing, and the bucket ends empty.
   */
  lemma RacingWithdrawals(level: real)
    requires level > 0.0
    ensures var (after1, pack1) := Withdrawal(level, level);
            var (after2, pack2) := Withdrawal(after1, level);
            pack1 == Pack(Liters(level)) && pack2 == Pack(Liters(0.0)) && after2 == 0.0
  {
  }

  class MilkBucket {
    const full: Liters
    var filled: Liters

    /** `Builder::build`: capacity and level exactly as given; `initial <= full` is not checked. */
    constructor Build(full: real, initial: real)
      ensures this.full == Liters(full) && filled == Liters(initial)
    {
      this.full := Liters(full);
      filled := Liters(initial);
    }

    /** `available`: the current level. */
    function Available(): (l: Liters)
      reads this
      ensures l == filled
    {
      filled
    }

    /** `is_empty`: nothing (or less) left, exactly when no positive withdrawal is handed out. */
    predicate IsEmpty()
      reads this
      ensures IsEmpty() <==> forall q :: q > 0.0 ==> Withdrawal(Available().value, q).1 == Pack(Liters(0.0))
    {
      var l := Available().value;
      assert l > 0.0 ==> Withdrawal(l, l).1 == Pack(Liters(l));
      l <= 0.0
    }

    /** `is_full`: at or above capacity, exactly when every refill leaves the level at capacity. */
    predicate IsFull()
      reads this
      ensures IsFull() <==> forall a :: a >= 0.0 ==> FilledLevel(Available().value, a, full.value) == full.value
    {
      var l := Available().value;
      assert l < full.value ==> FilledLevel(l, 0.0, full.value) != full.value;
      l >= full.value
    }

    /** `fill_by`: add `liters`, saturating at capacity. */
    method FillBy(liters: Liters)
      modifies this
      ensures filled.value == FilledLevel(old(filled.value), liters.value, full.value)
      ensures filled.value <= full.value
    {
      var current := filled;
      var after := Min(current.value + liters.value, full.value);
      filled := Liters(after);
    }

    /** `fulfill`: refill to capacity. */
    method Fulfill()
      modifies this
      ensures filled == full
    {
      filled := full;
    }

    /** `withdraw_by`: hand out exactly `request` if that leaves a non-negative level, else nothing. */
    method WithdrawBy(request: Liters) returns (pack: Pack)
      modifies this
      ensures (filled.value, pack) == Withdrawal(old(filled.value), request.value)
    {
      var after := filled.value - request.value;
      if after >= 0.0 {
        filled := Liters(after);
        pack := Pack(request);
      } else {
        pack := Pack(Liters(0.0));
      }
    }

    /** `refill_task`, cut down to `ticks` ticks of its endless loop with the timer left out. */
    method RefillTicks(rate: RefillRate, ticks: nat)
      modifies this
      ensures filled.value == RefilledLevel(old(filled.value), rate.amount.value, full.value, ticks)
    {
      var done := 0;
      while done < ticks
        invariant done <= ticks
        invariant filled.value == RefilledLevel(old(filled.value), rate.amount.value, full.value, done)
      {
        FillBy(rate.amount);
        done := done + 1;
      }
    }
  }

  /** The scenarios of the bucket's design, proved from the contracts above. */
  method BucketScenarios()
  {
    var b := new MilkBucket.Build(5.0, 0.0);
    b.RefillTicks(PerSec(Liters(1.0)), 5);
    RefilledClosedForm(0.0, 1.0, 5.0, 5);
    assert b.Available() == Liters(5.0);
    b.FillBy(Liters(1.0));
    assert b.Available() == Liters(5.0) && b.IsFull();

    var c := new MilkBucket.Build(5.0, 5.0);
    var p := c.WithdrawBy(Liters(1.0));
    assert p == Pack(Liters(1.0)) && c.Available() == Liters(4.0);

    var d := new MilkBucket.Build(5.0, 0.5);
    p := d.WithdrawBy(Liters(1.0));
    assert p == Pack(Liters(0.0)) && d.Available() == Liters(0.5);

    var e := new MilkBucket.Build(5.0, 0.0);
    assert e.IsEmpty();
    e.Fulfill();
    assert e.Available() == Liters(5.0) && !e.IsEmpty();
  }
}
