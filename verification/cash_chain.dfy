/**
 * The cash-dispensing chain of responsibility: each handler pays out as many
 * bills of its denomination as fit in the amount it receives and passes the
 * remainder on to the next handler, if there is one and something remains.
 * The chain of handler objects is a non-empty sequence of denominations, the
 * first element being the handler the client calls.
 */
module CashChain {

  type Denomination = d: int | d > 0 witness 1

  /** A "Dispensing n $d bills" report. */
  datatype Bills = Bills(denomination: Denomination, count: int)

  /**
   * The outcome of one call on the head of a chain: the amount each handler
   * that was reached received (in chain order), the bills reported, and the
   * remainder the last reached handler kept (paid to nobody).
   */
  datatype Payout = Payout(received: seq<int>, notes: seq<Bills>, leftover: int)

  /**
   * One handler's arithmetic: Python's `amount // d` and `amount % d`, which
   * for a positive divisor agree with Dafny's Euclidean operators.
   */
  function Split(d: Denomination, amount: int): (r: (int, int))
    ensures r.0 * d + r.1 == amount
    ensures 0 <= r.1 < d
  {
    (amount / d, amount % d)
  }

  /** The total value of a list of reports. */
  function Value(notes: seq<Bills>): int
  {
    if |notes| == 0 then 0 else notes[0].count * notes[0].denomination + Value(notes[1..])
  }

  /**
   * A handler that received `amount` passed `next` on: a positive remainder
   * of its denomination.
   */
  predicate Forwarded(d: Denomination, amount: int, next: int)
  {
    next == amount % d && 0 < next < d
  }

  /**
   * The reports a run produces when the handlers of `chain` received the
   * amounts `received`, in order: each reached handler reports its own bill
   * count `amount // d`, and only when that count is positive.
   */
  function Reports(chain: seq<Denomination>, received: seq<int>): seq<Bills>
    requires |received| <= |chain|
  {
    if |received| == 0 then []
    else
      var bills := received[0] / chain[0];
      (if bills > 0 then [Bills(chain[0], bills)] else []) + Reports(chain[1..], received[1..])
  }

  /** A handler that received `amount` kept `leftover`: its remainder. */
  predicate Kept(d: Denomination, amount: int, leftover: int)
  {
    leftover == amount % d
  }

  /**
   * `dispense` on the first handler of `chain`.  A handler reports only a
   * positive number of bills, and forwards only a positive remainder to an
   * existing next handler; otherwise the remainder stays with it.
   */
  function Dispense(chain: seq<Denomination>, amount: int): (p: Payout)
    requires |chain| > 0
    ensures 1 <= |p.received| <= |chain| && p.received[0] == amount
    ensures forall i :: 0 < i < |p.received| ==> Forwarded(chain[i - 1], p.received[i - 1], p.received[i])
    ensures Kept(chain[|p.received| - 1], p.received[|p.received| - 1], p.leftover)
    ensures |p.received| < |chain| ==> p.leftover == 0
    ensures 0 <= p.leftover < chain[|p.received| - 1]
    ensures forall i :: 0 <= i < |p.notes| ==> p.notes[i].count > 0 && p.notes[i].denomination in chain
    decreases |chain|
  {
    var d := chain[0];
    var (bills, remainder) := Split(d, amount);
    var report := if bills > 0 then [Bills(d, bills)] else [];
    if remainder > 0 && |chain| > 1 then
      var tail := chain[1..];
      var rest := Dispense(tail, remainder);
      var received := [amount] + rest.received;
      assert forall i :: 0 < i < |received| ==> received[i] == rest.received[i - 1] && chain[i] == tail[i - 1];
      Payout(received, report + rest.notes, rest.leftover)
    else
      Payout([amount], report, remainder)
  }

  /**
   * The bills a call reports are exactly those of the reached handlers, each
   * reporting `amount // d` of its own denomination when that is positive.
   */
  lemma {:induction false} DispenseReports(chain: seq<Denomination>, amount: int)
    requires |chain| > 0
    ensures Dispense(chain, amount).notes == Reports(chain, Dispense(chain, amount).received)
    decreases |chain|
  {
    var d := chain[0];
    var (bills, remainder) := Split(d, amount);
    if remainder > 0 && |chain| > 1 {
      DispenseReports(chain[1..], remainder);
      var p := Dispense(chain, amount);
      assert p.received[1..] == Dispense(chain[1..], remainder).received;
    }
  }

  lemma {:induction false} ValueAppend(a: seq<Bills>, b: seq<Bills>)
    ensures Value(a + b) == Value(a) + Value(b)
    decreases |a|
  {
    if |a| == 0 {
      assert a + b == b;
    } else {
      assert (a + b)[1..] == a[1..] + b;
      ValueAppend(a[1..], b);
    }
  }

  /**
   * For a non-negative request the reported bills and the kept remainder add
   * up to exactly the amount requested: nothing is created or lost.
   */
  lemma {:induction false} Conservation(chain: seq<Denomination>, amount: int)
    requires |chain| > 0 && amount >= 0
    ensures Value(Dispense(chain, amount).notes) + Dispense(chain, amount).leftover == amount
    decreases |chain|
  {
    var d := chain[0];
    var (bills, remainder) := Split(d, amount);
    assert bills >= 0 by {
      if bills < 0 {
        MultipleAtLeast(-bills, d);
      }
    }
    var report := if bills > 0 then [Bills(d, bills)] else [];
    assert Value(report) == bills * d;
    if remainder > 0 && |chain| > 1 {
      var rest := Dispense(chain[1..], remainder);
      Conservation(chain[1..], remainder);
      ValueAppend(report, rest.notes);
    }
  }

  /** `n` is a multiple of `m`. */
  predicate Divides(m: Denomination, n: int)
  {
    n % m == 0
  }

  /** A positive multiple of `m` is at least `m`. */
  lemma MultipleAtLeast(k: int, m: Denomination)
    requires k >= 1
    ensures k * m >= m
  {
    assert k * m == (k - 1) * m + m;
  }

  /** The Euclidean remainder is the only remainder in range. */
  lemma ModUnique(a: int, m: Denomination, q: int, r: int)
    requires a == q * m + r && 0 <= r < m
    ensures a % m == r
  {
    var q' := a / m;
    var r' := a % m;
    assert (q - q') * m == r' - r;
    if q > q' {
      MultipleAtLeast(q - q', m);
    } else if q < q' {
      MultipleAtLeast(q' - q, m);
    }
  }

  /** Any quotient and in-range remainder that rebuild the amount are the handler's split. */
  lemma SplitUnique(d: Denomination, amount: int, bills: int, remainder: int)
    requires amount == bills * d + remainder && 0 <= remainder < d
    ensures Split(d, amount) == (bills, remainder)
  {
    ModUnique(amount, d, bills, remainder);
    var q := amount / d;
    assert (q - bills) * d == 0;
    if q > bills {
      MultipleAtLeast(q - bills, d);
    } else if q < bills {
      MultipleAtLeast(bills - q, d);
    }
  }

  /** Reducing modulo a multiple of `m` first does not change the residue mod `m`. */
  lemma ModOfMultiple(a: int, d: Denomination, m: Denomination)
    requires Divides(m, d)
    ensures (a % d) % m == a % m
  {
    var k := d / m;
    assert d == k * m;
    var q := a / d;
    assert a == (q * k) * m + a % d by {
      assert a == q * d + a % d;
      assert q * d == q * (k * m) == (q * k) * m;
    }
    var r := (a % d) % m;
    var q2 := (a % d) / m;
    assert a == (q * k + q2) * m + r by {
      assert a % d == q2 * m + r;
    }
    ModUnique(a, m, q * k + q2, r);
  }

  /**
   * When the last denomination divides every denomination of the chain, the
   * kept remainder is exactly the request modulo the last denomination.
   */
  lemma {:induction false} LeftoverIsResidue(chain: seq<Denomination>, amount: int)
    requires |chain| > 0
    requires forall i :: 0 <= i < |chain| ==> Divides(chain[|chain| - 1], chain[i])
    ensures Dispense(chain, amount).leftover == amount % chain[|chain| - 1]
    decreases |chain|
  {
    var d := chain[0];
    var last := chain[|chain| - 1];
    var (bills, remainder) := Split(d, amount);
    if remainder > 0 && |chain| > 1 {
      assert forall i :: 0 <= i < |chain[1..]| ==> chain[1..][i] == chain[i + 1];
      LeftoverIsResidue(chain[1..], remainder);
      ModOfMultiple(amount, d, last);
    } else if remainder == 0 {
      ModOfMultiple(amount, d, last);
    }
  }

  /** A chain whose denominations strictly decrease from head to tail. */
  predicate Descending(chain: seq<Denomination>)
  {
    forall i, j :: 0 <= i < j < |chain| ==> chain[i] > chain[j]
  }

  /** Reports whose denominations strictly decrease. */
  predicate DescendingNotes(notes: seq<Bills>)
  {
    forall i, j :: 0 <= i < j < |notes| ==> notes[i].denomination > notes[j].denomination
  }

  /**
   * A descending chain reports bills in strictly descending denominations,
   * none above the head's (so each denomination is reported at most once).
   */
  lemma {:induction false} NotesDescend(chain: seq<Denomination>, amount: int)
    requires |chain| > 0 && Descending(chain)
    ensures DescendingNotes(Dispense(chain, amount).notes)
    ensures forall i :: 0 <= i < |Dispense(chain, amount).notes| ==>
              Dispense(chain, amount).notes[i].denomination <= chain[0]
    decreases |chain|
  {
    var d := chain[0];
    var (bills, remainder) := Split(d, amount);
    var report := if bills > 0 then [Bills(d, bills)] else [];
    if remainder > 0 && |chain| > 1 {
      var tail := chain[1..];
      assert Descending(tail) by {
        forall i, j | 0 <= i < j < |tail|
          ensures tail[i] > tail[j]
        {
          assert tail[i] == chain[i + 1] && tail[j] == chain[j + 1];
        }
      }
      NotesDescend(tail, remainder);
      var rest := Dispense(tail, remainder).notes;
      assert tail[0] < d by {
        assert chain[0] > chain[1];
      }
      LeadingNote(report, rest, d);
      assert Dispense(chain, amount).notes == report + rest;
    } else {
      assert Dispense(chain, amount).notes == report;
    }
  }

  /** Prefixing a descending list of lower denominations with one note of `d`. */
  lemma LeadingNote(report: seq<Bills>, rest: seq<Bills>, d: Denomination)
    requires |report| <= 1 && forall i :: 0 <= i < |report| ==> report[i].denomination == d
    requires DescendingNotes(rest)
    requires forall i :: 0 <= i < |rest| ==> rest[i].denomination < d
    ensures DescendingNotes(report + rest)
    ensures forall i :: 0 <= i < |report + rest| ==> (report + rest)[i].denomination <= d
  {
    var notes := report + rest;
    forall i, j | 0 <= i < j < |notes|
      ensures notes[i].denomination > notes[j].denomination
    {
      assert notes[j] == rest[j - |report|];
      if i >= |report| {
        assert notes[i] == rest[i - |report|];
      }
    }
  }

  /** The chain the client builds: $100, then $50, then $20, then $10. */
  const Standard: seq<Denomination> := [100, 50, 20, 10]

  /** On the standard chain the remainder left over is always the request mod 10. */
  lemma StandardLeftover(amount: int)
    ensures Dispense(Standard, amount).leftover == amount % 10
    ensures amount >= 0 ==> Value(Dispense(Standard, amount).notes) + amount % 10 == amount
  {
    LeftoverIsResidue(Standard, amount);
    if amount >= 0 {
      Conservation(Standard, amount);
    }
  }

  /**
   * A head handler that splits `amount` into `bills` and a positive
   * `remainder` reports its bills (if any) and hands the rest of the run to
   * the next handler.
   */
  lemma HeadForwards(chain: seq<Denomination>, amount: int, bills: int, remainder: int)
    requires |chain| > 1 && amount == bills * chain[0] + remainder && 0 < remainder < chain[0]
    ensures Dispense(chain, amount).notes ==
              (if bills > 0 then [Bills(chain[0], bills)] else []) + Dispense(chain[1..], remainder).notes
    ensures Dispense(chain, amount).leftover == Dispense(chain[1..], remainder).leftover
  {
    SplitUnique(chain[0], amount, bills, remainder);
  }

  /** The client's request of 230: two $100 bills, one $20, one $10, no $50. */
  lemma Dispense230()
    ensures Dispense(Standard, 230).notes == [Bills(100, 2), Bills(20, 1), Bills(10, 1)]
    ensures Dispense(Standard, 230).leftover == 0
  {
    assert Standard[1..] == [50, 20, 10];
    HeadForwards(Standard, 230, 2, 30);
    FiftyOnward(30, 0);
  }

  /**
   * A request for 235 pays out 230 and the last handler keeps 5, since it has
   * no next handler to forward it to.
   */
  lemma Dispense235()
    ensures Dispense(Standard, 235).notes == [Bills(100, 2), Bills(20, 1), Bills(10, 1)]
    ensures Dispense(Standard, 235).leftover == 5
  {
    FiftyOnward(35, 5);
    HeadForwards(Standard, 235, 2, 35);
    assert Standard[1..] == [50, 20, 10];
  }

  /** 30 + k (k < 10) reaching the $50 handler: no $50, one $20, one $10, k kept. */
  lemma FiftyOnward(amount: int, k: int)
    requires amount == 30 + k && 0 <= k < 10
    ensures Dispense([50, 20, 10], amount).notes == [Bills(20, 1), Bills(10, 1)]
    ensures Dispense([50, 20, 10], amount).leftover == k
  {
    assert [50, 20, 10][1..] == [20, 10];
    HeadForwards([50, 20, 10], amount, 0, amount);
    TwentyOnward(amount, k);
  }

  /** 30 + k (k < 10) reaching the $20 handler: one $20, one $10, k kept. */
  lemma TwentyOnward(amount: int, k: int)
    requires amount == 30 + k && 0 <= k < 10
    ensures Dispense([20, 10], amount).notes == [Bills(20, 1), Bills(10, 1)]
    ensures Dispense([20, 10], amount).leftover == k
  {
    SplitUnique(10, 10 + k, 1, k);
    SplitUnique(20, amount, 1, 10 + k);
    assert [20, 10][1..] == [10];
  }

  /**
   * A negative request is not rejected: floor division gives the $100
   * handler a negative bill count (not reported) and a remainder in
   * [0, 100), forwarded when positive, so a request for -30 pays out a $50
   * and a $20 bill.
   */
  lemma NegativeRequest()
    ensures Dispense(Standard, -30).notes == [Bills(50, 1), Bills(20, 1)]
    ensures Value(Dispense(Standard, -30).notes) == 70
  {
    SeventyFromFifty();
    HeadForwards(Standard, -30, -1, 70);
    assert Standard[1..] == [50, 20, 10];
    assert Value([Bills(50, 1), Bills(20, 1)]) == 70;
  }

  /** 70 reaching the $50 handler pays one $50 and one $20. */
  lemma SeventyFromFifty()
    ensures Dispense([50, 20, 10], 70).notes == [Bills(50, 1), Bills(20, 1)]
  {
    assert [50, 20, 10][1..] == [20, 10];
    HeadForwards([50, 20, 10], 70, 1, 20);
    SplitUnique(20, 20, 1, 0);
    assert Dispense([20, 10], 20).notes == [Bills(20, 1)];
  }
}
