/**
 * The `Credit` account of credit.rb: a credit limit, an annual rate, the day
 * the account was opened, the remaining balance and an append-only log of
 * transactions. The account is first modelled as a value with one function
 * per operation, then as a class whose methods update its fields in place
 * and are proved against those functions.
 *
 * Days are whole day numbers passed in by the caller; amounts are integers;
 * the rate and the interest are reals.
 */
module CreditAccount {

  /** A logged transaction: the day in the 30-day cycle, and the amount (negative for a withdrawal). */
  datatype Transaction = Transaction(day: int, amount: int)

  /** The day in the cycle logged for an operation made on `today`: one more than the days elapsed, modulo 30. */
  function Period(startedDate: int, today: int): (p: int)
    ensures 0 <= p < 30
    ensures exists q :: today - startedDate + 1 == 30 * q + p
  {
    var elapsed := today - startedDate + 1;
    assert elapsed == 30 * (elapsed / 30) + elapsed % 30;
    elapsed % 30
  }

  /** The sum of the amounts in a log. */
  function Sum(log: seq<Transaction>): int
  {
    if log == [] then 0 else Sum(log[..|log| - 1]) + log[|log| - 1].amount
  }

  lemma SumSnoc(log: seq<Transaction>, t: Transaction)
    ensures Sum(log + [t]) == Sum(log) + t.amount
  {
    assert (log + [t])[..|log|] == log;
  }

  /** The state of a `Credit` object. */
  datatype Account = Account(creditLimit: int, apr: real, startedDate: int, balance: int, log: seq<Transaction>)

  /** `initialize`: the whole limit is available and nothing is logged yet. */
  function Open(creditLimit: int, rate: real, today: int): (a: Account)
    ensures a.balance == a.creditLimit == creditLimit && a.apr == rate && a.startedDate == today
    ensures a.log == []
  {
    Account(creditLimit, rate, today, creditLimit, [])
  }

  /**
   * `withdraw`: refused, with nothing changed, when the amount exceeds the
   * balance; otherwise the balance drops by the amount and the withdrawal is
   * logged as a negative amount.
   */
  function Withdrawn(a: Account, amount: int, today: int): (r: Account)
  {
    if amount > a.balance then a
    else a.(balance := a.balance - amount,
            log := a.log + [Transaction(Period(a.startedDate, today), -amount)])
  }

  /** `deposit`: always accepted; the balance grows by the amount and the deposit is logged. */
  function Deposited(a: Account, amount: int, today: int): (r: Account)
  {
    a.(balance := a.balance + amount,
       log := a.log + [Transaction(Period(a.startedDate, today), amount)])
  }

  /** What the holder owes: the part of the limit not available any more. */
  function Owed(a: Account): int
  {
    a.creditLimit - a.balance
  }

  /** The log accounts for the balance, and every logged day lies in the 30-day cycle. */
  ghost predicate Ledger(a: Account)
  {
    && a.balance == a.creditLimit + Sum(a.log)
    && (forall i :: 0 <= i < |a.log| ==> 0 <= a.log[i].day < 30)
  }

  lemma OpenLedger(creditLimit: int, rate: real, today: int)
    ensures Ledger(Open(creditLimit, rate, today))
    ensures Owed(Open(creditLimit, rate, today)) == 0
  {
  }

  /**
   * A withdrawal of at most the balance is accepted: it lowers the balance by
   * the amount, appends one negative entry for the current cycle day and
   * keeps the ledger; a larger one changes nothing.
   */
  lemma WithdrawnSpec(a: Account, amount: int, today: int)
    requires Ledger(a)
    ensures Ledger(Withdrawn(a, amount, today))
    ensures amount > a.balance ==> Withdrawn(a, amount, today) == a
    ensures amount <= a.balance ==>
      && Withdrawn(a, amount, today).balance == a.balance - amount
      && Withdrawn(a, amount, today).log == a.log + [Transaction(Period(a.startedDate, today), -amount)]
      && Owed(Withdrawn(a, amount, today)) == Owed(a) + amount
    ensures Withdrawn(a, amount, today).creditLimit == a.creditLimit
    ensures Withdrawn(a, amount, today).apr == a.apr
    ensures Withdrawn(a, amount, today).startedDate == a.startedDate
  {
    if amount <= a.balance {
      SumSnoc(a.log, Transaction(Period(a.startedDate, today), -amount));
    }
  }

  /** A deposit raises the balance by the amount, appends one entry and keeps the ledger. */
  lemma DepositedSpec(a: Account, amount: int, today: int)
    requires Ledger(a)
    ensures Ledger(Deposited(a, amount, today))
    ensures Deposited(a, amount, today).balance == a.balance + amount
    ensures Deposited(a, amount, today).log == a.log + [Transaction(Period(a.startedDate, today), amount)]
    ensures Owed(Deposited(a, amount, today)) == Owed(a) - amount
    ensures Deposited(a, amount, today).creditLimit == a.creditLimit
    ensures Deposited(a, amount, today).apr == a.apr
    ensures Deposited(a, amount, today).startedDate == a.startedDate
  {
    SumSnoc(a.log, Transaction(Period(a.startedDate, today), amount));
  }

  /** Under the ledger, what is owed is exactly the negated sum of the log. */
  lemma OwedIsLog(a: Account)
    requires Ledger(a)
    ensures Owed(a) == -Sum(a.log)
  {
  }

  // ---------------------------------------------------------------------------
  // Any sequence of operations

  datatype Op = Withdraw(amount: int, today: int) | Deposit(amount: int, today: int)

  function Apply(a: Account, op: Op): Account
  {
    match op
    case Withdraw(amount, today) => Withdrawn(a, amount, today)
    case Deposit(amount, today) => Deposited(a, amount, today)
  }

  /** The account after a sequence of operations, the first one applied first. */
  function Run(a: Account, ops: seq<Op>): Account
    decreases |ops|
  {
    if ops == [] then a else Run(Apply(a, ops[0]), ops[1..])
  }

  /** Every sequence of operations keeps the ledger and the fixed fields, and only appends to the log. */
  lemma {:induction false} RunLedger(a: Account, ops: seq<Op>)
    requires Ledger(a)
    ensures Ledger(Run(a, ops))
    ensures Run(a, ops).creditLimit == a.creditLimit && Run(a, ops).apr == a.apr
    ensures Run(a, ops).startedDate == a.startedDate
    ensures |a.log| <= |Run(a, ops).log| <= |a.log| + |ops|
    ensures Run(a, ops).log[..|a.log|] == a.log
    decreases |ops|
  {
    if ops != [] {
      var b := Apply(a, ops[0]);
      match ops[0] {
        case Withdraw(amount, today) => WithdrawnSpec(a, amount, today);
        case Deposit(amount, today) => DepositedSpec(a, amount, today);
      }
      assert |a.log| <= |b.log| <= |a.log| + 1 && b.log[..|a.log|] == a.log;
      RunLedger(b, ops[1..]);
      assert Run(a, ops).log[..|b.log|] == b.log;
      assert Run(a, ops).log[..|a.log|] == b.log[..|a.log|];
    }
  }

  /** A deposit is never negative. */
  predicate NoNegativeDeposit(ops: seq<Op>)
  {
    forall i :: 0 <= i < |ops| && ops[i].Deposit? ==> ops[i].amount >= 0
  }

  /**
   * Starting from a balance that is not negative, and with no negative
   * deposit, the balance never becomes negative: the guard of `withdraw`
   * refuses every overdraw.
   */
  lemma {:induction false} RunNonNegative(a: Account, ops: seq<Op>)
    requires a.balance >= 0 && NoNegativeDeposit(ops)
    ensures Run(a, ops).balance >= 0
    decreases |ops|
  {
    if ops != [] {
      assert ops[0].Deposit? ==> ops[0].amount >= 0;
      var b := Apply(a, ops[0]);
      assert b.balance >= 0;
      assert NoNegativeDeposit(ops[1..]) by {
        forall i | 0 <= i < |ops[1..]| && ops[1..][i].Deposit?
          ensures ops[1..][i].amount >= 0
        {
          assert ops[1..][i] == ops[i + 1];
        }
      }
      RunNonNegative(b, ops[1..]);
    }
  }

  // ---------------------------------------------------------------------------
  // Interest

  /**
   * What one transaction adds to the interest of the cycle: a withdrawal
   * (negative amount) on cycle day `day` accrues `(31 - day) * amount * apr / 365`,
   * a deposit takes the same away.
   */
  function Accrual(t: Transaction, apr: real): real
  {
    -(((31 - t.day) * t.amount) as real * apr / 365.0)
  }

  /** The interest accrued by a whole log, summed in the order of the log. */
  function Accrued(log: seq<Transaction>, apr: real): real
  {
    if log == [] then 0.0 else Accrued(log[..|log| - 1], apr) + Accrual(log[|log| - 1], apr)
  }

  /** `calculateInterest`, without the rounding to cents: the accrued interest, or nothing when it is negative. */
  function Interest(log: seq<Transaction>, apr: real): (r: real)
    ensures r >= 0.0
    ensures r == 0.0 || r == Accrued(log, apr)
    ensures Accrued(log, apr) >= 0.0 ==> r == Accrued(log, apr)
  {
    var total := Accrued(log, apr);
    if total < 0.0 then 0.0 else total
  }

  lemma AccruedSnoc(log: seq<Transaction>, t: Transaction, apr: real)
    ensures Accrued(log + [t], apr) == Accrued(log, apr) + Accrual(t, apr)
  {
    assert (log + [t])[..|log|] == log;
  }

  /** The interest of two logs placed one after the other is the sum of their interests. */
  lemma {:induction false} AccruedAppend(a: seq<Transaction>, b: seq<Transaction>, apr: real)
    ensures Accrued(a + b, apr) == Accrued(a, apr) + Accrued(b, apr)
    decreases |b|
  {
    if b == [] {
      assert a + b == a;
    } else {
      var c := b[..|b| - 1];
      var t := b[|b| - 1];
      assert a + b == (a + c) + [t];
      assert b == c + [t];
      AccruedSnoc(a + c, t, apr);
      AccruedSnoc(c, t, apr);
      AccruedAppend(a, c, apr);
    }
  }

  /** A deposit cancels the accrual of a withdrawal of the same amount on the same day. */
  lemma AccrualOpposite(day: int, amount: int, apr: real)
    ensures Accrual(Transaction(day, -amount), apr) == -Accrual(Transaction(day, amount), apr)
  {
    var w := ((31 - day) * amount) as real;
    assert (31 - day) * -amount == -((31 - day) * amount);
    assert ((31 - day) * -amount) as real == -w;
    assert -w * apr / 365.0 == -(w * apr / 365.0);
  }

  /** Paying back a withdrawal on the day it was made leaves the interest as it was. */
  lemma RepaidSameDay(log: seq<Transaction>, day: int, amount: int, apr: real)
    ensures Accrued(log + [Transaction(day, -amount), Transaction(day, amount)], apr) == Accrued(log, apr)
  {
    var out, back := Transaction(day, -amount), Transaction(day, amount);
    assert log + [out, back] == (log + [out]) + [back];
    AccruedSnoc(log + [out], back, apr);
    AccruedSnoc(log, out, apr);
    AccrualOpposite(day, amount, apr);
  }

  /**
   * At a non-negative rate, a withdrawal logged on a day of the cycle never
   * lowers the interest, and a deposit never raises it.
   */
  lemma AccrualSign(t: Transaction, apr: real)
    requires 0 <= t.day < 30 && apr >= 0.0
    ensures t.amount <= 0 ==> Accrual(t, apr) >= 0.0
    ensures t.amount >= 0 ==> Accrual(t, apr) <= 0.0
  {
    var w := ((31 - t.day) * t.amount) as real;
    assert t.amount <= 0 ==> w <= 0.0;
    assert t.amount >= 0 ==> w >= 0.0;
    assert t.amount <= 0 ==> w * apr <= 0.0;
    assert t.amount >= 0 ==> w * apr >= 0.0;
  }

  /** The interest `credit_test.rb` expects after withdrawing 500 at a rate of 0.35 on the first day: 5250 / 365, which rounds to 14.38. */
  lemma FirstDayWithdrawal(today: int)
    ensures Withdrawn(Open(1000, 0.35, today), 500, today).balance == 500
    ensures Withdrawn(Open(1000, 0.35, today), 500, today).log == [Transaction(1, -500)]
    ensures Interest(Withdrawn(Open(1000, 0.35, today), 500, today).log, 0.35) == 5250.0 / 365.0
  {
    var log := [Transaction(1, -500)];
    AccruedSnoc([], Transaction(1, -500), 0.35);
    assert [] + [Transaction(1, -500)] == log;
  }

  // ---------------------------------------------------------------------------
  // The object

  class Credit {
    const creditLimit: int
    const apr: real
    const startedDate: int
    var balance: int
    var transactions: seq<Transaction>

    /** The account this object holds. */
    function State(): Account
      reads this
    {
      Account(creditLimit, apr, startedDate, balance, transactions)
    }

    ghost predicate Valid()
      reads this
    {
      Ledger(State())
    }

    /** `initialize`, with the current day given as `today`. */
    constructor(creditLimit: int, rate: real, today: int)
      ensures State() == Open(creditLimit, rate, today)
      ensures Valid()
    {
      this.creditLimit := creditLimit;
      apr := rate;
      balance := creditLimit;
      startedDate := today;
      transactions := [];
    }

    /** `withdraw`, made on `today`. */
    method Withdraw(amount: int, today: int)
      requires Valid()
      modifies this
      ensures State() == Withdrawn(old(State()), amount, today)
      ensures Valid()
    {
      WithdrawnSpec(State(), amount, today);
      if amount <= balance {
        var remainingPeriods := (today - startedDate + 1) % 30;
        balance := balance - amount;
        var current := Transaction(remainingPeriods, -amount);
        transactions := transactions + [current];
      }
    }

    /** `deposit`, made on `today`. */
    method Deposit(amount: int, today: int)
      requires Valid()
      modifies this
      ensures State() == Deposited(old(State()), amount, today)
      ensures Valid()
    {
      DepositedSpec(State(), amount, today);
      var remainingPeriods := (today - startedDate + 1) % 30;
      balance := balance + amount;
      var current := Transaction(remainingPeriods, amount);
      transactions := transactions + [current];
    }

    /** `calculateInterest`: one pass over the log, then the clamp at zero. */
    method CalculateInterest() returns (interest: real)
      ensures interest == Interest(transactions, apr)
    {
      interest := 0.0;
      for i := 0 to |transactions|
        invariant interest == Accrued(transactions[..i], apr)
      {
        AccruedSnoc(transactions[..i], transactions[i], apr);
        assert transactions[..i + 1] == transactions[..i] + [transactions[i]];
        interest := interest + Accrual(transactions[i], apr);
      }
      assert transactions[..|transactions|] == transactions;
      if interest < 0.0 {
        interest := 0.0;
      }
    }
  }
}
