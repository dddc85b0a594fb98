/**
 * Amounts as Python floats with their special values: a float may also be
 * +inf, -inf or nan, which `float("inf")`, `float("1e999")` or
 * `float("nan")` produce. Finite arithmetic here is exact, so the overflow
 * of a finite sum past the largest double into inf is not modelled. `amountIsValid` as written accepts +inf, so an
 * infinite deposit is taken and a later infinite withdrawal leaves nan,
 * after which no withdrawal is ever an overdraft. The corrected check asks
 * for a finite amount; on finite amounts it is exactly `Amounts.AmountIsValid`,
 * which is the check the rest of the model uses.
 */
module SpecialFloats {
  import opened Amounts
  import opened Accounts

  /** A Python float: a finite value or one of the three special values. */
  datatype Float = Finite(v: real) | PosInf | NegInf | NaN

  /** Python's `==` on floats: nan equals nothing, not even itself. */
  predicate Eq(a: Float, b: Float) {
    match (a, b)
    case (Finite(x), Finite(y)) => x == y
    case (PosInf, PosInf) => true
    case (NegInf, NegInf) => true
    case _ => false
  }

  /** Python's `a > b` on floats: every comparison with nan is false. */
  predicate Gt(a: Float, b: Float) {
    match (a, b)
    case (Finite(x), Finite(y)) => x > y
    case (PosInf, Finite(_)) => true
    case (PosInf, NegInf) => true
    case (Finite(_), NegInf) => true
    case _ => false
  }

  /** `a >= 0`. */
  predicate NonNegative(a: Float) {
    match a
    case Finite(x) => x >= 0.0
    case PosInf => true
    case _ => false
  }

  /** `round(a, 2)`: the special values come back unchanged. */
  function Round(a: Float): Float {
    match a
    case Finite(x) => Finite(Round2(x))
    case _ => a
  }

  function Negate(a: Float): Float {
    match a
    case Finite(x) => Finite(-x)
    case PosInf => NegInf
    case NegInf => PosInf
    case NaN => NaN
  }

  /**
   * IEEE addition on the special values: infinities of opposite sign give
   * nan. Two finite values add exactly; rounding and overflow are left out.
   */
  function Add(a: Float, b: Float): Float {
    match (a, b)
    case (NaN, _) => NaN
    case (_, NaN) => NaN
    case (Finite(x), Finite(y)) => Finite(x + y)
    case (PosInf, NegInf) => NaN
    case (NegInf, PosInf) => NaN
    case (PosInf, _) => PosInf
    case (_, PosInf) => PosInf
    case (NegInf, _) => NegInf
    case (_, NegInf) => NegInf
  }

  function Sub(a: Float, b: Float): Float {
    Add(a, Negate(b))
  }

  /** `amountIsValid` as written: `round(a, 2) == a and a >= 0`. */
  predicate ValidAsWritten(a: Float) {
    Eq(Round(a), a) && NonNegative(a)
  }

  /** The balance after the transaction and the result code. */
  datatype FloatTx = FloatTx(balance: Float, code: TxCode)

  /** `deposit` as written, on float balances. */
  function DepositAsWritten(balance: Float, amount: Float): (r: FloatTx)
    ensures r.code != Overdraft
    ensures r.code == InvalidAmount <==> !ValidAsWritten(amount)
    ensures r.code != Ok ==> r.balance == balance
  {
    if !ValidAsWritten(amount) then FloatTx(balance, InvalidAmount)
    else FloatTx(Round(Add(balance, amount)), Ok)
  }

  /** `withdraw` as written, on float balances. */
  function WithdrawAsWritten(balance: Float, amount: Float): (r: FloatTx)
    ensures r.code == InvalidAmount <==> !ValidAsWritten(amount)
    ensures r.code == Overdraft <==> ValidAsWritten(amount) && Gt(amount, balance)
    ensures r.code != Ok ==> r.balance == balance
  {
    if !ValidAsWritten(amount) then FloatTx(balance, InvalidAmount)
    else if Gt(amount, balance) then FloatTx(balance, Overdraft)
    else FloatTx(Round(Sub(balance, amount)), Ok)
  }

  /** nan and -inf are rejected, but +inf passes the check as written. */
  lemma InfinityPassesAsWritten()
    ensures ValidAsWritten(PosInf)
    ensures !ValidAsWritten(NaN) && !ValidAsWritten(NegInf)
  {
  }

  /**
   * From any finite balance: depositing inf succeeds and makes the balance
   * inf; withdrawing inf then succeeds and leaves nan; from then on every
   * valid withdrawal, however large, succeeds and the balance stays nan.
   */
  lemma InfinityBreaksTheBalance(b: real, later: Float)
    requires ValidAsWritten(later)
    ensures DepositAsWritten(Finite(b), PosInf) == FloatTx(PosInf, Ok)
    ensures WithdrawAsWritten(PosInf, PosInf) == FloatTx(NaN, Ok)
    ensures WithdrawAsWritten(NaN, later) == FloatTx(NaN, Ok)
  {
  }

  /** The corrected check: a finite, non-negative amount with at most two decimals. */
  predicate ValidCorrected(a: Float) {
    a.Finite? && AmountIsValid(a.v)
  }

  /** The corrected check rejects every special value and agrees with the as-written one on finite amounts. */
  lemma CorrectedCheck(a: Float)
    ensures ValidCorrected(a) ==> ValidAsWritten(a)
    ensures ValidAsWritten(a) && !ValidCorrected(a) <==> a == PosInf
    ensures a.Finite? ==> (ValidCorrected(a) <==> AmountIsValid(a.v))
  {
  }

  /** `deposit` with the corrected check. */
  function DepositCorrected(balance: Float, amount: Float): FloatTx {
    if !ValidCorrected(amount) then FloatTx(balance, InvalidAmount)
    else FloatTx(Round(Add(balance, amount)), Ok)
  }

  /** `withdraw` with the corrected check. */
  function WithdrawCorrected(balance: Float, amount: Float): FloatTx {
    if !ValidCorrected(amount) then FloatTx(balance, InvalidAmount)
    else if Gt(amount, balance) then FloatTx(balance, Overdraft)
    else FloatTx(Round(Sub(balance, amount)), Ok)
  }

  /**
   * With the corrected check and exact finite addition, a deposit keeps a
   * valid finite balance finite and valid: it is exactly `Accounts.Deposit` on the real value, and a
   * special amount is rejected with code 1.
   */
  lemma CorrectedDepositStaysFinite(a: Account, amount: Float)
    requires AccountOk(a)
    ensures DepositCorrected(Finite(a.balance), amount).balance.Finite?
    ensures AmountIsValid(DepositCorrected(Finite(a.balance), amount).balance.v)
    ensures amount.Finite? ==>
              DepositCorrected(Finite(a.balance), amount) ==
              FloatTx(Finite(Deposit(a, amount.v).account.balance), Deposit(a, amount.v).code)
    ensures !amount.Finite? ==> DepositCorrected(Finite(a.balance), amount) == FloatTx(Finite(a.balance), InvalidAmount)
  {
    if ValidCorrected(amount) {
      ValidSum(a.balance, amount.v);
    }
  }

  /**
   * With the corrected check a withdrawal keeps a valid finite balance
   * finite and valid: it is exactly `Accounts.Withdraw` on the real value,
   * and a special amount is rejected with code 1.
   */
  lemma CorrectedWithdrawStaysFinite(a: Account, amount: Float)
    requires AccountOk(a)
    ensures WithdrawCorrected(Finite(a.balance), amount).balance.Finite?
    ensures AmountIsValid(WithdrawCorrected(Finite(a.balance), amount).balance.v)
    ensures amount.Finite? ==>
              WithdrawCorrected(Finite(a.balance), amount) ==
              FloatTx(Finite(Withdraw(a, amount.v).account.balance), Withdraw(a, amount.v).code)
    ensures !amount.Finite? ==> WithdrawCorrected(Finite(a.balance), amount) == FloatTx(Finite(a.balance), InvalidAmount)
  {
    if ValidCorrected(amount) && amount.v <= a.balance {
      ValidDifference(a.balance, amount.v);
      assert Sub(Finite(a.balance), amount) == Finite(a.balance - amount.v);
    }
  }
}
