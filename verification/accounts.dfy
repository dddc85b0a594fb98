/**
 * A bank account record and its three operations: the PIN check, a
 * deposit and a withdrawal, each of which reports a result code.
 */
module Accounts {
  import opened Text
  import opened Amounts

  /** `acctNumberIsValid`: the shape `AA-NNNNN`, two letters, a dash, five digits. */
  predicate AcctNumberIsValid(s: string) {
    |s| == 8 && s[2] == '-' && IsAlphaStr(s[..2]) && IsDigitStr(s[3..8])
  }

  /** `acctPinIsValid`: exactly four digits. */
  predicate AcctPinIsValid(p: string) {
    |p| == 4 && IsDigitStr(p)
  }

  /** The account-number shape, character by character. */
  lemma AcctNumberShape(s: string)
    ensures AcctNumberIsValid(s) <==>
            |s| == 8 && IsAlpha(s[0]) && IsAlpha(s[1]) && s[2] == '-' &&
            forall i :: 3 <= i < 8 ==> IsDigit(s[i])
  {
    if |s| == 8 {
      assert s[..2][0] == s[0] && s[..2][1] == s[1];
      if forall i :: 3 <= i < 8 ==> IsDigit(s[i]) {
        assert forall j :: 0 <= j < 5 ==> s[3..8][j] == s[j + 3];
      }
      if IsDigitStr(s[3..8]) {
        assert forall i :: 3 <= i < 8 ==> s[i] == s[3..8][i - 3];
      }
    }
  }

  /** The PIN shape, character by character. */
  lemma PinShape(p: string)
    ensures AcctPinIsValid(p) <==> |p| == 4 && IsDigit(p[0]) && IsDigit(p[1]) && IsDigit(p[2]) && IsDigit(p[3])
  {
    if |p| == 4 && IsDigit(p[0]) && IsDigit(p[1]) && IsDigit(p[2]) && IsDigit(p[3]) {
      assert forall i :: 0 <= i < 4 ==> IsDigit(p[i]) by {
        forall i | 0 <= i < 4 ensures IsDigit(p[i]) {
          assert i == 0 || i == 1 || i == 2 || i == 3;
        }
      }
    }
  }

  /** Neither a valid account number nor a valid PIN can hold a `#`. */
  lemma NoHashInCredentials(acct: string, pin: string)
    requires AcctNumberIsValid(acct) && AcctPinIsValid(pin)
    ensures '#' !in acct && '#' !in pin
  {
    AcctNumberShape(acct);
    assert forall i :: 0 <= i < |pin| ==> IsDigit(pin[i]);
    assert forall i :: 0 <= i < 8 ==> acct[i] != '#' by {
      forall i | 0 <= i < 8 ensures acct[i] != '#' {
        if i < 2 {
          assert IsAlpha(acct[i]);
        } else if i > 2 {
          assert IsDigit(acct[i]);
        }
      }
    }
  }

  /** A `BankAccount`: number, PIN and balance. */
  datatype Account = Account(number: string, pin: string, balance: real)

  /** The class attributes a field keeps when the constructor rejects its argument. */
  const DefaultNumber: string := ""
  const DefaultPin: string := ""
  const DefaultBalance: real := 0.0

  /** What every account the server builds satisfies: each field valid or at its default. */
  predicate AccountOk(a: Account) {
    (AcctNumberIsValid(a.number) || a.number == DefaultNumber) &&
    (AcctPinIsValid(a.pin) || a.pin == DefaultPin) &&
    AmountIsValid(a.balance)
  }

  /** `BankAccount(ac_num, ac_pin, bal)`: each argument is stored only if it is valid. */
  function NewAccount(num: string, pin: string, bal: real): (a: Account)
    ensures AccountOk(a)
    ensures AcctNumberIsValid(num) <==> a.number == num && num != DefaultNumber
    ensures AcctPinIsValid(pin) <==> a.pin == pin && pin != DefaultPin
    ensures !AcctNumberIsValid(num) ==> a.number == DefaultNumber
    ensures !AcctPinIsValid(pin) ==> a.pin == DefaultPin
    ensures AmountIsValid(bal) ==> a.balance == bal
    ensures !AmountIsValid(bal) ==> a.balance == DefaultBalance
  {
    Account(
      if AcctNumberIsValid(num) then num else DefaultNumber,
      if AcctPinIsValid(pin) then pin else DefaultPin,
      if AmountIsValid(bal) then bal else DefaultBalance)
  }

  /** `checkPin`: "T" when the PIN matches, "F" otherwise. */
  function CheckPin(a: Account, pin: string): (r: string)
    ensures r == "T" || r == "F"
    ensures r == "T" <==> a.pin == pin
  {
    if a.pin == pin then "T" else "F"
  }

  /** The result codes of `deposit` and `withdraw`. */
  datatype TxCode = Ok | InvalidAmount | Overdraft {
    /** The integer the source returns. */
    function Code(): int {
      match this
      case Ok => 0
      case InvalidAmount => 1
      case Overdraft => 2
    }
  }

  /** The account after the transaction and the result code; the balance is `account.balance`. */
  datatype TxResult = TxResult(account: Account, code: TxCode)

  /** `deposit`: add a valid amount and round the balance to cents. */
  function Deposit(a: Account, amount: real): (r: TxResult)
    ensures r.code != Overdraft
    ensures r.code == InvalidAmount <==> !AmountIsValid(amount)
    ensures r.code != Ok ==> r.account == a
    ensures r.account.number == a.number && r.account.pin == a.pin
    ensures r.code == Ok && AccountOk(a) ==>
              r.account.balance == a.balance + amount && r.account.balance >= a.balance
    ensures AccountOk(a) ==> AccountOk(r.account)
  {
    if !AmountIsValid(amount) then TxResult(a, InvalidAmount)
    else
      var b := Round2(a.balance + amount);
      assert AccountOk(a) ==> b == a.balance + amount by {
        if AccountOk(a) { ValidSum(a.balance, amount); }
      }
      TxResult(a.(balance := b), Ok)
  }

  /** `withdraw`: reject an invalid amount, then an overdraft, else subtract and round. */
  function Withdraw(a: Account, amount: real): (r: TxResult)
    ensures r.code == InvalidAmount <==> !AmountIsValid(amount)
    ensures r.code == Overdraft <==> AmountIsValid(amount) && amount > a.balance
    ensures r.code != Ok ==> r.account == a
    ensures r.account.number == a.number && r.account.pin == a.pin
    ensures r.code == Ok && AccountOk(a) ==>
              r.account.balance == a.balance - amount && 0.0 <= r.account.balance <= a.balance
    ensures AccountOk(a) ==> AccountOk(r.account)
  {
    if !AmountIsValid(amount) then TxResult(a, InvalidAmount)
    else if amount > a.balance then TxResult(a, Overdraft)
    else
      var b := Round2(a.balance - amount);
      assert AccountOk(a) ==> b == a.balance - amount by {
        if AccountOk(a) { ValidDifference(a.balance, amount); }
      }
      TxResult(a.(balance := b), Ok)
  }

  /** Depositing a valid amount and withdrawing it again succeeds twice and restores the account. */
  lemma DepositThenWithdraw(a: Account, amount: real)
    requires AccountOk(a) && AmountIsValid(amount)
    ensures Deposit(a, amount).code == Ok
    ensures Withdraw(Deposit(a, amount).account, amount).code == Ok
    ensures Withdraw(Deposit(a, amount).account, amount).account == a
  {
    var d := Deposit(a, amount);
    assert d.account.balance == a.balance + amount;
    var w := Withdraw(d.account, amount);
    assert w.account.balance == a.balance;
  }

  /** More than two decimals is rejected: depositing 123.4567 gives code 1. */
  lemma DepositRejectsFourDecimals(a: Account)
    ensures Deposit(a, 123.4567).code.Code() == 1
    ensures Deposit(a, 123.4567).account == a
  {
    AmountIsValidIff(123.4567);
    assert (123.4567 * 100.0).Floor == 12345;
  }

  /** Withdrawing more than the balance is refused: 12345.45 from a smaller balance gives code 2. */
  lemma WithdrawRefusesOverdraft(a: Account)
    requires a.balance < 12345.45
    ensures Withdraw(a, 12345.45).code.Code() == 2
    ensures Withdraw(a, 12345.45).account == a
  {
    AmountIsValidIff(12345.45);
    assert (12345.45 * 100.0).Floor == 1234545;
  }
}
