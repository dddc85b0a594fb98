/**
 * The ATM client's side of the protocol: the input checks, the frames it
 * sends, how it reads the server's replies, and what a whole session does
 * to the server.
 */
module Client {
  import opened Maybe
  import opened Text
  import opened Amounts
  import opened Accounts
  import opened AccountTable
  import opened Server

  /**
   * The client's account and PIN checks. They are the same expressions as
   * the server's `acctNumberIsValid` and `acctPinIsValid`, so the model
   * uses those predicates.
   */
  predicate LoginInputOk(acct: string, pin: string) {
    AcctNumberIsValid(acct) && AcctPinIsValid(pin)
  }

  /** `login_to_server`'s frame. */
  function LoginFrame(acct: string, pin: string): string {
    "Validate##" + acct + "##" + pin
  }

  /** `get_acct_balance`'s frame. */
  function BalanceFrame(acct: string): string {
    "Balance##" + acct
  }

  /** `process_deposit`'s frame; `amount` is the text of the amount `float()` accepted. */
  function DepositFrame(acct: string, amount: string): string {
    "Deposit##" + acct + "##" + amount
  }

  /** `process_withdrawal`'s frame. */
  function WithdrawFrame(acct: string, amount: string): string {
    "Withdraw##" + acct + "##" + amount
  }

  /** The frame every way out of `run_atm_core_loop` sends. */
  function EndFrame(acct: string): string {
    "END##" + acct
  }

  /** Two `#`-free fields joined by "##" split back into the two fields. */
  lemma Fields2(a: string, b: string)
    requires '#' !in a && '#' !in b
    ensures Fields(a + "##" + b) == [a, b]
  {
    SplitFront(a, "##", b);
    SplitPlain(b, "##");
  }

  /** Three `#`-free fields joined by "##" split back into the three fields. */
  lemma Fields3(a: string, b: string, c: string)
    requires '#' !in a && '#' !in b && '#' !in c
    ensures Fields(a + "##" + b + "##" + c) == [a, b, c]
  {
    assert a + "##" + b + "##" + c == a + "##" + (b + "##" + c);
    SplitFront(a, "##", b + "##" + c);
    SplitFront(b, "##", c);
    SplitPlain(c, "##");
  }

  /** Text that `float()` accepts holds no `#`, so it can travel as a field. */
  lemma NoHashInAmount(amount: string)
    requires ParseAmount(amount).Some?
    ensures '#' !in amount
  {
    ParsedChars(amount);
    assert forall i :: 0 <= i < |amount| ==> amount[i] != '#' by {
      forall i | 0 <= i < |amount| ensures amount[i] != '#' {
        assert AmountChar(amount[i]);
      }
    }
  }

  /** A login frame built from checked inputs splits into the command, the account and the PIN. */
  lemma LoginFrameFields(acct: string, pin: string)
    requires LoginInputOk(acct, pin)
    ensures Fields(LoginFrame(acct, pin)) == ["Validate", acct, pin]
  {
    NoHashInCredentials(acct, pin);
    assert LoginFrame(acct, pin) == "Validate" + "##" + acct + "##" + pin;
    Fields3("Validate", acct, pin);
  }

  /** The balance request has the account at index 1, where the server reads it. */
  lemma BalanceFrameFields(acct: string)
    requires AcctNumberIsValid(acct)
    ensures Fields(BalanceFrame(acct)) == ["Balance", acct]
  {
    NoHashInCredentials(acct, "0000");
    assert BalanceFrame(acct) == "Balance" + "##" + acct;
    Fields2("Balance", acct);
  }

  /** A deposit request has the account at index 1 and the amount at index 2. */
  lemma DepositFrameFields(acct: string, amount: string)
    requires AcctNumberIsValid(acct) && ParseAmount(amount).Some?
    ensures Fields(DepositFrame(acct, amount)) == ["Deposit", acct, amount]
  {
    NoHashInCredentials(acct, "0000");
    NoHashInAmount(amount);
    assert DepositFrame(acct, amount) == "Deposit" + "##" + acct + "##" + amount;
    Fields3("Deposit", acct, amount);
  }

  /** A withdrawal request has the account at index 1 and the amount at index 2. */
  lemma WithdrawFrameFields(acct: string, amount: string)
    requires AcctNumberIsValid(acct) && ParseAmount(amount).Some?
    ensures Fields(WithdrawFrame(acct, amount)) == ["Withdraw", acct, amount]
  {
    NoHashInCredentials(acct, "0000");
    NoHashInAmount(amount);
    assert WithdrawFrame(acct, amount) == "Withdraw" + "##" + acct + "##" + amount;
    Fields3("Withdraw", acct, amount);
  }

  /** The end frame has the account at index 1. */
  lemma EndFrameFields(acct: string)
    requires AcctNumberIsValid(acct)
    ensures Fields(EndFrame(acct)) == ["END", acct]
  {
    NoHashInCredentials(acct, "0000");
    assert EndFrame(acct) == "END" + "##" + acct;
    Fields2("END", acct);
  }

  /** What the client makes of the login reply. */
  datatype Verdict = Proceed | AlreadyLoggedIn | Rejected

  /** "T" lets the customer transact, "D" means logged in elsewhere, anything else is a refusal. */
  function LoginVerdict(reply: string): (v: Verdict)
    ensures v == Proceed <==> reply == "T"
    ensures v == AlreadyLoggedIn <==> reply == "D"
  {
    if reply == "T" then Proceed else if reply == "D" then AlreadyLoggedIn else Rejected
  }

  /** The client reports a deposit as completed exactly on "YD". */
  predicate DepositSucceeded(reply: string) {
    reply == "YD"
  }

  /** The client reports a withdrawal as completed exactly on "YW". */
  predicate WithdrawalSucceeded(reply: string) {
    reply == "YW"
  }

  /** A login frame reaches `validate` with the account and PIN the customer typed. */
  lemma LoginOverWire(st: ServerState, acct: string, pin: string)
    requires LoginInputOk(acct, pin)
    ensures var v := Validate(st, acct, pin);
            Dispatch(st, LoginFrame(acct, pin)) == Done(v.state, Some(v.text), true)
  {
    LoginFrameFields(acct, pin);
  }

  /** A balance request for a known account is answered with text that parses back to the balance. */
  lemma BalanceOverWire(st: ServerState, acct: string)
    requires Valid(st) && AcctNumberIsValid(acct) && acct in st.accounts
    ensures Dispatch(st, BalanceFrame(acct)) == Done(st, Some(FormatAmount(st.accounts[acct].balance)), true)
    ensures ParseAmount(FormatAmount(st.accounts[acct].balance)) == Some(st.accounts[acct].balance)
  {
    BalanceFrameFields(acct);
    FormatParseRoundTrip(st.accounts[acct].balance);
  }

  /** A deposit request reaches the account's deposit; the client sees success exactly for a valid amount. */
  lemma DepositOverWire(st: ServerState, acct: string, amount: string)
    requires AcctNumberIsValid(acct) && acct in st.accounts && ParseAmount(amount).Some?
    ensures var d := DepositCmd(st, acct, ParseAmount(amount).value);
            Dispatch(st, DepositFrame(acct, amount)) == Done(d.state, Some(d.text), true)
    ensures DepositSucceeded(Dispatch(st, DepositFrame(acct, amount)).reply.value) <==>
            AmountIsValid(ParseAmount(amount).value)
  {
    DepositFrameFields(acct, amount);
  }

  /** A withdrawal request reaches the account's withdraw; success exactly for a valid amount within the balance. */
  lemma WithdrawOverWire(st: ServerState, acct: string, amount: string)
    requires AcctNumberIsValid(acct) && acct in st.accounts && ParseAmount(amount).Some?
    ensures var w := WithdrawCmd(st, acct, ParseAmount(amount).value);
            Dispatch(st, WithdrawFrame(acct, amount)) == Done(w.state, Some(w.text), true)
    ensures WithdrawalSucceeded(Dispatch(st, WithdrawFrame(acct, amount)).reply.value) <==>
            AmountIsValid(ParseAmount(amount).value) &&
            ParseAmount(amount).value <= st.accounts[acct].balance
  {
    WithdrawFrameFields(acct, amount);
  }

  /** The end frame takes the account out of the registry and stops the server's loop. */
  lemma EndOverWire(st: ServerState, acct: string)
    requires AcctNumberIsValid(acct)
    ensures Dispatch(st, EndFrame(acct)) ==
            Done(st.(connected := RemoveFirst(st.connected, acct)), None, false)
  {
    EndFrameFields(acct);
  }

  /** Depositing an amount and withdrawing the same amount over the wire succeeds twice and restores the server. */
  lemma DepositThenWithdrawOverWire(st: ServerState, acct: string, amount: string)
    requires Valid(st) && AcctNumberIsValid(acct) && acct in st.accounts
    requires ParseAmount(amount).Some? && AmountIsValid(ParseAmount(amount).value)
    ensures Dispatch(st, DepositFrame(acct, amount)).Done?
    ensures var d := Dispatch(st, DepositFrame(acct, amount));
            d.reply == Some("YD") &&
            Dispatch(d.state, WithdrawFrame(acct, amount)) == Done(st, Some("YW"), true)
  {
    var v := ParseAmount(amount).value;
    DepositOverWire(st, acct, amount);
    DepositThenWithdrawCmd(st, acct, v);
    WithdrawOverWire(DepositCmd(st, acct, v).state, acct, amount);
  }

  /** One transaction the customer asks for, with the amount text `float()` accepted. */
  datatype Txn = DepositTxn(amount: string) | WithdrawTxn(amount: string)

  /** The request a transaction sends. */
  function TxnFrame(acct: string, t: Txn): string {
    match t
    case DepositTxn(amount) => DepositFrame(acct, amount)
    case WithdrawTxn(amount) => WithdrawFrame(acct, amount)
  }

  /** The server's answer to a transaction request and the state it leaves. */
  function TxnReply(st: ServerState, acct: string, t: Txn): Reply
    requires acct in st.accounts && ParseAmount(t.amount).Some?
  {
    match t
    case DepositTxn(amount) => DepositCmd(st, acct, ParseAmount(amount).value)
    case WithdrawTxn(amount) => WithdrawCmd(st, acct, ParseAmount(amount).value)
  }

  /** A transaction request is handled by the matching reply wrapper, which keeps the registry and the other accounts. */
  lemma TxnOverWire(st: ServerState, acct: string, t: Txn)
    requires AcctNumberIsValid(acct) && acct in st.accounts && ParseAmount(t.amount).Some?
    ensures var r := TxnReply(st, acct, t);
            Dispatch(st, TxnFrame(acct, t)) == Done(r.state, Some(r.text), true) &&
            r.state.connected == st.connected && r.state.accounts.Keys == st.accounts.Keys &&
            (forall n :: n in st.accounts && n != acct ==> r.state.accounts[n] == st.accounts[n]) &&
            (Valid(st) ==> Valid(r.state))
  {
    match t
    case DepositTxn(amount) => DepositOverWire(st, acct, amount);
    case WithdrawTxn(amount) => WithdrawOverWire(st, acct, amount);
  }

  /** Each transaction asks for the balance, makes the request, then asks for the balance again. */
  function TxnFrames(acct: string, txns: seq<Txn>): (frames: seq<string>)
    ensures |frames| == 3 * |txns|
  {
    if |txns| == 0 then []
    else [BalanceFrame(acct), TxnFrame(acct, txns[0]), BalanceFrame(acct)] + TxnFrames(acct, txns[1..])
  }

  /** The frames `run_atm_core_loop` sends after the login, given the login reply. */
  function SessionFrames(acct: string, loginReply: string, txns: seq<Txn>): seq<string> {
    if LoginVerdict(loginReply) == Proceed then TxnFrames(acct, txns) + [EndFrame(acct)]
    else [EndFrame(acct)]
  }

  predicate AmountsParse(txns: seq<Txn>) {
    forall i :: 0 <= i < |txns| ==> ParseAmount(txns[i].amount).Some?
  }

  /** One transaction's three frames: three replies, then the connection goes on from the transaction's state. */
  lemma OneTransaction(st: ServerState, acct: string, t: Txn, rest: seq<string>)
    requires Valid(st) && AcctNumberIsValid(acct) && acct in st.accounts && ParseAmount(t.amount).Some?
    ensures var st1 := TxnReply(st, acct, t).state;
            var s := Serve(st1, rest);
            var s0 := Serve(st, [BalanceFrame(acct), TxnFrame(acct, t), BalanceFrame(acct)] + rest);
            s0.state == s.state && s0.ending == s.ending && |s0.replies| == 3 + |s.replies|
  {
    var b := BalanceFrame(acct);
    var x := TxnFrame(acct, t);
    var st1 := TxnReply(st, acct, t).state;
    assert [b, x, b] + rest == [b] + ([x] + ([b] + rest));
    BalanceOverWire(st, acct);
    ServeFirst(st, b, [x] + ([b] + rest));
    TxnOverWire(st, acct, t);
    ServeFirst(st, x, [b] + rest);
    BalanceOverWire(st1, acct);
    ServeFirst(st1, b, rest);
  }

  /**
   * A logged-in customer's transactions followed by END: the server never
   * raises, answers three times per transaction, stops on END, and keeps
   * the same accounts and the registry, minus this account.
   */
  lemma {:induction false} TransactionsThenEnd(st: ServerState, acct: string, txns: seq<Txn>)
    requires Valid(st) && AcctNumberIsValid(acct) && acct in st.accounts && AmountsParse(txns)
    ensures var s := Serve(st, TxnFrames(acct, txns) + [EndFrame(acct)]);
            s.ending == Stopped && |s.replies| == 3 * |txns| &&
            s.state.connected == RemoveFirst(st.connected, acct) &&
            s.state.accounts.Keys == st.accounts.Keys &&
            forall n :: n in st.accounts && n != acct ==> s.state.accounts[n] == st.accounts[n]
    decreases |txns|
  {
    var end := [EndFrame(acct)];
    if |txns| == 0 {
      EndOverWire(st, acct);
      assert TxnFrames(acct, txns) + end == [EndFrame(acct)];
    } else {
      var t := txns[0];
      var rest := TxnFrames(acct, txns[1..]) + end;
      assert TxnFrames(acct, txns) + end ==
             [BalanceFrame(acct), TxnFrame(acct, t), BalanceFrame(acct)] + rest;
      assert ParseAmount(t.amount).Some?;
      OneTransaction(st, acct, t, rest);
      TxnOverWire(st, acct, t);
      assert AmountsParse(txns[1..]) by {
        forall i | 0 <= i < |txns| - 1 ensures ParseAmount(txns[1..][i].amount).Some? {
          assert txns[1..][i] == txns[i + 1];
        }
      }
      TransactionsThenEnd(TxnReply(st, acct, t).state, acct, txns[1..]);
    }
  }

  /**
   * A whole ATM session with checked inputs and amounts `float()` accepts:
   * the login is answered, the server never raises, the session ends on
   * END, and afterwards the account is no longer in the registry while the
   * rest of the registry is as before. A refused login changes no account.
   */
  lemma Session(st: ServerState, acct: string, pin: string, txns: seq<Txn>)
    requires Valid(st) && LoginInputOk(acct, pin) && AmountsParse(txns)
    ensures Dispatch(st, LoginFrame(acct, pin)).Done?
    ensures var login := Dispatch(st, LoginFrame(acct, pin));
            login.reply.Some? &&
            var s := Serve(login.state, SessionFrames(acct, login.reply.value, txns));
            s.ending == Stopped && Valid(s.state) &&
            s.state.connected == RemoveFirst(st.connected, acct) &&
            acct !in s.state.connected &&
            s.state.accounts.Keys == st.accounts.Keys &&
            (login.reply.value != "T" ==> s.state.accounts == st.accounts)
  {
    LoginOverWire(st, acct, pin);
    if Validate(st, acct, pin).text == "T" {
      LoggedInSession(st, acct, pin, txns);
    } else {
      RefusedSession(st, acct, pin);
    }
  }

  /** After "T" the customer's transactions run and END takes the account back out of the registry. */
  lemma LoggedInSession(st: ServerState, acct: string, pin: string, txns: seq<Txn>)
    requires Valid(st) && LoginInputOk(acct, pin) && AmountsParse(txns)
    requires Validate(st, acct, pin).text == "T"
    ensures var s := Serve(Validate(st, acct, pin).state, TxnFrames(acct, txns) + [EndFrame(acct)]);
            s.ending == Stopped && Valid(s.state) &&
            s.state.connected == RemoveFirst(st.connected, acct) && acct !in s.state.connected &&
            s.state.accounts.Keys == st.accounts.Keys
  {
    var st1 := Validate(st, acct, pin).state;
    assert st1.connected == st.connected + [acct];
    RemoveAppended(st.connected, acct);
    RemoveFirstDistinct(st.connected, acct);
    TransactionsThenEnd(st1, acct, txns);
  }

  /** After any other answer the client sends only END, which leaves the accounts alone. */
  lemma RefusedSession(st: ServerState, acct: string, pin: string)
    requires Valid(st) && LoginInputOk(acct, pin)
    requires Validate(st, acct, pin).text != "T"
    ensures var s := Serve(Validate(st, acct, pin).state, [EndFrame(acct)]);
            s.ending == Stopped && Valid(s.state) &&
            s.state == st.(connected := RemoveFirst(st.connected, acct)) && acct !in s.state.connected
  {
    var st1 := Validate(st, acct, pin).state;
    RemoveFirstDistinct(st.connected, acct);
    if acct in st.accounts && acct !in st.connected {
      assert st1.connected == st.connected + [acct];
      RemoveAppended(st.connected, acct);
    }
    EndOverWire(st1, acct);
  }

  /** Removing an account just appended to a registry that lacked it gives the registry back. */
  lemma {:induction false} RemoveAppended(s: seq<string>, x: string)
    requires x !in s
    ensures RemoveFirst(s + [x], x) == s
    decreases |s|
  {
    if |s| > 0 {
      assert (s + [x])[0] == s[0];
      assert (s + [x])[1..] == s[1..] + [x];
      RemoveAppended(s[1..], x);
      assert s == [s[0]] + s[1..];
    }
  }

  /**
   * The client that gets "D" still sends END, which takes the account out
   * of the registry although its first session is still open: a third
   * login with the right PIN is then accepted.
   */
  lemma RefusedClientEvictsOwner(st: ServerState, acct: string, pin: string)
    requires Valid(st) && LoginInputOk(acct, pin)
    requires acct in st.accounts && acct in st.connected && st.accounts[acct].pin == pin
    ensures Dispatch(st, LoginFrame(acct, pin)) == Done(st, Some("D"), true)
    ensures var s := Serve(st, SessionFrames(acct, "D", []));
            acct !in s.state.connected &&
            Dispatch(s.state, LoginFrame(acct, pin)).Done? &&
            Dispatch(s.state, LoginFrame(acct, pin)).reply == Some("T")
  {
    LoginOverWire(st, acct, pin);
    EndOverWire(st, acct);
    RemoveFirstDistinct(st.connected, acct);
    var s := Serve(st, SessionFrames(acct, "D", []));
    assert s.state.accounts == st.accounts;
    LoginOverWire(s.state, acct, pin);
  }
}
