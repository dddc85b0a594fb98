/**
 * The bank server's request handling: the login registry
 * `connected_accounts`, the deposit and withdrawal reply wrappers, the
 * `##` frame dispatcher `run_network_server`, and the per-connection loop
 * of `handle_client` over frames already received.
 */
module Server {
  import opened Maybe
  import opened Text
  import opened Amounts
  import opened Accounts
  import opened AccountTable

  /** No account number appears twice in the login registry. */
  predicate NoDuplicates(s: seq<string>) {
    forall i, j :: 0 <= i < j < |s| ==> s[i] != s[j]
  }

  /** `ALL_ACCOUNTS` and `connected_accounts`. */
  datatype ServerState = ServerState(accounts: Table, connected: seq<string>)

  /** The invariant the server keeps: a well-formed table and a registry of distinct known accounts. */
  predicate Valid(st: ServerState) {
    TableOk(st.accounts) && NoDuplicates(st.connected) &&
    forall a :: a in st.connected ==> a in st.accounts
  }

  /** The server as it starts: the loaded accounts and nobody logged in. */
  function Boot(lines: seq<string>): (st: ServerState)
    ensures Valid(st)
    ensures st.connected == []
  {
    LoadAllOk(map[], lines);
    ServerState(LoadAll(map[], lines), [])
  }

  /** `if a in lst: lst.remove(a)`: drop the first occurrence of `x`, if any. */
  function RemoveFirst(s: seq<string>, x: string): (r: seq<string>)
    ensures x !in s ==> r == s
    ensures multiset(r) == multiset(s) - multiset{x}
    decreases |s|
  {
    if |s| == 0 then []
    else if s[0] == x then
      assert s == [s[0]] + s[1..];
      s[1..]
    else
      assert s == [s[0]] + s[1..];
      [s[0]] + RemoveFirst(s[1..], x)
  }

  /** Removal from a list that starts with the account drops exactly that head. */
  lemma RemoveFirstHead(x: string, q: seq<string>)
    ensures RemoveFirst([x] + q, x) == q
  {
    assert ([x] + q)[0] == x;
    assert ([x] + q)[1..] == q;
  }

  /** A head that is another account stays in front. */
  lemma RemoveFirstCons(a: string, x: string, t: seq<string>)
    requires a != x
    ensures RemoveFirst([a] + t, x) == [a] + RemoveFirst(t, x)
  {
    assert ([a] + t)[0] == a;
    assert ([a] + t)[1..] == t;
  }

  /** A non-empty prefix splits into its head and the rest. */
  lemma ConsSplit(p: seq<string>, x: string, q: seq<string>)
    requires |p| > 0
    ensures p + [x] + q == [p[0]] + (p[1..] + [x] + q)
    ensures p + q == [p[0]] + (p[1..] + q)
  {
  }

  /**
   * `list.remove` takes out the first occurrence and keeps the other
   * entries in their order: every list holding `x` is `p + [x] + q` with no
   * `x` in `p`, and the result is `p + q`.
   */
  lemma {:induction false} RemoveFirstKeepsOrder(p: seq<string>, x: string, q: seq<string>)
    requires x !in p
    ensures RemoveFirst(p + [x] + q, x) == p + q
    decreases |p|
  {
    if |p| == 0 {
      assert p + [x] + q == [x] + q;
      RemoveFirstHead(x, q);
    } else {
      ConsSplit(p, x, q);
      assert p[0] != x;
      RemoveFirstCons(p[0], x, p[1..] + [x] + q);
      RemoveFirstKeepsOrder(p[1..], x, q);
    }
  }

  /** Removing never introduces an account. */
  lemma {:induction false} RemoveFirstSubset(s: seq<string>, x: string)
    ensures forall y :: y in RemoveFirst(s, x) ==> y in s
    decreases |s|
  {
    if |s| > 0 && s[0] != x {
      RemoveFirstSubset(s[1..], x);
      assert RemoveFirst(s, x) == [s[0]] + RemoveFirst(s[1..], x);
    }
  }

  lemma NoDuplicatesTail(s: seq<string>)
    requires |s| > 0 && NoDuplicates(s)
    ensures NoDuplicates(s[1..]) && s[0] !in s[1..]
  {
    assert forall k :: 0 <= k < |s| - 1 ==> s[1..][k] == s[k + 1];
  }

  lemma NoDuplicatesCons(a: string, t: seq<string>)
    requires a !in t && NoDuplicates(t)
    ensures NoDuplicates([a] + t)
  {
    var s := [a] + t;
    forall i, j | 0 <= i < j < |s| ensures s[i] != s[j] {
      assert s[j] == t[j - 1];
      if i > 0 {
        assert s[i] == t[i - 1];
      }
    }
  }

  /** Removing from a registry without duplicates removes the account entirely and keeps the rest distinct. */
  lemma {:induction false} RemoveFirstDistinct(s: seq<string>, x: string)
    requires NoDuplicates(s)
    ensures NoDuplicates(RemoveFirst(s, x)) && x !in RemoveFirst(s, x)
    decreases |s|
  {
    if |s| > 0 {
      NoDuplicatesTail(s);
      if s[0] != x {
        var rest := RemoveFirst(s[1..], x);
        RemoveFirstDistinct(s[1..], x);
        RemoveFirstSubset(s[1..], x);
        NoDuplicatesCons(s[0], rest);
        assert RemoveFirst(s, x) == [s[0]] + rest;
      }
    }
  }

  /** What the server sent back and the state it left behind. */
  datatype Reply = Reply(state: ServerState, text: string)

  /**
   * `validate(conn, data)`: an unknown account is refused with "F"; an
   * account already in the registry gets "D"; any other known account is
   * added to the registry, whatever the PIN, and gets `checkPin`'s answer.
   */
  function Validate(st: ServerState, account: string, pin: string): (r: Reply)
    ensures account !in st.accounts ==> r == Reply(st, "F")
    ensures account in st.accounts && account in st.connected ==> r == Reply(st, "D")
    ensures account in st.accounts && account !in st.connected ==>
              r.state == st.(connected := st.connected + [account]) &&
              r.text == CheckPin(st.accounts[account], pin)
    ensures r.text == "T" <==>
              account in st.accounts && account !in st.connected && st.accounts[account].pin == pin
    ensures r.state.accounts == st.accounts
    ensures Valid(st) ==> Valid(r.state)
  {
    if account in st.accounts then
      var answer := CheckPin(st.accounts[account], pin);
      if account in st.connected then Reply(st, "D")
      else Reply(st.(connected := st.connected + [account]), answer)
    else Reply(st, "F")
  }

  /** The state with one account's record replaced. */
  function WithAccount(st: ServerState, number: string, a: Account): ServerState {
    st.(accounts := st.accounts[number := a])
  }

  /** The `deposit(conn, data)` wrapper: "YD" when the account's deposit returned code 0, else "ND". */
  function DepositCmd(st: ServerState, number: string, amount: real): (r: Reply)
    requires number in st.accounts
    ensures r.text == "YD" || r.text == "ND"
    ensures r.text == "YD" <==> AmountIsValid(amount)
    ensures r.text == "YD" <==> Deposit(st.accounts[number], amount).code == Ok
    ensures r.text == "ND" ==> r.state == st
    ensures r.state.connected == st.connected && r.state.accounts.Keys == st.accounts.Keys
    ensures r.text == "YD" ==> r.state.accounts[number] == Deposit(st.accounts[number], amount).account
    ensures forall n :: n in st.accounts && n != number ==> r.state.accounts[n] == st.accounts[n]
    ensures Valid(st) && r.text == "YD" ==>
              r.state.accounts[number].balance == st.accounts[number].balance + amount
    ensures Valid(st) ==> Valid(r.state)
  {
    var res := Deposit(st.accounts[number], amount);
    if res.code.Code() == 0 then Reply(WithAccount(st, number, res.account), "YD")
    else Reply(st, "ND")
  }

  /** The `withdraw(conn, data)` wrapper: "YW" when the account's withdrawal returned code 0, else "NW". */
  function WithdrawCmd(st: ServerState, number: string, amount: real): (r: Reply)
    requires number in st.accounts
    ensures r.text == "YW" || r.text == "NW"
    ensures r.text == "YW" <==> AmountIsValid(amount) && amount <= st.accounts[number].balance
    ensures r.text == "YW" <==> Withdraw(st.accounts[number], amount).code == Ok
    ensures r.text == "NW" ==> r.state == st
    ensures r.state.connected == st.connected && r.state.accounts.Keys == st.accounts.Keys
    ensures r.text == "YW" ==> r.state.accounts[number] == Withdraw(st.accounts[number], amount).account
    ensures forall n :: n in st.accounts && n != number ==> r.state.accounts[n] == st.accounts[n]
    ensures Valid(st) && r.text == "YW" ==>
              r.state.accounts[number].balance == st.accounts[number].balance - amount
    ensures Valid(st) ==> Valid(r.state)
  {
    var res := Withdraw(st.accounts[number], amount);
    if res.code.Code() == 0 then Reply(WithAccount(st, number, res.account), "YW")
    else Reply(st, "NW")
  }

  /** A deposit followed by a withdrawal of the same valid amount answers "YD", then "YW", and restores the state. */
  lemma DepositThenWithdrawCmd(st: ServerState, number: string, amount: real)
    requires Valid(st) && number in st.accounts && AmountIsValid(amount)
    ensures DepositCmd(st, number, amount).text == "YD"
    ensures WithdrawCmd(DepositCmd(st, number, amount).state, number, amount) == Reply(st, "YW")
  {
    var a := st.accounts[number];
    DepositThenWithdraw(a, amount);
    var d := DepositCmd(st, number, amount);
    assert d.state.accounts[number] == Deposit(a, amount).account;
    var w := WithdrawCmd(d.state, number, amount);
    assert w.state.accounts[number] == a;
    assert w.state.accounts == st.accounts;
  }

  /** Why a request handler raised instead of answering. */
  datatype Fault =
    | MissingField(index: nat)       // `IndexError`: the frame has no field at `index`
    | UnknownAccount(number: string) // `KeyError`: no such key in `ALL_ACCOUNTS`
    | NotAFloat(text: string)        // `ValueError`: `float()` rejected the amount text

  /**
   * The result of one request: either the handler raised, which ends the
   * connection's thread before anything was changed, or it finished with a
   * new state, an optional reply and whether to keep reading.
   */
  datatype Outcome =
    | Crash(fault: Fault)
    | Done(state: ServerState, reply: Option<string>, keepGoing: bool)

  /** The field separator of the wire protocol. */
  const Sep: string := "##"

  /** `data.split("##")`. */
  function Fields(frame: string): (fields: seq<string>)
    ensures |fields| >= 1
  {
    Split(frame, Sep)
  }

  /** The command word: the first field. */
  function Command(frame: string): string {
    Fields(frame)[0]
  }

  /** `END##a`: drop `a` from the registry, if there, and stop reading. */
  function EndCmd(st: ServerState, data: seq<string>): (r: Outcome)
    ensures r.Done? <==> |data| >= 2
    ensures r.Crash? ==> r.fault == MissingField(1)
    ensures r.Done? ==>
              !r.keepGoing && r.reply.None? && r.state.accounts == st.accounts &&
              r.state.connected == RemoveFirst(st.connected, data[1])
    ensures Valid(st) && r.Done? ==> Valid(r.state) && data[1] !in r.state.connected
  {
    if |data| < 2 then Crash(MissingField(1))
    else
      var connected := RemoveFirst(st.connected, data[1]);
      assert Valid(st) ==> data[1] !in connected && Valid(st.(connected := connected)) by {
        if Valid(st) {
          RemoveFirstDistinct(st.connected, data[1]);
          RemoveFirstSubset(st.connected, data[1]);
        }
      }
      Done(st.(connected := connected), None, false)
  }

  /** `Validate##a##p`: the login registry step, answered with "T", "F" or "D". */
  function ValidateCmd(st: ServerState, data: seq<string>): (r: Outcome)
    ensures r.Done? <==> |data| >= 3
    ensures r.Crash? ==> r.fault == MissingField(if |data| < 2 then 1 else 2)
    ensures r.Done? ==>
              r.keepGoing && r.state.accounts == st.accounts &&
              r.reply == Some(Validate(st, data[1], data[2]).text) &&
              r.state == Validate(st, data[1], data[2]).state
    ensures Valid(st) && r.Done? ==> Valid(r.state)
  {
    if |data| < 2 then Crash(MissingField(1))
    else if |data| < 3 then Crash(MissingField(2))
    else
      var v := Validate(st, data[1], data[2]);
      Done(v.state, Some(v.text), true)
  }

  /** `Balance##a`: answer `str` of the balance; nothing changes. */
  function BalanceCmd(st: ServerState, data: seq<string>): (r: Outcome)
    ensures r.Done? <==> |data| >= 2 && data[1] in st.accounts
    ensures r.Crash? ==> r.fault == (if |data| < 2 then MissingField(1) else UnknownAccount(data[1]))
    ensures r.Done? ==>
              r.keepGoing && r.state == st &&
              r.reply == Some(FormatAmount(st.accounts[data[1]].balance))
  {
    if |data| < 2 then Crash(MissingField(1))
    else if data[1] !in st.accounts then Crash(UnknownAccount(data[1]))
    else Done(st, Some(FormatAmount(st.accounts[data[1]].balance)), true)
  }

  /**
   * `Deposit##a##x` and `Withdraw##a##x`: look the account up, parse the
   * amount, then run the reply wrapper. The lookup happens before the
   * amount is read.
   */
  function TransactionCmd(st: ServerState, deposit: bool, data: seq<string>): (r: Outcome)
    ensures r.Done? <==> |data| >= 3 && data[1] in st.accounts && ParseAmount(data[2]).Some?
    ensures r.Crash? ==>
              r.fault == (if |data| < 2 then MissingField(1)
                          else if data[1] !in st.accounts then UnknownAccount(data[1])
                          else if |data| < 3 then MissingField(2)
                          else NotAFloat(data[2]))
    ensures r.Done? ==>
              r.keepGoing && r.state.connected == st.connected &&
              r.state.accounts.Keys == st.accounts.Keys &&
              (forall n :: n in st.accounts && n != data[1] ==> r.state.accounts[n] == st.accounts[n]) &&
              r.reply == Some(
                if deposit then DepositCmd(st, data[1], ParseAmount(data[2]).value).text
                else WithdrawCmd(st, data[1], ParseAmount(data[2]).value).text) &&
              r.state == (
                if deposit then DepositCmd(st, data[1], ParseAmount(data[2]).value).state
                else WithdrawCmd(st, data[1], ParseAmount(data[2]).value).state)
    ensures Valid(st) && r.Done? ==> Valid(r.state)
  {
    if |data| < 2 then Crash(MissingField(1))
    else if data[1] !in st.accounts then Crash(UnknownAccount(data[1]))
    else if |data| < 3 then Crash(MissingField(2))
    else match ParseAmount(data[2])
      case None => Crash(NotAFloat(data[2]))
      case Some(amount) =>
        var t := if deposit then DepositCmd(st, data[1], amount) else WithdrawCmd(st, data[1], amount);
        Done(t.state, Some(t.text), true)
  }

  /** The five command words the server acts on. */
  predicate IsKnownCommand(cmd: string) {
    cmd == "END" || cmd == "Validate" || cmd == "Balance" || cmd == "Deposit" || cmd == "Withdraw"
  }

  /**
   * `run_network_server(conn, data)`: split the frame on "##" and act on the
   * command word; any other word is ignored and the loop goes on.
   */
  function Dispatch(st: ServerState, frame: string): (r: Outcome)
    ensures r.Done? ==> (r.keepGoing <==> Command(frame) != "END")
    ensures !IsKnownCommand(Command(frame)) ==> r == Done(st, None, true)
    ensures Valid(st) && r.Done? ==> Valid(r.state)
  {
    var data := Fields(frame);
    var cmd := data[0];
    if cmd == "END" then EndCmd(st, data)
    else if cmd == "Validate" then ValidateCmd(st, data)
    else if cmd == "Balance" then BalanceCmd(st, data)
    else if cmd == "Deposit" then TransactionCmd(st, true, data)
    else if cmd == "Withdraw" then TransactionCmd(st, false, data)
    else Done(st, None, true)
  }

  /** Only END and Validate touch the registry; only Deposit and Withdraw touch the accounts. */
  lemma DispatchTouches(st: ServerState, frame: string)
    requires Dispatch(st, frame).Done?
    ensures var r := Dispatch(st, frame);
            (r.state.connected != st.connected ==> Command(frame) == "END" || Command(frame) == "Validate") &&
            (r.state.accounts != st.accounts ==> Command(frame) == "Deposit" || Command(frame) == "Withdraw")
  {
  }

  /** How a connection's request loop ended. */
  datatype Ending =
    | Stopped          // an END frame was handled
    | Crashed(fault: Fault)
    | AwaitingInput    // every frame was handled and the loop is still reading

  /** The state after a connection's frames, the replies sent in order, and how the loop ended. */
  datatype Served = Served(state: ServerState, replies: seq<string>, ending: Ending)

  /** The replies of one request as a list: a request may answer nothing. */
  function ReplyList(reply: Option<string>): seq<string> {
    match reply
    case None => []
    case Some(text) => [text]
  }

  /**
   * `handle_client`'s loop over the frames a connection delivers: handle
   * each in turn until one returns False (END) or raises.
   */
  function Serve(st: ServerState, frames: seq<string>): (r: Served)
    ensures Valid(st) ==> Valid(r.state)
    ensures |r.replies| <= |frames|
    ensures r.ending == AwaitingInput ==> forall i :: 0 <= i < |frames| ==> Command(frames[i]) != "END"
    decreases |frames|
  {
    if |frames| == 0 then Served(st, [], AwaitingInput)
    else
      match Dispatch(st, frames[0])
      case Crash(f) => Served(st, [], Crashed(f))
      case Done(st1, reply, keepGoing) =>
        if !keepGoing then Served(st1, ReplyList(reply), Stopped)
        else
          var rest := Serve(st1, frames[1..]);
          Served(rest.state, ReplyList(reply) + rest.replies, rest.ending)
  }

  /** A frame that keeps the loop going: its reply comes first, then the rest of the connection. */
  lemma ServeFirst(st: ServerState, frame: string, rest: seq<string>)
    requires Dispatch(st, frame).Done? && Dispatch(st, frame).keepGoing
    ensures var d := Dispatch(st, frame);
            var s := Serve(d.state, rest);
            Serve(st, [frame] + rest) == Served(s.state, ReplyList(d.reply) + s.replies, s.ending)
  {
    assert ([frame] + rest)[0] == frame;
    assert ([frame] + rest)[1..] == rest;
  }

  /** Frames after the one that stops the loop are never handled. */
  lemma {:induction false} ServeStopsAtEnd(st: ServerState, frames: seq<string>, later: seq<string>)
    requires Serve(st, frames).ending == Stopped
    ensures Serve(st, frames + later) == Serve(st, frames)
    decreases |frames|
  {
    assert (frames + later)[0] == frames[0];
    assert (frames + later)[1..] == frames[1..] + later;
    match Dispatch(st, frames[0])
    case Crash(f) =>
    case Done(st1, reply, keepGoing) =>
      if keepGoing {
        ServeStopsAtEnd(st1, frames[1..], later);
      }
  }

  /** An unknown command, such as the empty frame a closed peer delivers, is ignored and the loop goes on. */
  lemma UnknownCommandIgnored(st: ServerState, frame: string, rest: seq<string>)
    requires Command(frame) !in {"END", "Validate", "Balance", "Deposit", "Withdraw"}
    ensures Serve(st, [frame] + rest) == Serve(st, rest)
  {
    assert ([frame] + rest)[1..] == rest;
  }

  /** Logging in with a wrong PIN still enters the account in the registry. */
  lemma WrongPinStillRegisters(st: ServerState, account: string, pin: string)
    requires account in st.accounts && account !in st.connected
    requires st.accounts[account].pin != pin
    ensures Validate(st, account, pin).text == "F"
    ensures account in Validate(st, account, pin).state.connected
  {
  }

  /** While an account is logged in, every further login for it gets "D", even with the right PIN. */
  lemma SecondLoginRefused(st: ServerState, account: string, pin: string)
    requires account in st.accounts && account in st.connected
    ensures Validate(st, account, pin) == Reply(st, "D")
  {
  }
}
