# Bank server and ATM client: the in-memory banking core

This project models the request-handling core of a small banking system written in Python. The bank server keeps accounts in memory (`ALL_ACCOUNTS`) and a login registry (`connected_accounts`). It answers `##`-delimited text frames from ATM clients. The model covers:

- the format checks for account numbers, PINs and amounts;
- the `BankAccount` record: its constructor, `checkPin`, `deposit` and `withdraw`, with result codes 0/1/2;
- the account table: `get_acct`, `load_account`, and the per-line logic of `load_all_accounts`;
- the login registry maintained by `validate`;
- the frame dispatcher `run_network_server`, with its `deposit`/`withdraw` reply wrappers, and the per-connection loop of `handle_client`;
- on the client side: the account and PIN checks, the frames the ATM builds, and how it reads the replies. A whole ATM session is proved to run against the server without a fault and to leave the registry as it found it, minus this account.

Modules follow the program's structure:

- `Maybe`: an optional value.
- `Text`: the Python string operations used: `isdigit`, `isalpha`, `lower`, `replace`, the whitespace strip inside `float()` and `split`. `Join` is not used by the code; it is the inverse of `split` that the lemmas state round trips with.
- `Amounts`: exact-decimal money. Includes `round(x, 2)`, `amountIsValid`, `float(text)` as a parser that may fail, and `str(x)` for two-decimal values.
- `Accounts`: the `BankAccount` class.
- `AccountTable`: `ALL_ACCOUNTS` and the account file loader.
- `Server`: `validate`, the reply wrappers, `run_network_server` and `handle_client`.
- `SpecialFloats`: amounts as Python floats with `inf` and `nan`, used only to state the finding below and its correction.
- `Client`: `atm_client.py`'s frames, reply interpretation and session. The client's account and PIN checks (atm_client.py:40 and 45) are the same expressions as the server's `acctNumberIsValid` and `acctPinIsValid`, so `LoginInputOk` is defined from those predicates.

Modelling choices:

- Amounts are exact `real`s, not binary floats. `round(x, 2)` is rounding half to even on the exact value.
- `float(text)` is `ParseAmount`. It strips surrounding ASCII whitespace, takes an optional sign, then digits with at most one point and at least one digit. `None` stands for `ValueError`.
- `str(x)` is `FormatAmount`: the positional text Python prints for a value with at most two decimals below 10^16 ("150.0", "0.5", "123.45"). It is used for balances, and every balance in the model is such a value. In the code a balance can also become `inf` or `nan` (see "## Findings").
- A handler that raises (`IndexError` on a missing field, `KeyError` on an unknown account, `ValueError` on an amount `float()` rejects) is an explicit `Crash` outcome. Every such raise happens before any state is changed. It ends that connection's thread, so `Serve` stops there.
- The login quirk is kept. `validate` enters a known account in the registry even when the PIN is wrong (the reply is then "F"). A client refused with "D" still sends `END`, which removes the account although its first session is still open.

The protocol, as the code implements it:

- `Validate` is answered "T", "F" or "D". A deposit is answered "YD" or "ND", and a withdrawal "YW" or "NW".
- The server keeps one global list of logged-in account numbers.
- The account is taken from each frame, not from the connection.
- An unknown command is ignored and the loop goes on reading.

## Model

| member | source | states |
|---|---|---|
| `Amounts.RoundIdentityIff` | bank_server.py:53 | `round(x, 2) == x` holds exactly when `x` has at most two decimals |
| `Amounts.AmountIsValidIff` | bank_server.py:50-53 | an amount is valid exactly when it is non-negative with at most two decimals |
| `Amounts.ValidSum` | bank_server.py:84-85 | adding two valid amounts gives a valid amount that rounding leaves unchanged |
| `Amounts.ValidDifference` | bank_server.py:101-102 | subtracting a valid amount no larger than a valid balance leaves a valid balance that rounding leaves unchanged |
| `Amounts.FormatParseRoundTrip` | bank_server.py:206 | the text `str` gives for a valid amount parses back with `float()` to exactly that amount |
| `Amounts.ParsedChars` | bank_server.py:117 | text `float()` accepts holds only digits, whitespace, a point and signs |
| `Amounts.DigitsRoundTrip` | bank_server.py:206 | the decimal digits written for a whole number read back as that number |
| `Amounts.PointedRoundTrip` | bank_server.py:168 | a digit string, a point and a digit string parse to the whole part plus the fraction |
| `Text.Lower` | bank_server.py:145 | lower-casing keeps the length and lowers each letter in place |
| `Text.Without` | bank_server.py:145 | removing spaces leaves no space, keeps every other character as often as it occurred, and never lengthens the text |
| `Text.WithoutAppend` | bank_server.py:145 | removal works piece by piece, so the kept characters stay in their order |
| `Text.WithoutSingle` | bank_server.py:145 | a single character is dropped exactly when it is the removed one |
| `Text.LowerKeepsOther` | bank_server.py:145 | lower-casing neither adds nor removes a non-letter such as the comma |
| `Text.JoinSplit` | bank_server.py:193 | joining the pieces of a split with the separator gives back the original text |
| `Text.SplitJoin` | bank_server.py:193 | splitting a join gives back the parts when no part holds the separator's first character |
| `Text.SplitPieces` | bank_server.py:145 | splitting on a one-character separator gives pieces that hold no separator and only characters of the input |
| `Accounts.AcctNumberShape` | bank_server.py:36-44 | a number is valid exactly when it is 8 characters: two letters, a dash, five digits |
| `Accounts.PinShape` | bank_server.py:46-48 | a PIN is valid exactly when it is four digits |
| `Accounts.NewAccount` | bank_server.py:55-68 | the constructor keeps each valid argument, keeps the class default for each invalid one, and yields a well-formed account |
| `Accounts.CheckPin` | bank_server.py:70-73 | the answer is "T" exactly when the PIN matches, else "F" |
| `Accounts.Deposit` | bank_server.py:75-86 | code 1 exactly for an invalid amount, with the account unchanged; otherwise code 0 and the balance grows by the amount; a well-formed account stays well formed |
| `Accounts.Withdraw` | bank_server.py:88-103 | code 1 for an invalid amount, code 2 for a valid amount above the balance, both with the account unchanged; otherwise code 0 and the balance shrinks by the amount and stays non-negative |
| `Accounts.DepositThenWithdraw` | bank_server.py:231-241 | depositing a valid amount and withdrawing it again gives code 0 twice and restores the account |
| `Accounts.DepositRejectsFourDecimals` | bank_server.py:243-248 | depositing 123.4567 gives code 1 and changes nothing |
| `Accounts.WithdrawRefusesOverdraft` | bank_server.py:249-254 | withdrawing 12345.45 from a smaller balance gives code 2 and changes nothing |
| `AccountTable.GetAcct` | bank_server.py:105-111 | the record is returned exactly for a well-formed number present in the table |
| `AccountTable.LoadAccount` | bank_server.py:113-130 | loading succeeds exactly when the balance parses and the number is valid and new; on failure the table is unchanged; on success only the new record is added, and `get_acct` finds it |
| `AccountTable.GetAcctOnOkTable` | bank_server.py:105-111 | on a well-formed table a lookup succeeds exactly for the stored numbers, and finds the record filed under that number |
| `AccountTable.LoadKeepsDefaultBalance` | bank_server.py:117-125 | a parseable but invalid balance, a negative one say, is still loaded, with the balance 0.0 |
| `AccountTable.LoadKeepsDefaultPin` | bank_server.py:65-66 | an invalid PIN is still loaded, with the PIN "", whatever the balance |
| `AccountTable.LineFields` | bank_server.py:145 | the fields hold no spaces and no commas, and joined with commas they give back the lower-cased line without its spaces |
| `AccountTable.SplitThree` | bank_server.py:145 | three comma-free pieces joined by commas split back into those three pieces |
| `AccountTable.LineFieldsOfThree` | bank_server.py:145-149 | a line of three comma-separated pieces gives exactly those pieces, each lower-cased and without spaces, in order |
| `AccountTable.LoadLineCases` | bank_server.py:141-149 | a comment line and a line without exactly three fields are skipped; otherwise the three fields go to `load_account` in order |
| `AccountTable.LoadAllKeepsEarlier` | bank_server.py:119-121 | a record already loaded is never replaced by a later line: the first occurrence wins |
| `AccountTable.LoadAllOk` | bank_server.py:132-151 | whatever the file holds, the loaded table is well formed |
| `AccountTable.LoadAllStopsAtEmpty` | bank_server.py:136-140 | reading stops at the first empty line, the end of the file |
| `Server.Boot` | bank_server.py:277-280 | the server starts with the loaded accounts, nobody logged in, and its invariant holding |
| `Server.RemoveFirst` | bank_server.py:198-199 | removal takes out one occurrence of the account if present and leaves the list alone otherwise |
| `Server.RemoveFirstKeepsOrder` | bank_server.py:198-199 | `list.remove` takes out the first occurrence: a list written `p + [x] + q` with no `x` in `p` becomes `p + q`, the other entries in their order |
| `Server.RemoveFirstDistinct` | bank_server.py:198-199 | removing from a duplicate-free registry removes the account entirely and keeps the rest distinct |
| `Server.Validate` | bank_server.py:153-165 | unknown account: "F", no change; account already registered: "D", no change; otherwise the account is appended and the PIN check answers; "T" exactly for a known, unregistered account with the right PIN; the invariant is kept |
| `Server.WrongPinStillRegisters` | bank_server.py:158-163 | a wrong PIN is answered "F" but still enters the account in the registry |
| `Server.SecondLoginRefused` | bank_server.py:160-161 | while an account is registered every login for it gets "D" and changes nothing |
| `Server.DepositCmd` | bank_server.py:167-173 | "YD" exactly when the account's deposit returns code 0, that is, exactly for a valid amount, else "ND" with nothing changed; on "YD" the named account becomes exactly what its deposit returns, and the other accounts and the registry are kept |
| `Server.WithdrawCmd` | bank_server.py:175-181 | "YW" exactly when the account's withdraw returns code 0, that is, exactly for a valid amount within the balance, else "NW" with nothing changed; on "YW" the named account becomes exactly what its withdraw returns, and the other accounts and the registry are kept |
| `Server.DepositThenWithdrawCmd` | bank_server.py:167-181 | a deposit and a withdrawal of the same valid amount answer "YD" then "YW" and restore the state |
| `Server.EndCmd` | bank_server.py:196-200 | END with an account removes it from the registry, leaves the accounts alone, replies nothing and stops the loop |
| `Server.ValidateCmd` | bank_server.py:202-203 | a Validate frame with account and PIN runs `validate`; a missing field raises |
| `Server.BalanceCmd` | bank_server.py:205-206 | a Balance frame for a known account answers `str` of the balance and changes nothing; a missing field or unknown account raises |
| `Server.TransactionCmd` | bank_server.py:168-181 | a Deposit or Withdraw frame runs the wrapper exactly when the account exists and the amount parses, and its reply and resulting state are the wrapper's; the registry and the other accounts are kept; otherwise it raises on a missing account field, then an unknown account, then a missing amount field, then an amount `float()` rejects, in that order |
| `Server.Dispatch` | bank_server.py:191-214 | the loop goes on after every command but END; an unrecognised command changes nothing and sends nothing; the invariant is kept |
| `Server.DispatchTouches` | bank_server.py:191-214 | only END and Validate change the registry; only Deposit and Withdraw change the accounts |
| `Server.Serve` | bank_server.py:264-270 | the connection loop keeps the invariant and sends at most one reply per frame |
| `Server.ServeStopsAtEnd` | bank_server.py:267-270 | frames after the one that stops the loop are never handled |
| `Server.UnknownCommandIgnored` | bank_server.py:202-214 | a frame with an unknown command word, such as the empty frame of a closed peer, is skipped and the loop goes on |
| `Client.LoginFrameFields` | atm_client.py:27-30 | the login frame built from checked inputs splits into "Validate", the account and the PIN |
| `Client.BalanceFrameFields` | atm_client.py:73-76 | the balance frame splits into "Balance" and the account at index 1 |
| `Client.DepositFrameFields` | atm_client.py:62 | the deposit frame splits into "Deposit", the account at index 1 and the amount at index 2 |
| `Client.WithdrawFrameFields` | atm_client.py:92 | the withdrawal frame splits into "Withdraw", the account at index 1 and the amount at index 2 |
| `Client.EndFrameFields` | atm_client.py:137 | the END frame splits into "END" and the account |
| `Client.NoHashInAmount` | atm_client.py:55-62 | amount text `float()` accepted holds no `#`, so it cannot break the frame |
| `Client.LoginVerdict` | atm_client.py:124-134 | "T" lets the customer proceed, "D" means logged in elsewhere, anything else is a refusal |
| `Client.LoginOverWire` | atm_client.py:29 | the server answers a login frame with exactly what `validate` answers for the typed account and PIN |
| `Client.BalanceOverWire` | atm_client.py:75 | a balance request is answered with text that parses back to the balance, and changes nothing |
| `Client.DepositOverWire` | atm_client.py:62-70 | the client reports a deposit as completed exactly when the amount is valid |
| `Client.WithdrawOverWire` | atm_client.py:92-101 | the client reports a withdrawal as completed exactly when the amount is valid and within the balance |
| `Client.EndOverWire` | atm_client.py:137 | the END frame removes the account from the registry and stops the server's loop |
| `Client.DepositThenWithdrawOverWire` | atm_client.py:49-103 | a deposit then a withdrawal of the same valid amount over the wire answer "YD" then "YW" and restore the server |
| `Client.TxnOverWire` | atm_client.py:62 | a transaction request is handled by its reply wrapper and keeps the registry and the other accounts |
| `Client.OneTransaction` | atm_client.py:105-119 | one transaction's balance, request and balance frames give three replies and continue from the transaction's state |
| `Client.TransactionsThenEnd` | atm_client.py:135-137 | a logged-in customer's transactions then END never raise, get three replies each, and leave the registry without this account |
| `Client.LoggedInSession` | atm_client.py:125-137 | after "T" the session ends with the invariant kept and this account out of the registry |
| `Client.RefusedSession` | atm_client.py:127-134 | after "D" or a refusal the client's END leaves the accounts as they were and this account out of the registry |
| `Client.Session` | atm_client.py:121-138 | every ATM session with checked inputs ends on END without a fault: the registry is as before minus this account, and a refused login changes no account |
| `Client.RefusedClientEvictsOwner` | atm_client.py:127-130 | a client refused with "D" still sends END, which drops the live session's registration, so a further login is accepted with "T" |
| `SpecialFloats.DepositAsWritten` | bank_server.py:75-86 | `deposit` on Python floats: code 1 exactly when the as-written check fails, with the balance unchanged; never code 2 |
| `SpecialFloats.WithdrawAsWritten` | bank_server.py:88-103 | `withdraw` on Python floats: code 1 exactly when the as-written check fails, code 2 exactly for a valid amount that compares above the balance, both with the balance unchanged |
| `SpecialFloats.InfinityPassesAsWritten` | bank_server.py:50-53 | the check as written rejects `nan` and `-inf` but accepts `inf` |
| `SpecialFloats.InfinityBreaksTheBalance` | bank_server.py:84-85 | depositing `inf` succeeds and makes the balance `inf`; withdrawing `inf` then succeeds and leaves `nan`; after that every valid withdrawal succeeds |
| `SpecialFloats.CorrectedCheck` | bank_server.py:50-53 | the corrected check accepts exactly what the as-written one accepts, minus `inf`; on finite values it is the model's `AmountIsValid` |
| `SpecialFloats.CorrectedDepositStaysFinite` | bank_server.py:75-86 | with the corrected check a deposit keeps a valid finite balance finite and valid, and is exactly `Accounts.Deposit` on finite amounts |
| `SpecialFloats.CorrectedWithdrawStaysFinite` | bank_server.py:88-103 | with the corrected check a withdrawal keeps a valid finite balance finite and valid, and is exactly `Accounts.Withdraw` on finite amounts |

## Left out

- Sockets, `recv`/`sendall`, the accept loop, threads and the signal handler are transport and process lifecycle. A frame is an already-received string and a reply is a returned string.
- TCP framing is left out. The model assumes one `recv(1024)` delivers exactly one frame, with no coalesced or split frames and no UTF-8 decoding errors.
- Concurrency on `ALL_ACCOUNTS` and `connected_accounts` is left out. The code takes no locks, so races are a matter of scheduling. Sessions are modelled one after another.
- IEEE-754 behaviour of `float()`, `round()`, `+=` and `-=` is left out. Amounts are exact decimals.
- `float()` is modelled without exponents, `inf`/`nan`, underscores, and non-ASCII digits or whitespace. Text with those is treated as a `ValueError`.
- `inf` and `nan` amounts: in the code `inf` passes `amountIsValid`, so an account-file balance or a deposit of `inf` is accepted, and a later withdrawal of `inf` leaves `nan`. The balance invariant proved here (`AccountOk`, `Server.Valid`) is about the corrected, finite check and does not cover those balances. `SpecialFloats` states the code's behaviour; see "## Findings".
- `str(x)` is modelled only for values with at most two decimals. In the model every balance is such a value. In the code, balances of `inf` or `nan` print as "inf" and "nan".
- The client's `str(float(typed))`: the frame carries decimal amount text that the modelled `float()` accepts. `str` writes amounts below 0.0001 or of 10^16 and more in exponent form ("1e-05", "1e+16"), and writes "inf" and "nan". Sessions whose amounts print that way are not covered by `Client.Session`.
- `isalpha`, `isdigit` and `lower` are modelled on ASCII only.
- Amounts.FormatAmount: a balance of 10^16 or more is written positionally ("10000000000000000.0"), where Python's `str` switches to exponent form ("1e+16"). Such balances are beyond the cent precision of a binary float anyway, and exponents are outside the modelled `float()`, so `FormatParseRoundTrip` holds only for the positional text.
- File opening and `readline`: the file is a list of lines read up to the first empty one. A line keeps its trailing newline, which `float()` strips.
- The `print` logging, the `getpeername()` call in END handling, and `demo_bank_server` are left out. The demo's deposits and withdrawals appear only as lemmas.
- The client's `input` loops: `get_login_info` loops until the input is valid, so the session lemmas assume valid inputs. `process_customer_transactions` becomes the list of transactions the customer chose, and 'x' ends the list.
- SpecialFloats.CorrectedDepositStaysFinite: finite addition is exact in the model, so a sum that overflows the largest double to `inf` is not covered. Two deposits of 1.7e308 (sent as "1.7e+308") would make the balance `inf` in the code even with the corrected check. Withdrawals cannot overflow, since the result lies between zero and the balance.
- The constructor's default arguments are left out. `load_account` always passes all three.

## Findings

| source | as written | input that shows it | evidently intended | confidence | as-written member | corrected member |
|---|---|---|---|---|---|---|
| bank_server.py:50-53 | `amountIsValid` accepts `inf`, because `round(inf, 2) == inf` and `inf >= 0` | the frame `Deposit##a##inf` (the ATM sends it for a typed "inf" or "1e999"), then `Withdraw##a##inf`: both answer success and the balance becomes `nan`; after that `amount > balance` is always false, so every valid withdrawal answers "YW" | only finite, non-negative amounts with at most two decimals are valid, so no single amount makes a balance infinite or `nan` | not executed; high | `SpecialFloats.InfinityBreaksTheBalance` | `SpecialFloats.CorrectedDepositStaysFinite` |

The corrected check, `SpecialFloats.ValidCorrected`, is the as-written one minus `inf` (`SpecialFloats.CorrectedCheck`). On finite values it is `Amounts.AmountIsValid`, the check that the rest of the model uses. `SpecialFloats.CorrectedWithdrawStaysFinite` proves the same for withdrawals.
